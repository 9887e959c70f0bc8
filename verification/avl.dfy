/** The AVL tree of Arvores.py (classes AVLNode and AVLTree).

    A node stores its key, its two children and a cached height; the empty
    subtree has height 0 and a fresh node height 1. Insertion is recursive and
    returns the new subtree root, rebalancing with single or double rotations;
    a key that is already present is ignored. */
module Avl {
  import opened SortedSeq

  /** `height` is the value the node caches, which may in principle disagree
      with the real shape; `HeightsCorrect` says when it does not. */
  datatype Tree = Leaf | Node(left: Tree, key: int, right: Tree, height: int)

  function Max(a: int, b: int): int {
    if a >= b then a else b
  }

  /** The real height of a tree, computed from its shape alone. */
  function Depth(t: Tree): nat {
    match t
    case Leaf => 0
    case Node(l, _, r, _) => 1 + Max(Depth(l), Depth(r))
  }

  /** Every cached height equals the real height of its node. */
  predicate HeightsCorrect(t: Tree) {
    match t
    case Leaf => true
    case Node(l, _, r, h) => h == Depth(t) && HeightsCorrect(l) && HeightsCorrect(r)
  }

  /** At every node the real heights of the two children differ by at most one. */
  predicate Balanced(t: Tree) {
    match t
    case Leaf => true
    case Node(l, _, r, _) =>
      -1 <= Depth(l) - Depth(r) <= 1 && Balanced(l) && Balanced(r)
  }

  /** The shape every tree built by `Insert` keeps. */
  predicate IsAvl(t: Tree) {
    HeightsCorrect(t) && Balanced(t)
  }

  /** The number of nodes. */
  function Size(t: Tree): nat {
    match t
    case Leaf => 0
    case Node(l, _, r, _) => Size(l) + 1 + Size(r)
  }

  /** Some node of `t` stores `key`. */
  predicate Holds(t: Tree, key: int) {
    match t
    case Leaf => false
    case Node(l, k, r, _) => k == key || Holds(l, key) || Holds(r, key)
  }

  /** `in_order_traversal`: the left subtree's keys, the node's key, then the
      right subtree's keys. Each node contributes exactly one entry, and the
      keys listed are exactly those stored in the tree. */
  function InOrder(t: Tree): (r: seq<int>)
    ensures |r| == Size(t)
    ensures forall key :: key in r <==> Holds(t, key)
  {
    match t
    case Leaf => []
    case Node(l, k, r, _) => InOrder(l) + [k] + InOrder(r)
  }

  /** A binary search tree without duplicate keys. */
  predicate SearchTree(t: Tree) {
    StrictlyIncreasing(InOrder(t))
  }

  /** A fresh node: no children, height 1. */
  function NewNode(key: int): (r: Tree)
    ensures IsAvl(r) && InOrder(r) == [key]
    ensures Height(r) == 1
  {
    Node(Leaf, key, Leaf, 1)
  }

  /** The cached height, 0 for the empty tree. */
  function Height(t: Tree): (r: int)
    ensures HeightsCorrect(t) ==> r == Depth(t)
  {
    if t.Leaf? then 0 else t.height
  }

  /** Height of the left child minus height of the right child, 0 when empty. */
  function BalanceFactor(t: Tree): (r: int)
    ensures HeightsCorrect(t) && t.Node? ==> r == Depth(t.left) - Depth(t.right)
    ensures t.Leaf? ==> r == 0
  {
    if t.Leaf? then 0 else Height(t.left) - Height(t.right)
  }

  /** Recomputes the cached height of the root from its children's cached heights. */
  function UpdateHeight(t: Tree): (r: Tree)
    ensures InOrder(r) == InOrder(t)
    ensures t.Node? ==> r.Node? && r.left == t.left && r.right == t.right
    ensures t.Node? && HeightsCorrect(t.left) && HeightsCorrect(t.right) ==> HeightsCorrect(r)
  {
    if t.Leaf? then t else t.(height := 1 + Max(Height(t.left), Height(t.right)))
  }

  /** Promotes the left child `x` of `y`; `x`'s right subtree becomes `y`'s left.
      The height of `y` is recomputed before that of `x`, which sits above it. */
  function RotateRight(y: Tree): (r: Tree)
    requires y.Node? && y.left.Node?
    ensures r.Node? && r.key == y.left.key && r.right.Node? && r.right.key == y.key
    ensures InOrder(r) == InOrder(y)
    ensures HeightsCorrect(y.left.left) && HeightsCorrect(y.left.right) && HeightsCorrect(y.right)
            ==> HeightsCorrect(r)
  {
    var x := y.left;
    var y' := UpdateHeight(y.(left := x.right));
    UpdateHeight(x.(right := y'))
  }

  /** Mirror of `RotateRight`: promotes the right child `y` of `x`. */
  function RotateLeft(x: Tree): (r: Tree)
    requires x.Node? && x.right.Node?
    ensures r.Node? && r.key == x.right.key && r.left.Node? && r.left.key == x.key
    ensures InOrder(r) == InOrder(x)
    ensures HeightsCorrect(x.left) && HeightsCorrect(x.right.left) && HeightsCorrect(x.right.right)
            ==> HeightsCorrect(r)
  {
    var y := x.right;
    var x' := UpdateHeight(x.(right := y.left));
    UpdateHeight(y.(left := x'))
  }

  /** The children the rotations of `Rebalance` dereference are present. */
  predicate CanRebalance(n: Tree, key: int) {
    n.Node? &&
    (BalanceFactor(n) > 1 ==> n.left.Node? && (key >= n.left.key ==> n.left.right.Node?)) &&
    (BalanceFactor(n) < -1 ==> n.right.Node? && (key <= n.right.key ==> n.right.left.Node?))
  }

  /** The rebalancing step that ends each level of `Insert`: the rotation is
      chosen by comparing the inserted key with the key of the heavy child. */
  function Rebalance(n: Tree, key: int): (r: Tree)
    requires CanRebalance(n, key)
    ensures InOrder(r) == InOrder(n)
  {
    var balance := BalanceFactor(n);
    if balance > 1 then
      if key < n.left.key then RotateRight(n)
      else RotateRight(n.(left := RotateLeft(n.left)))
    else if balance < -1 then
      if key > n.right.key then RotateLeft(n)
      else RotateLeft(n.(right := RotateRight(n.right)))
    else n
  }

  /** AVL insertion. The result is again an AVL tree whose height is the old
      height or one more; when it grew, no rotation happened at the root and
      the root leans towards the side the key went to. */
  function Insert(t: Tree, key: int): (r: Tree)
    requires IsAvl(t)
    ensures IsAvl(r) && r.Node?
    ensures Height(t) <= Height(r) <= Height(t) + 1
    ensures t.Node? && Height(r) == Height(t) + 1 ==> Grew(t, r, key)
    decreases t
  {
    match t
    case Leaf => NewNode(key)
    case Node(l, k, rt, _) =>
      if key < k then
        var nl := Insert(l, key);
        InsertedLeft(t, nl, key);
        Rebalance(UpdateHeight(t.(left := nl)), key)
      else if key > k then
        var nr := Insert(rt, key);
        InsertedRight(t, nr, key);
        Rebalance(UpdateHeight(t.(right := nr)), key)
      else t
  }

  /** What a subtree that got taller looks like: same root, leaning towards the
      side `key` went to. */
  predicate Grew(t: Tree, r: Tree, key: int)
    requires t.Node? && r.Node?
  {
    r.key == t.key && key != t.key && BalanceFactor(r) == (if key < t.key then 1 else -1)
  }

  /** Result of `Insert` on a subtree, as its caller relies on it. */
  predicate InsertedInto(s: Tree, ns: Tree, key: int) {
    IsAvl(ns) && ns.Node? && Depth(s) <= Depth(ns) <= Depth(s) + 1 &&
    (s.Node? && Depth(ns) == Depth(s) + 1 ==> Grew(s, ns, key))
  }

  /** Right rotation of a node whose left child is two levels taller than its
      right one and leans left: an AVL tree of unchanged depth. */
  lemma SingleRightBalanced(n: Tree)
    requires n.Node? && n.left.Node?
    requires IsAvl(n.left) && IsAvl(n.right)
    requires Depth(n.left.left) == Depth(n.right) + 1 && Depth(n.left.right) == Depth(n.right)
    ensures IsAvl(RotateRight(n)) && Depth(RotateRight(n)) == Depth(n.right) + 2
  {
  }

  lemma SingleLeftBalanced(n: Tree)
    requires n.Node? && n.right.Node?
    requires IsAvl(n.right) && IsAvl(n.left)
    requires Depth(n.right.right) == Depth(n.left) + 1 && Depth(n.right.left) == Depth(n.left)
    ensures IsAvl(RotateLeft(n)) && Depth(RotateLeft(n)) == Depth(n.left) + 2
  {
  }

  /** Left-right double rotation of a node whose left child is two levels
      taller than its right one and leans right. */
  lemma DoubleRightBalanced(n: Tree)
    requires n.Node? && n.left.Node? && n.left.right.Node?
    requires IsAvl(n.left) && IsAvl(n.right)
    requires Depth(n.left.left) == Depth(n.right) && Depth(n.left.right) == Depth(n.right) + 1
    ensures IsAvl(RotateRight(n.(left := RotateLeft(n.left))))
    ensures Depth(RotateRight(n.(left := RotateLeft(n.left)))) == Depth(n.right) + 2
  {
    var m := n.left.right;
    assert IsAvl(m) && IsAvl(n.left.left);
    var l2 := RotateLeft(n.left);
    assert HeightsCorrect(l2.left) && HeightsCorrect(l2.right);
    assert l2.left.left == n.left.left && l2.left.right == m.left && l2.right == m.right;
    var r := RotateRight(n.(left := l2));
    assert r.left == l2.left && r.right.left == m.right && r.right.right == n.right;
    assert Balanced(r.left) && Balanced(r.right);
  }

  lemma DoubleLeftBalanced(n: Tree)
    requires n.Node? && n.right.Node? && n.right.left.Node?
    requires IsAvl(n.right) && IsAvl(n.left)
    requires Depth(n.right.right) == Depth(n.left) && Depth(n.right.left) == Depth(n.left) + 1
    ensures IsAvl(RotateLeft(n.(right := RotateRight(n.right))))
    ensures Depth(RotateLeft(n.(right := RotateRight(n.right)))) == Depth(n.left) + 2
  {
    var m := n.right.left;
    assert IsAvl(m) && IsAvl(n.right.right);
    var r2 := RotateRight(n.right);
    assert HeightsCorrect(r2.left) && HeightsCorrect(r2.right);
    assert r2.right.right == n.right.right && r2.right.left == m.right && r2.left == m.left;
    var r := RotateLeft(n.(right := r2));
    assert r.right == r2.right && r.left.right == m.left && r.left.left == n.left;
    assert Balanced(r.left) && Balanced(r.right);
  }

  /** One level of `Insert` after the key went into the left subtree. */
  lemma InsertedLeft(t: Tree, nl: Tree, key: int)
    requires t.Node? && IsAvl(t) && key < t.key
    requires InsertedInto(t.left, nl, key)
    ensures CanRebalance(UpdateHeight(t.(left := nl)), key)
    ensures InsertedInto(t, Rebalance(UpdateHeight(t.(left := nl)), key), key)
  {
    var n := UpdateHeight(t.(left := nl));
    assert n.left == nl && n.right == t.right && n.key == t.key;
    var bf := Depth(nl) - Depth(t.right);
    assert BalanceFactor(n) == bf;
    if bf > 1 {
      assert t.left.Node? && Depth(nl) == Depth(t.left) + 1;
      if key < nl.key {
        SingleRightBalanced(n);
      } else {
        DoubleRightBalanced(n);
      }
    }
  }

  /** One level of `Insert` after the key went into the right subtree. */
  lemma InsertedRight(t: Tree, nr: Tree, key: int)
    requires t.Node? && IsAvl(t) && key > t.key
    requires InsertedInto(t.right, nr, key)
    ensures CanRebalance(UpdateHeight(t.(right := nr)), key)
    ensures InsertedInto(t, Rebalance(UpdateHeight(t.(right := nr)), key), key)
  {
    var n := UpdateHeight(t.(right := nr));
    assert n.right == nr && n.left == t.left && n.key == t.key;
    var bf := Depth(t.left) - Depth(nr);
    assert BalanceFactor(n) == bf;
    if bf < -1 {
      assert t.right.Node? && Depth(nr) == Depth(t.right) + 1;
      if key > nr.key {
        SingleLeftBalanced(n);
      } else {
        DoubleLeftBalanced(n);
      }
    }
  }

  /** One level of `Insert`, seen through the in-order sequence: rebalancing
      does not move any key. */
  lemma InsertUnfold(t: Tree, key: int)
    requires IsAvl(t) && t.Node?
    ensures key < t.key ==> InOrder(Insert(t, key)) == InOrder(Insert(t.left, key)) + [t.key] + InOrder(t.right)
    ensures key > t.key ==> InOrder(Insert(t, key)) == InOrder(t.left) + [t.key] + InOrder(Insert(t.right, key))
    ensures key == t.key ==> Insert(t, key) == t
  {
  }

  /** Insertion into a search tree puts the key at its sorted position in the
      in-order sequence, and drops it when it is already there. */
  lemma {:induction false} InsertInOrder(t: Tree, key: int)
    requires IsAvl(t) && SearchTree(t)
    ensures InOrder(Insert(t, key)) == InsertUnique(InOrder(t), key)
    decreases t
  {
    match t
    case Leaf =>
    case Node(l, k, rt, _) =>
      IncreasingSplit(InOrder(l), k, InOrder(rt));
      InsertUnfold(t, key);
      if key < k {
        InsertInOrder(l, key);
        InsertedLeftInOrder(InOrder(l), k, InOrder(rt), key);
      } else if key > k {
        InsertInOrder(rt, key);
        InsertedRightInOrder(InOrder(l), k, InOrder(rt), key);
      } else {
        PresentInOrder(InOrder(l), k, InOrder(rt));
      }
  }

  lemma InsertedRightInOrder(a: seq<int>, k: int, b: seq<int>, key: int)
    requires AllBelow(a, k) && k < key
    ensures a + [k] + InsertUnique(b, key) == InsertUnique(a + [k] + b, key)
  {
    AllBelowExtend(a, k, key);
    InsertUniqueAfter(a + [k], b, key);
  }

  lemma PresentInOrder(a: seq<int>, k: int, b: seq<int>)
    requires AllBelow(a, k)
    ensures InsertUnique(a + [k] + b, k) == a + [k] + b
  {
    InsertUniqueAfter(a, [k] + b, k);
    Regroup(a, k, b);
  }

  lemma InsertedLeftInOrder(a: seq<int>, k: int, b: seq<int>, key: int)
    requires key < k
    ensures InsertUnique(a, key) + [k] + b == InsertUnique(a + [k] + b, key)
  {
    InsertUniqueBefore(a, [k] + b, key);
    Regroup(a, k, b);
    Regroup(InsertUnique(a, key), k, b);
  }

  /** After insertion the tree is still a search tree, holding the old keys and
      `key`, with `key` added only if it was not there. */
  lemma InsertSearchTree(t: Tree, key: int)
    requires IsAvl(t) && SearchTree(t)
    ensures SearchTree(Insert(t, key))
    ensures multiset(InOrder(Insert(t, key))) ==
            if key in InOrder(t) then multiset(InOrder(t)) else multiset(InOrder(t)) + multiset{key}
  {
    InsertInOrder(t, key);
    InsertUniqueIncreasing(InOrder(t), key);
  }

  /** Inserting a key the tree already holds gives back the very same tree:
      same keys, same shape, same cached heights. */
  lemma {:induction false} InsertPresent(t: Tree, key: int)
    requires IsAvl(t) && SearchTree(t) && key in InOrder(t)
    ensures Insert(t, key) == t
    decreases t
  {
    match t
    case Node(l, k, rt, _) =>
      IncreasingSplit(InOrder(l), k, InOrder(rt));
      if key < k {
        assert key !in InOrder(rt);
        assert key in InOrder(l);
        InsertPresent(l, key);
      } else if key > k {
        assert key !in InOrder(l);
        assert key in InOrder(rt);
        InsertPresent(rt, key);
      }
  }

  /** A right rotation followed by a left rotation gives back the original tree. */
  lemma RotateRightLeft(y: Tree)
    requires y.Node? && y.left.Node? && HeightsCorrect(y)
    ensures RotateLeft(RotateRight(y)) == y
  {
  }

  /** A left rotation followed by a right rotation gives back the original tree. */
  lemma RotateLeftRight(x: Tree)
    requires x.Node? && x.right.Node? && HeightsCorrect(x)
    ensures RotateRight(RotateLeft(x)) == x
  {
  }

  /** The cached heights of a correct tree satisfy the source's recurrence:
      1 + the larger child height, 0 for the empty tree. */
  lemma HeightRecurrence(t: Tree)
    requires HeightsCorrect(t) && t.Node?
    ensures Height(t) == 1 + Max(Height(t.left), Height(t.right))
  {
  }
}
