/** The red-black tree of Arvores.py (classes RBNode and RedBlackTree).

    Insertion is the textbook one: a search descent where `<` goes left and
    everything else goes right (so equal keys are kept), a new red node hung
    in the empty slot found, then the fix-up loop that recolours and rotates
    while the new node's parent is red, and finally the root painted black.

    The source keeps a parent back-link in every node and walks `z.parent` and
    `z.parent.parent` during the fix-up. Here a node together with its parents
    is a zipper: the subtree rooted at the node (the focus) and the chain of
    its ancestors, nearest first. Every parent step of the source is a step
    along that chain, and a rotation rotates the focused subtree in place,
    which is what reattaching it to the old parent's slot (or to the root
    reference) amounts to. */
module RedBlack {
  import opened SortedSeq

  datatype Color = Red | Black

  datatype Tree = Nil | Node(color: Color, left: Tree, key: int, right: Tree)

  function InOrder(t: Tree): seq<int> {
    match t
    case Nil => []
    case Node(_, l, k, r) => InOrder(l) + [k] + InOrder(r)
  }

  /** `_in_order_traversal`: appends the keys of `t`, left subtree first, to
      the list `result` it is handed. */
  function AppendInOrder(t: Tree, result: seq<int>): (r: seq<int>)
    ensures r == result + InOrder(t)
  {
    match t
    case Nil => result
    case Node(_, l, k, rt) =>
      var withLeft := AppendInOrder(l, result) + [k];
      assert withLeft == result + (InOrder(l) + [k]);
      AppendInOrder(rt, withLeft)
  }

  /** `in_order_traversal`: the traversal started from an empty list. */
  function InOrderTraversal(t: Tree): (r: seq<int>)
    ensures r == InOrder(t)
  {
    AppendInOrder(t, [])
  }

  /** The test `y is not None and y.color == 'R'`: an absent node counts as black. */
  predicate IsRed(t: Tree) {
    t.Node? && t.color == Red
  }

  /** The same tree with its root recoloured; the empty tree stays empty. */
  function Paint(t: Tree, c: Color): (r: Tree)
    ensures InOrder(r) == InOrder(t)
    ensures t.Node? ==> r.Node? && r.color == c && r.left == t.left && r.right == t.right
  {
    if t.Nil? then t else t.(color := c)
  }

  /** `_left_rotate(x)`: the right child `y` of `x` takes the place of `x`, `x`
      becomes the left child of `y` and the old left subtree of `y` becomes the
      right subtree of `x`. Colours travel with their nodes. */
  function LeftRotate(x: Tree): (r: Tree)
    requires x.Node? && x.right.Node?
    ensures r.Node? && r.key == x.right.key && r.color == x.right.color
    ensures r.left.Node? && r.left.key == x.key && r.left.color == x.color
    ensures InOrder(r) == InOrder(x)
  {
    var y := x.right;
    Node(y.color, Node(x.color, x.left, x.key, y.left), y.key, y.right)
  }

  /** `_right_rotate(y)`, the mirror of `LeftRotate`. */
  function RightRotate(y: Tree): (r: Tree)
    requires y.Node? && y.left.Node?
    ensures r.Node? && r.key == y.left.key && r.color == y.left.color
    ensures r.right.Node? && r.right.key == y.key && r.right.color == y.color
    ensures InOrder(r) == InOrder(y)
  {
    var x := y.left;
    Node(x.color, x.left, x.key, Node(y.color, x.right, y.key, y.right))
  }

  /** Which child slot of its parent a node occupies. */
  datatype Side = Left | Right

  /** One ancestor of the focus: its colour and key, the slot the level below
      hangs from, and its child in the other slot. */
  datatype Frame = Frame(side: Side, color: Color, key: int, sibling: Tree)

  /** A node with its parent chain: `path[0]` is `z.parent`, `path[1]` is
      `z.parent.parent`, and so on up to the root; the empty path means the
      focus is the root itself. */
  datatype Zipper = Zipper(focus: Tree, path: seq<Frame>)

  /** `z = z.parent`: the ancestor node `path[0]` describes, with the focus
      hung back in its slot. */
  function Up(z: Zipper): Zipper
    requires z.path != []
  {
    var f := z.path[0];
    var parent := if f.side == Left then Node(f.color, z.focus, f.key, f.sibling)
                  else Node(f.color, f.sibling, f.key, z.focus);
    Zipper(parent, z.path[1..])
  }

  /** Moves to the left child; the node left behind becomes its parent frame. */
  function DownLeft(z: Zipper): (r: Zipper)
    requires z.focus.Node?
    ensures r.path != [] && Up(r) == z && r.path[0].side == Left
  {
    var n := z.focus;
    Zipper(n.left, [Frame(Left, n.color, n.key, n.right)] + z.path)
  }

  /** Moves to the right child. */
  function DownRight(z: Zipper): (r: Zipper)
    requires z.focus.Node?
    ensures r.path != [] && Up(r) == z && r.path[0].side == Right
  {
    var n := z.focus;
    Zipper(n.right, [Frame(Right, n.color, n.key, n.left)] + z.path)
  }

  /** Keys before the focus in in-order, contributed by its ancestors. */
  function Before(path: seq<Frame>): seq<int>
    decreases |path|
  {
    if path == [] then []
    else
      Before(path[1..]) +
      (if path[0].side == Right then InOrder(path[0].sibling) + [path[0].key] else [])
  }

  /** Keys after the focus in in-order, contributed by its ancestors. */
  function After(path: seq<Frame>): seq<int>
    decreases |path|
  {
    if path == [] then []
    else
      (if path[0].side == Left then [path[0].key] + InOrder(path[0].sibling) else []) +
      After(path[1..])
  }

  /** The whole tree (`self.root`) the zipper describes. Its in-order sequence
      is the focus's, framed by what the ancestors contribute on each side. */
  function Root(z: Zipper): (r: Tree)
    ensures InOrder(r) == Before(z.path) + InOrder(z.focus) + After(z.path)
    decreases |z.path|
  {
    if z.path == [] then z.focus else Root(Up(z))
  }

  function Last(path: seq<Frame>): Frame
    requires path != []
  {
    path[|path| - 1]
  }

  /** The topmost ancestor, which is the root of the whole tree, is not red. */
  predicate TopBlack(path: seq<Frame>) {
    path == [] || Last(path).color == Black
  }

  /** Dropping the lowest ancestors keeps the topmost one. */
  lemma TopBlackDrop(p: seq<Frame>, k: nat)
    requires k <= |p| && TopBlack(p)
    ensures TopBlack(p[k..])
  {
    if k < |p| {
      assert Last(p[k..]) == p[|p| - 1];
    }
  }

  /** A black frame put below a path whose topmost ancestor is black. */
  lemma TopBlackCons(q: seq<Frame>)
    requires q != [] && q[0].color == Black && TopBlack(q[1..])
    ensures TopBlack(q)
  {
    if |q| > 1 {
      assert Last(q[1..]) == q[|q| - 1];
    }
  }

  /** The search loop of `_insert`: walks down from the focus to the empty slot
      where the key belongs, `<` going left and everything else right. */
  function Descend(z: Zipper, key: int): (r: Zipper)
    ensures r.focus.Nil?
    ensures Root(r) == Root(z)
    ensures |r.path| >= |z.path| && r.path[|r.path| - |z.path|..] == z.path
    ensures z.path == [] && z.focus.Node? ==> r.path != [] && Last(r.path).color == z.focus.color
    decreases z.focus
  {
    if z.focus.Nil? then z
    else if key < z.focus.key then Descend(DownLeft(z), key)
    else Descend(DownRight(z), key)
  }

  /** The loop condition of `_insert_fixup`: `z` has a parent and it is red. */
  predicate ParentIsRed(z: Zipper) {
    z.path != [] && z.path[0].color == Red
  }

  /** `_left_rotate` applied to the focus. The rotated subtree hangs from the
      same parent slot as before (or is the new root); the old focus node is
      now the left child of its old right child, and the subtree that moved
      across has the old focus node as its parent. */
  function LeftRotateAt(z: Zipper): (r: Zipper)
    requires z.focus.Node? && z.focus.right.Node?
    ensures r.path == z.path
    ensures r.focus.Node? && DownLeft(r).focus.Node? && DownLeft(r).focus.key == z.focus.key
    ensures DownLeft(r).path[0].key == z.focus.right.key
    ensures DownRight(DownLeft(r)).focus == z.focus.right.left
    ensures DownRight(DownLeft(r)).path[0].key == z.focus.key
    ensures InOrder(r.focus) == InOrder(z.focus)
  {
    Zipper(LeftRotate(z.focus), z.path)
  }

  /** `_right_rotate` applied to the focus; the mirror of `LeftRotateAt`. */
  function RightRotateAt(z: Zipper): (r: Zipper)
    requires z.focus.Node? && z.focus.left.Node?
    ensures r.path == z.path
    ensures r.focus.Node? && DownRight(r).focus.Node? && DownRight(r).focus.key == z.focus.key
    ensures DownRight(r).path[0].key == z.focus.left.key
    ensures DownLeft(DownRight(r)).focus == z.focus.left.right
    ensures DownLeft(DownRight(r)).path[0].key == z.focus.key
    ensures InOrder(r.focus) == InOrder(z.focus)
  {
    Zipper(RightRotate(z.focus), z.path)
  }

  /** The recolouring case (red uncle): parent and uncle become black, the
      grandparent red, and `z` moves up to the grandparent. */
  function RecolorUp(z: Zipper): (r: Zipper)
    requires |z.path| >= 2
    ensures r.path == z.path[2..]
    ensures r.focus.Node? && r.focus.color == Red && r.focus.key == z.path[1].key
  {
    var parent := z.path[0];
    var grand := z.path[1];
    Up(Up(Zipper(z.focus,
      [parent.(color := Black), grand.(color := Red, sibling := Paint(grand.sibling, Black))]
      + z.path[2..])))
  }

  /** `z.parent.color = 'B'` and `z.parent.parent.color = 'R'`. */
  function RecolorForRotation(z: Zipper): (r: Zipper)
    requires |z.path| >= 2
    ensures r.focus == z.focus && |r.path| == |z.path| && r.path[2..] == z.path[2..]
    ensures r.path[0].color == Black && r.path[1].color == Red
    ensures forall i :: 0 <= i < 2 ==> r.path[i].side == z.path[i].side &&
                                       r.path[i].key == z.path[i].key &&
                                       r.path[i].sibling == z.path[i].sibling
  {
    Zipper(z.focus, [z.path[0].(color := Black), z.path[1].(color := Red)] + z.path[2..])
  }

  /** The rotation case when the parent is a left child and the uncle is black.
      A `z` that is a right child first moves up to its parent, which is
      rotated left; then the parent of `z` is painted black, the grandparent
      red, and the grandparent rotated right. `z` ends one level below the
      black node that took the grandparent's place. */
  function RotateLeftCase(z: Zipper): (r: Zipper)
    requires z.focus.Node? && |z.path| >= 2 && z.path[1].side == Left
    ensures r.focus.Node? && |r.path| == |z.path| - 1
    ensures r.path[0].color == Black && r.path[1..] == z.path[2..]
  {
    var z1 := if z.path[0].side == Right then DownLeft(LeftRotateAt(Up(z))) else z;
    assert z1.focus.Node? && |z1.path| == |z.path| && z1.path[0].side == Left;
    assert z1.path[1..] == z.path[1..];
    var w := RecolorForRotation(z1);
    assert w.path[1].side == Left && Up(w).focus.Node?;
    DownLeft(RightRotateAt(Up(Up(w))))
  }

  /** The mirror of `RotateLeftCase`, for a parent that is a right child. */
  function RotateRightCase(z: Zipper): (r: Zipper)
    requires z.focus.Node? && |z.path| >= 2 && z.path[1].side == Right
    ensures r.focus.Node? && |r.path| == |z.path| - 1
    ensures r.path[0].color == Black && r.path[1..] == z.path[2..]
  {
    var z1 := if z.path[0].side == Left then DownRight(RightRotateAt(Up(z))) else z;
    assert z1.focus.Node? && |z1.path| == |z.path| && z1.path[0].side == Right;
    assert z1.path[1..] == z.path[1..];
    var w := RecolorForRotation(z1);
    assert w.path[1].side == Right && Up(w).focus.Node?;
    DownRight(LeftRotateAt(Up(Up(w))))
  }

  /** The rotation case (black uncle), on whichever side of the grandparent
      the parent hangs: lines 143-150 or their mirror 158-165. */
  function RotateCase(z: Zipper): (r: Zipper)
    requires z.focus.Node? && |z.path| >= 2
    ensures r.focus.Node? && |r.path| == |z.path| - 1
    ensures r.path[0].color == Black && r.path[1..] == z.path[2..]
  {
    if z.path[1].side == Left then RotateLeftCase(z) else RotateRightCase(z)
  }

  /** One iteration of the `_insert_fixup` loop, taken when `z`'s parent is red.
      The parent is then not the (black) root, so the grandparent exists. The
      iteration either moves `z` two levels up (red uncle) or rotates at the
      grandparent, after which `z`'s parent is black. The source tests first
      which side of the grandparent the parent is on and then the uncle's
      colour; both sides recolour alike when the uncle is red, so the uncle
      test is taken first here and the side test left to `RotateCase`. */
  function Step(z: Zipper): (r: Zipper)
    requires z.focus.Node? && TopBlack(z.path) && ParentIsRed(z)
    ensures r.focus.Node? && TopBlack(r.path)
    ensures |r.path| < |z.path|
  {
    assert |z.path| >= 2;
    if IsRed(z.path[1].sibling) then
      TopBlackDrop(z.path, 2);
      RecolorUp(z)
    else
      var r := RotateCase(z);
      TopBlackDrop(z.path, 2);
      TopBlackCons(r.path);
      r
  }

  /** `_insert_fixup`: iterate `Step` while the parent of `z` is red, then paint
      the root black. */
  function FixUp(z: Zipper): (r: Tree)
    requires z.focus.Node? && TopBlack(z.path)
    ensures r.Node? && r.color == Black
    decreases |z.path|
  {
    if ParentIsRed(z) then FixUp(Step(z)) else Paint(Root(z), Black)
  }

  /** `RedBlackTree.insert`: a new red node hung in the slot the descent finds,
      then the fix-up. The root of the tree must not be red, as it never is
      for a tree built by this function. Under a red root the fix-up looks up
      a grandparent that does not exist once `z` is a child of the root. */
  function Insert(t: Tree, key: int): (r: Tree)
    requires !IsRed(t)
    ensures r.Node? && r.color == Black
  {
    var slot := Descend(Zipper(t, []), key);
    FixUp(Zipper(Node(Red, Nil, key, Nil), slot.path))
  }

  /** The first key inserted into an empty tree becomes a black root. */
  lemma InsertIntoEmpty(key: int)
    ensures Insert(Nil, key) == Node(Black, Nil, key, Nil)
  {
    var z := Zipper(Node(Red, Nil, key, Nil), []);
    assert Descend(Zipper(Nil, []), key) == Zipper(Nil, []);
    assert Insert(Nil, key) == FixUp(z);
    assert !ParentIsRed(z) && Root(z) == z.focus;
  }

  /** A larger second key hangs red to the right of the black root, and the
      fix-up loop does not run because its parent is black. */
  lemma InsertLargerSecond(k1: int, k2: int)
    requires k1 <= k2
    ensures Insert(Node(Black, Nil, k1, Nil), k2) == Node(Black, Nil, k1, Node(Red, Nil, k2, Nil))
  {
    var t := Node(Black, Nil, k1, Nil);
    var path := [Frame(Right, Black, k1, Nil)];
    assert DownRight(Zipper(t, [])) == Zipper(Nil, path);
    assert Descend(Zipper(t, []), k2) == Zipper(Nil, path);
    var z := Zipper(Node(Red, Nil, k2, Nil), path);
    assert Insert(t, k2) == FixUp(z) == Paint(Root(z), Black);
    assert Up(z) == Zipper(Node(Black, Nil, k1, Node(Red, Nil, k2, Nil)), []);
    assert Root(z) == Root(Up(z)) == Up(z).focus;
  }

  /** A third key at least as large as both meets a red parent that is a
      right child, with no uncle: one left rotation at the root makes the
      middle key the black root over two red leaves. */
  lemma InsertRightRight(k1: int, k2: int, k3: int)
    requires k1 <= k2 <= k3
    ensures Insert(Node(Black, Nil, k1, Node(Red, Nil, k2, Nil)), k3) ==
            Node(Black, Node(Red, Nil, k1, Nil), k2, Node(Red, Nil, k3, Nil))
  {
    var t := Node(Black, Nil, k1, Node(Red, Nil, k2, Nil));
    var path := [Frame(Right, Red, k2, Nil), Frame(Right, Black, k1, Nil)];
    var d1 := Zipper(Node(Red, Nil, k2, Nil), path[1..]);
    assert DownRight(Zipper(t, [])) == d1;
    assert DownRight(d1) == Zipper(Nil, path);
    assert Descend(d1, k3) == Zipper(Nil, path);
    assert Descend(Zipper(t, []), k3) == Zipper(Nil, path);
    var z := Zipper(Node(Red, Nil, k3, Nil), path);
    var w := RecolorForRotation(z);
    assert w.path == [Frame(Right, Black, k2, Nil), Frame(Right, Red, k1, Nil)];
    var top := Up(Up(w));
    assert top == Zipper(Node(Red, Nil, k1, Node(Black, Nil, k2, Node(Red, Nil, k3, Nil))), []);
    var z3 := Zipper(Node(Red, Nil, k3, Nil), [Frame(Right, Black, k2, Node(Red, Nil, k1, Nil))]);
    assert Step(z) == RotateRightCase(z) == DownRight(LeftRotateAt(top)) == z3;
    assert Insert(t, k3) == FixUp(z) == FixUp(z3) == Paint(Root(z3), Black);
    assert Up(z3) == Zipper(Node(Black, Node(Red, Nil, k1, Nil), k2, Node(Red, Nil, k3, Nil)), []);
    assert Root(z3) == Root(Up(z3)) == Up(z3).focus;
  }

  /** Inserting 10, 20 and 30 into an empty tree: the third insertion meets a
      red parent with an absent uncle on the right-right side, and one left
      rotation at the old root leaves 20 black over two red leaves. */
  lemma AscendingThree()
    ensures Insert(Insert(Insert(Nil, 10), 20), 30) ==
            Node(Black, Node(Red, Nil, 10, Nil), 20, Node(Red, Nil, 30, Nil))
  {
    InsertIntoEmpty(10);
    InsertLargerSecond(10, 20);
    InsertRightRight(10, 20, 30);
  }
}
