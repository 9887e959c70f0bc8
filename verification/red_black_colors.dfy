/** The red-black colour rules and their preservation by insertion.

    A tree is a red-black tree when its root is black, no red node has a red
    child, and every path from the root down to an empty subtree meets the
    same number of black nodes. During the fix-up the only rule broken is the
    one between the focus (red) and its parent; `FixUpInv` states exactly that,
    and every iteration of the loop keeps it. */
module RedBlackColors {
  import opened RedBlack

  /** No red node has a red child. */
  predicate NoRedRed(t: Tree) {
    match t
    case Nil => true
    case Node(c, l, _, r) =>
      (c == Red ==> !IsRed(l) && !IsRed(r)) && NoRedRed(l) && NoRedRed(r)
  }

  /** Every path from the root of `t` down to an empty subtree meets exactly
      `n` black nodes. */
  predicate BlackPaths(t: Tree, n: int) {
    match t
    case Nil => n == 0
    case Node(c, l, _, r) =>
      var m := if c == Black then n - 1 else n;
      BlackPaths(l, m) && BlackPaths(r, m)
  }

  /** The number of black nodes on the leftmost path. */
  function BlackHeight(t: Tree): nat {
    match t
    case Nil => 0
    case Node(c, l, _, _) => BlackHeight(l) + (if c == Black then 1 else 0)
  }

  predicate IsRedBlack(t: Tree) {
    !IsRed(t) && NoRedRed(t) && BlackPaths(t, BlackHeight(t))
  }

  /** The shape the left rotation case leaves: the focus ends under a black
      node that took the grandparent's place, whose other child is the old
      grandparent, now red. After a left-left move the focus is the old `z`;
      after a left-right move it is the old parent, holding `z`'s left subtree. */
  lemma RotateLeftCaseShape(z: Zipper)
    requires z.focus.Node? && |z.path| >= 2 && z.path[1].side == Left
    ensures var p, g := z.path[0], z.path[1];
            RotateLeftCase(z) ==
              if p.side == Left then
                Zipper(z.focus, [Frame(Left, Black, p.key, Node(Red, p.sibling, g.key, g.sibling))] + z.path[2..])
              else
                Zipper(Node(p.color, p.sibling, p.key, z.focus.left),
                       [Frame(Left, Black, z.focus.key, Node(Red, z.focus.right, g.key, g.sibling))] + z.path[2..])
  {
  }

  /** The mirror image for a parent that is a right child. */
  lemma RotateRightCaseShape(z: Zipper)
    requires z.focus.Node? && |z.path| >= 2 && z.path[1].side == Right
    ensures var p, g := z.path[0], z.path[1];
            RotateRightCase(z) ==
              if p.side == Right then
                Zipper(z.focus, [Frame(Right, Black, p.key, Node(Red, g.sibling, g.key, p.sibling))] + z.path[2..])
              else
                Zipper(Node(p.color, z.focus.right, p.key, p.sibling),
                       [Frame(Right, Black, z.focus.key, Node(Red, g.sibling, g.key, z.focus.left))] + z.path[2..])
  {
  }

  /** The ancestors of a subtree that keeps the colour rules and meets `n`
      black nodes on every path: each one's other child keeps the rules and
      meets as many black nodes as the level below it, and a red ancestor has
      neither a red child on the path (`childRed`) nor a red other child. */
  predicate PathOk(path: seq<Frame>, childRed: bool, n: int)
    decreases |path|
  {
    path == [] ||
    (var f := path[0];
     NoRedRed(f.sibling) && BlackPaths(f.sibling, n) &&
     (f.color == Red ==> !childRed && !IsRed(f.sibling)) &&
     PathOk(path[1..], f.color == Red, if f.color == Black then n + 1 else n))
  }

  /** The number of black ancestors. */
  function PathBlacks(path: seq<Frame>): nat
    decreases |path|
  {
    if path == [] then 0 else PathBlacks(path[1..]) + (if path[0].color == Black then 1 else 0)
  }

  /** Hanging a subtree that keeps the rules into ancestors that keep them
      gives a whole tree that keeps them. */
  lemma {:induction false} PlugValid(z: Zipper, n: int)
    requires NoRedRed(z.focus) && BlackPaths(z.focus, n) && PathOk(z.path, IsRed(z.focus), n)
    ensures NoRedRed(Root(z)) && BlackPaths(Root(z), n + PathBlacks(z.path))
    decreases |z.path|
  {
    if z.path != [] {
      var f := z.path[0];
      PlugValid(Up(z), if f.color == Black then n + 1 else n);
    }
  }

  /** The only place the colour rules may fail while the fix-up runs: the
      focus is red and may have a red parent. */
  predicate FixUpInv(z: Zipper, n: int) {
    IsRed(z.focus) && NoRedRed(z.focus) && BlackPaths(z.focus, n) &&
    TopBlack(z.path) && PathOk(z.path, false, n)
  }

  /** Painting the root black keeps the red rule and turns a red root's black
      count up by one. */
  lemma PaintBlack(t: Tree, n: int)
    requires t.Node? && NoRedRed(t) && BlackPaths(t, n)
    ensures NoRedRed(Paint(t, Black))
    ensures BlackPaths(Paint(t, Black), if t.color == Red then n + 1 else n)
  {
  }

  /** A subtree meeting `n` black nodes on every path has black height `n`. */
  lemma {:induction false} BlackPathsHeight(t: Tree, n: int)
    requires BlackPaths(t, n)
    ensures BlackHeight(t) == n
  {
    match t
    case Nil =>
    case Node(c, l, _, _) => BlackPathsHeight(l, if c == Black then n - 1 else n);
  }

  /** The recolouring case moves the violation two levels up and adds one
      black node to every path below the focus. */
  lemma RecolorValid(z: Zipper, n: int)
    requires FixUpInv(z, n) && ParentIsRed(z) && |z.path| >= 2 && IsRed(z.path[1].sibling)
    ensures FixUpInv(RecolorUp(z), n + 1)
  {
    var p, g := z.path[0], z.path[1];
    assert PathOk(z.path[1..], true, n);
    assert z.path[1..][1..] == z.path[2..];
    assert g.color == Black && PathOk(z.path[2..], false, n + 1);
    var r := RecolorUp(z);
    if r.path != [] {
      assert Last(r.path) == Last(z.path) by {
        assert r.path[|r.path| - 1] == z.path[|z.path| - 1];
      }
    }
  }

  /** The rotation case for a left parent ends the loop with every rule kept:
      the new parent of the focus is black. */
  lemma RotateLeftCaseValid(z: Zipper, n: int)
    requires FixUpInv(z, n) && ParentIsRed(z) && |z.path| >= 2
    requires z.path[1].side == Left && !IsRed(z.path[1].sibling)
    ensures FixUpInv(RotateLeftCase(z), n) && !ParentIsRed(RotateLeftCase(z))
  {
    var p, g := z.path[0], z.path[1];
    assert PathOk(z.path[1..], true, n);
    assert z.path[1..][1..] == z.path[2..];
    assert g.color == Black && PathOk(z.path[2..], false, n + 1);
    RotateLeftCaseShape(z);
    var r := RotateLeftCase(z);
    assert r.path[1..] == z.path[2..];
    if |r.path| > 1 {
      assert Last(r.path) == Last(z.path) by {
        assert r.path[|r.path| - 1] == z.path[|z.path| - 1];
      }
    }
  }

  /** The mirror case. */
  lemma RotateRightCaseValid(z: Zipper, n: int)
    requires FixUpInv(z, n) && ParentIsRed(z) && |z.path| >= 2
    requires z.path[1].side == Right && !IsRed(z.path[1].sibling)
    ensures FixUpInv(RotateRightCase(z), n) && !ParentIsRed(RotateRightCase(z))
  {
    var p, g := z.path[0], z.path[1];
    assert PathOk(z.path[1..], true, n);
    assert z.path[1..][1..] == z.path[2..];
    assert g.color == Black && PathOk(z.path[2..], false, n + 1);
    RotateRightCaseShape(z);
    var r := RotateRightCase(z);
    assert r.path[1..] == z.path[2..];
    if |r.path| > 1 {
      assert Last(r.path) == Last(z.path) by {
        assert r.path[|r.path| - 1] == z.path[|z.path| - 1];
      }
    }
  }

  /** Black ancestors put no constraint on the colour of the child below them. */
  lemma PathOkBlackTop(path: seq<Frame>, n: int)
    requires path == [] || path[0].color == Black
    requires PathOk(path, false, n)
    ensures PathOk(path, true, n)
  {
  }

  /** `_insert_fixup` turns a tree broken only between the red focus and its
      parent into a red-black tree. */
  lemma {:induction false} FixUpValid(z: Zipper, n: int)
    requires FixUpInv(z, n)
    ensures IsRedBlack(FixUp(z))
    decreases |z.path|
  {
    if ParentIsRed(z) {
      assert |z.path| >= 2;
      var g := z.path[1];
      if IsRed(g.sibling) {
        RecolorValid(z, n);
        FixUpValid(Step(z), n + 1);
      } else if g.side == Left {
        RotateLeftCaseValid(z, n);
        FixUpValid(Step(z), n);
      } else {
        RotateRightCaseValid(z, n);
        FixUpValid(Step(z), n);
      }
    } else {
      PathOkBlackTop(z.path, n);
      PlugValid(z, n);
      var m := n + PathBlacks(z.path);
      var root := Root(z);
      PaintBlack(root, m);
      BlackPathsHeight(Paint(root, Black), if root.color == Red then m + 1 else m);
    }
  }

  /** The search descent through a tree that keeps the rules ends at an empty
      slot whose ancestors keep them, with the slot counted as black height 0. */
  lemma {:induction false} DescendPathOk(z: Zipper, key: int, n: int)
    requires NoRedRed(z.focus) && BlackPaths(z.focus, n) && PathOk(z.path, IsRed(z.focus), n)
    ensures PathOk(Descend(z, key).path, false, 0)
    decreases z.focus
  {
    match z.focus
    case Nil =>
    case Node(c, l, k, r) =>
      var m := if c == Black then n - 1 else n;
      if key < k {
        var d := DownLeft(z);
        assert d.path[1..] == z.path;
        DescendPathOk(d, key, m);
      } else {
        var d := DownRight(z);
        assert d.path[1..] == z.path;
        DescendPathOk(d, key, m);
      }
  }

  /** `RedBlackTree.insert` keeps a red-black tree a red-black tree. */
  lemma InsertValid(t: Tree, key: int)
    requires IsRedBlack(t)
    ensures IsRedBlack(Insert(t, key))
  {
    var slot := Descend(Zipper(t, []), key);
    DescendPathOk(Zipper(t, []), key, BlackHeight(t));
    FixUpValid(Zipper(Node(Red, Nil, key, Nil), slot.path), 0);
  }
}
