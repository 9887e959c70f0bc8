/** Key order in the red-black tree: the fix-up never moves a key in the
    in-order sequence, and insertion places the new key right after every key
    equal to it, so the in-order sequence stays sorted with duplicates kept. */
module RedBlackOrder {
  import opened SortedSeq
  import opened RedBlack

  /** Two parent chains that differ at most in colours (of ancestors and of
      their other children) put the same keys around the focus. */
  predicate SameOrder(p: seq<Frame>, q: seq<Frame>) {
    |p| == |q| &&
    forall i :: 0 <= i < |p| ==>
      p[i].side == q[i].side && p[i].key == q[i].key && InOrder(p[i].sibling) == InOrder(q[i].sibling)
  }

  lemma {:induction false} SameOrderContext(p: seq<Frame>, q: seq<Frame>)
    requires SameOrder(p, q)
    ensures Before(p) == Before(q) && After(p) == After(q)
    decreases |p|
  {
    if p != [] {
      assert SameOrder(p[1..], q[1..]) by {
        forall i | 0 <= i < |p[1..]|
          ensures p[1..][i].side == q[1..][i].side && p[1..][i].key == q[1..][i].key
          ensures InOrder(p[1..][i].sibling) == InOrder(q[1..][i].sibling)
        {
          assert p[1..][i] == p[i + 1] && q[1..][i] == q[i + 1];
        }
      }
      SameOrderContext(p[1..], q[1..]);
    }
  }

  /** The red-uncle recolouring touches no key: the zipper it climbs from
      differs from `z` only in colours. */
  lemma RecolorUpKeepsOrder(z: Zipper)
    requires |z.path| >= 2
    ensures InOrder(Root(RecolorUp(z))) == InOrder(Root(z))
  {
    var parent := z.path[0];
    var grand := z.path[1];
    var w := Zipper(z.focus,
      [parent.(color := Black), grand.(color := Red, sibling := Paint(grand.sibling, Black))]
      + z.path[2..]);
    assert Root(RecolorUp(z)) == Root(w) by {
      assert RecolorUp(z) == Up(Up(w));
      assert Root(Up(w)) == Root(w);
    }
    assert SameOrder(w.path, z.path) by {
      forall i | 0 <= i < |w.path|
        ensures w.path[i].side == z.path[i].side && w.path[i].key == z.path[i].key
        ensures InOrder(w.path[i].sibling) == InOrder(z.path[i].sibling)
      {
        if i >= 2 { assert w.path[i] == z.path[i]; }
      }
    }
    SameOrderContext(w.path, z.path);
  }

  /** Repainting parent and grandparent before a rotation touches no key. */
  lemma RecolorForRotationKeepsOrder(z: Zipper)
    requires |z.path| >= 2
    ensures InOrder(Root(RecolorForRotation(z))) == InOrder(Root(z))
  {
    var v := RecolorForRotation(z);
    assert SameOrder(v.path, z.path) by {
      forall i | 0 <= i < |v.path|
        ensures v.path[i].side == z.path[i].side && v.path[i].key == z.path[i].key
        ensures InOrder(v.path[i].sibling) == InOrder(z.path[i].sibling)
      {
        if i >= 2 { assert v.path[i] == v.path[2..][i - 2]; }
      }
    }
    SameOrderContext(v.path, z.path);
  }

  /** Recolouring in the fix-up touches no key. */
  lemma RecolorKeepsOrder(z: Zipper)
    requires |z.path| >= 2
    ensures InOrder(Root(RecolorUp(z))) == InOrder(Root(z))
    ensures InOrder(Root(RecolorForRotation(z))) == InOrder(Root(z))
  {
    RecolorUpKeepsOrder(z);
    RecolorForRotationKeepsOrder(z);
  }

  /** Moving up or down, or rotating the focus, leaves the in-order sequence of
      the whole tree as it was. */
  lemma MovesKeepOrder(z: Zipper)
    ensures z.path != [] ==> Root(Up(z)) == Root(z)
    ensures z.focus.Node? ==> Root(DownLeft(z)) == Root(z) && Root(DownRight(z)) == Root(z)
    ensures z.focus.Node? && z.focus.right.Node? ==> InOrder(Root(LeftRotateAt(z))) == InOrder(Root(z))
    ensures z.focus.Node? && z.focus.left.Node? ==> InOrder(Root(RightRotateAt(z))) == InOrder(Root(z))
  {
    if z.focus.Node? {
      assert Root(DownLeft(z)) == Root(Up(DownLeft(z)));
      assert Root(DownRight(z)) == Root(Up(DownRight(z)));
    }
  }

  /** The rotation case for a left parent keeps every key in place. */
  lemma RotateLeftCaseKeepsOrder(z: Zipper)
    requires z.focus.Node? && |z.path| >= 2 && z.path[1].side == Left
    ensures InOrder(Root(RotateLeftCase(z))) == InOrder(Root(z))
  {
    var z1 := if z.path[0].side == Right then DownLeft(LeftRotateAt(Up(z))) else z;
    assert InOrder(Root(z1)) == InOrder(Root(z)) by {
      if z.path[0].side == Right {
        MovesKeepOrder(z);
        MovesKeepOrder(LeftRotateAt(Up(z)));
      }
    }
    assert z1.focus.Node? && |z1.path| == |z.path| && z1.path[1..] == z.path[1..];
    var z2 := RecolorForRotation(z1);
    assert z2.path[1].side == Left && Up(z2).focus.Node?;
    RecolorForRotationKeepsOrder(z1);
    MovesKeepOrder(z2);
    MovesKeepOrder(Up(z2));
    MovesKeepOrder(Up(Up(z2)));
    MovesKeepOrder(RightRotateAt(Up(Up(z2))));
  }

  /** The mirror case keeps every key in place too. */
  lemma RotateRightCaseKeepsOrder(z: Zipper)
    requires z.focus.Node? && |z.path| >= 2 && z.path[1].side == Right
    ensures InOrder(Root(RotateRightCase(z))) == InOrder(Root(z))
  {
    var z1 := if z.path[0].side == Left then DownRight(RightRotateAt(Up(z))) else z;
    assert InOrder(Root(z1)) == InOrder(Root(z)) by {
      if z.path[0].side == Left {
        MovesKeepOrder(z);
        MovesKeepOrder(RightRotateAt(Up(z)));
      }
    }
    assert z1.focus.Node? && |z1.path| == |z.path| && z1.path[1..] == z.path[1..];
    var z2 := RecolorForRotation(z1);
    assert z2.path[1].side == Right && Up(z2).focus.Node?;
    RecolorForRotationKeepsOrder(z1);
    MovesKeepOrder(z2);
    MovesKeepOrder(Up(z2));
    MovesKeepOrder(Up(Up(z2)));
    MovesKeepOrder(LeftRotateAt(Up(Up(z2))));
  }

  /** One fix-up iteration keeps every key where it was in the in-order sequence. */
  lemma StepKeepsOrder(z: Zipper)
    requires z.focus.Node? && TopBlack(z.path) && ParentIsRed(z)
    ensures InOrder(Root(Step(z))) == InOrder(Root(z))
  {
    var grand := z.path[1];
    if IsRed(grand.sibling) {
      assert Step(z) == RecolorUp(z);
      RecolorUpKeepsOrder(z);
    } else if grand.side == Left {
      assert Step(z) == RotateCase(z) == RotateLeftCase(z);
      RotateLeftCaseKeepsOrder(z);
    } else {
      assert Step(z) == RotateCase(z) == RotateRightCase(z);
      RotateRightCaseKeepsOrder(z);
    }
  }

  /** The whole fix-up, root painting included, keeps the in-order sequence. */
  lemma {:induction false} FixUpKeepsOrder(z: Zipper)
    requires z.focus.Node? && TopBlack(z.path)
    ensures InOrder(FixUp(z)) == InOrder(Root(z))
    decreases |z.path|
  {
    if ParentIsRed(z) {
      StepKeepsOrder(z);
      FixUpKeepsOrder(Step(z));
    }
  }

  /** What the ancestors contribute after one step down to the left ... */
  lemma DownLeftContext(z: Zipper)
    requires z.focus.Node?
    ensures Before(DownLeft(z).path) == Before(z.path)
    ensures After(DownLeft(z).path) == [z.focus.key] + InOrder(z.focus.right) + After(z.path)
  {
  }

  /** ... and to the right. */
  lemma DownRightContext(z: Zipper)
    requires z.focus.Node?
    ensures Before(DownRight(z).path) == Before(z.path) + (InOrder(z.focus.left) + [z.focus.key])
    ensures After(DownRight(z).path) == After(z.path)
  {
  }

  /** The search descent through a sorted subtree keeps the invariant that every
      key before the current slot is at most `key` and every key after it is
      larger. */
  lemma {:induction false} DescendSplits(z: Zipper, key: int)
    requires NonDecreasing(InOrder(z.focus))
    requires AllAtMost(Before(z.path), key)
    requires After(z.path) == [] || key < After(z.path)[0]
    ensures AllAtMost(Before(Descend(z, key).path), key)
    ensures After(Descend(z, key).path) == [] || key < After(Descend(z, key).path)[0]
    decreases z.focus
  {
    var n := z.focus;
    if n.Node? {
      NonDecreasingSplit(InOrder(n.left), n.key, InOrder(n.right));
      if key < n.key {
        DownLeftContext(z);
        DescendSplits(DownLeft(z), key);
      } else {
        DownRightContext(z);
        assert AllAtMost(InOrder(n.left) + [n.key], key) by {
          assert AllAtMost([n.key], key);
          AllAtMostConcat(InOrder(n.left), [n.key], n.key);
          var s := InOrder(n.left) + [n.key];
          assert forall i :: 0 <= i < |s| ==> s[i] <= n.key;
        }
        AllAtMostConcat(Before(z.path), InOrder(n.left) + [n.key], key);
        DescendSplits(DownRight(z), key);
      }
    }
  }

  /** The descent splits the keys of the tree at the slot it finds. */
  lemma SlotSplits(t: Tree, key: int)
    ensures var slot := Descend(Zipper(t, []), key);
            InOrder(t) == Before(slot.path) + After(slot.path)
  {
    var slot := Descend(Zipper(t, []), key);
    EmptySlotSplits(slot);
    assert Root(Zipper(t, [])) == t;
  }

  lemma EmptySlotSplits(z: Zipper)
    requires z.focus.Nil?
    ensures InOrder(Root(z)) == Before(z.path) + After(z.path)
  {
  }

  /** Insertion hangs the new key in that slot: before it go the keys the
      slot's ancestors put on its left, after it those on its right. */
  lemma InsertFrames(t: Tree, key: int)
    requires !IsRed(t)
    ensures var slot := Descend(Zipper(t, []), key);
            InOrder(Insert(t, key)) == Before(slot.path) + [key] + After(slot.path)
  {
    var slot := Descend(Zipper(t, []), key);
    var z := Zipper(Node(Red, Nil, key, Nil), slot.path);
    FixUpKeepsOrder(z);
    assert InOrder(z.focus) == [key];
  }

  /** Red-black insertion puts the new key right after every key at most equal
      to it, keeping duplicates, when the tree's in-order sequence is sorted. */
  lemma InsertInOrder(t: Tree, key: int)
    requires !IsRed(t) && NonDecreasing(InOrder(t))
    ensures InOrder(Insert(t, key)) == InsertAfterEqual(InOrder(t), key)
  {
    var slot := Descend(Zipper(t, []), key);
    SlotSplits(t, key);
    InsertFrames(t, key);
    DescendSplits(Zipper(t, []), key);
    InsertAfterEqualSplit(Before(slot.path), After(slot.path), key);
  }

  /** So the in-order sequence stays sorted and gains exactly one occurrence of
      the new key. */
  lemma InsertSorted(t: Tree, key: int)
    requires !IsRed(t) && NonDecreasing(InOrder(t))
    ensures NonDecreasing(InOrder(Insert(t, key)))
    ensures multiset(InOrder(Insert(t, key))) == multiset(InOrder(t)) + multiset{key}
  {
    InsertInOrder(t, key);
    InsertAfterEqualNonDecreasing(InOrder(t), key);
  }
}
