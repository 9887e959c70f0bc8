/** Reference operations on sorted integer sequences.

    They say, without mentioning any tree, where an inserted key has to end up
    in an in-order traversal: the AVL tree drops a key it already holds, the
    red-black tree keeps duplicates and places the new key after every key
    equal to it. */
module SortedSeq {

  /** Each element is smaller than every element after it (so no duplicates). */
  predicate StrictlyIncreasing(s: seq<int>) {
    forall i, j :: 0 <= i < j < |s| ==> s[i] < s[j]
  }

  /** Each element is at most every element after it (duplicates allowed). */
  predicate NonDecreasing(s: seq<int>) {
    forall i, j :: 0 <= i < j < |s| ==> s[i] <= s[j]
  }

  /** `k` put at its sorted position, unless an element equal to it is met first. */
  function InsertUnique(s: seq<int>, k: int): (r: seq<int>)
    ensures multiset(r) == multiset(s) || multiset(r) == multiset(s) + multiset{k}
    ensures k in r
  {
    if s == [] then [k]
    else if k < s[0] then [k] + s
    else if k == s[0] then s
    else
      assert s == [s[0]] + s[1..];
      [s[0]] + InsertUnique(s[1..], k)
  }

  /** `k` put after the longest prefix of elements that are at most `k`. */
  function InsertAfterEqual(s: seq<int>, k: int): (r: seq<int>)
    ensures multiset(r) == multiset(s) + multiset{k}
  {
    if s == [] then [k]
    else if k < s[0] then [k] + s
    else
      assert s == [s[0]] + s[1..];
      [s[0]] + InsertAfterEqual(s[1..], k)
  }

  /** Every element of `s` is larger than `lo`. */
  predicate AllAbove(s: seq<int>, lo: int) {
    forall i :: 0 <= i < |s| ==> lo < s[i]
  }

  /** Every element of `s` is at least `lo`. */
  predicate AllAtLeast(s: seq<int>, lo: int) {
    forall i :: 0 <= i < |s| ==> lo <= s[i]
  }

  /** Every element of `s` is smaller than `hi`. */
  predicate AllBelow(s: seq<int>, hi: int) {
    forall i :: 0 <= i < |s| ==> s[i] < hi
  }

  /** A bound above `hi` also bounds `s + [hi]`. */
  lemma AllBelowExtend(s: seq<int>, hi: int, bound: int)
    requires AllBelow(s, hi) && hi < bound
    ensures AllBelow(s + [hi], bound)
  {
  }

  /** Every element of `s` is at most `hi`. */
  predicate AllAtMost(s: seq<int>, hi: int) {
    forall i :: 0 <= i < |s| ==> s[i] <= hi
  }

  lemma AllAtMostConcat(a: seq<int>, b: seq<int>, hi: int)
    requires AllAtMost(a, hi) && AllAtMost(b, hi)
    ensures AllAtMost(a + b, hi)
  {
  }

  lemma ConsIncreasing(x: int, t: seq<int>)
    requires StrictlyIncreasing(t) && AllAbove(t, x)
    ensures StrictlyIncreasing([x] + t)
  {
  }

  lemma ConsNonDecreasing(x: int, t: seq<int>)
    requires NonDecreasing(t) && AllAtLeast(t, x)
    ensures NonDecreasing([x] + t)
  {
  }

  /** The tail of a strictly increasing sequence lies above its head. */
  lemma IncreasingTail(s: seq<int>)
    requires s != [] && StrictlyIncreasing(s)
    ensures StrictlyIncreasing(s[1..]) && AllAbove(s[1..], s[0])
  {
  }

  lemma NonDecreasingTail(s: seq<int>)
    requires s != [] && NonDecreasing(s)
    ensures NonDecreasing(s[1..]) && AllAtLeast(s[1..], s[0])
  {
  }

  /** A lower bound of both the sequence and the key bounds the result. */
  lemma {:induction false} InsertUniqueAbove(s: seq<int>, k: int, lo: int)
    requires AllAbove(s, lo) && lo < k
    ensures AllAbove(InsertUnique(s, k), lo)
    decreases |s|
  {
    if s != [] && s[0] < k {
      assert AllAbove(s[1..], lo) by {
        forall i | 0 <= i < |s[1..]| ensures lo < s[1..][i] {
          assert s[1..][i] == s[i + 1];
        }
      }
      InsertUniqueAbove(s[1..], k, lo);
    }
  }

  lemma {:induction false} InsertAfterEqualAtLeast(s: seq<int>, k: int, lo: int)
    requires AllAtLeast(s, lo) && lo <= k
    ensures AllAtLeast(InsertAfterEqual(s, k), lo)
    decreases |s|
  {
    if s != [] && s[0] <= k {
      assert AllAtLeast(s[1..], lo) by {
        forall i | 0 <= i < |s[1..]| ensures lo <= s[1..][i] {
          assert s[1..][i] == s[i + 1];
        }
      }
      InsertAfterEqualAtLeast(s[1..], k, lo);
    }
  }

  /** Inserting into a strictly increasing sequence keeps it strictly increasing,
      and a key already present leaves the sequence as it was. */
  lemma {:induction false} InsertUniqueIncreasing(s: seq<int>, k: int)
    requires StrictlyIncreasing(s)
    ensures StrictlyIncreasing(InsertUnique(s, k))
    ensures k in s ==> InsertUnique(s, k) == s
    ensures k !in s ==> multiset(InsertUnique(s, k)) == multiset(s) + multiset{k}
    decreases |s|
  {
    if s == [] {
    } else if k < s[0] {
      assert AllAbove(s, k) by {
        forall i | 0 <= i < |s| ensures k < s[i] {
          if i > 0 { assert s[0] < s[i]; }
        }
      }
      ConsIncreasing(k, s);
    } else if k == s[0] {
    } else {
      assert s == [s[0]] + s[1..];
      IncreasingTail(s);
      InsertUniqueIncreasing(s[1..], k);
      InsertUniqueAbove(s[1..], k, s[0]);
      ConsIncreasing(s[0], InsertUnique(s[1..], k));
    }
  }

  /** Inserting into a non-decreasing sequence keeps it non-decreasing. */
  lemma {:induction false} InsertAfterEqualNonDecreasing(s: seq<int>, k: int)
    requires NonDecreasing(s)
    ensures NonDecreasing(InsertAfterEqual(s, k))
    decreases |s|
  {
    if s == [] {
    } else if k < s[0] {
      assert AllAtLeast(s, k) by {
        forall i | 0 <= i < |s| ensures k <= s[i] {
          if i > 0 { assert s[0] <= s[i]; }
        }
      }
      ConsNonDecreasing(k, s);
    } else {
      NonDecreasingTail(s);
      InsertAfterEqualNonDecreasing(s[1..], k);
      InsertAfterEqualAtLeast(s[1..], k, s[0]);
      ConsNonDecreasing(s[0], InsertAfterEqual(s[1..], k));
    }
  }

  /** Inserting a key smaller than the first element of `c` never reaches `c`. */
  lemma {:induction false} InsertUniqueBefore(a: seq<int>, c: seq<int>, k: int)
    requires c != [] && k < c[0]
    ensures InsertUnique(a + c, k) == InsertUnique(a, k) + c
    decreases |a|
  {
    if a == [] {
      assert a + c == c;
    } else {
      assert (a + c)[0] == a[0];
      if k < a[0] || k == a[0] {
      } else {
        assert (a + c)[1..] == a[1..] + c;
        InsertUniqueBefore(a[1..], c, k);
      }
    }
  }

  /** Concatenation regrouped around a middle element. */
  lemma Regroup(a: seq<int>, k: int, b: seq<int>)
    ensures a + [k] + b == a + ([k] + b)
  {
  }

  /** Concatenation regrouped around the head of `a`. */
  lemma HeadSplit(a: seq<int>, u: seq<int>)
    requires a != []
    ensures a + u == [a[0]] + (a[1..] + u)
  {
    assert a == [a[0]] + a[1..];
  }

  /** A head below the key is passed over unchanged. */
  lemma InsertUniquePast(x: int, t: seq<int>, k: int)
    requires x < k
    ensures InsertUnique([x] + t, k) == [x] + InsertUnique(t, k)
  {
    assert ([x] + t)[0] == x && ([x] + t)[1..] == t;
  }

  /** Inserting a key larger than every element of `a` passes over `a` unchanged. */
  lemma {:induction false} InsertUniqueAfter(a: seq<int>, c: seq<int>, k: int)
    requires AllBelow(a, k)
    ensures InsertUnique(a + c, k) == a + InsertUnique(c, k)
    decreases |a|
  {
    if a == [] {
      assert a + c == c;
    } else {
      var t := a[1..];
      HeadSplit(a, c);
      assert AllBelow(t, k) by {
        forall i | 0 <= i < |t| ensures t[i] < k {
          assert t[i] == a[i + 1];
        }
      }
      InsertUniquePast(a[0], t + c, k);
      InsertUniqueAfter(t, c, k);
      HeadSplit(a, InsertUnique(c, k));
    }
  }

  /** A head at most the key is passed over unchanged. */
  lemma InsertAfterEqualPast(x: int, t: seq<int>, k: int)
    requires x <= k
    ensures InsertAfterEqual([x] + t, k) == [x] + InsertAfterEqual(t, k)
  {
    assert ([x] + t)[0] == x && ([x] + t)[1..] == t;
  }

  /** The key lands exactly between a prefix of elements at most `k` and a
      suffix that starts with a larger one. */
  lemma {:induction false} InsertAfterEqualSplit(a: seq<int>, c: seq<int>, k: int)
    requires AllAtMost(a, k)
    requires c == [] || k < c[0]
    ensures InsertAfterEqual(a + c, k) == a + [k] + c
    decreases |a|
  {
    if a == [] {
      assert a + c == c;
    } else {
      var t := a[1..];
      HeadSplit(a, c);
      assert AllAtMost(t, k) by {
        forall i | 0 <= i < |t| ensures t[i] <= k {
          assert t[i] == a[i + 1];
        }
      }
      InsertAfterEqualPast(a[0], t + c, k);
      InsertAfterEqualSplit(t, c, k);
      HeadSplit(a, [k] + c);
      assert a + [k] + c == a + ([k] + c);
      assert t + [k] + c == t + ([k] + c);
    }
  }

  /** A strictly increasing `a + [k] + b` has strictly increasing halves, all of
      `a` below `k` and all of `b` above it. */
  lemma IncreasingSplit(a: seq<int>, k: int, b: seq<int>)
    requires StrictlyIncreasing(a + [k] + b)
    ensures StrictlyIncreasing(a) && StrictlyIncreasing(b)
    ensures AllBelow(a, k) && AllAbove(b, k)
  {
    var s := a + [k] + b;
    assert forall i :: 0 <= i < |a| ==> s[i] == a[i];
    assert s[|a|] == k;
    assert forall i :: 0 <= i < |b| ==> s[|a| + 1 + i] == b[i];
  }

  /** The same for a non-decreasing `a + [k] + b`. */
  lemma NonDecreasingSplit(a: seq<int>, k: int, b: seq<int>)
    requires NonDecreasing(a + [k] + b)
    ensures NonDecreasing(a) && NonDecreasing(b)
    ensures AllAtMost(a, k) && AllAtLeast(b, k)
  {
    var s := a + [k] + b;
    assert s[|a|] == k;
    forall i, j | 0 <= i < j < |a| ensures a[i] <= a[j] {
      assert a[i] == s[i] && a[j] == s[j];
    }
    forall i | 0 <= i < |a| ensures a[i] <= k {
      assert a[i] == s[i];
    }
    forall i, j | 0 <= i < j < |b| ensures b[i] <= b[j] {
      assert b[i] == s[|a| + 1 + i] && b[j] == s[|a| + 1 + j];
    }
    forall i | 0 <= i < |b| ensures k <= b[i] {
      assert b[i] == s[|a| + 1 + i];
    }
  }
}
