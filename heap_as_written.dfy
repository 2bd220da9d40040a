/** The code as written, on the input that shows the bug in `shift_down`
    (exercises/algorithm/algorithm9.rs:70 and :73): a child is only looked at
    when its index is strictly below the live count, so the child in the last
    live slot is never compared. The as-written sift-down is exactly the
    corrected one on the vector without its last slot, so `next` keeps every
    link except those into the last slot; a min-heap built by adding a < b < c
    loses heap order after one `next` and drains as a, c, b. */
module HeapAsWritten {
  import opened HeapSpec
  import opened HeapFixed

  /** Sift-down picks its target from the slots below the bound only. */
  lemma SiftDownTargetAgrees<T>(s: seq<T>, t: seq<T>, i: nat, bound: nat, less: (T, T) -> bool)
    requires 1 <= i && bound <= |s| && bound <= |t|
    requires forall k :: 0 <= k < bound ==> s[k] == t[k]
    ensures SiftDownTarget(s, i, bound, less) == SiftDownTarget(t, i, bound, less)
  {
    var left, right := LeftChildIdx(i), RightChildIdx(i);
    if left < bound {
      assert s[left] == t[left] && s[i] == t[i];
    }
    if right < bound {
      assert s[right] == t[right] && s[left] == t[left];
    }
  }

  /** The as-written sift-down is the corrected one run on the vector without
      its last slot, which it leaves where it is: the last live slot is the
      one thing the strict bound leaves out. */
  lemma {:induction false} SiftDownIsFixedOnPrefix<T>(s: seq<T>, i: nat, less: (T, T) -> bool)
    requires 1 <= i && 2 <= |s|
    ensures SiftDown(s, i, less) == SiftDownFixed(s[..|s| - 1], i, less) + [s[|s| - 1]]
    decreases |s| - i
  {
    var p, last := s[..|s| - 1], s[|s| - 1];
    assert p + [last] == s;
    if LeftChildIdx(i) <= |s| - 2 {
      SiftDownTargetAgrees(s, p, i, |s| - 1, less);
      var m := SiftDownTarget(s, i, |s| - 1, less);
      if m != i {
        var t := Swap(s, m, i);
        assert t[..|t| - 1] == Swap(p, m, i);
        assert t[|t| - 1] == last;
        SiftDownIsFixedOnPrefix(t, m, less);
      }
    }
  }

  /** As written, `next` is the corrected sift-down of the swapped vector
      without its last two slots, followed by the element left in the new
      last slot. */
  lemma PopIsFixedOnPrefix<T>(s: seq<T>, less: (T, T) -> bool)
    requires 4 <= |s|
    ensures var swapped := Swap(s, 1, |s| - 1);
      Pop(s, less).1 == SiftDownFixed(swapped[..|s| - 2], 1, less) + [swapped[|s| - 2]]
  {
    var swapped := Swap(s, 1, |s| - 1);
    var kept := swapped[..|s| - 1];
    assert kept[..|kept| - 1] == swapped[..|s| - 2];
    SiftDownIsFixedOnPrefix(kept, 1, less);
  }

  /** Dropping the last two slots of the swapped vector of a heap-ordered one
      leaves every link in order except those into slot 1. */
  lemma SwappedPrefixInvariant<T>(s: seq<T>, less: (T, T) -> bool)
    requires 4 <= |s| && HeapOrdered(s, less)
    ensures SiftDownInvariant(Swap(s, 1, |s| - 1)[..|s| - 2], 1, less)
  {
    var q := Swap(s, 1, |s| - 1)[..|s| - 2];
    forall c | 2 <= c < |q| && ParentIdx(c) != 1
      ensures !less(q[c], q[ParentIdx(c)])
    {
      assert q[c] == s[c] && q[ParentIdx(c)] == s[ParentIdx(c)];
    }
  }

  /** Appending a slot keeps every link of a heap-ordered vector. */
  lemma AppendKeepsLinks<T>(f: seq<T>, x: T, less: (T, T) -> bool)
    requires HeapOrdered(f, less)
    ensures forall c :: 2 <= c < |f| ==> !less((f + [x])[c], (f + [x])[ParentIdx(c)])
  {
    forall c | 2 <= c < |f|
      ensures !less((f + [x])[c], (f + [x])[ParentIdx(c)])
    {
      assert (f + [x])[c] == f[c] && (f + [x])[ParentIdx(c)] == f[ParentIdx(c)];
    }
  }

  /** As written, `next` on a heap-ordered vector with at least three live
      elements keeps every link in order except possibly those into the new
      last slot. */
  lemma NextKeepsAllButLastSlot<T(!new)>(s: seq<T>, less: (T, T) -> bool)
    requires StrictOrder(less) && 4 <= |s| && HeapOrdered(s, less)
    ensures var r := Pop(s, less).1;
      forall c :: 2 <= c < |r| - 1 ==> !less(r[c], r[ParentIdx(c)])
  {
    var swapped := Swap(s, 1, |s| - 1);
    var q := swapped[..|s| - 2];
    PopIsFixedOnPrefix(s, less);
    SwappedPrefixInvariant(s, less);
    SiftDownFixedRestoresOrder(q, 1, less);
    AppendKeepsLinks(SiftDownFixed(q, 1, less), swapped[|s| - 2], less);
  }

  /** Adding values in increasing order to a min-heap moves nothing. */
  lemma AddSortedMovesNothing(s: seq<int>, vs: seq<int>)
    requires 1 <= |s|
    requires forall j, k :: 1 <= j < k < |s + vs| ==> (s + vs)[j] <= (s + vs)[k]
    ensures AddAll(s, vs, Less) == s + vs
  {
    forall c | 2 <= c < |s + vs|
      ensures !Less((s + vs)[c], (s + vs)[ParentIdx(c)])
    {
    }
    AddAllOrderedMovesNothing(s, vs, Less);
  }

  /** As written, `next` on the min-heap [_, a, b, c] returns a and leaves
      [_, c, b]: the child b in the last live slot is never compared with c, so
      heap order is lost. */
  lemma NextLosesOrder(z: int, a: int, b: int, c: int)
    requires a < b < c
    ensures Pop([z, a, b, c], Less) == (Some(a), [z, c, b])
    ensures !HeapOrdered([z, c, b], Less)
  {
    var swapped := Swap([z, a, b, c], 1, 3);
    assert swapped[..3] == [z, c, b];
    SiftDownShortMovesNothing([z, c, b], Less);
    assert Less([z, c, b][2], [z, c, b][ParentIdx(2)]);
  }

  /** As written, sift-down from the root of a vector with at most two live
      elements compares nothing and moves nothing. */
  lemma SiftDownShortMovesNothing<T>(s: seq<T>, less: (T, T) -> bool)
    requires 2 <= |s| <= 3
    ensures SiftDown(s, 1, less) == s
  {
  }

  /** Draining, as written, the min-heap built by adding a < b < c: after the
      first `next` (NextLosesOrder) the heap is [_, c, b], so c comes out
      before b. The drain is a, c, b. */
  lemma DrainOutOfOrder(z: int, a: int, b: int, c: int)
    requires a < b < c
    ensures Pop([z, c, b], Less) == (Some(c), [z, b]) && Less(b, c)
    ensures Pop([z, b], Less) == (Some(b), [z])
  {
    PopSmall([z, c, b], Less);
    assert [z] + [z, c, b][2..] == [z, b];
    PopSmall([z, b], Less);
    assert [z] + [z, b][2..] == [z];
  }

  /** Draining starts with what the first `next` yields. */
  lemma DrainAfterPop<T>(s: seq<T>, less: (T, T) -> bool, el: T, rest: seq<T>)
    requires 1 <= |s| && Pop(s, less) == (Some(el), rest)
    ensures Drain(s, less) == [el] + Drain(rest, less)
  {
  }

  /** Draining, as written, the last two live elements [_, c, b] yields c, b. */
  lemma DrainTwoAsWritten(z: int, b: int, c: int)
    requires b < c
    ensures Drain([z, c, b], Less) == [c, b]
  {
    DrainOutOfOrder(z, b - 1, b, c);
    DrainAfterPop([z, b], Less, b, [z]);
    DrainAfterPop([z, c, b], Less, c, [z, b]);
  }

  /** Draining, as written, the min-heap [_, a, b, c] yields a, c, b. */
  lemma DrainThreeAsWritten(z: int, a: int, b: int, c: int)
    requires a < b < c
    ensures Drain([z, a, b, c], Less) == [a, c, b]
  {
    NextLosesOrder(z, a, b, c);
    DrainTwoAsWritten(z, b, c);
    DrainAfterPop([z, a, b, c], Less, a, [z, c, b]);
  }

  /** End to end, as written: adding a < b < c to a fresh min-heap and pulling
      `next` until it reports absence yields a, c, b (for 1, 2, 3: 1, 3, 2). */
  lemma AddedInOrderDrainsOutOfOrder(z: int, a: int, b: int, c: int)
    requires a < b < c
    ensures Drain(AddAll([z], [a, b, c], Less), Less) == [a, c, b]
  {
    AddSortedMovesNothing([z], [a, b, c]);
    assert [z] + [a, b, c] == [z, a, b, c];
    DrainThreeAsWritten(z, a, b, c);
  }
}
