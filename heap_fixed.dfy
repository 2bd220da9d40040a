/** Extraction as it is evidently intended. In `shift_down`
    (exercises/algorithm/algorithm9.rs:70 and :73) a child is only looked at
    when its index is strictly below the live count, so the child sitting in
    the last live slot is never compared and heap order can be lost after
    `next`. Here the bound is `<=`; with it `next` keeps heap order and draining
    yields the elements highest priority first. */
module HeapFixed {
  import opened HeapSpec

  /** `shift_down` with `left_idx <= len` and `right_idx <= len`. */
  function SiftDownFixed<T>(s: seq<T>, i: nat, less: (T, T) -> bool): (r: seq<T>)
    requires 1 <= i && 1 <= |s|
    ensures |r| == |s| && r[0] == s[0]
    ensures multiset(r) == multiset(s)
    decreases |s| - i
  {
    var count := |s| - 1;
    if !(LeftChildIdx(i) <= count) then s
    else
      var m := SiftDownTarget(s, i, count + 1, less);
      if m == i then s else SiftDownFixed(Swap(s, m, i), m, less)
  }

  /** What holds while sift-down is at index i: every link is in order except
      possibly those from i's children to i, and i's children do not outrank
      i's parent. */
  ghost predicate SiftDownInvariant<T>(s: seq<T>, i: nat, less: (T, T) -> bool) {
    && (forall c :: 2 <= c < |s| && ParentIdx(c) != i ==> !less(s[c], s[ParentIdx(c)]))
    && (forall c :: 2 <= c < |s| && ParentIdx(c) == i && i >= 2 ==> !less(s[c], s[ParentIdx(i)]))
  }

  /** One step of sift-down: swapping i with a child m that outranks it, when
      m's sibling does not outrank m, moves the invariant down to m. */
  lemma SiftDownStep<T(!new)>(s: seq<T>, i: nat, m: nat, less: (T, T) -> bool)
    requires StrictOrder(less) && 1 <= i && 2 <= m < |s| && ParentIdx(m) == i
    requires SiftDownInvariant(s, i, less) && less(s[m], s[i])
    requires forall o :: 2 <= o < |s| && ParentIdx(o) == i && o != m ==> !less(s[o], s[m])
    ensures SiftDownInvariant(Swap(s, m, i), m, less)
  {
    var t := Swap(s, m, i);
    assert !less(s[i], s[m]);
    forall c | 2 <= c < |t| && ParentIdx(c) != m
      ensures !less(t[c], t[ParentIdx(c)])
    {
      if c == m {
      } else if ParentIdx(c) == i {
      } else if c == i {
      } else {
        assert t[c] == s[c] && t[ParentIdx(c)] == s[ParentIdx(c)];
      }
    }
  }

  /** Sift-down needs only a strict order (no weak-order assumption). */
  lemma {:induction false} SiftDownFixedRestoresOrder<T(!new)>(s: seq<T>, i: nat, less: (T, T) -> bool)
    requires StrictOrder(less) && 1 <= i && 1 <= |s| && SiftDownInvariant(s, i, less)
    ensures HeapOrdered(SiftDownFixed(s, i, less), less)
    decreases |s| - i
  {
    var count := |s| - 1;
    if LeftChildIdx(i) <= count {
      var left, right := LeftChildIdx(i), RightChildIdx(i);
      var m := SiftDownTarget(s, i, count + 1, less);
      if m != i {
        SiftDownTargetIsBest(s, i, count + 1, less);
        SiftDownStep(s, i, m, less);
        SiftDownFixedRestoresOrder(Swap(s, m, i), m, less);
      } else {
        forall c | 2 <= c < |s|
          ensures !less(s[c], s[ParentIdx(c)])
        {
          if ParentIdx(c) == i {
            assert c == left || c == right;
          }
        }
      }
    }
  }

  /** `next` with the corrected sift-down. */
  function PopFixed<T>(s: seq<T>, less: (T, T) -> bool): (res: (Option<T>, seq<T>))
    requires 1 <= |s|
    ensures |s| == 1 ==> res == (None, s)
    ensures |s| >= 2 ==>
      && res.0 == Some(s[1])
      && |res.1| == |s| - 1 && res.1[0] == s[0]
      && multiset(res.1[1..]) + multiset{s[1]} == multiset(s[1..])
  {
    var count := |s| - 1;
    if count == 0 then (None, s)
    else
      var swapped := Swap(s, 1, count);
      var kept := swapped[..count];
      var rest := SiftDownFixed(kept, 1, less);
      PopKeepsOthers(s, kept, rest);
      (Some(swapped[count]), rest)
  }

  /** With the corrected bound, `next` keeps heap order. */
  lemma PopFixedKeepsOrder<T(!new)>(s: seq<T>, less: (T, T) -> bool)
    requires StrictOrder(less) && 1 <= |s| && HeapOrdered(s, less)
    ensures HeapOrdered(PopFixed(s, less).1, less)
  {
    var count := |s| - 1;
    if count > 0 {
      var kept := Swap(s, 1, count)[..count];
      forall c | 2 <= c < |kept| && ParentIdx(c) != 1
        ensures !less(kept[c], kept[ParentIdx(c)])
      {
        assert kept[c] == s[c] && kept[ParentIdx(c)] == s[ParentIdx(c)];
      }
      SiftDownFixedRestoresOrder(kept, 1, less);
    }
  }

  /** Pulling the corrected `next` until it reports absence. */
  function DrainFixed<T>(s: seq<T>, less: (T, T) -> bool): (d: seq<T>)
    requires 1 <= |s|
    ensures multiset(d) == multiset(s[1..])
    decreases |s|
  {
    if |s| == 1 then []
    else
      var (el, rest) := PopFixed(s, less);
      [el.value] + DrainFixed(rest, less)
  }

  /** No later element outranks an earlier one: highest priority first. */
  ghost predicate PriorityOrdered<T>(d: seq<T>, less: (T, T) -> bool) {
    forall j, k :: 0 <= j < k < |d| ==> !less(d[k], d[j])
  }

  lemma PrependKeepsPriorityOrder<T>(h: T, tail: seq<T>, less: (T, T) -> bool)
    requires PriorityOrdered(tail, less)
    requires forall k :: 0 <= k < |tail| ==> !less(tail[k], h)
    ensures PriorityOrdered([h] + tail, less)
  {
    var d := [h] + tail;
    forall j, k | 0 <= j < k < |d|
      ensures !less(d[k], d[j])
    {
      assert d[k] == tail[k - 1];
      if j > 0 {
        assert d[j] == tail[j - 1];
      }
    }
  }

  /** Whatever is left after the root leaves does not outrank the root. */
  lemma RestDoesNotOutrankRoot<T(!new)>(s: seq<T>, rest: seq<T>, less: (T, T) -> bool)
    requires StrictWeakOrder(less) && 2 <= |s| && HeapOrdered(s, less)
    requires multiset(rest) + multiset{s[1]} == multiset(s[1..])
    ensures forall k :: 0 <= k < |rest| ==> !less(rest[k], s[1])
  {
    forall k | 0 <= k < |rest|
      ensures !less(rest[k], s[1])
    {
      var x := rest[k];
      assert x in multiset(rest);
      assert x in multiset(s[1..]);
      var idx :| 0 <= idx < |s[1..]| && s[1..][idx] == x;
      NothingOutranksRoot(s, less, idx + 1);
    }
  }

  /** The iteration contract: draining a heap-ordered heap with the corrected
      `next` yields its elements highest priority first. */
  lemma {:induction false} DrainFixedIsSorted<T(!new)>(s: seq<T>, less: (T, T) -> bool)
    requires StrictWeakOrder(less) && 1 <= |s| && HeapOrdered(s, less)
    ensures PriorityOrdered(DrainFixed(s, less), less)
    decreases |s|
  {
    if |s| > 1 {
      var rest := PopFixed(s, less).1;
      var tail := DrainFixed(rest, less);
      PopFixedKeepsOrder(s, less);
      DrainFixedIsSorted(rest, less);
      RestDoesNotOutrankRoot(s, tail, less);
      PrependKeepsPriorityOrder(s[1], tail, less);
    }
  }

  /** The corrected heap end to end: adding any values to a fresh heap and
      pulling the corrected `next` until it reports absence gives back exactly
      those values, highest priority first. */
  lemma AddThenDrainFixedIsSorted<T(!new)>(z: T, vs: seq<T>, less: (T, T) -> bool)
    requires StrictWeakOrder(less)
    ensures var d := DrainFixed(AddAll([z], vs, less), less);
      multiset(d) == multiset(vs) && PriorityOrdered(d, less)
  {
    AddOnlyHeapIsOrdered(z, vs, less);
    DrainFixedIsSorted(AddAll([z], vs, less), less);
  }

  /** With at most two live elements neither sift-down has anything to compare
      after the root leaves. */
  lemma PopSmall<T>(s: seq<T>, less: (T, T) -> bool)
    requires 2 <= |s| <= 3
    ensures Pop(s, less) == PopFixed(s, less) == (Some(s[1]), [s[0]] + s[2..])
  {
    var kept := Swap(s, 1, |s| - 1)[..|s| - 1];
    assert kept == [s[0]] + s[2..];
    assert SiftDown(kept, 1, less) == kept;
    assert SiftDownFixed(kept, 1, less) == kept;
  }

  /** The corrected sift-down compares the child in the last live slot. */
  lemma SiftDownFixedComparesLastSlot(z: int, b: int, c: int)
    requires b < c
    ensures SiftDownFixed([z, c, b], 1, Less) == [z, b, c]
  {
    assert Swap([z, c, b], 2, 1) == [z, b, c];
  }

  /** With it the first `next` on [_, a, b, c] returns a and leaves [_, b, c]. */
  lemma NextFixedKeepsOrder(z: int, a: int, b: int, c: int)
    requires a < b < c
    ensures PopFixed([z, a, b, c], Less) == (Some(a), [z, b, c])
  {
    assert Swap([z, a, b, c], 1, 3)[..3] == [z, c, b];
    SiftDownFixedComparesLastSlot(z, b, c);
  }

  /** ... and the rest of the drain is b, c: in priority order. */
  lemma DrainFixedInOrder(z: int, b: int, c: int)
    requires b < c
    ensures PopFixed([z, b, c], Less) == (Some(b), [z, c])
    ensures PopFixed([z, c], Less) == (Some(c), [z])
  {
    PopSmall([z, b, c], Less);
    assert [z] + [z, b, c][2..] == [z, c];
    PopSmall([z, c], Less);
    assert [z] + [z, c][2..] == [z];
  }
}
