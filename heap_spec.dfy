/** The binary heap of exercises/algorithm/algorithm9.rs, described by functions
    over its storage vector. Index 0 holds the sentinel (the `T::default()` the
    heap is built with); the live elements are `s[1..]`, so the live count is
    `|s| - 1`. The comparator `less(a, b)` means "a outranks b": it sits closer
    to the root. */
module HeapSpec {

  datatype Option<T> = None | Some(value: T)

  // ---------------------------------------------------------------------------
  // Comparators

  /** Irreflexive and transitive: the comparator a caller would naturally pass. */
  ghost predicate StrictOrder<T(!new)>(less: (T, T) -> bool) {
    && (forall a :: !less(a, a))
    && (forall a, b, c :: less(a, b) && less(b, c) ==> less(a, c))
  }

  /** A strict order whose "neither outranks the other" is also transitive.
      Every total order (`<`, `>` on integers) is one; sift-up needs it. */
  ghost predicate StrictWeakOrder<T(!new)>(less: (T, T) -> bool) {
    && StrictOrder(less)
    && (forall a, b, c :: !less(a, b) && !less(b, c) ==> !less(a, c))
  }

  /** The comparator of `new_max` / `MaxHeap::new`: a outranks b when b is
      smaller. */
  function Greater(a: int, b: int): bool {
    a > b
  }

  /** The comparator of `new_min` / `MinHeap::new`: the max-heap order
      reversed. */
  function Less(a: int, b: int): bool {
    a < b
  }

  /** Both closures are strict weak orders, so every heap-order lemma below
      applies to `new_min` and `new_max`. */
  lemma MinMaxOrdersAreStrictWeak()
    ensures StrictWeakOrder(Less) && StrictWeakOrder(Greater)
  {
  }

  // ---------------------------------------------------------------------------
  // Index arithmetic of the 1-indexed layout

  function ParentIdx(idx: nat): (p: nat)
    ensures 2 * p <= idx <= 2 * p + 1
  {
    idx / 2
  }

  function LeftChildIdx(idx: nat): (l: nat)
    ensures ParentIdx(l) == idx && l % 2 == 0
  {
    idx * 2
  }

  function RightChildIdx(idx: nat): (r: nat)
    ensures ParentIdx(r) == idx && r % 2 == 1
  {
    LeftChildIdx(idx) + 1
  }

  /** `Vec::swap`. */
  function Swap<T>(s: seq<T>, i: nat, j: nat): (r: seq<T>)
    requires i < |s| && j < |s|
    ensures |r| == |s| && r[i] == s[j] && r[j] == s[i]
    ensures forall k {:trigger r[k]} :: 0 <= k < |s| && k != i && k != j ==> r[k] == s[k]
    ensures multiset(r) == multiset(s)
  {
    s[i := s[j]][j := s[i]]
  }

  lemma MultisetOfHead<T>(s: seq<T>)
    requires 1 <= |s|
    ensures multiset(s) == multiset(s[1..]) + multiset{s[0]}
  {
    assert s == [s[0]] + s[1..];
  }

  lemma MultisetCancel<T>(a: multiset<T>, b: multiset<T>, x: T)
    requires a + multiset{x} == b + multiset{x}
    ensures a == b
  {
    forall y
      ensures a[y] == b[y]
    {
      assert (a + multiset{x})[y] == a[y] + multiset{x}[y];
      assert (b + multiset{x})[y] == b[y] + multiset{x}[y];
    }
  }

  // ---------------------------------------------------------------------------
  // Heap order

  /** No live child outranks its parent. */
  ghost predicate HeapOrdered<T>(s: seq<T>, less: (T, T) -> bool) {
    forall c :: 2 <= c < |s| ==> !less(s[c], s[ParentIdx(c)])
  }

  lemma {:induction false} NothingOutranksRoot<T(!new)>(s: seq<T>, less: (T, T) -> bool, k: nat)
    requires StrictWeakOrder(less) && HeapOrdered(s, less) && 1 <= k < |s|
    ensures !less(s[k], s[1])
    decreases k
  {
    if k > 1 {
      NothingOutranksRoot(s, less, ParentIdx(k));
    }
  }

  /** In a heap-ordered storage vector the root is an extremum of the live elements. */
  lemma RootIsExtremum<T(!new)>(s: seq<T>, less: (T, T) -> bool)
    requires StrictWeakOrder(less) && HeapOrdered(s, less)
    ensures forall k :: 1 <= k < |s| ==> !less(s[k], s[1])
  {
    forall k | 1 <= k < |s| {
      NothingOutranksRoot(s, less, k);
    }
  }

  // ---------------------------------------------------------------------------
  // shift_up, as written: it walks all the way to the root, swapping whenever
  // the element at i outranks its parent.

  function SiftUp<T>(s: seq<T>, i: nat, less: (T, T) -> bool): (r: seq<T>)
    requires 1 <= i < |s|
    ensures |r| == |s| && r[0] == s[0]
    ensures forall k {:trigger r[k]} :: i < k < |s| ==> r[k] == s[k]
    ensures multiset(r) == multiset(s)
    decreases i
  {
    if i == 1 then s
    else
      var p := ParentIdx(i);
      SiftUp(if less(s[i], s[p]) then Swap(s, i, p) else s, p, less)
  }

  /** What holds while sift-up is at index i: every link is in order except
      possibly the one from i to its parent, and i's children do not outrank
      i's parent either. */
  ghost predicate SiftUpInvariant<T>(s: seq<T>, i: nat, less: (T, T) -> bool)
    requires 1 <= i < |s|
  {
    && (forall c :: 2 <= c < |s| && c != i ==> !less(s[c], s[ParentIdx(c)]))
    && (i >= 2 ==> forall c :: 2 <= c < |s| && ParentIdx(c) == i ==> !less(s[c], s[ParentIdx(i)]))
  }

  lemma {:induction false} SiftUpRestoresOrder<T(!new)>(s: seq<T>, i: nat, less: (T, T) -> bool)
    requires StrictWeakOrder(less) && 1 <= i < |s| && SiftUpInvariant(s, i, less)
    ensures HeapOrdered(SiftUp(s, i, less), less)
    decreases i
  {
    if i > 1 {
      var p := ParentIdx(i);
      if less(s[i], s[p]) {
        var t := Swap(s, i, p);
        forall c | 2 <= c < |t| && c != p
          ensures !less(t[c], t[ParentIdx(c)])
        {
          if c == i {
          } else if ParentIdx(c) == i {
          } else if ParentIdx(c) == p {
            assert !less(s[c], s[p]);
          }
        }
        if p >= 2 {
          var g := ParentIdx(p);
          forall c | 2 <= c < |t| && ParentIdx(c) == p
            ensures !less(t[c], t[g])
          {
            assert !less(s[p], s[g]);
            if c != i {
              assert !less(s[c], s[p]);
            }
          }
        }
        SiftUpRestoresOrder(t, p, less);
      } else {
        if p >= 2 {
          var g := ParentIdx(p);
          forall c | 2 <= c < |s| && ParentIdx(c) == p
            ensures !less(s[c], s[g])
          {
            assert !less(s[c], s[p]) && !less(s[p], s[g]);
          }
        }
        SiftUpRestoresOrder(s, p, less);
      }
    }
  }

  /** A permutation of `s + [v]` that keeps the sentinel in slot 0 holds the
      live elements of s plus v. */
  lemma AppendedTail<T>(s: seq<T>, v: T, r: seq<T>)
    requires 1 <= |s| && 1 <= |r| && r[0] == s[0] && multiset(r) == multiset(s + [v])
    ensures multiset(r[1..]) == multiset(s[1..]) + multiset{v}
  {
    MultisetOfHead(r);
    MultisetOfHead(s + [v]);
    assert (s + [v])[1..] == s[1..] + [v];
    MultisetCancel(multiset(r[1..]), multiset(s[1..]) + multiset{v}, s[0]);
  }

  /** `add` keeps a heap-ordered storage vector heap-ordered. */
  lemma AddKeepsOrder<T(!new)>(s: seq<T>, v: T, less: (T, T) -> bool)
    requires StrictWeakOrder(less) && 1 <= |s| && HeapOrdered(s, less)
    ensures HeapOrdered(SiftUp(s + [v], |s|, less), less)
  {
    var t := s + [v];
    forall c | 2 <= c < |t| && c != |s|
      ensures !less(t[c], t[ParentIdx(c)])
    {
      assert t[c] == s[c] && t[ParentIdx(c)] == s[ParentIdx(c)];
    }
    SiftUpRestoresOrder(t, |s|, less);
  }

  /** A strict order that is not a weak one: proper inclusion of sets. */
  function ProperSubset(a: set<int>, b: set<int>): bool { a < b }

  lemma ProperSubsetIsStrictOrder()
    ensures StrictOrder(ProperSubset)
  {
  }

  /** [_, {1,2}, {3}, {1,2,3}, {1}] is heap-ordered under proper inclusion, so
      adding those four sets to a fresh heap moves nothing (SubsetAddsBreakOrder). */
  lemma SubsetHeapIsOrdered()
    ensures HeapOrdered([{}, {1, 2}, {3}, {1, 2, 3}, {1}], ProperSubset)
  {
    var s := [{}, {1, 2}, {3}, {1, 2, 3}, {1}];
    assert !ProperSubset(s[2], s[1]) by { assert 3 in s[2]; }
    assert !ProperSubset(s[3], s[1]) by { assert 3 in s[3]; }
    assert !ProperSubset(s[4], s[2]) by { assert 1 in s[4]; }
  }

  /** With six slots, when the new element x in slot 5 outranks its parent in
      slot 2 and the root in slot 1, sift-up moves the old root down to slot 2;
      if the element in slot 4 outranks that old root, heap order is lost. */
  lemma SiftUpCarriesRootDown<T>(t: seq<T>, less: (T, T) -> bool)
    requires |t| == 6 && less(t[5], t[2]) && less(t[5], t[1]) && less(t[4], t[1])
    ensures !HeapOrdered(SiftUp(t, 5, less), less)
  {
    var t1 := Swap(t, 5, 2);
    var t2 := Swap(t1, 2, 1);
    assert SiftUp(t, 5, less) == SiftUp(t1, 2, less);
    assert SiftUp(t1, 2, less) == t2;
    assert t2[4] == t[4] && t2[ParentIdx(4)] == t[1];
  }

  /** `add` can break heap order when the comparator is only a strict order:
      adding {} to the heap of SubsetHeapIsOrdered carries {1,2} down above {1},
      which outranks it. So AddKeepsOrder needs the weak order. */
  lemma StrictOrderIsNotEnough()
    ensures !HeapOrdered(SiftUp([{}, {1, 2}, {3}, {1, 2, 3}, {1}] + [{}], 5, ProperSubset), ProperSubset)
  {
    assert ProperSubset({}, {3}) by { assert 3 in {3}; }
    assert ProperSubset({}, {1, 2}) by { assert 1 in {1, 2}; }
    assert ProperSubset({1}, {1, 2}) by { assert 2 in {1, 2}; }
    var t := [{}, {1, 2}, {3}, {1, 2, 3}, {1}] + [{}];
    assert t[5] == {} && t[2] == {3} && t[1] == {1, 2} && t[4] == {1};
    SiftUpCarriesRootDown(t, ProperSubset);
  }

  /** A sequence of `add` calls, one per element of vs, in order. */
  function AddAll<T>(s: seq<T>, vs: seq<T>, less: (T, T) -> bool): (r: seq<T>)
    requires 1 <= |s|
    ensures |r| == |s| + |vs| && r[0] == s[0]
    ensures multiset(r) == multiset(s) + multiset(vs)
    decreases |vs|
  {
    if vs == [] then s
    else
      assert vs == [vs[0]] + vs[1..];
      AddAll(SiftUp(s + [vs[0]], |s|, less), vs[1..], less)
  }

  /** Sift-up on a heap-ordered vector swaps nothing. */
  lemma {:induction false} SiftUpOnOrderedMovesNothing<T>(s: seq<T>, i: nat, less: (T, T) -> bool)
    requires 1 <= i < |s| && HeapOrdered(s, less)
    ensures SiftUp(s, i, less) == s
    decreases i
  {
    if i > 1 {
      assert !less(s[i], s[ParentIdx(i)]);
      SiftUpOnOrderedMovesNothing(s, ParentIdx(i), less);
    }
  }

  /** Adding values that extend s to a heap-ordered vector moves nothing: the
      adds just append them. */
  lemma {:induction false} AddAllOrderedMovesNothing<T>(s: seq<T>, vs: seq<T>, less: (T, T) -> bool)
    requires 1 <= |s| && HeapOrdered(s + vs, less)
    ensures AddAll(s, vs, less) == s + vs
    decreases |vs|
  {
    if vs != [] {
      var t := s + [vs[0]];
      assert t + vs[1..] == s + vs;
      forall c | 2 <= c < |t|
        ensures !less(t[c], t[ParentIdx(c)])
      {
        assert t[c] == (s + vs)[c] && t[ParentIdx(c)] == (s + vs)[ParentIdx(c)];
      }
      SiftUpOnOrderedMovesNothing(t, |s|, less);
      AddAllOrderedMovesNothing(t, vs[1..], less);
    }
  }

  /** If adding vs to a fresh heap moves nothing and adding one more value
      breaks heap order, the whole sequence of adds ends out of order. */
  lemma OrderedAddsThenBreak<T>(sentinel: T, vs: seq<T>, v: T, less: (T, T) -> bool)
    requires HeapOrdered([sentinel] + vs, less)
    requires !HeapOrdered(SiftUp([sentinel] + vs + [v], |vs| + 1, less), less)
    ensures !HeapOrdered(AddAll([sentinel], vs + [v], less), less)
  {
    OrderedAddsThenOne(sentinel, vs, v, less);
  }

  /** After adds that moved nothing, the whole sequence of adds is one sift-up of
      the last value. */
  lemma OrderedAddsThenOne<T>(sentinel: T, vs: seq<T>, v: T, less: (T, T) -> bool)
    requires HeapOrdered([sentinel] + vs, less)
    ensures AddAll([sentinel], vs + [v], less) == SiftUp([sentinel] + vs + [v], |vs| + 1, less)
  {
    AddAllSplit([sentinel], vs, [v], less);
    AddAllOrderedMovesNothing([sentinel], vs, less);
    AddOne([sentinel] + vs, v, less);
  }

  /** Adding one value is one sift-up of the appended slot. */
  lemma AddOne<T>(s: seq<T>, v: T, less: (T, T) -> bool)
    requires 1 <= |s|
    ensures AddAll(s, [v], less) == SiftUp(s + [v], |s|, less)
  {
    assert [v][1..] == [];
  }

  /** A non-empty sequence is its prefix followed by its last element. */
  lemma SplitLast<T>(s: seq<T>)
    requires 1 <= |s|
    ensures s[..|s| - 1] + [s[|s| - 1]] == s
  {
  }

  /** The sets added, in order, in SubsetAddsBreakOrder. */
  const SubsetAdds: seq<set<int>> := [{1, 2}, {3}, {1, 2, 3}, {1}, {}]

  /** A fresh heap ordered by proper inclusion, after adding {1,2}, {3},
      {1,2,3}, {1} and {}, is out of heap order: `add` needs a strict weak
      order even when nothing is ever extracted. */
  lemma SubsetAddsBreakOrder()
    ensures !HeapOrdered(AddAll([{}], SubsetAdds, ProperSubset), ProperSubset)
  {
    var vs, v := SubsetAdds[..4], SubsetAdds[4];
    assert [{}] + vs == [{}, {1, 2}, {3}, {1, 2, 3}, {1}];
    assert v == {};
    SubsetHeapIsOrdered();
    StrictOrderIsNotEnough();
    OrderedAddsThenBreak({}, vs, v, ProperSubset);
    SplitLast(SubsetAdds);
  }

  /** Adding vs then ws is adding vs + ws. */
  lemma {:induction false} AddAllSplit<T>(s: seq<T>, vs: seq<T>, ws: seq<T>, less: (T, T) -> bool)
    requires 1 <= |s|
    ensures AddAll(s, vs + ws, less) == AddAll(AddAll(s, vs, less), ws, less)
    decreases |vs|
  {
    if vs != [] {
      assert (vs + ws)[0] == vs[0] && (vs + ws)[1..] == vs[1..] + ws;
      AddAllSplit(SiftUp(s + [vs[0]], |s|, less), vs[1..], ws, less);
    } else {
      assert vs + ws == ws;
    }
  }

  lemma {:induction false} AddAllKeepsOrder<T(!new)>(s: seq<T>, vs: seq<T>, less: (T, T) -> bool)
    requires StrictWeakOrder(less) && 1 <= |s| && HeapOrdered(s, less)
    ensures HeapOrdered(AddAll(s, vs, less), less)
    decreases |vs|
  {
    if vs != [] {
      AddKeepsOrder(s, vs[0], less);
      AddAllKeepsOrder(SiftUp(s + [vs[0]], |s|, less), vs[1..], less);
    }
  }

  /** Heap order for add-only use: start from a fresh heap (only the sentinel),
      add the values vs; the live elements are exactly vs, no child outranks its
      parent, and nothing outranks the root. */
  lemma AddOnlyHeapIsOrdered<T(!new)>(sentinel: T, vs: seq<T>, less: (T, T) -> bool)
    requires StrictWeakOrder(less)
    ensures var r := AddAll([sentinel], vs, less);
      && multiset(r[1..]) == multiset(vs)
      && HeapOrdered(r, less)
      && forall k :: 1 <= k < |r| ==> !less(r[k], r[1])
  {
    var r := AddAll([sentinel], vs, less);
    MultisetOfHead(r);
    assert multiset([sentinel]) == multiset{sentinel};
    MultisetCancel(multiset(r[1..]), multiset(vs), sentinel);
    AddAllKeepsOrder([sentinel], vs, less);
    RootIsExtremum(r, less);
  }

  // ---------------------------------------------------------------------------
  // shift_down and next, as written: a child is only considered when its index
  // is strictly below the live count, so the last live slot is never compared.

  /** The slot `shift_down` swaps with i: the left child when it outranks i,
      then the right child when it outranks that; only children whose index
      is below `bound` are looked at. It stays at i exactly when no child
      below the bound outranks i. */
  function SiftDownTarget<T>(s: seq<T>, i: nat, bound: nat, less: (T, T) -> bool): (m: nat)
    requires 1 <= i && bound <= |s|
    ensures m == i || (i < m < bound && ParentIdx(m) == i)
    ensures m == i <==>
      && !(LeftChildIdx(i) < bound && less(s[LeftChildIdx(i)], s[i]))
      && !(RightChildIdx(i) < bound && less(s[RightChildIdx(i)], s[i]))
  {
    var left, right := LeftChildIdx(i), RightChildIdx(i);
    var m1 := if left < bound && less(s[left], s[i]) then left else i;
    if right < bound && less(s[right], s[m1]) then right else m1
  }

  /** Under a strict order the chosen child outranks i and is not outranked by
      its sibling below the bound: it is the highest-priority of i and its
      children. */
  lemma SiftDownTargetIsBest<T(!new)>(s: seq<T>, i: nat, bound: nat, less: (T, T) -> bool)
    requires StrictOrder(less) && 1 <= i && bound <= |s|
    ensures var m := SiftDownTarget(s, i, bound, less);
      m != i ==>
        && less(s[m], s[i])
        && forall o :: i < o < bound && ParentIdx(o) == i && o != m ==> !less(s[o], s[m])
  {
    var m := SiftDownTarget(s, i, bound, less);
    forall o | i < o < bound && ParentIdx(o) == i && o != m
      ensures m != i ==> !less(s[o], s[m])
    {
      assert o == LeftChildIdx(i) || o == RightChildIdx(i);
    }
  }

  function SiftDown<T>(s: seq<T>, i: nat, less: (T, T) -> bool): (r: seq<T>)
    requires 1 <= i && 1 <= |s|
    ensures |r| == |s| && r[0] == s[0]
    ensures multiset(r) == multiset(s)
    decreases |s| - i
  {
    var count := |s| - 1;
    if !(LeftChildIdx(i) <= count) then s
    else
      var m := SiftDownTarget(s, i, count, less);
      if m == i then s else SiftDown(Swap(s, m, i), m, less)
  }

  /** The last live slot is never compared, so sift-down never moves it. */
  lemma {:induction false} SiftDownKeepsLastSlot<T>(s: seq<T>, i: nat, less: (T, T) -> bool)
    requires 1 <= i && 1 <= |s|
    ensures SiftDown(s, i, less)[|s| - 1] == s[|s| - 1]
    decreases |s| - i
  {
    if LeftChildIdx(i) <= |s| - 1 {
      var m := SiftDownTarget(s, i, |s| - 1, less);
      if m != i {
        SiftDownKeepsLastSlot(Swap(s, m, i), m, less);
      }
    }
  }

  /** `next`: on an empty heap nothing; otherwise swap the root with the last
      live slot, pop that slot and sift the new root down. */
  function Pop<T>(s: seq<T>, less: (T, T) -> bool): (res: (Option<T>, seq<T>))
    requires 1 <= |s|
    ensures |s| == 1 ==> res == (None, s)
    ensures |s| >= 2 ==>
      && res.0 == Some(s[1])
      && |res.1| == |s| - 1 && res.1[0] == s[0]
      && multiset(res.1[1..]) + multiset{s[1]} == multiset(s[1..])
    ensures |s| >= 4 ==> res.1[|s| - 2] == s[|s| - 2]
  {
    var count := |s| - 1;
    if count == 0 then (None, s)
    else
      var swapped := Swap(s, 1, count);
      var kept := swapped[..count];
      var rest := SiftDown(kept, 1, less);
      PopKeepsOthers(s, kept, rest);
      SiftDownKeepsLastSlot(kept, 1, less);
      assert count >= 3 ==> kept[count - 1] == s[count - 1];
      (Some(swapped[count]), rest)
  }

  /** Swapping the root with the last slot and dropping that slot removes
      exactly the root from the live elements; a permutation of the rest that
      keeps the sentinel keeps them too. */
  lemma PopKeepsOthers<T>(s: seq<T>, kept: seq<T>, rest: seq<T>)
    requires 2 <= |s| && kept == Swap(s, 1, |s| - 1)[..|s| - 1]
    requires 1 <= |rest| && rest[0] == s[0] && multiset(rest) == multiset(kept)
    ensures multiset(rest[1..]) + multiset{s[1]} == multiset(s[1..])
  {
    var swapped := Swap(s, 1, |s| - 1);
    assert swapped == kept + [s[1]];
    MultisetOfHead(kept);
    MultisetOfHead(rest);
    MultisetOfHead(s);
    MultisetCancel(multiset(kept[1..]), multiset(rest[1..]), s[0]);
    MultisetCancel(multiset(s[1..]), multiset(kept[1..]) + multiset{s[1]}, s[0]);
  }

  /** Pulling `next` until it reports absence. */
  function Drain<T>(s: seq<T>, less: (T, T) -> bool): (d: seq<T>)
    requires 1 <= |s|
    ensures multiset(d) == multiset(s[1..])
    decreases |s|
  {
    if |s| == 1 then []
    else
      var (el, rest) := Pop(s, less);
      [el.value] + Drain(rest, less)
  }
}
