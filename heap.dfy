/** The `Heap<T>` object of exercises/algorithm/algorithm9.rs: a storage
    vector whose slot 0 holds a sentinel, a count of live elements and a
    comparator fixed at construction. `add` and `next` update the count and the
    vector in place; each method is proved against the matching function of
    HeapSpec, and what the source promises is proved there. */
module BinaryHeap {
  import opened HeapSpec

  class Heap<T(!new)> {
    var count: nat
    var items: seq<T>
    const comparator: (T, T) -> bool

    /** The vector holds the sentinel and exactly `count` live elements. */
    ghost predicate Valid()
      reads this
    {
      |items| == count + 1
    }

    /** `Heap::new`: `sentinel` stands for `T::default()`. */
    constructor (comparator: (T, T) -> bool, sentinel: T)
      ensures Valid() && count == 0 && items == [sentinel]
      ensures this.comparator == comparator
    {
      this.count := 0;
      this.items := [sentinel];
      this.comparator := comparator;
    }

    /** The number of live elements: the vector minus its sentinel slot. */
    function Len(): (n: nat)
      reads this
      requires Valid()
      ensures n == |items| - 1
    {
      count
    }

    /** Empty exactly when only the sentinel is stored. */
    function IsEmpty(): (e: bool)
      reads this
      requires Valid()
      ensures e <==> items[1..] == []
    {
      Len() == 0
    }

    /** Whether the element at a outranks the element at b. Both slots are
        live: a comparison never reads the sentinel. Under a strict order no
        slot outranks itself and two slots never outrank each other. */
    function Compare(a: nat, b: nat): (r: bool)
      reads this
      requires 1 <= a < |items| && 1 <= b < |items|
      ensures StrictOrder(comparator) && r ==> a != b && !comparator(items[b], items[a])
    {
      comparator(items[a], items[b])
    }

    /** Whether idx has a child inside the live region [1, count]. */
    function ChildrenPresent(idx: nat): (b: bool)
      reads this
      ensures idx >= 1 ==> (b <==> exists c :: 2 <= c <= count && ParentIdx(c) == idx)
    {
      assert idx >= 1 && LeftChildIdx(idx) <= count ==> ParentIdx(LeftChildIdx(idx)) == idx;
      LeftChildIdx(idx) <= count
    }

    method Add(value: T)
      requires Valid()
      modifies this
      ensures Valid() && count == old(count) + 1
      ensures items == SiftUp(old(items) + [value], old(count) + 1, comparator)
      ensures multiset(items[1..]) == multiset(old(items)[1..]) + multiset{value}
      ensures StrictWeakOrder(comparator) && HeapOrdered(old(items), comparator) ==>
                HeapOrdered(items, comparator)
    {
      ghost var before := items;
      items := items + [value];
      count := count + 1;
      ShiftUp(count);
      AppendedTail(before, value, items);
      if StrictWeakOrder(comparator) && HeapOrdered(before, comparator) {
        AddKeepsOrder(before, value, comparator);
      }
    }

    /** Walks from i to the root, swapping i with its parent whenever i
        outranks it; it does not stop early. */
    method ShiftUp(i0: nat)
      requires Valid() && 1 <= i0 <= count
      modifies this`items
      ensures Valid() && items == SiftUp(old(items), i0, comparator)
    {
      var i := i0;
      while true
        invariant Valid() && 1 <= i <= count
        invariant SiftUp(items, i, comparator) == SiftUp(old(items), i0, comparator)
        decreases i
      {
        if i == 1 {
          break;
        }
        var parent := ParentIdx(i);
        if Compare(i, parent) {
          items := Swap(items, i, parent);
        }
        i := parent;
      }
    }

    /** Moves the element at i down while a child outranks it; a child is only
        considered when its index is strictly below `Len()`. */
    method ShiftDown(i0: nat)
      requires Valid() && 1 <= i0
      modifies this`items
      ensures Valid() && items == SiftDown(old(items), i0, comparator)
    {
      var i := i0;
      while true
        invariant Valid() && 1 <= i
        invariant SiftDown(items, i, comparator) == SiftDown(old(items), i0, comparator)
        decreases |items| - i
      {
        if !ChildrenPresent(i) {
          break;
        }
        var left := LeftChildIdx(i);
        var right := RightChildIdx(i);
        var m := i;
        if left < Len() && Compare(left, m) {
          m := left;
        }
        if right < Len() && Compare(right, m) {
          m := right;
        }
        if i == m {
          break;
        }
        items := Swap(items, m, i);
        i := m;
      }
    }

    /** `Iterator::next`. */
    method Next() returns (el: Option<T>)
      requires Valid()
      modifies this
      ensures Valid() && (el, items) == Pop(old(items), comparator)
      ensures old(count) == 0 ==> el == None && count == 0 && items == old(items)
      ensures old(count) > 0 ==> el == Some(old(items)[1]) && count == old(count) - 1
      ensures old(count) > 0 ==> multiset(items[1..]) + multiset{el.value} == multiset(old(items)[1..])
    {
      if count == 0 {
        return None;
      }
      items := Swap(items, 1, count);
      count := count - 1;
      var last := items[|items| - 1];
      items := items[..|items| - 1];
      ShiftDown(1);
      el := Some(last);
    }
  }

  /** `Heap::new_min` and `MinHeap::new`, for integers (`T::default()` is 0). */
  method NewMin() returns (heap: Heap<int>)
    ensures fresh(heap) && heap.Valid() && heap.items == [0] && heap.comparator == Less
  {
    heap := new Heap(Less, 0);
  }

  /** `Heap::new_max` and `MaxHeap::new`, for integers. */
  method NewMax() returns (heap: Heap<int>)
    ensures fresh(heap) && heap.Valid() && heap.items == [0] && heap.comparator == Greater
  {
    heap := new Heap(Greater, 0);
  }
}
