/** The scenarios of the tests at the end of exercises/algorithm/algorithm9.rs,
    first as facts about the specification functions, step by step, then
    restated as verified method calls on the heap object. */
module HeapScenarios {
  import opened HeapSpec
  import opened BinaryHeap

  // Min-heap: add 4, 2, 9, 11.

  lemma MinHeapAdds()
    ensures SiftUp([0, 4], 1, Less) == [0, 4]
    ensures SiftUp([0, 4, 2], 2, Less) == [0, 2, 4]
  {
    assert Swap([0, 4, 2], 2, 1) == [0, 2, 4];
  }

  lemma MinHeapThirdAdd()
    ensures SiftUp([0, 2, 4, 9], 3, Less) == [0, 2, 4, 9]
  {
  }

  lemma MinHeapFourthAdd()
    ensures SiftUp([0, 2, 4, 9, 11], 4, Less) == [0, 2, 4, 9, 11]
  {
  }

  lemma MinHeapFirstSiftDown()
    ensures SiftDown([0, 11, 4, 9], 1, Less) == [0, 4, 11, 9]
  {
    assert Swap([0, 11, 4, 9], 2, 1) == [0, 4, 11, 9];
  }

  lemma MinHeapFirstPop()
    ensures Pop([0, 2, 4, 9, 11], Less) == (Some(2), [0, 4, 11, 9])
  {
    assert Swap([0, 2, 4, 9, 11], 1, 4)[..4] == [0, 11, 4, 9];
    MinHeapFirstSiftDown();
  }

  lemma MinHeapSecondPop()
    ensures Pop([0, 4, 11, 9], Less) == (Some(4), [0, 9, 11])
  {
    assert Swap([0, 4, 11, 9], 1, 3)[..3] == [0, 9, 11];
  }

  lemma MinHeapThirdPop()
    ensures Pop([0, 9, 11], Less) == (Some(9), [0, 11])
  {
    assert Swap([0, 9, 11], 1, 2)[..2] == [0, 11];
  }

  lemma MinHeapAddOneMore()
    ensures SiftUp([0, 11, 1], 2, Less) == [0, 1, 11]
    ensures Pop([0, 1, 11], Less).0 == Some(1)
  {
    assert Swap([0, 11, 1], 2, 1) == [0, 1, 11];
  }

  // Max-heap: add 4, 2, 9, 11.

  lemma MaxHeapAdds()
    ensures SiftUp([0, 4], 1, Greater) == [0, 4]
    ensures SiftUp([0, 4, 2], 2, Greater) == [0, 4, 2]
  {
  }

  lemma MaxHeapThirdAdd()
    ensures SiftUp([0, 4, 2, 9], 3, Greater) == [0, 9, 2, 4]
  {
    assert Swap([0, 4, 2, 9], 3, 1) == [0, 9, 2, 4];
  }

  lemma MaxHeapFourthAddAtParent()
    ensures SiftUp([0, 9, 11, 4, 2], 2, Greater) == [0, 11, 9, 4, 2]
  {
    assert Swap([0, 9, 11, 4, 2], 2, 1) == [0, 11, 9, 4, 2];
  }

  lemma MaxHeapFourthAdd()
    ensures SiftUp([0, 9, 2, 4, 11], 4, Greater) == [0, 11, 9, 4, 2]
  {
    assert Swap([0, 9, 2, 4, 11], 4, 2) == [0, 9, 11, 4, 2];
    MaxHeapFourthAddAtParent();
  }

  lemma MaxHeapFirstSiftDown()
    ensures SiftDown([0, 2, 9, 4], 1, Greater) == [0, 9, 2, 4]
  {
    assert Swap([0, 2, 9, 4], 2, 1) == [0, 9, 2, 4];
  }

  lemma MaxHeapFirstPop()
    ensures Pop([0, 11, 9, 4, 2], Greater) == (Some(11), [0, 9, 2, 4])
  {
    assert Swap([0, 11, 9, 4, 2], 1, 4)[..4] == [0, 2, 9, 4];
    MaxHeapFirstSiftDown();
  }

  lemma MaxHeapSecondPop()
    ensures Pop([0, 9, 2, 4], Greater) == (Some(9), [0, 4, 2])
  {
    assert Swap([0, 9, 2, 4], 1, 3)[..3] == [0, 4, 2];
  }

  lemma MaxHeapThirdPop()
    ensures Pop([0, 4, 2], Greater) == (Some(4), [0, 2])
  {
    assert Swap([0, 4, 2], 1, 2)[..2] == [0, 2];
  }

  lemma MaxHeapAddOneMore()
    ensures SiftUp([0, 2, 1], 2, Greater) == [0, 2, 1]
    ensures Pop([0, 2, 1], Greater).0 == Some(2)
  {
  }

  // The tests themselves, restated as verified method calls on the heap object.

  /** test_empty_heap: `next` on a fresh max-heap reports absence. */
  method EmptyHeapTest() returns (first: Option<int>)
    ensures first == None
  {
    var heap := NewMax();
    first := heap.Next();
  }

  /** The first two `add` calls of test_min_heap. */
  method MinHeapFirstAdds() returns (heap: Heap<int>)
    ensures fresh(heap) && heap.Valid() && heap.comparator == Less
    ensures heap.items == [0, 2, 4]
  {
    heap := NewMin();
    heap.Add(4);
    assert [0] + [4] == [0, 4];
    assert heap.items == [0, 4];
    heap.Add(2);
    assert [0, 4] + [2] == [0, 4, 2];
    MinHeapAdds();
  }

  /** The first three `add` calls of test_min_heap. */
  method MinHeapThreeAdds() returns (heap: Heap<int>)
    ensures fresh(heap) && heap.Valid() && heap.comparator == Less
    ensures heap.items == [0, 2, 4, 9]
  {
    heap := MinHeapFirstAdds();
    heap.Add(9);
    assert [0, 2, 4] + [9] == [0, 2, 4, 9];
    MinHeapThirdAdd();
  }

  /** The four `add` calls of test_min_heap. */
  method BuildMinHeap() returns (heap: Heap<int>)
    ensures fresh(heap) && heap.Valid() && heap.comparator == Less
    ensures heap.items == [0, 2, 4, 9, 11]
  {
    heap := MinHeapThreeAdds();
    heap.Add(11);
    assert [0, 2, 4, 9] + [11] == [0, 2, 4, 9, 11];
    MinHeapFourthAdd();
  }

  /** The first two `next` calls of test_min_heap. */
  method MinHeapFirstNexts(heap: Heap<int>) returns (a: Option<int>, b: Option<int>)
    requires heap.Valid() && heap.comparator == Less && heap.items == [0, 2, 4, 9, 11]
    modifies heap
    ensures a == Some(2) && b == Some(4)
    ensures heap.Valid() && heap.items == [0, 9, 11]
  {
    MinHeapFirstPop();
    a := heap.Next();
    MinHeapSecondPop();
    b := heap.Next();
  }

  /** The third `next` of test_min_heap. */
  method MinHeapThirdNext(heap: Heap<int>) returns (c: Option<int>)
    requires heap.Valid() && heap.comparator == Less && heap.items == [0, 9, 11]
    modifies heap
    ensures c == Some(9)
    ensures heap.Valid() && heap.items == [0, 11]
  {
    MinHeapThirdPop();
    c := heap.Next();
  }

  /** The extra `add(1)` and the last `next` of test_min_heap. */
  method MinHeapLastSteps(heap: Heap<int>) returns (d: Option<int>)
    requires heap.Valid() && heap.comparator == Less && heap.items == [0, 11]
    modifies heap
    ensures d == Some(1)
  {
    heap.Add(1);
    assert [0, 11] + [1] == [0, 11, 1];
    MinHeapAddOneMore();
    assert heap.items == [0, 1, 11];
    d := heap.Next();
  }

  /** test_min_heap. */
  method MinHeapTest() returns (len: nat, pulled: seq<Option<int>>)
    ensures len == 4 && pulled == [Some(2), Some(4), Some(9), Some(1)]
  {
    var heap := BuildMinHeap();
    len := heap.Len();
    var a, b := MinHeapFirstNexts(heap);
    var c := MinHeapThirdNext(heap);
    var d := MinHeapLastSteps(heap);
    pulled := [a, b, c, d];
  }

  /** The first two `add` calls of test_max_heap. */
  method MaxHeapFirstAdds() returns (heap: Heap<int>)
    ensures fresh(heap) && heap.Valid() && heap.comparator == Greater
    ensures heap.items == [0, 4, 2]
  {
    heap := NewMax();
    heap.Add(4);
    assert [0] + [4] == [0, 4];
    assert heap.items == [0, 4];
    heap.Add(2);
    assert [0, 4] + [2] == [0, 4, 2];
    MaxHeapAdds();
  }

  /** The first three `add` calls of test_max_heap. */
  method MaxHeapThreeAdds() returns (heap: Heap<int>)
    ensures fresh(heap) && heap.Valid() && heap.comparator == Greater
    ensures heap.items == [0, 9, 2, 4]
  {
    heap := MaxHeapFirstAdds();
    heap.Add(9);
    assert [0, 4, 2] + [9] == [0, 4, 2, 9];
    MaxHeapThirdAdd();
  }

  /** The four `add` calls of test_max_heap. */
  method BuildMaxHeap() returns (heap: Heap<int>)
    ensures fresh(heap) && heap.Valid() && heap.comparator == Greater
    ensures heap.items == [0, 11, 9, 4, 2]
  {
    heap := MaxHeapThreeAdds();
    heap.Add(11);
    assert [0, 9, 2, 4] + [11] == [0, 9, 2, 4, 11];
    MaxHeapFourthAdd();
  }

  /** The first two `next` calls of test_max_heap. */
  method MaxHeapFirstNexts(heap: Heap<int>) returns (a: Option<int>, b: Option<int>)
    requires heap.Valid() && heap.comparator == Greater && heap.items == [0, 11, 9, 4, 2]
    modifies heap
    ensures a == Some(11) && b == Some(9)
    ensures heap.Valid() && heap.items == [0, 4, 2]
  {
    MaxHeapFirstPop();
    a := heap.Next();
    MaxHeapSecondPop();
    b := heap.Next();
  }

  /** The third `next` of test_max_heap. */
  method MaxHeapThirdNext(heap: Heap<int>) returns (c: Option<int>)
    requires heap.Valid() && heap.comparator == Greater && heap.items == [0, 4, 2]
    modifies heap
    ensures c == Some(4)
    ensures heap.Valid() && heap.items == [0, 2]
  {
    MaxHeapThirdPop();
    c := heap.Next();
  }

  /** The extra `add(1)` and the last `next` of test_max_heap. */
  method MaxHeapLastSteps(heap: Heap<int>) returns (d: Option<int>)
    requires heap.Valid() && heap.comparator == Greater && heap.items == [0, 2]
    modifies heap
    ensures d == Some(2)
  {
    heap.Add(1);
    assert [0, 2] + [1] == [0, 2, 1];
    MaxHeapAddOneMore();
    assert heap.items == [0, 2, 1];
    d := heap.Next();
  }

  /** test_max_heap. */
  method MaxHeapTest() returns (len: nat, pulled: seq<Option<int>>)
    ensures len == 4 && pulled == [Some(11), Some(9), Some(4), Some(2)]
  {
    var heap := BuildMaxHeap();
    len := heap.Len();
    var a, b := MaxHeapFirstNexts(heap);
    var c := MaxHeapThirdNext(heap);
    var d := MaxHeapLastSteps(heap);
    pulled := [a, b, c, d];
  }
}
