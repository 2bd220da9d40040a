# Binary heap (exercises/algorithm/algorithm9.rs) in Dafny

The model covers the array-backed binary heap `Heap<T>`. Its storage vector
keeps a sentinel (`T::default()`) in slot 0 and the live elements in slots
`1..=count`. The children of slot `i` are `2i` and `2i + 1`, and its parent is
`i / 2`. The comparator `comparator(a, b)` means "a outranks b" and is fixed at
construction. `add` pushes the value and sifts it up. `next` swaps the root with
the last live slot, pops that slot and sifts the new root down. `new_min` and
`MinHeap::new` build the heap with `<`; `new_max` and `MaxHeap::new` build it
with `>`.

Files:

- `heap_spec.dfy` (module `HeapSpec`): the heap as functions over the storage
  sequence (`SiftUp`, `SiftDown`, `Pop`, `AddAll`, `Drain`), the index
  arithmetic, heap order, and the lemmas about them.
- `heap.dfy` (module `BinaryHeap`): the `Heap` class. Its fields are `count`,
  `items` and the comparator. `Add`, `ShiftUp`, `ShiftDown` and `Next` are
  imperative methods whose loops mirror the source. Each one is proved to
  leave `items` equal to the matching `HeapSpec` function of the old state.
- `heap_fixed.dfy` (module `HeapFixed`): the sift-down with the bound it
  evidently intends (`<=` instead of `<`). It holds the proofs that this
  version keeps heap order and drains in priority order.
- `heap_as_written.dfy` (module `HeapAsWritten`): the code as written on the
  input that shows the bug (see Findings). It proves that the as-written
  sift-down is the corrected one without the last live slot. It also holds
  the concrete lemmas showing that `next` then loses heap order and drains
  out of priority order.
- `heap_scenarios.dfy` (module `HeapScenarios`): the three unit tests at the
  end of the source. They are stated first as facts about the specification
  functions, then restated as verified method calls on the `Heap` object.

Two points about what the heap can promise:

- A heap iterator is meant to yield the highest-priority element first, every
  time. The code as written does not. A min-heap built by adding 1, 2, 3
  drains as 1, 3, 2 (Findings, `HeapAsWritten.AddedInOrderDrainsOutOfOrder`).
- The comparator a caller would naturally pass is a strict order
  (irreflexive and transitive). Even for a heap that is only ever added to,
  that is not enough. Sift-up also needs "neither outranks the other" to be
  transitive, which makes the comparator a strict weak order. Adding the sets
  {1,2}, {3}, {1,2,3}, {1}, {} to a fresh heap ordered by proper inclusion
  leaves it out of heap order (`HeapSpec.SubsetAddsBreakOrder`). Heap order is
  therefore claimed only for strict weak orders, which include `<` and `>`.

## Model

| member | source | states |
|---|---|---|
| HeapSpec.ParentIdx | exercises/algorithm/algorithm9.rs:88-90 | the parent p of idx satisfies 2p <= idx <= 2p + 1 |
| HeapSpec.LeftChildIdx | exercises/algorithm/algorithm9.rs:96-98 | the left child is even and its parent is idx again |
| HeapSpec.RightChildIdx | exercises/algorithm/algorithm9.rs:100-102 | the right child is odd and its parent is idx again |
| HeapSpec.Swap | exercises/algorithm/algorithm9.rs:53 | `Vec::swap`: exchanges slots i and j, leaves every other slot alone, and keeps the multiset |
| HeapSpec.MinMaxOrdersAreStrictWeak | exercises/algorithm/algorithm9.rs:115-162 | the comparator closures `a < b` (lines 115 and 150, modelled as `Less`) and `a > b` (lines 120 and 162, modelled as `Greater`) of `new_min`, `new_max`, `MinHeap::new` and `MaxHeap::new` are strict weak orders |
| HeapSpec.RootIsExtremum | exercises/algorithm/algorithm9.rs:130-138 | in a heap-ordered vector no live element outranks slot 1, the element `next` returns |
| HeapSpec.NothingOutranksRoot | exercises/algorithm/algorithm9.rs:130-138 | under a strict weak order, heap order along the parent chain gives that slot k does not outrank the root |
| HeapSpec.SiftUp | exercises/algorithm/algorithm9.rs:46-57 | sift-up keeps the length, the sentinel and every slot after i (index greater than i), and permutes the vector |
| HeapSpec.SiftUpRestoresOrder | exercises/algorithm/algorithm9.rs:46-57 | if every link is in order except the one from i to its parent, walking to the root restores heap order (strict weak order) |
| HeapSpec.AddKeepsOrder | exercises/algorithm/algorithm9.rs:40-57 | `add` on a heap-ordered vector leaves it heap-ordered, for a strict weak order |
| HeapSpec.AppendedTail | exercises/algorithm/algorithm9.rs:40-44 | a permutation of the pushed vector that keeps the sentinel holds the old live elements plus the new value |
| HeapSpec.ProperSubsetIsStrictOrder | exercises/algorithm/algorithm9.rs:17 | proper subset is irreflexive and transitive: it is the kind of comparator a caller would naturally pass |
| HeapSpec.SubsetHeapIsOrdered | exercises/algorithm/algorithm9.rs:40-57 | the vector [{}, {1,2}, {3}, {1,2,3}, {1}] is heap-ordered under proper subset |
| HeapSpec.SiftUpCarriesRootDown | exercises/algorithm/algorithm9.rs:46-57 | when the element pushed into slot 5 outranks its parent (slot 2) and the root, and the element in slot 4 outranks the root, sift-up leaves the vector out of heap order |
| HeapSpec.StrictOrderIsNotEnough | exercises/algorithm/algorithm9.rs:40-57 | adding {} to that subset heap moves {1,2} down to slot 2, above {1}, which outranks it: with an irreflexive, transitive comparator `add` can break heap order |
| HeapSpec.AddAll | exercises/algorithm/algorithm9.rs:40-44 | repeated `add`: the length grows by the number of values, the sentinel stays, and the multiset gains exactly the values |
| HeapSpec.SiftUpOnOrderedMovesNothing | exercises/algorithm/algorithm9.rs:46-57 | on a heap-ordered vector sift-up from any live slot swaps nothing |
| HeapSpec.AddAllOrderedMovesNothing | exercises/algorithm/algorithm9.rs:40-57 | adding values that extend the vector to a heap-ordered one just appends them |
| HeapSpec.AddAllSplit | exercises/algorithm/algorithm9.rs:40-44 | adding vs then ws is the same as adding vs + ws |
| HeapSpec.AddOne | exercises/algorithm/algorithm9.rs:40-44 | adding one value is one sift-up of the slot it was pushed into |
| HeapSpec.OrderedAddsThenOne | exercises/algorithm/algorithm9.rs:40-57 | after adds that moved nothing, the whole sequence of adds is a single sift-up of the last value |
| HeapSpec.OrderedAddsThenBreak | exercises/algorithm/algorithm9.rs:40-57 | if adding vs to a fresh heap moves nothing and the sift-up of one more value breaks heap order, the whole sequence of adds ends out of heap order |
| HeapSpec.SubsetAddsBreakOrder | exercises/algorithm/algorithm9.rs:40-57 | a fresh heap ordered by proper subset, after adding {1,2}, {3}, {1,2,3}, {1} and {}, is not heap-ordered |
| HeapSpec.AddAllKeepsOrder | exercises/algorithm/algorithm9.rs:40-57 | any sequence of `add` calls keeps heap order, for a strict weak order |
| HeapSpec.AddOnlyHeapIsOrdered | exercises/algorithm/algorithm9.rs:24-57 | a fresh heap after any sequence of `add` calls holds exactly the added values, is heap-ordered, and its slot 1 is an extremum |
| HeapSpec.SiftDownTarget | exercises/algorithm/algorithm9.rs:67-75 | the slot chosen for the swap is i or a child of i below the bound; it is i exactly when no child below the bound outranks i |
| HeapSpec.SiftDownTargetIsBest | exercises/algorithm/algorithm9.rs:67-75 | under a strict order, a chosen child outranks i and is not outranked by its sibling below the bound: the target is the highest-priority of i and its children |
| HeapSpec.SiftDown | exercises/algorithm/algorithm9.rs:61-82 | sift-down as written keeps the length and the sentinel, and permutes the vector |
| HeapSpec.SiftDownKeepsLastSlot | exercises/algorithm/algorithm9.rs:70-75 | sift-down as written never moves the element in the last live slot |
| HeapSpec.Pop | exercises/algorithm/algorithm9.rs:130-139 | `next`: on an empty heap it returns None and changes nothing; otherwise it returns the old slot 1, the live count drops by one, the sentinel stays, the live multiset loses exactly that element, and (with two or more elements left) the new last slot is untouched |
| HeapSpec.PopKeepsOthers | exercises/algorithm/algorithm9.rs:134-137 | swapping root and last slot, popping, and permuting the rest around the sentinel removes exactly the root from the live elements |
| HeapSpec.Drain | exercises/algorithm/algorithm9.rs:124-140 | pulling `next` until None yields exactly the live elements, as a multiset |
| BinaryHeap.Heap.constructor | exercises/algorithm/algorithm9.rs:24-30 | a new heap has count 0, only the sentinel in storage, and the given comparator |
| BinaryHeap.Heap.Len | exercises/algorithm/algorithm9.rs:32-34 | the length is the storage size minus the sentinel slot |
| BinaryHeap.Heap.IsEmpty | exercises/algorithm/algorithm9.rs:36-38 | empty exactly when nothing but the sentinel is stored |
| BinaryHeap.Heap.Compare | exercises/algorithm/algorithm9.rs:84-86 | whether the element in slot a outranks the one in slot b; both slots must be live (1 to count), so `shift_up` and `shift_down` never compare the sentinel; under a strict order no slot outranks itself and two slots never outrank each other |
| BinaryHeap.Heap.ChildrenPresent | exercises/algorithm/algorithm9.rs:92-94 | for idx >= 1, true exactly when some live slot in [2, count] has idx as its parent |
| BinaryHeap.Heap.Add | exercises/algorithm/algorithm9.rs:40-44 | count grows by one, the storage becomes the sift-up of the old storage plus the value, the live multiset gains the value, and heap order is kept for a strict weak order |
| BinaryHeap.Heap.ShiftUp | exercises/algorithm/algorithm9.rs:46-57 | the loop leaves the storage equal to `SiftUp` of the old storage from i |
| BinaryHeap.Heap.ShiftDown | exercises/algorithm/algorithm9.rs:61-82 | the loop leaves the storage equal to `SiftDown` of the old storage from i |
| BinaryHeap.Heap.Next | exercises/algorithm/algorithm9.rs:130-139 | result and new storage are `Pop` of the old storage; None with nothing changed on an empty heap, else the old slot 1 with count one less and the live multiset losing it |
| BinaryHeap.NewMin | exercises/algorithm/algorithm9.rs:114-116 | a fresh empty heap (sentinel 0) ordered by `<`; also `MinHeap::new` (146-151) |
| BinaryHeap.NewMax | exercises/algorithm/algorithm9.rs:119-121 | a fresh empty heap (sentinel 0) ordered by `>`; also `MaxHeap::new` (158-163) |
| HeapFixed.SiftDownFixed | exercises/algorithm/algorithm9.rs:61-82 | sift-down with the bound `<= len`: keeps the length and the sentinel, and permutes the vector |
| HeapFixed.SiftDownStep | exercises/algorithm/algorithm9.rs:76-80 | swapping i with the child that outranks it and its sibling moves the sift-down invariant to that child |
| HeapFixed.SiftDownFixedRestoresOrder | exercises/algorithm/algorithm9.rs:61-82 | from the sift-down invariant the corrected sift-down reaches heap order; a strict order suffices |
| HeapFixed.PopFixed | exercises/algorithm/algorithm9.rs:130-139 | corrected `next`: None on an empty heap; otherwise the old slot 1, one fewer element, and the live multiset loses it |
| HeapFixed.PopFixedKeepsOrder | exercises/algorithm/algorithm9.rs:130-139 | the corrected `next` keeps heap order |
| HeapFixed.DrainFixed | exercises/algorithm/algorithm9.rs:124-140 | draining with the corrected `next` yields exactly the live elements, as a multiset |
| HeapFixed.PrependKeepsPriorityOrder | exercises/algorithm/algorithm9.rs:124-140 | an element outranked by nothing after it, placed before a priority-ordered drain, gives a priority-ordered drain |
| HeapFixed.RestDoesNotOutrankRoot | exercises/algorithm/algorithm9.rs:130-139 | nothing left after the root leaves outranks the root |
| HeapFixed.DrainFixedIsSorted | exercises/algorithm/algorithm9.rs:124-140 | draining a heap-ordered heap with the corrected `next` yields its elements highest priority first |
| HeapFixed.AddThenDrainFixedIsSorted | exercises/algorithm/algorithm9.rs:124-140 | with the corrected `next`, adding any values to a fresh heap and draining it gives back exactly those values, highest priority first (strict weak order) |
| HeapAsWritten.SiftDownTargetAgrees | exercises/algorithm/algorithm9.rs:67-75 | the swap target depends only on the slots below the bound |
| HeapAsWritten.SiftDownIsFixedOnPrefix | exercises/algorithm/algorithm9.rs:61-82 | as written, sift-down is the corrected sift-down on the vector without its last slot, with that slot left in place |
| HeapAsWritten.PopIsFixedOnPrefix | exercises/algorithm/algorithm9.rs:130-139 | as written, `next` leaves the corrected sift-down of the swapped vector without its last two slots, followed by the element in the new last slot |
| HeapAsWritten.SwappedPrefixInvariant | exercises/algorithm/algorithm9.rs:134-137 | after the root swap and pop, the vector without its last slot meets the sift-down invariant at slot 1 |
| HeapAsWritten.AppendKeepsLinks | exercises/algorithm/algorithm9.rs:70-75 | appending a slot keeps every link of a heap-ordered vector |
| HeapAsWritten.NextKeepsAllButLastSlot | exercises/algorithm/algorithm9.rs:130-139 | as written, `next` on a heap-ordered vector with three or more live elements keeps every link in order except possibly those into the new last slot |
| HeapAsWritten.AddSortedMovesNothing | exercises/algorithm/algorithm9.rs:40-57 | adding values in non-decreasing order to a sorted min-heap moves nothing, so adding a < b < c builds [_, a, b, c] |
| HeapAsWritten.SiftDownShortMovesNothing | exercises/algorithm/algorithm9.rs:61-82 | as written, sift-down from the root with at most two live elements moves nothing |
| HeapAsWritten.NextLosesOrder | exercises/algorithm/algorithm9.rs:70-75 | as written, `next` on the min-heap [_, a, b, c] with a < b < c returns a and leaves [_, c, b], which is not heap-ordered |
| HeapFixed.PopSmall | exercises/algorithm/algorithm9.rs:130-139 | with one or two live elements both versions of `next` return slot 1 and keep the rest in place |
| HeapAsWritten.DrainOutOfOrder | exercises/algorithm/algorithm9.rs:130-139 | the next two pulls from [_, c, b] return c, then b, although b outranks c |
| HeapAsWritten.DrainAfterPop | exercises/algorithm/algorithm9.rs:124-140 | a drain starts with what the first `next` yields and goes on with the drain of what it leaves |
| HeapAsWritten.DrainTwoAsWritten | exercises/algorithm/algorithm9.rs:124-140 | as written, draining [_, c, b] with b < c yields c, b |
| HeapAsWritten.DrainThreeAsWritten | exercises/algorithm/algorithm9.rs:124-140 | as written, draining the min-heap [_, a, b, c] with a < b < c yields a, c, b |
| HeapAsWritten.AddedInOrderDrainsOutOfOrder | exercises/algorithm/algorithm9.rs:124-140 | as written, adding a < b < c to a fresh min-heap and pulling `next` until None yields a, c, b |
| HeapFixed.SiftDownFixedComparesLastSlot | exercises/algorithm/algorithm9.rs:70-75 | the corrected sift-down swaps c with the smaller b in the last slot |
| HeapFixed.NextFixedKeepsOrder | exercises/algorithm/algorithm9.rs:130-139 | the corrected `next` on [_, a, b, c] returns a and leaves [_, b, c] |
| HeapFixed.DrainFixedInOrder | exercises/algorithm/algorithm9.rs:130-139 | the corrected pulls from [_, b, c] return b, then c |
| HeapScenarios.MinHeapAdds | exercises/algorithm/algorithm9.rs:177-179 | on the min-heap, `add(4)` gives [0, 4] and `add(2)` gives [0, 2, 4] |
| HeapScenarios.MinHeapThirdAdd | exercises/algorithm/algorithm9.rs:180 | `add(9)` gives [0, 2, 4, 9] |
| HeapScenarios.MinHeapFourthAdd | exercises/algorithm/algorithm9.rs:181 | `add(11)` gives [0, 2, 4, 9, 11] |
| HeapScenarios.MinHeapFirstSiftDown | exercises/algorithm/algorithm9.rs:183 | the first sift-down turns [0, 11, 4, 9] into [0, 4, 11, 9] |
| HeapScenarios.MinHeapFirstPop | exercises/algorithm/algorithm9.rs:183 | the first `next` returns 2 and leaves [0, 4, 11, 9] |
| HeapScenarios.MinHeapSecondPop | exercises/algorithm/algorithm9.rs:184 | the second `next` returns 4 and leaves [0, 9, 11] |
| HeapScenarios.MinHeapThirdPop | exercises/algorithm/algorithm9.rs:185 | the third `next` returns 9 and leaves [0, 11] |
| HeapScenarios.MinHeapAddOneMore | exercises/algorithm/algorithm9.rs:186-187 | `add(1)` gives [0, 1, 11] and the next `next` returns 1 |
| HeapScenarios.MaxHeapAdds | exercises/algorithm/algorithm9.rs:192-194 | on the max-heap, `add(4)` gives [0, 4] and `add(2)` gives [0, 4, 2] |
| HeapScenarios.MaxHeapThirdAdd | exercises/algorithm/algorithm9.rs:195 | `add(9)` gives [0, 9, 2, 4] |
| HeapScenarios.MaxHeapFourthAddAtParent | exercises/algorithm/algorithm9.rs:196 | the second sift-up step of `add(11)` lifts 11 from slot 2 to the root |
| HeapScenarios.MaxHeapFourthAdd | exercises/algorithm/algorithm9.rs:196 | `add(11)` gives [0, 11, 9, 4, 2] |
| HeapScenarios.MaxHeapFirstSiftDown | exercises/algorithm/algorithm9.rs:198 | the first sift-down turns [0, 2, 9, 4] into [0, 9, 2, 4] |
| HeapScenarios.MaxHeapFirstPop | exercises/algorithm/algorithm9.rs:198 | the first `next` returns 11 and leaves [0, 9, 2, 4] |
| HeapScenarios.MaxHeapSecondPop | exercises/algorithm/algorithm9.rs:199 | the second `next` returns 9 and leaves [0, 4, 2] |
| HeapScenarios.MaxHeapThirdPop | exercises/algorithm/algorithm9.rs:200 | the third `next` returns 4 and leaves [0, 2] |
| HeapScenarios.MaxHeapAddOneMore | exercises/algorithm/algorithm9.rs:201-202 | `add(1)` gives [0, 2, 1] and the next `next` returns 2 |
| HeapScenarios.EmptyHeapTest | exercises/algorithm/algorithm9.rs:170-173 | `next` on a fresh max-heap returns None |
| HeapScenarios.MinHeapFirstAdds | exercises/algorithm/algorithm9.rs:177-179 | on the heap object, `MinHeap::new`, `add(4)` and `add(2)` leave storage [0, 2, 4] |
| HeapScenarios.MinHeapThreeAdds | exercises/algorithm/algorithm9.rs:177-180 | after `add(9)` the storage is [0, 2, 4, 9] |
| HeapScenarios.BuildMinHeap | exercises/algorithm/algorithm9.rs:177-181 | after `add(11)` the storage is [0, 2, 4, 9, 11] |
| HeapScenarios.MinHeapFirstNexts | exercises/algorithm/algorithm9.rs:183-184 | the first two `next` calls return 2 and 4 and leave [0, 9, 11] |
| HeapScenarios.MinHeapThirdNext | exercises/algorithm/algorithm9.rs:185 | the third `next` returns 9 and leaves [0, 11] |
| HeapScenarios.MinHeapLastSteps | exercises/algorithm/algorithm9.rs:186-187 | `add(1)` then `next` returns 1 |
| HeapScenarios.MinHeapTest | exercises/algorithm/algorithm9.rs:176-188 | test_min_heap: `len` is 4 and the pulls return 2, 4, 9, then 1 |
| HeapScenarios.MaxHeapFirstAdds | exercises/algorithm/algorithm9.rs:192-194 | on the heap object, `MaxHeap::new`, `add(4)` and `add(2)` leave storage [0, 4, 2] |
| HeapScenarios.MaxHeapThreeAdds | exercises/algorithm/algorithm9.rs:192-195 | after `add(9)` the storage is [0, 9, 2, 4] |
| HeapScenarios.BuildMaxHeap | exercises/algorithm/algorithm9.rs:192-196 | after `add(11)` the storage is [0, 11, 9, 4, 2] |
| HeapScenarios.MaxHeapFirstNexts | exercises/algorithm/algorithm9.rs:198-199 | the first two `next` calls return 11 and 9 and leave [0, 4, 2] |
| HeapScenarios.MaxHeapThirdNext | exercises/algorithm/algorithm9.rs:200 | the third `next` returns 4 and leaves [0, 2] |
| HeapScenarios.MaxHeapLastSteps | exercises/algorithm/algorithm9.rs:201-202 | `add(1)` then `next` returns 2 |
| HeapScenarios.MaxHeapTest | exercises/algorithm/algorithm9.rs:191-203 | test_max_heap: `len` is 4 and the pulls return 11, 9, 4, then 2 |

## Left out

- `usize` arithmetic: indices and the count are unbounded naturals. `idx * 2` and `count += 1` cannot overflow in the model; in Rust they could only overflow for vectors larger than memory.
- `Vec` capacity and reallocation are not modelled. The storage is a sequence that `Add` and `Next` reassign.
- `smallest_child_idx` (lines 104-106) is an unused stub that returns 0. The sift-down inlines its own child choice, which `HeapSpec.SiftDownTarget` models.
- The `Debug`, `Default` and `Ord` bounds and `#[derive(Debug)]` are left out. `T::default()` becomes an explicit sentinel argument of the constructor; it is 0 for the integer heaps.
- `MinHeap::new` and `MaxHeap::new` are generic in `T: Ord`. `BinaryHeap.NewMin` and `BinaryHeap.NewMax` build them for integers, the element type the tests use. For any other `T` the general constructor takes the comparator.
- The comparator is a total, side-effect-free function value. A comparator that panics or has effects is not modelled.
- BinaryHeap.Heap.Next: heap order after `next` is not claimed, because the code as written does not keep it (Findings). The corrected `next` is proved to keep it in `HeapFixed`.
- HeapSpec.Drain: only the multiset of the drained elements is stated. Priority order holds for `HeapFixed.DrainFixed`, not for the code as written.
- BinaryHeap.Heap.Add and HeapSpec.AddKeepsOrder: heap order is claimed only for a strict weak order. For a comparator that is merely irreflexive and transitive it can fail (`HeapSpec.StrictOrderIsNotEnough`).

## Findings

| source | as written | input that shows it | evidently intended | confidence | as-written member | corrected member |
|---|---|---|---|---|---|---|
| exercises/algorithm/algorithm9.rs:70-75 | `shift_down` looks at a child only when `left_idx < self.len()` / `right_idx < self.len()`, so the child in the last live slot is never compared | min-heap: add 1, 2, 3 (storage [0, 1, 2, 3]), then `next` returns 1 and leaves [0, 3, 2]; the following pulls return 3 before 2 | `<= self.len()`, so that `next` keeps heap order and the iterator yields elements highest priority first | high; not executed | HeapAsWritten.SiftDownIsFixedOnPrefix, HeapAsWritten.NextLosesOrder, HeapAsWritten.DrainOutOfOrder, HeapAsWritten.AddedInOrderDrainsOutOfOrder | HeapFixed.PopFixedKeepsOrder, HeapFixed.DrainFixedIsSorted |
