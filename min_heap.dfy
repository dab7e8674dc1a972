/**
  The `MinHeap` class of implementing-heap-in-python/minheap-1.py .. minheap-6.py
  and the two heapsorts built on it. Every method that changes the list is
  proved against the function on the list's value that specifies it (modules
  SiftUp, SiftDown, SiblingOrder, HeapsortSpec); what those functions guarantee
  is proved there.
 */
module MinHeaps {
  import opened Wrappers
  import opened HeapIndex
  import opened HeapOrder
  import SiftUp
  import SiftDown
  import SiblingOrder
  import opened HeapsortSpec

  /** A Python `list[int]`: a mutable object that two names can share. */
  class IntList {
    var items: seq<int>

    constructor (items: seq<int>)
      ensures this.items == items
    {
      this.items := items;
    }
  }

  class MinHeap {
    var nodes: IntList

    /** `MinHeap(nodes)`: start empty and `add` each value in order
        (`MinHeap()` is `MinHeap([])`). */
    constructor (values: seq<int>)
      ensures fresh(nodes) && nodes.items == SiftUp.BuildByAdds(values)
      ensures SiftUp.ZeroSafeValues(values) ==> IsMinHeap(nodes.items)
    {
      nodes := new IntList([]);
      new;
      for i := 0 to |values|
        invariant fresh(nodes)
        invariant nodes.items == SiftUp.BuildByAdds(values[..i])
      {
        Add(values[i]);
        assert values[..i + 1][..i] == values[..i];
      }
      assert values[..|values|] == values;
      SiftUp.BuildByAddsIsHeap(values);
    }

    /** `__len__`. */
    function Size(): (n: nat)
      reads this, nodes
      ensures n == 0 <==> nodes.items == []
    {
      |nodes.items|
    }

    /** `is_empty`: `not self.nodes`. */
    function IsEmpty(): (r: bool)
      reads this, nodes
      ensures r <==> Size() == 0
    {
      nodes.items == []
    }

    /** `peek` as the listing has it: the emptiness test is inverted, so a
        non-empty heap answers `None` and an empty one raises `IndexError`
        on `self.nodes[0]`. */
    function PeekAsWritten(): (r: Outcome<Option<int>>)
      reads this, nodes
      ensures r.Raised? <==> IsEmpty()
      ensures r.Returned? ==> r.value == None
    {
      if !IsEmpty() then Returned(None) else Raised(IndexError)
    }

    /** `peek` as intended: the root, which on a heap is the least value,
        and `None` exactly when the heap is empty. */
    function Peek(): (r: Option<int>)
      reads this, nodes
      ensures r == None <==> IsEmpty()
      ensures r.Some? ==> r.value == nodes.items[0]
      ensures r.Some? && IsMinHeap(nodes.items) ==> AtMostAll(r.value, nodes.items)
    {
      if IsEmpty() then None
      else
        HeapRootIsMin(nodes.items);
        Some(nodes.items[0])
    }

    /** `__swap`: exchange two slots; an index past the end leaves the list
        alone (the listing prints a message). */
    method Swap(first: int, second: int)
      requires 0 <= first && 0 <= second
      modifies nodes
      ensures nodes.items == Swapped(old(nodes.items), first, second)
    {
      if first >= |nodes.items| || second >= |nodes.items| {
        return;
      }
      var tmp := nodes.items[first];
      nodes.items := nodes.items[first := nodes.items[second]];
      nodes.items := nodes.items[second := tmp];
    }

    /** `__heapify_up(child)`, with `None` passed as 0. The listing's tail
        call on the parent index becomes the next round of the loop. */
    method HeapifyUp(start: int)
      requires 0 <= start < |nodes.items|
      modifies nodes
      ensures nodes.items == SiftUp.HeapifyUp(old(nodes.items), start)
    {
      var child := start;
      while true
        invariant 0 <= child < |nodes.items| == |old(nodes.items)|
        invariant SiftUp.HeapifyUp(nodes.items, child) == SiftUp.HeapifyUp(old(nodes.items), start)
        decreases SiftUp.BelowRoot(nodes.items), SiftUp.StartIndex(nodes.items, child)
      {
        if child == 0 {
          child := |nodes.items| - 1;
        }
        var parentIndex := ParentIndex(child);
        var parent := Parent(nodes.items, child);
        if !(SiftUp.Truthy(parent) && nodes.items[child] < parent.value) {
          return;
        }
        SiftUp.SwapUpShrinks(nodes.items, child);
        Swap(child, parentIndex);
        child := parentIndex;
      }
    }

    /** `add`: append, then sift up from the last slot. On a heap it keeps the
        heap property when the item is non-negative or the heap holds no 0. */
    method Add(item: int)
      modifies nodes
      ensures nodes.items == SiftUp.Add(old(nodes.items), item)
      ensures IsMinHeap(old(nodes.items)) && SiftUp.ZeroSafe(old(nodes.items), item) ==>
                IsMinHeap(nodes.items)
    {
      ghost var before := nodes.items;
      nodes.items := nodes.items + [item];
      HeapifyUp(0);
      if IsMinHeap(before) && SiftUp.ZeroSafe(before, item) {
        SiftUp.AddKeepsHeap(before, item);
      }
    }

    /** `__heapify_down(index)`. The listing's tail call on the smaller
        child becomes the next round of the loop. */
    method HeapifyDown(start: int)
      requires 0 <= start
      modifies nodes
      ensures nodes.items == SiftDown.HeapifyDown(old(nodes.items), start)
    {
      var index := start;
      while true
        invariant 0 <= index && |nodes.items| == |old(nodes.items)|
        invariant SiftDown.HeapifyDown(nodes.items, index) == SiftDown.HeapifyDown(old(nodes.items), start)
        decreases |nodes.items| - index
      {
        if index >= |nodes.items| || !HasLeftChild(nodes.items, index) {
          return;
        }
        var smaller := LeftChildIndex(index);
        if HasRightChild(nodes.items, index) && RightChild(nodes.items, index) < LeftChild(nodes.items, index) {
          smaller := RightChildIndex(index);
        }
        if nodes.items[index] < nodes.items[smaller] {
          return;
        }
        if nodes.items[index] == nodes.items[smaller] {
          return;
        }
        Swap(index, smaller);
        index := smaller;
      }
    }

    /** `poll`: `None` on an empty heap; otherwise remove and return the
        root, move the last value to the root and sift it down. On a heap the
        value returned is the least one and the rest is again a heap. */
    method Poll() returns (r: Option<int>)
      modifies nodes
      ensures old(nodes.items) == [] ==> r == None && nodes.items == []
      ensures old(nodes.items) != [] ==>
                r == Some(old(nodes.items)[0]) && nodes.items == SiftDown.PollRest(old(nodes.items))
      ensures r.Some? && IsMinHeap(old(nodes.items)) ==>
                AtMostAll(r.value, old(nodes.items)) && IsMinHeap(nodes.items)
    {
      if IsEmpty() {
        return None;
      }
      ghost var before := nodes.items;
      var removed := nodes.items[0];
      nodes.items := nodes.items[0 := nodes.items[|nodes.items| - 1]];
      nodes.items := nodes.items[..|nodes.items| - 1];
      HeapifyDown(0);
      if IsMinHeap(before) {
        SiftDown.PollKeepsHeap(before);
      }
      return Some(removed);
    }

    /** `heapify_children(index)`: recursively swap each pair of siblings
        below `index` so that left <= right. */
    method HeapifyChildren(index: int)
      requires 0 <= index
      modifies nodes
      ensures nodes.items == SiblingOrder.HeapifyChildren(old(nodes.items), index)
      decreases |nodes.items| - index
    {
      if !HasLeftChild(nodes.items, index) {
        return;
      }
      if !HasRightChild(nodes.items, index) {
        return;
      }
      if RightChild(nodes.items, index) < LeftChild(nodes.items, index) {
        Swap(RightChildIndex(index), LeftChildIndex(index));
      }
      HeapifyChildren(LeftChildIndex(index));
      HeapifyChildren(RightChildIndex(index));
    }
  }

  /** `heapsort_aux`: build a heap from the input, then poll once per input
      value. The result is a permutation of the input, sorted whenever the
      input has no 0 or no negative value. */
  method HeapsortAux(input: seq<int>) returns (r: seq<int>)
    ensures r == AuxResult(input)
    ensures |r| == |input| && multiset(r) == multiset(input)
    ensures SiftUp.ZeroSafeValues(input) ==> Sorted(r)
  {
    var heap := new MinHeap(input);
    assert |heap.nodes.items| == |input| by {
      SiftUp.BuildByAddsIsHeap(input);
    }
    r := [];
    for i := 0 to |input|
      invariant fresh(heap.nodes)
      invariant |heap.nodes.items| == |input| - i
      invariant r + SiftDown.Drain(heap.nodes.items) == AuxResult(input)
    {
      ghost var before := heap.nodes.items;
      ghost var done := r;
      var polled := heap.Poll();
      r := r + [polled.value];
      DrainStep(done, before);
    }
    AuxSortsZeroSafe(input);
  }

  /** `heapsort_in_place`: the heap adopts the caller's list, sifts down every
      index from `len // 2` to 0, orders the siblings from the root, and
      returns that same list. The list ends up a permutation of its old value
      with every pair of siblings in order (it need not be sorted). */
  method HeapsortInPlace(input: IntList) returns (r: IntList)
    modifies input
    ensures r == input && input.items == InPlaceResult(old(input.items))
    ensures multiset(input.items) == multiset(old(input.items))
    ensures forall i :: 0 <= i && RightChildIndex(i) < |input.items| ==>
              input.items[LeftChildIndex(i)] <= input.items[RightChildIndex(i)]
  {
    var heap := new MinHeap([]);
    heap.nodes := input;
    ghost var start := input.items;
    var size := |input.items|;
    var idx := size / 2;
    while idx >= 0
      invariant -1 <= idx <= size / 2
      invariant heap.nodes == input && |input.items| == size
      invariant SiftDown.Heapified(input.items, idx) == SiftDown.Heapified(start, size / 2)
      decreases idx + 1
    {
      heap.HeapifyDown(idx);
      idx := idx - 1;
    }
    heap.HeapifyChildren(0);
    InPlaceOrdersSiblings(start);
    return heap.nodes;
  }
}
