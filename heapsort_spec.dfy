/**
  What `heapsort_aux` (implementing-heap-in-python/minheap-5.py) and
  `heapsort_in_place` (implementing-heap-in-python/minheap-6.py) compute,
  as functions on the input's value, with the worked examples of the listings.
 */
module HeapsortSpec {
  import opened HeapIndex
  import opened HeapOrder
  import opened SiftUp
  import opened SiftDown
  import opened SiblingOrder

  /** `heapsort_aux`: build by repeated `add`, then poll everything. */
  function AuxResult(values: seq<int>): (drained: seq<int>)
  {
    Drain(BuildByAdds(values))
  }

  /** `heapsort_aux` returns a permutation of its input, sorted whenever the
      input has no 0 or no negative value. */
  lemma AuxSortsZeroSafe(values: seq<int>)
    ensures |AuxResult(values)| == |values| && multiset(AuxResult(values)) == multiset(values)
    ensures ZeroSafeValues(values) ==> Sorted(AuxResult(values))
  {
    BuildByAddsIsHeap(values);
    DrainPermutes(BuildByAdds(values));
    if ZeroSafeValues(values) {
      DrainIsSorted(BuildByAdds(values));
    }
  }

  /** Polling once moves the root from the heap to the output. */
  lemma DrainStep(done: seq<int>, s: seq<int>)
    requires |s| > 0
    ensures (done + [s[0]]) + Drain(PollRest(s)) == done + Drain(s)
  {
    var rest := Drain(PollRest(s));
    assert Drain(s) == [s[0]] + rest;
    ShiftOne(done, s[0], rest);
  }

  /** Regrouping a concatenation; kept apart because proving it inside
      `DrainStep`, next to `Drain`'s unfolding, exhausts the solver. */
  lemma ShiftOne(done: seq<int>, x: int, rest: seq<int>)
    ensures (done + [x]) + rest == done + ([x] + rest)
  {
  }

  /** With both a zero and a negative value the result need not be sorted. */
  lemma AuxMissortsZeroAndNegative()
    ensures AuxResult([0, -1]) == [0, -1] && !Sorted(AuxResult([0, -1]))
  {
    BuildZeroThenMinusOne();
    DrainZeroThenMinusOne();
  }

  /** Adding 0 and then -1 leaves the -1 below the 0. */
  lemma BuildZeroThenMinusOne()
    ensures BuildByAdds([0, -1]) == [0, -1]
  {
    ZeroParentBlocksSiftUp();
    assert BuildByAdds([0]) == [0] by {
      assert BuildByAdds([]) == [];
      assert HeapifyUp([0], 0) == [0];
    }
    assert BuildByAdds([0, -1]) == Add(BuildByAdds([0]), -1) by {
      assert [0, -1][..1] == [0];
    }
  }

  /** Polling [0, -1] twice returns the values in stored order. */
  lemma DrainZeroThenMinusOne()
    ensures Drain([0, -1]) == [0, -1]
  {
    assert MoveLastToRoot([0, -1]) == [-1];
    assert PollRest([0, -1]) == [-1];
    assert MoveLastToRoot([-1]) == [];
    assert PollRest([-1]) == [];
    assert Drain([-1]) == [-1];
    assert Drain([0, -1]) == [0] + Drain([-1]);
  }

  /** `heapsort_in_place`: the bottom-up sift-down loop from `len // 2`,
      then `heapify_children(0)`. */
  function InPlaceResult(s: seq<int>): (r: seq<int>)
  {
    HeapifyChildren(Heapified(s, |s| / 2), 0)
  }

  /** `heapsort_in_place` permutes its input and leaves every pair of
      siblings in order, left <= right. */
  lemma InPlaceOrdersSiblings(s: seq<int>)
    ensures |InPlaceResult(s)| == |s| && multiset(InPlaceResult(s)) == multiset(s)
    ensures forall i :: 0 <= i && RightChildIndex(i) < |s| ==>
              InPlaceResult(s)[LeftChildIndex(i)] <= InPlaceResult(s)[RightChildIndex(i)]
  {
    HeapifiedPermutes(s, |s| / 2);
    HeapifyChildrenPermutes(Heapified(s, |s| / 2), 0);
    HeapifyChildrenOrdersSiblings(Heapified(s, |s| / 2), 0);
    forall i | 0 <= i && RightChildIndex(i) < |s|
      ensures InPlaceResult(s)[LeftChildIndex(i)] <= InPlaceResult(s)[RightChildIndex(i)]
    {
      InRootSubtree(i);
    }
  }

  /** The bottom-up loop on [100, 230, 44, 1, 74, 12013, 84] gives the layout
      that `heapq.heapify` prints for the same list. */
  lemma BottomUpExample()
    ensures Heapified([100, 230, 44, 1, 74, 12013, 84], 3) == [1, 74, 44, 230, 100, 12013, 84]
  {
    var s0 := [100, 230, 44, 1, 74, 12013, 84];
    var s1 := [100, 1, 44, 230, 74, 12013, 84];
    var s2 := [1, 100, 44, 230, 74, 12013, 84];
    var s3 := [1, 74, 44, 230, 100, 12013, 84];
    assert HeapifyDown(s0, 3) == s0;
    assert HeapifyDown(s0, 2) == s0;
    assert SmallerChildIndex(s0, 1) == 3;
    assert HeapifyDown(s0, 1) == HeapifyDown(Swapped(s0, 1, 3), 3);
    assert Swapped(s0, 1, 3) == s1;
    assert HeapifyDown(s1, 3) == s1;
    assert SmallerChildIndex(s1, 0) == 1;
    assert HeapifyDown(s1, 0) == HeapifyDown(Swapped(s1, 0, 1), 1);
    assert Swapped(s1, 0, 1) == s2;
    assert SmallerChildIndex(s2, 1) == 4;
    assert HeapifyDown(s2, 1) == HeapifyDown(Swapped(s2, 1, 4), 4);
    assert Swapped(s2, 1, 4) == s3;
    assert HeapifyDown(s3, 4) == s3;
    calc {
      Heapified(s0, 3);
      Heapified(s0, 2);
      Heapified(s0, 1);
      Heapified(s1, 0);
      Heapified(s3, -1);
    }
  }

  /** On the listing's own input [10, 15, 8, 20, 17] the result is sorted. */
  lemma InPlaceExample()
    ensures InPlaceResult([10, 15, 8, 20, 17]) == [8, 10, 15, 17, 20]
    ensures Sorted(InPlaceResult([10, 15, 8, 20, 17]))
  {
    var s0 := [10, 15, 8, 20, 17];
    var s1 := [8, 15, 10, 20, 17];
    var s2 := [8, 10, 15, 20, 17];
    var s3 := [8, 10, 15, 17, 20];
    assert HeapifyDown(s0, 2) == s0;
    assert SmallerChildIndex(s0, 1) == 4;
    assert HeapifyDown(s0, 1) == s0;
    assert SmallerChildIndex(s0, 0) == 2;
    assert HeapifyDown(s0, 0) == HeapifyDown(Swapped(s0, 0, 2), 2);
    assert Swapped(s0, 0, 2) == s1;
    assert HeapifyDown(s1, 2) == s1;
    calc {
      Heapified(s0, 2);
      Heapified(s0, 1);
      Heapified(s0, 0);
      Heapified(s1, -1);
    }
    assert OrderChildren(s1, 0) == s2;
    assert OrderChildren(s2, 1) == s3;
    assert HeapifyChildren(s3, 3) == s3 && HeapifyChildren(s3, 4) == s3;
    assert HeapifyChildren(s2, 1) == HeapifyChildren(HeapifyChildren(s3, 3), 4);
    assert HeapifyChildren(s3, 2) == s3;
    assert HeapifyChildren(s1, 0) == HeapifyChildren(HeapifyChildren(s2, 1), 2);
  }

  /** On [100, 230, 44, 1, 74, 12013, 84] the result is not sorted:
      `heapify_children` only orders siblings. */
  lemma InPlaceIsNotASort()
    ensures InPlaceResult([100, 230, 44, 1, 74, 12013, 84]) == [1, 44, 74, 100, 230, 84, 12013]
    ensures !Sorted(InPlaceResult([100, 230, 44, 1, 74, 12013, 84]))
  {
    BottomUpExample();
    SiblingOrderOfExample();
    var s3 := [1, 44, 74, 100, 230, 84, 12013];
    assert s3[4] > s3[5];
  }

  /** `heapify_children(0)` on the bottom-up layout of the example. */
  lemma SiblingOrderOfExample()
    ensures HeapifyChildren([1, 74, 44, 230, 100, 12013, 84], 0) == [1, 44, 74, 100, 230, 84, 12013]
  {
    var h := [1, 74, 44, 230, 100, 12013, 84];
    var s1 := [1, 44, 74, 230, 100, 12013, 84];
    var s2 := [1, 44, 74, 100, 230, 12013, 84];
    var s3 := [1, 44, 74, 100, 230, 84, 12013];
    assert OrderChildren(h, 0) == s1;
    LeftSubtreeOfExample();
    RightSubtreeOfExample();
    assert HeapifyChildren(h, 0) == HeapifyChildren(HeapifyChildren(s1, 1), 2);
  }

  lemma LeftSubtreeOfExample()
    ensures HeapifyChildren([1, 44, 74, 230, 100, 12013, 84], 1) == [1, 44, 74, 100, 230, 12013, 84]
  {
    var s1 := [1, 44, 74, 230, 100, 12013, 84];
    var s2 := [1, 44, 74, 100, 230, 12013, 84];
    assert OrderChildren(s1, 1) == s2;
    assert HeapifyChildren(s2, 3) == s2 && HeapifyChildren(s2, 4) == s2;
    assert HeapifyChildren(s1, 1) == HeapifyChildren(HeapifyChildren(s2, 3), 4);
  }

  lemma RightSubtreeOfExample()
    ensures HeapifyChildren([1, 44, 74, 100, 230, 12013, 84], 2) == [1, 44, 74, 100, 230, 84, 12013]
  {
    var s2 := [1, 44, 74, 100, 230, 12013, 84];
    var s3 := [1, 44, 74, 100, 230, 84, 12013];
    assert OrderChildren(s2, 2) == s3;
    assert HeapifyChildren(s3, 5) == s3 && HeapifyChildren(s3, 6) == s3;
    assert HeapifyChildren(s2, 2) == HeapifyChildren(HeapifyChildren(s3, 5), 6);
  }

  /** `heapify_children` can break the heap property below a swapped right child. */
  lemma SiblingSwapBreaksHeap()
    ensures IsMinHeap([1, 5, 2, 6, 7, 3, 4])
    ensures HeapifyChildren([1, 5, 2, 6, 7, 3, 4], 0) == [1, 2, 5, 6, 7, 3, 4]
    ensures !IsMinHeap(HeapifyChildren([1, 5, 2, 6, 7, 3, 4], 0))
  {
    var s0 := [1, 5, 2, 6, 7, 3, 4];
    var s1 := [1, 2, 5, 6, 7, 3, 4];
    forall c | 0 < c < 7 ensures s0[ParentIndex(c)] <= s0[c] {
      assert c in {1, 2, 3, 4, 5, 6};
    }
    assert OrderChildren(s0, 0) == s1;
    assert OrderChildren(s1, 1) == s1 && OrderChildren(s1, 2) == s1;
    assert HeapifyChildren(s1, 3) == s1 && HeapifyChildren(s1, 4) == s1;
    assert HeapifyChildren(s1, 5) == s1 && HeapifyChildren(s1, 6) == s1;
    assert HeapifyChildren(s1, 1) == HeapifyChildren(HeapifyChildren(s1, 3), 4);
    assert HeapifyChildren(s1, 2) == HeapifyChildren(HeapifyChildren(s1, 5), 6);
    assert HeapifyChildren(s0, 0) == HeapifyChildren(HeapifyChildren(s1, 1), 2);
    assert ParentIndex(5) == 2 && s1[2] > s1[5];
  }
}
