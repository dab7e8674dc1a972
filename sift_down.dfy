/**
  Sift-down (`__heapify_down`) and extraction (`poll`) of
  implementing-heap-in-python/minheap-3.py, draining by repeated `poll`
  (implementing-heap-in-python/minheap-5.py) and the bottom-up loop of
  implementing-heap-in-python/minheap-6.py, as functions on the list's value.
 */
module SiftDown {
  import opened HeapIndex
  import opened HeapOrder

  /** The child sift-down compares with: the right one only when it exists and
      is strictly smaller than the left one. Wherever a left child exists the
      choice is an existing child holding the smaller of the two values, so the
      virtual `-sys.maxsize` of a missing child never decides a sift-down. */
  function SmallerChildIndex(s: seq<int>, index: int): (m: int)
    requires 0 <= index
    ensures HasLeftChild(s, index) ==>
      && (m == LeftChildIndex(index) || m == RightChildIndex(index))
      && m < |s|
      && s[m] <= s[LeftChildIndex(index)]
      && (HasRightChild(s, index) ==> s[m] <= s[RightChildIndex(index)])
    ensures m == RightChildIndex(index) <==>
      HasRightChild(s, index) && s[RightChildIndex(index)] < s[LeftChildIndex(index)]
  {
    if HasRightChild(s, index) && RightChild(s, index) < LeftChild(s, index)
    then RightChildIndex(index)
    else LeftChildIndex(index)
  }

  /** One call of `__heapify_down(index)` and everything it recurses into. It
      stops when `index` is past the end, has no left child, or is no larger
      than the smaller child (on equality the listing falls off the end of the
      function without swapping). */
  function HeapifyDown(s: seq<int>, index: int): (r: seq<int>)
    requires 0 <= index
    ensures |r| == |s|
    decreases |s| - index
  {
    if index >= |s| || !HasLeftChild(s, index) then s
    else
      var m := SmallerChildIndex(s, index);
      if s[index] < s[m] then s
      else if s[index] > s[m] then HeapifyDown(Swapped(s, index, m), m)
      else s
  }

  /** Sift-down only permutes the values. */
  lemma {:induction false} HeapifyDownPermutes(s: seq<int>, index: int)
    requires 0 <= index
    ensures multiset(HeapifyDown(s, index)) == multiset(s)
    decreases |s| - index
  {
    if index < |s| && HasLeftChild(s, index) {
      var m := SmallerChildIndex(s, index);
      if s[index] > s[m] {
        SwappedPermutes(s, index, m);
        HeapifyDownPermutes(Swapped(s, index, m), m);
      }
    }
  }

  /** Sift-down moves values only inside the subtree rooted at `index`. */
  lemma {:induction false} HeapifyDownStaysInSubtree(s: seq<int>, index: int)
    requires 0 <= index
    ensures forall k :: 0 <= k < |s| && !InSubtree(k, index) ==> HeapifyDown(s, index)[k] == s[k]
    decreases |s| - index
  {
    if index < |s| && HasLeftChild(s, index) {
      var m := SmallerChildIndex(s, index);
      if s[index] > s[m] {
        ChildrenInSubtree(index);
        HeapifyDownStaysInSubtree(Swapped(s, index, m), m);
        forall k | 0 <= k < |s| && !InSubtree(k, index) ensures !InSubtree(k, m) {
          if InSubtree(k, m) {
            SubtreeTransitive(k, m, index);
          }
        }
      }
    }
  }

  /** The parent of `i` (when it is in range `lo..`) is no larger than `i`'s children. */
  ghost predicate BridgesOver(s: seq<int>, lo: int, i: int)
  {
    0 < i && lo <= ParentIndex(i) && i < |s| ==>
      forall k :: 0 < k < |s| && ParentIndex(k) == i ==> s[ParentIndex(i)] <= s[k]
  }

  /** One swap of sift-down moves the exception one level towards the leaves. */
  lemma SwapDownStep(s: seq<int>, lo: int, i: int)
    requires 0 <= lo <= i < |s| && HasLeftChild(s, i)
    requires OrderedFrom(s, lo, i) && BridgesOver(s, lo, i)
    requires s[i] > s[SmallerChildIndex(s, i)]
    ensures var m := SmallerChildIndex(s, i);
            OrderedFrom(Swapped(s, i, m), lo, m) && BridgesOver(Swapped(s, i, m), lo, m)
  {
    var m := SmallerChildIndex(s, i);
    ParentInvertsChildren(i, 1);
    var u := Swapped(s, i, m);
    forall k | 0 < k < |u| && lo <= ParentIndex(k) && ParentIndex(k) != m
      ensures u[ParentIndex(k)] <= u[k]
    {
      ParentInvertsChildren(i, k);
      if k == m {
      } else if ParentIndex(k) == i {
        assert u[i] == s[m] && u[k] == s[k];
      } else if k == i {
        assert u[k] == s[m];
      } else {
        assert u[ParentIndex(k)] == s[ParentIndex(k)];
      }
    }
    forall k | 0 < k < |u| && ParentIndex(k) == m ensures u[ParentIndex(m)] <= u[k] {
      ParentInvertsChildren(m, k);
    }
  }

  /** Sift-down from `i` restores the heap property for every parent in `lo..`
      when it held there except at `i` and `i`'s parent bridges over it. */
  lemma {:induction false} HeapifyDownRestores(s: seq<int>, lo: int, i: int)
    requires 0 <= lo <= i
    requires OrderedFrom(s, lo, i) && BridgesOver(s, lo, i)
    ensures OrderedFrom(HeapifyDown(s, i), lo, -1)
    decreases |s| - i
  {
    if i >= |s| || !HasLeftChild(s, i) {
      forall k | 0 < k < |s| && lo <= ParentIndex(k) ensures s[ParentIndex(k)] <= s[k] {
        ParentInvertsChildren(0, k);
      }
    } else {
      var m := SmallerChildIndex(s, i);
      if s[i] > s[m] {
        SwapDownStep(s, lo, i);
        ParentInvertsChildren(i, 1);
        HeapifyDownRestores(Swapped(s, i, m), lo, m);
      } else {
        forall k | 0 < k < |s| && lo <= ParentIndex(k) ensures s[ParentIndex(k)] <= s[k] {
          ParentInvertsChildren(0, k);
          if ParentIndex(k) == i {
            ParentInvertsChildren(i, 1);
          }
        }
      }
    }
  }

  /** `poll`'s relocation: the last value overwrites the root and the tail
      slot is deleted. */
  function MoveLastToRoot(s: seq<int>): (r: seq<int>)
    requires |s| > 0
    ensures |r| == |s| - 1 && multiset(r) == multiset(s) - multiset{s[0]}
    ensures forall k :: 0 < k < |r| ==> r[k] == s[k]
  {
    MoveLastToRootValues(s);
    s[0 := s[|s| - 1]][..|s| - 1]
  }

  lemma MoveLastToRootValues(s: seq<int>)
    requires |s| > 0
    ensures multiset(s[0 := s[|s| - 1]][..|s| - 1]) == multiset(s) - multiset{s[0]}
  {
    var r := s[0 := s[|s| - 1]][..|s| - 1];
    if |s| > 1 {
      assert s == [s[0]] + s[1..|s| - 1] + [s[|s| - 1]];
      assert r == [s[|s| - 1]] + s[1..|s| - 1];
    }
  }

  /** The heap `poll` leaves behind: the root replaced by the last value, the
      tail deleted, then sift-down from the root. */
  function PollRest(s: seq<int>): (r: seq<int>)
    requires |s| > 0
    ensures |r| == |s| - 1 && multiset(r) == multiset(s) - multiset{s[0]}
  {
    HeapifyDownPermutes(MoveLastToRoot(s), 0);
    HeapifyDown(MoveLastToRoot(s), 0)
  }

  /** `poll` returns the least value and leaves a min-heap of the rest. */
  lemma PollKeepsHeap(s: seq<int>)
    requires IsMinHeap(s) && |s| > 0
    ensures AtMostAll(s[0], s)
    ensures IsMinHeap(PollRest(s))
  {
    HeapRootIsMin(s);
    var t := MoveLastToRoot(s);
    forall k | 0 < k < |t| && 0 <= ParentIndex(k) && ParentIndex(k) != 0
      ensures t[ParentIndex(k)] <= t[k]
    {
      ParentInvertsChildren(0, k);
    }
    HeapifyDownRestores(t, 0, 0);
    var r := PollRest(s);
    forall k | 0 < k < |r| ensures r[ParentIndex(k)] <= r[k] {
      ParentInvertsChildren(0, k);
    }
  }

  /** The values returned by polling until the heap is empty, in order. */
  function Drain(s: seq<int>): (r: seq<int>)
    ensures |r| == |s|
    decreases |s|
  {
    if |s| == 0 then [] else [s[0]] + Drain(PollRest(s))
  }

  /** Polling until empty returns every value exactly once. */
  lemma {:induction false} DrainPermutes(s: seq<int>)
    ensures multiset(Drain(s)) == multiset(s)
    decreases |s|
  {
    if |s| > 0 {
      var rest := PollRest(s);
      DrainPermutes(rest);
      assert Drain(s) == [s[0]] + Drain(rest);
      assert multiset(Drain(s)) == multiset{s[0]} + multiset(Drain(rest));
      assert multiset(rest) == multiset(s) - multiset{s[0]};
      assert s[0] in multiset(s);
    }
  }

  /** Draining a min-heap yields its values in non-decreasing order. */
  lemma {:induction false} DrainIsSorted(s: seq<int>)
    requires IsMinHeap(s)
    ensures Sorted(Drain(s))
    decreases |s|
  {
    if |s| > 0 {
      PollKeepsHeap(s);
      var rest := PollRest(s);
      DrainIsSorted(rest);
      var d := Drain(rest);
      DrainPermutes(rest);
      forall x | x in d ensures s[0] <= x {
        assert x in multiset(d);
        assert multiset(d) == multiset(s) - multiset{s[0]};
        assert x in multiset(s);
        assert x in s;
      }
      SortedCons(s[0], d);
    }
  }

  lemma SortedCons(a: int, t: seq<int>)
    requires Sorted(t) && AtMostAll(a, t)
    ensures Sorted([a] + t)
  {
    forall i, j | 0 <= i < j < |t| + 1 ensures ([a] + t)[i] <= ([a] + t)[j] {
      assert t[j - 1] in t;
    }
  }

  /** The loop `for idx in range(k, -1, -1): heapify_down(idx)`. */
  function Heapified(s: seq<int>, k: int): (r: seq<int>)
    ensures |r| == |s|
    decreases if k < 0 then 0 else k + 1
  {
    if k < 0 then s else Heapified(HeapifyDown(s, k), k - 1)
  }

  /** The bottom-up loop only permutes the values. */
  lemma {:induction false} HeapifiedPermutes(s: seq<int>, k: int)
    ensures multiset(Heapified(s, k)) == multiset(s)
    decreases if k < 0 then 0 else k + 1
  {
    if k >= 0 {
      HeapifyDownPermutes(s, k);
      HeapifiedPermutes(HeapifyDown(s, k), k - 1);
    }
  }

  /** Sifting down every index from `k` to 0 turns a list already ordered
      from `k + 1` on into a min-heap. */
  lemma {:induction false} HeapifiedIsHeap(s: seq<int>, k: int)
    requires -1 <= k && OrderedFrom(s, k + 1, -1)
    ensures IsMinHeap(Heapified(s, k))
    decreases k + 1
  {
    if k < 0 {
      forall c | 0 < c < |s| ensures s[ParentIndex(c)] <= s[c] {
        ParentInvertsChildren(0, c);
      }
    } else {
      assert OrderedFrom(s, k, k);
      HeapifyDownRestores(s, k, k);
      HeapifiedIsHeap(HeapifyDown(s, k), k - 1);
    }
  }

  /** The bottom-up loop from `len // 2` produces a min-heap of the same values. */
  lemma BottomUpIsHeap(s: seq<int>)
    ensures IsMinHeap(Heapified(s, |s| / 2))
  {
    forall c | 0 < c < |s| ensures ParentIndex(c) < |s| / 2 + 1 {
      ParentInvertsChildren(0, c);
    }
    HeapifiedIsHeap(s, |s| / 2);
  }
}
