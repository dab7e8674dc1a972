/**
  The orderings the heap code is judged by: the min-heap property of the
  level-order array, sortedness, and the index swap every heap operation
  is built from (`__swap`, implementing-heap-in-python/minheap-2.py).
 */
module HeapOrder {
  import opened HeapIndex

  /** Every stored value is at least its parent: `nodes[i] <= nodes[child]`. */
  ghost predicate IsMinHeap(s: seq<int>)
  {
    forall c :: 0 < c < |s| ==> s[ParentIndex(c)] <= s[c]
  }

  /** The heap property for the parents in `lo..`, except at parent `skip`. */
  ghost predicate OrderedFrom(s: seq<int>, lo: int, skip: int)
  {
    forall c :: 0 < c < |s| && lo <= ParentIndex(c) && ParentIndex(c) != skip ==> s[ParentIndex(c)] <= s[c]
  }

  /** `v` is no larger than any value of `s`. */
  ghost predicate AtMostAll(v: int, s: seq<int>)
  {
    forall x :: x in s ==> v <= x
  }

  ghost predicate Sorted(s: seq<int>)
  {
    forall i, j :: 0 <= i < j < |s| ==> s[i] <= s[j]
  }

  /** `__swap(first, second)`: exchanges the two entries when both indices are
      below the length; otherwise only a message is printed and nothing changes. */
  function Swapped(s: seq<int>, first: int, second: int): (r: seq<int>)
    requires 0 <= first && 0 <= second
    ensures |r| == |s|
    ensures first < |s| && second < |s| ==>
              r[first] == s[second] && r[second] == s[first] &&
              forall k :: 0 <= k < |s| && k != first && k != second ==> r[k] == s[k]
    ensures first >= |s| || second >= |s| ==> r == s
  {
    if first >= |s| || second >= |s| then s
    else s[first := s[second]][second := s[first]]
  }

  /** A swap only permutes the values. */
  lemma SwappedPermutes(s: seq<int>, first: int, second: int)
    requires 0 <= first && 0 <= second
    ensures multiset(Swapped(s, first, second)) == multiset(s)
  {
  }

  /** Sequences with the same multiset hold the same values. */
  lemma SameValues(s: seq<int>, t: seq<int>)
    requires multiset(s) == multiset(t)
    ensures forall x :: x in s <==> x in t
  {
    forall x ensures x in s <==> x in t {
      assert x in s <==> x in multiset(s);
      assert x in t <==> x in multiset(t);
    }
  }

  lemma {:induction false} HeapRootIsMinAt(s: seq<int>, i: int)
    requires IsMinHeap(s) && 0 <= i < |s|
    ensures s[0] <= s[i]
    decreases i
  {
    if i > 0 {
      ParentInvertsChildren(0, i);
      HeapRootIsMinAt(s, ParentIndex(i));
    }
  }

  /** The root of a min-heap is its least value. */
  lemma HeapRootIsMin(s: seq<int>)
    requires |s| > 0
    ensures IsMinHeap(s) ==> AtMostAll(s[0], s)
  {
    if IsMinHeap(s) {
      forall i | 0 <= i < |s| ensures s[0] <= s[i] {
        HeapRootIsMinAt(s, i);
      }
    }
  }
}
