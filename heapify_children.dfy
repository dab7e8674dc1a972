/**
  `heapify_children` of implementing-heap-in-python/minheap-6.py, as a
  function on the list's value: it orders each pair of siblings (left <= right)
  top-down, which is neither a sort nor heap-preserving.
 */
module SiblingOrder {
  import opened HeapIndex
  import opened HeapOrder

  /** One call of `heapify_children(index)` and everything it recurses into:
      stop at a node lacking either child; otherwise swap the two children when
      the right one is strictly smaller, then recurse into the left child and
      then into the right child. */
  function HeapifyChildren(s: seq<int>, index: int): (r: seq<int>)
    requires 0 <= index
    ensures |r| == |s|
    decreases |s| - index
  {
    if !HasLeftChild(s, index) then s
    else if !HasRightChild(s, index) then s
    else
      var t := OrderChildren(s, index);
      HeapifyChildren(HeapifyChildren(t, LeftChildIndex(index)), RightChildIndex(index))
  }

  /** The swap of the two children of `index` when the right one is smaller. */
  function OrderChildren(s: seq<int>, index: int): (r: seq<int>)
    requires 0 <= index
  {
    if RightChild(s, index) < LeftChild(s, index)
    then Swapped(s, RightChildIndex(index), LeftChildIndex(index))
    else s
  }

  /** `heapify_children` only permutes the values. */
  lemma {:induction false} HeapifyChildrenPermutes(s: seq<int>, index: int)
    requires 0 <= index
    ensures multiset(HeapifyChildren(s, index)) == multiset(s)
    decreases |s| - index
  {
    if HasLeftChild(s, index) && HasRightChild(s, index) {
      var t := OrderChildren(s, index);
      SwappedPermutes(s, RightChildIndex(index), LeftChildIndex(index));
      HeapifyChildrenPermutes(t, LeftChildIndex(index));
      HeapifyChildrenPermutes(HeapifyChildren(t, LeftChildIndex(index)), RightChildIndex(index));
    }
  }

  /** Every node of the subtree at `root` with two children has left <= right. */
  ghost predicate SiblingsOrdered(s: seq<int>, root: int)
  {
    forall i :: InSubtree(i, root) && 0 <= i && RightChildIndex(i) < |s| ==>
      s[LeftChildIndex(i)] <= s[RightChildIndex(i)]
  }

  /** `heapify_children(index)` only moves values strictly below `index`. */
  lemma {:induction false} HeapifyChildrenStaysBelow(s: seq<int>, index: int)
    requires 0 <= index
    ensures forall k :: 0 <= k < |s| && !InSubtree(k, LeftChildIndex(index)) &&
                        !InSubtree(k, RightChildIndex(index)) ==>
              HeapifyChildren(s, index)[k] == s[k]
    decreases |s| - index
  {
    if HasLeftChild(s, index) && HasRightChild(s, index) {
      var l, r := LeftChildIndex(index), RightChildIndex(index);
      var t := OrderChildren(s, index);
      var u := HeapifyChildren(t, l);
      HeapifyChildrenStaysBelow(t, l);
      HeapifyChildrenStaysBelow(u, r);
      ChildrenInSubtree(l);
      ChildrenInSubtree(r);
      forall k | 0 <= k < |s| && !InSubtree(k, l) && !InSubtree(k, r)
        ensures HeapifyChildren(s, index)[k] == s[k]
      {
        assert k != l && k != r;
        if InSubtree(k, LeftChildIndex(l)) {
          SubtreeTransitive(k, LeftChildIndex(l), l);
        }
        if InSubtree(k, RightChildIndex(l)) {
          SubtreeTransitive(k, RightChildIndex(l), l);
        }
        if InSubtree(k, LeftChildIndex(r)) {
          SubtreeTransitive(k, LeftChildIndex(r), r);
        }
        if InSubtree(k, RightChildIndex(r)) {
          SubtreeTransitive(k, RightChildIndex(r), r);
        }
      }
    }
  }

  /** After `heapify_children(index)` every node of `index`'s subtree that has
      two children holds them in order left <= right. */
  lemma {:induction false} HeapifyChildrenOrdersSiblings(s: seq<int>, index: int)
    requires 0 <= index
    ensures SiblingsOrdered(HeapifyChildren(s, index), index)
    decreases |s| - index
  {
    var res := HeapifyChildren(s, index);
    if !HasLeftChild(s, index) || !HasRightChild(s, index) {
      forall i | InSubtree(i, index) ensures RightChildIndex(i) >= |res| {
        SubtreeIsAfter(i, index);
      }
    } else {
      var l, r := LeftChildIndex(index), RightChildIndex(index);
      var t := OrderChildren(s, index);
      var u := HeapifyChildren(t, l);
      assert res == HeapifyChildren(u, r);
      HeapifyChildrenOrdersSiblings(t, l);
      HeapifyChildrenOrdersSiblings(u, r);
      HeapifyChildrenStaysBelow(t, l);
      HeapifyChildrenStaysBelow(u, r);
      ChildrenInSubtree(index);
      ChildrenInSubtree(l);
      ChildrenInSubtree(r);
      forall i | InSubtree(i, index) && 0 <= i && RightChildIndex(i) < |res|
        ensures res[LeftChildIndex(i)] <= res[RightChildIndex(i)]
      {
        ChildrenInSubtree(i);
        if i == index {
          SiblingSubtreesDisjoint(l, index);
          SiblingSubtreesDisjoint(r, index);
          assert !InSubtree(l, LeftChildIndex(l)) && !InSubtree(l, RightChildIndex(l));
          assert !InSubtree(r, LeftChildIndex(l)) && !InSubtree(r, RightChildIndex(l)) by {
            if InSubtree(r, LeftChildIndex(l)) { SubtreeTransitive(r, LeftChildIndex(l), l); }
            if InSubtree(r, RightChildIndex(l)) { SubtreeTransitive(r, RightChildIndex(l), l); }
          }
          assert !InSubtree(l, LeftChildIndex(r)) && !InSubtree(l, RightChildIndex(r)) by {
            if InSubtree(l, LeftChildIndex(r)) { SubtreeTransitive(l, LeftChildIndex(r), r); }
            if InSubtree(l, RightChildIndex(r)) { SubtreeTransitive(l, RightChildIndex(r), r); }
          }
          assert !InSubtree(r, LeftChildIndex(r)) && !InSubtree(r, RightChildIndex(r));
        } else {
          SubtreeSplits(i, index);
          if InSubtree(i, l) {
            // i's children stay in l's subtree, which the call on r leaves alone
            SubtreeTransitive(LeftChildIndex(i), i, l);
            SubtreeTransitive(RightChildIndex(i), i, l);
            NotInRightSubtree(LeftChildIndex(i), index);
            NotInRightSubtree(RightChildIndex(i), index);
          }
        }
      }
    }
  }

  /** A member of a left child's subtree is in no subtree below its sibling. */
  lemma NotInRightSubtree(k: int, index: int)
    requires 0 <= index && InSubtree(k, LeftChildIndex(index))
    ensures !InSubtree(k, LeftChildIndex(RightChildIndex(index)))
    ensures !InSubtree(k, RightChildIndex(RightChildIndex(index)))
  {
    var r := RightChildIndex(index);
    ChildrenInSubtree(r);
    SiblingSubtreesDisjoint(k, index);
    if InSubtree(k, LeftChildIndex(r)) { SubtreeTransitive(k, LeftChildIndex(r), r); }
    if InSubtree(k, RightChildIndex(r)) { SubtreeTransitive(k, RightChildIndex(r), r); }
  }
}
