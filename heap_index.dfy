/**
  Index arithmetic and existence checks of the array-encoded binary heap
  (implementing-heap-in-python/minheap-1.py). The heap's list is passed as
  `s`; all of these only read it.
 */
module HeapIndex {
  import opened Wrappers

  /** `sys.maxsize` on a 64-bit interpreter; `-SysMaxSize` is the "virtual -inf". */
  const SysMaxSize: int := 0x7FFF_FFFF_FFFF_FFFF

  function LeftChildIndex(parent: int): (child: int) { 2 * parent + 1 }

  function RightChildIndex(parent: int): (child: int) { 2 * parent + 2 }

  /** Python's `(i - 1) // 2` floors; with the positive divisor 2 this is
      Dafny's Euclidean division, so the root's "parent" is -1. */
  function ParentIndex(child: int): (parent: int) { (child - 1) / 2 }

  predicate HasLeftChild(s: seq<int>, parent: int) { LeftChildIndex(parent) < |s| }

  predicate HasRightChild(s: seq<int>, parent: int) { RightChildIndex(parent) < |s| }

  predicate HasParent(index: int) { ParentIndex(index) >= 0 }

  /** The stored left child, or the virtual -inf when there is none. */
  function LeftChild(s: seq<int>, index: int): (v: int)
    requires 0 <= index
  {
    if !HasLeftChild(s, index) then -SysMaxSize else s[LeftChildIndex(index)]
  }

  /** The stored right child, or the virtual -inf when there is none. */
  function RightChild(s: seq<int>, index: int): (v: int)
    requires 0 <= index
  {
    if !HasRightChild(s, index) then -SysMaxSize else s[RightChildIndex(index)]
  }

  /** The stored parent, `None` at the root. */
  function Parent(s: seq<int>, index: int): (v: Option<int>)
    requires 0 <= index && ParentIndex(index) < |s|
  {
    if !HasParent(index) then None else Some(s[ParentIndex(index)])
  }

  /** Both children of `i` name `i` as their parent, and every non-root index
      is the left or the right child of its parent, which lies before it. */
  lemma ParentInvertsChildren(i: int, c: int)
    requires 0 <= i && 1 <= c
    ensures ParentIndex(LeftChildIndex(i)) == i && ParentIndex(RightChildIndex(i)) == i
    ensures RightChildIndex(i) == LeftChildIndex(i) + 1
    ensures 0 <= ParentIndex(c) < c
    ensures c == LeftChildIndex(ParentIndex(c)) || c == RightChildIndex(ParentIndex(c))
  {
  }

  /** For a non-negative index, "has a parent" means "is not the root". */
  lemma HasParentIffNotRoot(index: int)
    requires 0 <= index
    ensures HasParent(index) <==> index >= 1
    ensures index == 0 ==> ParentIndex(index) == -1
  {
  }

  /** `j` lies in the subtree rooted at `i`: it is `i` or its parent chain reaches `i`. */
  predicate InSubtree(j: int, i: int)
    decreases if j < 0 then 0 else j
  {
    j == i || (j > i && j > 0 && InSubtree(ParentIndex(j), i))
  }

  lemma {:induction false} SubtreeIsAfter(j: int, i: int)
    requires InSubtree(j, i)
    ensures j >= i
    decreases if j < 0 then 0 else j
  {
  }

  lemma ChildrenInSubtree(i: int)
    requires 0 <= i
    ensures InSubtree(LeftChildIndex(i), i) && InSubtree(RightChildIndex(i), i)
  {
    assert InSubtree(i, i);
    ParentInvertsChildren(i, 1);
  }

  lemma {:induction false} SubtreeTransitive(j: int, k: int, i: int)
    requires InSubtree(j, k) && InSubtree(k, i)
    ensures InSubtree(j, i)
    decreases if j < 0 then 0 else j
  {
    if j != k {
      SubtreeTransitive(ParentIndex(j), k, i);
      SubtreeIsAfter(k, i);
    }
  }

  /** The subtrees of two siblings share no index. */
  lemma {:induction false} SiblingSubtreesDisjoint(j: int, i: int)
    requires 0 <= i
    ensures !(InSubtree(j, LeftChildIndex(i)) && InSubtree(j, RightChildIndex(i)))
    decreases if j < 0 then 0 else j
  {
    if InSubtree(j, LeftChildIndex(i)) && InSubtree(j, RightChildIndex(i)) {
      if j == LeftChildIndex(i) {
        SubtreeIsAfter(j, RightChildIndex(i));
      } else if j == RightChildIndex(i) {
        ParentInvertsChildren(i, 1);
        SiblingSubtreesDisjoint(ParentIndex(j), i);
        SubtreeIsAfter(ParentIndex(j), LeftChildIndex(i));
      } else {
        SiblingSubtreesDisjoint(ParentIndex(j), i);
      }
    }
  }

  /** Below its root, a subtree is the union of its two child subtrees. */
  lemma {:induction false} SubtreeSplits(j: int, i: int)
    requires 0 <= i && InSubtree(j, i) && j != i
    ensures InSubtree(j, LeftChildIndex(i)) || InSubtree(j, RightChildIndex(i))
    decreases if j < 0 then 0 else j
  {
    ParentInvertsChildren(i, j);
    if ParentIndex(j) != i {
      SubtreeSplits(ParentIndex(j), i);
      if InSubtree(ParentIndex(j), LeftChildIndex(i)) {
        SubtreeIsAfter(ParentIndex(j), LeftChildIndex(i));
      } else {
        SubtreeIsAfter(ParentIndex(j), RightChildIndex(i));
      }
    }
  }

  /** Every index belongs to the subtree of the root. */
  lemma {:induction false} InRootSubtree(j: int)
    requires 0 <= j
    ensures InSubtree(j, 0)
    decreases j
  {
    if j > 0 {
      ParentInvertsChildren(0, j);
      InRootSubtree(ParentIndex(j));
    }
  }
}
