/**
  Sift-up (`__heapify_up`) and insertion (`add`) of
  implementing-heap-in-python/minheap-2.py, as functions on the list's value.
 */
module SiftUp {
  import opened Wrappers
  import opened HeapIndex
  import opened HeapOrder

  /** Python truthiness of `__parent(child)`: `None` and `0` are falsy. */
  predicate Truthy(v: Option<int>) { v.Some? && v.value != 0 }

  /** `if not child: child = len(nodes) - 1` -- both `None` and index 0 mean
      "start from the last slot"; `None` is passed as 0 here. */
  function StartIndex(s: seq<int>, child: int): (start: int) { if child == 0 then |s| - 1 else child }

  /** The values below the root; it shrinks whenever a swap reaches the root. */
  ghost function BelowRoot(s: seq<int>): (below: set<int>)
    requires |s| > 0
  {
    set x | x in s && x < s[0]
  }

  /** One call of `__heapify_up(child)` and everything it recurses into. After a
      swap into the root the recursive call gets child 0 and so restarts from the
      last slot; each such swap lowers the root, which bounds the restarts. */
  function HeapifyUp(s: seq<int>, child: int): (r: seq<int>)
    requires 0 <= child < |s|
    ensures |r| == |s|
    decreases BelowRoot(s), StartIndex(s, child)
  {
    var c := StartIndex(s, child);
    var p := ParentIndex(c);
    if Truthy(Parent(s, c)) && s[c] < s[p] then
      SwapUpShrinks(s, c);
      HeapifyUp(Swapped(s, c, p), p)
    else
      s
  }

  /** Sift-up only permutes the values. */
  lemma {:induction false} HeapifyUpPermutes(s: seq<int>, child: int)
    requires 0 <= child < |s|
    ensures multiset(HeapifyUp(s, child)) == multiset(s)
    decreases BelowRoot(s), StartIndex(s, child)
  {
    var c := StartIndex(s, child);
    var p := ParentIndex(c);
    if Truthy(Parent(s, c)) && s[c] < s[p] {
      SwapUpShrinks(s, c);
      SwappedPermutes(s, c, p);
      HeapifyUpPermutes(Swapped(s, c, p), p);
    }
  }

  /** `add(item)`: append, then sift up from the last slot. */
  function Add(s: seq<int>, item: int): (r: seq<int>)
  {
    HeapifyUp(s + [item], 0)
  }

  /** `MinHeap(values)`: an empty list followed by `add` of each value in order. */
  function BuildByAdds(values: seq<int>): (r: seq<int>)
    decreases |values|
  {
    if values == [] then [] else Add(BuildByAdds(values[..|values| - 1]), values[|values| - 1])
  }

  /** A sufficient condition for sift-up's truthiness test to act like a
      plain comparison when `item` is added: the item is non-negative, so it
      never needs to move above a 0, or the heap holds no 0 at all. */
  ghost predicate ZeroSafe(s: seq<int>, item: int)
  {
    item >= 0 || 0 !in s
  }

  /** A whole input that is zero-safe at every `add`. */
  ghost predicate ZeroSafeValues(values: seq<int>)
  {
    (forall x :: x in values ==> x >= 0) || 0 !in values
  }

  /** A swap of a child with its strictly larger parent keeps the values;
      it lowers the root when the parent is the root and keeps it otherwise. */
  lemma SwapUpShrinks(s: seq<int>, c: int)
    requires 0 < c < |s| && s[c] < s[ParentIndex(c)]
    ensures ParentIndex(c) == 0 ==> BelowRoot(Swapped(s, c, ParentIndex(c))) < BelowRoot(s)
    ensures ParentIndex(c) > 0 ==> BelowRoot(Swapped(s, c, ParentIndex(c))) == BelowRoot(s)
  {
    var p := ParentIndex(c);
    ParentInvertsChildren(0, c);
    var u := Swapped(s, c, p);
    SwappedPermutes(s, c, p);
    SameValues(s, u);
    if p == 0 {
      assert s[c] in BelowRoot(s) && s[c] !in BelowRoot(u);
    }
  }

  /** The heap property holds except between `c` and its parent, and the
      parent of `c` is no larger than `c`'s children. */
  ghost predicate HeapBut(t: seq<int>, c: int)
    requires 0 <= c < |t|
  {
    (forall k :: 0 < k < |t| && k != c ==> t[ParentIndex(k)] <= t[k]) &&
    (0 < c ==> forall k :: 0 < k < |t| && ParentIndex(k) == c ==> t[ParentIndex(c)] <= t[k])
  }

  /** One swap of sift-up moves the exception one level towards the root. */
  lemma SwapUpStep(t: seq<int>, c: int)
    requires 0 < c < |t| && HeapBut(t, c) && t[c] < t[ParentIndex(c)]
    ensures Swapped(t, c, ParentIndex(c))[ParentIndex(c)] == t[c]
    ensures ParentIndex(c) == 0 ==> IsMinHeap(Swapped(t, c, ParentIndex(c)))
    ensures ParentIndex(c) > 0 ==> HeapBut(Swapped(t, c, ParentIndex(c)), ParentIndex(c))
  {
    var p := ParentIndex(c);
    ParentInvertsChildren(0, c);
    var u := Swapped(t, c, p);
    forall k | 0 < k < |u| && k != p ensures u[ParentIndex(k)] <= u[k] {
      ParentInvertsChildren(0, k);
      if k == c {
      } else if ParentIndex(k) == c {
        assert u[c] == t[p] && u[k] == t[k];
      } else if ParentIndex(k) == p {
        assert t[p] <= t[k];
      } else {
        assert u[ParentIndex(k)] == t[ParentIndex(k)];
      }
    }
    if p > 0 {
      ParentInvertsChildren(0, p);
      forall k | 0 < k < |u| && ParentIndex(k) == p ensures u[ParentIndex(p)] <= u[k] {
        assert t[ParentIndex(p)] <= t[p];
        if k != c {
          assert t[p] <= t[k];
        }
      }
    }
  }

  lemma {:induction false} HeapifyUpRestoresHeap(t: seq<int>, child: int, s: seq<int>, item: int)
    requires 0 <= child < |t|
    requires multiset(t) == multiset(s) + multiset{item}
    requires ZeroSafe(s, item)
    requires IsMinHeap(t) ||
             (t[StartIndex(t, child)] == item && HeapBut(t, StartIndex(t, child)))
    ensures IsMinHeap(HeapifyUp(t, child))
    decreases BelowRoot(t), StartIndex(t, child)
  {
    var c := StartIndex(t, child);
    var p := ParentIndex(c);
    if Truthy(Parent(t, c)) && t[c] < t[p] {
      assert !IsMinHeap(t);
      SwapUpShrinks(t, c);
      SwapUpStep(t, c);
      SwappedPermutes(t, c, p);
      HeapifyUpRestoresHeap(Swapped(t, c, p), p, s, item);
    } else {
      assert HeapifyUp(t, child) == t;
      if c > 0 && t[c] == item && HeapBut(t, c) {
        // the only pair left to check is (p, c); the guard fails there either
        // because t[p] <= t[c] or because t[p] is 0, which ZeroSafe confines
        // to a non-negative item
        ParentInvertsChildren(0, c);
        assert Parent(t, c) == Some(t[p]);
        if t[p] == 0 {
          assert t[p] in multiset(t);
          assert item >= 0;
        }
        assert t[p] <= t[c];
      }
    }
  }

  /** On a min-heap, when the item is non-negative or the heap holds no 0,
      `add` keeps every value, keeps the heap property and makes the root the
      smaller of the old root and the item. */
  lemma AddKeepsHeap(s: seq<int>, item: int)
    requires IsMinHeap(s) && ZeroSafe(s, item)
    ensures IsMinHeap(Add(s, item))
    ensures |Add(s, item)| == |s| + 1 && multiset(Add(s, item)) == multiset(s) + multiset{item}
    ensures Add(s, item)[0] == if s == [] then item else if item < s[0] then item else s[0]
  {
    var t := s + [item];
    assert multiset(t) == multiset(s) + multiset{item};
    assert HeapBut(t, |t| - 1) by {
      forall k | 0 < k < |t| - 1 ensures t[ParentIndex(k)] <= t[k] {
        ParentInvertsChildren(0, k);
      }
    }
    HeapifyUpRestoresHeap(t, 0, s, item);
    HeapifyUpPermutes(t, 0);
    var r := Add(s, item);
    SameValues(r, t);
    HeapRootIsMin(r);
    assert item == t[|t| - 1];
    assert item in r && r[0] in t;
    assert r[0] <= item;
    if s != [] {
      HeapRootIsMin(s);
      assert s[0] in r;
      assert r[0] == item || r[0] in s;
    }
  }

  /** Building by repeated `add` keeps every value and, for a zero-safe input,
      yields a min-heap. */
  lemma {:induction false} BuildByAddsIsHeap(values: seq<int>)
    ensures |BuildByAdds(values)| == |values|
    ensures multiset(BuildByAdds(values)) == multiset(values)
    ensures ZeroSafeValues(values) ==> IsMinHeap(BuildByAdds(values))
    decreases |values|
  {
    if values != [] {
      var init, last := values[..|values| - 1], values[|values| - 1];
      assert values == init + [last];
      BuildByAddsIsHeap(init);
      assert forall x :: x in init ==> x in values;
      AddStep(BuildByAdds(init), init, last);
    }
  }

  lemma AddStep(h: seq<int>, init: seq<int>, last: int)
    requires |h| == |init| && multiset(h) == multiset(init)
    requires ZeroSafeValues(init + [last]) ==> IsMinHeap(h)
    ensures |Add(h, last)| == |init + [last]|
    ensures multiset(Add(h, last)) == multiset(init + [last])
    ensures ZeroSafeValues(init + [last]) ==> IsMinHeap(Add(h, last))
  {
    assert multiset(h + [last]) == multiset(h) + multiset{last};
    HeapifyUpPermutes(h + [last], 0);
    if ZeroSafeValues(init + [last]) {
      assert forall x :: x in init ==> x in init + [last];
      assert last in init + [last];
      SameValues(h, init);
      AddKeepsHeap(h, last);
    }
  }

  /** The truthiness test in action: a zero parent never swaps, so adding -1
      to the heap [0] leaves [0, -1], which is not a min-heap. */
  lemma ZeroParentBlocksSiftUp()
    ensures Add([0], -1) == [0, -1]
    ensures IsMinHeap([0]) && !IsMinHeap(Add([0], -1))
  {
    assert [0] + [-1] == [0, -1];
    assert ParentIndex(1) == 0;
  }
}
