/**
  The sentinel-headed singly linked list of
  implementing-linked-lists-in-python/part6.py (with its earlier listings
  part4.py and part2.py). The chain is described by the ghost sequence
  `Spine` of its nodes, the sentinel `Head` first, and the ghost sequence
  `Contents` of the payloads of the real nodes after it.
 */
module LinkedLists {
  import opened Wrappers

  /** `SLLNode`: a payload and the link to the next node. */
  class Node<T> {
    var data: T
    var next: Node?<T>

    constructor (data: T, next: Node?<T>)
      ensures this.data == data && this.next == next
    {
      this.data := data;
      this.next := next;
    }
  }

  /** The first position of `x` in `s`. */
  function IndexOf<T(==)>(s: seq<T>, x: T): (k: nat)
    requires x in s
    ensures k < |s| && s[k] == x && x !in s[..k]
  {
    if s[0] == x then 0
    else
      assert x in s[1..];
      1 + IndexOf(s[1..], x)
  }

  /** The intended bound check of `__getitem__`, `__setitem__` and
      `__delitem__`: an index outside 0 .. len - 1 raises `IndexError`. */
  predicate IndexOutOfRange(index: int, length: int)
  {
    index < 0 || index > length - 1
  }

  /** The bound check as written, with `and`: no index is both negative and
      past the end of a list, so it never raises. */
  predicate IndexGuardAsWritten(index: int, length: int): (r: bool)
    ensures length >= 0 ==> !r
  {
    index < 0 && index > length - 1
  }

  /** On a list of three, index -1 is out of range, yet the guard as written
      lets it through. */
  lemma IndexGuardMissesNegative()
    ensures IndexOutOfRange(-1, 3) && !IndexGuardAsWritten(-1, 3)
  {
  }

  /** The sequence in reverse order. */
  function Reversed<T>(s: seq<T>): (r: seq<T>)
    ensures |r| == |s|
    ensures forall i :: 0 <= i < |s| ==> r[i] == s[|s| - 1 - i]
  {
    if s == [] then [] else Reversed(s[1..]) + [s[0]]
  }

  class SinglyLinkedList<T(==)> {
    /** The payload of the sentinel (the string 'HEAD' in the listing). */
    const Marker: T
    /** The sentinel node `HEAD`: created once, never relinked or removed. */
    const Head: Node<T>
    ghost var Spine: seq<Node<T>>
    ghost var Contents: seq<T>
    ghost var Repr: set<object>

    ghost predicate Valid()
      reads this, Repr
    {
      this in Repr && Head in Repr &&
      |Spine| == |Contents| + 1 && Spine[0] == Head && Head.data == Marker &&
      (forall i :: 0 <= i < |Spine| ==> Spine[i] in Repr) &&
      Distinct(Spine) &&
      (forall i :: 0 <= i < |Contents| ==> Spine[i].next == Spine[i + 1]) &&
      (forall i :: 0 <= i < |Contents| ==> Spine[i + 1].data == Contents[i]) &&
      Spine[|Contents|].next == null
    }

    /** The sentinel links to the first real node, if any. */
    lemma HeadLink()
      requires Valid()
      ensures Head.next == null <==> Contents == []
      ensures Contents != [] ==> Head.next == Spine[1]
    {
      if Contents != [] {
        assert Spine[0].next == Spine[1];
      }
    }

    /** The real nodes, in chain order. */
    ghost function Nodes(): (nodes: seq<Node<T>>)
      reads this
      requires |Spine| > 0
    {
      Spine[1..]
    }

    /** The payloads in chain order, sentinel first. */
    ghost function Payloads(): (payloads: seq<T>)
      reads this
    {
      [Marker] + Contents
    }

    /** Each node on the spine carries the matching entry of `Payloads()`. */
    lemma SpinePayloads()
      requires Valid()
      ensures forall i :: 0 <= i < |Spine| ==> Spine[i].data == Payloads()[i]
    {
      forall i | 0 <= i < |Spine| ensures Spine[i].data == Payloads()[i] {
        if i > 0 {
          assert Spine[(i - 1) + 1].data == Contents[i - 1];
        }
      }
    }

    /** `__init__(nodes)`: a lone sentinel, then `append` of each given
        node's payload in order (`None` behaves as an empty list). */
    constructor (marker: T, nodes: seq<Node<T>>)
      ensures Valid() && fresh(Repr)
      ensures Marker == marker && Head.data == marker
      ensures |Contents| == |nodes| && forall j :: 0 <= j < |nodes| ==> Contents[j] == nodes[j].data
    {
      Marker := marker;
      Head := new Node(marker, null);
      Spine := [];
      Contents := [];
      new;
      Spine := [Head];
      Repr := {this, Head};
      for i := 0 to |nodes|
        invariant Valid() && fresh(Repr)
        invariant |Contents| == i && forall j :: 0 <= j < i ==> Contents[j] == nodes[j].data
      {
        var _ := Append(nodes[i].data);
      }
    }

    /** `__iter__`: the nodes reached from the sentinel along `next`, the
        sentinel first, until `next` is `None`. */
    method Iterate() returns (yielded: seq<Node<T>>)
      requires Valid()
      ensures yielded == Spine
      ensures |yielded| == |Contents| + 1
    {
      yielded := [];
      var node: Node?<T> := Head;
      ghost var k := 0;
      while node != null
        invariant 0 <= k <= |Spine|
        invariant yielded == Spine[..k]
        invariant node == if k < |Spine| then Spine[k] else null
        decreases |Spine| - k
      {
        yielded := yielded + [node];
        node := node.next;
        k := k + 1;
      }
      assert Spine[..k] == Spine;
    }

    /** `__len__`: the number of nodes iterated, less the sentinel. */
    method Length() returns (n: int)
      requires Valid()
      ensures n == |Contents|
    {
      var nodes := Iterate();
      n := |nodes| - 1;
    }

    /** `__contains__`: a scan from the sentinel, which matches the
        sentinel's own marker as well. */
    method Contains(data: T) returns (r: bool)
      requires Valid()
      ensures r <==> data in Payloads()
      ensures r <==> data == Marker || data in Contents
    {
      SpinePayloads();
      var node: Node?<T> := Head;
      ghost var k := 0;
      while node != null
        invariant 0 <= k <= |Spine|
        invariant node == if k < |Spine| then Spine[k] else null
        invariant forall j :: 0 <= j < k ==> Payloads()[j] != data
        decreases |Spine| - k
      {
        if node.data == data {
          assert Payloads()[k] == data;
          return true;
        }
        node := node.next;
        k := k + 1;
      }
      return false;
    }

    /** `find`: `None` on an empty list; otherwise the first node, sentinel
        included, whose payload equals `data`, or `None` when there is none. */
    method Find(data: T) returns (r: Node?<T>)
      requires Valid()
      ensures Contents == [] ==> r == null
      ensures Contents != [] && data in Payloads() ==> r == Spine[IndexOf(Payloads(), data)]
      ensures data !in Payloads() ==> r == null
      ensures r != null ==> r.data == data
    {
      HeadLink();
      if Head.next == null {
        return null;
      }
      SpinePayloads();
      var node: Node?<T> := Head;
      ghost var k := 0;
      while node != null
        invariant 0 <= k <= |Spine|
        invariant node == if k < |Spine| then Spine[k] else null
        invariant forall j :: 0 <= j < k ==> Payloads()[j] != data
        decreases |Spine| - k
      {
        if node.data == data {
          FirstMatch(Payloads(), data, k);
          return node;
        }
        node := node.next;
        k := k + 1;
      }
      return null;
    }

    /** `__getitem__(index)` with the intended bound check: the node at
        `index`, counting real nodes from 0. */
    method GetItem(index: int) returns (r: Outcome<Node<T>>)
      requires Valid()
      ensures r.Raised? <==> IndexOutOfRange(index, |Contents|)
      ensures r.Raised? ==> r.error == IndexError
      ensures r.Returned? ==> r.value == Nodes()[index] && r.value.data == Contents[index]
    {
      var length := Length();
      if IndexOutOfRange(index, length) {
        return Raised(IndexError);
      }
      var node := Head;
      for i := 0 to index
        invariant node == Spine[i]
      {
        node := node.next;
      }
      var found := node.next;
      assert found == Spine[index + 1];
      return Returned(found);
    }

    /** `__setitem__(index, data)` with the intended bound check: overwrite
        the payload at `index` only; the list itself is returned. */
    method SetItem(index: int, data: T) returns (r: Outcome<SinglyLinkedList<T>>)
      requires Valid()
      modifies Repr
      ensures Valid() && Spine == old(Spine) && Repr == old(Repr)
      ensures r.Raised? <==> IndexOutOfRange(index, |old(Contents)|)
      ensures r.Raised? ==> r == Raised(IndexError) && Contents == old(Contents)
      ensures r.Returned? ==> r.value == this && Contents == old(Contents)[index := data]
    {
      var length := Length();
      if IndexOutOfRange(index, length) {
        return Raised(IndexError);
      }
      var node := Head;
      for i := 0 to index + 1
        invariant node == Spine[i]
      {
        node := node.next;
      }
      node.data := data;
      Contents := Contents[index := data];
      return Returned(this);
    }

    /** `__delitem__(index)` with the intended bound check: unlink the node
        at `index` only. */
    method DeleteItem(index: int) returns (r: Outcome<()>)
      requires Valid()
      modifies Repr
      ensures Valid() && Repr <= old(Repr)
      ensures r.Raised? <==> IndexOutOfRange(index, |old(Contents)|)
      ensures r.Raised? ==>
                r == Raised(IndexError) && Contents == old(Contents) &&
                Spine == old(Spine) && Repr == old(Repr)
      ensures r.Returned? ==>
                Contents == old(Contents)[..index] + old(Contents)[index + 1..] &&
                Spine == old(Spine)[..index + 1] + old(Spine)[index + 2..] &&
                Repr == old(Repr) - {old(Spine)[index + 1]}
    {
      var length := Length();
      if IndexOutOfRange(index, length) {
        return Raised(IndexError);
      }
      var node := Head;
      for i := 0 to index
        invariant node == Spine[i]
      {
        node := node.next;
      }
      Unlink(node, index);
      return Returned(());
    }

    /** Splice out the real node at position `k`, whose predecessor is `node`. */
    method Unlink(node: Node<T>, ghost k: int)
      requires Valid() && 0 <= k < |Contents| && node == Spine[k]
      modifies Repr
      ensures Valid() && Repr == old(Repr) - {old(Spine)[k + 1]}
      ensures Spine == old(Spine)[..k + 1] + old(Spine)[k + 2..]
      ensures Contents == old(Contents)[..k] + old(Contents)[k + 1..]
    {
      var removed := node.next;
      assert removed == Spine[k + 1];
      node.next := removed.next;
      Repr := Repr - {removed};
      DistinctWithout(Spine, k + 1);
      Spine := Spine[..k + 1] + Spine[k + 2..];
      Contents := Contents[..k] + Contents[k + 1..];
    }

    /** `__gt__`: `True` when this list is longer, otherwise `None`. */
    method Gt(other: SinglyLinkedList<T>) returns (r: Option<bool>)
      requires Valid() && other.Valid()
      ensures r != Some(false)
      ensures r == Some(true) <==> |Contents| > |other.Contents|
    {
      var mine := Length();
      var theirs := other.Length();
      if mine > theirs {
        return Some(true);
      }
      return None;
    }

    /** `__lt__`: `True` when this list is shorter, otherwise `None`. */
    method Lt(other: SinglyLinkedList<T>) returns (r: Option<bool>)
      requires Valid() && other.Valid()
      ensures r != Some(false)
      ensures r == Some(true) <==> |Contents| < |other.Contents|
    {
      var mine := Length();
      var theirs := other.Length();
      if mine < theirs {
        return Some(true);
      }
      return None;
    }

    /** `__ge__`: `True` when this list is at least as long, otherwise `None`. */
    method Ge(other: SinglyLinkedList<T>) returns (r: Option<bool>)
      requires Valid() && other.Valid()
      ensures r != Some(false)
      ensures r == Some(true) <==> |Contents| >= |other.Contents|
    {
      var mine := Length();
      var theirs := other.Length();
      if mine >= theirs {
        return Some(true);
      }
      return None;
    }

    /** `__le__`: `True` when this list is at most as long, otherwise `None`. */
    method Le(other: SinglyLinkedList<T>) returns (r: Option<bool>)
      requires Valid() && other.Valid()
      ensures r != Some(false)
      ensures r == Some(true) <==> |Contents| <= |other.Contents|
    {
      var mine := Length();
      var theirs := other.Length();
      if mine <= theirs {
        return Some(true);
      }
      return None;
    }

    /** `__eq__`: `False` when the lengths differ. Otherwise the listing's
        loop looks up `other[node.data]` starting with the sentinel, whose
        payload is the string 'HEAD'; the bound check `'HEAD' < 0` then
        raises `TypeError`, which is the outcome modelled here. */
    method Eq(other: SinglyLinkedList<T>) returns (r: Outcome<bool>)
      requires Valid() && other.Valid()
      ensures |Contents| != |other.Contents| <==> r == Returned(false)
      ensures |Contents| == |other.Contents| <==> r == Raised(TypeError)
    {
      var mine := Length();
      var theirs := other.Length();
      if mine != theirs {
        return Returned(false);
      }
      return Raised(TypeError);
    }

    /** `__ne__`: `not self == other`, so `True` when the lengths differ and
        the same `TypeError` otherwise. */
    method Ne(other: SinglyLinkedList<T>) returns (r: Outcome<bool>)
      requires Valid() && other.Valid()
      ensures |Contents| != |other.Contents| <==> r == Returned(true)
      ensures |Contents| == |other.Contents| <==> r == Raised(TypeError)
    {
      var eq := Eq(other);
      if eq.Raised? {
        return eq;
      }
      return Returned(!eq.value);
    }

    /** `append`: walk to the last node and link a new node after it. */
    method Append(data: T) returns (r: SinglyLinkedList<T>)
      requires Valid()
      modifies Repr
      ensures Valid() && fresh(Repr - old(Repr))
      ensures Contents == old(Contents) + [data]
      ensures |Spine| == |old(Spine)| + 1 && Spine == old(Spine) + [Spine[|old(Spine)|]]
      ensures Repr == old(Repr) + {Spine[|old(Spine)|]}
      ensures r == this
    {
      var node := Head;
      ghost var k := 0;
      while node.next != null
        invariant 0 <= k <= |Contents| && node == Spine[k]
        invariant node.next == if k < |Contents| then Spine[k + 1] else null
        decreases |Contents| - k
      {
        node := node.next;
        k := k + 1;
      }
      var added := new Node(data, null);
      node.next := added;
      Repr := Repr + {added};
      DistinctInsert(Spine, |Spine|, added);
      assert Spine[..|Spine|] + [added] + Spine[|Spine|..] == Spine + [added];
      Spine := Spine + [added];
      Contents := Contents + [data];
      forall i | 0 <= i < |Contents| ensures Spine[i].next == Spine[i + 1] {
        if i < k {
          assert Spine[i] == old(Spine)[i] != node;
          assert old(Spine[i].next) == Spine[i + 1];
        }
      }
      return this;
    }

    /** `pop`: `None` on an empty list; otherwise unlink and return the last node. */
    method Pop() returns (r: Node?<T>)
      requires Valid()
      modifies Repr
      ensures Valid() && Repr <= old(Repr)
      ensures old(Contents) == [] ==> r == null && Contents == [] && Spine == old(Spine) && Repr == old(Repr)
      ensures old(Contents) != [] ==>
                r == old(Spine)[|old(Contents)|] && r !in Repr && r.data == old(Contents)[|old(Contents)| - 1] &&
                Contents == old(Contents)[..|old(Contents)| - 1] &&
                Spine == old(Spine)[..|old(Contents)|] && Repr == old(Repr) - {r}
    {
      HeadLink();
      if Head.next == null {
        return null;
      }
      var node := Head;
      ghost var k := 0;
      while node.next.next != null
        invariant 0 <= k < |Contents| && node == Spine[k] && node.next == Spine[k + 1]
        invariant node.next.next == if k + 1 < |Contents| then Spine[k + 2] else null
        decreases |Contents| - k
      {
        node := node.next;
        k := k + 1;
      }
      var removed := node.next;
      node.next := null;
      Repr := Repr - {removed};
      DistinctWithout(Spine, k + 1);
      assert Spine[..k + 1] + Spine[k + 2..] == Spine[..k + 1];
      Spine := Spine[..k + 1];
      Contents := Contents[..k];
      return removed;
    }

    /** `appendleft`: link a new node right after the sentinel. (On an empty
        list the listing links a second, fresh node built from the same
        payload rather than the one it allocated first.) */
    method AppendLeft(data: T) returns (r: SinglyLinkedList<T>)
      requires Valid()
      modifies Repr
      ensures Valid() && fresh(Repr - old(Repr))
      ensures Contents == [data] + old(Contents)
      ensures |Spine| == |old(Spine)| + 1 && Spine == [Head, Spine[1]] + old(Spine)[1..]
      ensures Repr == old(Repr) + {Spine[1]}
      ensures r == this
    {
      HeadLink();
      var newNode := new Node(data, null);
      if Head.next == null {
        var first := new Node(data, null);
        Head.next := first;
        Repr := Repr + {first};
        Spine := [Head, first];
        Contents := [data];
        return this;
      }
      var previousFirst := Head.next;
      Head.next := newNode;
      newNode.next := previousFirst;
      Repr := Repr + {newNode};
      DistinctInsert(Spine, 1, newNode);
      assert Spine[..1] + [newNode] + Spine[1..] == [Head, newNode] + Spine[1..];
      Spine := [Head, newNode] + Spine[1..];
      Contents := [data] + Contents;
      return this;
    }

    /** `popleft`: `None` on an empty list; otherwise unlink and return the
        first real node, whose `next` still points at the new first node. */
    method PopLeft() returns (r: Node?<T>)
      requires Valid()
      modifies Repr
      ensures Valid() && Repr <= old(Repr)
      ensures old(Contents) == [] ==> r == null && Contents == [] && Spine == old(Spine) && Repr == old(Repr)
      ensures old(Contents) != [] ==>
                r == old(Spine)[1] && r !in Repr && r.data == old(Contents)[0] && r.next == Head.next &&
                Contents == old(Contents)[1..] &&
                Spine == [Head] + old(Spine)[2..] && Repr == old(Repr) - {r}
    {
      HeadLink();
      if Head.next == null {
        return null;
      }
      var previousFirst := Head.next;
      Head.next := previousFirst.next;
      Repr := Repr - {previousFirst};
      DistinctWithout(Spine, 1);
      assert Spine[..1] + Spine[2..] == [Head] + Spine[2..];
      Spine := [Head] + Spine[2..];
      Contents := Contents[1..];
      return previousFirst;
    }

    /** `remove`: `None` on an empty list; otherwise unlink the first real
        node whose payload equals `data` and return the list. The listing
        dereferences `None` when a non-empty list lacks `data`. */
    method Remove(data: T) returns (r: SinglyLinkedList?<T>)
      requires Valid()
      requires Contents == [] || data in Contents
      modifies Repr
      ensures Valid() && Repr <= old(Repr)
      ensures old(Contents) == [] ==> r == null && Contents == [] && Spine == old(Spine) && Repr == old(Repr)
      ensures old(Contents) != [] ==>
                r == this &&
                var k := IndexOf(old(Contents), data);
                Contents == old(Contents)[..k] + old(Contents)[k + 1..] &&
                Spine == old(Spine)[..k + 1] + old(Spine)[k + 2..] &&
                Repr == old(Repr) - {old(Spine)[k + 1]}
    {
      HeadLink();
      if Head.next == null {
        return null;
      }
      var node := Head;
      ghost var k := 0;
      while node.next.data != data
        invariant 0 <= k < |Contents| && node == Spine[k] && node.next == Spine[k + 1]
        invariant data !in Contents[..k]
        decreases |Contents| - k
      {
        assert Contents[..k + 1] == Contents[..k] + [Contents[k]];
        node := node.next;
        k := k + 1;
      }
      FirstMatch(Contents, data, k);
      Unlink(node, k);
      return this;
    }
  }

  /** No element occurs twice. */
  ghost predicate Distinct<X>(s: seq<X>)
  {
    forall i, j :: 0 <= i < j < |s| ==> s[i] != s[j]
  }

  lemma DistinctWithout<X>(s: seq<X>, k: int)
    requires Distinct(s) && 0 <= k < |s|
    ensures Distinct(s[..k] + s[k + 1..])
  {
    var t := s[..k] + s[k + 1..];
    forall i, j | 0 <= i < j < |t| ensures t[i] != t[j] {
      var i' := if i < k then i else i + 1;
      var j' := if j < k then j else j + 1;
      assert t[i] == s[i'] && t[j] == s[j'];
    }
  }

  lemma DistinctInsert<X>(s: seq<X>, k: int, x: X)
    requires Distinct(s) && 0 <= k <= |s| && x !in s
    ensures Distinct(s[..k] + [x] + s[k..])
  {
    var t := s[..k] + [x] + s[k..];
    forall i, j | 0 <= i < j < |t| ensures t[i] != t[j] {
      if i == k {
        assert t[j] == s[j - 1];
      } else if j == k {
        assert t[i] == s[i];
      } else {
        var i' := if i < k then i else i - 1;
        var j' := if j < k then j else j - 1;
        assert t[i] == s[i'] && t[j] == s[j'];
      }
    }
  }

  /** A position holding `x` with no `x` before it is the first position of `x`. */
  lemma FirstMatch<T>(s: seq<T>, x: T, k: int)
    requires 0 <= k < |s| && s[k] == x && x !in s[..k]
    ensures IndexOf(s, x) == k
  {
    var j := IndexOf(s, x);
    assert s[..j] == s[..j];
  }

  /** Appending `values` one by one to a new list and then popping as many
      times returns the payloads in reverse order; the list is then empty and
      one more pop returns `None`. */
  method PopsReverseAppends<T(==)>(marker: T, values: seq<T>) returns (popped: seq<T>, last: Node?<T>)
    ensures popped == Reversed(values)
    ensures last == null
  {
    var list := new SinglyLinkedList(marker, []);
    for i := 0 to |values|
      invariant list.Valid() && fresh(list.Repr)
      invariant list.Contents == values[..i]
    {
      var _ := list.Append(values[i]);
      assert values[..i + 1] == values[..i] + [values[i]];
    }
    popped := [];
    var n := |values|;
    while n > 0
      invariant 0 <= n <= |values|
      invariant list.Valid() && fresh(list.Repr)
      invariant list.Contents == values[..n]
      invariant popped == Reversed(values[n..])
    {
      var node := list.Pop();
      popped := popped + [node.data];
      assert values[n - 1..][1..] == values[n..];
      assert values[..n][..n - 1] == values[..n - 1];
      n := n - 1;
    }
    last := list.Pop();
  }

  /** `appendleft(x)` followed by `popleft()` hands back a node holding `x`
      and leaves the payloads as they were. */
  method AppendLeftThenPopLeft<T(==)>(list: SinglyLinkedList<T>, x: T) returns (node: Node?<T>)
    requires list.Valid()
    modifies list.Repr
    ensures list.Valid() && fresh(list.Repr - old(list.Repr))
    ensures node != null && node.data == x
    ensures list.Contents == old(list.Contents)
  {
    var _ := list.AppendLeft(x);
    node := list.PopLeft();
  }
}
