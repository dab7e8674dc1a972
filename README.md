# Verified model of two article data structures

This project models two small in-memory containers from a series of Python
articles and proves what each operation does.

- **A sentinel-headed singly linked list** (`SinglyLinkedList` and its
  `SLLNode` records, implementing-linked-lists-in-python/part6.py). A `HEAD`
  node is created once and never removed. The real nodes hang off it through
  `next`. The class offers:
  - deque operations (`append`, `appendleft`, `pop`, `popleft`);
  - search (`find`, `remove`, `in`);
  - indexed access (`[i]`, `[i] = v`, `del [i]`);
  - a traversal-based length and length-only comparisons.

  part4.py and part2.py are earlier, shorter listings of the same class. Their
  `__init__`, `__iter__`, `append`, `pop`, `appendleft` and `popleft` are
  textually identical to part6.py, so one class models all three.
- **An array-backed binary min-heap over integers** (`MinHeap`, spread over
  implementing-heap-in-python/minheap-1.py to minheap-6.py). The class has:
  - index arithmetic;
  - `__swap`;
  - sift-up (`__heapify_up`) and `add`;
  - sift-down (`__heapify_down`) and `poll`;
  - `is_empty` and `peek`;
  - the two sorts built on it, `heapsort_aux` and `heapsort_in_place`, with
    the latter's `heapify_children`.

## How the model is built

**Linked list** (`linked_list.dfy`, module `LinkedLists`):
- `Node<T>` is `SLLNode`. `SinglyLinkedList<T>` keeps the sentinel as a
  constant `Head`.
- Three ghost fields describe the list:
  - `Spine` is the chain of nodes, sentinel first;
  - `Contents` holds the payloads of the real nodes;
  - `Repr` is the footprint.
- `Valid()` says the following:
  - the spine starts at `Head`;
  - its nodes are distinct;
  - each links to the next;
  - the last one links to `null`;
  - every payload matches `Contents`.
- Every method walks or relinks the real `next` fields in place. Its contract
  states the new `Contents`.
- The sentinel's payload is the string `'HEAD'` in the listing. Payloads are
  generic here, so it is the constructor's `marker` argument.

**Heap:**
- The Python list `nodes` is the class `IntList`, which has a `seq<int>`
  field. `MinHeap.nodes` refers to one, so `heapsort_in_place` can hand the
  caller's own list to the heap, as the listing does (`heap.nodes = unsorted_input`).
- Each method that changes the list is proved against a function on the
  list's value:

  | method | specified by |
  |---|---|
  | `HeapifyUp` | `SiftUp.HeapifyUp` |
  | `HeapifyDown` | `SiftDown.HeapifyDown` |
  | `Poll` | `SiftDown.PollRest` |
  | `HeapifyChildren` | `SiblingOrder.HeapifyChildren` |
  | the constructor | `SiftUp.BuildByAdds` |
  | `HeapsortAux` | `HeapsortSpec.AuxResult` |
  | `HeapsortInPlace` | `HeapsortSpec.InPlaceResult` |

- The lemmas about those functions carry the heap's guarantees:
  - preservation of the heap property;
  - permutation;
  - sortedness of the drained values;
  - the bottom-up construction;
  - the sibling order that `heapify_children` leaves.

**Quirks in the listings**, each either kept as written or made an explicit departure:
- **Sift-up truthiness.** Sift-up tests `if self.__parent(child) and …`, so a parent whose value is `0` never swaps. `add` keeps the heap property whenever the new item is non-negative or the heap holds no `0` (`SiftUp.ZeroSafe`). `SiftUp.ZeroParentBlocksSiftUp` shows `add(-1)` on `[0]` leaving `[0, -1]`, which is not a heap. `HeapsortSpec.AuxMissortsZeroAndNegative` shows that `heapsort_aux([0, -1])` returns `[0, -1]`.
- **Sift-up restart.** `not child` is also true for index `0`. When a swap reaches the root, the recursive call restarts from the last slot. This is modelled as written. Termination is shown by the set of values smaller than the root, which shrinks at each swap into the root.
- **`heapify_children` is not a sort.** It orders each pair of siblings (left ≤ right) without sifting. `HeapsortSpec.InPlaceIsNotASort` shows `[100, 230, 44, 1, 74, 12013, 84]` ending as `[1, 44, 74, 100, 230, 84, 12013]`. `HeapsortSpec.SiblingSwapBreaksHeap` shows it can break the heap property.
- **`heap.heapify_down` in minheap-6.py.** minheap-6.py:46 calls `heap.heapify_down(idx)`. The only sift-down in the listings is minheap-3.py's private `__heapify_down`, whose name Python mangles. Against those listings the call raises `AttributeError` on its first pass. The model runs minheap-3.py's sift-down there instead (see "Left out").
- **`peek` and the index bound checks.** These are logged under "Findings". The model uses the corrected versions.
- **`__eq__`.** It indexes the other list by the sentinel's payload `'HEAD'`. The bound check `'HEAD' < 0` raises `TypeError`, which is the outcome modelled for lists of equal length.

**Where the articles' prose and the code disagree, the model follows the code:**
- `in` and `find` match the sentinel's payload.
- `remove` of an absent value on a non-empty list dereferences `None`, so the model makes it a precondition. It is not a no-op.
- List equality is not position-wise.
- `heapsort_in_place` does not sort.

## Model

| member | source | states |
|---|---|---|
| LinkedLists.Node.constructor | implementing-linked-lists-in-python/part6.py:5-8 | a node holds the given payload and link |
| LinkedLists.SinglyLinkedList.constructor | implementing-linked-lists-in-python/part4.py:17-23 | a new list is a lone sentinel holding the marker, then the payload of each given node appended in order: `Contents[j] == nodes[j].data` |
| LinkedLists.SinglyLinkedList.HeadLink | implementing-linked-lists-in-python/part6.py:112-113 | `HEAD.next is None` exactly when the list has no real node; otherwise it is the first real node |
| LinkedLists.SinglyLinkedList.Iterate | implementing-linked-lists-in-python/part2.py:25-29 | iteration yields the sentinel, then every node in chain order, stopping at `None`: `len + 1` nodes |
| LinkedLists.SinglyLinkedList.Length | implementing-linked-lists-in-python/part6.py:31-32 | `len` is the number of real nodes, sentinel excluded |
| LinkedLists.SinglyLinkedList.Contains | implementing-linked-lists-in-python/part6.py:34-38 | `x in list` holds iff `x` is the sentinel's marker or one of the payloads |
| LinkedLists.SinglyLinkedList.Find | implementing-linked-lists-in-python/part6.py:142-148 | `None` on an empty list or when nothing matches; otherwise the first node, sentinel included, whose payload is `x` |
| LinkedLists.IndexOf | implementing-linked-lists-in-python/part6.py:154-157 | the first position holding `x`: it holds `x` and no earlier position does |
| LinkedLists.SinglyLinkedList.GetItem | implementing-linked-lists-in-python/part6.py:48-55 | raises `IndexError` iff the index is outside `0 .. len-1`; otherwise returns the real node at that index |
| LinkedLists.SinglyLinkedList.SetItem | implementing-linked-lists-in-python/part6.py:57-65 | out of range: `IndexError` and nothing changes; otherwise only the payload at the index changes, the nodes stay, and the list itself is returned |
| LinkedLists.SinglyLinkedList.DeleteItem | implementing-linked-lists-in-python/part6.py:67-75 | out of range: `IndexError`, and the nodes, chain and footprint are unchanged; otherwise exactly the node at the index is unlinked, so its payload goes and every other node stays in the chain, in order |
| LinkedLists.SinglyLinkedList.Unlink | implementing-linked-lists-in-python/part6.py:74 | relinking the predecessor past its successor removes exactly that one node from the chain and the footprint |
| LinkedLists.SinglyLinkedList.Gt | implementing-linked-lists-in-python/part6.py:77-79 | `True` iff this list is longer, otherwise `None` (never `False`) |
| LinkedLists.SinglyLinkedList.Lt | implementing-linked-lists-in-python/part6.py:81-83 | `True` iff this list is shorter, otherwise `None` (never `False`) |
| LinkedLists.SinglyLinkedList.Ge | implementing-linked-lists-in-python/part6.py:85-87 | `True` iff this list is at least as long, otherwise `None` |
| LinkedLists.SinglyLinkedList.Le | implementing-linked-lists-in-python/part6.py:89-91 | `True` iff this list is at most as long, otherwise `None` |
| LinkedLists.SinglyLinkedList.Eq | implementing-linked-lists-in-python/part6.py:93-99 | `False` iff the lengths differ; `TypeError` iff they are equal |
| LinkedLists.SinglyLinkedList.Ne | implementing-linked-lists-in-python/part6.py:101-102 | `True` iff the lengths differ; the same `TypeError` otherwise |
| LinkedLists.SinglyLinkedList.Append | implementing-linked-lists-in-python/part6.py:104-109 | the payloads become `s + [x]`. The chain is the old chain, same nodes in the same order, plus one new node at the end; the footprint gains only that node. The same list object is returned |
| LinkedLists.SinglyLinkedList.Pop | implementing-linked-lists-in-python/part6.py:111-121 | empty: `None`, and nothing changes; otherwise the last node (holding the last payload) is unlinked and returned. That leaves `s[..len-1]`, carried by the same earlier nodes |
| LinkedLists.SinglyLinkedList.AppendLeft | implementing-linked-lists-in-python/part6.py:123-132 | in both the empty and the non-empty branch, the payloads become `[x] + s` and exactly one new node is linked right after the sentinel, ahead of the old nodes. The same list is returned |
| LinkedLists.SinglyLinkedList.PopLeft | implementing-linked-lists-in-python/part6.py:134-140 | empty: `None`, and nothing changes; otherwise the first real node is unlinked and returned, leaving `s[1..]` on the same remaining nodes. The returned node still links to the new first node |
| LinkedLists.SinglyLinkedList.Remove | implementing-linked-lists-in-python/part6.py:150-157 | empty: `None`; otherwise exactly the first real node holding `x` is spliced out of the chain and footprint, every other node stays in order, and the list is returned |
| LinkedLists.IndexGuardAsWritten | implementing-linked-lists-in-python/part6.py:49 | the bound check written with `and` is false for every index on any list |
| LinkedLists.IndexGuardMissesNegative | implementing-linked-lists-in-python/part6.py:58 | index -1 on a list of three is out of range, yet the written check passes it |
| LinkedLists.PopsReverseAppends | implementing-linked-lists-in-python/part6.py:104-121 | appending `v1..vn` to a new list and popping n times returns `vn..v1`; one more pop returns `None` |
| LinkedLists.AppendLeftThenPopLeft | implementing-linked-lists-in-python/part6.py:123-140 | `popleft()` right after `appendleft(x)` returns a node holding `x` and restores the payloads |
| HeapIndex.ParentInvertsChildren | implementing-heap-in-python/minheap-1.py:20-27 | the parent of `2i+1` and of `2i+2` is `i`; every index `c >= 1` is a child of its parent, which lies before it |
| HeapIndex.HasParentIffNotRoot | implementing-heap-in-python/minheap-1.py:35-36 | for `i >= 0`, `__has_parent(i)` iff `i >= 1`, since `(0-1)//2 == -1` |
| HeapOrder.Swapped | implementing-heap-in-python/minheap-2.py:18-24 | with both indices in range the two entries are exchanged and nothing else changes; otherwise the list is unchanged |
| HeapOrder.SwappedPermutes | implementing-heap-in-python/minheap-2.py:22-24 | a swap keeps the multiset of values |
| HeapOrder.HeapRootIsMin | implementing-heap-in-python/minheap-3.py:58 | on a min-heap the root is at most every value |
| SiftUp.HeapifyUp | implementing-heap-in-python/minheap-2.py:26-39 | sift-up keeps the length and terminates despite restarting from the last slot after each swap into the root |
| SiftUp.HeapifyUpPermutes | implementing-heap-in-python/minheap-2.py:26-39 | sift-up only permutes the values |
| SiftUp.SwapUpShrinks | implementing-heap-in-python/minheap-2.py:28-37 | a swap into the root strictly shrinks the set of values below the root; any other swap leaves it as it is |
| SiftUp.HeapifyUpRestoresHeap | implementing-heap-in-python/minheap-2.py:26-39 | sifting up the single out-of-place value restores the heap property when the item is non-negative or the heap holds no 0 |
| SiftUp.AddKeepsHeap | implementing-heap-in-python/minheap-2.py:41-43 | on a heap, `add(item)` grows the list by one, permutes old values plus `item`, keeps the heap property and makes the root `min(old root, item)`, when the item is non-negative or the heap holds no 0 |
| SiftUp.BuildByAddsIsHeap | implementing-heap-in-python/minheap-2.py:7-10 | construction by repeated `add` holds exactly the input values and is a heap when the input has no 0 or no negative value |
| SiftUp.ZeroParentBlocksSiftUp | implementing-heap-in-python/minheap-2.py:33 | `add(-1)` on the heap `[0]` leaves `[0, -1]`, which is not a heap |
| SiftDown.SmallerChildIndex | implementing-heap-in-python/minheap-3.py:33-36 | wherever a left child exists, the chosen index is an existing child (left or right) holding a value no larger than either child; it is the right child exactly when that exists and is strictly smaller, so the virtual `-sys.maxsize` of a missing child never decides a sift-down |
| SiftDown.HeapifyDown | implementing-heap-in-python/minheap-3.py:28-45 | sift-down keeps the length; the index strictly increases, so it terminates |
| SiftDown.HeapifyDownPermutes | implementing-heap-in-python/minheap-3.py:28-45 | sift-down only permutes the values |
| SiftDown.HeapifyDownStaysInSubtree | implementing-heap-in-python/minheap-3.py:42-45 | sift-down changes no position outside the subtree of its start index |
| SiftDown.HeapifyDownRestores | implementing-heap-in-python/minheap-3.py:28-45 | if every parent index from `lo` on is ordered except `i`, and `i`'s parent (when at least `lo`) is no larger than `i`'s children, then sift-down from `i` orders every parent index from `lo` on |
| SiftDown.MoveLastToRoot | implementing-heap-in-python/minheap-3.py:58-62 | moving the last value to the root and shrinking removes one copy of the root value and keeps every other position |
| SiftDown.PollRest | implementing-heap-in-python/minheap-3.py:58-64 | after `poll` the list is one shorter and holds the old values minus one copy of the root |
| SiftDown.PollKeepsHeap | implementing-heap-in-python/minheap-3.py:47-65 | on a heap `poll` returns a value at most every stored value and leaves a heap |
| SiftDown.Drain | implementing-heap-in-python/minheap-5.py:28-29 | polling until empty yields as many values as were stored |
| SiftDown.DrainPermutes | implementing-heap-in-python/minheap-5.py:28-29 | polling until empty yields every stored value exactly once |
| SiftDown.DrainIsSorted | implementing-heap-in-python/minheap-3.py:47-65 | polling a heap until empty yields a non-decreasing sequence |
| SiftDown.Heapified | implementing-heap-in-python/minheap-6.py:45-46 | the bottom-up loop keeps the length |
| SiftDown.HeapifiedPermutes | implementing-heap-in-python/minheap-6.py:45-46 | the bottom-up loop only permutes the values |
| SiftDown.HeapifiedIsHeap | implementing-heap-in-python/minheap-6.py:45-46 | sifting down every index from `k` to 0, when the parents above `k` are already ordered, gives a heap |
| SiftDown.BottomUpIsHeap | implementing-heap-in-python/minheap-6.py:43-46 | the loop from `size // 2` down to 0 turns any list into a min-heap |
| SiblingOrder.HeapifyChildren | implementing-heap-in-python/minheap-6.py:23-36 | `heapify_children` keeps the length |
| SiblingOrder.HeapifyChildrenPermutes | implementing-heap-in-python/minheap-6.py:31-36 | `heapify_children` only permutes the values |
| SiblingOrder.HeapifyChildrenStaysBelow | implementing-heap-in-python/minheap-6.py:27-36 | `heapify_children(i)` changes only positions strictly below `i` |
| SiblingOrder.HeapifyChildrenOrdersSiblings | implementing-heap-in-python/minheap-6.py:23-36 | after `heapify_children(i)`, every node in the subtree of `i` that has two children has left <= right |
| HeapsortSpec.AuxSortsZeroSafe | implementing-heap-in-python/minheap-5.py:24-31 | `heapsort_aux` returns a permutation of its input with the same length, sorted whenever the input has no 0 or no negative value |
| HeapsortSpec.AuxMissortsZeroAndNegative | implementing-heap-in-python/minheap-5.py:26-29 | `heapsort_aux([0, -1])` returns `[0, -1]`, which is not sorted |
| HeapsortSpec.InPlaceOrdersSiblings | implementing-heap-in-python/minheap-6.py:39-48 | `heapsort_in_place` permutes its input and leaves every pair of siblings with left <= right |
| HeapsortSpec.BottomUpExample | implementing-heap-in-python/minheap-6.py:45-46 | on `[100, 230, 44, 1, 74, 12013, 84]` the bottom-up loop gives `[1, 74, 44, 230, 100, 12013, 84]`, the layout `heapq.heapify` prints |
| HeapsortSpec.InPlaceExample | implementing-heap-in-python/minheap-6.py:52-55 | on `[10, 15, 8, 20, 17]` `heapsort_in_place` gives `[8, 10, 15, 17, 20]` |
| HeapsortSpec.InPlaceIsNotASort | implementing-heap-in-python/minheap-6.py:39-48 | on `[100, 230, 44, 1, 74, 12013, 84]` `heapsort_in_place` gives `[1, 44, 74, 100, 230, 84, 12013]`, which is not sorted |
| HeapsortSpec.SiblingSwapBreaksHeap | implementing-heap-in-python/minheap-6.py:31-36 | on the heap `[1, 5, 2, 6, 7, 3, 4]` `heapify_children(0)` gives `[1, 2, 5, 6, 7, 3, 4]`, which is not a heap |
| MinHeaps.MinHeap.constructor | implementing-heap-in-python/minheap-2.py:7-10 | a new heap holds a fresh list equal to adding the values one by one; it is a heap when the input has no 0 or no negative value |
| MinHeaps.MinHeap.Size | implementing-heap-in-python/minheap-1.py:17-18 | the length is 0 exactly for the empty list |
| MinHeaps.MinHeap.IsEmpty | implementing-heap-in-python/minheap-4.py:22-23 | `is_empty` holds exactly when the length is 0 |
| MinHeaps.MinHeap.PeekAsWritten | implementing-heap-in-python/minheap-4.py:25-28 | as written, `peek` raises `IndexError` exactly on an empty heap and otherwise returns `None`, never a value |
| MinHeaps.MinHeap.Peek | implementing-heap-in-python/minheap-4.py:25-28 | `None` exactly when empty; otherwise the root, which on a heap is at most every value; reads only |
| MinHeaps.MinHeap.Swap | implementing-heap-in-python/minheap-2.py:18-24 | the list becomes `Swapped(old list, first, second)` |
| MinHeaps.MinHeap.HeapifyUp | implementing-heap-in-python/minheap-2.py:26-39 | the list becomes `SiftUp.HeapifyUp(old list, child)` |
| MinHeaps.MinHeap.Add | implementing-heap-in-python/minheap-2.py:41-43 | the list becomes `SiftUp.Add(old list, item)`, and stays a heap when the item is non-negative or the heap holds no 0 |
| MinHeaps.MinHeap.HeapifyDown | implementing-heap-in-python/minheap-3.py:28-45 | the list becomes `SiftDown.HeapifyDown(old list, index)` |
| MinHeaps.MinHeap.Poll | implementing-heap-in-python/minheap-3.py:47-65 | empty: `None` and nothing changes; otherwise the old root is returned and the list becomes `PollRest(old list)`; on a heap the value is the least and a heap remains |
| MinHeaps.MinHeap.HeapifyChildren | implementing-heap-in-python/minheap-6.py:23-36 | the list becomes `SiblingOrder.HeapifyChildren(old list, index)` |
| MinHeaps.HeapsortAux | implementing-heap-in-python/minheap-5.py:24-31 | the output is `Drain(BuildByAdds(input))`: a permutation of the input with its length, sorted whenever the input has no 0 or no negative value |
| MinHeaps.HeapsortInPlace | implementing-heap-in-python/minheap-6.py:39-48 | returns the very list it was given, now `InPlaceResult(old value)`: a permutation with every pair of siblings in order |

## Left out

- `__str__` of `SLLNode` and `SinglyLinkedList` (implementing-linked-lists-in-python/part6.py:10-11, 40-46): rendering arbitrary payloads as text.
- Every `print` and the `__main__` blocks are console I/O. Each `print` is a no-op in the model.
- implementing-heap-in-python/heapq.py drives Python's library heap. Its printed layout is used only as the expected value in `HeapsortSpec.BottomUpExample`.
- implementing-linked-lists-in-python/part1.py is a bare node record. `LinkedLists.Node` covers it.
- LinkedLists.SinglyLinkedList.Eq: the element-wise loop is not modelled. For lists of equal length only the `TypeError` on its first lookup is, and that outcome relies on the sentinel's payload being the string `'HEAD'`, which the generic payload type cannot state.
- LinkedLists.SinglyLinkedList.Remove: requires the value to be present in a non-empty list. Otherwise the listing dereferences `None` and crashes.
- LinkedLists.SinglyLinkedList.GetItem: raises `IndexError` outside `0 .. len-1`, using the intended bound check. The written code, whose check never fires, does not. A negative index returns the first real node (`None` on an empty list), `[len]` returns `None`, and a larger index raises `AttributeError` on `None`.
- LinkedLists.SinglyLinkedList.SetItem: raises `IndexError` outside `0 .. len-1`, using the intended bound check. The written code does not. A negative index walks no step and overwrites the sentinel's own `'HEAD'` payload. `[len]` and larger indices raise `AttributeError` on `None`.
- LinkedLists.SinglyLinkedList.DeleteItem: raises `IndexError` outside `0 .. len-1`, using the intended bound check. The written code does not. A negative index deletes the first real node (nothing on an empty list), `del [len]` changes nothing, and a larger index raises `AttributeError` on `None`.
- MinHeaps.HeapsortInPlace: runs minheap-3.py's sift-down for each index. As printed, minheap-6.py:46 calls `heap.heapify_down`, which no listing defines publicly, so the written function raises `AttributeError` before changing the list. The model follows the evident intent instead.
- MinHeaps.MinHeap.Swap: requires non-negative indices. Every caller passes one, and Python's negative indexing is not modelled.
- MinHeaps.HeapsortAux: takes and returns list values. Two facts are therefore left unstated:
  - the output is a new list object (the listing's identity check prints `False`);
  - the input list is never touched.
- SiftDown.HeapifyDownStaysInSubtree: it states that sift-down stays inside the subtree of its start index. The sharper fact, that only positions on one downward path change, is not stated.
- SiftUp.HeapifyUp: termination is measured by the set of values smaller than the root and the start index. It is not the count of inversions.
- The mutable default argument `nodes=[]` of the `MinHeap` constructors is never mutated, so it is irrelevant.
- Integers are unbounded, as in Python. `sys.maxsize` is taken to be its 64-bit value.

## Findings

| source | as written | input that shows it | evidently intended | confidence | as-written member | corrected member |
|---|---|---|---|---|---|---|
| implementing-heap-in-python/minheap-4.py:26-28 | `if not self.is_empty(): return None` guards the read of `self.nodes[0]` | a heap holding `[5]` answers `None`; an empty heap raises `IndexError` | the root when non-empty, `None` when empty | not executed | MinHeaps.MinHeap.PeekAsWritten | MinHeaps.MinHeap.Peek |
| implementing-linked-lists-in-python/part6.py:49 | `index < 0 and index > len(self) - 1` is never true | `[-1]` on a list of three raises nothing | `or`: raise `IndexError` outside `0 .. len-1` | not executed | LinkedLists.IndexGuardAsWritten | LinkedLists.SinglyLinkedList.GetItem |
| implementing-linked-lists-in-python/part6.py:58 | the same `and` in `__setitem__` | `[-1] = v` on a list of three raises nothing and overwrites the sentinel's `'HEAD'` payload | `or` | not executed | LinkedLists.IndexGuardMissesNegative | LinkedLists.SinglyLinkedList.SetItem |
| implementing-linked-lists-in-python/part6.py:68 | the same `and` in `__delitem__` | `del [-1]` on a list of three raises nothing | `or` | not executed | LinkedLists.IndexGuardAsWritten | LinkedLists.SinglyLinkedList.DeleteItem |
