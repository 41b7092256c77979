# Three verified containers: linked list, search tree, priority queue

This project models the three hand-written containers of the repository and
proves what each one promises:

- **`DLL`** (DoublyLinkedList.cpp) is a doubly linked list with `head`, `tail`
  and `size` fields.
  - The model is a class over a node arena. `arena[id]` holds the
    `previous`/`next` links of node `id`, and `values[id]` holds its value.
    `Null` (-1) stands for `nullptr`.
  - A ghost sequence `nodes` lists the node ids from `head` to `tail`.
  - The invariant `Valid` states the link structure:
    - `head.previous` and `tail.next` are null;
    - each node's `next` has that node as its `previous`;
    - the ids are distinct;
    - `size` counts the chain.
  - `Contents()` is the sequence of values along the chain. Every mutator is
    proved against it.
  - Pointer walks (`node_at_index`, `contains`, `is_sorted`, `node_between`,
    the merge loop) are `while` loops over node ids.
  - The merge sort rewrites values only. Its methods may modify `values` and
    nothing else, so node identities and links provably stay as they were.
- **`BST`** (BST.cpp) is an unbalanced binary search tree.
  - Nodes are the datatype `Tree = Leaf | Node(left, value, right)`. The class
    `BST` holds `root` and `size`.
  - The comparator is fixed to `<` and the equalizer to `==`.
  - `insert` is a recursive method that rebuilds the path and updates `size`.
  - `contains`, `height`, `pre_order` and `post_order` are functions.
  - The stack-driven `in_order` and the queue-driven `bfs` are loops, proved
    equal to the recursive in-order sequence and to a level-by-level
    breadth-first order.
  - `accumulate` is a left fold over the `bfs` sequence.
- **`PriorityQueue`** (priority_queue.cpp) is a binary heap in a vector plus a
  `size` field.
  - The comparator is fixed to its default `>`, so it is a max-heap.
  - The invariant is that no entry is strictly better than its parent, and
    that `size` equals the vector's length.
  - `push` and `pop` keep the invariant and change the multiset of contents
    by exactly the pushed or popped element.
  - Repeatedly taking `top` and popping yields a non-increasing permutation of
    the contents.

Visitor callbacks (`node_processor`) are modelled as the sequence of values
they would be called with. A traversal returns that sequence, and
`accumulate` folds `op` over it.

Two behaviours of the list sort follow from the code and are stated as such:
- The merge compares with a strict `<` (DoublyLinkedList.cpp:77), so on ties
  it takes the right-half element. With a generic element type the sort would
  therefore not be stable; with `int` elements this cannot be observed.
- A one-node range in `merge_sort` still calls `sort_swap`
  (DoublyLinkedList.cpp:108), which compares that node with the node after it
  and may swap the two (DoublyLinkedList.cpp:46-49).

`bubble_up`, `contains` and `is_sorted` have defects; see "## Findings".

## Model

| member | source | states |
|---|---|---|
| LinkedList.DLL.constructor | DoublyLinkedList.cpp:119 | the new list satisfies the link invariant and is empty |
| LinkedList.DLL.FromSeq | DoublyLinkedList.cpp:121-123 | building from a vector by repeated `push_back` yields a list whose contents are that vector |
| LinkedList.DLL.Copy | DoublyLinkedList.cpp:125-127 | walking `other` from `head` and pushing each value to the back yields the same contents as `other` |
| LinkedList.DLL.Assign | DoublyLinkedList.cpp:129-133 | copy-and-swap assignment leaves this list valid, holding the contents `other` had |
| LinkedList.Swap | DoublyLinkedList.cpp:290-297 | both lists stay valid and exchange their contents |
| LinkedList.DLL.NewNode | DoublyLinkedList.cpp:16-20 | the new node gets a fresh id, links to `p` and `n` and is linked back from them, and only those two links change |
| LinkedList.DLL.IsEmpty | DoublyLinkedList.cpp:267-269 | true exactly when the contents are empty |
| LinkedList.DLL.Length | DoublyLinkedList.cpp:271-273 | equals the number of elements in the contents |
| LinkedList.DLL.NodeAtIndex | DoublyLinkedList.cpp:27-44 | returns the id of the index-th node of the chain, or null exactly when index >= size; the node found holds the index-th value |
| LinkedList.DLL.PushFront | DoublyLinkedList.cpp:145-150 | returns true; the new contents are `[v] + old`, and the link invariant holds |
| LinkedList.DLL.PushBack | DoublyLinkedList.cpp:152-159 | returns true; the new contents are `old + [v]` (an empty list goes through `push_front`) |
| LinkedList.DLL.Insert | DoublyLinkedList.cpp:161-172 | returns true iff index <= size; then the contents are `s[..i] + [v] + s[i..]`, otherwise unchanged |
| LinkedList.DLL.LinkAt | DoublyLinkedList.cpp:167-171 | a middle insertion after node i-1 grows size by one and splices `v` in at position i |
| LinkedList.DLL.PopFront | DoublyLinkedList.cpp:174-183 | returns true iff the list was non-empty; then the first element is dropped, otherwise nothing changes |
| LinkedList.DLL.PopBack | DoublyLinkedList.cpp:185-194 | returns true iff the list was non-empty; then the last element is dropped (below two elements through `pop_front`), otherwise nothing changes |
| LinkedList.DLL.Remove | DoublyLinkedList.cpp:196-209 | returns true iff index < size; then the contents are `s[..i] + s[i+1..]`, otherwise unchanged |
| LinkedList.DLL.UnlinkAt | DoublyLinkedList.cpp:202-208 | relinking the neighbours of a middle node drops exactly that element and shrinks size by one |
| LinkedList.DLL.Replace | DoublyLinkedList.cpp:211-216 | returns true iff index < size; then only that position changes, to `v`, and no link changes |
| LinkedList.DLL.Get | DoublyLinkedList.cpp:253-265 | the index-th element when index < size, otherwise the "Index out of bounds" error |
| LinkedList.DLL.Contains | DoublyLinkedList.cpp:218-227 | the answer is exactly whether `elt` sits at a position the two-ended scan reaches (every position except the middle of an odd-length list) |
| LinkedList.ScanFindsEven | DoublyLinkedList.cpp:218-227 | on an even-length list the scan finds `elt` iff it occurs |
| LinkedList.ScanFindsOdd | DoublyLinkedList.cpp:218-227 | on an odd-length list the scan finds `elt` iff it occurs outside the middle position |
| LinkedList.ScanFindsMember | DoublyLinkedList.cpp:218-227 | whatever the scan finds does occur in the list (no false positives) |
| LinkedList.ContainsMissesSingleton | DoublyLinkedList.cpp:222 | the list `[5]` holds 5 but the scan does not find it |
| LinkedList.DLL.ContainsCorrected | DoublyLinkedList.cpp:218-227 | with the middle node also compared, the answer is true iff `elt` occurs in the list |
| LinkedList.DLL.IsSorted | DoublyLinkedList.cpp:229-245 | the answer is exactly whether every adjacent pair the inward scan compares is in order (all pairs except the middle one of an even-length list) |
| LinkedList.AscendingPassesScan | DoublyLinkedList.cpp:229-245 | an ascending list makes `is_sorted` answer true |
| LinkedList.ScanOrderedOdd | DoublyLinkedList.cpp:236 | on an odd-length list the scan compares every pair, so it answers true iff the list is ascending |
| LinkedList.IsSortedPassesDescendingPair | DoublyLinkedList.cpp:236 | `[2, 1]` is not ascending but passes every pair the scan compares |
| LinkedList.DLL.IsSortedCorrected | DoublyLinkedList.cpp:229-245 | with the middle pair also compared, the answer is true iff every adjacent pair is in order |
| LinkedList.AscendingIffSorted | DoublyLinkedList.cpp:229-245 | adjacent pairs in order is the same as every earlier element being at most every later one |
| LinkedList.PairsInward | DoublyLinkedList.cpp:236-242 | one step of the inward scan extends the checked prefix and the checked suffix by one pair each |
| LinkedList.DLL.SortSwap | DoublyLinkedList.cpp:46-50 | the values at positions p and p+1 end up in order; nothing else changes, and a missing node or successor means no change |
| LinkedList.SortPairPerm | DoublyLinkedList.cpp:46-50 | the compare-and-swap keeps the multiset of values |
| LinkedList.DLL.NodeBetween | DoublyLinkedList.cpp:52-62 | walking `start` and `end` towards each other stops at the node at position (a+b)/2 |
| LinkedList.DLL.MergeRuns | DoublyLinkedList.cpp:69-97 | the temporary vector equals the two-way merge of runs [a..m] and [m+1..b], taking the right element on ties |
| LinkedList.MergeFromPerm | DoublyLinkedList.cpp:73-97 | the merged vector is a permutation of the two runs together |
| LinkedList.MergeFromSorted | DoublyLinkedList.cpp:73-97 | merging two sorted runs gives a sorted vector |
| LinkedList.DLL.WriteBack | DoublyLinkedList.cpp:99-102 | writing the vector into successive nodes from `start` replaces exactly positions a..a+n-1 with it |
| LinkedList.DLL.Merge | DoublyLinkedList.cpp:64-103 | the contents become `MergeInto`: the sorted runs' merge written over [a..b], or a compare-and-swap when start == mid |
| LinkedList.MergeIntoSorts | DoublyLinkedList.cpp:64-103 | merging two sorted adjacent runs sorts [a..b] and leaves everything outside it unchanged |
| LinkedList.MergeIntoPerm | DoublyLinkedList.cpp:64-103 | `merge` keeps the multiset of the whole list |
| LinkedList.DLL.MergeSort | DoublyLinkedList.cpp:105-113 | sorts [a..b], keeps the multiset, and changes nothing outside [a..b+1] (a one-node range may swap with the node after it) |
| LinkedList.DLL.Sort | DoublyLinkedList.cpp:247-251 | afterwards the list is ascending and a permutation of the old contents; only `values` may change, so links and node ids stay |
| SearchTree.BST.constructor | BST.cpp:136-142 | an empty tree with size 0 |
| SearchTree.BST.FromSeq | BST.cpp:144-152 | the tree equals inserting the vector's elements in order, and its values are exactly the vector's |
| SearchTree.BST.Copy | BST.cpp:154-157 | re-inserting the `bfs` sequence of a non-empty tree yields a valid tree with the same value set and size |
| SearchTree.CopyContents | BST.cpp:154-157 | inserting a search tree's level order into an empty tree gives an ordered tree with the same elements and node count |
| SearchTree.Swap | BST.cpp:229-237 | the two trees exchange roots and sizes and stay valid |
| SearchTree.BST.InsertAt | BST.cpp:35-63 | the recursive insert produces `Inserted(t, v)`, reports success iff `v` was absent from the search path, and sets size to 1 on an empty tree or adds 1 |
| SearchTree.InsertedCount | BST.cpp:35-63 | a successful insert adds exactly one node; a rejected insert leaves the tree unchanged |
| SearchTree.InsertedValues | BST.cpp:35-63 | the multiset of values gains exactly `v` or is unchanged when `v` was found |
| SearchTree.InsertedElements | BST.cpp:35-63 | the value set after insertion is the old set plus `v` |
| SearchTree.InsertedOrdered | BST.cpp:44-62 | insertion preserves the order invariant (left values `<` the node, right values neither `<` nor `==`) |
| SearchTree.BST.Insert | BST.cpp:172-175 | returns true iff `v` was not stored; the value set gains `v`, size grows by one exactly on success, and the invariant holds |
| SearchTree.InsertAllContents | BST.cpp:151 | inserting a sequence keeps the order and yields the old values together with the sequence's |
| SearchTree.Contains | BST.cpp:65-72 | a true answer means the value is stored |
| SearchTree.ContainsIffMember | BST.cpp:65-72 | on an ordered tree, `contains` is true iff the value is stored |
| SearchTree.BST.ContainsValue | BST.cpp:177-179 | true iff the value is among the tree's elements |
| SearchTree.OrderedCount | BST.cpp:44-62 | an ordered tree stores no value twice: node count equals the size of the value set |
| SearchTree.Height | BST.cpp:74-78 | the height is 0 exactly for the empty tree and never exceeds the node count |
| SearchTree.HeightBound | BST.cpp:74-78 | a tree of height h holds fewer than 2^h nodes |
| SearchTree.BST.TreeHeight | BST.cpp:181-183 | the height lies between log2(size+1) and size |
| SearchTree.BST.IsEmpty | BST.cpp:192-194 | true iff size is 0, iff no value is stored |
| SearchTree.InOrder | BST.cpp:80-99 | the explicit-stack traversal outputs exactly the recursive in-order sequence |
| SearchTree.InOrderValues | BST.cpp:80-99 | the in-order sequence visits every stored value exactly once (same multiset) |
| SearchTree.InOrderSorted | BST.cpp:80-99 | on an ordered tree the in-order sequence is strictly increasing |
| SearchTree.PreOrder | BST.cpp:101-108 | visits every value once and the root first |
| SearchTree.PostOrder | BST.cpp:110-117 | visits every value once and the root last |
| SearchTree.Bfs | BST.cpp:119-133 | on a non-empty tree the queue-driven traversal outputs exactly the level-by-level order |
| SearchTree.QueueIsLevelOrder | BST.cpp:121-131 | draining a FIFO queue of subtrees visits them level by level |
| SearchTree.LevelOrderValues | BST.cpp:119-133 | the breadth-first sequence visits every stored value exactly once |
| SearchTree.LevelOrderMembers | BST.cpp:119-133 | a value appears in the breadth-first sequence iff it is stored |
| SearchTree.FoldVisits | BST.cpp:185-190 | folding `op` across the visits from `zero` gives the left fold over the visited sequence |
| SearchTree.BST.Accumulate | BST.cpp:185-190 | on a non-empty tree the answer is the left fold of `op` over the `bfs` sequence |
| SearchTree.AccumulateAddIsSum | BST.cpp:185-190 | with `+`, accumulate gives `zero` plus the sum of the stored values, whatever the visiting order |
| SearchTree.MainTreeShape | BST.cpp:246 | inserting 8, 3, 10, 1, 6, 14, 4, 7, 13 gives the fixture tree |
| SearchTree.MainTreeOrdered | BST.cpp:246 | the fixture tree satisfies the order invariant |
| SearchTree.MainTreeHeight | BST.cpp:246 | the fixture tree has height 4 |
| SearchTree.MainTreeInOrder | BST.cpp:246-247 | the fixture's in-order sequence is 1 3 4 6 7 8 10 13 14 |
| Heap.PriorityQueue.constructor | priority_queue.cpp:79 | an empty queue with size 0 |
| Heap.PriorityQueue.Left | priority_queue.cpp:16-21 | 2i+1, or -1 when `i` or the child is out of range (a negative `i` counts as out of range) |
| Heap.PriorityQueue.Right | priority_queue.cpp:23-28 | 2i+2, or -1 when `i` or the child is out of range |
| Heap.PriorityQueue.Parent | priority_queue.cpp:30-34 | -1 exactly when i <= 0 or i >= size; otherwise (i-1)/2, an index below `i` |
| Heap.PriorityQueue.ParentOfChild | priority_queue.cpp:16-34 | `parent` inverts `left` and `right`, and every in-range parent has its argument as a child |
| Heap.PriorityQueue.LastElt | priority_queue.cpp:36-38 | the index of the vector's last slot, the one `push` has just filled (priority_queue.cpp:85); -1 exactly on an empty vector |
| Heap.PriorityQueue.BetterElt | priority_queue.cpp:40-48 | -1 iff both indices are out of range (unsigned comparison); otherwise the in-range one, and with both in range `e1` iff the two indices are equal or `heap[e1]` is strictly better than `heap[e2]` (so ties between distinct slots go to `e2`); neither argument's entry is better than the result's |
| Heap.Swap | priority_queue.cpp:56 | exchanging two entries keeps the multiset and every other entry |
| Heap.RootIsBest | priority_queue.cpp:98-100 | in a heap no entry is better than the root |
| Heap.SwapUp | priority_queue.cpp:54-57 | swapping an entry with a worse parent moves the only possible violation up to the parent |
| Heap.PriorityQueue.BubbleUp | priority_queue.cpp:50-61 | sifting up from `start` restores the heap invariant, keeps size and the multiset (stopping at the root) |
| Heap.SwapDown | priority_queue.cpp:68-73 | swapping an entry with its better child moves the only possible violation down to that child |
| Heap.DownDone | priority_queue.cpp:66-74 | when no child exists or the better child does not beat the entry, the vector is a heap |
| Heap.PriorityQueue.BubbleDown | priority_queue.cpp:63-76 | sifting down from `start` restores the heap invariant, keeps size and the multiset |
| Heap.PriorityQueue.Push | priority_queue.cpp:81-86 | the queue stays a heap, size grows by one, and the multiset gains `elt` |
| Heap.PriorityQueue.Pop | priority_queue.cpp:88-96 | on a non-empty queue, size drops by one, exactly one copy of the old root leaves, and the heap invariant holds |
| Heap.PriorityQueue.Top | priority_queue.cpp:98-100 | on a non-empty queue, returns the root slot `heap[0]`, a stored element that no stored element is better than |
| Heap.PriorityQueue.Count | priority_queue.cpp:109-111 | equals the length of the vector |
| Heap.PriorityQueue.IsEmpty | priority_queue.cpp:113-115 | true iff the vector is empty |
| Heap.DrainNext | priority_queue.cpp:126-130 | appending the current top to the popped sequence keeps it non-increasing and at least every remaining element |
| Heap.Drain | priority_queue.cpp:126-130 | popping until empty yields a non-increasing permutation of the contents |
| Heap.NonIncreasingUnique | priority_queue.cpp:126-130 | two non-increasing sequences with the same multiset are equal, so the pop order is determined |
| Heap.PushPopExample | priority_queue.cpp:118-133 | with `bubble_up` stopping at the root (see Findings), pushing 1, 2, 10, 11 and popping until empty yields 11, 10, 2, 1 |
| Heap.DrainedExample | priority_queue.cpp:118-133 | the only non-increasing order of {1, 2, 10, 11} is 11, 10, 2, 1 |
| Heap.BubbleUpAsWritten | priority_queue.cpp:50-61 | `bubble_up` as written: a result keeps the multiset; `None` marks the loop reading `heap[-1]` |
| Heap.LoopReadsBeforeRoot | priority_queue.cpp:54-59 | an entry better than all others climbs to index 0 and the loop condition then reads `heap[parent(0)]` |
| Heap.PushNewTopReadsOutOfRange | priority_queue.cpp:81-86 | pushing onto a non-empty heap an element better than the root makes `bubble_up` read out of range |
| Heap.PushTwoOntoOneReadsOutOfRange | priority_queue.cpp:118-121 | pushing 2 onto the queue holding 1 reads out of range |

## Left out

- Printing is not modelled: `display`, `to_ostream`, `operator<<`, `view_debug_info` and the `main` functions only write to the console. The results of the BST.cpp `main` are the `MainTree` lemmas above. The priority_queue.cpp `main` as written has no defined output: its second push reads `heap[-1]` in `bubble_up`, as `Heap.PushTwoOntoOneReadsOutOfRange` shows. `Heap.PushPopExample` gives its output for the corrected queue.
- Heap memory is not modelled. `new` is a fresh arena id. `delete` leaves the unlinked node in the arena, unreachable. Destructors (DoublyLinkedList.cpp:285-287, BST.cpp:224-226) release memory only.
- Fixed-width integers are not modelled. `size_t` and `int` are unbounded, so size and index overflow cannot happen in the model.
- Templates and `std::function` comparators are not modelled. Elements are `int`, with `<`/`==` for the tree and `>` for the heap. So the comparators and equalizers that `swap` exchanges (BST.cpp:235-236) are fixed and equal in both trees.
- BST `operator=` (BST.cpp:159-163) is left out. It returns `this` where a reference is required, so it does not compile once instantiated.
- The assertions at priority_queue.cpp:84 and 94 are taken as enabled. Their increment and decrement of `size` happen in the model. Under `NDEBUG` they would not.
- `node_at_index` walks with `--index + 1` on an unsigned counter (DoublyLinkedList.cpp:35). It is modelled as walking `index` steps from `head`, or `size - index - 1` steps back from `tail`.
- The copy constructor, `accumulate` and `to_ostream` of `BST` need a non-empty tree, because `bfs` pushes and dereferences the root unconditionally (BST.cpp:119-126). `SearchTree.Bfs`, `SearchTree.BST.Accumulate` and `SearchTree.BST.Copy` carry that precondition.
- `PriorityQueue::top` on an empty queue is an unchecked read in the source. `Heap.PriorityQueue.Top` requires a non-empty queue.
- `Heap.PriorityQueue.Pop` requires a non-empty queue. The source's check is an `assert`.
- `operator[]` throws a string literal on a bad index. `LinkedList.DLL.Get` returns that message as an error result. Writing through the returned reference is what `LinkedList.DLL.Replace` models.
- The stale `tail` of an emptied list (DoublyLinkedList.cpp:181) is not constrained: `Valid` places no demand on `tail` while `size` is 0, and no operation reads it then.
- `LinkedList.Swap` also exchanges the two arenas. Each list owns its nodes here, whereas the source exchanges only `head`, `tail` and `size` and the nodes move with them.
- The three-way branch of the merge loop (DoublyLinkedList.cpp:75-96) is modelled as the equivalent two-way choice: take the left element when the right run is exhausted or the left value is strictly smaller.
- LinkedList.DLL.MergeSort: its guarantee on a sub-range is stated up to position b+1, not b, because a one-node range compares and may swap with the node after it (DoublyLinkedList.cpp:46-49, 108). Only the whole-list call in `sort` is fully confined.
- LinkedList.DLL.Sort: it is not claimed stable, because ties take the right-half element (DoublyLinkedList.cpp:77-84).

## Findings

| source | as written | input that shows it | evidently intended | confidence | as-written member | corrected member |
|---|---|---|---|---|---|---|
| priority_queue.cpp:54-59 | once the element reaches index 0, the loop condition evaluates `heap[parent(0)]`, which is `heap[-1]`; the `i == -1` guard after it never fires | push 1, then push 2 | stop sifting up at the root | high (not executed) | Heap.PushTwoOntoOneReadsOutOfRange | Heap.PriorityQueue.BubbleUp |
| DoublyLinkedList.cpp:222 | the scan stops when `j1 == j2`, so the middle node of an odd-length list is never compared | `contains(5)` on the list `[5]` answers false | also compare the node where the cursors meet | high (not executed) | LinkedList.ContainsMissesSingleton | LinkedList.DLL.ContainsCorrected |
| DoublyLinkedList.cpp:236 | the loop stops when `start == end->previous`, so the middle pair of an even-length list is never compared | `is_sorted()` on the list `[2, 1]` answers true | also compare the pair where the cursors meet | high (not executed) | LinkedList.IsSortedPassesDescendingPair | LinkedList.DLL.IsSortedCorrected |
