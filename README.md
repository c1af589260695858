# Binary search tree engine of week5HW

This project models the binary-search-tree engine of `week5HW/src/main.c` and proves
properties of the model. The engine has these parts:

- `addNode` creates a leaf.
- Two insertions: `node_insert_iter` walks down with a parent/current pointer pair, and
  `node_insert_recur` re-links each child to the subtree returned from below.
- Two in-order traversals that count the nodes they visit: `inorder_recur` and
  `inorder_iter`, which uses a caller-supplied array as an explicit stack.
- The structural queries `get_node_count` (leaves or all nodes), `get_tree_height` and its
  helper `bigger`.
- `free_TreeNode`, which releases a tree in post-order.

The model has three modules.

- `Trees` (`trees.dfy`): the abstract tree `Nil | Node(left, key, right)` with its key set,
  the search-tree order `IsBST`, the in-order key sequence, node and leaf counts, and the
  reference insertion `Insert`. Both pointer insertions are proved to implement `Insert` on a
  search tree (and, for `node_insert_iter`, for a key not yet present).
- `Queries` (`queries.dfy`): `bigger`, `get_node_count` and `get_tree_height`. These are
  expression-only functions in the source, so here they are functions over `Tree`.
- `NodeHeap` (`node_heap.dfy`): the pointer code.
  - Heap memory is a sequence of `TreeNode(data, left, right)` records held by
    class `Heap`. A pointer is a slot number, NULL is -1, and `malloc` takes the next free
    slot.
  - Every link points to a slot allocated after its parent (`WellLinked`). This rules out
    cycles and gives every descent a measure.
  - `TreeAt(mem, p)` reads the abstract tree at `p`.
  - The global counters `recur_count` and `iter_count` become an accumulator: the methods
    take the counter in and return the new value.
  - The traversals also return a ghost record of the nodes they visit, in order.
  - `free_TreeNode` returns the slots it releases, in release order.

Two behaviours of the code shape the model:
- `node_insert_recur` leaves the tree unchanged when the key is already present, while
  `node_insert_iter` never leaves its search loop on such a key (see Findings).
- The last pass of `inorder_iter` pops before it tests, so it reads `stack[-1]`. The model
  stops at the empty stack instead (see Left out).

## Model

| member | source | states |
|---|---|---|
| Trees.Insert | week5HW/src/main.c:116-127 | the key set after inserting v is the old key set plus v, and the result is never empty |
| Trees.InsertKeepsBST | week5HW/src/main.c:116-127 | inserting into a search tree gives a search tree |
| Trees.InsertSize | week5HW/src/main.c:119-126 | in a search tree, a key already present leaves the tree unchanged; a new key adds exactly one node |
| Trees.BuildTree | week5HW/src/main.c:116-127 | inserting a sequence of keys one by one yields a tree whose key set is exactly the keys of the sequence |
| Trees.BuildTreeIsBST | week5HW/src/main.c:116-127 | a tree built by insertions from empty is a search tree |
| Trees.InOrderAscending | week5HW/src/main.c:134-139 | a search tree lists its keys in strictly ascending order |
| Trees.AscendingInOrderIsBST | week5HW/src/main.c:134-139 | conversely, a tree whose in-order keys strictly ascend is a search tree |
| Trees.BuiltTreeListsAscending | week5HW/src/main.c:116-139 | a tree built by insertions lists exactly the inserted keys, strictly ascending, so each only once |
| Trees.Leaves | week5HW/src/main.c:179-185 | the leaf count never exceeds the node count, and it is 0 exactly for the empty tree |
| Trees.InOrder | week5HW/src/main.c:134-139 | the in-order sequence has one entry per node and holds exactly the tree's keys |
| Queries.Bigger | week5HW/src/main.c:167-170 | the result is at least both arguments and is one of them |
| Queries.NodeCount | week5HW/src/main.c:179-185 | mode all_node (1) counts every node; mode terminal_node (0) counts the leaves |
| Queries.NodeCountByMode | week5HW/src/main.c:179-185 | for any mode, each leaf counts once and each inner node counts `mode` times |
| Queries.TreeHeight | week5HW/src/main.c:193-199 | the height is 0 exactly for the empty tree and never exceeds the node count |
| Queries.PathShorterThanHeight | week5HW/src/main.c:193-199 | every root-to-node path has fewer links than the height |
| Queries.DeepestPath | week5HW/src/main.c:193-199 | some root-to-node path of a non-empty tree has exactly as many nodes as the height |
| Queries.InsertAboveChain | week5HW/src/main.c:116-127 | inserting a key above every key of a right chain extends the chain by one node and one level |
| Queries.AscendingBuildHeight | week5HW/src/main.c:179-199 | inserting a strictly ascending sequence gives a right chain whose height and size equal the sequence length, with a single leaf when non-empty |
| Queries.DuplicateDroppedExample | week5HW/src/main.c:116-127 | inserting 5, 3, 8, 3, 1 gives 4 nodes, in-order keys 1, 3, 5, 8, height 3 and 2 leaves |
| NodeHeap.Nodes | week5HW/src/main.c:53-57 | the slots reachable from a pointer include it and lie at or after it |
| NodeHeap.NodesHoldKeys | week5HW/src/main.c:53-57 | each reachable node's key is a key of the tree at that pointer |
| NodeHeap.ChildrenDisjoint | week5HW/src/main.c:116-127 | in a search tree the two subtrees of a node share no node and do not reach back to it |
| NodeHeap.TreeAtFrame | week5HW/src/main.c:116-127 | a tree is unchanged by writes to slots it does not reach |
| NodeHeap.SearchEnd | week5HW/src/main.c:88-99 | the search from a non-NULL pointer ends on one of its reachable nodes, and only an empty tree gives NULL |
| NodeHeap.ContainsIffKey | week5HW/src/main.c:88-99 | in a search tree, the search meets a node holding v exactly when v is a key of the tree |
| NodeHeap.LinkWellLinked | week5HW/src/main.c:65-71 | hanging a fresh leaf keeps every link pointing forward and puts the leaf in the new last slot |
| NodeHeap.LinkIsInsert | week5HW/src/main.c:100-106 | hanging the new leaf below the last node the search visits performs the reference insertion |
| NodeHeap.AttachIsInsert | week5HW/src/main.c:79-127 | in a search tree, the heap both insertions leave behind holds the reference insertion at the returned root |
| NodeHeap.Descend | week5HW/src/main.c:88-99 | one pass of the search loop exits only at a NULL link, with the parent set to the node left behind |
| NodeHeap.DuplicateNeverExits | week5HW/src/main.c:88-99 | when the key is present, the search loop has not exited after any number of passes |
| NodeHeap.InOrderPtrs | week5HW/src/main.c:134-139 | the in-order visit has one entry per node, each an allocated slot |
| NodeHeap.PostOrderPtrs | week5HW/src/main.c:207-212 | the post-order release covers exactly the nodes reachable from the root |
| NodeHeap.InOrderPtrsKeys | week5HW/src/main.c:134-139 | the keys met along the in-order visit are the tree's in-order keys |
| NodeHeap.InOrderVisitAscends | week5HW/src/main.c:134-139 | over a search tree, the in-order visit meets strictly ascending keys |
| NodeHeap.SearchTreeIsTreeShaped | week5HW/src/main.c:116-127 | below a search tree no node is reachable along two paths |
| NodeHeap.InOrderEachOnce | week5HW/src/main.c:134-139 | in a heap without sharing, the in-order visit meets each reachable node exactly once and no other |
| NodeHeap.PostOrderEachOnce | week5HW/src/main.c:207-212 | in a heap without sharing, the post-order release frees each reachable node exactly once and no other |
| NodeHeap.InOrderVisitsEachOnce | week5HW/src/main.c:134-139 | over a search tree, the in-order visit meets each reachable node exactly once |
| NodeHeap.PostOrderReleasesEachOnce | week5HW/src/main.c:207-212 | over a search tree, free_TreeNode releases each reachable node exactly once |
| NodeHeap.PostOrderChildrenFirst | week5HW/src/main.c:207-212 | a node is released only after both of its children |
| NodeHeap.PushLeft | week5HW/src/main.c:152-153 | pushing the current node and moving left keeps each stacked node within the height budget |
| NodeHeap.PushOwes | week5HW/src/main.c:152-153 | pushing the current node and moving left leaves the rest of the visit unchanged |
| NodeHeap.PopRight | week5HW/src/main.c:154-157 | popping the top node and moving right keeps the height budget |
| NodeHeap.PopOwes | week5HW/src/main.c:154-157 | popping hands over the top node followed by its right subtree |
| NodeHeap.SpineFits | week5HW/src/main.c:152-153 | pushing the whole left spine of a node keeps every stacked node within the height budget |
| NodeHeap.SpineOwes | week5HW/src/main.c:152-153 | pushing the whole left spine of a node leaves the rest of the visit unchanged, now owed entirely by the stack |
| NodeHeap.PushStep | week5HW/src/main.c:152-153 | one run of the inner loop keeps the height budget and the visit still owed |
| NodeHeap.PopStep | week5HW/src/main.c:154-157 | one pop visits the top node, continues at its right child with the height budget kept, and leaves fewer nodes owed |
| NodeHeap.Pop | week5HW/src/main.c:154 | `stack[top--]` returns the top entry, and the live part of the array becomes the stack below it |
| NodeHeap.RelinkOnPath | week5HW/src/main.c:119-126 | storing the subtree returned from below back into the link on v's side completes the insertion one level up |
| NodeHeap.Heap.AddNode | week5HW/src/main.c:65-71 | appends a node holding data with both links NULL in the next slot and returns that slot |
| NodeHeap.Heap.InsertIter | week5HW/src/main.c:79-107 | for a key the search misses, the heap becomes Attach of the old heap: an empty tree gets the new node as root, otherwise the leaf hangs from the last node visited; on a search tree the result is the reference insertion |
| NodeHeap.Heap.InsertIterFixed | week5HW/src/main.c:79-107 | with the missing exit added, the same result for every key, a present key leaving the heap unchanged |
| NodeHeap.Heap.InsertRecur | week5HW/src/main.c:116-127 | the heap becomes the same Attach of the old heap as InsertIter gives, so both build the same shape; a present key changes nothing; on a search tree the result is the reference insertion |
| NodeHeap.Heap.InorderRecur | week5HW/src/main.c:134-139 | visits the nodes in in-order and raises the counter by the node count |
| NodeHeap.Heap.PushLeftSpine | week5HW/src/main.c:152-153 | the live stack afterwards is the old one followed by the node's left spine (the node first, its leftmost descendant on top), and the top index stays below the height budget |
| NodeHeap.Heap.InorderIter | week5HW/src/main.c:147-159 | with a stack of at least the tree's height, visits the same sequence as InorderRecur and raises the counter by the node count, so an empty tree adds 0 |
| NodeHeap.Heap.FreeTree | week5HW/src/main.c:207-212 | releases the nodes in post-order: left subtree, right subtree, then the node |

## Left out

- `main` and `testing` (week5HW/src/main.c:221-340) are not part of this model. They hold
  file reading, console output, `clock()` timing and floating-point averages. This includes
  printing the two traversal counts under swapped labels.
- Allocation failure: `malloc` in `addNode` is unchecked in the source. `AddNode` always
  succeeds, and memory is unbounded.
- The act of freeing: Dafny has no deallocation. `FreeTree` returns the released slots in
  release order, and the slots stay in the sequence.
- The global counters `recur_count` and `iter_count` as shared state, and their accumulation
  across the 1000 trials. They become the `count` argument and the `newCount` result.
- NodeHeap.Heap.InorderIter: the source pops before testing for an empty stack, so its final
  pass reads `stack[-1]` and then compares `top` with -2. The model instead stops when the
  stack is empty and the current node is NULL, which reaches the same count.
- NodeHeap.Heap.InorderIter: requires a stack at least as long as the tree's height. The
  source's caller supplies a fixed 200 slots and never checks.
- NodeHeap.Heap.PushLeftSpine: the inner `for` loop of inorder_iter is a method of its own
  with the same loop. Likewise the pop `temp = stack[top--]` is the method Pop. Both are
  called from the outer loop, which keeps each proof small.
- NodeHeap.Heap.InsertIter: requires that the search misses the key. On a present key the
  source does not terminate, which a method proved to terminate cannot express. That case is
  stated by DuplicateNeverExits instead.
- Integer width: keys are compared and never combined, so 32-bit `int` keys need no wrap-around.
  The counters are unbounded integers, and C `int` overflow of the accumulated counts is not
  modelled.
- Aliasing through C pointers: nodes are slots of one sequence, and writes go through the
  `Heap` object. The absence of sharing below a search tree is proved (SearchTreeIsTreeShaped),
  not assumed.

## Findings

| source | as written | input that shows it | evidently intended | confidence | as-written member | corrected member |
|---|---|---|---|---|---|---|
| week5HW/src/main.c:88-99 | when the current node holds `data`, neither branch of the search loop fires, `c` never changes and the loop never exits | a tree with root key 5, insert 5 | a duplicate key is ignored and the tree is left unchanged, as `node_insert_recur` does | not executed | NodeHeap.DuplicateNeverExits | NodeHeap.Heap.InsertIterFixed |
