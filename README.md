# Breadth-first traversal and the singly linked list of the algorithm toolkit

The toolkit in `git.c` is a menu-driven collection of classic algorithm demos. This
project models two of its parts in Dafny and proves what they promise:

- **Breadth-first search over the adjacency matrix** (`bfs`). The search uses a queue
  array of `MAX_NODES` (100) entries whose `front` and `rear` counters start at -1. It
  keeps a local `visited` array, dequeues a node, and scans that node's row in
  increasing column order. It enqueues every column whose entry is exactly 1 and that
  has not been visited yet. `Traversal.Bfs` does the same on an `array2<int>` matrix and
  an `array<int>` queue, and returns the printed node ids as a sequence.
  `BfsSpec.BfsOrder` describes the same traversal on values. The lemmas about it prove
  four things:
  - it starts with the start node and emits no node twice;
  - it emits exactly the nodes reachable from the start;
  - it emits them in breadth-first order: by the position of the first emitted node
    with an edge to them, and by increasing id among nodes found by the same node;
  - the queue never holds more than `totalNodes` entries, so it never overflows.
- **The singly linked list** (`createNode`, `insertAtEnd`, `deleteNode`).
  - `LinkedList.Node` is the heap node.
  - `LinkedList.List` holds the list's head pointer, which the C functions update
    through `Node**`. Its ghost fields `Nodes`, `Contents` and `Repr` describe the chain.
  - Insertion walks to the node whose `next` is null and links a fresh node there, or
    makes the fresh node the head of an empty list.
  - Deletion unlinks the first node holding the key: from the head, or after its
    predecessor found by the `prev`/`temp` walk. It reports whether the key was found.
  - Both are proved against `ListSpec.RemoveFirst` and sequence append.

The specification functions carry no contract of their own; the lemmas in the table
state what they mean:
- `BfsSpec.Scan`: the scan of one row, git.c:280-285;
- `BfsSpec.BfsFrom`: the dequeue loop from a given queue and front, git.c:276-286;
- `BfsSpec.BfsOrder`: the whole search from the start node, git.c:269-288;
- `ListSpec.RemoveFirst`: deletion on the sequence of values, git.c:189-205.

Modules: `Graph` (matrix snapshot, edges, paths, counting lemmas), `BfsSpec` (the
traversal as a function of the matrix and its properties), `Traversal` (the imperative
search), `ListSpec` (deletion on sequences), `LinkedList` (the heap list).

## Model

| member | source | states |
|---|---|---|
| Traversal.Bfs | git.c:269-288 | with the start node below totalNodes and totalNodes at most MAX_NODES, the emitted sequence is BfsOrder of the loaded matrix; queue indices stay in bounds, and neither the matrix nor anything else that already exists is changed (no modifies clause) |
| Traversal.ScanRow | git.c:280-285 | the row scan enqueues, and marks visited, exactly what Scan appends, keeping rear below MAX_NODES; visited[v] holds exactly when v is in the queue |
| BfsSpec.ScanAppends | git.c:280-285 | a row scan only appends to the queue; what it appends are the not-yet-queued columns with an entry equal to 1, in increasing order; a node is in the result iff it was queued or is such a neighbour |
| BfsSpec.ScanDistinct | git.c:281-284 | a row scan never queues a node twice and only queues node ids below totalNodes |
| BfsSpec.BfsFromStep | git.c:276-286 | one dequeue-and-scan step keeps the queue duplicate-free, within totalNodes entries, and leaves what remains to be emitted unchanged |
| BfsSpec.BfsFromGrows | git.c:276-286 | the traversal only appends to the queue, keeps it duplicate-free, and never holds more than totalNodes nodes |
| Graph.DistinctBounded | git.c:270-282 | at most n distinct node ids lie below n, which is why `queue[++rear]` stays within the array |
| BfsSpec.BfsFromSound | git.c:276-286 | when every queued node is reachable from the start, so is every node the traversal goes on to emit |
| BfsSpec.ClosedStep | git.c:277-285 | after a node is dequeued and its row scanned, all its neighbours are in the queue |
| BfsSpec.BfsFromClosed | git.c:276-286 | when the queue is exhausted, every emitted node has all its neighbours emitted |
| BfsSpec.ClosedHoldsWalk | git.c:276-286 | a walk starting inside a neighbour-closed set of nodes stays inside it |
| BfsSpec.BfsOrderShape | git.c:273-278 | the traversal emits the start node first, at most totalNodes nodes, all distinct node ids |
| BfsSpec.BfsOrderReachable | git.c:269-288 | a node is emitted if and only if it is reachable from the start node along entries equal to 1 |
| BfsSpec.FirstParentFromIs | git.c:280-281 | FirstParentFrom finds the first queue position from i on holding a node with an edge to x |
| BfsSpec.ParentIs | git.c:280-281 | the first queue position holding a node with an edge to x is x's parent |
| BfsSpec.ParentExtend | git.c:282 | enqueuing more nodes does not change a parent already in the queue |
| BfsSpec.BeforeChain | git.c:276-285 | breadth-first order between neighbouring positions extends to any two positions |
| BfsSpec.LeveledStep | git.c:276-285 | one dequeue step keeps the queue in breadth-first order: the appended nodes have the dequeued node as parent and come by increasing id |
| BfsSpec.BfsFromLeveled | git.c:276-286 | the whole traversal keeps the queue in breadth-first order |
| BfsSpec.BfsOrderLeveled | git.c:276-285 | every emitted node after the start has its parent emitted before it, with an edge to it; emitted nodes are ordered by parent position, and by increasing id among those with the same parent (FIFO, lowest id first) |
| BfsSpec.BfsOrderExample | git.c:269-288 | four nodes with edges 0->1, 0->2, 1->3, start 0: the order is 0, 1, 2, 3 |
| BfsSpec.BfsOrderIsolated | git.c:269-288 | three nodes, no edges, start 0: only 0 is emitted |
| BfsSpec.BfsOrderComponent | git.c:269-288 | two components {0,1} and {2,3,4}, start 0: only 0 and 1 are emitted |
| LinkedList.Node.constructor | git.c:164-173 | a new node holds the given data and a null next pointer |
| LinkedList.List.constructor | git.c:129 | the menu's list starts with a null head: no values |
| LinkedList.List.InsertAtEnd | git.c:176-186 | the list stays a well-formed null-terminated chain, its values become the old values followed by data, its nodes become the old nodes in order followed by exactly one fresh node, the footprint grows by that node alone, and a non-empty list keeps its head |
| LinkedList.List.DeleteNode | git.c:189-206 | the list stays a well-formed chain, its values become the old values without the first occurrence of key, found is true exactly when the key was present (false is the "Node not found!" case); when it was, exactly the node at the first occurrence of key is unlinked, the other nodes keep their order, and that node alone leaves the footprint; otherwise nodes and footprint are unchanged |
| LinkedList.List.Find | git.c:196-199 | the prev/temp walk ends with temp null exactly when no node holds key; otherwise temp holds key and its position is FirstIndex, the first occurrence of key, and prev is the node before it (null at the head) |
| LinkedList.List.UnlinkHead | git.c:191-194 | moving the head past the first node drops the first value and that node |
| LinkedList.List.Unlink | git.c:204-205 | pointing prev past temp drops value i and node i and keeps the head |
| ListSpec.RemoveFirstAbsent | git.c:196-202 | deleting a key that is not in the list leaves the list as it was |
| ListSpec.RemoveFirstAt | git.c:189-205 | deleting removes exactly the first position holding the key, keeping the order of everything before and after |
| ListSpec.RemoveFirstCount | git.c:189-205 | deleting a present key removes exactly one copy and shortens the list by one; an absent key changes nothing |
| ListSpec.FirstIndex | git.c:196-199 | the position found is the first occurrence of the key |
| ListSpec.InsertThenDelete | git.c:176-205 | inserting a value not yet in the list and then deleting it gives back the list |
| ListSpec.DeleteAfterInsert | git.c:176-205 | inserting after the list already holds the key does not change which copy a later delete removes |

## Left out

- The menus (`extendedMenu`, `linkedListMenu`, `graphMenu`, git.c:73-266), their `scanf`
  input, and `displayLinkedList` (git.c:209-221): the model is the operations they call.
  The matrix the graph menu reads is a parameter of `Traversal.Bfs`, not the global
  `graph` array.
- `printf` output. The nodes `bfs` prints are returned as a sequence. The "Node not
  found!" message of `deleteNode` is the `false` result of `DeleteNode`.
- `malloc` failure and `exit` in `createNode` (git.c:166-169): allocation in Dafny
  cannot fail.
- `free` (git.c:193, 205): an unlinked node leaves the list's footprint `Repr`, but its
  release is not modelled.
- `dfs`, `solveMaze`, `displayMazeSolution` and the tree, statistics, text, hangman,
  shell and memory functions: the file declares them but has no bodies for them, so
  there is nothing to model.
- Traversal.Bfs: a start node outside 0..totalNodes-1, or totalNodes above MAX_NODES,
  is not modelled; these are caller errors. What the C does in those cases:
  - with totalNodes <= 0 it prints only the start node, because the row scan never runs;
  - a start node below 0 or at least MAX_NODES writes outside `visited` and reads
    outside `graph`;
  - a start node in totalNodes..MAX_NODES-1 follows a row the menu did not load;
  - totalNodes above MAX_NODES reads past each row and past `visited`, and the queue
    can overflow.
- Traversal.Bfs: the global `visited` array is shadowed by the function's local one.
  Because the model has no global state, "the global array is unchanged" is implicit.
- BfsSpec.BfsOrderLeveled: the order is stated through each node's parent (the first
  emitted node with an edge to it). The model does not define shortest-path distance,
  so "non-decreasing distance from the start" is not stated as such.
- Integer width: node data and matrix entries are unbounded integers. The C only
  compares them, so 32-bit `int` makes no difference.
