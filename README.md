# Data structures and graph algorithms, modelled in Dafny

This project models the core of a Java teaching library of data structures and
graph algorithms, and proves properties of the model. It covers:

- **Containers**:
  - a circular-array deque that resizes itself (`ResizingDequeImpl`);
  - a binary min-heap with a value-to-index map that supports `decreaseKey` (`BinaryMinHeap`);
  - a disjoint-set forest with path compression and union by rank (`UnionFind`).
- **Graphs**:
  - an undirected graph with `int` weights (`Graph`);
  - a weighted directed graph with mirrored out- and in-lists (`WDGraph`);
  - the constant-time transposed view of a `WDGraph` (`ConnectedComponents.TransposeGraph`).
- **Algorithms** on those graphs:
  - breadth-first shortest paths (`BFS`);
  - reverse finishing order and reachable sets by depth-first search (`DFS`);
  - Dijkstra's shortest paths over the library's own heap (`Dijkstra`);
  - Kruskal's spanning forest over the library's own union-find (`Kruskal`);
  - strongly connected components by Kosaraju's two passes (`ConnectedComponents`);
  - widest paths by negating the weights, then running Kruskal and BFS (`WidestPath`).
- **Associative containers**:
  - a separately chained hash map with a power-of-two table (`HashMap`);
  - a trie keyed by lowercase strings (`TrieMap`).

There is one Dafny module per Java class. `wrappers.dfy` holds the shared
`Option`, `Result` and `Outcome` types: `null` becomes `None`, and a thrown
exception becomes a `Failure` that names its kind (IllegalArgument,
NoSuchElement, NullPointer, IndexOutOfBounds, NegativeArraySize).
`vertexsets.dfy` holds facts about sets of vertex ids that several algorithms share.

Where the Java code changes state in place, the model does too. Each such
class has its fields and a `Valid()` invariant, and its methods carry
`modifies` clauses. Every method is proved against a specification function
or a predicate on the state. The properties are proved about those
functions:

- heap order and the exactness of the index map;
- union-find roots and partitions;
- mirroring of the directed graph's lists;
- shortest and least-weight paths;
- the spanning-forest invariant of Kruskal's loop;
- the partition into strongly connected components;
- the map each hash table or trie represents.

The model follows the code where the code and its documentation disagree:

- `ResizingDequeImpl` is modelled statement by statement in `ResizingDeques`, bugs included. A set of lemmas exhibits those bugs (see Findings). `CircularDeques` is the deque the class sets out to be, proved to keep its contents in order. The breadth-first search uses it as its queue: on the deque as written, a search over a star graph already polls a `null` vertex.
- `BFS.getShortestPath` unboxes the parent of an unreachable `tgt` before its null test, so an unreachable target throws NullPointerException. The documentation promises an empty list.
- `Dijkstra.getShortestPath` returns `[src]` when `src == tgt`, and throws NullPointerException for an unreachable target. The documentation promises an empty list in both cases.
- The bounds checks of `DFS` and `Dijkstra` test `src > getSize()`, so `src == getSize()` gets through and fails at an array access. In particular the strongly connected components of a graph with no vertices fail.
- `UnionFind.union` chooses the surviving root by comparing the ranks of `u` and `v`, not those of their roots.
- The constructors of `Graph` and `WDGraph` do not check a negative size. Allocating the arrays then fails with NegativeArraySizeException.
- The transposed view overrides neither `hasEdge` nor the fields that `dfsReverseFinishingTime` reads, so both dereference its missing lists.
- `WidestPath` leaves the weights of its input graph negated.
- `TrieMap`:
  - validates only the first character of a key, once per character;
  - starts with a root whose children array is not allocated;
  - never reaches the branch of `remove` that would prune a subtree, because the parent of the key's node always has that node as a child.

## Model

| member | source | states |
|---|---|---|
| ResizingDeques.Fresh | ResizingDequeImpl.java:10-12 | a new deque has an array of length 2, null `head`/`tail`, and size 0 |
| ResizingDeques.SizeOf | ResizingDequeImpl.java:15-26 | `size()` lies between 0 and the array length; a non-empty window with `head <= tail` counts at least one element unless `head == tail` holds as a reference comparison of boxed `Integer`s (only for -128..127) on a null slot |
| ResizingDeques.Nones | ResizingDequeImpl.java:63 | a freshly allocated Java array of length n holds only nulls |
| ResizingDeques.WrapCopy | ResizingDequeImpl.java:70-79 | the array built by the wrapped branch of `resizeArray`: the part from `head` to the end lands at the front, the second loop copies `temp[i]` to `i + head` for its range, and every other slot stays null |
| ResizingDeques.Resized | ResizingDequeImpl.java:58-82 | `resizeArray(x)` leaves a length-2 array alone when shrinking; otherwise the result has head 0, tail at least -1, room after the tail when growing, the old window copied to the front in order (only its part from `head` to the array end when it wraps), and the only failure is an out-of-bounds index |
| ResizingDeques.AddFirstOf | ResizingDequeImpl.java:38-56 | after a successful `addFirst(e)` the slot at `head` holds `e` and the deque is started |
| ResizingDeques.AddLastOf | ResizingDequeImpl.java:85-101 | a successful `addLast(e)` leaves the deque started with a well-formed array; its errors are out-of-bounds indices |
| ResizingDeques.TakeFirst | ResizingDequeImpl.java:108-117 | the removal step of `pollFirst` keeps the array length and the state well formed |
| ResizingDeques.PollFirstOf | ResizingDequeImpl.java:104-122 | `pollFirst()` throws NoSuchElement exactly when `size()` is 0 and otherwise returns the slot at `head` |
| ResizingDeques.TakeLast | ResizingDequeImpl.java:129-131 | the removal step of `pollLast` keeps the array length and the state well formed |
| ResizingDeques.PollLastOf | ResizingDequeImpl.java:125-136 | `pollLast()` throws NoSuchElement when `size()` is 0 and otherwise returns the slot at `tail` |
| ResizingDeques.PeekFirstOf | ResizingDequeImpl.java:139-144 | `peekFirst()` throws NoSuchElement exactly when `size()` is 0 and otherwise returns the slot at `head` |
| ResizingDeques.PeekLastOf | ResizingDequeImpl.java:147-152 | `peekLast()` throws NoSuchElement when `size()` is 0, fails with an index error when `tail` is negative, and otherwise returns the slot at `tail` |
| ResizingDeques.IterationOf | ResizingDequeImpl.java:155-175 | the iterator dereferences a null `head` before any insertion; a walk it completes is shorter than the array |
| ResizingDeques.WalkShort | ResizingDequeImpl.java:155-175 | the iterator's walk from `head` stops before `tail`: with `head <= tail` it yields exactly `arr[head..tail)` |
| ResizingDeques.WalkLength | ResizingDequeImpl.java:157-173 | the walk from `i` to `tail` takes `tail - i` steps, or wraps once around the array |
| ResizingDeques.WalkLoop | ResizingDequeImpl.java:157-173 | calling `next()` while `hasNext()` holds returns exactly the walk of `WalkShort` |
| ResizingDeques.AddFirstThenPeekFirst | ResizingDequeImpl.java:38-56 | whenever `addFirst(e)` succeeds, `peekFirst()` returns `e` |
| ResizingDeques.BfsQueueOverrun | ResizingDequeImpl.java:85-100 | in the queue of a breadth-first search over 0-1, 0-2, 0-3, 1-4, 2-5, after 0, 1 and 2 are polled the state is `[null, null, 3, 4]` with head 2 and tail 3, and `addLast(5)` fails on index 4 |
| ResizingDeques.StarGraphQueue | ResizingDequeImpl.java:104-122 | in the queue of a breadth-first search over the star 0-1, 0-2, after three polls the deque reports size 2 and the next poll returns null |
| ResizingDeques.AddLastThenAddFirstFails | ResizingDequeImpl.java:44-49 | `addLast(1)` then `addFirst(2)` writes to index -1 |
| ResizingDeques.AddLastLosesElements | ResizingDequeImpl.java:90-92 | `addFirst(1)`, `addLast(2)`, `pollLast()`, `addLast(3)` leaves two elements in the array but `size()` 0 |
| ResizingDeques.WrappedGrowFails | ResizingDequeImpl.java:75-76 | growing a full wrapped window of length 4 with `head` 3 indexes the old array at -2 |
| ResizingDeques.IterationSkipsTail | ResizingDequeImpl.java:160-162 | after `addLast(1)`, `addLast(2)` the iterator yields only 1 |
| ResizingDeques.ResizingDequeImpl.constructor | ResizingDequeImpl.java:10-12 | the object starts in the state `Fresh` |
| ResizingDeques.ResizingDequeImpl.Size | ResizingDequeImpl.java:15-26 | `size()` is `SizeOf` of the current state and at most the array length |
| ResizingDeques.ResizingDequeImpl.PeekFirst | ResizingDequeImpl.java:139-144 | agrees with `PeekFirstOf` on the current state |
| ResizingDeques.ResizingDequeImpl.PeekLast | ResizingDequeImpl.java:147-152 | agrees with `PeekLastOf` on the current state |
| ResizingDeques.ResizingDequeImpl.GetArray | ResizingDequeImpl.java:29-35 | the copy loop returns the array's contents, slot for slot |
| ResizingDeques.ResizingDequeImpl.AddFirst | ResizingDequeImpl.java:38-56 | the in-place update fails exactly when `AddFirstOf` does, with the same error, and otherwise reaches its state |
| ResizingDeques.ResizingDequeImpl.AddLast | ResizingDequeImpl.java:85-101 | the in-place update fails exactly when `AddLastOf` does, with the same error, and otherwise reaches its state |
| ResizingDeques.ResizingDequeImpl.PollFirst | ResizingDequeImpl.java:104-122 | fails exactly when `PollFirstOf` does and otherwise returns its value and reaches its state |
| ResizingDeques.ResizingDequeImpl.RemoveFirst | ResizingDequeImpl.java:108-117 | clears the head slot in place, returns it, and reaches `TakeFirst` |
| ResizingDeques.ResizingDequeImpl.PollLast | ResizingDequeImpl.java:125-136 | fails exactly when `PollLastOf` does and otherwise returns its value and reaches its state |
| ResizingDeques.ResizingDequeImpl.RemoveLast | ResizingDequeImpl.java:129-131 | clears the tail slot in place, returns it, and reaches `TakeLast` |
| ResizingDeques.ResizingDequeImpl.Iterate | ResizingDequeImpl.java:155-175 | drives the iterator to the end and returns `IterationOf` of the current state |
| ResizingDeques.ResizingDequeImpl.ResizeArray | ResizingDequeImpl.java:58-82 | fails exactly when `Resized` does, always with an index error, and otherwise installs its state |
| ResizingDeques.ResizedCopy | ResizingDequeImpl.java:62-81 | the copy loops of `resizeArray` build exactly the array, head and tail of `Resized`, or fail where it fails |
| ResizingDeques.CopyStraight | ResizingDequeImpl.java:65-69 | copies `temp[head..tail]` to the front of the new array, failing exactly when it does not fit |
| ResizingDeques.CopyWrapped | ResizingDequeImpl.java:70-79 | both wrapped copy loops together produce `WrapCopy`, failing exactly when an index leaves either array |
| CircularDeques.CircularDeque.constructor | ResizingDequeImpl.java:10-12 | a new deque is empty with an array of length 2 |
| CircularDeques.CircularDeque.Size | ResizingDequeImpl.java:15-26 | `size()` is the number of elements held, at most the array length |
| CircularDeques.CircularDeque.PeekFirst | ResizingDequeImpl.java:139-144 | NoSuchElement exactly when empty, else the front element |
| CircularDeques.CircularDeque.PeekLast | ResizingDequeImpl.java:147-152 | NoSuchElement exactly when empty, else the back element |
| CircularDeques.CircularDeque.Resize | ResizingDequeImpl.java:58-82 | copies the window in order to the front of a new power-of-two array; the contents are unchanged |
| CircularDeques.CircularDeque.AddFirst | ResizingDequeImpl.java:38-56 | the contents become `[e] + old contents` |
| CircularDeques.CircularDeque.AddLast | ResizingDequeImpl.java:85-101 | the contents become `old contents + [e]` |
| CircularDeques.CircularDeque.PollFirst | ResizingDequeImpl.java:104-122 | NoSuchElement exactly when empty and contents unchanged; otherwise returns the front and the rest remains in order |
| CircularDeques.CircularDeque.DropFirst | ResizingDequeImpl.java:108-117 | removes the front element in place |
| CircularDeques.CircularDeque.ShrinkIfSparse | ResizingDequeImpl.java:118-120 | halving the array when at most a quarter full keeps the contents |
| CircularDeques.CircularDeque.PollLast | ResizingDequeImpl.java:125-136 | NoSuchElement exactly when empty and contents unchanged; otherwise returns the back and the rest remains in order |
| CircularDeques.CircularDeque.DropLast | ResizingDequeImpl.java:129-131 | removes the back element in place |
| CircularDeques.CircularDeque.Elements | ResizingDequeImpl.java:155-175 | the iteration visits exactly the contents, front to back |
| MinHeaps.Parent | BinaryMinHeap.java:48-57 | `(i - 1) / 2` with truncating division is 0 at the root and otherwise the position whose child `i` is |
| MinHeaps.RootIsMin | BinaryMinHeap.java:80-86 | in a heap-ordered list the entry at position 0 has the least key, which is what `peek()` relies on |
| MinHeaps.SubtreeRootIsMin | BinaryMinHeap.java:107-143 | the root of a heap-ordered subtree bounds every key in that subtree |
| MinHeaps.ContentsKeys | BinaryMinHeap.java:4-5 | when `map` indexes `list` exactly, the values in `map` are those of the entries, each with its entry's key |
| MinHeaps.WholeHeap | BinaryMinHeap.java:102 | a subtree at position 0 that is heap ordered is the whole heap in order |
| MinHeaps.BinaryMinHeap.constructor | BinaryMinHeap.java:8-11 | a new heap is empty |
| MinHeaps.BinaryMinHeap.Size | BinaryMinHeap.java:15-17 | `size()` is the number of values held, so zero exactly when the heap holds none |
| MinHeaps.IndexCount | BinaryMinHeap.java:15-17 | the value-to-position map has exactly one key per entry of the array list |
| MinHeaps.BinaryMinHeap.IsEmpty | BinaryMinHeap.java:20-22 | `isEmpty()` holds exactly when the heap holds no value |
| MinHeaps.BinaryMinHeap.ContainsValue | BinaryMinHeap.java:25-27 | the `map` lookup answers true exactly when some entry of `list` carries the value |
| MinHeaps.BinaryMinHeap.Swap | BinaryMinHeap.java:50-56 | exchanging two entries and their `map` positions keeps `map` exact and the contents unchanged |
| MinHeaps.BinaryMinHeap.AddHelper | BinaryMinHeap.java:44-60 | sifting up an entry that is only out of order with its parent yields a heap-ordered list with the same contents |
| MinHeaps.BinaryMinHeap.Add | BinaryMinHeap.java:31-42 | a null key or a value already present throws IllegalArgument and changes nothing; otherwise the value is added with its key and the heap stays ordered |
| MinHeaps.BinaryMinHeap.DecreaseKey | BinaryMinHeap.java:63-77 | an absent value throws NoSuchElement, a null or larger key IllegalArgument, with nothing changed; otherwise exactly that value's key becomes `newKey` and the heap stays ordered |
| MinHeaps.BinaryMinHeap.Peek | BinaryMinHeap.java:81-86 | NoSuchElement exactly when empty; otherwise a value present whose key is least |
| MinHeaps.BinaryMinHeap.ExtractMinHelper | BinaryMinHeap.java:107-143 | sifting down an entry whose children's subtrees are heaps makes the subtree at `i` a heap with the same contents, leaves positions outside it alone, and keeps any lower bound |
| MinHeaps.BinaryMinHeap.ExtractMin | BinaryMinHeap.java:90-105 | NoSuchElement exactly when empty; otherwise returns a value of least key, removes exactly it, and every remaining key is at least its key |
| MinHeaps.BinaryMinHeap.Values | BinaryMinHeap.java:147-157 | the loop over `list` collects exactly the values in the heap |
| UnionFinds.RootOf | UnionFind.java:87-95 | following parent pointers from `x` ends at a root, which is `x` itself or strictly higher in the forest |
| UnionFinds.CompressIsForest | UnionFind.java:91-93 | redirecting one parent pointer to the root keeps the parent pointers an acyclic forest |
| UnionFinds.CompressKeepsRoots | UnionFind.java:91-93 | path compression changes no element's root |
| UnionFinds.LinkRoots | UnionFind.java:62-72 | hanging one root under another keeps a forest, and exactly the elements of the first tree change root, to the second |
| UnionFinds.UnionFind.Init | UnionFind.java:28-38 | the loop builds `n` singleton sets: element `i` is its own parent with rank 0 |
| UnionFinds.UnionFind.New | UnionFind.java:28-38 | a negative `n` throws IllegalArgument; otherwise a forest of `n` singletons |
| UnionFinds.UnionFind.Find | UnionFind.java:87-95 | an out-of-range `u` throws IllegalArgument with nothing changed; otherwise returns `u`'s root, `u` and the root then point at it, no element changes root or rank, and each parent pointer either stays or points at its root |
| UnionFinds.UnionFind.Link | UnionFind.java:62-72 | hanging root `child` under root `parent` moves exactly `child`'s set into `parent`'s and raises `parent`'s rank exactly when the ranks were equal |
| UnionFinds.UnionFind.Union | UnionFind.java:50-73 | an out-of-range `u` or `v` throws IllegalArgument with nothing changed; otherwise `u` and `v` end with one root, the two sets merge into the root chosen by the ranks of `u` and `v`, no other set changes, and only the surviving root's rank may grow, by one when the roots' ranks were equal |
| Graphs.IndexOf | Graph.java:34-45 | `indexOf` with endpoint-only `equals`: the first entry with those endpoints, or -1 when no entry has them |
| Graphs.IndexOfAppend | Graph.java:144-145 | appending an entry changes a lookup only when no earlier entry matched and the new one does |
| Graphs.NeighborsAreAdjacent | Graph.java:189-198 | in a well-formed graph the `dest` fields of `v`'s list are exactly the vertices adjacent to `v`, `v` itself included when it has a self-loop |
| Graphs.AddEdgeKeepsWellFormed | Graph.java:142-146 | appending the two mirror entries keeps every entry leaving its own vertex, keeps adjacency symmetric with equal weights both ways, adds exactly `u`-`v` and `v`-`u` with `weight`, and keeps every other weight |
| Graphs.Graph.Init | Graph.java:75-81 | the constructor loop creates `n` empty adjacency lists |
| Graphs.Graph.New | Graph.java:75-81 | a negative `n` fails with NegativeArraySize (the constructor does not check it); otherwise a graph of `n` isolated vertices |
| Graphs.Graph.GetSize | Graph.java:91-93 | `getSize()` is the number of adjacency lists |
| Graphs.Graph.HasEdge | Graph.java:106-116 | IllegalArgument exactly when a vertex is out of range; otherwise true exactly when `u` is adjacent to `v` |
| Graphs.Graph.GetWeight | Graph.java:162-176 | IllegalArgument for an out-of-range vertex, NoSuchElement when there is no `u`-`v` edge, otherwise the weight stored with the edge |
| Graphs.Graph.GetNeighbors | Graph.java:189-198 | IllegalArgument for an out-of-range vertex; otherwise exactly the vertices adjacent to `v` |
| Graphs.Graph.AddEdge | Graph.java:132-148 | IllegalArgument for an out-of-range vertex; otherwise true exactly when the edge was absent, after which `u`-`v` is an edge both ways with the new weight; an existing edge keeps its weight and the graph is unchanged |
| WDGraphs.CompareEdges | WDGraph.java:41-44 | `compareTo` is negative, zero or positive exactly as the first neighbour is smaller than, equal to or larger than the second |
| WDGraphs.IndexOfNeighbor | WDGraph.java:23-33 | `indexOf` with neighbour-only `equals`: the first entry naming `v`, or -1 exactly when none does |
| WDGraphs.InNeighborSet | WDGraph.java:114-123 | `contains(new Edge(v))` holds exactly when `v` is among the list's neighbours |
| WDGraphs.DistinctEntry | WDGraph.java:103-111 | in a list without repeated neighbours, `Edge(v, w)` is present exactly when `v` is a neighbour whose stored weight is `w` |
| WDGraphs.MirrorWeights | WDGraph.java:106-109 | `v` is an out-neighbour of `u` exactly when `u` is an in-neighbour of `v`, and both entries carry the same weight |
| WDGraphs.TransposeMirrored | ConnectedComponents.java:64-99 | swapping out-lists and in-lists gives a mirrored graph whose arcs are exactly the reversed arcs |
| WDGraphs.PermuteOutList | DFS.java:57 | sorting one out-list in place keeps the graph mirrored with the same arcs |
| WDGraphs.SortByNeighbor | DFS.java:57 | `Collections.sort` by `compareTo` returns a permutation of the list in ascending neighbour order |
| WDGraphs.InsertByNeighbor | DFS.java:57 | inserting an entry into a sorted list keeps it sorted and adds exactly that entry |
| WDGraphs.AddArcKeepsMirrored | WDGraph.java:106-110 | appending a new arc to both list families keeps them mirrored, adds exactly the arc `u -> v`, and stores `weight` with it |
| WDGraphs.ReachesTrans | DFS.java:37-49 | reachability along directed paths is transitive |
| WDGraphs.ClosedReaches | DFS.java:37-49 | a vertex set that contains `a` and is closed under out-arcs contains every vertex `a` reaches |
| WDGraphs.TransposeReaches | ConnectedComponents.java:64-99 | `b` reaches `a` in the transposed graph exactly when `a` reaches `b` in the graph |
| WDGraphs.WDGraph.ViewMirrored | ConnectedComponents.java:64-99 | both a graph and a transposed view of it present mirrored out- and in-lists |
| WDGraphs.WDGraph.Init | WDGraph.java:61-69 | the constructor loop creates `n` empty out-lists and in-lists |
| WDGraphs.WDGraph.New | WDGraph.java:61-69 | a negative `n` fails with NegativeArraySize (the constructor does not check it); otherwise `n` vertices and no arcs |
| WDGraphs.WDGraph.Transpose | ConnectedComponents.java:67-70 | the view reads its out-lists from `g`'s in-lists and its in-lists from `g`'s out-lists, with its own fields left empty |
| WDGraphs.WDGraph.GetSize | WDGraph.java:77-79 | the vertex count; the view answers with `g`'s count |
| WDGraphs.WDGraph.HasEdge | WDGraph.java:114-123 | IllegalArgument exactly for an out-of-range vertex, otherwise whether the arc exists; on a transposed view, which does not override it, it dereferences the view's missing lists |
| WDGraphs.WDGraph.GetWeight | WDGraph.java:135-147 | IllegalArgument for an out-of-range vertex, NoSuchElement when the arc is absent, otherwise the weight stored with the arc; the view answers `g.getWeight(v, u)` |
| WDGraphs.WDGraph.CollectNeighbors | WDGraph.java:159-163 | the loop collects exactly the neighbours named in the list |
| WDGraphs.WDGraph.InNeighbors | WDGraph.java:174-180 | an out-of-range vertex fails on the array access; otherwise exactly the in-neighbours (on the view, `g`'s out-neighbours) |
| WDGraphs.WDGraph.OutNeighbors | WDGraph.java:158-164 | an out-of-range vertex fails on the array access; otherwise exactly the vertices with an arc from `v` (on the view, `g`'s in-neighbours) |
| WDGraphs.WDGraph.AddEdge | WDGraph.java:93-112 | a self-loop or an out-of-range vertex throws IllegalArgument; every other call succeeds, true exactly when the arc was new, after which it exists; a new arc is appended to both lists with `weight`, an existing one is left unchanged; the view adds `v -> u` to `g` |
| BreadthFirst.ClosedWalk | BFS.java:42-51 | a walk that starts in a vertex set closed under adjacency stays in it |
| BreadthFirst.NewVertexBound | BFS.java:44-49 | a walk from `src` to a vertex still undiscovered while level-`level` vertices are being scanned has more than `level` edges |
| BreadthFirst.Discover | BFS.java:45-49 | marking, queueing and parenting an undiscovered neighbour `u` of `v` gives `u` distance `level + 1`, which is a lower bound on every walk to it, and keeps the queue ordered by distance |
| BreadthFirst.DiscoverQueue | BFS.java:47 | appending a level-`level + 1` vertex keeps the queue free of repeats, in non-decreasing distance order, and within two adjacent levels |
| BreadthFirst.FinishScan | BFS.java:44-50 | once every neighbour of `v` is discovered, `v` joins the finished vertices, whose neighbours are all discovered |
| BreadthFirst.StartFrontier | BFS.java:36-40 | with only `src` marked and queued, the loop invariant holds with nothing finished |
| BreadthFirst.EmptyFrontier | BFS.java:42 | when the queue is empty, the discovered set is closed under adjacency and every discovered vertex has a parent tree of exact hop distances |
| BreadthFirst.Mark | BFS.java:46-48 | marks `u` discovered, appends it to the queue and records `v` as its parent, changing nothing else |
| BreadthFirst.ScanNeighbors | BFS.java:44-50 | the scan of `v`'s neighbours discovers exactly the undiscovered ones and finishes `v`, keeping the search invariant |
| BreadthFirst.Poll | BFS.java:43 | takes the front vertex off the queue (the corrected deque), leaving the search arrays alone |
| BreadthFirst.Visit | BFS.java:42-51 | over the corrected deque, one round finishes a new vertex of the graph, so the loop runs at most once per vertex |
| BreadthFirst.Start | BFS.java:36-40 | fresh arrays, `src` marked and queued |
| BreadthFirst.Explore | BFS.java:36-51 | over the corrected deque, after the queue loop the discovered vertices are exactly a set closed under adjacency containing `src`, each other one with a discovered adjacent parent one hop closer, and each hop count is a lower bound on the walks to it |
| BreadthFirst.ParentStep | BFS.java:54-60 | following a parent from a discovered vertex other than `src` reaches an adjacent discovered vertex exactly one hop closer |
| BreadthFirst.NoParent | BFS.java:59 | an undiscovered vertex has a null parent |
| BreadthFirst.Unreachable | BFS.java:55-57 | no walk from `src` reaches a vertex outside a closed discovered set |
| BreadthFirst.Shortest | BFS.java:52-62 | a walk from `src` to `tgt` with `d[tgt]` edges is no longer than any walk between them |
| BreadthFirst.WalkBack | BFS.java:52-62 | the parent walk succeeds exactly when `tgt` is reachable, and then returns a walk from `src` to `tgt` no longer than any other; otherwise unboxing a null parent throws NullPointer |
| BreadthFirst.GetShortestPath | BFS.java:29-63 | over the corrected deque, a null graph or an out-of-range vertex throws IllegalArgument; otherwise a shortest walk from `src` to `tgt` when one exists, and NullPointer when none does |
| DepthFirst.MarkOne | DFS.java:55 | setting `discovered[x]` adds exactly `x` to the marked vertices |
| DepthFirst.Progress | DFS.java:59-64 | each recursive call marks a new vertex, and there are at most as many as array entries, so the recursion ends |
| DepthFirst.PermutedNeighbors | DFS.java:57 | sorting an out-list in place keeps the set of out-neighbours |
| DepthFirst.SortOutList | DFS.java:56-57 | `Collections.sort` on the graph's own out-list of `x` leaves it sorted by neighbour as a permutation of itself, changing no other list |
| DepthFirst.NestedGrows | DFS.java:53-66 | discovering more vertices keeps the finished list's promise about strongly connected components |
| DepthFirst.FinishNested | DFS.java:65 | putting `x` in front of the finished list, when all its callers reach it and all its arcs end at discovered vertices, keeps that promise |
| DepthFirst.FinishVertex | DFS.java:65 | putting `x` in front keeps every finished vertex listed once, every arc out of a finished vertex ending at a discovered one, and every arc back to an earlier vertex closing a cycle |
| DepthFirst.ScanStart | DFS.java:55-58 | once `x` is marked and its list sorted, the neighbour loop's invariant holds |
| DepthFirst.ScanSkip | DFS.java:60 | an entry already discovered is passed over without changing the search |
| DepthFirst.ScanCallable | DFS.java:60-62 | a call on an undiscovered entry may start: it is an out-neighbour of `x`, the finished list is in order, and all open calls reach it |
| DepthFirst.ScanCall | DFS.java:61-62 | the block the recursive call prepends joins the vertices `x` finishes, all reachable from `x` |
| DepthFirst.ScanEnd | DFS.java:65 | after the loop, prepending `x` completes what a call promises |
| DepthFirst.Visit | DFS.java:53-66 | the reference order of one helper call on an undiscovered `x`: it marks `x` on top of everything marked before and keeps the array length |
| DepthFirst.VisitFrom | DFS.java:59-64 | the reference scan of the candidates of `x` from `y` on, in increasing order, calling on each undiscovered out-neighbour: marks only grow |
| DepthFirst.SkipRange | DFS.java:60 | candidates `x` has no arc to, or that are already discovered, change neither the marks nor the order |
| DepthFirst.BelowBound | DFS.java:57-59 | in the sorted out-list, every out-neighbour below the next entry's neighbour is one of the entries already passed |
| DepthFirst.BoundRange | DFS.java:57-59 | the neighbours of the sorted out-list lie in range and strictly increase |
| DepthFirst.ResumeStart | DFS.java:57-59 | before the neighbour loop the whole reference scan is still to come |
| DepthFirst.ResumeSkip | DFS.java:60 | a discovered entry is passed over by the reference scan too |
| DepthFirst.ResumeCall | DFS.java:60-62 | the recursive call on an undiscovered entry is the reference scan's call on it, and its block goes in front of the earlier ones |
| DepthFirst.SkipAfterCall | DFS.java:59-60 | once the entries up to `i` are discovered, the reference scan passes from just after entry `i` to the next entry's neighbour unchanged |
| DepthFirst.VisitFromCall | DFS.java:60-62 | the reference scan at an undiscovered out-neighbour calls on it and puts that call's block behind the rest of the scan |
| DepthFirst.ResumeEnd | DFS.java:65 | after the loop, `x` in front of the collected blocks is exactly the reference call on `x` |
| DepthFirst.ScanEntry | DFS.java:59-64 | one round of the neighbour loop keeps both the loop's invariant and its agreement with the reference scan |
| DepthFirst.ScanAll | DFS.java:59-64 | the whole neighbour loop ends with every entry passed, the block of vertices it discovered, and the reference scan completed |
| DepthFirst.FinishFrom | DFS.java:53-66 | one helper call prepends a block starting with `x` that holds exactly the vertices it newly discovers, all reachable from `x`, keeps the finished list in order, and sorts exactly their out-lists; the block and the new marks are exactly those of the reference call `Visit` |
| DepthFirst.TopologicalWhenAcyclic | DFS.java:30-51 | without cycles the reverse finishing order puts every arc's source before its target |
| DepthFirst.CoverStart | DFS.java:42 | after the search from `src`, the restart loop's invariant holds, with that search's vertices at the end of the list |
| DepthFirst.CoverCall | DFS.java:45-46 | a restart from an undiscovered `i` keeps the invariant |
| DepthFirst.CoverMarks | DFS.java:44-47 | after a restart from `i`, the marked vertices are the listed ones and every vertex up to `i` is marked |
| DepthFirst.CoverLists | DFS.java:46 | a restart sorts the out-lists of exactly the vertices it marks |
| DepthFirst.CoverSkip | DFS.java:45 | a vertex already discovered is skipped without changing anything |
| DepthFirst.CoverEnd | DFS.java:44-50 | once every vertex was tried, the list is the promised reverse finishing order and every out-list is sorted |
| DepthFirst.Restarts | DFS.java:44-48 | the restart loop keeps the invariant through every vertex of the graph and prepends exactly the reference restarts `RestartFrom` |
| DepthFirst.RestartCall | DFS.java:45-46 | a restart from an undiscovered `i` prepends what the reference restarts prepend there |
| DepthFirst.RestartUnfold | DFS.java:45-46 | the reference restarts at an undiscovered `i` are the call on `i` followed by the restarts from `i + 1` |
| DepthFirst.RestartPass | DFS.java:45 | a discovered `i` is passed over by the reference restarts too |
| DepthFirst.OrderIsReference | DFS.java:42-50 | the call on `src` with nothing discovered, followed by the restarts, is the order `DfsOrder` |
| DepthFirst.OrderExamples | DFS.java:53-66 | from 0, the arcs 0->1 and 0->2 give [0, 2, 1], and the single arc 1->2 gives [1, 2, 0] |
| DepthFirst.SearchAll | DFS.java:38-50 | on a graph that is not a transposed view, returns exactly `DfsOrder` of the original lists from `src`, which is a reverse finishing order, and leaves every out-list sorted as a permutation of itself |
| DepthFirst.ReverseFinishingTime | DFS.java:30-51 | a null graph or `src` below 0 or above `getSize()` throws IllegalArgument and `src == getSize()` fails on the array access, with nothing changed; a transposed view fails dereferencing its missing out-lists; otherwise every vertex exactly once, arcs back to earlier vertices only closing cycles, for each vertex some vertex strongly connected to it listed before every vertex it reaches that does not reach it, the vertices from `src` on being exactly those `src` reaches, and every out-list sorted; the list is exactly `DfsOrder` on the original lists: out-neighbours tried in increasing order, restarts in increasing vertex order, each vertex put in front when its call ends |
| DepthFirst.ExploreStart | DFS.java:99-102 | once `x` is marked, the neighbour loop's invariant holds |
| DepthFirst.ExploreCall | DFS.java:108-110 | what a recursive call marks is reachable from `x` and has all its arcs followed |
| DepthFirst.ExploreEnd | DFS.java:106-111 | when the iterator is exhausted, every arc out of `x` has been followed |
| DepthFirst.ExploreFrom | DFS.java:97-112 | one helper call keeps `ans` equal to the marked vertices, marks `x`, and marks only vertices `x` reaches, each with all its out-arcs ending at marked vertices |
| DepthFirst.ExploredAll | DFS.java:92 | starting with nothing marked, the marked vertices afterwards are exactly those `src` reaches |
| DepthFirst.ExploreComponent | DFS.java:80-95 | a null graph or `src` below 0 or above `getSize()` throws IllegalArgument, `src == getSize()` fails on the array access; otherwise exactly the vertices `src` reaches, also on a transposed view |
| StrongComponents.InOwnComponent | ConnectedComponents.java:38-39 | every vertex lies in its own strongly connected component |
| StrongComponents.ComponentsPartition | ConnectedComponents.java:23-46 | two strongly connected components are equal or disjoint, so the result is a partition |
| StrongComponents.SameComponent | ConnectedComponents.java:48-59 | every member of a component has that same component |
| StrongComponents.ReachesInGraph | ConnectedComponents.java:37 | nothing outside the graph is reached from one of its vertices |
| StrongComponents.CollectUndiscovered | ConnectedComponents.java:48-59 | the helper adds to the component exactly the explored vertices that were undiscovered, and marks every explored vertex |
| StrongComponents.NewComponent | ConnectedComponents.java:35-40 | when `x` is taken undiscovered in reverse finishing order, the undiscovered vertices that reach `x` are exactly its component |
| StrongComponents.TakeUndiscovered | ConnectedComponents.java:35-42 | taking an undiscovered `x` adds exactly its component and marks exactly its members |
| StrongComponents.AllTaken | ConnectedComponents.java:33-45 | when the order is used up, the collected sets are exactly the components of the vertices |
| StrongComponents.NoneTaken | ConnectedComponents.java:27-31 | before the loop nothing is marked or collected |
| StrongComponents.ExploredReachX | ConnectedComponents.java:37 | the search on the transposed view from `x` finds exactly the vertices that reach `x` in the graph |
| StrongComponents.TakeNext | ConnectedComponents.java:34-42 | one turn of the loop keeps the invariant: the components of the vertices taken so far are collected and their members marked |
| StrongComponents.CollectAll | ConnectedComponents.java:33-43 | the loop over the reverse finishing order collects the component of every vertex in it |
| StrongComponents.StronglyConnectedComponents | ConnectedComponents.java:23-46 | a null graph throws IllegalArgument; an empty graph fails at the array access of the first search's vertex 0; a transposed view fails dereferencing its missing out-lists; otherwise exactly the set of the strongly connected components, with the graph's out-lists left sorted |
| Dijkstra.PrependArc | Dijkstra.java:63-66 | putting an arc in front of a path gives a path whose weight grows by that arc's weight |
| Dijkstra.NoShorter | Dijkstra.java:47-60 | once every arc out of a finite vertex is relaxed, no path from a finite vertex leads to an infinite one or to a distance above the start's distance plus the path weight |
| Dijkstra.LowerDistance | Dijkstra.java:51 | lowering a distance to a value that is not negative reduces the number of infinite distances or keeps it and reduces the sum of finite distances, so the search loop ends |
| Dijkstra.StartScan | Dijkstra.java:48-49 | extracting `x` from the queue starts the scan of its out-neighbours with the invariant in place |
| Dijkstra.ScanSkip | Dijkstra.java:50 | a neighbour whose distance is not improved on is already relaxed along the arc from `x` |
| Dijkstra.RelaxLabels | Dijkstra.java:51-52 | an improved neighbour gets parent `x` and the new distance, and every finite vertex other than `src` still has a parent whose distance plus the arc weight is at most its own |
| Dijkstra.RelaxQueue | Dijkstra.java:50-57 | an improved neighbour is queued with its new distance, and the scan's invariant holds for the remaining neighbours |
| Dijkstra.RequeueKeepsQueued | Dijkstra.java:53-57 | re-keying or adding `i` with its new distance keeps every queued vertex keyed by its distance |
| Dijkstra.RelaxKeepsRelaxed | Dijkstra.java:50-57 | lowering `d[i]` and queueing `i` relaxes the arc `x -> i` and unrelaxes only arcs out of the queued `i` |
| Dijkstra.ScanArcs | Dijkstra.java:49-59 | scanning every out-neighbour of `x` keeps the labels and the queue consistent and decreases the loop's measure |
| Dijkstra.ScanOne | Dijkstra.java:50-58 | one neighbour either changes nothing or lowers a distance, keeping the scan's invariant |
| Dijkstra.ScanArc | Dijkstra.java:50 | the neighbour being scanned is the end of an arc out of the finite `x` with a weight that is not negative |
| Dijkstra.Relax | Dijkstra.java:51-57 | sets exactly `distances[i]` and `parent[i]` and leaves `i` in the queue with key `nd`, whether it was queued before or not |
| Dijkstra.ScanDone | Dijkstra.java:49-59 | after the scan of `x`, only arcs out of queued vertices can be unrelaxed |
| Dijkstra.InitLabels | Dijkstra.java:36-46 | with only `src` finite, at distance 0, and queued, the search invariant holds |
| Dijkstra.Search | Dijkstra.java:45-60 | when the queue is empty, every arc out of a finite vertex is relaxed and every finite vertex other than `src` has a parent chain back to `src` |
| Dijkstra.ParentBelow | Dijkstra.java:63-66 | a parent's distance is no larger, and when equal it was set earlier, so the parent walk ends |
| Dijkstra.WalkBack | Dijkstra.java:61-68 | `tgt == getSize()` fails on the array access; otherwise the walk succeeds exactly when `tgt` has a finite distance, giving `[src]` when `tgt == src` and otherwise a path from `src` to `tgt` weighing at most its distance, and an unboxed null parent throws NullPointer |
| Dijkstra.Optimal | Dijkstra.java:36-68 | the distance of `tgt` is finite exactly when `src` reaches it, and the path found then weighs no more than any path from `src` to `tgt` |
| Dijkstra.ShortestFrom | Dijkstra.java:36-68 | `src` or `tgt` equal to `getSize()` fails on an array access; otherwise a path of least weight exactly when `tgt` is reachable, `[src]` when `tgt == src`, and NullPointer when unreachable |
| Dijkstra.GetShortestPath | Dijkstra.java:25-69 | a null graph or a vertex below 0 or above `getSize()` throws IllegalArgument; `getSize()` itself fails on an array access; otherwise a path of least weight from `src` to `tgt` exactly when one exists, `[src]` when they are equal, and NullPointer when `tgt` is unreachable |
| Kruskal.MakeEdge | Kruskal.java:88-97 | the stored endpoints are the given two, smaller first, and the weight is kept |
| Kruskal.CompareTo | Kruskal.java:118-120 | the sign of the result orders the two edges by weight alone |
| Kruskal.BothDirectionsAgree | Kruskal.java:63-65 | the `i-x` and `x-i` edges built from a well-formed graph are the same `Edge`, so the set gets each undirected edge once |
| Kruskal.GetEdges | Kruskal.java:53-71 | a null graph throws IllegalArgument; otherwise the set holds exactly the normalised edges of `g` with their weights |
| Kruskal.ToList | Kruskal.java:32-33 | the list holds each edge of the set exactly once |
| Kruskal.Sort | Kruskal.java:34 | the list is ordered by non-decreasing weight and is a permutation of its input |
| Kruskal.InsertKeepsOthers | Kruskal.java:34 | inserting one edge into a list adds exactly that edge to its multiset |
| Kruskal.InsertSorted | Kruskal.java:34 | inserting an edge after the lighter-or-equal ones and before the heavier ones keeps the list sorted |
| Kruskal.ReachAfterAdd | Kruskal.java:37 | after adding the `u`-`v` edge, `x` reaches `y` exactly when it did before or reaches one end and the other end reaches `y` |
| Kruskal.WithoutIndexOf | Kruskal.java:36-37 | deleting a list's entries towards `d` hides every lookup of `d` and leaves the first entry of every other destination in place |
| Kruskal.WithoutOther | Kruskal.java:36-37 | for a destination other than `d`, a lookup succeeds in the list exactly when it succeeds with `d` deleted, and finds the same entry |
| Kruskal.WithoutDropped | Kruskal.java:36-37 | the step of that lookup agreement past a deleted first entry |
| Kruskal.WithoutKept | Kruskal.java:36-37 | the step of that lookup agreement past a kept first entry |
| Kruskal.IndexOfTail | Graph.java:34-45 | a lookup past a first entry that does not match is the lookup in the rest, shifted by one, and finds the same entry |
| Kruskal.RemovedAdjacent | Kruskal.java:36-37 | deleting the `a`-`b` edge removes exactly the adjacencies `a`-`b` and `b`-`a` and keeps every other edge with its weight |
| Kruskal.RemovedWellFormed | Kruskal.java:36-37 | deleting an edge from a well-formed graph leaves it well formed |
| Kruskal.ForestAfterAdd | Kruskal.java:36-37 | adding an edge between vertices not yet joined keeps every edge a bridge: deleting any edge disconnects its ends |
| Kruskal.ForestClosesCycle | Kruskal.java:36-37 | an edge `a`-`b` plus walks from `a` to one of `u`, `v` and from the other to `b` joins `u` and `v` |
| Kruskal.LightJoins | Kruskal.java:35-40 | when every edge of `g` is joined in the forest by a walk of edges no heavier than it, the ends of a walk of `g` of edges at most `m` stay joined after deleting any forest edge heavier than `m` |
| Kruskal.MinimaxPath | Kruskal.java:25-42 | in the returned forest, the path without repeated vertices between the ends of any walk of `g` has no edge heavier than that walk's heaviest edge |
| Kruskal.SameComponent | Kruskal.java:36 | vertices joined by a walk have the same component |
| Kruskal.ComponentAfterAdd | Kruskal.java:37 | adding an edge between two components makes every vertex of either one's component their union and leaves the other components alone |
| Kruskal.MergeComponents | Kruskal.java:36-38 | adding an edge between two components lowers the number of components by one |
| Kruskal.AddPair | Kruskal.java:37 | adding a new edge between distinct vertices adds exactly one undirected edge |
| Kruskal.EmptyComponents | Kruskal.java:29 | a graph without edges has one component per vertex and no edges |
| Kruskal.KruskalStart | Kruskal.java:29-30 | the empty answer graph with every vertex its own root satisfies the loop invariant before the first edge |
| Kruskal.WithEdge | Graph.java:132-148 | the answer graph after `addEdge(u, v, w)` has the same vertices, with `v` listed as a neighbour of `u` and `u` of `v` |
| Kruskal.KruskalNext | Kruskal.java:35-36 | the next edge's endpoints are vertices of the graph, and when their roots differ they are distinct and not yet adjacent in the answer |
| Kruskal.KruskalSkip | Kruskal.java:36 | an edge whose endpoints share a root is already joined by a walk of lighter-or-equal edges, and the loop invariant holds after it |
| Kruskal.KruskalJoin | Kruskal.java:36-39 | adding an edge whose endpoints have different roots and merging their sets keeps the loop invariant |
| Kruskal.JoinTrees | Kruskal.java:36-39 | the same step, stated for any well-formed graph that adds exactly that edge |
| Kruskal.CountAfterAdd | Kruskal.java:37 | joining two components with a new edge keeps the answer's edge count at vertices minus components |
| Kruskal.LightsAfterAdd | Kruskal.java:35-40 | every edge seen so far, and the one just added, is joined by a walk of edges no heavier than itself |
| Kruskal.SubgraphAfterAdd | Kruskal.java:37 | the answer stays a subgraph of `g` with `g`'s weights and no self-loops |
| Kruskal.TracksAfterAdd | Kruskal.java:37-38 | after the edge is added and the sets merged, two vertices share a root exactly when the answer joins them |
| Kruskal.KruskalEnd | Kruskal.java:40-41 | after the last edge, the answer joins exactly the vertices `g` joins and has the components of `g` |
| Kruskal.Merge | Kruskal.java:38 | the union keeps the structure valid and gives a root of `u` or `v` to every element of either set, leaving the others' roots alone |
| Kruskal.Consider | Kruskal.java:36-39 | when the two roots differ the edge is added and the sets merged; otherwise the answer and the sets are unchanged |
| Kruskal.Step | Kruskal.java:35-40 | one turn of the loop keeps its invariant for the next edge |
| Kruskal.GetMST | Kruskal.java:25-42 | a null graph throws IllegalArgument; otherwise a new graph on the same vertices, with edges of `g` and their weights, no self-loops, no edge on a cycle, joining exactly what `g` joins, one edge fewer than vertices per component, and every edge of `g` joined by a walk of edges no heavier than it (the cycle property of a minimum spanning forest) |
| WidestPaths.Sub32 | WidestPath.java:37 | Java's `int` subtraction: the result differs from the exact difference by a multiple of 2^32 |
| WidestPaths.Neg32 | WidestPath.java:37 | `0 - w` is `-w`, except that `Integer.MIN_VALUE` stays itself |
| WidestPaths.Neg32Twice | WidestPath.java:37 | negating a weight twice gives it back, `MIN_VALUE` included |
| WidestPaths.ReweightedList | WidestPath.java:36-38 | one adjacency list with the same neighbours in the same order and every weight flipped |
| WidestPaths.Reweighted | WidestPath.java:35-39 | every adjacency list flipped, and the vertex count kept |
| WidestPaths.IndexOfReweighted | WidestPath.java:35-39 | flipping weights does not move any entry of a list |
| WidestPaths.ReweightedGraph | WidestPath.java:35-39 | the flipped graph has the same edges, each with its weight flipped, and is still well formed |
| WidestPaths.ReweightedTwice | WidestPath.java:35-39 | flipping all weights twice by an involution such as `0 - w` gives back the graph |
| WidestPaths.ReweightedWalks | WidestPath.java:35-39 | the flipped graph has the same walks |
| WidestPaths.Reweigh | WidestPath.java:35-39 | the graph's lists become their flipped copies in place, and the graph stays valid |
| WidestPaths.Width | WidestPath.java:4-5 | the width of a walk is no more than any of its edge weights and equal to one of them |
| WidestPaths.Neg32Reverses | WidestPath.java:37 | `0 - w` reverses the order of any two weights other than `Integer.MIN_VALUE` |
| WidestPaths.ShortestToSelf | WidestPath.java:41 | the fewest-edge walk from a vertex to itself is that vertex alone |
| WidestPaths.CutLoop | WidestPath.java:41 | cutting out the loop between two visits of a vertex leaves a shorter walk between the same ends |
| WidestPaths.ShortestIsPath | WidestPath.java:41 | a fewest-edge walk visits no vertex twice |
| WidestPaths.FlippedLight | WidestPath.java:35-40 | a walk of `g` whose edges weigh at least `b` has, once the weights are flipped, edges no heavier than the flip of `b` |
| WidestPaths.UnflippedWide | WidestPath.java:35-40 | a forest walk whose flipped weights are at most the flip of `b` is a walk of `g` whose edges weigh at least `b` |
| WidestPaths.WiderThan | WidestPath.java:35-41 | the forest path between the ends of any walk of `g` is a walk of `g` at least as wide |
| WidestPaths.NarrowestFlipped | WidestPath.java:35-41 | after the flip, every edge of a walk is no heavier than the flipped width of the walk, whose width is one of the graph's weights |
| WidestPaths.WidestInForest | WidestPath.java:35-41 | a fewest-edge path of the forest is a walk of `g` at least as wide as every walk of `g` between its ends |
| WidestPaths.OutcomeIsWidest | WidestPath.java:14-24 | when the flip reverses the order of `g`'s weights, the path returned is at least as wide as every walk between `src` and `tgt` |
| WidestPaths.WidestPathBy | WidestPath.java:28-42 | a null graph or a vertex out of range throws IllegalArgument and leaves the graph alone; otherwise the weights are left flipped, a path from `src` to `tgt` in `g` is returned exactly when one exists, `[src]` when they are equal, NullPointer when none exists, and it is a fewest-edge path of a spanning forest of `g` with flipped weights in which every flipped edge is joined by a walk of edges no heavier than it |
| WidestPaths.GetWidestPath | WidestPath.java:28-42 | the steps above with `0 - w`; when no weight is `Integer.MIN_VALUE`, the path returned is at least as wide as every walk of `g` between `src` and `tgt` |
| WidestPaths.MinValueStaysNarrowest | WidestPath.java:37-41 | on the triangle with edge 0-1 of weight `MIN_VALUE` and edges 0-2, 2-1 of weight 5, the path returned from 0 to 1 is `[0, 1]`, of width `MIN_VALUE`, while `[0, 2, 1]` has width 5 |
| WidestPaths.GetWidestPathComplement | WidestPath.java:28-42 | the steps above with `-1 - w`, which reverses every pair of weights: the path returned is always at least as wide as every walk of `g` between `src` and `tgt` |
| HashMaps.Pow2IsPowerOfTwo | HashMap.java:55-58 | every `1 << e` is a power of two |
| HashMaps.MaximumIsPowerOfTwo | HashMap.java:13 | `MAXIMUM_CAPACITY`, `1 << 30`, is a power of two |
| HashMaps.DefaultIsPowerOfTwo | HashMap.java:7-8 | the default capacity 16 is a power of two |
| HashMaps.CapacityGap | HashMap.java:151-152 | a legal capacity below 2^30 can be doubled without passing 2^30 |
| HashMaps.Doubled | HashMap.java:152 | `table.length * 2` is the doubled legal capacity below 2^30 and wraps to a negative `int` at 2^30 |
| HashMaps.PowerOfTwoGap | HashMap.java:55-58 | of two distinct powers of two, the larger is at least twice the smaller |
| HashMaps.SmallestPowerOfTwo | HashMap.java:54-58 | a power of two at or above `n` whose half is below `n` is the smallest power of two reaching `n` |
| HashMaps.Wrap32 | HashMap.java:152 | Java's `int` arithmetic: the result is a 32-bit value, equal to the input when that fits |
| HashMaps.ThresholdFor | HashMap.java:61 | `(int) (capacity * loadFactor)`: the product rounded down, saturated at `Integer.MAX_VALUE` |
| HashMaps.Hash | HashMap.java:90-97 | the supplemental hash masked by `length - 1` is a bucket index of the table |
| HashMaps.IndexFor | HashMap.java:107-112 | every key gets a bucket index of the table, and `null` gets bucket 0 |
| HashMaps.KeyPos | HashMap.java:113-124 | the position of the first entry of the chain with the key, or -1 exactly when no entry has it |
| HashMaps.BucketOf | HashMap.java:107-112 | the bucket index of every key under a table of the given length |
| HashMaps.Located | HashMap.java:106-125 | in a well-placed table a key is mapped exactly when its bucket's chain holds it, with the mapped value |
| HashMaps.ValueLocated | HashMap.java:262-276 | in a well-placed table some key maps to a value exactly when some entry of some chain holds it |
| HashMaps.PlacedInsert | HashMap.java:160-183 | linking a new entry for an unmapped key at the head of its bucket keeps the table well placed and maps the key |
| HashMaps.PlacedReplace | HashMap.java:168-176 | overwriting an entry's value keeps the table well placed and remaps only that key |
| HashMaps.Unlinked | HashMap.java:224-255 | unlinking entry `j` of chain `i` shortens only that chain, keeping the other entries in order |
| HashMaps.PlacedRemove | HashMap.java:224-255 | unlinking an entry removes exactly its key, which was mapped, and keeps the table well placed |
| HashMaps.RemoveMapped | HashMap.java:224-255 | after an unlink every entry still sits in its bucket and agrees with the smaller map |
| HashMaps.RemovePlaced | HashMap.java:224-255 | after an unlink every key still mapped is still found in its bucket |
| HashMaps.RemoveDistinct | HashMap.java:224-255 | after an unlink no chain holds a key twice |
| HashMaps.EntriesAgree | HashMap.java:205-211 | the entries walked so far by `resize` agree with the map of the old table |
| HashMaps.EntriesCover | HashMap.java:205-211 | every entry the walk has passed is among the entries walked |
| HashMaps.EntriesOfTable | HashMap.java:205-211 | walking every chain of a well-placed table gives back exactly its map |
| HashMaps.NewTable | HashMap.java:62 | a fresh table of `capacity` empty buckets, which holds the empty map |
| HashMaps.Find | HashMap.java:113-124 | the walk stops at the first entry whose key equals the key (both `null`, or equal by `equals`), or reports that the chain has none |
| HashMaps.WalkPast | HashMap.java:240-255 | the walk of `remove` past the chain's head finds the first entry with the non-null key, or reports where `x.next` runs out |
| HashMaps.RoundUp | HashMap.java:54-58 | the doubling loop ends with the smallest power of two not below the wanted capacity |
| HashMaps.DefaultThreshold | HashMap.java:285 | `(int) (16 * 0.75f)` is 12 |
| HashMaps.Holds | HashMap.java:265-275 | the nested walk answers whether some entry of some chain holds the value |
| HashMaps.HashMap.Empty | HashMap.java:60-62 | an empty, valid map over `capacity` empty buckets with the given load factor and the threshold of that capacity |
| HashMaps.HashMap.New | HashMap.java:41-63 | a non-positive capacity or load factor throws IllegalArgument; otherwise an empty map whose capacity is the smallest power of two reaching the requested one clamped to 2^30 |
| HashMaps.HashMap.WithCapacity | HashMap.java:72-74 | the same with load factor 0.75 |
| HashMaps.HashMap.Default | HashMap.java:80-82 | an empty map of 16 buckets, load factor 0.75 and threshold 12 |
| HashMaps.HashMap.Size | HashMap.java:100-103 | `size` is the number of mapped keys |
| HashMaps.HashMap.Get | HashMap.java:106-125 | the value mapped to the key, or `null` when there is none |
| HashMaps.HashMap.ContainsKey | HashMap.java:128-147 | true exactly when the key is mapped |
| HashMaps.HashMap.ContainsValue | HashMap.java:262-276 | true exactly when some key maps to the value |
| HashMaps.HashMap.Put | HashMap.java:150-185 | when `size + 1` reaches the threshold of a 2^30-bucket table the doubling overflows and NegativeArraySize leaves the map unchanged; otherwise the key maps to the value afterwards, everything else is unchanged, the old value (or `null`) is returned, and the table grows at least twofold below 2^30 or the threshold becomes `Integer.MAX_VALUE` at it |
| HashMaps.HashMap.Grow | HashMap.java:151-152 | `resize(table.length * 2)` keeps the map; it fails at 2^30 buckets, stops growing at 2^29, and otherwise rehashes into at least twice as many buckets |
| HashMaps.HashMap.Store | HashMap.java:154-184 | the key maps to the value afterwards, nothing else changes, and the old value (or `null`) is returned |
| HashMaps.HashMap.Resize | HashMap.java:196-212 | keeps the map; from 2^30 on only the threshold becomes `Integer.MAX_VALUE`, a negative capacity fails, and otherwise the entries are rehashed into a fresh table of at least `newCapacity` buckets |
| HashMaps.HashMap.PutChain | HashMap.java:206-210 | putting one chain of the old table again adds its entries to the map being rebuilt |
| HashMaps.HashMap.PutEntry | HashMap.java:208 | putting one entry of the old table again adds it to the map being rebuilt |
| HashMaps.HashMap.Remove | HashMap.java:214-259 | a mapped key (a `null` key only at the head of bucket 0) is removed and its value returned; every other key, an absent one included, throws NullPointer and leaves the map unchanged |
| HashMaps.HashMap.Unlink | HashMap.java:224-255 | unlinking the entry removes exactly its key and shortens only its chain |
| HashMaps.HashMap.Clear | HashMap.java:279-286 | an empty map of 16 empty buckets with threshold 12, whatever the load factor |
| Tries.Blank | TrieMap.java:268 | a freshly allocated children array: 26 empty cells |
| Tries.ConvertToIndex | TrieMap.java:37-42 | succeeds exactly for 'a' to 'z', with an index below 26, and otherwise throws IllegalArgument |
| Tries.ConvertToChar | TrieMap.java:53-58 | succeeds exactly for an index below 26 and is then the inverse of `convertToIndex` |
| Tries.SetChild | TrieMap.java:103-107 | writing a child into one cell keeps the node's value and every other cell |
| Tries.Opened | TrieMap.java:100-102 | allocating a missing children array keeps the node well formed and its value |
| Tries.ChildOrLeaf | TrieMap.java:103-108 | the existing child, or a new node without value or children, is well formed |
| Tries.PlugPush | TrieMap.java:97-108 | descending one more level and plugging a node back in is plugging the parent with that node set as its child |
| Tries.PlantStops | TrieMap.java:99 | a character that is not a letter stops the walk with IllegalArgument, leaving the nodes already created |
| Tries.PlantStep | TrieMap.java:98-108 | one step of the walk below the last character keeps the walk's invariant |
| Tries.PlantLast | TrieMap.java:109-114 | the last step writes the value and returns the old one, which is what `put` promises |
| Tries.FoundLetters | TrieMap.java:98-108 | a key that has a value consists of letters only |
| Tries.PutWf | TrieMap.java:97-116 | `put` leaves a well-formed trie |
| Tries.PutFrom | TrieMap.java:97-116 | the walk of `put` below a node never changes that node's own value, fails only with IllegalArgument, leaves the node untouched when the first character is not a letter, and otherwise leaves it with a 26-cell children array |
| Tries.GetFrom | TrieMap.java:135-147 | the walk of `get` fails only with IllegalArgument or NullPointer: IllegalArgument on a first character that is not a letter, NullPointer when the node has no children array |
| Tries.Erase | TrieMap.java:229-244 | clearing a key's value changes the value of the node at the end of the key only, never allocates or drops a children array, and changes nothing when the path leaves the letters or the arrays |
| Tries.PutReturns | TrieMap.java:91-116 | `put` succeeds exactly for a key of letters, then returns the key's old value, and otherwise throws IllegalArgument |
| Tries.LeafFindsNothing | TrieMap.java:288-290 | a node without value or children holds no key |
| Tries.PutFinds | TrieMap.java:97-116 | after a successful `put` the key has the new value and every other key keeps its value; a failed `put` changes no key's value |
| Tries.GetFinds | TrieMap.java:125-147 | a successful `get` returns the key's value, IllegalArgument means the key is not all letters, any failure means the key has no value, and a key with a value is always found |
| Tries.AbsentKeyThrows | TrieMap.java:136-139 | on a new map, and on a cleared one, `get("a")` throws NullPointer although the key is simply absent |
| Tries.PutThenGet | TrieMap.java:81-147 | after putting a key of letters, `get` returns the value put |
| Tries.EraseFinds | TrieMap.java:229-244 | clearing a key's value removes exactly that key and keeps every other key's value |
| Tries.KeysSplit | TrieMap.java:135-145 | a non-empty key with a value is a letter followed by a key of that letter's child |
| Tries.KeysFind | TrieMap.java:135-145 | a key is among the trie's keys exactly when it has a value |
| Tries.PutKeys | TrieMap.java:97-116 | a successful `put` adds exactly its key to the keys and a failed one leaves them |
| Tries.EraseKeys | TrieMap.java:229-244 | `remove` takes exactly its key out of the keys |
| Tries.OverwriteCountedTwice | TrieMap.java:109-113 | putting a key that already has a value returns that value and leaves the number of keys the same, so the `size++` counts it twice |
| Tries.PutCount | TrieMap.java:109-113 | `put` adds one key exactly when it returns `null` |
| Tries.EraseCount | TrieMap.java:237-243 | removing a key with a value lowers the number of keys by one |
| Tries.HoldsFind | TrieMap.java:184-206 | some node holds the value exactly when some key maps to it |
| Tries.FoundHolds | TrieMap.java:184-206 | a key mapped to the value makes a node of the trie hold it |
| Tries.WeightPush | TrieMap.java:188-200 | queueing a node adds its size to the nodes left to visit |
| Tries.HoldsPush | TrieMap.java:196-200 | queueing a node adds exactly its values to those the queue can still reach |
| Tries.EnqueueChildren | TrieMap.java:196-200 | queueing every non-null child of a node replaces the node's weight by its children's and adds exactly its children's values |
| Tries.NumChildren | TrieMap.java:254-262 | the count is the number of non-null cells of the children array |
| Tries.CheckFirst | TrieMap.java:91-96 | the validation loop rejects a key exactly when it is non-empty and its first character is not a letter |
| Tries.TrieMap.constructor | TrieMap.java:24-26 | an empty map whose root has no children array yet |
| Tries.TrieMap.Plant | TrieMap.java:97-116 | the walk of `put` leaves the trie and returns what the `put` specification gives |
| Tries.TrieMap.Put | TrieMap.java:81-117 | a null key or value, or a first character that is not a letter, throws IllegalArgument; an empty key returns `null`; otherwise the trie is the `put` specification's and `size` grows on every success, an overwrite included |
| Tries.TrieMap.PutCounted | TrieMap.java:109-113 | `put` with `size` grown only when the key had no value, which keeps `size` the number of keys |
| Tries.TrieMap.Get | TrieMap.java:125-147 | a null key or a bad first character throws IllegalArgument, an empty key gives `null`, and otherwise the result of the `get` walk, which throws NullPointer at a missing last child or children array |
| Tries.TrieMap.GetChecked | TrieMap.java:136-145 | `get` with the last child tested: it returns the key's value, fails only with IllegalArgument for a key that is not all letters, and always succeeds on a key of letters |
| Tries.TrieMap.ContainsKey | TrieMap.java:155-178 | the same walk as `get`: true exactly when it finds a value, and its NullPointer otherwise |
| Tries.TrieMap.ContainsKeyChecked | TrieMap.java:155-178 | `containsKey` with the last child tested: true exactly when the key has a value, fails only with IllegalArgument for a key that is not all letters, and always succeeds on a key of letters |
| Tries.TrieMap.Size | TrieMap.java:70-72 | `size()` is the number of keys with a value whenever the counter is kept counted |
| Tries.TrieMap.ContainsValue | TrieMap.java:184-206 | a null value throws IllegalArgument; otherwise true exactly when some node of the trie holds the value |
| Tries.TrieMap.Unplant | TrieMap.java:229-244 | the walk of `remove` clears the key's value and returns it |
| Tries.TrieMap.Remove | TrieMap.java:214-252 | a null key or bad first character throws IllegalArgument; an empty key returns `null`; otherwise it passes on the `containsKey` walk's exception, returns `null` for a key without value, and for a key with a value clears it, returns it and lowers `size` by one |
| Tries.TrieMap.Clear | TrieMap.java:266-271 | an empty map whose root has an allocated, empty children array, and in which no key has a value |

## Left out

- Nodes of the trie, chains of the hash map and the lists of the graphs are values inside the objects that own them. Aliasing between objects, and `TrieMap.getRoot` exposing the root for outside writes, are not modelled.
- `HashMap.entryIterator` and the `equals`, `hashCode` and `toString` of the entry classes: the lazy iterator protocol is not modelled. Each map's contents are a ghost map instead.
- `TrieMap.entryIterator` only throws UnsupportedOperationException. The trie `Node` accessors are modelled only through the walks that use them.
- `BaseAbstractMap` and the interfaces the classes implement: they are adapters without logic of their own.
- Floating point:
  - `WDGraph` and `Dijkstra` weights are integers, and the distance `Double.POSITIVE_INFINITY` is the `Infinity` case of a datatype.
  - The `float` load factor of `HashMap` is an exact real number. A real cannot be NaN, so the NaN test is not modelled.
- Keys' `hashCode` is a function parameter of the hash map, and `equals` is Dafny equality.
- The iteration order of the `HashSet`s that the neighbour queries return is unspecified. The algorithms visit a set's members in any order the model picks, except where `DFS` sorts explicitly.
- Stack depth of the recursive searches and sift-down, and running time, are not modelled.
- TrieMap's `size` and HashMap's `size` are unbounded integers, so 32-bit overflow of these counters is not modelled. Integer wrap-around is modelled where it matters: the doubling of a 2^30-bucket table, and the negation of `Integer.MIN_VALUE` in `WidestPath`.
- Dijkstra.GetShortestPath: requires non-negative weights, which `getShortestPath` does not check. Its loop's termination and the least-weight result rely on them.
- Dijkstra.Search: requires non-negative weights for the same reason.
- Dijkstra.ShortestFrom: requires non-negative weights for the same reason.
- BreadthFirst.Poll: polls the corrected deque `CircularDeques`, not `ResizingDequeImpl`. With the deque as written, the fourth `pollFirst` of a search over the star graph with edges 0-1 and 0-2 from 0 returns `null`, and `getNeighbors(null)` then throws NullPointerException (`ResizingDeques.StarGraphQueue`). That exception is not modelled.
- BreadthFirst.Poll: the ArrayIndexOutOfBoundsException of the deque as written is not modelled either. In a search from 0 over the edges 0-1, 0-2, 0-3, 1-4 and 2-5, after 0, 1 and 2 are polled the queue is `[null, null, 3, 4]` with `head` 2 and `tail` 3, and `addLast(5)` writes `arr[4]` (`ResizingDeques.BfsQueueOverrun`).
- BreadthFirst.Visit: runs on the corrected deque, so neither the NullPointerException nor the ArrayIndexOutOfBoundsException of the deque as written (the two graphs above) is modelled.
- BreadthFirst.Explore: runs on the corrected deque, so neither the NullPointerException nor the ArrayIndexOutOfBoundsException of the deque as written is modelled.
- BreadthFirst.GetShortestPath: runs on the corrected deque. On graphs such as the star graph above the search as written throws NullPointerException, and on the graph with edges 0-1, 0-2, 0-3, 1-4, 2-5 it throws ArrayIndexOutOfBoundsException, instead of returning a path; those outcomes are not modelled.
- WidestPaths.GetWidestPath: its breadth-first search runs on the corrected deque, so the NullPointerException and the ArrayIndexOutOfBoundsException that `WidestPath` inherits from the search as written are not modelled.
- Kruskal.GetMST: minimality is stated through the cycle property: every edge of `g` is joined in the forest by a walk of edges no heavier than it. A comparison of total weights is not stated.
- WidestPaths.GetWidestPath: the widest-path promise is stated only for graphs with no edge of weight `Integer.MIN_VALUE`; with one, the path returned can be narrower (see Findings).
- MinHeaps.BinaryMinHeap.Add: values are never `null` and the value-to-index map is a Dafny `map`, so two behaviours of the repository's own `HashMap` behind BinaryMinHeap.java:39 are not modelled: a `null` value, which `add(1.0, null)` lets in, and the overflow of the table doubling once the table has 2^30 buckets.
- MinHeaps.BinaryMinHeap.ExtractMin: for the same reason the NullPointerException of `map.remove(null)` at BinaryMinHeap.java:96 is not modelled: after `add(1.0, null)` and `add(2.0, 0)`, `extractMin()` removes the key `null`, and the repository's `HashMap.remove` then calls `equals` on it. The `map.replace` calls of the sifts (BinaryMinHeap.java:55-56, 117-139) are plain map updates.
- HashMaps.HashMap.ContainsValue: values are never `null`, so the NullPointerException of `containsValue(null)` is not modelled.

## Findings

| source | as written | input that shows it | evidently intended | confidence | as-written member | corrected member |
|---|---|---|---|---|---|---|
| ResizingDequeImpl.java:108-117 | polling the only element, held in the last slot, resets `head` to 0 but leaves `tail`, so the empty deque reports size 2 | a BFS queue: `addLast(0)`, `pollFirst()`, `addLast(1)`, `addLast(2)`, then three `pollFirst()` calls; the third returns `null` | the deque is empty after as many polls as adds | not executed | ResizingDeques.StarGraphQueue | CircularDeques.CircularDeque.PollFirst |
| ResizingDequeImpl.java:44-49 | after `addLast` into an empty deque, `head == tail == 0`, and `addFirst` writes to `arr[head - 1]` | `addLast(1)`, `addFirst(2)` | `addFirst` wraps to the end of the array | not executed | ResizingDeques.AddLastThenAddFirstFails | CircularDeques.CircularDeque.AddFirst |
| ResizingDequeImpl.java:90-92 | `addLast` after `pollLast` has moved `tail` to -1 writes at index 0 and lowers `tail` again | `addFirst(1)`, `addLast(2)`, `pollLast()`, `addLast(3)`; `size()` is then 0 | the deque holds 1 and 3 | not executed | ResizingDeques.AddLastLosesElements | CircularDeques.CircularDeque.AddLast |
| ResizingDequeImpl.java:75-76 | when growing a full wrapped window, the second copy loop starts its index `i` at `temp.length - head - tail - 1` and reads `temp[i]`; for a window of length 4 with `head` 3 and `tail` 2 that start is -2 | `addFirst(1)`, `addFirst(2)`, `addFirst(3)`, `addLast(4)`, `addLast(5)` | the window is copied in order into the larger array | not executed | ResizingDeques.WrappedGrowFails | CircularDeques.CircularDeque.Resize |
| ResizingDequeImpl.java:160-162 | `hasNext` is false once the cursor reaches `tail`, so the iterator never yields `arr[tail]` | `addLast(1)`, `addLast(2)`, then iterate: only 1 | the iteration yields every element from head to tail | not executed | ResizingDeques.IterationSkipsTail | CircularDeques.CircularDeque.Elements |
| ResizingDequeImpl.java:93-95 | `addLast` on a deque that is not full writes `arr[tail + 1]` without wrapping, so a window that ends at the last slot with free slots before `head` runs past the array | a BFS queue over 0-1, 0-2, 0-3, 1-4, 2-5 from 0: after three polls the state is `[null, null, 3, 4]`, head 2, tail 3, and `addLast(5)` writes `arr[4]` | the new element wraps to index 0 | not executed | ResizingDeques.BfsQueueOverrun | CircularDeques.CircularDeque.AddLast |
| WidestPath.java:37 | `e.weight = 0 - e.weight` leaves `Integer.MIN_VALUE` unchanged, so that edge stays the lightest after negation and Kruskal keeps it | edges 0-1 of weight `Integer.MIN_VALUE` and 0-2, 2-1 of weight 5; `getWidestPath(g, 0, 1)` returns `[0, 1]`, of width `MIN_VALUE`, although `[0, 2, 1]` has width 5 | the weights are flipped by a map that reverses their order, such as `-1 - e.weight` | not executed | WidestPaths.MinValueStaysNarrowest | WidestPaths.GetWidestPathComplement |
| TrieMap.java:109-113 | `size++` runs on every successful `put`, also when the key already had a value | `put("a", 1)`, `put("a", 2)`: `size()` is 2 with one key | `size` counts the keys that have a value | not executed | Tries.OverwriteCountedTwice | Tries.TrieMap.PutCounted |
| TrieMap.java:136-176 | the last step of `get` and `containsKey` reads `walker.children[x].value` without testing the child or the array for `null` | `new TrieMap().get("a")` | `get` returns `null` and `containsKey` false for an absent key | not executed | Tries.AbsentKeyThrows | Tries.TrieMap.GetChecked |
