# A* path finder — a verified Dafny model

This project models the algorithmic core of `pathfinder.cpp`, a command-line
A* search over an undirected weighted road graph. The model has three modules.

- `Heap` (heap.dfy) is the custom binary min-heap of `(vertex, f-score)`
  entries that serves as the search frontier. It has sift-up insertion, a
  recursive sift-down (`heapify`), `extractMin` and `isEmpty`. Like pathfinder.cpp
  it has no decrease-key, so a vertex may be in the heap several times.
- `Graphs` (graph.dfy) is the adjacency-list graph. `addEdge` pushes one
  record on the head of each endpoint's list and never removes duplicates.
  The linked lists become sequences, newest record first.
- `Search` (search.dfy) holds the rest:
  - the `|a - b|` heuristic;
  - the A* loop with its `g`, `f` and `parent` vectors;
  - the recursive path printer, which becomes a function (`PathTo`) that
    returns the path as a sequence.

  The search returns `Found(distance, path)` or `NotFound` instead of
  printing.

`MinHeap` and `Graph` are classes whose `seq` fields the methods reassign.
The search loop and the neighbour loop are `while` loops over those objects
and over the `g`, `f` and `parent` sequences.

What is proved:

- **Heap.** `insert` and `extractMin` keep the min-heap property. The contents
  change by exactly the inserted or removed entry, as multisets. The extracted
  entry's key is no larger than any key left in the heap, so successive
  extractions come out in order.
- **Graph.** `addEdge` puts the two twin records at the heads of the two
  lists and leaves the other lists alone. It keeps the lists in twins, the
  invariant that makes the graph undirected. Hence every walk can be followed
  backwards at the same cost, and a vertex with no records is unreachable.
- **Search.** `g` only improves, and `g[src] = 0` with no parent. Every heap
  entry is for a reached vertex. Every parent link is a record of the parent's
  list, with `g[parent] + w <= g[child]`. Every finite `g[v]` is the weight of
  a real walk from the source.
  - On reaching the target, the reported path runs from the source to the
    target along real edges, and some walk weighs exactly the reported
    distance. pathfinder.cpp in fact prints a path of exactly that weight;
    the model proves only that the path weighs no more than the distance
    (see "Left out").
  - When the heap runs empty, the target is unreachable.
  - When source and target coincide, the result is distance 0 and path
    `[src]`.
  - The search always terminates when weights are non-negative.

Ghost state (a `Trace`: improvement stamps, the weight of each parent record,
and a witness walk per vertex) carries these facts. It changes nothing the
search computes.

## Model

| member | source | states |
|---|---|---|
| Heap.Parent | pathfinder.cpp:32 | the parent slot of a non-root slot is smaller and has that slot as its left or right child; for slot 0 the truncating `(0 - 1) / 2` gives 0 |
| Heap.Left | pathfinder.cpp:33 | the left child slot lies after its parent and is odd |
| Heap.Right | pathfinder.cpp:34 | the right child slot follows the left one and is even |
| Heap.Swap | pathfinder.cpp:41 | exchanging two slots exchanges exactly those two entries and keeps the multiset of entries |
| Heap.SiftUpStep | pathfinder.cpp:40-42 | one exchange of the sift-up loop moves the only heap-order violation one level towards the root |
| Heap.SiftDownStep | pathfinder.cpp:47-57 | exchanging a slot with its smallest child, when that child is smaller, moves the only violation down to the child |
| Heap.RootIsMinimum | pathfinder.cpp:62-75 | in a min-heap the root's key is no larger than any other key |
| Heap.ExtractionOrder | pathfinder.cpp:62-75 | after removing the root, every entry that can be extracted next has a key no smaller than the removed one |
| Heap.MinHeap.constructor | pathfinder.cpp:28-30 | a new heap is empty and valid |
| Heap.MinHeap.Insert | pathfinder.cpp:36-44 | the heap stays a min-heap, grows by one, and its multiset gains exactly the new entry |
| Heap.MinHeap.Heapify | pathfinder.cpp:46-60 | from a heap whose only violation is at slot i, sifting down restores the heap property and only permutes the entries |
| Heap.MinHeap.ExtractMin | pathfinder.cpp:62-75 | on a non-empty heap, returns the old root, whose key is at most every remaining key; the heap shrinks by one, loses exactly that entry and stays a min-heap |
| Heap.MinHeap.IsEmpty | pathfinder.cpp:77-79 | true exactly when the heap holds no entry |
| Graphs.Graph.constructor | pathfinder.cpp:88-91 | n vertices, every adjacency list empty, and the graph is valid |
| Graphs.Graph.AddEdge | pathfinder.cpp:94-103 | (v, w) goes to the head of u's list and (u, w) to the head of v's list; a self-loop adds both to u's list; other lists are unchanged and the graph stays valid |
| Graphs.PushedBoth | pathfinder.cpp:95-102 | the two pushes, in the order of pathfinder.cpp, prepend the twin records to the endpoints' lists and change no other list |
| Graphs.PrependedCount | pathfinder.cpp:95-102 | after the pushes, a list holds each record once more per push onto it, and as often as before otherwise |
| Graphs.AddEdgeKeepsSymmetry | pathfinder.cpp:94-103 | adding an edge keeps every record naming a vertex and keeps the lists in twins (u holds (v, w) as often as v holds (u, w)) |
| Graphs.EdgeTwin | pathfinder.cpp:99-102 | in a graph built by addEdge, (v, w) is in u's list exactly when (u, w) is in v's list |
| Graphs.WalkReverses | pathfinder.cpp:99-102 | every walk can be followed backwards, through the reverse records, at the same total weight |
| Graphs.IsolatedUnreachable | pathfinder.cpp:94-103 | a vertex with an empty list is reachable from no other vertex |
| Search.Heuristic | pathfinder.cpp:120-122 | the heuristic is a non-negative difference of the two vertex numbers, and it is 0 exactly when they are equal |
| Search.PathTo | pathfinder.cpp:125-132 | following parent links from j ends at a vertex without a parent, and the result is that chain in source-to-j order, ending at j |
| Search.ChainIsUnique | pathfinder.cpp:125-132 | every parent chain ending at j is the path PathTo returns for j |
| Search.InitInv | pathfinder.cpp:137-144 | after initialisation (only the source reached, g = 0, f = h(src), one heap entry) the search invariant holds |
| Search.PopInv | pathfinder.cpp:146-147 | popping an entry of a non-target vertex leaves a reached vertex whose records are about to be relaxed, with the invariant intact |
| Search.RelaxRecord | pathfinder.cpp:159-167 | the strict test g[u] + w < g[v] (with an unreached v always improved) decides between setting g[v], f[v] = g[v] + h(v), parent[v] = u and pushing (v, f[v]), or changing nothing |
| Search.RelaxationKeepsInv | pathfinder.cpp:159-167 | one relaxation keeps the search invariant, never worsens a g-score, and either strictly improves one or leaves the heap unchanged |
| Search.RelaxBasics | pathfinder.cpp:159-163 | an improving record has a non-negative weight, leads to a vertex other than u and the source, is in u's list, and strictly lowers a g-score |
| Search.RelaxLinks | pathfinder.cpp:163-165 | setting parent[v] = u with g[v] = g[u] + w keeps every parent link a record of the parent's list that does not lead upwards |
| Search.RelaxWitness | pathfinder.cpp:163 | the new g[v] is the weight of the walk to u extended by the record (v, w) |
| Search.RelaxAccounted | pathfinder.cpp:166 | after the push, every heap entry is for a reached vertex and every reached vertex is waiting in the heap or relaxed |
| Search.RelaxInv | pathfinder.cpp:162-167 | an improving relaxation strictly improves the g-scores and keeps the whole search invariant |
| Search.SkipInv | pathfinder.cpp:162-169 | skipping a record that leads to an already reached vertex keeps the invariant |
| Search.FinishInv | pathfinder.cpp:157-170 | once all of u's records are relaxed, u needs no further relaxation |
| Search.RelaxNeighbours | pathfinder.cpp:157-170 | relaxing u's whole list keeps the invariant, never worsens a g-score, and either strictly improves one or keeps the heap's size; afterwards g[u] is unchanged, every record (v, w) of u's list leads to a reached v with g[v] <= g[u] + w, a vertex whose g changed now has parent u and g = g[u] + w for one of u's records (v, w), a parent changes only with its g, and a vertex no record of u leads to keeps its g, f and parent; no heap entry is removed, every vertex whose g changed waits in the heap with its new f-score, and every added entry is for a vertex one of u's records leads to |
| Search.HeapProgress | pathfinder.cpp:162-166 | relaxing record k extends the heap facts (nothing removed, each changed vertex pushed with its new f-score, additions only for u's records) from u's first k records to its first k + 1 |
| Search.RelaxationProgress | pathfinder.cpp:157-170 | relaxing record k extends these facts from u's first k records to its first k + 1 |
| Search.RelaxedAll | pathfinder.cpp:157-170 | once the whole list is relaxed: g[u] is unchanged, each record (v, w) of u leaves g[v] <= g[u] + w, a changed parent is u, a vertex whose g changed has parent u and g = g[u] + w for one of u's records, a vertex whose g did not change keeps its parent, and a vertex no record leads to keeps its g, f and parent |
| Search.BetterTrans | pathfinder.cpp:146-171 | improvements compose, and a strict improvement in either step is strict overall |
| Search.ImprovementDecreases | pathfinder.cpp:146-171 | an improvement never increases the count of unreached vertices, or their total score when that count is equal, and a strict improvement decreases one of them, so the search loop terminates |
| Search.LinksAreRanked | pathfinder.cpp:125-132 | the parent links rank vertices by (g-score, time of last improvement), so every parent chain is finite |
| Search.ChainIsWalk | pathfinder.cpp:125-132 | a parent chain ending at a reached vertex is a walk of reached vertices whose weight is at most the difference of the end scores |
| Search.FoundPath | pathfinder.cpp:149-153 | when the target is popped, the printed path starts at the source, ends at the target, follows real records and weighs at most g[target] |
| Search.WalkStaysReached | pathfinder.cpp:157-170 | once every reached vertex has been relaxed, a walk from the source visits only reached vertices |
| Search.ExhaustedMeansUnreachable | pathfinder.cpp:146-173 | when the heap runs empty without popping the target, no walk leads from the source to the target |
| Search.AStar | pathfinder.cpp:135-174 | returns a real path from src to target of weight at most the distance, and a walk of exactly that distance; NotFound only when the target is unreachable; distance 0 and path [src] when src == target |

## Left out

- `main` is left out (pathfinder.cpp:176-1088). This covers argument handling, the hard-coded edge tables and the selection of an edge set by mode, time and weather. It is process glue and data, not logic.
- All console output is left out (`printGraph` at pathfinder.cpp:106-116 and the messages at 150-153 and 173). The search returns an `Outcome` value instead, and `PathTo` returns the path that `printPath` prints.
- The `ListNode` allocation in `addEdge` is left out, along with the fact that the lists are never freed. Adjacency lists are sequences.
- The `server.js` HTTP handler and the browser script under `public/` are left out. They are network and UI code with nothing to verify.
- C++ `int` arithmetic is left out. Scores are unbounded naturals, and `INT_MAX` ("not reached") is the value `Infinite`. The test `g[u] + weight < g[v]` with `g[v] == INT_MAX` is taken to hold, as it does for sums below `INT_MAX`. Overflow of `g[u] + weight` is not modelled.
- Search.AStar: requires non-negative edge weights. With a negative weight on an undirected edge the loop of pathfinder.cpp need not terminate, because it keeps improving the two endpoints.
- Search.AStar: requires src to be a vertex, because pathfinder.cpp indexes `g[src]` unchecked. The target is never used as an index (it is only compared and passed to the heuristic), so an out-of-range target yields NotFound, as in the code. A separate "invalid input" outcome does not exist in the code and is not modelled.
- Search.AStar: does not state that the reported distance is the shortest. With the `|a - b|` heuristic it need not be. It states that the path is real and that some walk weighs exactly the distance.
- Search.AStar: states that the printed path weighs at most the reported distance, while pathfinder.cpp prints a path of exactly that weight. The reason it holds: when a vertex's g-score falls after its last pop, the links to its children become loose. It is pushed again with a key below its old key, and every waiting entry of a vertex below it in the parent tree has a key at least that old key. So it is popped and re-tightens those links before anything below it is popped. The model's invariant ties each parent link to the current g-scores only. It does not carry this bound on the keys of waiting entries across whole parent subtrees, so the equality is not proved.
- Search.FoundPath: states that the parent chain of the popped target weighs at most g[target], not exactly g[target], for the reason given for Search.AStar above.
- Search.RelaxNeighbours: states that the heap keeps its size when no score improves, not that it is unchanged. It states the heap's contents as bounds: nothing removed, an entry for every changed vertex, additions only for u's records. It does not state the exact multiset of added entries, one per improving record, because that would need a list of the improving records alongside the loop.
- Heap.MinHeap.Heapify: is stated for a whole array that is a heap except at slot i, the only way pathfinder.cpp calls it. The general claim, that the subtree at i becomes a heap when both child subtrees were heaps, is not stated.
- Graphs.Graph.constructor: takes a natural number of vertices. pathfinder.cpp accepts any `int`, and `resize` with a negative count fails at run time.
- Graphs.Graph.AddEdge: requires both endpoints to be vertices. pathfinder.cpp indexes `adjList` without checking.
