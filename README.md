# Graph algorithms: a verified Dafny model

This project models a small Python graph library and two example programs.

- **`Graph`**: an undirected graph. It keeps a vertex set, an edge set and a symmetric `neighbors` map. It offers:
  - recursive depth-first search into a caller-owned `marks` set;
  - breadth-first search into a caller-owned `parents` map;
  - connected components;
  - `path`, which walks parent pointers back to the root.
- **`DirectedGraph`**: one-way adjacency. Its depth-first search records each vertex on a deque as the vertex finishes. On top of that it offers `topsort`, `reverse`, a `components` override and `findSource`.
- **`WeightedGraph`**: symmetric adjacency plus a `weights` map keyed by ordered pairs. It offers Dijkstra's search with a lazy-deletion heap, and a Prim-style tree growth.
- **`kclique`/`check`**: a backtracking k-clique search. It appends to and pops from one shared list.
- **`HuffmanTree.encode`**: builds a Huffman tree greedily, driven by a heap.

How the Python code maps onto Dafny:

- **Graph objects** are classes (`Undirected.Graph`, `Directed.DirectedGraph`, `Weighted.WeightedGraph`). Their constructors build `neighbors` (and `weights`) in loops, as the Python initialisers do. The searches change no field of the graph.
- **Caller-owned sets and maps.** Python passes them in and mutates them in place. Here each is passed in and its new value handed back.
- **Set iteration.** A Python loop over a set becomes a loop that picks an arbitrary member of a shrinking `todo` set with `:|`. Every property is stated for any order of choice.
- **`heapq`.** A heap is the unordered list of its (priority, item) entries. A push appends, and a pop removes some entry of least priority (`Heaps.PopMin`).
- **The k-clique list** is a `Cliques.VertexList` object. A successful search hands back that same object.
- **Huffman trees** are a datatype: a leaf carries a symbol, and an internal node carries two children.

Two behaviours of the code differ from what its comments say. The model follows the code:

- **`topsort` returns the finishing order with the earliest finisher first.** On an acyclic graph that puts the head of every edge before its tail, the reverse of a topological order. See "## Findings".
- **`DirectedGraph.components` does not compute strongly connected components.** It searches from each unmarked vertex with fresh marks, so each returned set is everything reachable from its seed. The sets cover the vertices but may overlap. `Directed.ComponentsOnSingleEdge` shows that on the single edge 0 → 1 the result is exactly {{0, 1}}, a set that is not strongly connected.

## Model

| member | source | states |
|---|---|---|
| Undirected.AddEdges | ImplementedGraphs/graph.py:16-18 | after the edge loop, `u` is a neighbor of `v` exactly when `(v, u)` or `(u, v)` is an edge |
| Undirected.Graph.constructor | ImplementedGraphs/graph.py:8-18 | the graph keeps the given vertices and edges; every vertex has a neighbor set, and neighbors are exactly the other ends of the edges at a vertex |
| Undirected.Graph.AdjacencyFacts | ImplementedGraphs/graph.py:13-18 | the adjacency of a built graph is symmetric and closed over the vertices |
| Undirected.Graph.Dfs | ImplementedGraphs/graph.py:65-79 | the marks only grow; the result is the old marks plus `v` plus every vertex reachable from `v` through unmarked vertices, so from empty marks it is exactly the reach set of `v` |
| Undirected.Graph.Components | ImplementedGraphs/graph.py:21-45 | the components are non-empty and pairwise disjoint, their union is the vertex set, and each equals the reach set of any of its members |
| Paths.ReachSetsEqualOrDisjoint | ImplementedGraphs/graph.py:33-43 | in a symmetric adjacency two reach sets are equal or disjoint |
| Undirected.Graph.Bfs | ImplementedGraphs/graph.py:82-107 | `v` becomes its own parent; keys other than `v` already present keep their parents; the new keys are `v` plus the vertices reachable through vertices that had no parent; they form a breadth-first tree in which each vertex hangs below a neighbor one level up |
| Undirected.Graph.Expand | ImplementedGraphs/graph.py:99-107 | expanding the popped vertex gives exactly the neighbors without a parent that vertex as parent and the next level, and appends exactly those neighbors to the frontier, once each; earlier parents and levels are kept; the frontier stays sorted by level and spans at most two levels |
| Undirected.Graph.SearchDone | ImplementedGraphs/graph.py:97-107 | when the frontier empties, the found vertices are exactly those reachable around the blocked keys, in a breadth-first tree |
| Undirected.Graph.Path | ImplementedGraphs/graph.py:109-122 | `None` exactly when `v` has no parent; otherwise a chain from a self-parented root to `v` in which each entry is the parent of the next; `[v]` when `v` is its own parent |
| Undirected.Graph.ShortestPath | ImplementedGraphs/graph.py:82-122 | a search from an empty map followed by `path` gives `None` exactly for unreachable targets, and otherwise a walk from the source with the fewest edges |
| ParentMaps.ChainIsShortest | ImplementedGraphs/graph.py:109-122 | the parent chain of any vertex of a complete breadth-first tree is a walk from the root, and no walk from the root to that vertex is shorter |
| Directed.AddArcs | ImplementedGraphs/directed_graph.py:17-18 | after the edge loop, `u` is a neighbor of `v` exactly when `(v, u)` is an edge; no reverse entry is added |
| Directed.DirectedGraph.constructor | ImplementedGraphs/directed_graph.py:9-18 | the graph keeps the given vertices and edges, with the one-way adjacency |
| Directed.DirectedGraph.Dfs | ImplementedGraphs/directed_graph.py:21-48 | `allMarks` gains `v` and every vertex reachable from `v` through unmarked vertices; `newMarks` gains the same; the deque gains exactly those vertices in front, each once, with `v` first; inside a search whose open vertices reach `v`, the deque stays a finishing order |
| Directed.DirectedGraph.TopologicalOrder | ImplementedGraphs/directed_graph.py:58-62 | the deque after searching from every unmarked vertex holds each vertex once and is a finishing order: each vertex's neighbors come after it unless they reach it |
| Directed.FinishOrderIsTopological | ImplementedGraphs/directed_graph.py:58-62 | on an acyclic graph that deque lists the tail of every edge before its head |
| Directed.DirectedGraph.Topsort | ImplementedGraphs/directed_graph.py:51-63 | the result is a permutation of the vertices and a finishing order with the earliest finisher first |
| Directed.ReversedFinishOrder | ImplementedGraphs/directed_graph.py:63 | reversing a latest-first finishing order gives an earliest-first one |
| Directed.PostOrderReversesEdges | ImplementedGraphs/directed_graph.py:51-63 | on an acyclic graph the result of `topsort` lists the head of every edge before its tail |
| Directed.TopsortOnSingleEdge | ImplementedGraphs/directed_graph.py:51-63 | on the single edge 0 → 1 every possible `topsort` result is `[1, 0]` |
| Directed.DirectedGraph.Reverse | ImplementedGraphs/directed_graph.py:81-88 | a new graph with the same vertices in which `(w, u)` is an edge exactly when `(u, w)` is one, so its adjacency is the original's turned around; the original is not changed |
| Directed.ReversedEdgesInvolution | ImplementedGraphs/directed_graph.py:86-88 | reversing twice gives the original edge set |
| Directed.DirectedGraph.ReverseTopsort | ImplementedGraphs/directed_graph.py:73 | the seeds of the component search are the vertices, each once, in a finishing order of the reverse graph with the earliest finisher first: every neighbor in the reverse graph of a seed comes before it or reaches it there |
| Directed.DirectedGraph.SearchFromScratch | ImplementedGraphs/directed_graph.py:75-76 | a search from `v` with no marks marks exactly the vertices reachable from `v`: its result is that reach set |
| Directed.DirectedGraph.Components | ImplementedGraphs/directed_graph.py:65-79 | the result is what sweeping the seeds in order gives: each seed not yet marked adds its forward reach set and marks it, each marked seed adds nothing; so every returned set is the reach set of one of its members, and together the sets cover exactly the vertices |
| Directed.ComponentsOnSingleEdge | ImplementedGraphs/directed_graph.py:65-79 | on the single edge 0 → 1 the seeds are 0 then 1 and the result is exactly {{0, 1}}, although 1 does not reach 0 |
| Directed.DirectedGraph.FindSource | ImplementedGraphs/directed_graph.py:90-104 | the result is a vertex in no neighbor set; `None` only when every vertex is in some neighbor set |
| Weighted.AddLinks | ImplementedGraphs/weighted_graph.py:17-19 | after the edge loop, the neighbors of a vertex are exactly the other ends of the edges at it |
| Weighted.AddWeights | ImplementedGraphs/weighted_graph.py:22-25 | both orientations of every joined pair get the same weight, the weight of an edge joining them |
| Weighted.OnlyEdgeWeight | ImplementedGraphs/weighted_graph.py:22-25 | when one edge `(u, v, w)` is the only one joining its ends, `weights[(u, v)] == weights[(v, u)] == w` |
| Weighted.WeightedGraph.constructor | ImplementedGraphs/weighted_graph.py:9-25 | the graph keeps the given vertices and edges, with symmetric adjacency and weights for both orientations |
| Weighted.WeightedGraph.AdjacencyFacts | ImplementedGraphs/weighted_graph.py:14-25 | the adjacency is symmetric and closed, and every step between neighbors has a weight |
| Heaps.PopMin | ImplementedGraphs/weighted_graph.py:62 | `heappop` removes and returns an entry of least priority and keeps the rest |
| Weighted.WeightedGraph.Relax | ImplementedGraphs/weighted_graph.py:68-77 | each neighbor whose cost is missing or higher than the cost through the popped vertex gets that cost and that parent and is pushed; every other neighbor and every key that is not a neighbor keeps its cost and parent; the entries appended to the queue are exactly one (cost through the popped vertex, neighbor) per lowered neighbor, each once; old costs only go down; with fresh maps and no negative weight, all neighbors of the popped vertex are relaxed afterwards |
| Weighted.WeightedGraph.PoppedIsOptimal | ImplementedGraphs/weighted_graph.py:60-66 | with no negative weight, the unsettled vertex popped with least cost has no cheaper walk from the start |
| Weighted.WeightedGraph.PopUnsettled | ImplementedGraphs/weighted_graph.py:62-66 | a vertex popped for the first time has its cost as priority, and settling it keeps the search invariant |
| Weighted.WeightedGraph.PopSettled | ImplementedGraphs/weighted_graph.py:62-64 | popping an already settled vertex changes nothing but the queue |
| Weighted.WeightedGraph.SearchDone | ImplementedGraphs/weighted_graph.py:60-77 | once the queue is empty, every vertex with a cost is settled, the costs cover exactly the reachable vertices, and each cost is the least weight of a walk |
| Weighted.WeightedGraph.Dijkstra | ImplementedGraphs/weighted_graph.py:40-77 | for any maps: `v` is written, `parents` and `costs` gain the same keys, other entries are kept, costs only go down, and every new parent is a neighbor; from empty costs with no negative weight: the keys are the reachable vertices, each cost is the least walk weight, and `costs[u] == costs[parents[u]] + weights[(parents[u], u)]` for `u != v` |
| Weighted.WeightedGraph.PrimVisit | ImplementedGraphs/weighted_graph.py:100-116 | an unfinished neighbor gets the popped vertex as parent and its entry (edge weight, neighbor) is appended, a second time when the popped cost exceeds the edge weight; a finished neighbor changes nothing; afterwards it is finished or queued and nothing queued is lost |
| Weighted.WeightedGraph.PrimExpand | ImplementedGraphs/weighted_graph.py:100-116 | after the inner loop every neighbor of a finished vertex is finished or queued, and the tree invariant holds |
| Weighted.WeightedGraph.PrimStep | ImplementedGraphs/weighted_graph.py:94-116 | one round either finishes one more vertex or removes a queued entry of a finished vertex, so the loop terminates |
| Weighted.WeightedGraph.GrowingDone | ImplementedGraphs/weighted_graph.py:94-116 | when the queue is empty the written vertices are exactly the finished ones and the reach set of `v`, and every parent chain leads to `v` |
| Weighted.WeightedGraph.Prim | ImplementedGraphs/weighted_graph.py:79-116 | terminates; writes exactly the vertices reachable from `v`; keeps the caller's other entries; `v` is its own parent; every other written vertex has a written neighbor as parent; every parent chain reaches `v` within as many steps as there are written vertices |
| Cliques.Check | Examples/kclique.py:46-64 | true exactly when the list is empty or the vertex is a neighbor of every member |
| Cliques.VertexList.Append | Examples/kclique.py:38 | the list gains the vertex at its end |
| Cliques.VertexList.Pop | Examples/kclique.py:43 | the last vertex is removed and returned |
| Cliques.CliqueAppend | Examples/kclique.py:31-38 | a vertex outside the clique that `check` accepts extends it to a clique |
| Cliques.NotJoinedNoClique | Examples/kclique.py:36-37 | a candidate that `check` rejects lies in no clique containing the list |
| Cliques.AllCandidatesFail | Examples/kclique.py:24-43 | when no candidate leads to a `k`-clique, no `k`-clique contains the list |
| Cliques.KCliqueFrom | Examples/kclique.py:19-43 | a found answer is the same list object, now a `k`-clique extending the old list; when nothing is found the list is restored and no `k`-clique contains its vertices |
| Cliques.KClique | Examples/kclique.py:8-43 | a result is a clique of exactly `k` distinct, pairwise-adjacent vertices; `None` exactly when no such clique exists; `k == 0` gives the empty list |
| Huffman.PushLeaf | Examples/huffmanTree.py:66-68 | pushing the leaf of a new symbol with its frequency keeps the queue invariant |
| Huffman.PushLeaves | Examples/huffmanTree.py:65-68 | the queue holds one leaf per symbol, with its frequency as priority |
| Huffman.QueueTakeOut | Examples/huffmanTree.py:70-71 | popping an entry takes its tree's leaves, internal nodes and priority out of the queue's totals |
| Huffman.MergeKeepsForest | Examples/huffmanTree.py:70-73 | merging the two popped entries under a new node, with the sum of their priorities, keeps every symbol at exactly one leaf and every priority equal to its tree's weight |
| Huffman.MergeAll | Examples/huffmanTree.py:69-73 | the merge loop keeps the invariant and leaves exactly one entry when there was at least one, and a single entry as it was |
| Huffman.LastEntry | Examples/huffmanTree.py:74-75 | the last entry's tree has every symbol once, one internal node fewer than symbols, and weight equal to its priority, which is the total frequency |
| Huffman.Encode | Examples/huffmanTree.py:58-75 | for a non-empty mapping, the tree's leaves are exactly the keys, each once; it has `n - 1` internal nodes; its weight is the sum of all frequencies; one key gives a single leaf; an empty mapping gives no tree |

## Left out

- `__str__` (ImplementedGraphs/graph.py:48-62, ImplementedGraphs/weighted_graph.py:28-37) and `HuffmanTree.display`: they only format and print.
- The test drivers `do_tests`, `test` and `run_tests`: they print and read console input.
- Examples/transform.py: it reads a word file at import time and loops on console input.
- `HuffmanTree.__lt__`: it only breaks ties between equal priorities. `Heaps.PopMin` may remove any entry of least priority.
- `heapq` and `deque` internals: a heap is an unordered list of entries, and a deque is a sequence.
- Python set iteration order: every loop over a set picks an arbitrary remaining member.
- Floating-point weights: weights are unbounded integers.
- Recursion-depth limits of the recursive searches.
- Unknown vertices: the Python code raises `KeyError`. Here a vertex passed to a search must be a vertex of the graph, and a constructor's edges must join vertices of the graph.
- Mutation in place of caller-owned sets, maps and deques: each operation returns the new value. So aliasing between, say, `newMarks` and `allMarks` is not modelled. The k-clique list is the one object updated in place.
- Weighted.AddWeights: when two edges join the same pair with different weights, the code keeps whichever it writes last, which depends on set iteration order. The model states only that the weight is that of some edge joining the pair.
- Undirected.Graph.Path: requires the parent pointers from `v` to reach a self-parented root. Otherwise the Python loop never ends, or raises `KeyError` when a pointer leads to a vertex that is not a key.
- Directed.DirectedGraph.Dfs: the Python default arguments (`allMarks=None`, `order=None`) are not modelled; callers pass an empty set and an empty sequence.
- Weighted.WeightedGraph.Dijkstra: optimality of the costs and the cost tree are stated only for a search started with no costs and with no negative weight. With costs already present, stale entries can block updates. The "each vertex is expanded at most once" rule is part of the loop invariant, not a separate postcondition.
- Weighted.WeightedGraph.Prim: minimality of the spanning tree is not stated. The repeated `i not in finished` test and the comparison against the popped cost `c` mean the code does not follow textbook Prim.
- Cliques.KCliqueFrom: requires the list it is given to be a clique already. The public entry `Cliques.KClique` starts from the empty list, which is one.
- Huffman.Encode: an empty mapping makes the final `heappop` raise `IndexError`. Here the result is `None`.
- Huffman.MergeAll: that each merge pops the two entries of least priority comes from `Heaps.PopMin`'s contract. It is not restated in `MergeAll`'s postcondition.

## Findings

| source | as written | input that shows it | evidently intended | confidence | as-written member | corrected member |
|---|---|---|---|---|---|---|
| ImplementedGraphs/directed_graph.py:51-63 | `topsort` returns the finishing deque reversed, so the earliest finisher comes first | the graph with vertices 0, 1 and the single edge 0 → 1: the result is `[1, 0]` | a topological order, as the docstring promises: the finishing deque itself, which on an acyclic graph lists the tail of every edge before its head | not executed | Directed.TopsortOnSingleEdge | Directed.DirectedGraph.TopologicalOrder |

`Directed.DirectedGraph.Topsort` models the code as written: it reverses the result of `Directed.DirectedGraph.TopologicalOrder`. `Directed.PostOrderReversesEdges` proves that on every acyclic graph the as-written result puts the head of each edge before its tail. `Directed.FinishOrderIsTopological` proves the intended property of the corrected order. The component search keeps the as-written `topsort` because that is what the code calls. Its result depends on that order: on the single edge 0 → 1, seeding from 0 first gives {{0, 1}} (`Directed.ComponentsOnSingleEdge`), whereas seeding from 1 first would give {{1}, {0, 1}}.
