# Verified model of a DAG-analysis graph pipeline

This project models the core of a small Java graph library (package
`org.harryfloppa.graph`). The library covers:

- a weighted adjacency-list graph;
- Tarjan's strongly-connected-components search;
- the condensation of a graph into a DAG of its components;
- Kahn's topological sort with cycle detection;
- single-source shortest and longest paths over a DAG;
- the global critical path of a DAG.

Every Java class that updates fields in place becomes a Dafny class with those fields:

- `Graphs.Graph` keeps its adjacency lists in a `seq` field that `AddEdge` reassigns.
- `Tarjan.TarjanScc` keeps `disc`, `low` and `onStack` as arrays, and `stack`, `sccs` and `time` as fields; its recursive `Dfs` updates them in place.
- `Condensation.CondensationGraph` builds its graph through a `bool` matrix (`array2`).

The algorithms receive the graph as a read-only value, `Digraph(n, directed, adj)`. Each loop of the Java code is a `while`/`for` loop with its invariants. Each method is proved against specification predicates:

- paths, reachability and cycles (`Paths`);
- a partition into mutually reachable groups in reverse topological order (`TarjanState`);
- the condensation as a fold over all records (`Condensation.Build`);
- in-degrees and cycle reachability (`Kahn`);
- optimal path weights and parent trees (`Relaxation`).

Files:

- `graph.dfy`: module `Graphs`, the graph object, edge records, errors and the reversed lists.
- `paths.dfy`: module `Paths`, paths, weighted paths, reachability, cycles and topological orders.
- `tarjan_state.dfy`, `tarjan_steps.dfy`, `tarjan_search.dfy`: the search state as a value, its invariant, and lemmas for each step of the search.
- `tarjan.dfy`: module `Tarjan`, the search object and the result object with its vertex map.
- `condensation.dfy`: module `Condensation`.
- `kahn.dfy`: module `Kahn`.
- `relax.dfy`: module `Relaxation`, the relaxation loop shared by the three path solvers, and path reconstruction.
- `shortest.dfy`, `longest.dfy`: the solvers.

How the Java features appear in the model:

- Errors: each `IllegalArgumentException` or `UnsupportedOperationException` the code throws becomes an `Err`/`Fail` value (`NotDirected`, `NotADag`, `VertexOutOfBounds` or `UndirectedReverse`). Every contract states when each one occurs.
- Sentinel distances: the `Integer.MAX_VALUE` / `Integer.MIN_VALUE` sentinels become `None`.
- Constructor checks: the directedness check in each algorithm's constructor, followed by its main method, is one module-level method:
  - `Tarjan.FindStronglyConnected`;
  - `Kahn.Sort`;
  - `DagShortestPath.ComputeShortestPaths`;
  - `DagLongestPath.ComputeLongestPaths`;
  - `DagLongestPath.ComputeCriticalPath`.

## Model

| member | source | states |
|---|---|---|
| Graphs.Graph.constructor | src/main/java/org/harryfloppa/graph/Graph.java:26-33 | exactly n empty adjacency lists and the given directed flag |
| Graphs.Graph.AddEdge | src/main/java/org/harryfloppa/graph/Graph.java:35-43 | an endpoint outside [0,n) fails with VertexOutOfBounds and changes nothing; otherwise (to, w) is appended to `from`'s list, and for an undirected graph (from, w) is also appended to `to`'s list; the total list size stays equal to the number of accepted calls (twice that when undirected) |
| Graphs.Graph.GetAdjacent | src/main/java/org/harryfloppa/graph/Graph.java:45-47 | every record of a returned list points at a vertex in [0,n) |
| Graphs.Graph.EdgeCount | src/main/java/org/harryfloppa/graph/Graph.java:53-59 | the result is the total list size for a directed graph and half of it for an undirected one, and in both cases equals the number of successful addEdge calls |
| Graphs.Graph.Reverse | src/main/java/org/harryfloppa/graph/Graph.java:65-76 | an undirected graph fails with UndirectedReverse; otherwise a fresh directed graph with the same n whose lists are the reversed lists, holding as many edges as the original |
| Graphs.AddReversedLists | src/main/java/org/harryfloppa/graph/Graph.java:70-74 | the two nested loops, starting from n empty lists, produce exactly the reversed lists and add one edge per original record |
| Graphs.AddReversedList | src/main/java/org/harryfloppa/graph/Graph.java:71-73 | the inner loop over u's list adds each record u->(v,w) as v->(u,w), keeping the order of the scan |
| Graphs.ReverseListsCorrect | src/main/java/org/harryfloppa/graph/Graph.java:65-76 | the reversed lists have n entries and the same total size, and v->(x,w) occurs in them exactly as often as x->(v,w) occurs in the original |
| Graphs.ReverseTwice | src/main/java/org/harryfloppa/graph/Graph.java:65-76 | reversing twice gives back every list as a multiset (order within a list may change) |
| Tarjan.FindStronglyConnected | src/main/java/org/harryfloppa/graph/scc/TarjanSCC.java:24-57 | an undirected graph fails with NotDirected; otherwise the components partition {0..n-1}, two vertices share a component exactly when each reaches the other, and the components come out in reverse topological order |
| Tarjan.TarjanScc.constructor | src/main/java/org/harryfloppa/graph/scc/TarjanSCC.java:24-30 | keeps the graph; no search state yet (empty stack and no components) |
| Tarjan.TarjanScc.FindSccs | src/main/java/org/harryfloppa/graph/scc/TarjanSCC.java:32-57 | the result's components are the object's sccs, a partition into mutually reachable groups in reverse topological order; the clock ends at n, discovery times are distinct and in [0,n), and every low-link lies between 0 and its vertex's discovery time |
| Tarjan.TarjanScc.Start | src/main/java/org/harryfloppa/graph/scc/TarjanSCC.java:33-42 | fresh arrays with disc all -1, an empty stack, no components and the clock at 0, with the search invariant established |
| Tarjan.TarjanScc.VisitAll | src/main/java/org/harryfloppa/graph/scc/TarjanSCC.java:48-52 | after the loop every vertex is discovered, the stack is empty, and the invariant holds |
| Tarjan.TarjanScc.Visit | src/main/java/org/harryfloppa/graph/scc/TarjanSCC.java:49-51 | a dfs started with an empty stack leaves it empty, and vertices 0..v are discovered afterwards |
| Tarjan.TarjanScc.Dfs | src/main/java/org/harryfloppa/graph/scc/TarjanSCC.java:59-94 | keeps the search invariant. The stack and the components only grow at the top, and u gets the clock value at the call. Earlier vertices keep their disc and low. Every vertex pushed during the call is reachable from u. Either u stays on the stack at the bottom of its new segment, with the smallest low-link there, or the stack is as it was at the call and low[u] == disc[u] |
| Tarjan.TarjanScc.Enter | src/main/java/org/harryfloppa/graph/scc/TarjanSCC.java:60-62 | u gets the current time as disc and low, the clock advances by one, and u is pushed and flagged on the stack; nothing else changes |
| Tarjan.TarjanScc.SetLowLink | src/main/java/org/harryfloppa/graph/scc/TarjanSCC.java:74-77 | only low[u] changes |
| Tarjan.TarjanScc.ExploreEdge | src/main/java/org/harryfloppa/graph/scc/TarjanSCC.java:67-79 | one pass of the edge loop of dfs extends the loop invariant from record j to record j+1 in all three cases (tree edge, edge to the stack, edge into a finished component) |
| Tarjan.TarjanScc.TreeEdge | src/main/java/org/harryfloppa/graph/scc/TarjanSCC.java:71-74 | after dfs(v) and the min-update the loop invariant holds for record j+1 |
| Tarjan.TarjanScc.AfterChild | src/main/java/org/harryfloppa/graph/scc/TarjanSCC.java:74 | the new state is the old one with low[u] replaced by min(low[u], low[v]), taken after dfs(v); nothing else changes, so low[u] never grows; the loop invariant then holds for record j+1, with every low-link in bounds |
| Tarjan.TarjanScc.BackEdge | src/main/java/org/harryfloppa/graph/scc/TarjanSCC.java:75-78 | for v on the stack, the new state is the old one with low[u] replaced by min(low[u], disc[v]); nothing else changes, so low[u] never grows; the loop invariant then holds for record j+1 |
| Tarjan.TarjanScc.Leave | src/main/java/org/harryfloppa/graph/scc/TarjanSCC.java:82-93 | when low[u] == disc[u] u's component is popped; either way the invariant and the dfs postcondition hold |
| Tarjan.TarjanScc.PopComponent | src/main/java/org/harryfloppa/graph/scc/TarjanSCC.java:83-92 | the do-while loop pops exactly the stack segment from u's position up; those vertices are unflagged, and the segment is appended, in pop order, as one new component |
| Tarjan.TarjanScc.Outcome | src/main/java/org/harryfloppa/graph/scc/TarjanSCC.java:56 | the final state yields the partition, mutual reachability, reverse topological order, time == n and distinct discovery times |
| Tarjan.SearchOutcome | src/main/java/org/harryfloppa/graph/scc/TarjanSCC.java:32-57 | a finished search state holds a partition into mutually reachable groups in reverse topological order, with time n and distinct discovery times |
| Tarjan.ComponentCountBound | src/main/java/org/harryfloppa/graph/scc/TarjanSCC.java:113-115 | a partition of n vertices has at most n components, and exactly n when every component is a single vertex |
| Tarjan.MaxVertex | src/main/java/org/harryfloppa/graph/scc/TarjanSCC.java:118-121 | the largest vertex in any component, or 0 when there are none |
| Tarjan.SccResult.GetVertexToSccMap | src/main/java/org/harryfloppa/graph/scc/TarjanSCC.java:117-132 | the map has MaxVertex + 1 entries; each entry is the last component holding that vertex, or -1 when none does (so n = 0 gives [-1]) |
| Tarjan.MapIsMembership | src/main/java/org/harryfloppa/graph/scc/TarjanSCC.java:126-130 | for a partition, map[v] == i exactly when v is in component i, and it is never -1 |
| Tarjan.MapLength | src/main/java/org/harryfloppa/graph/scc/TarjanSCC.java:118-123 | for a partition of n > 0 vertices the map has exactly n entries |
| Condensation.CondensationGraph.constructor | src/main/java/org/harryfloppa/graph/scc/CondensationGraph.java:16-21 | keeps the graph and the components, takes Tarjan's vertex map, and builds a condensation valued exactly as Condensed(graph, sccs, map) |
| Condensation.CondensationGraph.BuildCondensation | src/main/java/org/harryfloppa/graph/scc/CondensationGraph.java:23-43 | the loops produce a directed graph on the components whose lists are the fold of Step over all records in scan order |
| Condensation.CondensationGraph.ScanList | src/main/java/org/harryfloppa/graph/scc/CondensationGraph.java:32-41 | the inner loop over u's list extends the fold by u's records and keeps hasEdge equal to "some edge a->b exists" |
| Condensation.CondensationGraph.AddRecord | src/main/java/org/harryfloppa/graph/scc/CondensationGraph.java:33-40 | one record adds an edge exactly when its components differ and that pair has no edge yet, with the record's weight, and the matrix follows |
| Condensation.TarjanMapOk | src/main/java/org/harryfloppa/graph/scc/CondensationGraph.java:19 | Tarjan's vertex map of a partition sends every vertex to the component that holds it |
| Condensation.CondensedShape | src/main/java/org/harryfloppa/graph/scc/CondensationGraph.java:24-25 | the condensation is directed and has one vertex per component; no list holds a self-loop or two edges to the same component |
| Condensation.CondensedEdge | src/main/java/org/harryfloppa/graph/scc/CondensationGraph.java:30-42 | a->b is a condensation edge exactly when a != b and some original edge leads from a vertex of a to a vertex of b |
| Condensation.BuildPresent | src/main/java/org/harryfloppa/graph/scc/CondensationGraph.java:36-40 | list a of the fold has an edge to b exactly when some record crosses from a to b |
| Condensation.BuildFirstWeight | src/main/java/org/harryfloppa/graph/scc/CondensationGraph.java:37-39 | each condensation edge carries the weight of the first crossing record in scan order |
| Condensation.CondensedAcyclic | src/main/java/org/harryfloppa/graph/scc/CondensationGraph.java:23-43 | for Tarjan's components, in reverse topological order, every condensation edge leads to a lower component, so the condensation has no cycle |
| Kahn.Sort | src/main/java/org/harryfloppa/graph/topo/KahnTopologicalSort.java:17-103 | an undirected graph fails with NotDirected. Otherwise the order has no repeats and stays in range; every predecessor of a vertex comes before it; it starts with the in-degree-0 vertices in increasing order; a vertex is in it exactly when no cycle reaches it; hasCycle holds exactly when the order is short of n, and exactly when the graph has a cycle; isValid holds exactly when the graph is acyclic, and the order is then a topological order |
| Kahn.ComputeInDegrees | src/main/java/org/harryfloppa/graph/topo/KahnTopologicalSort.java:33-38 | each entry is the number of records pointing at that vertex |
| Kahn.InitialQueue | src/main/java/org/harryfloppa/graph/topo/KahnTopologicalSort.java:42-47 | the queue is exactly the in-degree-0 vertices in increasing order |
| Kahn.Release | src/main/java/org/harryfloppa/graph/topo/KahnTopologicalSort.java:58-67 | afterwards the counts are those for the emitted vertices plus u; the queue is extended at the back; a vertex is emitted, u or queued exactly when its count is 0, and each appears once |
| Kahn.Drain | src/main/java/org/harryfloppa/graph/topo/KahnTopologicalSort.java:52-68 | the emitted order has no repeats, is predecessor-closed, and begins with the seeded queue; when the loop stops, every unemitted vertex still has an unemitted predecessor |
| Kahn.Step | src/main/java/org/harryfloppa/graph/topo/KahnTopologicalSort.java:53-67 | one poll-and-release round keeps the loop invariant and emits exactly one vertex |
| Kahn.DrainedOrder | src/main/java/org/harryfloppa/graph/topo/KahnTopologicalSort.java:73 | a predecessor-closed order that stalled holds exactly the vertices no cycle reaches. Its length differs from n exactly when the graph has a cycle, and at full length it is a topological order |
| Kahn.StalledReached | src/main/java/org/harryfloppa/graph/topo/KahnTopologicalSort.java:52-68 | a vertex left out when the queue runs dry is reachable from a cycle |
| Kahn.ClosedNotReached | src/main/java/org/harryfloppa/graph/topo/KahnTopologicalSort.java:52-68 | no vertex of a predecessor-closed order is reachable from a cycle |
| Kahn.ClosedPermutationIsTopo | src/main/java/org/harryfloppa/graph/topo/KahnTopologicalSort.java:73 | a predecessor-closed permutation of the vertices puts every edge forward |
| Relaxation.RelaxFrom | src/main/java/org/harryfloppa/graph/dagsp/DAGShortestPath.java:52-63 | the inner loop keeps the parent tree. A distance changes only when it strictly improves (from unreached, or by `<` for shortest and `>` for longest), so none gets worse. A parent changes only when its distance changes, and then to u. Afterwards every record u->v is matched: dist[v] is at least as good as dist[u] + w |
| Relaxation.RelaxEdge | src/main/java/org/harryfloppa/graph/dagsp/DAGShortestPath.java:54-62 | one relaxation of the record u->v: when dist[u] + w strictly improves dist[v], both dist[v] and parent[v] := u are set. The tree stays distance-exact, every vertex is either unchanged or strictly improved with parent u, and records 0..j of u are matched |
| Relaxation.Relax | src/main/java/org/harryfloppa/graph/dagsp/DAGShortestPath.java:51-65 | after the loop over the topological order every weighted path from a start vertex is matched by its end's distance, and the parent entries form a tree of distance-exact records |
| Relaxation.SettledStep | src/main/java/org/harryfloppa/graph/dagsp/DAGShortestPath.java:51-65 | processing order[i] extends "paths through processed vertices are matched" from order[..i] to order[..i+1] |
| Relaxation.TreeBest | src/main/java/org/harryfloppa/graph/dagsp/DAGShortestPath.java:44-65 | a sound parent tree whose distances match every path holds exactly the optimal distance of each vertex (None when no path exists) |
| Relaxation.BestReach | src/main/java/org/harryfloppa/graph/dagsp/DAGShortestPath.java:97-99 | from one source, an optimal distance exists exactly for the vertices the source reaches |
| Relaxation.PathsResult.GetPath | src/main/java/org/harryfloppa/graph/dagsp/DAGShortestPath.java:105-118 | the path is empty exactly for an unreached destination; otherwise it runs from the source to dest along graph records, and its weight is dest's distance |
| Relaxation.WalkParents | src/main/java/org/harryfloppa/graph/dagsp/DAGShortestPath.java:110-117 | following parents from dest and reversing gives a weighted path from a start vertex to dest of exactly dest's distance |
| DagShortestPath.ComputeShortestPaths | src/main/java/org/harryfloppa/graph/dagsp/DAGShortestPath.java:18-70 | an undirected graph fails with NotDirected and a cyclic one with NotADag. Otherwise each distance is the least weight of a path from the source, None exactly for unreachable vertices, and the parents form a distance-exact tree rooted at the source |
| DagLongestPath.ComputeLongestPaths | src/main/java/org/harryfloppa/graph/dagsp/DAGLongestPath.java:18-70 | the same refusals; otherwise each distance is the greatest weight of a path from the source, None exactly for unreachable vertices, and the parents form a distance-exact tree rooted at the source |
| DagLongestPath.MaxScan | src/main/java/org/harryfloppa/graph/dagsp/DAGLongestPath.java:111-118 | the scan returns the greatest distance (at least 0) and the lowest vertex holding it |
| DagLongestPath.ComputeCriticalPath | src/main/java/org/harryfloppa/graph/dagsp/DAGLongestPath.java:72-132 | the same refusals. Otherwise the path is a weighted path of the graph whose weight is the length, no path is heavier, the length is at least 0, and every path ending at a lower vertex than the path's end is strictly lighter |

## Left out

- Metrics: the timing and counter instrumentation (`Metrics`, `MetricsImpl`) is left out, since it does not affect any result. So is every `toString` and report method.
- Main and GraphLoader are not part of this model: file loading, command-line handling and console output are I/O around the core.
- Integer overflow: the Java code adds weights in 32-bit `int` and assumes no overflow. Distances and weights here are unbounded integers, so the model gives no account of a sum that would wrap around. The `Integer.MAX_VALUE` / `Integer.MIN_VALUE` sentinels become `None`.
- Graphs.Graph.constructor: Java's `new ArrayList<>(n)` throws for a negative n; the model types n as `nat`, so that case cannot be expressed.
- Tarjan.TarjanScc.constructor: this constructor requires a directed graph. The Java constructor's check and exception are modelled by Tarjan.FindStronglyConnected, which refuses an undirected graph with NotDirected. The same pattern covers Kahn.Sort and the three path solvers.
- Tarjan.TarjanScc.constructor: the arrays that Java leaves `null` before `findSCCs` are empty arrays here.
- Tarjan.TarjanScc.Dfs: the recursion depth of the JVM is not modelled; a deep graph that overflows the Java stack still completes in the model.
- Condensation.CondensationGraph.constructor: requires that the components partition the vertex set. In the source they always come from Tarjan's search, which Tarjan.FindStronglyConnected proves to be a partition; any other input would make the Java code index outside its arrays.
- Condensation.CondensationGraph.GetCondensation, GetSccs and GetVertexToSccMap are plain field reads, so they carry no contract. Kahn.TopoSortResult.IsValid (`!hasCycle`) and Tarjan.SccResult.ComponentCount (the list size) have none either; their properties are stated by Kahn.Sort and Tarjan.ComponentCountBound.
- Condensation.BuildFirstWeight: the order of edges within a condensation list (the order in which the pairs are first met) is captured only through the fold `Build`. No separate lemma states it.
- DagShortestPath.ComputeShortestPaths: requires `source < n`. For a source outside [0,n) the Java code throws ArrayIndexOutOfBoundsException at `dist[source] = 0`, after the directedness and cycle checks; the model does not return that error.
- DagLongestPath.ComputeLongestPaths: requires `source < n`, for the same reason: the Java code throws ArrayIndexOutOfBoundsException at `dist[source] = 0`, after the checks.
- DagLongestPath.ComputeCriticalPath: requires `n > 0`. For an empty graph the Java code reads `parent[0]` of an empty array while rebuilding the path, and throws ArrayIndexOutOfBoundsException; that crash is not modelled.
- Relaxation.PathsResult.GetPath: requires `dest < n`. For a destination outside [0,n) the Java `isReachable` indexes outside the distance array and throws ArrayIndexOutOfBoundsException; that crash is not modelled.
- Relaxation.PathsResult.GetPath: requires the result to come from a solver of the acyclic graph, whose parent entries form a tree. For arbitrary parent arrays the Java loop may never end.
- The result classes' plain getters (`getSource`, `getDistance`, `getOrder`, `hasCycle`, `getSCCs`) become datatype fields. `getVertexCount` and `isDirected` become the fields `n` and `directed`.
