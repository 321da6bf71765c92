/** Single-source shortest paths in a DAG (DAGShortestPath.java). */
module DagShortestPath {
  import opened Graphs
  import opened Paths
  import Kahn
  import opened Relaxation

  /** The constructor followed by `computeShortestPaths`. An undirected graph and a
      cyclic graph are refused; otherwise the distance of every vertex is the least weight of
      a path from the source, None exactly for the vertices the source does not reach, and
      the parent entries form a tree of distance-exact records rooted at the source. */
  method ComputeShortestPaths(g: Digraph, source: nat) returns (r: Result<PathsResult>)
    requires g.Valid() && source < g.n
    ensures r.Err? <==> !g.directed || HasCycle(g)
    ensures r.Err? ==> r.error == if g.directed then NotADag else NotDirected
    ensures r.Ok? ==> r.value.source == source && IsTree(g, {source}, r.value.distances, r.value.parent)
    ensures r.Ok? ==> forall v :: 0 <= v < g.n ==> Best(g, Minimize, {source}, v, r.value.distances[v])
    ensures r.Ok? ==> forall v :: 0 <= v < g.n ==> (r.value.IsReachable(v) <==> Reach(g, source, v))
  {
    if !g.directed {
      return Err(NotDirected);
    }
    var topo := Kahn.Sort(g);
    if topo.value.hasCycle {
      return Err(NotADag);
    }
    var order := topo.value.order;
    var dist := new Option<int>[g.n](_ => None);
    var parent := new int[g.n](_ => -1);
    dist[source] := Some(0);
    Relax(g, Minimize, order, true, dist, parent, {source});
    TreeBest(g, Minimize, {source}, dist[..], parent[..]);
    r := Ok(PathsResult(source, dist[..], parent[..]));
    forall v | 0 <= v < g.n ensures r.value.IsReachable(v) <==> Reach(g, source, v) {
      BestReach(g, Minimize, source, v, dist[v]);
    }
  }
}
