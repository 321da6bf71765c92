/** Longest paths in a DAG (DAGLongestPath.java): from one source, and the critical path,
    where every vertex starts at distance 0. */
module DagLongestPath {
  import opened Graphs
  import opened Paths
  import Kahn
  import opened Relaxation

  /** What `computeCriticalPath` returns: the path and its length. */
  datatype CriticalPathResult = CriticalPathResult(path: seq<nat>, length: int)

  /** The constructor followed by `computeLongestPaths`. An undirected graph and a
      cyclic graph are refused; otherwise the distance of every vertex is the greatest weight
      of a path from the source, None exactly for the vertices the source does not reach. */
  method ComputeLongestPaths(g: Digraph, source: nat) returns (r: Result<PathsResult>)
    requires g.Valid() && source < g.n
    ensures r.Err? <==> !g.directed || HasCycle(g)
    ensures r.Err? ==> r.error == if g.directed then NotADag else NotDirected
    ensures r.Ok? ==> r.value.source == source && IsTree(g, {source}, r.value.distances, r.value.parent)
    ensures r.Ok? ==> forall v :: 0 <= v < g.n ==> Best(g, Maximize, {source}, v, r.value.distances[v])
    ensures r.Ok? ==> forall v :: 0 <= v < g.n ==> (r.value.IsReachable(v) <==> Reach(g, source, v))
  {
    if !g.directed {
      return Err(NotDirected);
    }
    var topo := Kahn.Sort(g);
    if topo.value.hasCycle {
      return Err(NotADag);
    }
    var order := topo.value.order;
    var dist := new Option<int>[g.n](_ => None);
    var parent := new int[g.n](_ => -1);
    dist[source] := Some(0);
    Relax(g, Maximize, order, true, dist, parent, {source});
    TreeBest(g, Maximize, {source}, dist[..], parent[..]);
    r := Ok(PathsResult(source, dist[..], parent[..]));
    forall v | 0 <= v < g.n ensures r.value.IsReachable(v) <==> Reach(g, source, v) {
      BestReach(g, Maximize, source, v, dist[v]);
    }
  }

  /** The scan for the end of the critical path: the greatest distance, at least 0, and the
      lowest vertex holding it (vertex 0 when every distance is 0). */
  method MaxScan(dist: seq<Option<int>>) returns (maxDist: int, endVertex: nat)
    requires |dist| > 0 && forall v :: 0 <= v < |dist| ==> dist[v].Some? && dist[v].value >= 0
    ensures endVertex < |dist| && dist[endVertex] == Some(maxDist) && maxDist >= 0
    ensures forall v :: 0 <= v < |dist| ==> dist[v].value <= maxDist
    ensures forall v :: 0 <= v < endVertex ==> dist[v].value < maxDist
  {
    maxDist, endVertex := 0, 0;
    for v := 0 to |dist|
      invariant endVertex < |dist| && maxDist >= 0
      invariant forall u :: 0 <= u < v ==> dist[u].value <= maxDist
      invariant forall u :: 0 <= u < endVertex ==> dist[u].value < maxDist
      invariant dist[endVertex].value == maxDist || (maxDist == 0 && endVertex == 0)
    {
      if dist[v].value > maxDist {
        maxDist, endVertex := dist[v].value, v;
      }
    }
  }

  /** The constructor followed by `computeCriticalPath`. An undirected graph and a cyclic
      graph are refused; otherwise the result is a path of the graph whose weight is its
      length, no path of the graph is heavier, the length is at least 0, and no path ending
      at a lower vertex than the result's end is as heavy. */
  method ComputeCriticalPath(g: Digraph) returns (r: Result<CriticalPathResult>)
    requires g.Valid() && g.n > 0
    ensures r.Err? <==> !g.directed || HasCycle(g)
    ensures r.Err? ==> r.error == if g.directed then NotADag else NotDirected
    ensures r.Ok? ==> exists ws :: IsWeightedPath(g, r.value.path, ws) && Sum(ws) == r.value.length
    ensures r.Ok? ==> r.value.length >= 0
    ensures r.Ok? ==> forall p, ws :: IsWeightedPath(g, p, ws) ==> Sum(ws) <= r.value.length
    ensures r.Ok? ==> forall p, ws :: IsWeightedPath(g, p, ws) && p[|p| - 1] < r.value.path[|r.value.path| - 1] ==>
      Sum(ws) < r.value.length
  {
    if !g.directed {
      return Err(NotDirected);
    }
    var topo := Kahn.Sort(g);
    if topo.value.hasCycle {
      return Err(NotADag);
    }
    var order := topo.value.order;
    var dist := new Option<int>[g.n](_ => Some(0));
    var parent := new int[g.n](_ => -1);
    ghost var all := Below(g.n);
    Relax(g, Maximize, order, false, dist, parent, all);
    forall v | 0 <= v < g.n ensures dist[v].Some? && dist[v].value >= 0 {
      assert IsWeightedPath(g, [v], []);
    }
    var maxDist, endVertex := MaxScan(dist[..]);
    var path := WalkParents(g, all, dist[..], parent[..], endVertex);
    r := Ok(CriticalPathResult(path, maxDist));
  }
}
