/** CondensationGraph.java: every strongly connected component becomes one vertex, and an
    edge between two components is kept once, with the weight of the first crossing record
    met in scan order (ascending source vertex, then list order). */
module Condensation {
  import opened Graphs
  import opened Paths
  import opened TarjanState
  import opened Tarjan

  /** A record of the original graph together with the vertex whose list holds it. */
  datatype Record = Record(from: nat, edge: Edge)

  function Tag(x: nat, es: seq<Edge>): (rs: seq<Record>)
    ensures |rs| == |es| && forall i :: 0 <= i < |es| ==> rs[i] == Record(x, es[i])
  {
    seq(|es|, i requires 0 <= i < |es| => Record(x, es[i]))
  }

  lemma TagSnoc(x: nat, es: seq<Edge>, j: nat)
    requires j < |es|
    ensures Tag(x, es[..j + 1]) == Tag(x, es[..j]) + [Record(x, es[j])]
  {
  }

  /** The records of the vertices below u, in the order the scan meets them. */
  function Scan(g: Digraph, u: nat): seq<Record>
    requires u <= |g.adj|
  {
    if u == 0 then [] else Scan(g, u - 1) + Tag(u - 1, g.adj[u - 1])
  }

  /** Both ends of r have a component in [0,k) under the map m. */
  ghost predicate Fits(m: seq<int>, k: nat, r: Record)
  {
    r.from < |m| && r.edge.to < |m| && 0 <= m[r.from] < k && 0 <= m[r.edge.to] < k
  }

  ghost predicate AllFit(m: seq<int>, k: nat, recs: seq<Record>)
  {
    forall i :: 0 <= i < |recs| ==> Fits(m, k, recs[i])
  }

  /** r leads from component a to a different component b. */
  ghost predicate Crossing(m: seq<int>, r: Record, a: int, b: int)
  {
    r.from < |m| && r.edge.to < |m| && m[r.from] == a && m[r.edge.to] == b && a != b
  }

  /** recs[t] is the first record from component a to component b. */
  ghost predicate FirstCrossing(m: seq<int>, recs: seq<Record>, t: nat, a: int, b: int)
  {
    t < |recs| && Crossing(m, recs[t], a, b) &&
    forall t' :: 0 <= t' < t ==> !Crossing(m, recs[t'], a, b)
  }

  ghost predicate HasTarget(es: seq<Edge>, b: int)
  {
    exists i :: 0 <= i < |es| && es[i].to == b
  }

  /** One pass of the inner loop: a record between different components whose pair has no
      edge yet adds one, with the record's weight. */
  ghost function Step(m: seq<int>, k: nat, lists: seq<seq<Edge>>, r: Record): seq<seq<Edge>>
    requires Fits(m, k, r) && |lists| == k
  {
    var a := m[r.from];
    var b := m[r.edge.to];
    if a != b && !HasTarget(lists[a], b) then lists[a := lists[a] + [Edge(b as nat, r.edge.weight)]]
    else lists
  }

  /** The lists of the condensation after the records recs have been scanned. */
  ghost function Build(m: seq<int>, k: nat, recs: seq<Record>): (lists: seq<seq<Edge>>)
    requires AllFit(m, k, recs)
    ensures |lists| == k
  {
    if recs == [] then EmptyLists(k)
    else Step(m, k, Build(m, k, recs[..|recs| - 1]), recs[|recs| - 1])
  }

  lemma BuildSnoc(m: seq<int>, k: nat, recs: seq<Record>, r: Record)
    requires AllFit(m, k, recs) && Fits(m, k, r)
    ensures AllFit(m, k, recs + [r])
    ensures Build(m, k, recs + [r]) == Step(m, k, Build(m, k, recs), r)
  {
    assert (recs + [r])[..|recs|] == recs;
  }

  // ----- what the scan produces -----

  /** Every edge of the lists leads to another component in [0,k), and no list names the same
      component twice. */
  ghost predicate WellFormed(k: nat, lists: seq<seq<Edge>>)
  {
    |lists| == k &&
    (forall a, i :: 0 <= a < k && 0 <= i < |lists[a]| ==> lists[a][i].to < k && lists[a][i].to != a) &&
    (forall a, i, j :: 0 <= a < k && 0 <= i < j < |lists[a]| ==> lists[a][i].to != lists[a][j].to)
  }

  lemma StepWellFormed(m: seq<int>, k: nat, lists: seq<seq<Edge>>, r: Record)
    requires Fits(m, k, r) && WellFormed(k, lists)
    ensures WellFormed(k, Step(m, k, lists, r))
  {
  }

  lemma {:induction false} BuildWellFormed(m: seq<int>, k: nat, recs: seq<Record>)
    requires AllFit(m, k, recs)
    ensures WellFormed(k, Build(m, k, recs))
  {
    if recs != [] {
      var pre := recs[..|recs| - 1];
      BuildWellFormed(m, k, pre);
      StepWellFormed(m, k, Build(m, k, pre), recs[|recs| - 1]);
    }
  }

  lemma StepPresent(m: seq<int>, k: nat, lists: seq<seq<Edge>>, r: Record, a: nat, b: nat)
    requires Fits(m, k, r) && |lists| == k && a < k
    ensures HasTarget(Step(m, k, lists, r)[a], b) <==> HasTarget(lists[a], b) || Crossing(m, r, a, b)
  {
    var l := Step(m, k, lists, r)[a];
    if Crossing(m, r, a, b) && !HasTarget(lists[a], b) {
      assert l[|l| - 1].to == b;
    }
    if HasTarget(lists[a], b) {
      var i :| 0 <= i < |lists[a]| && lists[a][i].to == b;
      assert l[i] == lists[a][i];
    }
  }

  /** Some record of recs crosses from component a to component b. */
  ghost predicate Crosses(m: seq<int>, recs: seq<Record>, a: int, b: int)
  {
    exists t :: 0 <= t < |recs| && Crossing(m, recs[t], a, b)
  }

  lemma CrossesSnoc(m: seq<int>, recs: seq<Record>, a: int, b: int)
    requires recs != []
    ensures Crosses(m, recs, a, b) <==>
      Crosses(m, recs[..|recs| - 1], a, b) || Crossing(m, recs[|recs| - 1], a, b)
  {
    var n := |recs| - 1;
    var pre := recs[..n];
    if Crosses(m, recs, a, b) {
      var t :| 0 <= t < |recs| && Crossing(m, recs[t], a, b);
      if t < n {
        assert pre[t] == recs[t];
      }
    }
    if Crosses(m, pre, a, b) {
      var t :| 0 <= t < n && Crossing(m, pre[t], a, b);
      assert recs[t] == pre[t];
    }
  }

  /** The condensation has an edge from a to b exactly when some scanned record crosses from
      component a to a different component b. */
  lemma {:induction false} BuildPresent(m: seq<int>, k: nat, recs: seq<Record>, a: nat, b: nat)
    requires AllFit(m, k, recs) && a < k
    ensures HasTarget(Build(m, k, recs)[a], b) <==> Crosses(m, recs, a, b)
  {
    if recs != [] {
      var n := |recs| - 1;
      BuildPresent(m, k, recs[..n], a, b);
      StepPresent(m, k, Build(m, k, recs[..n]), recs[n], a, b);
      CrossesSnoc(m, recs, a, b);
    }
  }

  /** Each edge a -> b of the condensation carries the weight of the first record that crosses
      from a to b. */
  lemma {:induction false} BuildFirstWeight(m: seq<int>, k: nat, recs: seq<Record>, a: nat, i: nat)
    requires AllFit(m, k, recs) && a < k && i < |Build(m, k, recs)[a]|
    ensures exists t: nat ::
      FirstCrossing(m, recs, t, a, Build(m, k, recs)[a][i].to) &&
      recs[t].edge.weight == Build(m, k, recs)[a][i].weight
  {
    var n := |recs| - 1;
    var pre := recs[..n];
    var before := Build(m, k, pre);
    var e := Build(m, k, recs)[a][i];
    assert forall t :: 0 <= t < n ==> pre[t] == recs[t];
    if i < |before[a]| {
      assert before[a][i] == e;
      BuildFirstWeight(m, k, pre, a, i);
      var t: nat :| FirstCrossing(m, pre, t, a, e.to) && pre[t].edge.weight == e.weight;
      assert FirstCrossing(m, recs, t, a, e.to);
    } else {
      BuildPresent(m, k, pre, a, e.to);
      assert FirstCrossing(m, recs, n, a, e.to);
    }
  }

  // ----- the scan over the original graph -----

  /** A record is scanned before vertex u exactly when it lies in the list of a vertex below u. */
  lemma {:induction false} ScanHas(g: Digraph, u: nat, r: Record)
    requires u <= |g.adj|
    ensures r in Scan(g, u) <==> r.from < u && r.edge in g.adj[r.from]
  {
    if u > 0 {
      ScanHas(g, u - 1, r);
      var t := Tag(u - 1, g.adj[u - 1]);
      if r in t {
        var i :| 0 <= i < |t| && t[i] == r;
        assert g.adj[u - 1][i] == r.edge;
      }
      if r.from == u - 1 && r.edge in g.adj[r.from] {
        var i :| 0 <= i < |g.adj[u - 1]| && g.adj[u - 1][i] == r.edge;
        assert t[i] == r;
      }
    }
  }

  /** m sends each vertex of the graph to a component holding it. */
  ghost predicate MapOk(g: Digraph, sccs: seq<seq<nat>>, m: seq<int>)
  {
    g.Valid() && |m| >= g.n && forall v :: 0 <= v < g.n ==> InComponent(sccs, v, m[v])
  }

  lemma ScanFits(g: Digraph, sccs: seq<seq<nat>>, m: seq<int>)
    requires MapOk(g, sccs, m)
    ensures AllFit(m, |sccs|, Scan(g, g.n))
  {
    var recs := Scan(g, g.n);
    forall t | 0 <= t < |recs|
      ensures Fits(m, |sccs|, recs[t])
    {
      ScanHas(g, g.n, recs[t]);
    }
  }

  /** The condensation as a graph value. */
  ghost function Condensed(g: Digraph, sccs: seq<seq<nat>>, m: seq<int>): Digraph
    requires MapOk(g, sccs, m)
  {
    ScanFits(g, sccs, m);
    Digraph(|sccs|, true, Build(m, |sccs|, Scan(g, g.n)))
  }

  /** A record of the original graph between a vertex of component a and one of component b. */
  ghost predicate Joins(g: Digraph, sccs: seq<seq<nat>>, a: int, b: int, x: nat, y: nat)
  {
    InComponent(sccs, x, a) && InComponent(sccs, y, b) && HasEdge(g, x, y)
  }

  /** The condensation is directed, has one vertex per component and names only components. */
  lemma CondensedShape(g: Digraph, sccs: seq<seq<nat>>, m: seq<int>)
    requires MapOk(g, sccs, m)
    ensures Condensed(g, sccs, m).n == |sccs| && Condensed(g, sccs, m).directed
    ensures Condensed(g, sccs, m).Valid()
    ensures WellFormed(|sccs|, Condensed(g, sccs, m).adj)
  {
    ScanFits(g, sccs, m);
    BuildWellFormed(m, |sccs|, Scan(g, g.n));
  }

  /** A scanned record crossing from a to b is an original edge joining the two components. */
  lemma CrossingJoins(g: Digraph, sccs: seq<seq<nat>>, m: seq<int>, a: nat, b: nat)
    requires MapOk(g, sccs, m) && Crosses(m, Scan(g, g.n), a, b)
    ensures a != b && exists x: nat, y: nat :: Joins(g, sccs, a, b, x, y)
  {
    var recs := Scan(g, g.n);
    var t :| 0 <= t < |recs| && Crossing(m, recs[t], a, b);
    var r := recs[t];
    ScanHas(g, g.n, r);
    var j :| 0 <= j < |g.adj[r.from]| && g.adj[r.from][j] == r.edge;
    assert HasEdge(g, r.from, r.edge.to);
    assert Joins(g, sccs, a, b, r.from, r.edge.to);
  }

  /** An original edge joining two different components is a crossing record of the scan. */
  lemma JoinsCrossing(g: Digraph, sccs: seq<seq<nat>>, m: seq<int>, a: nat, b: nat, x: nat, y: nat)
    requires IsPartition(g, sccs) && MapOk(g, sccs, m) && a != b && Joins(g, sccs, a, b, x, y)
    ensures Crosses(m, Scan(g, g.n), a, b)
  {
    var recs := Scan(g, g.n);
    var j :| 0 <= j < |g.adj[x]| && g.adj[x][j].to == y;
    var r := Record(x, g.adj[x][j]);
    ScanHas(g, g.n, r);
    var t :| 0 <= t < |recs| && recs[t] == r;
    assert InComponent(sccs, x, m[x]) && InComponent(sccs, y, m[y]);
    assert Crossing(m, recs[t], a, b);
  }

  /** a -> b is an edge of the condensation exactly when a and b differ and some edge of the
      original graph leads from a vertex of a to a vertex of b. */
  lemma CondensedEdge(g: Digraph, sccs: seq<seq<nat>>, m: seq<int>, a: nat, b: nat)
    requires IsPartition(g, sccs) && MapOk(g, sccs, m) && a < |sccs|
    ensures HasEdge(Condensed(g, sccs, m), a, b) <==>
      a != b && exists x: nat, y: nat :: Joins(g, sccs, a, b, x, y)
  {
    var recs := Scan(g, g.n);
    ScanFits(g, sccs, m);
    BuildPresent(m, |sccs|, recs, a, b);
    assert HasEdge(Condensed(g, sccs, m), a, b) <==> HasTarget(Build(m, |sccs|, recs)[a], b);
    if Crosses(m, recs, a, b) {
      CrossingJoins(g, sccs, m, a, b);
    }
    if a != b && exists x: nat, y: nat :: Joins(g, sccs, a, b, x, y) {
      var x: nat, y: nat :| Joins(g, sccs, a, b, x, y);
      JoinsCrossing(g, sccs, m, a, b, x, y);
    }
  }

  /** A graph whose every edge leads to a smaller vertex has no cycle. */
  lemma {:induction false} DescendingPath(c: Digraph, p: seq<nat>)
    requires IsPath(c, p)
    requires forall x: nat, y: nat :: HasEdge(c, x, y) ==> y < x
    ensures |p| >= 2 ==> p[|p| - 1] < p[0]
    decreases |p|
  {
    if |p| >= 2 {
      var q := p[1..];
      assert IsPath(c, q);
      DescendingPath(c, q);
      assert HasEdge(c, p[0], p[1]);
    }
  }

  lemma DescendingAcyclic(c: Digraph)
    requires forall x: nat, y: nat :: HasEdge(c, x, y) ==> y < x
    ensures Acyclic(c)
  {
    forall p | IsPath(c, p) && |p| >= 2
      ensures p[0] != p[|p| - 1]
    {
      DescendingPath(c, p);
    }
  }

  /** With the components in reverse topological order, every condensation edge leads to an
      earlier component, so the condensation is acyclic. */
  lemma CondensedAcyclic(g: Digraph, sccs: seq<seq<nat>>, m: seq<int>)
    requires IsPartition(g, sccs) && ReverseTopological(g, sccs) && MapOk(g, sccs, m)
    ensures Acyclic(Condensed(g, sccs, m))
  {
    var c := Condensed(g, sccs, m);
    CondensedShape(g, sccs, m);
    forall a: nat, b: nat | HasEdge(c, a, b)
      ensures b < a
    {
      CondensedEdge(g, sccs, m, a, b);
      var x: nat, y: nat :| Joins(g, sccs, a, b, x, y);
    }
    DescendingAcyclic(c);
  }

  /** Tarjan's vertex map, for a partition, is a map onto the components. */
  lemma TarjanMapOk(g: Digraph, r: SccResult, m: seq<int>)
    requires g.Valid() && IsPartition(g, r.sccs)
    requires |m| == MaxVertex(r.sccs) + 1 && forall v :: 0 <= v < |m| ==> m[v] == LastComponent(r.sccs, v)
    ensures MapOk(g, r.sccs, m)
  {
    if g.n > 0 {
      MapLength(g, r.sccs);
    }
    forall v | 0 <= v < g.n
      ensures InComponent(r.sccs, v, m[v])
    {
      MapIsMembership(g, r.sccs, v, m[v]);
    }
  }

  // ----- the object -----

  /** The hasEdge matrix records exactly the pairs that already have an edge. */
  ghost predicate Mirrors(hasEdge: array2<bool>, k: nat, lists: seq<seq<Edge>>)
    reads hasEdge
  {
    hasEdge.Length0 == k && hasEdge.Length1 == k && |lists| == k &&
    forall a, b :: 0 <= a < k && 0 <= b < k ==> (hasEdge[a, b] <==> HasTarget(lists[a], b))
  }

  class CondensationGraph {
    const originalGraph: Digraph
    const sccs: seq<seq<nat>>
    const vertexToScc: seq<int>
    var condensation: Graph

    /** Takes the components and the vertex map of a Tarjan result and builds the condensation. */
    constructor (originalGraph: Digraph, sccResult: SccResult)
      requires originalGraph.Valid() && IsPartition(originalGraph, sccResult.sccs)
      ensures this.originalGraph == originalGraph && sccs == sccResult.sccs
      ensures |vertexToScc| == MaxVertex(sccs) + 1
      ensures forall v :: 0 <= v < |vertexToScc| ==> vertexToScc[v] == LastComponent(sccs, v)
      ensures MapOk(originalGraph, sccs, vertexToScc)
      ensures condensation.Valid() && condensation.Value() == Condensed(originalGraph, sccs, vertexToScc)
    {
      this.originalGraph := originalGraph;
      sccs := sccResult.sccs;
      var m := sccResult.GetVertexToSccMap();
      TarjanMapOk(originalGraph, sccResult, m);
      vertexToScc := m;
      var c := CondensationGraph.BuildCondensation(originalGraph, sccResult.sccs, m);
      condensation := c;
    }

    /** buildCondensation: a directed graph with one vertex per component; scanning every record
        u -> v in order, a pair of different components with no edge yet in the hasEdge matrix
        gets one, with the record's weight. */
    static method BuildCondensation(g: Digraph, sccs: seq<seq<nat>>, m: seq<int>) returns (c: Graph)
      requires MapOk(g, sccs, m)
      ensures c.Valid() && c.Value() == Condensed(g, sccs, m)
    {
      var k := |sccs|;
      ScanFits(g, sccs, m);
      c := new Graph(k, true);
      var hasEdge := new bool[k, k]((_, _) => false);
      var u := 0;
      while u < g.n
        invariant u <= g.n && c.Valid() && c.n == k && c.directed
        invariant hasEdge.Length0 == k && hasEdge.Length1 == k
        invariant AllFit(m, k, Scan(g, u)) && c.adjList == Build(m, k, Scan(g, u))
        invariant Mirrors(hasEdge, k, c.adjList)
      {
        ScanList(c, hasEdge, g, sccs, m, u);
        u := u + 1;
      }
    }

    /** The inner loop of buildCondensation over the list of u. */
    static method ScanList(c: Graph, hasEdge: array2<bool>, g: Digraph, sccs: seq<seq<nat>>, m: seq<int>, u: nat)
      requires MapOk(g, sccs, m) && u < g.n
      requires c.Valid() && c.n == |sccs| && c.directed
      requires hasEdge.Length0 == |sccs| && hasEdge.Length1 == |sccs|
      requires AllFit(m, |sccs|, Scan(g, u)) && c.adjList == Build(m, |sccs|, Scan(g, u))
      requires Mirrors(hasEdge, |sccs|, c.adjList)
      modifies c, hasEdge
      ensures c.Valid() && AllFit(m, |sccs|, Scan(g, u + 1))
      ensures c.adjList == Build(m, |sccs|, Scan(g, u + 1))
      ensures Mirrors(hasEdge, |sccs|, c.adjList)
    {
      var k := |sccs|;
      var adj := g.adj[u];
      var j := 0;
      assert Scan(g, u) + Tag(u, adj[..j]) == Scan(g, u);
      while j < |adj|
        invariant j <= |adj| && c.Valid() && c.n == k && c.directed
        invariant AllFit(m, k, Scan(g, u) + Tag(u, adj[..j]))
        invariant c.adjList == Build(m, k, Scan(g, u) + Tag(u, adj[..j]))
        invariant Mirrors(hasEdge, k, c.adjList)
      {
        var r := Record(u, adj[j]);
        assert Fits(m, k, r) by {
          assert InComponent(sccs, u, m[u]) && InComponent(sccs, adj[j].to, m[adj[j].to]);
        }
        AddRecord(c, hasEdge, m, k, r, Scan(g, u) + Tag(u, adj[..j]));
        TagSnoc(u, adj, j);
        assert Scan(g, u) + Tag(u, adj[..j + 1]) == Scan(g, u) + Tag(u, adj[..j]) + [r];
        j := j + 1;
      }
      assert adj[..j] == adj;
    }

    /** One pass of the inner loop: the record r moves the lists from Build(recs) to
        Build(recs + [r]) and the matrix follows them. */
    static method AddRecord(c: Graph, hasEdge: array2<bool>, m: seq<int>, k: nat, r: Record, ghost recs: seq<Record>)
      requires c.Valid() && c.n == k && c.directed
      requires hasEdge.Length0 == k && hasEdge.Length1 == k
      requires AllFit(m, k, recs) && Fits(m, k, r) && c.adjList == Build(m, k, recs)
      requires Mirrors(hasEdge, k, c.adjList)
      modifies c, hasEdge
      ensures c.Valid() && AllFit(m, k, recs + [r])
      ensures c.adjList == Build(m, k, recs + [r])
      ensures Mirrors(hasEdge, k, c.adjList)
    {
      ghost var before := c.adjList;
      BuildSnoc(m, k, recs, r);
      var a := m[r.from];
      var b := m[r.edge.to];
      if a != b && !hasEdge[a, b] {
        var _ := c.AddEdge(a, b, r.edge.weight);
        hasEdge[a, b] := true;
      }
      assert c.adjList == Step(m, k, before, r);
      forall x, y | 0 <= x < k && 0 <= y < k
        ensures hasEdge[x, y] <==> HasTarget(c.adjList[x], y)
      {
        StepPresent(m, k, before, r, x, y);
      }
    }

    function GetCondensation(): Graph
      reads this
    {
      condensation
    }

    function GetSccs(): seq<seq<nat>>
    {
      sccs
    }

    function GetVertexToSccMap(): seq<int>
    {
      vertexToScc
    }
  }
}
