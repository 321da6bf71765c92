/** The adjacency-list graph container (Graph.java) and the value types shared by
    every algorithm of the pipeline. */
module Graphs {

  /** One record of an adjacency list: the target vertex and the integer weight. */
  datatype Edge = Edge(to: nat, weight: int)

  /** The exceptions the core throws, one constructor per distinct cause. */
  datatype Error =
    | VertexOutOfBounds   // addEdge with an endpoint outside [0,n): IllegalArgumentException
    | UndirectedReverse   // reverse on an undirected graph: UnsupportedOperationException
    | NotDirected         // an algorithm constructed over an undirected graph: IllegalArgumentException
    | NotADag             // a DAG-only operation on a cyclic graph: IllegalArgumentException

  datatype Result<T> = Ok(value: T) | Err(error: Error)

  datatype Outcome = Pass | Fail(error: Error)

  datatype Option<T> = None | Some(value: T)

  /** A read-only snapshot of a graph: no algorithm mutates the graph it is given,
      so the algorithms receive this value instead of the object. */
  datatype Digraph = Digraph(n: nat, directed: bool, adj: seq<seq<Edge>>)
  {
    /** Exactly n adjacency lists, and every stored target lies in [0,n). */
    ghost predicate Valid() {
      |adj| == n &&
      forall u, k :: 0 <= u < |adj| && 0 <= k < |adj[u]| ==> adj[u][k].to < n
    }
  }

  /** Number of records over all lists. */
  function TotalSize(lists: seq<seq<Edge>>): nat
  {
    if lists == [] then 0 else TotalSize(lists[..|lists| - 1]) + |lists[|lists| - 1]|
  }

  lemma {:induction false} TotalSizeUpdate(lists: seq<seq<Edge>>, i: nat, x: seq<Edge>)
    requires i < |lists|
    ensures TotalSize(lists[i := x]) == TotalSize(lists) - |lists[i]| + |x|
    decreases |lists|
  {
    var m := |lists| - 1;
    var upd := lists[i := x];
    assert upd[..m] == if i < m then lists[..m][i := x] else lists[..m];
    if i < m {
      TotalSizeUpdate(lists[..m], i, x);
    }
  }

  lemma TotalSizePrefix(lists: seq<seq<Edge>>, i: nat)
    requires i <= |lists|
    ensures i < |lists| ==> TotalSize(lists[..i + 1]) == TotalSize(lists[..i]) + |lists[i]|
    ensures i == |lists| ==> TotalSize(lists[..i]) == TotalSize(lists)
  {
    if i < |lists| {
      assert lists[..i + 1][..i] == lists[..i];
    } else {
      assert lists[..i] == lists;
    }
  }

  /** The lists built by a constructor call: n empty adjacency lists. */
  function EmptyLists(n: nat): (lists: seq<seq<Edge>>)
    ensures |lists| == n && TotalSize(lists) == 0
    ensures forall u :: 0 <= u < n ==> lists[u] == []
  {
    if n == 0 then [] else
      var prev := EmptyLists(n - 1);
      assert (prev + [[]])[..n - 1] == prev;
      prev + [[]]
  }

  /** The lists of the reversed graph after `reverse` has scanned every vertex below u
      and the first j records of u's list: each scanned record u'->(v,w) has become the
      record v->(u',w), appended in scan order. */
  function ReversePrefix(adj: seq<seq<Edge>>, u: nat, j: nat): (lists: seq<seq<Edge>>)
    requires forall x, k :: 0 <= x < |adj| && 0 <= k < |adj[x]| ==> adj[x][k].to < |adj|
    requires u <= |adj| && (u < |adj| ==> j <= |adj[u]|) && (u == |adj| ==> j == 0)
    ensures |lists| == |adj|
    decreases u, j
  {
    if j > 0 then
      var prev := ReversePrefix(adj, u, j - 1);
      var e := adj[u][j - 1];
      prev[e.to := prev[e.to] + [Edge(u, e.weight)]]
    else if u == 0 then EmptyLists(|adj|)
    else ReversePrefix(adj, u - 1, |adj[u - 1]|)
  }

  /** How often the record (to, w) occurs in a list. */
  function Occurrences(es: seq<Edge>, e: Edge): nat
  {
    multiset(es)[e]
  }

  /** Reversal preserves every edge with its weight and multiplicity, flipped: after the scan
      has reached (u, j), the list of v holds (x, w) exactly as often as the scanned part of
      x's list holds (v, w). */
  lemma {:induction false} ReversePrefixOccurrences(adj: seq<seq<Edge>>, u: nat, j: nat, v: nat, x: nat, w: int)
    requires forall x, k :: 0 <= x < |adj| && 0 <= k < |adj[x]| ==> adj[x][k].to < |adj|
    requires u <= |adj| && (u < |adj| ==> j <= |adj[u]|) && (u == |adj| ==> j == 0)
    requires v < |adj| && x < |adj|
    ensures Occurrences(ReversePrefix(adj, u, j)[v], Edge(x, w)) ==
      if x < u then Occurrences(adj[x], Edge(v, w))
      else if x == u then Occurrences(adj[u][..j], Edge(v, w))
      else 0
    decreases u, j
  {
    if j > 0 {
      var prev := ReversePrefix(adj, u, j - 1);
      var e := adj[u][j - 1];
      ReversePrefixOccurrences(adj, u, j - 1, v, x, w);
      assert adj[u][..j] == adj[u][..j - 1] + [e];
      if e.to == v {
        assert ReversePrefix(adj, u, j)[v] == prev[v] + [Edge(u, e.weight)];
      } else {
        assert ReversePrefix(adj, u, j)[v] == prev[v];
      }
    } else if u == 0 {
    } else {
      ReversePrefixOccurrences(adj, u - 1, |adj[u - 1]|, v, x, w);
      assert adj[u - 1][..|adj[u - 1]|] == adj[u - 1];
    }
  }

  /** The record count grows by one per scanned record. */
  lemma {:induction false} ReversePrefixSize(adj: seq<seq<Edge>>, u: nat, j: nat)
    requires forall x, k :: 0 <= x < |adj| && 0 <= k < |adj[x]| ==> adj[x][k].to < |adj|
    requires u <= |adj| && (u < |adj| ==> j <= |adj[u]|) && (u == |adj| ==> j == 0)
    ensures TotalSize(ReversePrefix(adj, u, j)) == TotalSize(adj[..u]) + j
    decreases u, j
  {
    if j > 0 {
      var prev := ReversePrefix(adj, u, j - 1);
      var e := adj[u][j - 1];
      ReversePrefixSize(adj, u, j - 1);
      TotalSizeUpdate(prev, e.to, prev[e.to] + [Edge(u, e.weight)]);
    } else if u == 0 {
    } else {
      ReversePrefixSize(adj, u - 1, |adj[u - 1]|);
      assert adj[..u][..u - 1] == adj[..u - 1];
    }
  }

  /** Moving the scan of `reverse` to the next vertex. */
  lemma ReverseStep(adj: seq<seq<Edge>>, u: nat)
    requires forall x, k :: 0 <= x < |adj| && 0 <= k < |adj[x]| ==> adj[x][k].to < |adj|
    requires u < |adj|
    ensures ReversePrefix(adj, u + 1, 0) == ReversePrefix(adj, u, |adj[u]|)
    ensures TotalSize(adj[..u + 1]) == TotalSize(adj[..u]) + |adj[u]|
  {
    TotalSizePrefix(adj, u);
  }

  /** The adjacency lists of the reversed graph. */
  function ReverseLists(adj: seq<seq<Edge>>): (lists: seq<seq<Edge>>)
    requires forall x, k :: 0 <= x < |adj| && 0 <= k < |adj[x]| ==> adj[x][k].to < |adj|
  {
    ReversePrefix(adj, |adj|, 0)
  }

  /** Every record v->(x,w) of the reversed lists stands for a record x->(v,w) of the
      original, with the same multiplicity; the record count is unchanged. */
  lemma ReverseListsCorrect(adj: seq<seq<Edge>>)
    requires forall x, k :: 0 <= x < |adj| && 0 <= k < |adj[x]| ==> adj[x][k].to < |adj|
    ensures |ReverseLists(adj)| == |adj|
    ensures TotalSize(ReverseLists(adj)) == TotalSize(adj)
    ensures forall v, x, w :: 0 <= v < |adj| && 0 <= x < |adj| ==>
      Occurrences(ReverseLists(adj)[v], Edge(x, w)) == Occurrences(adj[x], Edge(v, w))
  {
    ReversePrefixSize(adj, |adj|, 0);
    assert adj[..|adj|] == adj;
    forall v, x, w | 0 <= v < |adj| && 0 <= x < |adj|
      ensures Occurrences(ReverseLists(adj)[v], Edge(x, w)) == Occurrences(adj[x], Edge(v, w))
    {
      ReversePrefixOccurrences(adj, |adj|, 0, v, x, w);
    }
  }

  /** Reversing twice gives back every list up to the order of its records. */
  lemma ReverseTwice(adj: seq<seq<Edge>>)
    requires forall x, k :: 0 <= x < |adj| && 0 <= k < |adj[x]| ==> adj[x][k].to < |adj|
    ensures |ReverseLists(adj)| == |adj|
    ensures forall x, k :: 0 <= x < |adj| && 0 <= k < |ReverseLists(adj)[x]| ==> ReverseLists(adj)[x][k].to < |adj|
    ensures forall u :: 0 <= u < |adj| ==> multiset(ReverseLists(ReverseLists(adj))[u]) == multiset(adj[u])
  {
    var r: seq<seq<Edge>> := ReverseLists(adj);
    ReverseListsCorrect(adj);
    forall x, k | 0 <= x < |adj| && 0 <= k < |r[x]| ensures r[x][k].to < |adj| {
      var e := r[x][k];
      assert e in multiset(r[x]);
      if e.to >= |adj| {
        ReverseTargetsInRange(adj, |adj|, 0, x, e);
      }
    }
    ReverseListsCorrect(r);
    forall u | 0 <= u < |adj| ensures multiset(ReverseLists(r)[u]) == multiset(adj[u]) {
      forall e: Edge ensures multiset(ReverseLists(r)[u])[e] == multiset(adj[u])[e] {
        if e.to < |adj| {
          assert Occurrences(ReverseLists(r)[u], e) == Occurrences(r[e.to], Edge(u, e.weight));
        } else {
          assert e !in adj[u];
          if e in ReverseLists(r)[u] {
            ReverseTargetsInRange(r, |r|, 0, u, e);
            assert false;
          }
        }
      }
    }
  }

  /** Every record of the reversed lists points back at a scanned vertex. */
  lemma {:induction false} ReverseTargetsInRange(adj: seq<seq<Edge>>, u: nat, j: nat, v: nat, e: Edge)
    requires forall x, k :: 0 <= x < |adj| && 0 <= k < |adj[x]| ==> adj[x][k].to < |adj|
    requires u <= |adj| && (u < |adj| ==> j <= |adj[u]|) && (u == |adj| ==> j == 0)
    requires v < |adj| && e in ReversePrefix(adj, u, j)[v]
    ensures e.to <= u && e.to < |adj|
    decreases u, j
  {
    if j > 0 {
      var prev := ReversePrefix(adj, u, j - 1);
      var f := adj[u][j - 1];
      if e !in prev[v] {
        assert f.to == v && e == Edge(u, f.weight);
      } else {
        ReverseTargetsInRange(adj, u, j - 1, v, e);
      }
    } else if u == 0 {
    } else {
      ReverseTargetsInRange(adj, u - 1, |adj[u - 1]|, v, e);
    }
  }

  /** The graph object: n adjacency lists, filled by addEdge before any algorithm runs. */
  class Graph {
    const n: nat
    const directed: bool
    var adjList: seq<seq<Edge>>
    /** The number of successful addEdge calls so far. */
    ghost var added: nat

    ghost predicate Valid()
      reads this
    {
      Value().Valid() &&
      TotalSize(adjList) == (if directed then added else 2 * added)
    }

    /** The graph as the read-only value the algorithms receive. */
    function Value(): Digraph
      reads this
    {
      Digraph(n, directed, adjList)
    }

    /** Exactly n empty adjacency lists, and the directed flag as given. */
    constructor (n: nat, directed: bool)
      ensures Valid() && this.n == n && this.directed == directed
      ensures adjList == EmptyLists(n) && added == 0
    {
      var lists: seq<seq<Edge>> := [];
      var i := 0;
      while i < n
        invariant 0 <= i <= n && lists == EmptyLists(i)
      {
        lists := lists + [[]];
        i := i + 1;
      }
      this.n := n;
      this.directed := directed;
      adjList := lists;
      added := 0;
    }

    /** Appends (to, weight) to the list of `from` and, for an undirected graph, (from, weight)
        to the list of `to`; an endpoint outside [0,n) is refused and nothing changes. */
    method AddEdge(from: int, to: int, weight: int) returns (r: Outcome)
      requires Valid()
      modifies this
      ensures Valid()
      ensures r.Fail? <==> !(0 <= from < n && 0 <= to < n)
      ensures r.Fail? ==> r.error == VertexOutOfBounds && adjList == old(adjList) && added == old(added)
      ensures r.Pass? ==> added == old(added) + 1
      ensures r.Pass? ==>
        var once := old(adjList)[from := old(adjList)[from] + [Edge(to, weight)]];
        adjList == if directed then once else once[to := once[to] + [Edge(from, weight)]]
    {
      if from < 0 || from >= n || to < 0 || to >= n {
        return Fail(VertexOutOfBounds);
      }
      var once := adjList[from := adjList[from] + [Edge(to, weight)]];
      TotalSizeUpdate(adjList, from, adjList[from] + [Edge(to, weight)]);
      if !directed {
        TotalSizeUpdate(once, to, once[to] + [Edge(from, weight)]);
        adjList := once[to := once[to] + [Edge(from, weight)]];
      } else {
        adjList := once;
      }
      added := added + 1;
      r := Pass;
    }

    /** The list of v in insertion order; every record lies in [0,n). */
    function GetAdjacent(v: nat): (es: seq<Edge>)
      reads this
      requires Valid() && v < n
      ensures forall k :: 0 <= k < |es| ==> es[k].to < n
    {
      adjList[v]
    }

    /** The number of successful addEdge calls: the total list size for a directed graph,
        half of it for an undirected one. */
    method EdgeCount() returns (count: nat)
      requires Valid()
      ensures count == added
      ensures count == if directed then TotalSize(adjList) else TotalSize(adjList) / 2
    {
      var total := 0;
      var i := 0;
      while i < n
        invariant 0 <= i <= n && total == TotalSize(adjList[..i])
      {
        assert adjList[..i + 1][..i] == adjList[..i];
        total := total + |adjList[i]|;
        i := i + 1;
      }
      assert adjList[..n] == adjList;
      count := if directed then total else total / 2;
    }

    /** A new directed graph with the same n in which every record u->(v,w) has become
        v->(u,w), multiplicities preserved; an undirected graph cannot be reversed. */
    method Reverse() returns (r: Result<Graph>)
      requires Valid()
      ensures !directed <==> r.Err?
      ensures r.Err? ==> r.error == UndirectedReverse
      ensures r.Ok? ==> fresh(r.value) && r.value.Valid() && r.value.n == n && r.value.directed
      ensures r.Ok? ==> r.value.adjList == ReverseLists(adjList) && r.value.added == added
    {
      if !directed {
        return Err(UndirectedReverse);
      }
      var reversed := new Graph(n, true);
      AddReversedLists(reversed, adjList);
      r := Ok(reversed);
    }
  }

  /** The targets of lists all lie in [0,|lists|). */
  ghost predicate Closed(adj: seq<seq<Edge>>)
  {
    forall x, k :: 0 <= x < |adj| && 0 <= k < |adj[x]| ==> adj[x][k].to < |adj|
  }

  /** The outer loop of `reverse`, over the vertices of adj in increasing order. */
  method AddReversedLists(reversed: Graph, adj: seq<seq<Edge>>)
    requires Closed(adj) && reversed.Valid() && reversed.n == |adj| && reversed.directed
    requires reversed.adjList == EmptyLists(|adj|) && reversed.added == 0
    modifies reversed
    ensures reversed.Valid() && reversed.adjList == ReverseLists(adj) && reversed.added == TotalSize(adj)
  {
    var u := 0;
    while u < |adj|
      invariant 0 <= u <= |adj| && reversed.Valid()
      invariant reversed.adjList == ReversePrefix(adj, u, 0)
      invariant reversed.added == TotalSize(adj[..u])
    {
      AddReversedList(reversed, adj, u);
      u := u + 1;
    }
    TotalSizePrefix(adj, |adj|);
  }

  /** The inner loop of `reverse`: every record u->(v,w) is added to the new graph as v->(u,w). */
  method AddReversedList(reversed: Graph, adj: seq<seq<Edge>>, u: nat)
    requires Closed(adj) && reversed.Valid() && u < |adj| && reversed.n == |adj| && reversed.directed
    requires reversed.adjList == ReversePrefix(adj, u, 0)
    requires reversed.added == TotalSize(adj[..u])
    modifies reversed
    ensures reversed.Valid()
    ensures reversed.adjList == ReversePrefix(adj, u + 1, 0)
    ensures reversed.added == TotalSize(adj[..u + 1])
  {
    var j := 0;
    while j < |adj[u]|
      invariant 0 <= j <= |adj[u]|
      invariant reversed.Valid()
      invariant reversed.adjList == ReversePrefix(adj, u, j)
      invariant reversed.added == TotalSize(adj[..u]) + j
    {
      var e := adj[u][j];
      var ok := reversed.AddEdge(e.to, u, e.weight);
      j := j + 1;
    }
    ReverseStep(adj, u);
  }
}
