/** Paths, reachability, cycles and topological orders over a graph value: the vocabulary
    in which the algorithms' results are specified. */
module Paths {
  import opened Graphs

  /** Some record of u's list points at v. */
  ghost predicate HasEdge(g: Digraph, u: nat, v: nat)
  {
    u < |g.adj| && exists k :: 0 <= k < |g.adj[u]| && g.adj[u][k].to == v
  }

  /** A non-empty sequence of vertices in which each vertex has an edge to the next. */
  ghost predicate IsPath(g: Digraph, p: seq<nat>)
  {
    |p| >= 1 &&
    (forall i :: 0 <= i < |p| ==> p[i] < g.n) &&
    (forall i :: 0 <= i < |p| - 1 ==> HasEdge(g, p[i], p[i + 1]))
  }

  ghost predicate Reach(g: Digraph, a: nat, b: nat)
  {
    exists p :: IsPath(g, p) && p[0] == a && p[|p| - 1] == b
  }

  ghost predicate MutuallyReachable(g: Digraph, a: nat, b: nat)
  {
    Reach(g, a, b) && Reach(g, b, a)
  }

  /** A path of at least one edge that comes back to where it started (a self-loop is one). */
  ghost predicate HasCycle(g: Digraph)
  {
    exists p :: IsPath(g, p) && |p| >= 2 && p[0] == p[|p| - 1]
  }

  ghost predicate Acyclic(g: Digraph)
  {
    !HasCycle(g)
  }

  /** A path together with the weight of the record each step uses: step i goes from p[i]
      to p[i+1] along a record (p[i+1], ws[i]) of p[i]'s list. */
  ghost predicate IsWeightedPath(g: Digraph, p: seq<nat>, ws: seq<int>)
  {
    |p| >= 1 && |ws| == |p| - 1 &&
    (forall i :: 0 <= i < |p| ==> p[i] < |g.adj|) &&
    (forall i :: 0 <= i < |ws| ==> Edge(p[i + 1], ws[i]) in g.adj[p[i]])
  }

  function Sum(ws: seq<int>): int
  {
    if ws == [] then 0 else ws[0] + Sum(ws[1..])
  }

  ghost predicate Distinct(s: seq<nat>)
  {
    forall i, j :: 0 <= i < j < |s| ==> s[i] != s[j]
  }

  ghost predicate IsPermutation(s: seq<nat>, n: nat)
  {
    |s| == n && Distinct(s) && forall i :: 0 <= i < |s| ==> s[i] < n
  }

  /** Every vertex appears, and every edge goes from an earlier to a later position. */
  ghost predicate IsTopoOrder(g: Digraph, order: seq<nat>)
  {
    IsPermutation(order, g.n) &&
    forall i, j :: 0 <= i < |order| && 0 <= j < |order| && HasEdge(g, order[i], order[j]) ==> i < j
  }

  /** s backwards. */
  function Reverse(s: seq<nat>): (r: seq<nat>)
    ensures |r| == |s| && forall i :: 0 <= i < |s| ==> r[i] == s[|s| - 1 - i]
  {
    if s == [] then [] else Reverse(s[1..]) + [s[0]]
  }

  /** The position of v in s. */
  function IndexOf(s: seq<nat>, v: nat): (i: nat)
    requires v in s
    ensures i < |s| && s[i] == v && v !in s[..i]
  {
    if s[0] == v then 0 else
      var i := 1 + IndexOf(s[1..], v);
      assert s[..i] == [s[0]] + s[1..][..i - 1];
      i
  }

  // ----- sums -----

  lemma {:induction false} SumAppend(a: seq<int>, b: seq<int>)
    ensures Sum(a + b) == Sum(a) + Sum(b)
  {
    if a == [] {
      assert a + b == b;
    } else {
      assert (a + b)[1..] == a[1..] + b;
      SumAppend(a[1..], b);
    }
  }

  // ----- paths and reachability -----

  lemma EdgeIsHasEdge(g: Digraph, u: nat, k: nat)
    requires g.Valid() && u < g.n && k < |g.adj[u]|
    ensures HasEdge(g, u, g.adj[u][k].to) && g.adj[u][k].to < g.n
  {
  }

  lemma {:induction false} PathConcat(g: Digraph, p: seq<nat>, q: seq<nat>)
    requires IsPath(g, p) && IsPath(g, q) && p[|p| - 1] == q[0]
    ensures IsPath(g, p + q[1..]) && |p + q[1..]| == |p| + |q| - 1
    ensures (p + q[1..])[0] == p[0] && (p + q[1..])[|p| + |q| - 2] == q[|q| - 1]
  {
    var r := p + q[1..];
    forall i | 0 <= i < |r| - 1 ensures HasEdge(g, r[i], r[i + 1]) {
      if i < |p| - 1 {
        assert r[i] == p[i] && r[i + 1] == p[i + 1];
      } else {
        assert r[i] == q[i - |p| + 1] && r[i + 1] == q[i - |p| + 2];
      }
    }
  }

  lemma ReachRefl(g: Digraph, a: nat)
    requires a < g.n
    ensures Reach(g, a, a)
  {
    assert IsPath(g, [a]);
  }

  lemma ReachEdge(g: Digraph, u: nat, v: nat)
    requires HasEdge(g, u, v) && u < g.n && v < g.n
    ensures Reach(g, u, v)
  {
    assert IsPath(g, [u, v]);
  }

  lemma ReachTrans(g: Digraph, a: nat, b: nat, c: nat)
    requires Reach(g, a, b) && Reach(g, b, c)
    ensures Reach(g, a, c)
  {
    var p :| IsPath(g, p) && p[0] == a && p[|p| - 1] == b;
    var q :| IsPath(g, q) && q[0] == b && q[|q| - 1] == c;
    PathConcat(g, p, q);
  }

  lemma ReachEdgeThen(g: Digraph, u: nat, v: nat, c: nat)
    requires HasEdge(g, u, v) && u < g.n && v < g.n && Reach(g, v, c)
    ensures Reach(g, u, c)
  {
    ReachEdge(g, u, v);
    ReachTrans(g, u, v, c);
  }

  lemma ReachThenEdge(g: Digraph, a: nat, u: nat, v: nat)
    requires Reach(g, a, u) && HasEdge(g, u, v) && u < g.n && v < g.n
    ensures Reach(g, a, v)
  {
    ReachEdge(g, u, v);
    ReachTrans(g, a, u, v);
  }

  lemma ReachInRange(g: Digraph, a: nat, b: nat)
    requires Reach(g, a, b)
    ensures a < g.n && b < g.n
  {
    var p :| IsPath(g, p) && p[0] == a && p[|p| - 1] == b;
  }

  /** The weights forget nothing about the path's shape. */
  lemma WeightedPathIsPath(g: Digraph, p: seq<nat>, ws: seq<int>)
    requires g.Valid() && IsWeightedPath(g, p, ws)
    ensures IsPath(g, p)
  {
    forall i | 0 <= i < |p| - 1 ensures HasEdge(g, p[i], p[i + 1]) {
      assert Edge(p[i + 1], ws[i]) in g.adj[p[i]];
      var k :| 0 <= k < |g.adj[p[i]]| && g.adj[p[i]][k] == Edge(p[i + 1], ws[i]);
    }
    forall i | 0 <= i < |p| ensures p[i] < g.n {
      if i > 0 {
        assert Edge(p[i], ws[i - 1]) in g.adj[p[i - 1]];
        var k :| 0 <= k < |g.adj[p[i - 1]]| && g.adj[p[i - 1]][k] == Edge(p[i], ws[i - 1]);
      }
    }
  }

  /** A weighted path extended by one record. */
  lemma WeightedPathSnoc(g: Digraph, p: seq<nat>, ws: seq<int>, k: nat)
    requires IsWeightedPath(g, p, ws) && k < |g.adj[p[|p| - 1]]| && g.adj[p[|p| - 1]][k].to < |g.adj|
    ensures var e := g.adj[p[|p| - 1]][k];
      IsWeightedPath(g, p + [e.to], ws + [e.weight]) && Sum(ws + [e.weight]) == Sum(ws) + e.weight
  {
    var e := g.adj[p[|p| - 1]][k];
    var p', ws' := p + [e.to], ws + [e.weight];
    forall i | 0 <= i < |ws'| ensures Edge(p'[i + 1], ws'[i]) in g.adj[p'[i]] {
      if i < |ws| {
        assert p'[i + 1] == p[i + 1] && p'[i] == p[i] && ws'[i] == ws[i];
      } else {
        assert g.adj[p'[i]][k] == Edge(p'[i + 1], ws'[i]);
      }
    }
    SumAppend(ws, [e.weight]);
  }

  /** Removing the last step of a weighted path leaves a weighted path. */
  lemma WeightedPathInit(g: Digraph, p: seq<nat>, ws: seq<int>)
    requires IsWeightedPath(g, p, ws) && |p| >= 2
    ensures IsWeightedPath(g, p[..|p| - 1], ws[..|ws| - 1])
    ensures Sum(ws) == Sum(ws[..|ws| - 1]) + ws[|ws| - 1]
    ensures Edge(p[|p| - 1], ws[|ws| - 1]) in g.adj[p[|p| - 2]]
  {
    var m := |ws| - 1;
    WeightedPathPrefix(g, p, ws, m);
    SumLast(ws);
  }

  lemma WeightedPathPrefix(g: Digraph, p: seq<nat>, ws: seq<int>, m: nat)
    requires IsWeightedPath(g, p, ws) && m < |p|
    ensures IsWeightedPath(g, p[..m + 1], ws[..m])
  {
    var p', ws' := p[..m + 1], ws[..m];
    forall i | 0 <= i < |ws'| ensures Edge(p'[i + 1], ws'[i]) in g.adj[p'[i]] {
      assert p'[i + 1] == p[i + 1] && p'[i] == p[i] && ws'[i] == ws[i];
    }
  }

  lemma SumLast(ws: seq<int>)
    requires |ws| >= 1
    ensures Sum(ws) == Sum(ws[..|ws| - 1]) + ws[|ws| - 1]
  {
    assert ws == ws[..|ws| - 1] + [ws[|ws| - 1]];
    SumAppend(ws[..|ws| - 1], [ws[|ws| - 1]]);
  }

  /** A weighted path extended at the front by one record of x. */
  lemma WeightedPathCons(g: Digraph, x: nat, w: int, p: seq<nat>, ws: seq<int>)
    requires IsWeightedPath(g, p, ws) && x < |g.adj| && Edge(p[0], w) in g.adj[x]
    ensures IsWeightedPath(g, [x] + p, [w] + ws) && Sum([w] + ws) == w + Sum(ws)
  {
    var p', ws' := [x] + p, [w] + ws;
    forall i | 0 <= i < |ws'| ensures Edge(p'[i + 1], ws'[i]) in g.adj[p'[i]] {
      if i > 0 {
        assert p'[i + 1] == p[i] && p'[i] == p[i - 1] && ws'[i] == ws[i - 1];
      }
    }
    assert ws'[1..] == ws;
  }

  /** Every path can be given the weights of records it uses. */
  lemma {:induction false} PathWeights(g: Digraph, p: seq<nat>) returns (ws: seq<int>)
    requires g.Valid() && IsPath(g, p)
    ensures IsWeightedPath(g, p, ws)
  {
    if |p| == 1 {
      ws := [];
    } else {
      SubPath(g, p, 1, |p| - 1);
      assert p[1..|p|] == p[1..];
      var rest := PathWeights(g, p[1..]);
      var k :| 0 <= k < |g.adj[p[0]]| && g.adj[p[0]][k].to == p[1];
      WeightedPathCons(g, p[0], g.adj[p[0]][k].weight, p[1..], rest);
      assert [p[0]] + p[1..] == p;
      ws := [g.adj[p[0]][k].weight] + rest;
    }
  }

  // ----- counting -----

  /** The vertices 0..n-1 as a set. */
  function Below(n: nat): (r: set<nat>)
    ensures forall x: nat :: x in r <==> x < n
    ensures |r| == n
  {
    if n == 0 then {} else
      var r := Below(n - 1) + {n - 1};
      assert n - 1 !in Below(n - 1);
      r
  }

  lemma {:induction false} DistinctCard(s: seq<nat>)
    requires Distinct(s)
    ensures |set i | 0 <= i < |s| :: s[i]| == |s|
  {
    if s != [] {
      var m := |s| - 1;
      DistinctCard(s[..m]);
      assert (set i | 0 <= i < |s| :: s[i]) == (set i | 0 <= i < m :: s[..m][i]) + {s[m]};
      assert s[m] !in (set i | 0 <= i < m :: s[..m][i]);
    }
  }

  lemma SubsetCard<T>(a: set<T>, b: set<T>)
    requires a <= b
    ensures |a| <= |b|
  {
    assert b == a + (b - a);
    assert a * (b - a) == {};
  }

  /** Pigeonhole: distinct values below n are at most n many. */
  lemma DistinctBound(s: seq<nat>, n: nat)
    requires Distinct(s) && forall i :: 0 <= i < |s| ==> s[i] < n
    ensures |s| <= n
  {
    var elems := set i | 0 <= i < |s| :: s[i];
    DistinctCard(s);
    SubsetCard(elems, Below(n));
  }

  /** n distinct values below n are all of them. */
  lemma PermutationCovers(s: seq<nat>, n: nat, v: nat)
    requires IsPermutation(s, n) && v < n
    ensures v in s
  {
    if v !in s {
      var elems := set i | 0 <= i < |s| :: s[i];
      DistinctCard(s);
      SubsetCard(elems, Below(n) - {v});
      assert false;
    }
  }

  /** Fewer than n distinct values below n leave one out. */
  lemma MissingVertex(s: seq<nat>, n: nat) returns (v: nat)
    requires Distinct(s) && (forall i :: 0 <= i < |s| ==> s[i] < n) && |s| < n
    ensures v < n && v !in s
  {
    var elems := set i | 0 <= i < |s| :: s[i];
    DistinctCard(s);
    if Below(n) <= elems {
      SubsetCard(Below(n), elems);
      assert false;
    }
    assert forall i :: 0 <= i < |s| ==> s[i] in elems;
    v :| v in Below(n) && v !in elems;
  }

  lemma DistinctSnoc(s: seq<nat>, v: nat)
    requires Distinct(s) && v !in s
    ensures Distinct(s + [v])
  {
    var t := s + [v];
    forall i, j | 0 <= i < j < |t| ensures t[i] != t[j] {
      if j == |s| {
        assert t[i] == s[i];
      } else {
        assert t[i] == s[i] && t[j] == s[j];
      }
    }
  }

  /** In a sequence, a value occurring before position i has its first occurrence before i. */
  lemma InPrefixIndex(s: seq<nat>, i: nat, x: nat)
    requires i <= |s| && x in s[..i]
    ensures x in s && IndexOf(s, x) < i
  {
    var k :| 0 <= k < i && s[..i][k] == x;
    assert s[k] == x;
  }

  /** A path longer than n repeats a vertex. */
  lemma LongPathRepeats(s: seq<nat>, n: nat) returns (i: nat, j: nat)
    requires |s| > n && forall k :: 0 <= k < |s| ==> s[k] < n
    ensures i < j < |s| && s[i] == s[j]
  {
    if Distinct(s) {
      DistinctBound(s, n);
    }
    i, j :| 0 <= i < j < |s| && s[i] == s[j];
  }

  lemma SubPath(g: Digraph, p: seq<nat>, i: nat, j: nat)
    requires IsPath(g, p) && i <= j < |p|
    ensures IsPath(g, p[i..j + 1])
  {
    var q := p[i..j + 1];
    forall k | 0 <= k < |q| - 1 ensures HasEdge(g, q[k], q[k + 1]) {
      assert q[k] == p[i + k] && q[k + 1] == p[i + k + 1];
    }
  }

  /** In an acyclic graph no path visits a vertex twice, so no path has more than n vertices. */
  lemma AcyclicPathDistinct(g: Digraph, p: seq<nat>)
    requires Acyclic(g) && IsPath(g, p)
    ensures Distinct(p) && |p| <= g.n
  {
    if !Distinct(p) {
      var i, j :| 0 <= i < j < |p| && p[i] == p[j];
      SubPath(g, p, i, j);
      assert false;
    }
    DistinctBound(p, g.n);
  }

  /** Along a path, positions in a topological order strictly increase. */
  lemma {:induction false} TopoOrderAlongPath(g: Digraph, order: seq<nat>, p: seq<nat>)
    requires IsTopoOrder(g, order) && IsPath(g, p) && |p| >= 2
    ensures p[0] in order && p[|p| - 1] in order
    ensures IndexOf(order, p[0]) < IndexOf(order, p[|p| - 1])
    decreases |p|
  {
    PermutationCovers(order, g.n, p[0]);
    PermutationCovers(order, g.n, p[1]);
    PermutationCovers(order, g.n, p[|p| - 1]);
    assert HasEdge(g, order[IndexOf(order, p[0])], order[IndexOf(order, p[1])]);
    if |p| > 2 {
      SubPath(g, p, 1, |p| - 1);
      TopoOrderAlongPath(g, order, p[1..]);
    }
  }

  /** A graph with a topological order has no cycle. */
  lemma TopoOrderAcyclic(g: Digraph, order: seq<nat>)
    requires IsTopoOrder(g, order)
    ensures Acyclic(g)
  {
    if HasCycle(g) {
      var p :| IsPath(g, p) && |p| >= 2 && p[0] == p[|p| - 1];
      TopoOrderAlongPath(g, order, p);
      assert false;
    }
  }
}
