/** Kahn's topological sort (KahnTopologicalSort.java): in-degree counting, a FIFO queue
    seeded with the in-degree-0 vertices in increasing order, and cycle detection by
    comparing the number of emitted vertices with n. */
module Kahn {
  import opened Graphs
  import opened Paths

  /** What `sort` returns: the vertices in the order they left the queue, and whether
      some vertex never did. */
  datatype TopoSortResult = TopoSortResult(order: seq<nat>, hasCycle: bool)
  {
    /** The order is a topological order exactly when no cycle was detected. */
    predicate IsValid()
    {
      !hasCycle
    }
  }

  /** Number of records of es that point at v. */
  function CountTo(es: seq<Edge>, v: nat): nat
  {
    if es == [] then 0 else CountTo(es[..|es| - 1], v) + (if es[|es| - 1].to == v then 1 else 0)
  }

  /** Records into v from the lists of the vertices below m that are not in done:
      the value the in-degree array holds for v once the vertices of done have been processed. */
  function InDegreeFrom(adj: seq<seq<Edge>>, m: nat, done: seq<nat>, v: nat): nat
    requires m <= |adj|
  {
    if m == 0 then 0
    else InDegreeFrom(adj, m - 1, done, v) + (if m - 1 in done then 0 else CountTo(adj[m - 1], v))
  }

  /** The in-degree of v, every record counted (a repeated record counts twice). */
  function InDegree(g: Digraph, v: nat): nat
    requires |g.adj| == g.n
  {
    InDegreeFrom(g.adj, g.n, [], v)
  }

  /** The vertices below m of in-degree 0, in increasing order: the queue after seeding. */
  ghost function Sources(g: Digraph, m: nat): (s: seq<nat>)
    requires |g.adj| == g.n && m <= g.n
    ensures forall v: nat :: v in s <==> v < m && InDegree(g, v) == 0
    ensures forall i :: 0 <= i < |s| ==> s[i] < m
    ensures forall i, j :: 0 <= i < j < |s| ==> s[i] < s[j]
  {
    if m == 0 then []
    else
      var prev := Sources(g, m - 1);
      assert forall i :: 0 <= i < |prev| ==> prev[i] in prev;
      prev + (if InDegree(g, m - 1) == 0 then [m - 1] else [])
  }

  /** Every predecessor of order[i] comes before position i. */
  ghost predicate PredClosed(g: Digraph, order: seq<nat>)
  {
    forall i :: 0 <= i < |order| ==> forall x :: HasEdge(g, x, order[i]) ==> x in order[..i]
  }

  /** c lies on a cycle. */
  ghost predicate OnCycle(g: Digraph, c: nat)
  {
    exists p :: IsPath(g, p) && |p| >= 2 && p[0] == c && p[|p| - 1] == c
  }

  /** v can be reached from a vertex on a cycle. */
  ghost predicate CycleReaches(g: Digraph, v: nat)
  {
    exists c :: OnCycle(g, c) && Reach(g, c, v)
  }

  // ----- counting records -----

  lemma {:induction false} CountToPositive(es: seq<Edge>, v: nat, k: nat)
    requires k < |es| && es[k].to == v
    ensures CountTo(es, v) > 0
  {
    var m := |es| - 1;
    if k < m {
      assert es[..m][k] == es[k];
      CountToPositive(es[..m], v, k);
    }
  }

  lemma {:induction false} CountToWitness(es: seq<Edge>, v: nat) returns (k: nat)
    requires CountTo(es, v) > 0
    ensures k < |es| && es[k].to == v
  {
    var m := |es| - 1;
    if es[m].to == v {
      k := m;
    } else {
      k := CountToWitness(es[..m], v);
      assert es[..m][k] == es[k];
    }
  }

  lemma CountToStep(es: seq<Edge>, j: nat, v: nat)
    requires j < |es|
    ensures CountTo(es[..j + 1], v) == CountTo(es[..j], v) + (if es[j].to == v then 1 else 0)
  {
    assert es[..j + 1][..j] == es[..j];
  }

  lemma {:induction false} CountToPrefix(es: seq<Edge>, j: nat, v: nat)
    requires j <= |es|
    ensures CountTo(es[..j], v) <= CountTo(es, v)
    decreases |es| - j
  {
    if j < |es| {
      CountToStep(es, j, v);
      CountToPrefix(es, j + 1, v);
    } else {
      assert es[..j] == es;
    }
  }

  lemma {:induction false} InDegreeFromWitness(g: Digraph, m: nat, done: seq<nat>, v: nat) returns (x: nat)
    requires g.Valid() && m <= g.n && InDegreeFrom(g.adj, m, done, v) > 0
    ensures x < m && x !in done && HasEdge(g, x, v)
  {
    if InDegreeFrom(g.adj, m - 1, done, v) > 0 {
      x := InDegreeFromWitness(g, m - 1, done, v);
    } else {
      x := m - 1;
      var k := CountToWitness(g.adj[x], v);
    }
  }

  lemma {:induction false} InDegreeFromPositive(g: Digraph, m: nat, done: seq<nat>, v: nat, x: nat)
    requires g.Valid() && m <= g.n && x < m && x !in done && HasEdge(g, x, v)
    ensures InDegreeFrom(g.adj, m, done, v) > 0
  {
    if x < m - 1 {
      InDegreeFromPositive(g, m - 1, done, v, x);
    } else {
      var k :| 0 <= k < |g.adj[x]| && g.adj[x][k].to == v;
      CountToPositive(g.adj[x], v, k);
    }
  }

  lemma {:induction false} InDegreeFromAbove(adj: seq<seq<Edge>>, m: nat, done: seq<nat>, u: nat, v: nat)
    requires m <= |adj| && m <= u
    ensures InDegreeFrom(adj, m, done + [u], v) == InDegreeFrom(adj, m, done, v)
  {
    if m > 0 {
      InDegreeFromAbove(adj, m - 1, done, u, v);
    }
  }

  /** Processing u removes exactly u's records from every count. */
  lemma {:induction false} InDegreeFromDone(adj: seq<seq<Edge>>, m: nat, done: seq<nat>, u: nat, v: nat)
    requires m <= |adj| && u < m && u !in done
    ensures InDegreeFrom(adj, m, done, v) == InDegreeFrom(adj, m, done + [u], v) + CountTo(adj[u], v)
  {
    if u < m - 1 {
      InDegreeFromDone(adj, m - 1, done, u, v);
    } else {
      InDegreeFromAbove(adj, m - 1, done, u, v);
    }
  }

  // ----- the order built by the main loop -----

  lemma PredClosedSnoc(g: Digraph, order: seq<nat>, u: nat)
    requires PredClosed(g, order)
    requires forall x :: HasEdge(g, x, u) ==> x in order
    ensures PredClosed(g, order + [u])
  {
    var o := order + [u];
    forall i | 0 <= i < |o| ensures forall x :: HasEdge(g, x, o[i]) ==> x in o[..i] {
      if i < |order| {
        assert o[..i] == order[..i];
      } else {
        assert o[..i] == order;
      }
    }
  }

  /** In a predecessor-closed order, a path ending inside the order lies inside it, at
      strictly increasing positions. */
  lemma {:induction false} PredClosedPath(g: Digraph, order: seq<nat>, p: seq<nat>)
    requires PredClosed(g, order) && IsPath(g, p) && p[|p| - 1] in order
    ensures forall k :: 0 <= k < |p| ==> p[k] in order
    ensures |p| >= 2 ==> IndexOf(order, p[0]) < IndexOf(order, p[|p| - 1])
    decreases |p|
  {
    if |p| >= 2 {
      var q := p[1..];
      SubPath(g, p, 1, |p| - 1);
      assert q == p[1..|p|];
      PredClosedPath(g, order, q);
      var i1 := IndexOf(order, p[1]);
      assert HasEdge(g, p[0], order[i1]);
      InPrefixIndex(order, i1, p[0]);
      forall k | 0 <= k < |p| ensures p[k] in order {
        if k > 0 {
          assert p[k] == q[k - 1];
        }
      }
    }
  }

  /** A vertex of a predecessor-closed order is not reachable from any cycle. */
  lemma ClosedNotReached(g: Digraph, order: seq<nat>, v: nat)
    requires PredClosed(g, order) && v in order
    ensures !CycleReaches(g, v)
  {
    if CycleReaches(g, v) {
      var c :| OnCycle(g, c) && Reach(g, c, v);
      var rp :| IsPath(g, rp) && rp[0] == c && rp[|rp| - 1] == v;
      PredClosedPath(g, order, rp);
      var cp :| IsPath(g, cp) && |cp| >= 2 && cp[0] == c && cp[|cp| - 1] == c;
      PredClosedPath(g, order, cp);
      assert false;
    }
  }

  /** The loop stopped with every unprocessed vertex still waiting for an unprocessed predecessor. */
  ghost predicate Stalled(g: Digraph, done: seq<nat>)
    requires |g.adj| == g.n
  {
    forall v :: 0 <= v < g.n && v !in done ==> InDegreeFrom(g.adj, g.n, done, v) > 0
  }

  /** Walking predecessors backwards from an unprocessed vertex stays among unprocessed ones. */
  lemma {:induction false} BackWalk(g: Digraph, done: seq<nat>, v: nat, len: nat) returns (p: seq<nat>)
    requires g.Valid() && Stalled(g, done) && v < g.n && v !in done && len >= 1
    ensures IsPath(g, p) && |p| == len && p[len - 1] == v
    ensures forall k :: 0 <= k < |p| ==> p[k] !in done
  {
    if len == 1 {
      p := [v];
    } else {
      var q := BackWalk(g, done, v, len - 1);
      var x := InDegreeFromWitness(g, g.n, done, q[0]);
      p := [x] + q;
      assert p[1..] == q;
      forall i | 0 <= i < |p| - 1 ensures HasEdge(g, p[i], p[i + 1]) {
        if i > 0 {
          assert p[i] == q[i - 1] && p[i + 1] == q[i];
        }
      }
    }
  }

  /** An unprocessed vertex of a stalled run is reachable from a cycle. */
  lemma StalledReached(g: Digraph, done: seq<nat>, v: nat)
    requires g.Valid() && Stalled(g, done) && v < g.n && v !in done
    ensures CycleReaches(g, v)
  {
    var p := BackWalk(g, done, v, g.n + 1);
    var i, j := LongPathRepeats(p, g.n);
    SubPath(g, p, i, j);
    SubPath(g, p, i, g.n);
    var c := p[i];
    assert p[i..j + 1][0] == c && p[i..j + 1][|p[i..j + 1]| - 1] == c;
    assert OnCycle(g, c);
    assert p[i..g.n + 1][0] == c && p[i..g.n + 1][|p[i..g.n + 1]| - 1] == v;
    assert Reach(g, c, v);
  }

  lemma CycleReachesHasCycle(g: Digraph, v: nat)
    requires CycleReaches(g, v)
    ensures HasCycle(g)
  {
    var c :| OnCycle(g, c) && Reach(g, c, v);
  }

  lemma OnCycleReached(g: Digraph, p: seq<nat>)
    requires IsPath(g, p) && |p| >= 2 && p[0] == p[|p| - 1]
    ensures CycleReaches(g, p[0])
  {
    assert OnCycle(g, p[0]);
    assert Reach(g, p[0], p[0]);
  }

  /** A predecessor-closed permutation is a topological order. */
  lemma ClosedPermutationIsTopo(g: Digraph, order: seq<nat>)
    requires PredClosed(g, order) && IsPermutation(order, g.n)
    ensures IsTopoOrder(g, order)
  {
    forall i, j | 0 <= i < |order| && 0 <= j < |order| && HasEdge(g, order[i], order[j])
      ensures i < j
    {
      var k :| 0 <= k < j && order[..j][k] == order[i];
      assert order[k] == order[i];
    }
  }

  // ----- the algorithm -----

  /** The first pair of loops of `sort`: one increment per record. */
  method ComputeInDegrees(g: Digraph) returns (inDegree: array<int>)
    requires g.Valid()
    ensures fresh(inDegree) && inDegree.Length == g.n
    ensures forall v :: 0 <= v < g.n ==> inDegree[v] == InDegree(g, v)
  {
    inDegree := new int[g.n](_ => 0);
    var u := 0;
    while u < g.n
      invariant 0 <= u <= g.n
      invariant forall v :: 0 <= v < g.n ==> inDegree[v] == InDegreeFrom(g.adj, u, [], v)
    {
      var es := g.adj[u];
      var j := 0;
      while j < |es|
        invariant 0 <= j <= |es|
        invariant forall v :: 0 <= v < g.n ==> inDegree[v] == InDegreeFrom(g.adj, u, [], v) + CountTo(es[..j], v)
      {
        assert es[..j + 1][..j] == es[..j];
        inDegree[es[j].to] := inDegree[es[j].to] + 1;
        j := j + 1;
      }
      assert es[..|es|] == es;
      u := u + 1;
    }
  }

  /** The seeding loop of `sort`: the in-degree-0 vertices in increasing order. */
  method InitialQueue(g: Digraph, inDegree: array<int>) returns (queue: seq<nat>)
    requires g.Valid() && inDegree.Length == g.n
    requires forall v :: 0 <= v < g.n ==> inDegree[v] == InDegree(g, v)
    ensures queue == Sources(g, g.n)
  {
    queue := [];
    var v := 0;
    while v < g.n
      invariant 0 <= v <= g.n && queue == Sources(g, v)
    {
      if inDegree[v] == 0 {
        queue := queue + [v];
      }
      v := v + 1;
    }
  }

  /** The inner loop of the main loop: each record of u decrements its target's count, and
      a target whose count reaches 0 joins the back of the queue. */
  method Release(g: Digraph, inDegree: array<int>, done: seq<nat>, u: nat, queue: seq<nat>) returns (q: seq<nat>)
    requires g.Valid() && inDegree.Length == g.n && u < g.n && u !in done
    requires InDegreeFrom(g.adj, g.n, done, u) == 0
    requires forall v :: 0 <= v < g.n ==> inDegree[v] == InDegreeFrom(g.adj, g.n, done, v)
    requires forall v :: 0 <= v < g.n ==> (v in done || v == u || v in queue <==> inDegree[v] == 0)
    requires Distinct(done + [u] + queue)
    requires forall i :: 0 <= i < |done + [u] + queue| ==> (done + [u] + queue)[i] < g.n
    modifies inDegree
    ensures forall v :: 0 <= v < g.n ==> inDegree[v] == InDegreeFrom(g.adj, g.n, done + [u], v)
    ensures forall v :: 0 <= v < g.n ==> (v in done || v == u || v in q <==> inDegree[v] == 0)
    ensures Distinct(done + [u] + q)
    ensures forall i :: 0 <= i < |done + [u] + q| ==> (done + [u] + q)[i] < g.n
    ensures queue <= q
  {
    var es := g.adj[u];
    forall v | 0 <= v < g.n
      ensures InDegreeFrom(g.adj, g.n, done, v) == InDegreeFrom(g.adj, g.n, done + [u], v) + CountTo(es, v)
    {
      InDegreeFromDone(g.adj, g.n, done, u, v);
    }
    q := queue;
    var j := 0;
    while j < |es|
      invariant 0 <= j <= |es| && queue <= q
      invariant forall v :: 0 <= v < g.n ==> inDegree[v] == InDegreeFrom(g.adj, g.n, done, v) - CountTo(es[..j], v)
      invariant forall v :: 0 <= v < g.n ==> (v in done || v == u || v in q <==> inDegree[v] == 0)
      invariant Distinct(done + [u] + q)
      invariant forall i :: 0 <= i < |done + [u] + q| ==> (done + [u] + q)[i] < g.n
    {
      var v := es[j].to;
      CountToStep(es, j, v);
      CountToPrefix(es, j + 1, v);
      forall w | 0 <= w < g.n && w != v ensures CountTo(es[..j + 1], w) == CountTo(es[..j], w) {
        CountToStep(es, j, w);
      }
      inDegree[v] := inDegree[v] - 1;
      if inDegree[v] == 0 {
        DistinctSnoc(done + [u] + q, v);
        assert done + [u] + (q + [v]) == (done + [u] + q) + [v];
        q := q + [v];
      }
      j := j + 1;
    }
    assert es[..|es|] == es;
  }

  /** The invariant of the main loop of `sort`: the counts are those of the unemitted
      vertices, the emitted and queued vertices are exactly those at count 0, each once,
      the emitted ones predecessor-closed, and the seeded queue still heads the lot. */
  ghost predicate Draining(g: Digraph, deg: seq<int>, order: seq<nat>, queue: seq<nat>, queue0: seq<nat>)
    requires g.Valid()
  {
    |deg| == g.n &&
    (forall v :: 0 <= v < g.n ==> deg[v] == InDegreeFrom(g.adj, g.n, order, v)) &&
    (forall v :: 0 <= v < g.n ==> (v in order || v in queue <==> deg[v] == 0)) &&
    Distinct(order + queue) &&
    (forall i :: 0 <= i < |order + queue| ==> (order + queue)[i] < g.n) &&
    |order| + |queue| <= g.n &&
    PredClosed(g, order) &&
    queue0 <= order + queue
  }

  /** The main loop of `sort`: poll the front of the queue, emit it, release its targets.
      It ends with the seeded queue emitted first and every unemitted vertex still waiting. */
  method Drain(g: Digraph, inDegree: array<int>, queue0: seq<nat>) returns (order: seq<nat>)
    requires g.Valid() && inDegree.Length == g.n
    requires forall v :: 0 <= v < g.n ==> inDegree[v] == InDegree(g, v)
    requires queue0 == Sources(g, g.n)
    modifies inDegree
    ensures Distinct(order) && forall i :: 0 <= i < |order| ==> order[i] < g.n
    ensures PredClosed(g, order) && Stalled(g, order) && queue0 <= order
  {
    var queue := queue0;
    DistinctBound(queue, g.n);
    order := [];
    assert order + queue == queue;
    while |queue| > 0
      invariant Draining(g, inDegree[..], order, queue, queue0)
      decreases g.n - |order|
    {
      order, queue := Step(g, inDegree, order, queue, queue0);
    }
    assert order + queue == order;
  }

  /** One round of the main loop. */
  method Step(g: Digraph, inDegree: array<int>, order: seq<nat>, queue: seq<nat>, ghost queue0: seq<nat>)
    returns (order': seq<nat>, queue': seq<nat>)
    requires g.Valid() && inDegree.Length == g.n && |queue| > 0
    requires Draining(g, inDegree[..], order, queue, queue0)
    modifies inDegree
    ensures Draining(g, inDegree[..], order', queue', queue0)
    ensures |order'| == |order| + 1
  {
    var u := queue[0];
    var rest := queue[1..];
    assert order + queue == order + [u] + rest;
    assert (order + queue)[|order|] == u && u in queue;
    assert inDegree[u] == inDegree[..][u];
    PollFront(g, order, u, rest);
    var q := Release(g, inDegree, order, u, rest);
    PrefixExtend(queue0, order + [u], rest, q);
    order', queue' := order + [u], q;
    DistinctBound(order' + queue', g.n);
  }

  lemma PrefixExtend(a: seq<nat>, b: seq<nat>, c: seq<nat>, d: seq<nat>)
    requires a <= b + c && c <= d
    ensures a <= b + d
  {
    assert (b + c) == (b + d)[..|b + c|];
  }

  /** The polled vertex has not been emitted, and all its predecessors have. */
  lemma PollFront(g: Digraph, order: seq<nat>, u: nat, rest: seq<nat>)
    requires g.Valid() && Distinct(order + [u] + rest) && PredClosed(g, order)
    requires forall i :: 0 <= i < |order + [u] + rest| ==> (order + [u] + rest)[i] < g.n
    requires InDegreeFrom(g.adj, g.n, order, u) == 0
    ensures u < g.n && u !in order && PredClosed(g, order + [u])
  {
    var s := order + [u] + rest;
    assert s[|order|] == u;
    forall k | 0 <= k < |order| ensures order[k] != u {
      assert s[k] == order[k];
    }
    forall x | HasEdge(g, x, u) ensures x in order {
      if x !in order {
        InDegreeFromPositive(g, g.n, order, u, x);
      }
    }
    PredClosedSnoc(g, order, u);
  }

  /** What the emitted order says about the graph once the queue has run dry. */
  lemma DrainedOrder(g: Digraph, order: seq<nat>)
    requires g.Valid() && Distinct(order) && (forall i :: 0 <= i < |order| ==> order[i] < g.n)
    requires PredClosed(g, order) && Stalled(g, order)
    ensures forall v :: 0 <= v < g.n ==> (v in order <==> !CycleReaches(g, v))
    ensures |order| != g.n <==> HasCycle(g)
    ensures |order| == g.n ==> IsTopoOrder(g, order)
  {
    forall v | 0 <= v < g.n ensures v in order <==> !CycleReaches(g, v) {
      if v in order {
        ClosedNotReached(g, order, v);
      } else {
        StalledReached(g, order, v);
      }
    }
    if |order| != g.n {
      DistinctBound(order, g.n);
      var v := MissingVertex(order, g.n);
      CycleReachesHasCycle(g, v);
    } else {
      ClosedPermutationIsTopo(g, order);
      if HasCycle(g) {
        var p :| IsPath(g, p) && |p| >= 2 && p[0] == p[|p| - 1];
        OnCycleReached(g, p);
        PermutationCovers(order, g.n, p[0]);
        assert false;
      }
    }
  }

  /** The constructor followed by `sort`. An undirected graph is refused. Otherwise
      the vertices come out predecessor-closed and without repeats, starting with the
      in-degree-0 vertices in increasing order; exactly the vertices that no cycle reaches
      come out; a cycle is reported exactly when the graph has one. */
  method Sort(g: Digraph) returns (r: Result<TopoSortResult>)
    requires g.Valid()
    ensures r.Err? <==> !g.directed
    ensures r.Err? ==> r.error == NotDirected
    ensures r.Ok? ==> Distinct(r.value.order) && forall i :: 0 <= i < |r.value.order| ==> r.value.order[i] < g.n
    ensures r.Ok? ==> PredClosed(g, r.value.order)
    ensures r.Ok? ==> Sources(g, g.n) <= r.value.order
    ensures r.Ok? ==> forall v :: 0 <= v < g.n ==> (v in r.value.order <==> !CycleReaches(g, v))
    ensures r.Ok? ==> (r.value.hasCycle <==> |r.value.order| != g.n)
    ensures r.Ok? ==> (r.value.hasCycle <==> HasCycle(g))
    ensures r.Ok? ==> (r.value.IsValid() <==> Acyclic(g))
    ensures r.Ok? && r.value.IsValid() ==> IsTopoOrder(g, r.value.order)
  {
    if !g.directed {
      return Err(NotDirected);
    }
    var inDegree := ComputeInDegrees(g);
    var queue := InitialQueue(g, inDegree);
    var order := Drain(g, inDegree, queue);
    DrainedOrder(g, order);
    r := Ok(TopoSortResult(order, |order| != g.n));
  }
}
