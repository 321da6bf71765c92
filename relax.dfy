/** The relaxation shared by the DAG path solvers (DAGShortestPath.java, DAGLongestPath.java):
    distances and parent entries over a topological order, and the parent-chain walk that
    turns them into a path. Distances are mathematical integers; `None` stands for the
    sentinel Integer.MAX_VALUE (shortest) or Integer.MIN_VALUE (longest) of an unreached
    vertex. The source adds a distance and a weight in 32-bit arithmetic and assumes no overflow. */
module Relaxation {
  import opened Graphs
  import opened Paths

  /** Shortest paths replace on a strict decrease, longest paths on a strict increase. */
  datatype Objective = Minimize | Maximize

  /** The acceptance test of a relaxation: strictly smaller (or strictly larger) than the
      current distance; an unreached target always accepts. */
  predicate Improves(obj: Objective, cand: int, cur: Option<int>)
  {
    cur.None? || (if obj == Minimize then cand < cur.value else cand > cur.value)
  }

  /** d is a distance at least as good as the weight s. */
  ghost predicate AtLeastAsGood(obj: Objective, d: Option<int>, s: int)
  {
    d.Some? && (if obj == Minimize then d.value <= s else d.value >= s)
  }

  /** d1 is a distance strictly better than d0. */
  ghost predicate Better(obj: Objective, d1: Option<int>, d0: Option<int>)
  {
    d1.Some? && Improves(obj, d1.value, d0)
  }

  /** From (d0, p0) to (d1, p1) every vertex either kept its distance and parent, or got a
      strictly better distance with u as its parent. */
  ghost predicate Progress(obj: Objective, d0: seq<Option<int>>, p0: seq<int>,
                           d1: seq<Option<int>>, p1: seq<int>, u: nat)
  {
    |d1| == |d0| && |p0| == |d0| && |p1| == |d0| &&
    forall v :: 0 <= v < |d0| ==> (d1[v] == d0[v] && p1[v] == p0[v]) || (Better(obj, d1[v], d0[v]) && p1[v] == u)
  }

  /** d1 is no worse than d0. */
  ghost predicate NoWorse(obj: Objective, d1: Option<int>, d0: Option<int>)
  {
    d0.None? || AtLeastAsGood(obj, d1, d0.value)
  }

  /** p is a weighted path starting in S and ending at v. */
  ghost predicate PathFrom(g: Digraph, S: set<nat>, p: seq<nat>, ws: seq<int>, v: nat)
  {
    IsWeightedPath(g, p, ws) && p[0] in S && p[|p| - 1] == v
  }

  /** d is the optimal weight of a path from S to v, and None when there is none. */
  ghost predicate Best(g: Digraph, obj: Objective, S: set<nat>, v: nat, d: Option<int>)
  {
    (d.Some? ==> exists p, ws :: PathFrom(g, S, p, ws, v) && Sum(ws) == d.value) &&
    (forall p, ws :: PathFrom(g, S, p, ws, v) ==> AtLeastAsGood(obj, d, Sum(ws)))
  }

  /** The parent entry of v: -1 for an unreached vertex or a start vertex at distance 0;
      otherwise a reached vertex u with a record u->v whose weight is the distance gap. */
  ghost predicate TreeAt(g: Digraph, S: set<nat>, dist: seq<Option<int>>, parent: seq<int>, v: nat)
    requires |dist| == g.n && |parent| == g.n && v < g.n
  {
    if parent[v] == -1 then dist[v].None? || (v in S && dist[v] == Some(0))
    else
      0 <= parent[v] < g.n && parent[v] < |g.adj| && dist[parent[v]].Some? && dist[v].Some? &&
      Edge(v, dist[v].value - dist[parent[v]].value) in g.adj[parent[v]]
  }

  ghost predicate IsTree(g: Digraph, S: set<nat>, dist: seq<Option<int>>, parent: seq<int>)
  {
    |dist| == g.n && |parent| == g.n &&
    forall v :: 0 <= v < g.n ==> TreeAt(g, S, dist, parent, v)
  }

  /** Every parent entry names a vertex of done. */
  ghost predicate ParentsIn(parent: seq<int>, done: seq<nat>)
  {
    forall x :: 0 <= x < |parent| && parent[x] >= 0 ==> parent[x] as nat in done
  }

  /** All vertices of p before the last lie in done. */
  ghost predicate InnerIn(p: seq<nat>, done: seq<nat>)
  {
    forall k :: 0 <= k < |p| - 1 ==> p[k] in done
  }

  /** The relaxation invariant: a weighted path from S whose vertices before the last have
      all been processed is matched by the distance of its last vertex. */
  ghost predicate Settled(g: Digraph, obj: Objective, S: set<nat>, dist: seq<Option<int>>, done: seq<nat>)
    requires |dist| == |g.adj|
  {
    forall p, ws :: IsWeightedPath(g, p, ws) && p[0] in S && InnerIn(p, done) ==>
      AtLeastAsGood(obj, dist[p[|p| - 1]], Sum(ws))
  }

  /** What the single-source solvers return (ShortestPathResult, LongestPathResult): the
      source, the distance of every vertex and its parent entry. */
  datatype PathsResult = PathsResult(source: nat, distances: seq<Option<int>>, parent: seq<int>)
  {
    /** v holds a distance rather than the sentinel of an unreached vertex. */
    predicate IsReachable(v: nat)
      requires v < |distances|
    {
      distances[v].Some?
    }

    /** getPath: empty for an unreached dest, otherwise the parent chain from the
        source to dest, a weighted path whose weight is dest's distance. */
    method GetPath(g: Digraph, dest: nat) returns (path: seq<nat>)
      requires g.Valid() && Acyclic(g) && IsTree(g, {source}, distances, parent) && dest < g.n
      ensures path == [] <==> !IsReachable(dest)
      ensures path != [] ==> path[0] == source && path[|path| - 1] == dest
      ensures path != [] ==> exists ws :: IsWeightedPath(g, path, ws) && Sum(ws) == distances[dest].value
    {
      if !IsReachable(dest) {
        return [];
      }
      path := WalkParents(g, {source}, distances, parent, dest);
    }
  }

  // ----- the relaxation invariant -----

  /** Before anything is processed only the one-vertex paths count. */
  lemma InitSettled(g: Digraph, obj: Objective, S: set<nat>, dist: seq<Option<int>>)
    requires g.Valid() && |dist| == g.n
    requires forall v :: 0 <= v < g.n ==> dist[v] == if v in S then Some(0) else None
    ensures Settled(g, obj, S, dist, [])
  {
    forall p, ws | IsWeightedPath(g, p, ws) && p[0] in S && InnerIn(p, [])
      ensures AtLeastAsGood(obj, dist[p[|p| - 1]], Sum(ws))
    {
      assert |p| == 1;
    }
  }

  /** A record of the vertex at position i of a topological order leads past position i. */
  lemma TargetLater(g: Digraph, order: seq<nat>, i: nat, k: nat)
    requires g.Valid() && IsTopoOrder(g, order) && i < |order| && k < |g.adj[order[i]]|
    ensures g.adj[order[i]][k].to !in order[..i + 1]
  {
    var v := g.adj[order[i]][k].to;
    EdgeIsHasEdge(g, order[i], k);
  }

  /** An edge out of order[i] leads past position i. */
  lemma TopoForward(g: Digraph, order: seq<nat>, i: nat, x: nat)
    requires IsTopoOrder(g, order) && i < |order| && HasEdge(g, order[i], x)
    ensures x !in order[..i + 1]
  {
  }

  /** A path whose inner vertices lie in order[..i+1] can use order[i] only as its
      second-to-last vertex. */
  lemma SecondToLast(g: Digraph, order: seq<nat>, i: nat, p: seq<nat>)
    requires IsTopoOrder(g, order) && i < |order| && IsPath(g, p) && InnerIn(p, order[..i + 1])
    ensures forall k :: 0 <= k < |p| - 2 ==> p[k] in order[..i]
  {
    assert order[..i + 1] == order[..i] + [order[i]];
    forall k | 0 <= k < |p| - 2 ensures p[k] in order[..i] {
      var next := p[k + 1];
      assert HasEdge(g, p[k], next) && next in order[..i + 1];
      if p[k] !in order[..i] {
        TopoForward(g, order, i, next);
        assert false;
      }
    }
  }

  /** Processing order[i] extends the invariant to order[..i+1]. */
  lemma SettledStep(g: Digraph, obj: Objective, S: set<nat>, order: seq<nat>, i: nat,
                    d0: seq<Option<int>>, d1: seq<Option<int>>)
    requires g.Valid() && IsTopoOrder(g, order) && i < |order| && |d0| == g.n && |d1| == g.n
    requires Settled(g, obj, S, d0, order[..i])
    requires forall v :: 0 <= v < g.n ==> NoWorse(obj, d1[v], d0[v])
    requires d0[order[i]].Some? ==> forall k :: 0 <= k < |g.adj[order[i]]| ==>
      AtLeastAsGood(obj, d1[g.adj[order[i]][k].to], d0[order[i]].value + g.adj[order[i]][k].weight)
    ensures Settled(g, obj, S, d1, order[..i + 1])
  {
    forall p, ws | IsWeightedPath(g, p, ws) && p[0] in S && InnerIn(p, order[..i + 1])
      ensures AtLeastAsGood(obj, d1[p[|p| - 1]], Sum(ws))
    {
      WeightedPathIsPath(g, p, ws);
      SecondToLast(g, order, i, p);
      if InnerIn(p, order[..i]) {
        assert NoWorse(obj, d1[p[|p| - 1]], d0[p[|p| - 1]]);
      } else {
        LastStep(g, obj, S, order, i, d0, d1, p, ws);
      }
    }
  }

  /** The case of SettledStep where the path's last record leaves order[i]. */
  lemma LastStep(g: Digraph, obj: Objective, S: set<nat>, order: seq<nat>, i: nat,
                 d0: seq<Option<int>>, d1: seq<Option<int>>, p: seq<nat>, ws: seq<int>)
    requires g.Valid() && IsTopoOrder(g, order) && i < |order| && |d0| == g.n && |d1| == g.n
    requires Settled(g, obj, S, d0, order[..i])
    requires d0[order[i]].Some? ==> forall k :: 0 <= k < |g.adj[order[i]]| ==>
      AtLeastAsGood(obj, d1[g.adj[order[i]][k].to], d0[order[i]].value + g.adj[order[i]][k].weight)
    requires IsWeightedPath(g, p, ws) && p[0] in S && InnerIn(p, order[..i + 1]) && !InnerIn(p, order[..i])
    requires forall k :: 0 <= k < |p| - 2 ==> p[k] in order[..i]
    ensures AtLeastAsGood(obj, d1[p[|p| - 1]], Sum(ws))
  {
    var m := |p| - 1;
    assert order[..i + 1] == order[..i] + [order[i]];
    assert p[m - 1] == order[i];
    WeightedPathInit(g, p, ws);
    var p', ws' := p[..m], ws[..m - 1];
    assert InnerIn(p', order[..i]);
    assert AtLeastAsGood(obj, d0[order[i]], Sum(ws'));
    var u := order[i];
    var k :| 0 <= k < |g.adj[u]| && g.adj[u][k] == Edge(p[m], ws[m - 1]);
    assert AtLeastAsGood(obj, d1[p[m]], d0[u].value + ws[m - 1]);
  }

  /** Once every vertex is processed, every path from S is matched. */
  lemma SettledAll(g: Digraph, obj: Objective, S: set<nat>, dist: seq<Option<int>>, order: seq<nat>)
    requires g.Valid() && IsTopoOrder(g, order) && |dist| == g.n
    requires Settled(g, obj, S, dist, order)
    ensures forall p, ws :: IsWeightedPath(g, p, ws) && p[0] in S ==> AtLeastAsGood(obj, dist[p[|p| - 1]], Sum(ws))
  {
    forall p, ws | IsWeightedPath(g, p, ws) && p[0] in S
      ensures AtLeastAsGood(obj, dist[p[|p| - 1]], Sum(ws))
    {
      forall k | 0 <= k < |p| - 1 ensures p[k] in order {
        PermutationCovers(order, g.n, p[k]);
      }
    }
  }

  // ----- the parent tree -----

  /** Lowering v's distance to cand through a record u->v keeps the tree, provided no
      vertex has v as its parent. */
  lemma TreeUpdate(g: Digraph, S: set<nat>, dist: seq<Option<int>>, parent: seq<int>,
                   u: nat, k: nat, cand: int)
    requires g.Valid() && IsTree(g, S, dist, parent) && u < g.n && k < |g.adj[u]|
    requires dist[u].Some? && cand == dist[u].value + g.adj[u][k].weight
    requires g.adj[u][k].to != u
    requires forall x :: 0 <= x < g.n ==> parent[x] != g.adj[u][k].to
    ensures IsTree(g, S, dist[g.adj[u][k].to := Some(cand)], parent[g.adj[u][k].to := u])
  {
    var v := g.adj[u][k].to;
    var d', p' := dist[v := Some(cand)], parent[v := u];
    forall x | 0 <= x < g.n ensures TreeAt(g, S, d', p', x) {
      if x == v {
        assert g.adj[u][k] == Edge(v, d'[v].value - d'[u].value);
      } else {
        assert TreeAt(g, S, dist, parent, x);
      }
    }
  }

  /** Walking parents back from a reached vertex ends at a start vertex. */
  lemma {:induction false} TreeWalk(g: Digraph, S: set<nat>, dist: seq<Option<int>>, parent: seq<int>,
                                    p: seq<nat>, ws: seq<int>, v: nat)
    requires g.Valid() && Acyclic(g) && IsTree(g, S, dist, parent)
    requires IsWeightedPath(g, p, ws) && p[|p| - 1] == v && dist[p[0]].Some? && dist[v].Some?
    requires dist[p[0]].value + Sum(ws) == dist[v].value
    ensures exists p', ws' :: PathFrom(g, S, p', ws', v) && Sum(ws') == dist[v].value
    decreases g.n - |p|
  {
    WeightedPathIsPath(g, p, ws);
    AcyclicPathDistinct(g, p);
    var x := p[0];
    assert TreeAt(g, S, dist, parent, x);
    if parent[x] == -1 {
      assert PathFrom(g, S, p, ws, v);
    } else {
      var u: nat := parent[x];
      var w := dist[x].value - dist[u].value;
      WeightedPathCons(g, u, w, p, ws);
      WeightedPathIsPath(g, [u] + p, [w] + ws);
      AcyclicPathDistinct(g, [u] + p);
      TreeWalk(g, S, dist, parent, [u] + p, [w] + ws, v);
    }
  }

  /** Every reached vertex of a tree is reached by a path from S of exactly its distance. */
  lemma TreeSound(g: Digraph, S: set<nat>, dist: seq<Option<int>>, parent: seq<int>, v: nat)
    requires g.Valid() && Acyclic(g) && IsTree(g, S, dist, parent) && v < g.n && dist[v].Some?
    ensures exists p, ws :: PathFrom(g, S, p, ws, v) && Sum(ws) == dist[v].value
  {
    TreeWalk(g, S, dist, parent, [v], [], v);
  }

  /** A sound tree whose distances match every path holds the optimal distances. */
  lemma TreeBest(g: Digraph, obj: Objective, S: set<nat>, dist: seq<Option<int>>, parent: seq<int>)
    requires g.Valid() && Acyclic(g) && IsTree(g, S, dist, parent)
    requires forall p, ws :: IsWeightedPath(g, p, ws) && p[0] in S ==> AtLeastAsGood(obj, dist[p[|p| - 1]], Sum(ws))
    ensures forall v :: 0 <= v < g.n ==> Best(g, obj, S, v, dist[v])
  {
    forall v | 0 <= v < g.n ensures Best(g, obj, S, v, dist[v]) {
      if dist[v].Some? {
        TreeSound(g, S, dist, parent, v);
      }
    }
  }

  /** From a single source, a distance exists exactly for the reachable vertices. */
  lemma BestReach(g: Digraph, obj: Objective, s: nat, v: nat, d: Option<int>)
    requires g.Valid() && Best(g, obj, {s}, v, d)
    ensures d.Some? <==> Reach(g, s, v)
  {
    if d.Some? {
      var p, ws :| PathFrom(g, {s}, p, ws, v) && Sum(ws) == d.value;
      WeightedPathIsPath(g, p, ws);
    }
    if Reach(g, s, v) {
      var p :| IsPath(g, p) && p[0] == s && p[|p| - 1] == v;
      var ws := PathWeights(g, p);
      assert PathFrom(g, {s}, p, ws, v);
    }
  }

  /** A strict improvement of v through u extends the progress made so far. */
  lemma ProgressStep(obj: Objective, d0: seq<Option<int>>, p0: seq<int>, d1: seq<Option<int>>, p1: seq<int>,
                     u: nat, v: nat, cand: int)
    requires Progress(obj, d0, p0, d1, p1, u) && v < |d0| && Improves(obj, cand, d1[v])
    ensures Progress(obj, d0, p0, d1[v := Some(cand)], p1[v := u], u)
  {
  }

  /** Progress never makes a distance worse. */
  lemma ProgressNoWorse(obj: Objective, d0: seq<Option<int>>, p0: seq<int>, d1: seq<Option<int>>, p1: seq<int>, u: nat)
    requires Progress(obj, d0, p0, d1, p1, u)
    ensures forall v :: 0 <= v < |d0| ==> NoWorse(obj, d1[v], d0[v])
  {
  }

  // ----- the algorithm -----

  /** The inner loop of the relaxation: every record of u = order[i] is relaxed in list order,
      and an unreached u is skipped, as the single-source solvers do. The critical path has no
      such test; there every vertex starts at distance 0, so no vertex is ever unreached, which
      the ghost flag guarded == false records. A distance or parent changes only on a strict
      improvement through a record of u, and the parent then becomes u. */
  method RelaxFrom(g: Digraph, obj: Objective, order: seq<nat>, i: nat, ghost guarded: bool,
                   dist: array<Option<int>>, parent: array<int>, ghost S: set<nat>)
    requires g.Valid() && IsTopoOrder(g, order) && i < |order|
    requires IsTree(g, S, dist[..], parent[..]) && ParentsIn(parent[..], order[..i])
    requires !guarded ==> dist[order[i]].Some?
    modifies dist, parent
    ensures IsTree(g, S, dist[..], parent[..]) && ParentsIn(parent[..], order[..i + 1])
    ensures Progress(obj, old(dist[..]), old(parent[..]), dist[..], parent[..], order[i])
    ensures forall v :: 0 <= v < g.n ==> NoWorse(obj, dist[v], old(dist[v]))
    ensures old(dist[order[i]]).Some? ==> forall k :: 0 <= k < |g.adj[order[i]]| ==>
      AtLeastAsGood(obj, dist[g.adj[order[i]][k].to], old(dist[order[i]]).value + g.adj[order[i]][k].weight)
  {
    var u := order[i];
    PermutationCovers(order, g.n, u);
    assert u < g.n;
    assert order[..i + 1] == order[..i] + [u];
    if dist[u].None? {
      return;
    }
    var du := dist[u].value;
    ghost var d0, p0 := dist[..], parent[..];
    var j := 0;
    while j < |g.adj[u]|
      invariant 0 <= j <= |g.adj[u]|
      invariant Relaxing(g, obj, order, i, j, du, dist[..], parent[..], S, d0, p0)
    {
      RelaxEdge(g, obj, order, i, j, du, dist, parent, S, d0, p0);
      j := j + 1;
    }
    ProgressNoWorse(obj, d0, p0, dist[..], parent[..], u);
  }

  /** The invariant of RelaxFrom's loop after the first j records of u = order[i]. */
  ghost predicate Relaxing(g: Digraph, obj: Objective, order: seq<nat>, i: nat, j: nat, du: int,
                           dist: seq<Option<int>>, parent: seq<int>, S: set<nat>,
                           d0: seq<Option<int>>, p0: seq<int>)
    requires g.Valid() && i < |order| && order[i] < g.n && j <= |g.adj[order[i]]|
  {
    |dist| == g.n && dist[order[i]] == Some(du) &&
    IsTree(g, S, dist, parent) && ParentsIn(parent, order[..i + 1]) &&
    Progress(obj, d0, p0, dist, parent, order[i]) &&
    forall k :: 0 <= k < j ==> AtLeastAsGood(obj, dist[g.adj[order[i]][k].to], du + g.adj[order[i]][k].weight)
  }

  /** One pass of RelaxFrom's loop: the record at position j of u's list is relaxed. */
  method RelaxEdge(g: Digraph, obj: Objective, order: seq<nat>, i: nat, j: nat, du: int,
                   dist: array<Option<int>>, parent: array<int>, ghost S: set<nat>,
                   ghost d0: seq<Option<int>>, ghost p0: seq<int>)
    requires g.Valid() && IsTopoOrder(g, order) && i < |order| && order[i] < g.n && j < |g.adj[order[i]]|
    requires dist.Length == g.n && parent.Length == g.n
    requires Relaxing(g, obj, order, i, j, du, dist[..], parent[..], S, d0, p0)
    modifies dist, parent
    ensures Relaxing(g, obj, order, i, j + 1, du, dist[..], parent[..], S, d0, p0)
  {
    var u := order[i];
    var e := g.adj[u][j];
    var v := e.to;
    var newDist := du + e.weight;
    TargetLater(g, order, i, j);
    assert u in order[..i + 1];
    if Improves(obj, newDist, dist[v]) {
      forall x | 0 <= x < g.n ensures parent[x] != v {
        assert ParentsIn(parent[..], order[..i + 1]);
        if parent[x] >= 0 {
          assert parent[..][x] as nat in order[..i + 1];
        }
      }
      TreeUpdate(g, S, dist[..], parent[..], u, j, newDist);
      ProgressStep(obj, d0, p0, dist[..], parent[..], u, v, newDist);
      dist[v] := Some(newDist);
      parent[v] := u;
    }
  }

  /** The outer loop of the relaxation, over the topological order: afterwards every path from S is matched and
      the parent entries form a tree of distance-exact records. */
  method Relax(g: Digraph, obj: Objective, order: seq<nat>, ghost guarded: bool,
               dist: array<Option<int>>, parent: array<int>, ghost S: set<nat>)
    requires g.Valid() && IsTopoOrder(g, order) && dist.Length == g.n && parent.Length == g.n
    requires forall v :: 0 <= v < g.n ==> parent[v] == -1 && dist[v] == if v in S then Some(0) else None
    requires !guarded ==> forall v :: 0 <= v < g.n ==> v in S
    modifies dist, parent
    ensures IsTree(g, S, dist[..], parent[..])
    ensures forall p, ws :: IsWeightedPath(g, p, ws) && p[0] in S ==> AtLeastAsGood(obj, dist[p[|p| - 1]], Sum(ws))
  {
    InitSettled(g, obj, S, dist[..]);
    assert IsTree(g, S, dist[..], parent[..]);
    for i := 0 to |order|
      invariant IsTree(g, S, dist[..], parent[..]) && ParentsIn(parent[..], order[..i])
      invariant Settled(g, obj, S, dist[..], order[..i])
      invariant !guarded ==> forall v :: 0 <= v < g.n ==> dist[v].Some?
    {
      ghost var d0 := dist[..];
      if !guarded {
        PermutationCovers(order, g.n, order[i]);
      }
      RelaxFrom(g, obj, order, i, guarded, dist, parent, S);
      SettledStep(g, obj, S, order, i, d0, dist[..]);
    }
    assert order[..|order|] == order;
    SettledAll(g, obj, S, dist[..], order);
  }

  /** fwd is a weighted path ending at dest whose weight closes the gap between the
      distances of its two ends. */
  ghost predicate Walked(g: Digraph, dist: seq<Option<int>>, dest: nat, fwd: seq<nat>, ws: seq<int>)
    requires |dist| == g.n && dest < g.n
  {
    IsWeightedPath(g, fwd, ws) && fwd[|fwd| - 1] == dest && fwd[0] < g.n &&
    dist[fwd[0]].Some? && dist[dest].Some? && dist[fwd[0]].value + Sum(ws) == dist[dest].value
  }

  /** One step of the walk: prepend the parent of the walk's first vertex. */
  lemma WalkStep(g: Digraph, S: set<nat>, dist: seq<Option<int>>, parent: seq<int>, dest: nat,
                 fwd: seq<nat>, ws: seq<int>) returns (ws': seq<int>)
    requires g.Valid() && Acyclic(g) && IsTree(g, S, dist, parent) && dest < g.n
    requires Walked(g, dist, dest, fwd, ws) && parent[fwd[0]] >= 0
    ensures Walked(g, dist, dest, [parent[fwd[0]] as nat] + fwd, ws') && |fwd| + 1 <= g.n
  {
    assert TreeAt(g, S, dist, parent, fwd[0]);
    var c: nat := parent[fwd[0]];
    var w := dist[fwd[0]].value - dist[c].value;
    WeightedPathCons(g, c, w, fwd, ws);
    ws' := [w] + ws;
    WeightedPathIsPath(g, [c] + fwd, ws');
    AcyclicPathDistinct(g, [c] + fwd);
  }

  /** A walk that has reached a parentless vertex starts in S. */
  lemma WalkEnd(g: Digraph, S: set<nat>, dist: seq<Option<int>>, parent: seq<int>, dest: nat,
                fwd: seq<nat>, ws: seq<int>)
    requires g.Valid() && IsTree(g, S, dist, parent) && dest < g.n
    requires Walked(g, dist, dest, fwd, ws) && parent[fwd[0]] == -1
    ensures PathFrom(g, S, fwd, ws, dest) && Sum(ws) == dist[dest].value
  {
    assert TreeAt(g, S, dist, parent, fwd[0]);
  }

  lemma ReverseSnoc(s: seq<nat>, x: nat)
    ensures Reverse(s + [x]) == [x] + Reverse(s)
  {
    assert forall i :: 0 <= i < |s| + 1 ==> Reverse(s + [x])[i] == ([x] + Reverse(s))[i];
  }

  /** getPath's walk: follow the parent entries from dest until there is none, then reverse
      the collected vertices: a path from S to dest of exactly dest's distance. */
  method WalkParents(g: Digraph, ghost S: set<nat>, dist: seq<Option<int>>, parent: seq<int>, dest: nat)
    returns (path: seq<nat>)
    requires g.Valid() && Acyclic(g) && IsTree(g, S, dist, parent) && dest < g.n && dist[dest].Some?
    ensures exists ws :: PathFrom(g, S, path, ws, dest) && Sum(ws) == dist[dest].value
  {
    var rev: seq<nat> := [];
    var current: int := dest;
    ghost var fwd: seq<nat> := [];
    ghost var ws: seq<int> := [];
    while current != -1
      invariant -1 <= current < g.n
      invariant |rev| == 0 ==> current == dest
      invariant |rev| > 0 ==> fwd == Reverse(rev) && Walked(g, dist, dest, fwd, ws)
      invariant |rev| > 0 ==> current == parent[fwd[0]] && |rev| <= g.n
      decreases g.n - |rev|
    {
      var c: nat := current;
      if |rev| == 0 {
        fwd, ws := [c], [];
      } else {
        ws := WalkStep(g, S, dist, parent, dest, fwd, ws);
        fwd := [c] + fwd;
      }
      ReverseSnoc(rev, c);
      rev := rev + [c];
      assert TreeAt(g, S, dist, parent, c);
      current := parent[c];
    }
    WalkEnd(g, S, dist, parent, dest, fwd, ws);
    path := Reverse(rev);
  }
}
