/** The contract of one `dfs(u)` call of TarjanSCC.java and the loop invariant of its edge
    loop, with one lemma per branch of the loop body. */
module TarjanSearch {
  import opened Graphs
  import opened Paths
  import opened TarjanState
  import opened TarjanSteps

  function Min(a: int, b: int): int
  {
    if a <= b then a else b
  }

  /** What dfs(u) leaves behind, relative to the state s0 it started from. */
  ghost predicate DfsPost(g: Digraph, s0: State, s: State, u: nat)
  {
    StackInRange(g, s0) && StackInRange(g, s) && u < g.n &&
    s0.stack <= s.stack && s0.sccs <= s.sccs &&
    s.disc[u] == s0.time &&
    (forall v :: 0 <= v < g.n && s0.disc[v] != -1 ==> s.disc[v] == s0.disc[v] && s.low[v] == s0.low[v]) &&
    (u in s.stack ==>
       |s.stack| > |s0.stack| && s.stack[|s0.stack|] == u &&
       forall k :: |s0.stack| < k < |s.stack| ==> s.low[u] <= s.low[s.stack[k]]) &&
    (u !in s.stack ==> s.stack == s0.stack && s.low[u] == s.disc[u]) &&
    (forall k :: |s0.stack| <= k < |s.stack| ==> Reach(g, u, s.stack[k]))
  }

  /** The invariant of dfs(u)'s loop after its first j records, relative to the state s0 at
      the call; anc holds the callers still running. */
  ghost predicate DfsLoop(g: Digraph, s0: State, s: State, u: nat, anc: set<nat>, j: nat)
  {
    Inv(g, s, anc + {u}) && DfsFrame(g, s0, s, u, anc) && j <= |g.adj[u]| &&
    forall k :: 0 <= k < j ==> EdgeDone(g, s, g.adj[u][k].to, s.low[u])
  }

  /** How the state inside dfs(u) relates to the state at the call. */
  ghost predicate DfsFrame(g: Digraph, s0: State, s: State, u: nat, anc: set<nat>)
  {
    StackInRange(g, s0) && StackInRange(g, s) && u < g.n && s0.disc[u] == -1 && u !in anc &&
    u !in s0.stack && (forall a :: a in anc ==> a in s0.stack) &&
    |s.stack| > |s0.stack| && s.stack[..|s0.stack|] == s0.stack && s.stack[|s0.stack|] == u &&
    s0.sccs <= s.sccs && s.disc[u] == s0.time &&
    (forall v :: 0 <= v < g.n && s0.disc[v] != -1 ==> s.disc[v] == s0.disc[v] && s.low[v] == s0.low[v]) &&
    (forall k :: |s0.stack| < k < |s.stack| ==> s.low[u] <= s.low[s.stack[k]]) &&
    (forall k :: |s0.stack| <= k < |s.stack| ==> Reach(g, u, s.stack[k]))
  }

  /** An undiscovered vertex is neither on the stack nor running. */
  lemma OffStack(g: Digraph, s: State, anc: set<nat>, u: nat)
    requires Inv(g, s, anc) && u < g.n && s.disc[u] == -1
    ensures u !in s.stack && u !in anc
  {
    assert u !in Seen(s);
  }

  lemma FrameStart(g: Digraph, s0: State, u: nat, anc: set<nat>)
    requires StackInRange(g, s0) && u < g.n && s0.disc[u] == -1 && u !in anc && u !in s0.stack
    requires forall a :: a in anc ==> a in s0.stack
    ensures DfsFrame(g, s0, Discover(s0, u), u, anc)
  {
    var s := Discover(s0, u);
    assert s.stack[..|s0.stack|] == s0.stack;
    ReachRefl(g, u);
    assert forall k :: |s0.stack| <= k < |s.stack| ==> s.stack[k] == u;
  }

  lemma DfsStart(g: Digraph, s0: State, u: nat, anc: set<nat>)
    requires Inv(g, s0, anc) && u < g.n && s0.disc[u] == -1
    ensures DfsLoop(g, s0, Discover(s0, u), u, anc, 0)
  {
    OffStack(g, s0, anc, u);
    DiscoverKeeps(g, s0, u, anc);
    FrameStart(g, s0, u, anc);
  }

  // ----- the branches of the loop body -----

  /** A discovered vertex off the stack is in a finished component. */
  lemma OffStackFinished(g: Digraph, s: State, v: nat)
    requires Shape(g, s) && Partitioned(g, s) && Stacked(g, s) && v < g.n && s.disc[v] != -1 && v !in s.stack
    ensures v in Flatten(s.sccs)
  {
    assert v in Seen(s);
  }

  /** A record to a discovered vertex off the stack: v is finished, nothing changes. */
  lemma DfsSkip(g: Digraph, s0: State, s: State, u: nat, anc: set<nat>, j: nat)
    requires DfsLoop(g, s0, s, u, anc, j) && j < |g.adj[u]|
    requires s.disc[g.adj[u][j].to] != -1 && !s.onStack[g.adj[u][j].to]
    ensures DfsLoop(g, s0, s, u, anc, j + 1)
  {
    OffStackFinished(g, s, g.adj[u][j].to);
  }

  /** Lowering u's low-link keeps the frame. */
  lemma FrameLower(g: Digraph, s0: State, s: State, u: nat, anc: set<nat>, l: int)
    requires DfsFrame(g, s0, s, u, anc) && StackSorted(g, s) && l <= s.low[u]
    ensures DfsFrame(g, s0, SetLow(s, u, l), u, anc)
  {
    var p := |s0.stack|;
    forall k | p < k < |s.stack|
      ensures s.stack[k] != u
    {
      SortedDistinct(g, s, k, p);
    }
  }

  lemma EdgesLower(g: Digraph, s: State, u: nat, j: nat, l: int)
    requires Shape(g, s) && u < g.n && j <= |g.adj[u]| && l <= s.low[u]
    requires forall k :: 0 <= k < j ==> EdgeDone(g, s, g.adj[u][k].to, s.low[u])
    ensures forall k :: 0 <= k < j ==> EdgeDone(g, SetLow(s, u, l), g.adj[u][k].to, l)
  {
  }

  /** A record to a vertex v on the stack lowers u's low-link to at most v's discovery time. */
  lemma BackInv(g: Digraph, s: State, anc: set<nat>, u: nat, pu: nat, v: nat, l: int)
    requires Inv(g, s, anc) && u in anc && pu < |s.stack| && s.stack[pu] == u
    requires v in s.stack && HasEdge(g, u, v) && l == Min(s.low[u], s.disc[v])
    ensures Inv(g, SetLow(s, u, l), anc)
  {
    if s.disc[v] < s.low[u] {
      ReachEdge(g, u, v);
      LowerLowKeeps(g, s, anc, u, pu, IndexOf(s.stack, v), l);
    } else {
      assert SetLow(s, u, l) == s;
    }
  }

  /** The back-edge branch: u's low-link drops to the discovery time of v, a vertex on the
      stack, if that is smaller. */
  lemma DfsBack(g: Digraph, s0: State, s: State, u: nat, anc: set<nat>, j: nat)
    requires DfsLoop(g, s0, s, u, anc, j) && j < |g.adj[u]|
    requires s.disc[g.adj[u][j].to] != -1 && s.onStack[g.adj[u][j].to]
    ensures DfsLoop(g, s0, SetLow(s, u, Min(s.low[u], s.disc[g.adj[u][j].to])), u, anc, j + 1)
  {
    var v := g.adj[u][j].to;
    var l := Min(s.low[u], s.disc[v]);
    EdgeIsHasEdge(g, u, j);
    BackInv(g, s, anc + {u}, u, |s0.stack|, v, l);
    FrameLower(g, s0, s, u, anc, l);
    EdgesLower(g, s, u, j, l);
  }

  /** Stack vertices and the vertices of finished components are discovered. */
  lemma SeenDiscovered(g: Digraph, s: State)
    requires Shape(g, s) && Partitioned(g, s) && StackInRange(g, s)
    ensures forall i :: 0 <= i < |s.stack| ==> s.disc[s.stack[i]] != -1
  {
    forall i | 0 <= i < |s.stack|
      ensures s.disc[s.stack[i]] != -1
    {
      assert s.stack[i] in Seen(s);
    }
  }

  /** Above u, no low-link drops below u's new low-link l after the call dfs(v). */
  lemma TreeLowOrder(g: Digraph, s: State, s1: State, u: nat, p: nat, v: nat, l: int)
    requires StackInRange(g, s) && StackInRange(g, s1) && StackSorted(g, s1) && u < g.n && v < g.n
    requires p < |s.stack| && s.stack[p] == u && s.stack <= s1.stack && s.disc[u] != -1
    requires forall k :: p < k < |s.stack| ==> s.low[u] <= s.low[s.stack[k]]
    requires forall i :: 0 <= i < |s.stack| ==> s.disc[s.stack[i]] != -1
    requires forall w :: 0 <= w < g.n && s.disc[w] != -1 ==> s1.low[w] == s.low[w]
    requires v in s1.stack ==>
      |s1.stack| > |s.stack| && s1.stack[|s.stack|] == v &&
      forall k :: |s.stack| < k < |s1.stack| ==> s1.low[v] <= s1.low[s1.stack[k]]
    requires v !in s1.stack ==> s1.stack == s.stack
    requires l <= s1.low[u] && l <= s1.low[v]
    ensures forall k :: p < k < |s1.stack| ==> l <= SetLow(s1, u, l).low[s1.stack[k]]
  {
    forall k | p < k < |s1.stack|
      ensures l <= SetLow(s1, u, l).low[s1.stack[k]]
    {
      SortedDistinct(g, s1, k, p);
      if k < |s.stack| {
        assert s1.stack[k] == s.stack[k];
      }
    }
  }

  /** Everything above u is still reached from u after the call dfs(v). */
  lemma TreeReach(g: Digraph, s: State, s1: State, u: nat, p: nat, v: nat)
    requires StackInRange(g, s) && StackInRange(g, s1) && u < g.n && v < g.n && HasEdge(g, u, v)
    requires p <= |s.stack| <= |s1.stack| && s.stack <= s1.stack
    requires forall k :: p <= k < |s.stack| ==> Reach(g, u, s.stack[k])
    requires forall k :: |s.stack| <= k < |s1.stack| ==> Reach(g, v, s1.stack[k])
    ensures forall k :: p <= k < |s1.stack| ==> Reach(g, u, s1.stack[k])
  {
    forall k | p <= k < |s1.stack|
      ensures Reach(g, u, s1.stack[k])
    {
      if k < |s.stack| {
        assert s1.stack[k] == s.stack[k];
      } else {
        ReachEdgeThen(g, u, v, s1.stack[k]);
      }
    }
  }

  /** The frame after the recursive call dfs(v) and the minimum l of the two low-links. */
  lemma TreeFrame(g: Digraph, s0: State, s: State, s1: State, u: nat, anc: set<nat>, v: nat, l: int)
    requires DfsFrame(g, s0, s, u, anc) && DfsPost(g, s, s1, v) && StackSorted(g, s1)
    requires HasEdge(g, u, v) && l == Min(s1.low[u], s1.low[v])
    requires forall i :: 0 <= i < |s.stack| ==> s.disc[s.stack[i]] != -1
    ensures DfsFrame(g, s0, SetLow(s1, u, l), u, anc)
  {
    var p := |s0.stack|;
    TreeLowOrder(g, s, s1, u, p, v, l);
    TreeReach(g, s, s1, u, p, v);
    assert s1.stack[..|s.stack|] == s.stack;
    assert s1.stack[..p] == s.stack[..p];
  }

  /** A child that is already a finished root has a low-link no smaller than its parent's. */
  lemma ChildLow(g: Digraph, s: State, s1: State, p: nat, v: nat)
    requires Shape(g, s) && Timed(g, s) && StackInRange(g, s) && p < |s.stack| && LowAt(g, s, p)
    requires DfsPost(g, s, s1, v) && s.disc[s.stack[p]] != -1
    ensures v !in s1.stack ==> s1.low[s.stack[p]] <= s1.low[v]
  {
  }

  /** The invariant after the recursive call dfs(v) and the minimum l of the two low-links. */
  lemma TreeInv(g: Digraph, s1: State, u: nat, anc: set<nat>, p: nat, q: nat, v: nat, l: int)
    requires Inv(g, s1, anc + {u}) && u < g.n && v < g.n && HasEdge(g, u, v)
    requires p < |s1.stack| && s1.stack[p] == u
    requires v in s1.stack ==> q < |s1.stack| && s1.stack[q] == v
    requires v !in s1.stack ==> s1.low[u] <= s1.low[v]
    requires l == Min(s1.low[u], s1.low[v])
    ensures Inv(g, SetLow(s1, u, l), anc + {u})
  {
    if s1.low[v] < s1.low[u] {
      assert LowAt(g, s1, q);
      var kz: nat :| LowWitness(g, s1, q, kz);
      ReachEdgeThen(g, u, v, s1.stack[kz]);
      LowerLowKeeps(g, s1, anc + {u}, u, p, kz, l);
    } else {
      assert SetLow(s1, u, l) == s1;
    }
  }

  /** The explored records after the recursive call dfs(v) and the minimum l. */
  lemma TreeEdges(g: Digraph, s: State, s1: State, u: nat, j: nat, l: int)
    requires Shape(g, s) && Partitioned(g, s) && Shape(g, s1) && Partitioned(g, s1)
    requires u < g.n && j < |g.adj[u]| && s.sccs <= s1.sccs
    requires forall w :: 0 <= w < g.n && s.disc[w] != -1 ==> s1.disc[w] == s.disc[w]
    requires forall k :: 0 <= k < j ==> EdgeDone(g, s, g.adj[u][k].to, s.low[u])
    requires l <= s.low[u] && l <= s1.low[g.adj[u][j].to] && s1.disc[g.adj[u][j].to] != -1
    requires g.adj[u][j].to in s1.stack ==> s1.low[g.adj[u][j].to] <= s1.disc[g.adj[u][j].to]
    ensures forall k :: 0 <= k <= j ==> EdgeDone(g, SetLow(s1, u, l), g.adj[u][k].to, l)
  {
    var v := g.adj[u][j].to;
    var s2 := SetLow(s1, u, l);
    EdgeIsHasEdge(g, u, j);
    forall k | 0 <= k < j
      ensures EdgeDone(g, s2, g.adj[u][k].to, l)
    {
      EdgeIsHasEdge(g, u, k);
      EdgeDoneLater(g, s, s1, g.adj[u][k].to, s.low[u], l);
    }
    if v !in s1.stack {
      assert v in Seen(s1);
    }
  }

  /** The facts about the state before the recursive call that the tree-edge branch uses. */
  ghost predicate LoopFacts(g: Digraph, s0: State, s: State, u: nat, anc: set<nat>, j: nat)
  {
    Shape(g, s) && Partitioned(g, s) && Timed(g, s) && DfsFrame(g, s0, s, u, anc) &&
    j < |g.adj[u]| && LowAt(g, s, |s0.stack|) &&
    (forall i :: 0 <= i < |s.stack| ==> s.disc[s.stack[i]] != -1) &&
    forall k :: 0 <= k < j ==> EdgeDone(g, s, g.adj[u][k].to, s.low[u])
  }

  lemma LoopSummary(g: Digraph, s0: State, s: State, u: nat, anc: set<nat>, j: nat)
    requires DfsLoop(g, s0, s, u, anc, j) && j < |g.adj[u]|
    ensures LoopFacts(g, s0, s, u, anc, j)
  {
    assert LowAt(g, s, |s0.stack|);
    SeenDiscovered(g, s);
  }

  /** The three parts of the tree-edge branch. */
  lemma TreeFrameStep(g: Digraph, s0: State, s: State, s1: State, u: nat, anc: set<nat>, j: nat)
    requires LoopFacts(g, s0, s, u, anc, j) && s.disc[g.adj[u][j].to] == -1
    requires Inv(g, s1, anc + {u}) && DfsPost(g, s, s1, g.adj[u][j].to)
    ensures DfsFrame(g, s0, SetLow(s1, u, Min(s1.low[u], s1.low[g.adj[u][j].to])), u, anc)
  {
    EdgeIsHasEdge(g, u, j);
    TreeFrame(g, s0, s, s1, u, anc, g.adj[u][j].to, Min(s1.low[u], s1.low[g.adj[u][j].to]));
  }

  /** Where u and its child v sit on the stack after the call dfs(v). */
  lemma ChildPlace(g: Digraph, s0: State, s: State, s1: State, u: nat, anc: set<nat>, j: nat)
    requires LoopFacts(g, s0, s, u, anc, j) && s.disc[g.adj[u][j].to] == -1
    requires DfsPost(g, s, s1, g.adj[u][j].to)
    ensures |s0.stack| < |s1.stack| && s1.stack[|s0.stack|] == u
    ensures g.adj[u][j].to in s1.stack ==>
      |s.stack| < |s1.stack| && s1.stack[|s.stack|] == g.adj[u][j].to
    ensures g.adj[u][j].to !in s1.stack ==> s1.low[u] <= s1.low[g.adj[u][j].to]
  {
    ChildLow(g, s, s1, |s0.stack|, g.adj[u][j].to);
    assert s1.stack[..|s.stack|] == s.stack;
  }

  lemma TreeInvStep(g: Digraph, s0: State, s: State, s1: State, u: nat, anc: set<nat>, j: nat)
    requires LoopFacts(g, s0, s, u, anc, j) && s.disc[g.adj[u][j].to] == -1
    requires Inv(g, s1, anc + {u}) && DfsPost(g, s, s1, g.adj[u][j].to)
    ensures Inv(g, SetLow(s1, u, Min(s1.low[u], s1.low[g.adj[u][j].to])), anc + {u})
  {
    var v := g.adj[u][j].to;
    EdgeIsHasEdge(g, u, j);
    ChildPlace(g, s0, s, s1, u, anc, j);
    TreeInv(g, s1, u, anc, |s0.stack|, |s.stack|, v, Min(s1.low[u], s1.low[v]));
  }

  lemma TreeEdgesStep(g: Digraph, s0: State, s: State, s1: State, u: nat, anc: set<nat>, j: nat)
    requires LoopFacts(g, s0, s, u, anc, j) && s.disc[g.adj[u][j].to] == -1
    requires Shape(g, s1) && Partitioned(g, s1) && DfsPost(g, s, s1, g.adj[u][j].to)
    requires g.adj[u][j].to in s1.stack ==> s1.low[g.adj[u][j].to] <= s1.disc[g.adj[u][j].to]
    ensures forall k :: 0 <= k <= j ==>
      EdgeDone(g, SetLow(s1, u, Min(s1.low[u], s1.low[g.adj[u][j].to])), g.adj[u][k].to,
               Min(s1.low[u], s1.low[g.adj[u][j].to]))
  {
    var v := g.adj[u][j].to;
    TreeEdges(g, s, s1, u, j, Min(s1.low[u], s1.low[v]));
  }

  /** The tree-edge branch: dfs(v), then u's low-link drops to v's if that is smaller. */
  lemma DfsTree(g: Digraph, s0: State, s: State, s1: State, u: nat, anc: set<nat>, j: nat)
    requires DfsLoop(g, s0, s, u, anc, j) && j < |g.adj[u]| && s.disc[g.adj[u][j].to] == -1
    requires Inv(g, s1, anc + {u}) && DfsPost(g, s, s1, g.adj[u][j].to)
    ensures DfsLoop(g, s0, SetLow(s1, u, Min(s1.low[u], s1.low[g.adj[u][j].to])), u, anc, j + 1)
  {
    LoopSummary(g, s0, s, u, anc, j);
    TreeFrameStep(g, s0, s, s1, u, anc, j);
    TreeInvStep(g, s0, s, s1, u, anc, j);
    StackLowLink(g, s1, anc + {u}, g.adj[u][j].to);
    TreeEdgesStep(g, s0, s, s1, u, anc, j);
  }

  /** A vertex on the stack has a low-link no later than its discovery time. */
  lemma StackLowLink(g: Digraph, s: State, anc: set<nat>, v: nat)
    requires Inv(g, s, anc)
    ensures Shape(g, s) && Partitioned(g, s)
    ensures v in s.stack ==> s.low[v] <= s.disc[v]
  {
    if v in s.stack {
      assert LowAt(g, s, IndexOf(s.stack, v));
    }
  }

  // ----- the end of dfs(u) -----

  /** u's low-link equals its discovery time: u is a root and its segment becomes a component. */
  lemma DfsEndRoot(g: Digraph, s0: State, s: State, u: nat, anc: set<nat>, os: seq<bool>)
    requires u < g.n && g.Valid() && DfsLoop(g, s0, s, u, anc, |g.adj[u]|) && s.low[u] == s.disc[u]
    requires Cleared(s, |s0.stack|, os)
    ensures Inv(g, PopFrom(s, |s0.stack|, os), anc) && DfsPost(g, s0, PopFrom(s, |s0.stack|, os), u)
  {
    var p := |s0.stack|;
    assert s.stack[..p] == s0.stack;
    assert Closing(g, s, anc, u, p);
    PopKeeps(g, s, anc, u, p, os);
  }

  /** u is not a root: it stays on the stack, finished. */
  lemma DfsEndOther(g: Digraph, s0: State, s: State, u: nat, anc: set<nat>)
    requires u < g.n && g.Valid() && DfsLoop(g, s0, s, u, anc, |g.adj[u]|) && s.low[u] != s.disc[u]
    ensures Inv(g, s, anc) && DfsPost(g, s0, s, u)
  {
    var p := |s0.stack|;
    assert LowAt(g, s, p);
    FinishKeeps(g, s, anc, u, p);
    assert s0.stack <= s.stack;
  }
}
