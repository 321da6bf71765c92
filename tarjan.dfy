/** TarjanSCC.java: the search object whose recursive `dfs` updates the fields time, disc,
    low, onStack, stack and sccs in place, and the result object with its vertex map. */
module Tarjan {
  import opened Graphs
  import opened Paths
  import opened TarjanState
  import opened TarjanSteps
  import opened TarjanSearch

  // ----- facts about whole searches -----

  /** Every discovered vertex has a low-link between 0 and its discovery time. */
  ghost predicate LowBounded(g: Digraph, s: State)
    requires Shape(g, s)
  {
    forall v :: 0 <= v < g.n && s.disc[v] != -1 ==> 0 <= s.low[v] <= s.disc[v]
  }

  /** The state right after the arrays are allocated and filled with -1. */
  lemma InitialInv(g: Digraph, s: State)
    requires Shape(g, s) && s.stack == [] && s.sccs == [] && s.time == 0
    requires forall v :: 0 <= v < g.n ==> s.disc[v] == -1 && !s.onStack[v]
    ensures Inv(g, s, {}) && LowBounded(g, s)
  {
    assert Seen(s) == multiset{};
  }

  lemma DiscoverBounded(g: Digraph, s: State, u: nat)
    requires Shape(g, s) && Timed(g, s) && LowBounded(g, s) && u < g.n && s.disc[u] == -1
    requires s.time >= 0
    ensures LowBounded(g, Discover(s, u))
  {
  }

  lemma LowerBounded(g: Digraph, s: State, u: nat, l: int)
    requires Shape(g, s) && LowBounded(g, s) && u < g.n && s.disc[u] != -1 && 0 <= l <= s.low[u]
    ensures LowBounded(g, SetLow(s, u, l))
  {
  }

  /** The root at position p is the only copy of its vertex from p up. */
  lemma RootOnce(g: Digraph, s: State, p: nat)
    requires StackInRange(g, s) && StackSorted(g, s) && p < |s.stack|
    ensures s.stack[p] !in s.stack[p + 1..]
  {
    forall k | p + 1 <= k < |s.stack|
      ensures s.stack[k] != s.stack[p]
    {
      SortedDistinct(g, s, k, p);
    }
  }

  /** With no caller running, the bottom of the stack is finished: its low-link is below its
      discovery time. */
  lemma BottomFinished(g: Digraph, s: State)
    requires Inv(g, s, {})
    ensures |s.stack| > 0 ==> s.low[s.stack[0]] < s.disc[s.stack[0]]
  {
    if |s.stack| > 0 {
      assert FinishedAt(g, s, 0);
    }
  }

  /** The low-link of the bottom of the stack names a vertex at or below it: itself. */
  lemma BottomRoot(g: Digraph, s: State)
    requires StackInRange(g, s) && LowLinked(g, s)
    ensures |s.stack| > 0 ==> s.low[s.stack[0]] == s.disc[s.stack[0]]
  {
    if |s.stack| > 0 {
      assert LowAt(g, s, 0);
    }
  }

  /** A dfs started from the top level, with an empty stack, leaves the stack empty. */
  lemma TopLevelEmpties(g: Digraph, s0: State, s: State, v: nat)
    requires Inv(g, s, {}) && DfsPost(g, s0, s, v) && s0.stack == []
    ensures s.stack == []
  {
    BottomFinished(g, s);
    BottomRoot(g, s);
  }

  /** At the end every vertex is discovered once: the clock has counted exactly n. */
  lemma FinishedTime(g: Digraph, s: State)
    requires Finished(g, s)
    ensures s.time == g.n
  {
    forall x
      ensures Seen(s)[x] == multiset(Below(g.n))[x]
    {
      if x in Seen(s) {
        assert x < g.n;
      }
    }
    assert Seen(s) == multiset(Below(g.n));
  }

  /** What a finished search has produced. */
  lemma SearchOutcome(g: Digraph, s: State)
    requires Finished(g, s) && LowBounded(g, s)
    ensures IsPartition(g, s.sccs) && GroupsMutualReach(g, s.sccs) && ReverseTopological(g, s.sccs)
    ensures s.time == g.n
    ensures forall v :: 0 <= v < g.n ==> 0 <= s.low[v] <= s.disc[v] < g.n
    ensures forall v, w :: 0 <= v < g.n && 0 <= w < g.n && v != w ==> s.disc[v] != s.disc[w]
  {
    FinishedPartition(g, s);
    FinishedOrder(g, s);
    FinishedComponents(g, s);
    FinishedTime(g, s);
  }

  // ----- the result object -----

  /** The largest vertex in a list of lists, or 0 when there is none (the maximum of the
      stream, defaulting to 0). */
  function MaxVertex(css: seq<seq<nat>>): (m: nat)
    ensures forall x :: x in Flatten(css) ==> x <= m
    ensures Flatten(css) != [] ==> m in Flatten(css)
    ensures Flatten(css) == [] ==> m == 0
  {
    MaxOf(Flatten(css))
  }

  function MaxOf(s: seq<nat>): (m: nat)
    ensures forall k :: 0 <= k < |s| ==> s[k] <= m
    ensures s != [] ==> m in s
    ensures s == [] ==> m == 0
  {
    if s == [] then 0
    else if |s| == 1 then s[0]
    else
      var m := MaxOf(s[..|s| - 1]);
      assert forall k :: 0 <= k < |s| - 1 ==> s[k] == s[..|s| - 1][k];
      if m < s[|s| - 1] then s[|s| - 1] else m
  }

  /** The index of the last component holding v, or -1: what the vertex map holds once the later
      components have overwritten the earlier ones. */
  function LastComponent(css: seq<seq<nat>>, v: nat): (i: int)
    ensures -1 <= i < |css|
    ensures i == -1 <==> forall k :: 0 <= k < |css| ==> v !in css[k]
    ensures i != -1 ==> v in css[i] && forall k :: i < k < |css| ==> v !in css[k]
  {
    if css == [] then -1
    else if v in css[|css| - 1] then |css| - 1
    else LastComponent(css[..|css| - 1], v)
  }

  datatype SccResult = SccResult(sccs: seq<seq<nat>>)
  {
    function ComponentCount(): nat
    {
      |sccs|
    }

    /** An array indexed up to the largest vertex, holding -1 for a vertex in no component and
        otherwise the last component that holds it. */
    method GetVertexToSccMap() returns (m: seq<int>)
      ensures |m| == MaxVertex(sccs) + 1
      ensures forall v :: 0 <= v < |m| ==> m[v] == LastComponent(sccs, v)
    {
      var table := new int[MaxVertex(sccs) + 1](_ => -1);
      var i := 0;
      while i < |sccs|
        invariant 0 <= i <= |sccs|
        invariant forall v :: 0 <= v < table.Length ==> table[v] == LastComponent(sccs[..i], v)
      {
        var c := sccs[i];
        var k := 0;
        while k < |c|
          invariant 0 <= k <= |c|
          invariant forall v :: 0 <= v < table.Length ==>
            table[v] == if v in c[..k] then i else LastComponent(sccs[..i], v)
        {
          assert c[k] in Flatten(sccs) by {
            FlattenIn(sccs, c[k]);
            assert InComponent(sccs, c[k], i);
          }
          table[c[k]] := i;
          assert c[..k + 1] == c[..k] + [c[k]];
          k := k + 1;
        }
        assert c[..k] == c;
        assert sccs[..i + 1][..i] == sccs[..i];
        i := i + 1;
      }
      assert sccs[..i] == sccs;
      m := table[..];
    }
  }

  /** For a partition, the map sends v to i exactly when v is in component i. */
  lemma MapIsMembership(g: Digraph, sccs: seq<seq<nat>>, v: nat, i: int)
    requires IsPartition(g, sccs) && v < g.n
    ensures LastComponent(sccs, v) == i <==> InComponent(sccs, v, i)
    ensures LastComponent(sccs, v) != -1
  {
    FlattenIn(sccs, v);
    var c := LastComponent(sccs, v);
    assert InComponent(sccs, v, c);
  }

  /** For a partition of a non-empty vertex set, the map has one entry per vertex. */
  lemma MapLength(g: Digraph, sccs: seq<seq<nat>>)
    requires IsPartition(g, sccs) && g.n > 0
    ensures MaxVertex(sccs) == g.n - 1
  {
    var m := MaxVertex(sccs);
    assert g.n - 1 in Flatten(sccs);
    FlattenIn(sccs, m);
    var i :| InComponent(sccs, m, i);
  }

  lemma DistinctConcat(a: seq<nat>, b: seq<nat>)
    requires Distinct(a) && Distinct(b) && forall x :: x in a ==> x !in b
    ensures Distinct(a + b)
  {
    forall i, j | 0 <= i < j < |a + b|
      ensures (a + b)[i] != (a + b)[j]
    {
      if j < |a| {
        assert (a + b)[i] == a[i] && (a + b)[j] == a[j];
      } else if |a| <= i {
        assert (a + b)[i] == b[i - |a|] && (a + b)[j] == b[j - |a|];
      } else {
        assert (a + b)[i] == a[i] && a[i] in a;
        assert (a + b)[j] == b[j - |a|];
      }
    }
  }

  /** Components that are each without repeats and share no vertex flatten without repeats. */
  lemma {:induction false} FlattenDistinct(css: seq<seq<nat>>)
    requires forall i :: 0 <= i < |css| ==> Distinct(css[i])
    requires forall v: nat, i, j :: InComponent(css, v, i) && InComponent(css, v, j) ==> i == j
    ensures Distinct(Flatten(css))
  {
    if css != [] {
      var m := |css| - 1;
      var pre := css[..m];
      forall v: nat, i, j | InComponent(pre, v, i) && InComponent(pre, v, j)
        ensures i == j
      {
        assert InComponent(css, v, i) && InComponent(css, v, j);
      }
      FlattenDistinct(pre);
      forall x | x in Flatten(pre)
        ensures x !in css[m]
      {
        FlattenIn(pre, x);
        var i :| InComponent(pre, x, i);
        assert InComponent(css, x, i);
        assert InComponent(css, x, m) ==> i == m;
      }
      DistinctConcat(Flatten(pre), css[m]);
    }
  }

  /** Non-empty components flatten to at least as many vertices as there are components, and to
      exactly as many when every component is a single vertex. */
  lemma {:induction false} FlattenSize(css: seq<seq<nat>>)
    requires forall i :: 0 <= i < |css| ==> |css[i]| > 0
    ensures |Flatten(css)| >= |css|
    ensures |Flatten(css)| == |css| <==> forall i :: 0 <= i < |css| ==> |css[i]| == 1
  {
    if css != [] {
      var m := |css| - 1;
      FlattenSize(css[..m]);
      assert forall i :: 0 <= i < m ==> css[..m][i] == css[i];
    }
  }

  /** A partition of n vertices has at most n components, and exactly n when every component
      is a single vertex. */
  lemma ComponentCountBound(g: Digraph, r: SccResult)
    requires IsPartition(g, r.sccs)
    ensures r.ComponentCount() <= g.n
    ensures r.ComponentCount() == g.n <==> forall i :: 0 <= i < |r.sccs| ==> |r.sccs[i]| == 1
  {
    var f := Flatten(r.sccs);
    FlattenDistinct(r.sccs);
    FlattenSize(r.sccs);
    forall k | 0 <= k < |f|
      ensures f[k] < g.n
    {
      FlattenIn(r.sccs, f[k]);
      var i :| InComponent(r.sccs, f[k], i);
    }
    DistinctBound(f, g.n);
    DistinctCard(f);
    assert Below(g.n) <= set k | 0 <= k < |f| :: f[k] by {
      forall v: nat | v in Below(g.n)
        ensures v in set k | 0 <= k < |f| :: f[k]
      {
        var k := IndexOf(f, v);
      }
    }
    SubsetCard(Below(g.n), set k | 0 <= k < |f| :: f[k]);
  }

  // ----- the search object -----

  class TarjanScc {
    const graph: Digraph
    var time: int
    var disc: array<int>
    var low: array<int>
    var onStack: array<bool>
    var stack: seq<nat>
    var sccs: seq<seq<nat>>

    /** The search state as a value. */
    ghost function Snapshot(): State
      reads this, disc, low, onStack
    {
      State(disc[..], low[..], onStack[..], stack, sccs, time)
    }

    /** The search invariant with the callers in anc still running. */
    ghost predicate Valid(anc: set<nat>)
      reads this, disc, low, onStack
    {
      disc != low && Inv(graph, Snapshot(), anc) && LowBounded(graph, Snapshot())
    }

    /** The arrays stay unallocated (empty) until a search starts. */
    constructor (graph: Digraph)
      requires graph.directed
      ensures this.graph == graph && stack == [] && sccs == []
    {
      this.graph := graph;
      time := 0;
      disc := new int[0];
      low := new int[0];
      onStack := new bool[0];
      stack := [];
      sccs := [];
    }

    /** The do-while loop: pops down to and including the root u at stack position p, clears
        the flags of the popped vertices and appends them, in pop order, as a new component. */
    method PopComponent(u: nat, ghost p: nat)
      requires p < |stack| && stack[p] == u && u !in stack[p + 1..]
      requires forall k :: 0 <= k < |stack| ==> stack[k] < onStack.Length
      modifies this, onStack
      ensures disc == old(disc) && low == old(low) && onStack == old(onStack)
      ensures Snapshot() == PopFrom(old(Snapshot()), p, onStack[..])
      ensures Cleared(old(Snapshot()), p, onStack[..])
    {
      ghost var t := stack;
      ghost var os := onStack[..];
      var scc: seq<nat> := [];
      var done := false;
      while !done
        invariant p <= |stack| <= |t| && stack == t[..|stack|]
        invariant done <==> |stack| == p
        invariant scc == Reverse(t[|stack|..])
        invariant onStack.Length == |os|
        invariant forall v :: 0 <= v < |os| ==> (onStack[v] <==> os[v] && v !in t[|stack|..])
        invariant disc == old(disc) && low == old(low) && onStack == old(onStack)
        invariant unchanged(disc, low) && sccs == old(sccs) && time == old(time)
        decreases |stack|
      {
        var top := |stack| - 1;
        var v := stack[top];
        assert t[top..] == [v] + t[top + 1..];
        assert v == u <==> top == p by {
          assert t[p + 1..] == t[p + 1..top + 1] + t[top + 1..];
        }
        stack := stack[..top];
        onStack[v] := false;
        scc := scc + [v];
        done := v == u;
      }
      sccs := sccs + [scc];
    }

    /** u gets the current time as discovery time and low-link, the clock advances, and u is
        pushed and flagged. */
    method Enter(u: nat)
      requires u < disc.Length && u < low.Length && u < onStack.Length && disc != low
      modifies this, disc, low, onStack
      ensures disc == old(disc) && low == old(low) && onStack == old(onStack)
      ensures Snapshot() == Discover(old(Snapshot()), u)
    {
      disc[u] := time;
      low[u] := time;
      time := time + 1;
      stack := stack + [u];
      onStack[u] := true;
    }

    /** An assignment to u's low-link; nothing else changes. */
    method SetLowLink(u: nat, l: int)
      requires u < low.Length && disc != low
      modifies low
      ensures Snapshot() == SetLow(old(Snapshot()), u, l)
    {
      low[u] := l;
    }

    /** dfs(u): discovers u, explores its records in list order and, when u is a root, closes
        its component. */
    method Dfs(u: nat, ghost anc: set<nat>)
      requires Valid(anc) && u < graph.n && disc[u] == -1
      modifies this, disc, low, onStack
      ensures disc == old(disc) && low == old(low) && onStack == old(onStack)
      ensures Valid(anc) && DfsPost(graph, old(Snapshot()), Snapshot(), u)
      decreases Undiscovered(disc[..]), 1
    {
      ghost var s0 := Snapshot();
      DfsStart(graph, s0, u, anc);
      DiscoverBounded(graph, s0, u);
      Enter(u);
      var j := 0;
      while j < |graph.adj[u]|
        invariant disc == old(disc) && low == old(low) && onStack == old(onStack)
        invariant DfsLoop(graph, s0, Snapshot(), u, anc, j) && LowBounded(graph, Snapshot())
      {
        UndiscoveredShrinks(s0.disc, disc[..], u);
        ExploreEdge(u, j, s0, anc);
        j := j + 1;
      }
      Leave(u, s0, anc);
    }

    /** The end of dfs(u): when u's low-link equals its discovery time, the component rooted at
        u is popped. */
    method Leave(u: nat, ghost s0: State, ghost anc: set<nat>)
      requires graph.Valid() && u < graph.n && disc != low
      requires DfsLoop(graph, s0, Snapshot(), u, anc, |graph.adj[u]|) && LowBounded(graph, Snapshot())
      modifies this, onStack
      ensures disc == old(disc) && low == old(low) && onStack == old(onStack)
      ensures Valid(anc) && DfsPost(graph, s0, Snapshot(), u)
    {
      ghost var s := Snapshot();
      if low[u] == disc[u] {
        RootOnce(graph, s, |s0.stack|);
        PopComponent(u, |s0.stack|);
        DfsEndRoot(graph, s0, s, u, anc, onStack[..]);
      } else {
        DfsEndOther(graph, s0, s, u, anc);
      }
    }

    /** One pass of dfs(u)'s loop over the record at position j of u's list: a tree edge
        recurses, a record to a vertex on the stack lowers u's low-link, and a record into a
        finished component is skipped. */
    method ExploreEdge(u: nat, j: nat, ghost s0: State, ghost anc: set<nat>)
      requires graph.Valid() && u < graph.n && j < |graph.adj[u]| && disc != low
      requires DfsLoop(graph, s0, Snapshot(), u, anc, j) && LowBounded(graph, Snapshot())
      modifies this, disc, low, onStack
      ensures disc == old(disc) && low == old(low) && onStack == old(onStack)
      ensures DfsLoop(graph, s0, Snapshot(), u, anc, j + 1) && LowBounded(graph, Snapshot())
      decreases Undiscovered(disc[..]), 3
    {
      var v := graph.adj[u][j].to;
      if disc[v] == -1 {
        TreeEdge(u, j, s0, anc);
      } else if onStack[v] {
        BackEdge(u, j, s0, anc);
      } else {
        DfsSkip(graph, s0, Snapshot(), u, anc, j);
      }
    }

    /** A record u -> v to a vertex on the stack: u's low-link drops to v's discovery time if
        that is smaller (so it never grows), and nothing else changes. */
    method BackEdge(u: nat, j: nat, ghost s0: State, ghost anc: set<nat>)
      requires graph.Valid() && u < graph.n && j < |graph.adj[u]| && disc != low
      requires DfsLoop(graph, s0, Snapshot(), u, anc, j) && LowBounded(graph, Snapshot())
      requires disc[graph.adj[u][j].to] != -1 && onStack[graph.adj[u][j].to]
      modifies low
      ensures disc == old(disc) && low == old(low) && onStack == old(onStack)
      ensures Snapshot() == SetLow(old(Snapshot()), u, Min(old(low[u]), disc[graph.adj[u][j].to]))
      ensures DfsLoop(graph, s0, Snapshot(), u, anc, j + 1) && LowBounded(graph, Snapshot())
    {
      ghost var s := Snapshot();
      var v := graph.adj[u][j].to;
      SetLowLink(u, Min(low[u], disc[v]));
      DfsBack(graph, s0, s, u, anc, j);
      LowerBounded(graph, s, u, Min(s.low[u], s.disc[v]));
    }

    /** A tree edge u -> v: dfs(v), then u's low-link drops to v's if that is smaller. */
    method TreeEdge(u: nat, j: nat, ghost s0: State, ghost anc: set<nat>)
      requires graph.Valid() && u < graph.n && j < |graph.adj[u]| && disc != low
      requires DfsLoop(graph, s0, Snapshot(), u, anc, j) && LowBounded(graph, Snapshot())
      requires disc[graph.adj[u][j].to] == -1
      modifies this, disc, low, onStack
      ensures disc == old(disc) && low == old(low) && onStack == old(onStack)
      ensures DfsLoop(graph, s0, Snapshot(), u, anc, j + 1) && LowBounded(graph, Snapshot())
      decreases Undiscovered(disc[..]), 2
    {
      ghost var s := Snapshot();
      var v := graph.adj[u][j].to;
      Dfs(v, anc + {u});
      AfterChild(u, j, s0, s, anc);
    }

    /** The update after dfs(v) returns: u's low-link drops to v's if that is smaller (so it
        never grows), and nothing else changes. */
    method AfterChild(u: nat, j: nat, ghost s0: State, ghost s: State, ghost anc: set<nat>)
      requires graph.Valid() && u < graph.n && j < |graph.adj[u]| && disc != low
      requires DfsLoop(graph, s0, s, u, anc, j) && s.disc[graph.adj[u][j].to] == -1
      requires Valid(anc + {u}) && DfsPost(graph, s, Snapshot(), graph.adj[u][j].to)
      modifies low
      ensures disc == old(disc) && low == old(low) && onStack == old(onStack)
      ensures Snapshot() == SetLow(old(Snapshot()), u, Min(old(low[u]), old(low[graph.adj[u][j].to])))
      ensures DfsLoop(graph, s0, Snapshot(), u, anc, j + 1) && LowBounded(graph, Snapshot())
    {
      ghost var s1 := Snapshot();
      var v := graph.adj[u][j].to;
      SetLowLink(u, Min(low[u], low[v]));
      DfsTree(graph, s0, s, s1, u, anc, j);
      LowerBounded(graph, s1, u, Min(s1.low[u], s1.low[v]));
    }

    /** One pass of findSCCs' loop: a dfs from v when v is still undiscovered. */
    method Visit(v: nat)
      requires Valid({}) && stack == [] && v < graph.n
      requires forall w :: 0 <= w < v ==> disc[w] != -1
      modifies this, disc, low, onStack
      ensures disc == old(disc) && low == old(low) && onStack == old(onStack)
      ensures Valid({}) && stack == []
      ensures forall w :: 0 <= w <= v ==> disc[w] != -1
    {
      if disc[v] == -1 {
        ghost var s := Snapshot();
        Dfs(v, {});
        TopLevelEmpties(graph, s, Snapshot(), v);
      }
    }

    /** The start of findSCCs: new arrays, disc and low filled with -1, an empty stack and no
        components. */
    method Start()
      requires graph.Valid()
      modifies this
      ensures fresh(disc) && fresh(low) && fresh(onStack)
      ensures Valid({}) && stack == [] && sccs == [] && time == 0
      ensures forall v :: 0 <= v < disc.Length ==> disc[v] == -1
    {
      time := 0;
      disc := new int[graph.n](_ => -1);
      low := new int[graph.n](_ => -1);
      onStack := new bool[graph.n](_ => false);
      stack := [];
      sccs := [];
      InitialInv(graph, Snapshot());
    }

    /** findSCCs' loop over the vertices in increasing order. */
    method VisitAll()
      requires Valid({}) && stack == []
      modifies this, disc, low, onStack
      ensures disc == old(disc) && low == old(low) && onStack == old(onStack)
      ensures Valid({}) && stack == [] && forall w :: 0 <= w < graph.n ==> disc[w] != -1
    {
      var v := 0;
      while v < graph.n
        invariant 0 <= v <= graph.n
        invariant disc == old(disc) && low == old(low) && onStack == old(onStack)
        invariant Valid({}) && stack == []
        invariant forall w :: 0 <= w < v ==> disc[w] != -1
      {
        Visit(v);
        v := v + 1;
      }
    }

    /** findSCCs: fresh arrays filled with -1, then a dfs from every vertex still undiscovered,
        in increasing order. */
    method FindSccs() returns (r: SccResult)
      requires graph.Valid()
      modifies this
      ensures r.sccs == sccs
      ensures IsPartition(graph, r.sccs) && GroupsMutualReach(graph, r.sccs)
      ensures ReverseTopological(graph, r.sccs)
      ensures time == graph.n && disc.Length == graph.n && low.Length == graph.n
      ensures forall v :: 0 <= v < graph.n ==> 0 <= low[v] <= disc[v] < graph.n
      ensures forall v, w :: 0 <= v < graph.n && 0 <= w < graph.n && v != w ==> disc[v] != disc[w]
    {
      Start();
      VisitAll();
      r := Outcome();
    }

    /** The end of findSCCs: the finished components wrapped as the result; nothing changes. */
    method Outcome() returns (r: SccResult)
      requires Valid({}) && stack == [] && forall w :: 0 <= w < graph.n ==> disc[w] != -1
      ensures r.sccs == sccs
      ensures IsPartition(graph, r.sccs) && GroupsMutualReach(graph, r.sccs)
      ensures ReverseTopological(graph, r.sccs)
      ensures time == graph.n && disc.Length == graph.n && low.Length == graph.n
      ensures forall v :: 0 <= v < graph.n ==> 0 <= low[v] <= disc[v] < graph.n
      ensures forall v, w :: 0 <= v < graph.n && 0 <= w < graph.n && v != w ==> disc[v] != disc[w]
    {
      r := SccResult(sccs);
      SearchOutcome(graph, Snapshot());
    }
  }

  /** The constructor's check for a directed graph followed by findSCCs. */
  method FindStronglyConnected(g: Digraph) returns (r: Result<SccResult>)
    requires g.Valid()
    ensures r.Err? <==> !g.directed
    ensures r.Err? ==> r.error == NotDirected
    ensures r.Ok? ==> IsPartition(g, r.value.sccs) && GroupsMutualReach(g, r.value.sccs)
    ensures r.Ok? ==> ReverseTopological(g, r.value.sccs)
  {
    if !g.directed {
      return Err(NotDirected);
    }
    var t := new TarjanScc(g);
    var res := t.FindSccs();
    return Ok(res);
  }
}
