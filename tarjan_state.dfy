/** The state Tarjan's depth-first search (TarjanSCC.java) works on, as a value, and the
    invariant that every step of the search keeps. */
module TarjanState {
  import opened Graphs
  import opened Paths

  /** The fields `dfs` updates: discovery times (-1 for an undiscovered vertex), low-links,
      on-stack flags, the vertex stack (top at the end), the finished components and the clock. */
  datatype State = State(disc: seq<int>, low: seq<int>, onStack: seq<bool>,
                         stack: seq<nat>, sccs: seq<seq<nat>>, time: int)

  /** The components one after another. */
  function Flatten(css: seq<seq<nat>>): seq<nat>
  {
    if css == [] then [] else Flatten(css[..|css| - 1]) + css[|css| - 1]
  }

  /** Every vertex discovered so far, with multiplicity: finished components plus the stack. */
  ghost function Seen(s: State): multiset<nat>
  {
    multiset(Flatten(s.sccs)) + multiset(s.stack)
  }

  /** v is a member of component i. */
  ghost predicate InComponent(sccs: seq<seq<nat>>, v: nat, i: int)
  {
    0 <= i < |sccs| && v in sccs[i]
  }

  // ----- the parts of the invariant -----

  ghost predicate Shape(g: Digraph, s: State)
  {
    g.Valid() && |s.disc| == g.n && |s.low| == g.n && |s.onStack| == g.n
  }

  /** Every discovered vertex is in exactly one place: a finished component or the stack;
      the clock counts them. */
  ghost predicate Partitioned(g: Digraph, s: State)
    requires Shape(g, s)
  {
    (forall x :: Seen(s)[x] <= 1) &&
    (forall x :: x in Seen(s) ==> x < g.n) &&
    (forall v :: 0 <= v < g.n ==> (v in Seen(s) <==> s.disc[v] != -1)) &&
    |Seen(s)| == s.time
  }

  /** Discovery times are distinct and below the clock. */
  ghost predicate Timed(g: Digraph, s: State)
    requires Shape(g, s)
  {
    (forall v :: 0 <= v < g.n ==> -1 <= s.disc[v] < s.time) &&
    (forall v, w :: 0 <= v < g.n && 0 <= w < g.n && v != w && s.disc[v] != -1 ==> s.disc[v] != s.disc[w])
  }

  ghost predicate StackInRange(g: Digraph, s: State)
  {
    Shape(g, s) && forall i :: 0 <= i < |s.stack| ==> s.stack[i] < g.n
  }

  /** The stack holds vertices in discovery order. */
  ghost predicate StackSorted(g: Digraph, s: State)
    requires StackInRange(g, s)
  {
    forall i, j :: 0 <= i < j < |s.stack| ==> s.disc[s.stack[i]] < s.disc[s.stack[j]]
  }

  /** `onStack` mirrors the stack. */
  ghost predicate Mirrored(g: Digraph, s: State)
    requires Shape(g, s)
  {
    forall v :: 0 <= v < g.n ==> (s.onStack[v] <==> v in s.stack)
  }

  ghost predicate Stacked(g: Digraph, s: State)
  {
    StackInRange(g, s) && StackSorted(g, s) && Mirrored(g, s)
  }

  /** The low-link of a stack vertex is the discovery time of a stack vertex at or below it
      that it reaches. */
  ghost predicate LowLinked(g: Digraph, s: State)
    requires StackInRange(g, s)
  {
    forall i :: 0 <= i < |s.stack| ==> LowAt(g, s, i)
  }

  ghost predicate LowAt(g: Digraph, s: State, i: int)
    requires StackInRange(g, s) && 0 <= i < |s.stack|
  {
    0 <= s.low[s.stack[i]] <= s.disc[s.stack[i]] && exists k :: LowWitness(g, s, i, k)
  }

  /** The stack vertex at position k, at or below position i, is reached from the vertex at i
      and was discovered at the time that vertex's low-link holds. */
  ghost predicate LowWitness(g: Digraph, s: State, i: int, k: int)
    requires StackInRange(g, s)
  {
    0 <= k <= i < |s.stack| && s.disc[s.stack[k]] == s.low[s.stack[i]] && Reach(g, s.stack[i], s.stack[k])
  }

  /** An explored record u->w is accounted for when w is finished or is on the stack no lower
      than the low-link l of u. */
  ghost predicate EdgeDone(g: Digraph, s: State, w: nat, l: int)
    requires Shape(g, s) && w < g.n
  {
    w in Flatten(s.sccs) || (w in s.stack && l <= s.disc[w])
  }

  /** Every record of x's list is accounted for at low-link l. */
  ghost predicate EdgesDone(g: Digraph, s: State, x: nat, l: int)
    requires Shape(g, s) && x < g.n
  {
    forall k :: 0 <= k < |g.adj[x]| ==> EdgeDone(g, s, g.adj[x][k].to, l)
  }

  /** A stack vertex whose search has returned (one not in anc, the vertices whose `dfs`
      calls are still running) was not a root, and all its records are accounted for. */
  ghost predicate FinishedOk(g: Digraph, s: State, anc: set<nat>)
    requires StackInRange(g, s)
  {
    forall i :: 0 <= i < |s.stack| && s.stack[i] !in anc ==> FinishedAt(g, s, i)
  }

  ghost predicate FinishedAt(g: Digraph, s: State, i: int)
    requires StackInRange(g, s) && 0 <= i < |s.stack|
  {
    s.low[s.stack[i]] < s.disc[s.stack[i]] && EdgesDone(g, s, s.stack[i], s.low[s.stack[i]])
  }

  /** Records leaving component i end in components 0..i. */
  ghost predicate Ordered(g: Digraph, sccs: seq<seq<nat>>)
  {
    forall i, x, k :: 0 <= i < |sccs| && x in sccs[i] && x < |g.adj| && 0 <= k < |g.adj[x]| ==>
      g.adj[x][k].to in Flatten(sccs[..i + 1])
  }

  /** Each component is non-empty and all its vertices are mutually reachable with its last
      vertex, the root that closed it. */
  ghost predicate Connected(g: Digraph, sccs: seq<seq<nat>>)
  {
    forall i :: 0 <= i < |sccs| ==>
      |sccs[i]| > 0 && forall x :: x in sccs[i] ==> MutuallyReachable(g, x, sccs[i][|sccs[i]| - 1])
  }

  /** The invariant of the search, where anc holds the vertices whose `dfs` is running. */
  ghost predicate Inv(g: Digraph, s: State, anc: set<nat>)
  {
    Shape(g, s) && Partitioned(g, s) && Timed(g, s) && Stacked(g, s) && LowLinked(g, s) &&
    FinishedOk(g, s, anc) && Ordered(g, s.sccs) && Connected(g, s.sccs) &&
    (forall a :: a in anc ==> a in s.stack)
  }

  // ----- flattening -----

  lemma FlattenSnoc(css: seq<seq<nat>>, c: seq<nat>)
    ensures Flatten(css + [c]) == Flatten(css) + c
  {
    assert (css + [c])[..|css|] == css;
  }

  lemma {:induction false} FlattenIn(css: seq<seq<nat>>, x: nat)
    ensures x in Flatten(css) <==> exists i :: InComponent(css, x, i)
  {
    if css != [] {
      var m := |css| - 1;
      FlattenIn(css[..m], x);
      assert Flatten(css) == Flatten(css[..m]) + css[m];
      if x in css[m] {
        assert InComponent(css, x, m);
      } else if x in Flatten(css) {
        var i :| InComponent(css[..m], x, i);
        assert InComponent(css, x, i);
      }
      if exists i :: InComponent(css, x, i) {
        var i :| InComponent(css, x, i);
        if i < m {
          assert InComponent(css[..m], x, i);
        }
      }
    }
  }

  lemma {:induction false} FlattenCount(css: seq<seq<nat>>, i: nat, x: nat)
    requires i < |css|
    ensures multiset(css[i])[x] <= multiset(Flatten(css))[x]
  {
    var m := |css| - 1;
    if i < m {
      FlattenCount(css[..m], i, x);
    }
  }

  lemma {:induction false} FlattenTwice(css: seq<seq<nat>>, i: nat, j: nat, x: nat)
    requires i < j < |css| && x in css[i] && x in css[j]
    ensures multiset(Flatten(css))[x] >= 2
  {
    var m := |css| - 1;
    if j < m {
      FlattenTwice(css[..m], i, j, x);
    } else {
      FlattenIn(css[..m], x);
      assert InComponent(css[..m], x, i);
    }
  }

  lemma FlattenPrefix(css: seq<seq<nat>>, i: nat)
    requires i < |css|
    ensures Flatten(css[..i + 1]) == Flatten(css[..i]) + css[i]
  {
    assert css[..i + 1][..i] == css[..i];
  }

  lemma DuplicateCount(s: seq<nat>, a: nat, b: nat)
    requires a < b < |s| && s[a] == s[b]
    ensures multiset(s)[s[a]] >= 2
  {
    assert s == s[..b] + s[b..];
    assert s[a] in s[..b] && s[b] in s[b..];
  }

  // ----- what the finished search establishes -----

  /** The components partition the vertices 0..n-1: each vertex is in exactly one of them,
      once, and no component is empty. */
  ghost predicate IsPartition(g: Digraph, sccs: seq<seq<nat>>)
  {
    (forall i :: 0 <= i < |sccs| ==> |sccs[i]| > 0 && Distinct(sccs[i])) &&
    (forall v: nat, i :: InComponent(sccs, v, i) ==> v < g.n) &&
    (forall v: nat :: v < g.n ==> v in Flatten(sccs)) &&
    (forall v: nat, i, j :: InComponent(sccs, v, i) && InComponent(sccs, v, j) ==> i == j)
  }

  /** Two vertices share a component exactly when each reaches the other. */
  ghost predicate GroupsMutualReach(g: Digraph, sccs: seq<seq<nat>>)
  {
    forall x: nat, y: nat, i, j :: InComponent(sccs, x, i) && InComponent(sccs, y, j) ==>
      (i == j <==> MutuallyReachable(g, x, y))
  }

  /** Components come out in reverse topological order: an edge never leads to a later one. */
  ghost predicate ReverseTopological(g: Digraph, sccs: seq<seq<nat>>)
  {
    forall x: nat, y: nat, i, j :: InComponent(sccs, x, i) && InComponent(sccs, y, j) && HasEdge(g, x, y) ==> j <= i
  }

  /** The search is over: nothing is left on the stack and every vertex has been discovered. */
  ghost predicate Finished(g: Digraph, s: State)
  {
    Inv(g, s, {}) && s.stack == [] && forall v :: 0 <= v < g.n ==> s.disc[v] != -1
  }

  lemma FinishedPartition(g: Digraph, s: State)
    requires Finished(g, s)
    ensures IsPartition(g, s.sccs)
  {
    var css := s.sccs;
    assert Seen(s) == multiset(Flatten(css));
    forall i | 0 <= i < |css|
      ensures Distinct(css[i])
    {
      forall a, b | 0 <= a < b < |css[i]|
        ensures css[i][a] != css[i][b]
      {
        if css[i][a] == css[i][b] {
          DuplicateCount(css[i], a, b);
          FlattenCount(css, i, css[i][a]);
          assert false;
        }
      }
    }
    forall v: nat, i | InComponent(css, v, i)
      ensures v < g.n
    {
      FlattenIn(css, v);
      assert v in multiset(Flatten(css));
    }
    forall v: nat | v < g.n
      ensures v in Flatten(css)
    {
      assert v in multiset(Flatten(css));
    }
    forall v: nat, i, j | InComponent(css, v, i) && InComponent(css, v, j)
      ensures i == j
    {
      if i < j {
        FlattenTwice(css, i, j, v);
      } else if j < i {
        FlattenTwice(css, j, i, v);
      }
    }
  }

  lemma FinishedOrder(g: Digraph, s: State)
    requires Finished(g, s)
    ensures ReverseTopological(g, s.sccs)
  {
    var css := s.sccs;
    FinishedPartition(g, s);
    forall x: nat, y: nat, i, j | InComponent(css, x, i) && InComponent(css, y, j) && HasEdge(g, x, y)
      ensures j <= i
    {
      var k :| 0 <= k < |g.adj[x]| && g.adj[x][k].to == y;
      assert y in Flatten(css[..i + 1]);
      FlattenIn(css[..i + 1], y);
      var j' :| InComponent(css[..i + 1], y, j');
      assert InComponent(css, y, j');
    }
  }

  /** Everything a vertex of component i reaches lies in components 0..i. */
  lemma {:induction false} ReachStaysBelow(g: Digraph, css: seq<seq<nat>>, p: seq<nat>, y: nat, i: int)
    requires IsPartition(g, css) && ReverseTopological(g, css)
    requires IsPath(g, p) && InComponent(css, p[0], i) && p[|p| - 1] == y
    ensures exists j :: j <= i && InComponent(css, y, j)
    decreases |p|
  {
    if |p| > 1 {
      var q := p[..|p| - 1];
      var x := p[|p| - 2];
      assert IsPath(g, q) && q[|q| - 1] == x;
      ReachStaysBelow(g, css, q, x, i);
      var j :| j <= i && InComponent(css, x, j);
      FlattenIn(css, y);
      var j' :| InComponent(css, y, j');
      assert HasEdge(g, x, y);
      assert j' <= j;
    } else {
      assert InComponent(css, y, i);
    }
  }

  lemma FinishedComponents(g: Digraph, s: State)
    requires Finished(g, s)
    ensures GroupsMutualReach(g, s.sccs)
  {
    var css := s.sccs;
    FinishedPartition(g, s);
    FinishedOrder(g, s);
    forall x: nat, y: nat, i, j | InComponent(css, x, i) && InComponent(css, y, j)
      ensures i == j <==> MutuallyReachable(g, x, y)
    {
      if i == j {
        var r := css[i][|css[i]| - 1];
        assert MutuallyReachable(g, x, r) && MutuallyReachable(g, y, r);
        ReachTrans(g, x, r, y);
        ReachTrans(g, y, r, x);
      }
      if MutuallyReachable(g, x, y) {
        var p :| IsPath(g, p) && p[0] == x && p[|p| - 1] == y;
        ReachStaysBelow(g, css, p, y, i);
        var q :| IsPath(g, q) && q[0] == y && q[|q| - 1] == x;
        ReachStaysBelow(g, css, q, x, j);
      }
    }
  }
}
