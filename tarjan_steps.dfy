/** The steps of `dfs` in TarjanSCC.java as transformations of the search state, each shown
    to keep the invariant of TarjanState. */
module TarjanSteps {
  import opened Graphs
  import opened Paths
  import opened TarjanState

  /** dfs(u) begins: u gets the clock as discovery time and low-link and is pushed. */
  function Discover(s: State, u: nat): State
    requires u < |s.disc| && u < |s.low| && u < |s.onStack|
  {
    s.(disc := s.disc[u := s.time], low := s.low[u := s.time], onStack := s.onStack[u := true],
       stack := s.stack + [u], time := s.time + 1)
  }

  /** The root at stack position p closes a component: the vertices from p to the top leave
      the stack and, popped top first, form the next component; os is the new `onStack`. */
  function PopFrom(s: State, p: nat, os: seq<bool>): State
    requires p <= |s.stack|
  {
    s.(onStack := os, stack := s.stack[..p], sccs := s.sccs + [Reverse(s.stack[p..])])
  }

  /** os clears exactly the flags of the vertices from stack position p up. */
  ghost predicate Cleared(s: State, p: nat, os: seq<bool>)
    requires p <= |s.stack|
  {
    |os| == |s.onStack| && forall v :: 0 <= v < |os| ==> (os[v] <==> s.onStack[v] && v !in s.stack[p..])
  }

  /** Vertices not yet discovered. */
  ghost function Undiscovered(disc: seq<int>): set<nat>
  {
    set v: nat | v < |disc| && disc[v] == -1
  }

  lemma UndiscoveredShrinks(d0: seq<int>, d: seq<int>, u: nat)
    requires |d0| == |d| && u < |d| && d0[u] == -1 && d[u] != -1
    requires forall v :: 0 <= v < |d| && d0[v] != -1 ==> d[v] != -1
    ensures Undiscovered(d) < Undiscovered(d0)
  {
    assert u in Undiscovered(d0);
  }

  // ----- discovering a vertex -----

  lemma DiscoverSeen(g: Digraph, s: State, u: nat)
    requires Shape(g, s) && Partitioned(g, s) && u < g.n && s.disc[u] == -1
    ensures Shape(g, Discover(s, u)) && Partitioned(g, Discover(s, u))
  {
    var s' := Discover(s, u);
    assert s'.stack == s.stack + [u];
    assert Seen(s') == Seen(s) + multiset{u};
  }

  lemma DiscoverStacked(g: Digraph, s: State, u: nat)
    requires Shape(g, s) && Partitioned(g, s) && Timed(g, s) && Stacked(g, s) && u < g.n && s.disc[u] == -1
    ensures Shape(g, Discover(s, u)) && Timed(g, Discover(s, u)) && Stacked(g, Discover(s, u))
    ensures u !in s.stack
  {
    assert u !in Seen(s);
    assert u !in s.stack;
    DiscoverSorted(g, s, u);
  }

  lemma DiscoverSorted(g: Digraph, s: State, u: nat)
    requires StackInRange(g, s) && StackSorted(g, s) && u < g.n && u !in s.stack
    requires forall v :: 0 <= v < g.n ==> s.disc[v] < s.time
    ensures StackInRange(g, Discover(s, u)) && StackSorted(g, Discover(s, u))
  {
    var s' := Discover(s, u);
    forall i, j | 0 <= i < j < |s'.stack|
      ensures s'.disc[s'.stack[i]] < s'.disc[s'.stack[j]]
    {
      assert s.stack[i] != u;
      if j < |s.stack| {
        assert s.stack[j] != u;
      }
    }
  }

  lemma DiscoverLow(g: Digraph, s: State, u: nat)
    requires StackInRange(g, s) && LowLinked(g, s) && u < g.n && u !in s.stack && s.time >= 0
    ensures StackInRange(g, Discover(s, u)) && LowLinked(g, Discover(s, u))
  {
    var s' := Discover(s, u);
    forall i | 0 <= i < |s'.stack|
      ensures LowAt(g, s', i)
    {
      DiscoverLowAt(g, s, u, i);
    }
  }

  lemma DiscoverLowAt(g: Digraph, s: State, u: nat, i: nat)
    requires StackInRange(g, s) && u < g.n && u !in s.stack && s.time >= 0 && i <= |s.stack|
    requires i < |s.stack| ==> LowAt(g, s, i)
    ensures StackInRange(g, Discover(s, u)) && LowAt(g, Discover(s, u), i)
  {
    var s' := Discover(s, u);
    if i == |s.stack| {
      ReachRefl(g, u);
      assert LowWitness(g, s', i, i);
    } else {
      var k: nat :| LowWitness(g, s, i, k);
      assert s.stack[i] != u && s.stack[k] != u;
      assert LowWitness(g, s', i, k);
    }
  }

  lemma DiscoverFinished(g: Digraph, s: State, u: nat, anc: set<nat>)
    requires StackInRange(g, s) && FinishedOk(g, s, anc) && u < g.n && u !in s.stack
    ensures StackInRange(g, Discover(s, u)) && FinishedOk(g, Discover(s, u), anc + {u})
  {
    var s' := Discover(s, u);
    forall i | 0 <= i < |s'.stack| && s'.stack[i] !in anc + {u}
      ensures FinishedAt(g, s', i)
    {
      DiscoverFinishedAt(g, s, u, i);
    }
  }

  lemma DiscoverFinishedAt(g: Digraph, s: State, u: nat, i: nat)
    requires StackInRange(g, s) && u < g.n && u !in s.stack && i < |s.stack| && FinishedAt(g, s, i)
    ensures StackInRange(g, Discover(s, u)) && FinishedAt(g, Discover(s, u), i)
  {
    var s' := Discover(s, u);
    var x := s.stack[i];
    assert s'.stack[i] == x && x != u;
    forall k | 0 <= k < |g.adj[x]|
      ensures EdgeDone(g, s', g.adj[x][k].to, s'.low[x])
    {
      var w := g.adj[x][k].to;
      assert EdgeDone(g, s, w, s.low[x]);
      if w in s.stack {
        assert w != u;
      }
    }
  }

  /** Discovering u keeps the invariant, with u now among the running searches. */
  lemma DiscoverKeeps(g: Digraph, s: State, u: nat, anc: set<nat>)
    requires Inv(g, s, anc) && u < g.n && s.disc[u] == -1
    ensures Inv(g, Discover(s, u), anc + {u})
    ensures Discover(s, u).stack[|s.stack|] == u
  {
    DiscoverSeen(g, s, u);
    DiscoverStacked(g, s, u);
    DiscoverLow(g, s, u);
    DiscoverFinished(g, s, u, anc);
  }

  // ----- lowering a low-link -----

  /** A low-link update: only u's low-link changes. */
  function SetLow(s: State, u: nat, l: int): State
    requires u < |s.low|
  {
    s.(low := s.low[u := l])
  }

  /** A stack vertex's position, when the stack is sorted, follows from its discovery time. */
  lemma SortedPosition(g: Digraph, s: State, w: nat, p: nat)
    requires StackInRange(g, s) && StackSorted(g, s) && w in s.stack && p < |s.stack|
    requires s.disc[s.stack[p]] <= s.disc[w]
    ensures w in s.stack[p..]
  {
    var i := IndexOf(s.stack, w);
    assert s.stack[p..][i - p] == w;
  }

  lemma SortedDistinct(g: Digraph, s: State, i: nat, j: nat)
    requires StackInRange(g, s) && StackSorted(g, s) && i < |s.stack| && j < |s.stack| && i != j
    ensures s.stack[i] != s.stack[j]
  {
  }

  lemma LowerLowAt(g: Digraph, s: State, u: nat, pu: nat, kz: nat, l: int, i: nat)
    requires StackInRange(g, s) && StackSorted(g, s) && pu < |s.stack| && s.stack[pu] == u
    requires kz < |s.stack| && s.disc[s.stack[kz]] == l && 0 <= l < s.low[u] && Reach(g, u, s.stack[kz])
    requires LowAt(g, s, pu) && i < |s.stack| && LowAt(g, s, i)
    ensures StackInRange(g, SetLow(s, u, l)) && LowAt(g, SetLow(s, u, l), i)
  {
    var s' := SetLow(s, u, l);
    if i == pu {
      assert kz <= pu;
      assert LowWitness(g, s', i, kz);
    } else {
      SortedDistinct(g, s, i, pu);
      var k: nat :| LowWitness(g, s, i, k);
      assert LowWitness(g, s', i, k);
    }
  }

  lemma LowerLowFinishedAt(g: Digraph, s: State, u: nat, l: int, i: nat)
    requires StackInRange(g, s) && i < |s.stack| && s.stack[i] != u && u < g.n && FinishedAt(g, s, i)
    ensures StackInRange(g, SetLow(s, u, l)) && FinishedAt(g, SetLow(s, u, l), i)
  {
    var s' := SetLow(s, u, l);
    var x := s.stack[i];
    forall k | 0 <= k < |g.adj[x]|
      ensures EdgeDone(g, s', g.adj[x][k].to, s'.low[x])
    {
      assert EdgeDone(g, s, g.adj[x][k].to, s.low[x]);
    }
  }

  /** A low-link update leaves every part of the invariant that does not mention low-links. */
  lemma SetLowFree(g: Digraph, s: State, anc: set<nat>, u: nat, l: int)
    requires Shape(g, s) && Partitioned(g, s) && Timed(g, s) && Stacked(g, s) && u < g.n
    requires Ordered(g, s.sccs) && Connected(g, s.sccs) && forall a :: a in anc ==> a in s.stack
    ensures Shape(g, SetLow(s, u, l)) && Partitioned(g, SetLow(s, u, l)) && Timed(g, SetLow(s, u, l))
    ensures Stacked(g, SetLow(s, u, l)) && SetLow(s, u, l).sccs == s.sccs
    ensures forall a :: a in anc ==> a in SetLow(s, u, l).stack
  {
    assert Seen(SetLow(s, u, l)) == Seen(s);
  }

  lemma LowerLinked(g: Digraph, s: State, u: nat, pu: nat, kz: nat, l: int)
    requires StackInRange(g, s) && StackSorted(g, s) && LowLinked(g, s) && pu < |s.stack| && s.stack[pu] == u
    requires kz < |s.stack| && s.disc[s.stack[kz]] == l && l < s.low[u] && Reach(g, u, s.stack[kz])
    ensures StackInRange(g, SetLow(s, u, l)) && LowLinked(g, SetLow(s, u, l))
  {
    assert LowAt(g, s, pu) && LowAt(g, s, kz);
    forall i | 0 <= i < |s.stack|
      ensures LowAt(g, SetLow(s, u, l), i)
    {
      LowerLowAt(g, s, u, pu, kz, l, i);
    }
  }

  lemma LowerFinished(g: Digraph, s: State, anc: set<nat>, u: nat, l: int)
    requires StackInRange(g, s) && FinishedOk(g, s, anc) && u in anc && u < g.n
    ensures StackInRange(g, SetLow(s, u, l)) && FinishedOk(g, SetLow(s, u, l), anc)
  {
    forall i | 0 <= i < |s.stack| && s.stack[i] !in anc
      ensures FinishedAt(g, SetLow(s, u, l), i)
    {
      LowerLowFinishedAt(g, s, u, l, i);
    }
  }

  /** Lowering the low-link of a running vertex u to the discovery time of a stack vertex
      that u reaches keeps the invariant. */
  lemma LowerLowKeeps(g: Digraph, s: State, anc: set<nat>, u: nat, pu: nat, kz: nat, l: int)
    requires Inv(g, s, anc) && u in anc && pu < |s.stack| && s.stack[pu] == u
    requires kz < |s.stack| && s.disc[s.stack[kz]] == l && l < s.low[u] && Reach(g, u, s.stack[kz])
    ensures Inv(g, SetLow(s, u, l), anc)
  {
    SetLowFree(g, s, anc, u, l);
    LowerLinked(g, s, u, pu, kz, l);
    LowerFinished(g, s, anc, u, l);
  }

  // ----- a record accounted for stays accounted for -----

  lemma FlattenGrows(a: seq<seq<nat>>, b: seq<seq<nat>>, x: nat)
    requires a <= b && x in Flatten(a)
    ensures x in Flatten(b)
  {
    FlattenIn(a, x);
    FlattenIn(b, x);
    var i :| InComponent(a, x, i);
    assert InComponent(b, x, i);
  }

  /** Later in the search (more components, a lower low-link, discovery times kept), a record
      accounted for is still accounted for. */
  lemma EdgeDoneLater(g: Digraph, s: State, s': State, w: nat, l: int, l': int)
    requires Shape(g, s) && Partitioned(g, s) && Shape(g, s') && Partitioned(g, s') && w < g.n
    requires EdgeDone(g, s, w, l) && l' <= l && s.sccs <= s'.sccs
    requires s.disc[w] != -1 ==> s'.disc[w] == s.disc[w]
    ensures EdgeDone(g, s', w, l')
  {
    assert w in Seen(s);
    if w in Flatten(s.sccs) {
      FlattenGrows(s.sccs, s'.sccs, w);
    } else {
      assert w in Seen(s');
    }
  }

  // ----- a running vertex finishes without being a root -----

  lemma FinishKeeps(g: Digraph, s: State, anc: set<nat>, u: nat, pu: nat)
    requires Inv(g, s, anc + {u}) && u !in anc && pu < |s.stack| && s.stack[pu] == u
    requires s.low[u] < s.disc[u] && EdgesDone(g, s, u, s.low[u])
    ensures Inv(g, s, anc)
  {
    assert FinishedAt(g, s, pu);
  }

  // ----- a root closes its component -----

  lemma {:induction false} ReverseMultiset(t: seq<nat>)
    ensures multiset(Reverse(t)) == multiset(t)
  {
    if t != [] {
      ReverseMultiset(t[1..]);
      assert t == [t[0]] + t[1..];
    }
  }

  lemma ReverseHas(t: seq<nat>, w: nat)
    requires w in t
    ensures w in Reverse(t)
  {
    var j := IndexOf(t, w);
    assert Reverse(t)[|t| - 1 - j] == w;
  }

  /** The position in the stack of a member of the component popped from position p. */
  lemma PoppedPosition(s: State, p: nat, x: nat) returns (q: nat)
    requires p <= |s.stack| && x in Reverse(s.stack[p..])
    ensures p <= q < |s.stack| && s.stack[q] == x
  {
    var c := Reverse(s.stack[p..]);
    var j := IndexOf(c, x);
    q := p + (|c| - 1 - j);
  }

  /** A vertex at position k is not among the positions below p. */
  lemma NotBelow(g: Digraph, s: State, p: nat, k: nat)
    requires StackInRange(g, s) && StackSorted(g, s) && p <= k < |s.stack|
    ensures s.stack[k] !in s.stack[..p]
  {
    assert forall i :: 0 <= i < p ==> s.stack[..p][i] == s.stack[i] != s.stack[k];
  }

  /** What holds when dfs(u) has explored all of u's records, u sits at stack position p and
      no vertex above it has a lower low-link. */
  ghost predicate Closing(g: Digraph, s: State, anc: set<nat>, u: nat, p: nat)
  {
    Inv(g, s, anc + {u}) && u !in anc && p < |s.stack| && s.stack[p] == u &&
    (forall k :: p < k < |s.stack| ==> s.low[u] <= s.low[s.stack[k]]) &&
    (forall k :: p <= k < |s.stack| ==> Reach(g, u, s.stack[k])) &&
    (forall a :: a in anc ==> a in s.stack[..p]) &&
    EdgesDone(g, s, u, s.low[u])
  }

  /** A vertex above p has returned from its search. */
  lemma AboveFinished(g: Digraph, s: State, anc: set<nat>, u: nat, p: nat, k: nat)
    requires Closing(g, s, anc, u, p) && p < k < |s.stack|
    ensures FinishedAt(g, s, k)
  {
    SortedDistinct(g, s, k, p);
    NotBelow(g, s, p, k);
  }

  /** Every vertex of the closing segment reaches its root. */
  lemma {:induction false} ReachesRoot(g: Digraph, s: State, anc: set<nat>, u: nat, p: nat, k: nat)
    requires Closing(g, s, anc, u, p) && s.low[u] == s.disc[u] && p <= k < |s.stack|
    ensures Reach(g, s.stack[k], u)
    decreases k
  {
    if k == p {
      ReachRefl(g, u);
    } else {
      AboveFinished(g, s, anc, u, p, k);
      assert LowAt(g, s, k);
      var j: nat :| LowWitness(g, s, k, j);
      assert p <= j;
      ReachesRoot(g, s, anc, u, p, j);
      ReachTrans(g, s.stack[k], s.stack[j], u);
    }
  }

  lemma PopFlatten(s: State, p: nat, os: seq<bool>)
    requires p <= |s.stack|
    ensures Flatten(PopFrom(s, p, os).sccs) == Flatten(s.sccs) + Reverse(s.stack[p..])
  {
    FlattenSnoc(s.sccs, Reverse(s.stack[p..]));
  }

  /** Moving the segment t of the stack, reversed, onto the finished vertices f keeps the
      multiset of all of them. */
  lemma MultisetMove(f: seq<nat>, stack: seq<nat>, p: nat)
    requires p <= |stack|
    ensures multiset(f + Reverse(stack[p..])) + multiset(stack[..p]) == multiset(f) + multiset(stack)
  {
    var pre, t := stack[..p], stack[p..];
    ReverseMultiset(t);
    assert pre + t == stack;
    assert multiset(pre + t) == multiset(pre) + multiset(t);
  }

  lemma SeenPop(s: State, p: nat, os: seq<bool>)
    requires p <= |s.stack|
    ensures Seen(PopFrom(s, p, os)) == Seen(s)
  {
    PopFlatten(s, p, os);
    MultisetMove(Flatten(s.sccs), s.stack, p);
  }

  lemma PopSeen(g: Digraph, s: State, p: nat, os: seq<bool>)
    requires Shape(g, s) && Partitioned(g, s) && p <= |s.stack| && |os| == g.n
    ensures Shape(g, PopFrom(s, p, os)) && Partitioned(g, PopFrom(s, p, os))
  {
    SeenPop(s, p, os);
  }

  lemma PopStacked(g: Digraph, s: State, p: nat, os: seq<bool>)
    requires Shape(g, s) && Stacked(g, s) && p <= |s.stack| && Cleared(s, p, os)
    ensures Shape(g, PopFrom(s, p, os)) && Stacked(g, PopFrom(s, p, os))
  {
    var s' := PopFrom(s, p, os);
    forall v | 0 <= v < g.n
      ensures os[v] <==> v in s'.stack
    {
      assert s.stack == s.stack[..p] + s.stack[p..];
      if v in s.stack[p..] {
        var j := IndexOf(s.stack[p..], v);
        NotBelow(g, s, p, p + j);
      }
    }
  }

  lemma PopLow(g: Digraph, s: State, p: nat, os: seq<bool>)
    requires StackInRange(g, s) && LowLinked(g, s) && p <= |s.stack| && |os| == g.n
    ensures StackInRange(g, PopFrom(s, p, os)) && LowLinked(g, PopFrom(s, p, os))
  {
    var s' := PopFrom(s, p, os);
    forall i | 0 <= i < |s'.stack|
      ensures LowAt(g, s', i)
    {
      assert LowAt(g, s, i);
      var k: nat :| LowWitness(g, s, i, k);
      assert LowWitness(g, s', i, k);
    }
  }

  /** After the pop, a record that was accounted for is either still on the stack below p or
      now in the new component. */
  lemma PopEdgeDone(g: Digraph, s: State, p: nat, os: seq<bool>, w: nat, l: int)
    requires Shape(g, s) && p <= |s.stack| && w < g.n && |os| == g.n
    requires EdgeDone(g, s, w, l)
    ensures Shape(g, PopFrom(s, p, os)) && EdgeDone(g, PopFrom(s, p, os), w, l)
  {
    PopFlatten(s, p, os);
    if w in s.stack && w !in s.stack[..p] {
      assert s.stack == s.stack[..p] + s.stack[p..];
      ReverseHas(s.stack[p..], w);
    }
  }

  lemma PopFinishedAt(g: Digraph, s: State, p: nat, os: seq<bool>, i: nat)
    requires StackInRange(g, s) && i < p <= |s.stack| && |os| == g.n && FinishedAt(g, s, i)
    ensures StackInRange(g, PopFrom(s, p, os)) && FinishedAt(g, PopFrom(s, p, os), i)
  {
    var s' := PopFrom(s, p, os);
    var x := s.stack[i];
    forall k | 0 <= k < |g.adj[x]|
      ensures EdgeDone(g, s', g.adj[x][k].to, s'.low[x])
    {
      assert EdgeDone(g, s, g.adj[x][k].to, s.low[x]);
      PopEdgeDone(g, s, p, os, g.adj[x][k].to, s.low[x]);
    }
  }

  lemma PopFinished(g: Digraph, s: State, anc: set<nat>, u: nat, p: nat, os: seq<bool>)
    requires StackInRange(g, s) && StackSorted(g, s) && FinishedOk(g, s, anc + {u})
    requires p < |s.stack| && s.stack[p] == u && |os| == g.n
    ensures StackInRange(g, PopFrom(s, p, os)) && FinishedOk(g, PopFrom(s, p, os), anc)
  {
    var s' := PopFrom(s, p, os);
    forall i | 0 <= i < |s'.stack| && s'.stack[i] !in anc
      ensures FinishedAt(g, s', i)
    {
      SortedDistinct(g, s, i, p);
      PopFinishedAt(g, s, p, os, i);
    }
  }

  /** A record leaving the closing segment ends in an earlier component or in the segment. */
  lemma PopRecord(g: Digraph, s: State, anc: set<nat>, u: nat, p: nat, q: nat, k: nat)
    requires Closing(g, s, anc, u, p) && s.low[u] == s.disc[u] && p <= q < |s.stack|
    requires k < |g.adj[s.stack[q]]|
    ensures g.adj[s.stack[q]][k].to in Flatten(s.sccs) + Reverse(s.stack[p..])
  {
    var x := s.stack[q];
    var w := g.adj[x][k].to;
    if q == p {
      assert EdgeDone(g, s, w, s.low[x]);
    } else {
      AboveFinished(g, s, anc, u, p, q);
      assert EdgeDone(g, s, w, s.low[x]);
    }
    if w !in Flatten(s.sccs) {
      SortedPosition(g, s, w, p);
      ReverseHas(s.stack[p..], w);
    }
  }

  /** Every record leaving the closing segment ends in a finished component or in the segment. */
  lemma SegmentRecords(g: Digraph, s: State, anc: set<nat>, u: nat, p: nat)
    requires Closing(g, s, anc, u, p) && s.low[u] == s.disc[u]
    ensures forall q, k :: p <= q < |s.stack| && 0 <= k < |g.adj[s.stack[q]]| ==>
      g.adj[s.stack[q]][k].to in Flatten(s.sccs) + Reverse(s.stack[p..])
  {
    forall q, k | p <= q < |s.stack| && 0 <= k < |g.adj[s.stack[q]]|
      ensures g.adj[s.stack[q]][k].to in Flatten(s.sccs) + Reverse(s.stack[p..])
    {
      PopRecord(g, s, anc, u, p, q, k);
    }
  }

  lemma PopOrdered(g: Digraph, s: State, p: nat, os: seq<bool>)
    requires StackInRange(g, s) && Ordered(g, s.sccs) && p < |s.stack|
    requires forall q, k :: p <= q < |s.stack| && 0 <= k < |g.adj[s.stack[q]]| ==>
      g.adj[s.stack[q]][k].to in Flatten(s.sccs) + Reverse(s.stack[p..])
    ensures Ordered(g, PopFrom(s, p, os).sccs)
  {
    var css := PopFrom(s, p, os).sccs;
    var m := |s.sccs|;
    PopFlatten(s, p, os);
    forall i, x, k | 0 <= i < |css| && x in css[i] && x < |g.adj| && 0 <= k < |g.adj[x]|
      ensures g.adj[x][k].to in Flatten(css[..i + 1])
    {
      if i < m {
        assert css[..i + 1] == s.sccs[..i + 1];
      } else {
        assert css[..i + 1] == css;
        var q := PoppedPosition(s, p, x);
        assert g.adj[s.stack[q]][k].to in Flatten(s.sccs) + Reverse(s.stack[p..]);
      }
    }
  }

  /** The closing segment is strongly connected through its root. */
  lemma SegmentConnected(g: Digraph, s: State, anc: set<nat>, u: nat, p: nat)
    requires Closing(g, s, anc, u, p) && s.low[u] == s.disc[u]
    ensures forall q :: p <= q < |s.stack| ==> MutuallyReachable(g, s.stack[q], u)
  {
    forall q | p <= q < |s.stack|
      ensures MutuallyReachable(g, s.stack[q], u)
    {
      ReachesRoot(g, s, anc, u, p, q);
    }
  }

  lemma PopConnected(g: Digraph, s: State, u: nat, p: nat, os: seq<bool>)
    requires Connected(g, s.sccs) && p < |s.stack| && s.stack[p] == u
    requires forall q :: p <= q < |s.stack| ==> MutuallyReachable(g, s.stack[q], u)
    ensures Connected(g, PopFrom(s, p, os).sccs)
  {
    var css := PopFrom(s, p, os).sccs;
    var c := Reverse(s.stack[p..]);
    assert c[|c| - 1] == u;
    forall x | x in c
      ensures MutuallyReachable(g, x, u)
    {
      var q := PoppedPosition(s, p, x);
    }
    forall i | 0 <= i < |css|
      ensures |css[i]| > 0 && forall x :: x in css[i] ==> MutuallyReachable(g, x, css[i][|css[i]| - 1])
    {
      if i < |s.sccs| {
        assert css[i] == s.sccs[i];
      } else {
        assert css[i] == c;
      }
    }
  }

  /** Popping the segment from a root u into a new component keeps the invariant, with u's
      search no longer running. */
  lemma PopKeeps(g: Digraph, s: State, anc: set<nat>, u: nat, p: nat, os: seq<bool>)
    requires Closing(g, s, anc, u, p) && s.low[u] == s.disc[u] && Cleared(s, p, os)
    ensures Inv(g, PopFrom(s, p, os), anc)
  {
    PopSeen(g, s, p, os);
    PopStacked(g, s, p, os);
    PopLow(g, s, p, os);
    PopFinished(g, s, anc, u, p, os);
    SegmentRecords(g, s, anc, u, p);
    PopOrdered(g, s, p, os);
    SegmentConnected(g, s, anc, u, p);
    PopConnected(g, s, u, p, os);
  }
}
