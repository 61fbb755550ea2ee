/** tarjan_dfs and tarjan_run as functions on state values, and the proof
    that what they compute is the partition into strongly connected
    components.

    Dfs, Step and Explore follow lines 199-241 of tarjan.c: visit u, take
    each edge of u in list order, then pop u's component when u is a root.
    RunFrom follows lines 244-263. The methods of module Tarjan are proved to
    compute exactly these functions; DfsCorrect and RunCorrect carry the
    invariant of TarjanInvariant through them. */
module TarjanSpec {
  import opened Reachability
  import opened SccSpec
  import opened TarjanData
  import opened TarjanInvariant

  /** What the traversal functions need of a state: a well-formed graph, one
      record per vertex slot, a non-negative counter and stacked vertices in
      range. */
  ghost predicate Ready(g: Succ, s: St) {
    WellFormed(g) && |s.vs| == |g| && s.counter >= 0
    && forall i :: 0 <= i < |s.stack| ==> 0 <= s.stack[i] < |s.vs|
  }

  /** From s to r, while u is being explored: among the records visited in s
      only u's may change and u keeps its index; the counter does not go
      back, classes are only appended, and the stack only grows, by vertices
      unvisited in s. */
  ghost predicate Extends(g: Succ, s: St, r: St, u: int) {
    Ready(g, r) && |r.vs| == |s.vs| && s.counter <= r.counter && s.sccs <= r.sccs
    && Idx(r.vs, u) == Idx(s.vs, u)
    && (forall v :: 0 <= v < |s.vs| && v != u && s.vs[v].index != -1 ==> r.vs[v] == s.vs[v])
    && NewAbove(s, r)
  }

  /** s's stack is a prefix of r's, and what lies above it was unvisited in s. */
  ghost predicate NewAbove(s: St, r: St) {
    s.stack <= r.stack && forall i :: |s.stack| <= i < |r.stack| ==> Idx(s.vs, r.stack[i]) == -1
  }

  /** The position of the topmost occurrence of u: the stack is popped down
      to it (lines 233-239 stop at the first popped vertex equal to u). */
  function LastIndex(st: seq<int>, u: int): (i: int)
    requires u in st
    ensures 0 <= i < |st| && st[i] == u
    ensures forall j :: i < j < |st| ==> st[j] != u
  {
    if st[|st| - 1] == u then |st| - 1 else LastIndex(st[..|st| - 1], u)
  }

  /** tarjan_dfs(u) from state s. */
  ghost function Dfs(g: Succ, s: St, u: int): (r: St)
    requires Ready(g, s) && 1 <= u < |g| && Idx(s.vs, u) == -1
    ensures Ready(g, r) && Grows(s, r) && s.counter < r.counter && NewAbove(s, r)
    ensures Idx(r.vs, u) == s.counter && Unseen(r.vs) < Unseen(s.vs)
    decreases Unseen(s.vs), 0, 0
  {
    var p := Pushed(s, u);
    PushedFacts(g, s, u);
    var c := Explore(g, p, u, 0);
    assert c.stack[|s.stack|] == u;
    var r := if Low(c.vs, u) == Idx(c.vs, u) then Popped(c, LastIndex(c.stack, u)) else c;
    DfsFacts(g, s, u, c, r);
    r
  }

  /** One edge u -> v of the loop of lines 213-224. */
  ghost function Step(g: Succ, cur: St, u: int, v: int): (r: St)
    requires Ready(g, cur) && 1 <= u < |g| && 1 <= v < |g| && Seen(cur.vs, u)
    ensures Extends(g, cur, r, u)
    decreases Unseen(cur.vs), 1, 0
  {
    if Idx(cur.vs, v) == -1 then
      var sv := Dfs(g, cur, v);
      LoweredExtends(g, cur, sv, u, Low(sv.vs, v));
      Lowered(sv, u, Low(sv.vs, v))
    else
      LoweredExtends(g, cur, cur, u, cur.vs[v].index);
      AfterVisited(cur, u, v)
  }

  /** The edges of u from the k-th on. */
  ghost function Explore(g: Succ, cur: St, u: int, k: int): (r: St)
    requires Ready(g, cur) && 1 <= u < |g| && 0 <= k <= |g[u]| && Seen(cur.vs, u)
    ensures Extends(g, cur, r, u)
    decreases Unseen(cur.vs), 2, |g[u]| - k
  {
    if k == |g[u]| then cur
    else
      assert g[u][k] in g[u];
      var next := Step(g, cur, u, g[u][k]);
      UnseenKept(g, cur, next, u);
      var r := Explore(g, next, u, k + 1);
      ExtendsTrans(g, cur, next, r, u);
      r
  }

  /** Lines 255-259 from vertex u on: every vertex still unvisited starts a
      traversal. */
  ghost function RunFrom(g: Succ, s: St, u: int): (r: St)
    requires Ready(g, s) && 1 <= u <= |g|
    ensures Ready(g, r) && |r.sccs| >= |s.sccs|
    decreases |g| - u
  {
    if u == |g| then s else RunFrom(g, RunNext(g, s, u), u + 1)
  }

  /** Line 256: tarjan_dfs is started on u only when u is still unvisited. */
  ghost function RunNext(g: Succ, s: St, u: int): (r: St)
    requires Ready(g, s) && 1 <= u < |g|
    ensures Ready(g, r) && |r.sccs| >= |s.sccs|
  {
    if Idx(s.vs, u) == -1 then Dfs(g, s, u) else s
  }

  /** The records tarjan_init_vertices makes for a graph g. */
  function InitialRecords(size: nat): (vs: seq<TarjanVertex>)
    ensures |vs| == size && forall v :: 0 <= v < size ==> vs[v] == Unvisited(v)
  {
    seq(size, v => Unvisited(v))
  }

  /** tarjan_run on g: the state after every vertex has been tried. */
  ghost function Run(g: Succ): St
    requires WellFormed(g)
  {
    RunFrom(g, St(InitialRecords(|g|), [], [], 0), 1)
  }

  // ---------------------------------------------------------------------------
  // Shape facts the functions rely on
  // ---------------------------------------------------------------------------

  lemma PushedFacts(g: Succ, s: St, u: int)
    requires Ready(g, s) && 1 <= u < |g| && Idx(s.vs, u) == -1
    ensures Ready(g, Pushed(s, u)) && Grows(s, Pushed(s, u)) && Seen(Pushed(s, u).vs, u)
    ensures Unseen(Pushed(s, u).vs) < Unseen(s.vs)
  {
    UnseenShrinks(s, Pushed(s, u), u);
  }

  /** A state that only changes u's lowlink extends the state it started from. */
  lemma LoweredExtends(g: Succ, cur: St, sv: St, u: int, x: int)
    requires Ready(g, cur) && 1 <= u < |g| && Seen(cur.vs, u)
    requires Ready(g, sv) && Grows(cur, sv) && NewAbove(cur, sv)
    ensures Extends(g, cur, sv, u) && Extends(g, cur, Lowered(sv, u, x), u)
  {
  }

  lemma ExtendsTrans(g: Succ, s: St, m: St, r: St, u: int)
    requires Extends(g, s, m, u) && Extends(g, m, r, u) && 0 <= u < |s.vs| && Seen(s.vs, u)
    ensures Extends(g, s, r, u)
  {
    forall i | |s.stack| <= i < |r.stack|
      ensures Idx(s.vs, r.stack[i]) == -1
    {
      if i < |m.stack| {
        assert r.stack[i] == m.stack[i];
      } else {
        var w := r.stack[i];
        assert Idx(m.vs, w) == -1;
        assert w != u;
      }
    }
  }

  /** Exploring u visits vertices and never un-visits one. */
  lemma UnseenKept(g: Succ, s: St, r: St, u: int)
    requires Extends(g, s, r, u) && 0 <= u < |s.vs| && Seen(s.vs, u)
    ensures Unseen(r.vs) <= Unseen(s.vs)
  {
    forall v | v in Unseen(r.vs)
      ensures v in Unseen(s.vs)
    {
      if v == u {
        assert Idx(r.vs, u) == Idx(s.vs, u);
      }
    }
  }

  /** The contract of Dfs, from that of Explore. */
  lemma DfsFacts(g: Succ, s: St, u: int, c: St, r: St)
    requires Ready(g, s) && 1 <= u < |g| && Idx(s.vs, u) == -1
    requires Extends(g, Pushed(s, u), c, u) && u in c.stack && c.stack[|s.stack|] == u
    requires r == if Low(c.vs, u) == Idx(c.vs, u) then Popped(c, LastIndex(c.stack, u)) else c
    ensures Ready(g, r) && Grows(s, r) && s.counter < r.counter && NewAbove(s, r)
    ensures Idx(r.vs, u) == s.counter && Unseen(r.vs) < Unseen(s.vs)
  {
    var p := Pushed(s, u);
    var pos := LastIndex(c.stack, u);
    assert |s.stack| <= pos;
    forall i | |s.stack| <= i < |c.stack|
      ensures Idx(s.vs, c.stack[i]) == -1
    {
      if i > |s.stack| {
        assert Idx(p.vs, c.stack[i]) == -1;
      }
    }
    forall v | 0 <= v < |s.vs| && s.vs[v].index != -1
      ensures r.vs[v] == s.vs[v]
    {
      assert c.vs[v] == s.vs[v];
      assert forall j :: 0 <= j < |c.stack[pos..]| ==> c.stack[pos..][j] != v;
    }
    UnseenShrinks(s, r, u);
  }

  // ---------------------------------------------------------------------------
  // Correctness
  // ---------------------------------------------------------------------------

  /** The invariant gives what the functions need. */
  lemma InvReady(g: Succ, s: St, grays: set<int>)
    requires Inv(g, s, grays)
    ensures Ready(g, s)
  {
  }

  /** Lines 199-241 keep the invariant and establish DfsPost: in particular a
      root's component is popped as the next class. */
  lemma {:induction false} DfsCorrect(g: Succ, s0: St, u: int, grays: set<int>)
    requires Inv(g, s0, grays) && 1 <= u < |g| && Idx(s0.vs, u) == -1
    requires forall x :: x in grays ==> Reach(g, x, u)
    ensures Ready(g, s0) && DfsPost(g, s0, Dfs(g, s0, u), u, grays)
    decreases Unseen(s0.vs), 0, 0
  {
    InvReady(g, s0, grays);
    var p := Pushed(s0, u);
    PushedFacts(g, s0, u);
    PushStep(g, s0, grays, u);
    var c := ExploreCorrect(g, s0, p, u, 0, grays);
    if Low(c.vs, u) == Idx(c.vs, u) {
      FinishRoot(g, s0, c, u, grays);
      LastIndexOnStack(c, |s0.stack|);
    } else {
      FinishNonRoot(g, s0, c, u, grays);
    }
  }

  /** The edge loop keeps LoopInv from edge k to the end of u's list; r is
      the state Explore reaches. */
  lemma {:induction false} ExploreCorrect(g: Succ, s0: St, cur: St, u: int, k: int, grays: set<int>)
    returns (r: St)
    requires LoopInv(g, s0, cur, u, k, grays) && forall x :: x in grays ==> Reach(g, x, u)
    ensures Ready(g, cur) && Seen(cur.vs, u) && r == Explore(g, cur, u, k)
    ensures LoopInv(g, s0, r, u, |g[u]|, grays)
    decreases Unseen(cur.vs), 2, |g[u]| - k
  {
    InvReady(g, cur, grays + {u});
    if k < |g[u]| {
      var next := StepCorrect(g, s0, cur, u, k, grays);
      r := ExploreCorrect(g, s0, next, u, k + 1, grays);
      assert r == Explore(g, cur, u, k);
    } else {
      r := cur;
      assert r == Explore(g, cur, u, k);
    }
  }

  /** One edge keeps LoopInv: next is the state after the k-th edge of u. */
  lemma StepCorrect(g: Succ, s0: St, cur: St, u: int, k: int, grays: set<int>) returns (next: St)
    requires LoopInv(g, s0, cur, u, k, grays) && forall x :: x in grays ==> Reach(g, x, u)
    requires k < |g[u]|
    ensures Ready(g, cur) && Seen(cur.vs, u) && g[u][k] in g[u] && 1 <= g[u][k] < |g|
    ensures next == Step(g, cur, u, g[u][k]) && Unseen(next.vs) <= Unseen(cur.vs)
    ensures LoopInv(g, s0, next, u, k + 1, grays)
    decreases Unseen(cur.vs), 1, 0
  {
    InvReady(g, cur, grays + {u});
    var v := g[u][k];
    assert v in g[u];
    if Idx(cur.vs, v) == -1 {
      GraysReachChild(g, grays, u, v);
      DfsCorrect(g, cur, v, grays + {u});
      TreeEdgeStep(g, s0, cur, u, k, grays, v, Dfs(g, cur, v));
    } else {
      VisitedEdgeStep(g, s0, cur, u, k, grays, v);
    }
    next := Step(g, cur, u, v);
    UnseenKept(g, cur, next, u);
  }

  /** With the stack in index order, u at position pos is its topmost occurrence. */
  lemma LastIndexOnStack(c: St, pos: int)
    requires StackOk(c) && 0 <= pos < |c.stack|
    ensures LastIndex(c.stack, c.stack[pos]) == pos
  {
    var i := LastIndex(c.stack, c.stack[pos]);
    assert Idx(c.vs, c.stack[i]) == Idx(c.vs, c.stack[pos]);
  }

  /** Lines 255-259 keep the invariant with an empty stack and leave every
      vertex visited, so the classes of the state r that RunFrom reaches
      are the components, in reverse topological order. */
  lemma {:induction false} RunFromCorrect(g: Succ, s: St, u: int) returns (r: St)
    requires Inv(g, s, {}) && s.stack == [] && 1 <= u <= |g|
    requires forall v :: 1 <= v < u ==> Seen(s.vs, v)
    ensures Ready(g, s) && r == RunFrom(g, s, u)
    ensures IsPartition(r.sccs, |g| - 1) && AreComponents(g, r.sccs) && ReverseTopological(g, r.sccs)
    decreases |g| - u
  {
    InvReady(g, s, {});
    if u < |g| {
      RunNextCorrect(g, s, u);
      r := RunFromCorrect(g, RunNext(g, s, u), u + 1);
      RunFromUnfold(g, s, u);
      assert r == RunFrom(g, s, u);
    } else {
      r := s;
      FinalPartition(g, s);
      assert r == RunFrom(g, s, u);
    }
  }

  lemma RunFromUnfold(g: Succ, s: St, u: int)
    requires Ready(g, s) && 1 <= u < |g|
    ensures RunFrom(g, s, u) == RunFrom(g, RunNext(g, s, u), u + 1)
  {
  }

  /** One round of lines 255-259 keeps the invariant, and u is visited after it. */
  lemma RunNextCorrect(g: Succ, s: St, u: int)
    requires Inv(g, s, {}) && s.stack == [] && 1 <= u < |g|
    requires forall v :: 1 <= v < u ==> Seen(s.vs, v)
    ensures Ready(g, s)
    ensures Inv(g, RunNext(g, s, u), {}) && RunNext(g, s, u).stack == []
    ensures forall v :: 1 <= v < u + 1 ==> Seen(RunNext(g, s, u).vs, v)
  {
    InvReady(g, s, {});
    if Idx(s.vs, u) == -1 {
      var s1 := Dfs(g, s, u);
      DfsCorrect(g, s, u, {});
      TopLevelRoot(g, s, s1, u);
      SeenKept(s, s1, u);
    }
  }

  lemma SeenKept(s: St, s1: St, u: int)
    requires Grows(s, s1) && Seen(s1.vs, u) && forall v :: 1 <= v < u ==> Seen(s.vs, v)
    ensures forall v :: 1 <= v < u + 1 ==> Seen(s1.vs, v)
  {
    forall v | 1 <= v < u
      ensures Seen(s1.vs, v)
    {
      assert Seen(s.vs, v);
      assert s1.vs[v] == s.vs[v];
    }
  }

  /** tarjan_run's classes partition the vertices 1..n into the strongly
      connected components, emitted in reverse topological order. */
  lemma RunCorrect(g: Succ)
    requires WellFormed(g)
    ensures IsPartition(Run(g).sccs, |g| - 1)
    ensures AreComponents(g, Run(g).sccs) && ReverseTopological(g, Run(g).sccs)
  {
    var s := St(InitialRecords(|g|), [], [], 0);
    InitInv(g, s.vs);
    var r := RunFromCorrect(g, s, 1);
  }
}
