/** The discovery numbering of tarjan_dfs (lines 206-208 of tarjan.c): each
    visit takes the counter as the vertex's index and increments it. Over a
    traversal the counter grows by exactly the number of newly visited
    vertices and the indices stay pairwise distinct with no gap, so after
    tarjan_run the vertices 1..n hold the indices 0..n-1, one each. */
module TarjanNumbering {
  import opened Reachability
  import opened TarjanData
  import opened TarjanInvariant
  import opened TarjanSpec

  /** Discovery indices are handed out 0, 1, 2, ... with no gap and no
      repeat: visited vertices carry pairwise distinct indices below the
      counter, and every number below the counter is one of them. */
  ghost predicate Numbered(s: St) {
    (forall v :: 0 <= v < |s.vs| && s.vs[v].index != -1 ==> 0 <= s.vs[v].index < s.counter)
    && (forall v, w :: 0 <= v < w < |s.vs| && s.vs[v].index != -1 ==> s.vs[v].index != s.vs[w].index)
    && (forall i :: 0 <= i < s.counter ==> Used(s.vs, i, 0))
  }

  /** Some vertex from lo on has discovery index i. */
  ghost predicate Used(vs: seq<TarjanVertex>, i: int, lo: nat) {
    exists v :: lo <= v < |vs| && vs[v].index == i
  }

  /** r differs from s at most in lowlinks, on_stack flags, the stack and the
      classes. */
  ghost predicate SameIndices(s: St, r: St) {
    |r.vs| == |s.vs| && r.counter == s.counter && forall v :: 0 <= v < |s.vs| ==> r.vs[v].index == s.vs[v].index
  }

  /** Changing nothing but lowlinks, flags, stack and classes keeps the
      numbering and the unvisited vertices. */
  lemma SameIndicesKeep(s: St, r: St)
    requires SameIndices(s, r)
    ensures Unseen(r.vs) == Unseen(s.vs) && (Numbered(s) ==> Numbered(r))
  {
    if Numbered(s) {
      forall i | 0 <= i < r.counter
        ensures Used(r.vs, i, 0)
      {
        assert Used(s.vs, i, 0);
        var v :| 0 <= v < |s.vs| && s.vs[v].index == i;
        assert r.vs[v].index == i;
      }
    }
  }

  /** Lowering a lowlink and popping a component keep every index. */
  lemma LoweredSame(s: St, u: int, x: int)
    requires 0 <= u < |s.vs|
    ensures SameIndices(s, Lowered(s, u, x))
  {
  }

  lemma AfterVisitedSame(s: St, u: int, v: int)
    requires 0 <= u < |s.vs| && 0 <= v < |s.vs|
    ensures SameIndices(s, AfterVisited(s, u, v))
  {
  }

  lemma PoppedSame(s: St, pos: int)
    requires 0 <= pos <= |s.stack|
    ensures SameIndices(s, Popped(s, pos))
  {
  }

  /** Visiting u hands it the counter: one vertex fewer is unvisited, one
      number more is used, and the numbering stays gap-free. */
  lemma PushedNumbered(s: St, u: int)
    requires 0 <= u < |s.vs| && s.vs[u].index == -1 && s.counter >= 0
    ensures Unseen(s.vs) == Unseen(Pushed(s, u).vs) + {u} && u !in Unseen(Pushed(s, u).vs)
    ensures |Unseen(Pushed(s, u).vs)| == |Unseen(s.vs)| - 1
    ensures Numbered(s) ==> Numbered(Pushed(s, u))
  {
    var p := Pushed(s, u);
    assert Unseen(s.vs) == Unseen(p.vs) + {u};
    if Numbered(s) {
      forall v, w | 0 <= v < w < |p.vs| && p.vs[v].index != -1
        ensures p.vs[v].index != p.vs[w].index
      {
        if v != u && w != u {
          assert s.vs[v].index != s.vs[w].index;
        }
      }
      forall i | 0 <= i < p.counter
        ensures Used(p.vs, i, 0)
      {
        if i == s.counter {
          assert p.vs[u].index == i;
        } else {
          assert Used(s.vs, i, 0);
          var v :| 0 <= v < |s.vs| && s.vs[v].index == i;
          assert p.vs[v].index == i;
        }
      }
    }
  }

  /** tarjan_run starts with no number used and every vertex unvisited. */
  lemma {:induction false} InitialNumbered(vs: seq<TarjanVertex>)
    requires forall v :: 0 <= v < |vs| ==> vs[v] == Unvisited(v)
    ensures Numbered(St(vs, [], [], 0)) && |Unseen(vs)| == |vs|
  {
    if vs != [] {
      var init := vs[..|vs| - 1];
      InitialNumbered(init);
      assert Unseen(vs) == Unseen(init) + {|vs| - 1};
    }
  }

  /** Once every vertex but the unused slot 0 is visited, the n numbers
      0..n-1 are used, each by exactly one vertex of 1..n. */
  lemma FinalNumbering(g: Succ, s: St)
    requires Numbered(s) && |s.vs| == |g| >= 1 && Idx(s.vs, 0) == -1
    requires forall v :: 1 <= v < |g| ==> Seen(s.vs, v)
    ensures Unseen(s.vs) == {0} && |Unseen(s.vs)| == 1
    ensures forall v :: 1 <= v < |g| ==> 0 <= s.vs[v].index < s.counter
    ensures forall v, w :: 1 <= v < w < |g| ==> s.vs[v].index != s.vs[w].index
    ensures forall i :: 0 <= i < s.counter ==> Used(s.vs, i, 1)
  {
    assert Unseen(s.vs) == {0} by {
      assert 0 in Unseen(s.vs);
      forall v | v in Unseen(s.vs)
        ensures v == 0
      {
        assert v < 1 || Seen(s.vs, v);
      }
    }
    forall i | 0 <= i < s.counter
      ensures Used(s.vs, i, 1)
    {
      assert Used(s.vs, i, 0);
      var v :| 0 <= v < |s.vs| && s.vs[v].index == i;
      assert v != 0 && Idx(s.vs, v) == i;
    }
    forall v | 1 <= v < |g|
      ensures 0 <= s.vs[v].index < s.counter
    {
      assert Seen(s.vs, v);
    }
  }

  /** Finishing u, by popping its component or not, keeps every index. */
  lemma FinishSame(c: St, u: int)
    requires u in c.stack
    ensures SameIndices(c, if Low(c.vs, u) == Idx(c.vs, u) then Popped(c, LastIndex(c.stack, u)) else c)
  {
    PoppedSame(c, LastIndex(c.stack, u));
  }

  /** tarjan_dfs(u) uses one number per vertex it visits, and keeps the
      numbering gap-free and repeat-free. */
  lemma {:induction false} DfsNumbering(g: Succ, s: St, u: int)
    requires Ready(g, s) && 1 <= u < |g| && Idx(s.vs, u) == -1
    ensures Dfs(g, s, u).counter - s.counter == |Unseen(s.vs)| - |Unseen(Dfs(g, s, u).vs)|
    ensures Numbered(s) ==> Numbered(Dfs(g, s, u))
    ensures Idx(Dfs(g, s, u).vs, 0) == Idx(s.vs, 0)
    decreases Unseen(s.vs), 0, 0
  {
    var p := Pushed(s, u);
    PushedFacts(g, s, u);
    PushedNumbered(s, u);
    ExploreNumbering(g, p, u, 0);
    var c := Explore(g, p, u, 0);
    assert c.stack[|s.stack|] == u;
    FinishSame(c, u);
    SameIndicesKeep(c, Dfs(g, s, u));
  }

  /** One edge: a tree edge numbers what its traversal visits, an edge to a
      visited vertex numbers nothing. */
  lemma {:induction false} StepNumbering(g: Succ, cur: St, u: int, v: int)
    requires Ready(g, cur) && 1 <= u < |g| && 1 <= v < |g| && Seen(cur.vs, u)
    ensures Step(g, cur, u, v).counter - cur.counter == |Unseen(cur.vs)| - |Unseen(Step(g, cur, u, v).vs)|
    ensures Numbered(cur) ==> Numbered(Step(g, cur, u, v))
    ensures Idx(Step(g, cur, u, v).vs, 0) == Idx(cur.vs, 0)
    decreases Unseen(cur.vs), 1, 0
  {
    if Idx(cur.vs, v) == -1 {
      var sv := Dfs(g, cur, v);
      DfsNumbering(g, cur, v);
      LoweredSame(sv, u, Low(sv.vs, v));
      SameIndicesKeep(sv, Lowered(sv, u, Low(sv.vs, v)));
    } else {
      AfterVisitedSame(cur, u, v);
      SameIndicesKeep(cur, AfterVisited(cur, u, v));
    }
  }

  /** The edges of u from the k-th on, as StepNumbering edge by edge. */
  lemma {:induction false} ExploreNumbering(g: Succ, cur: St, u: int, k: int)
    requires Ready(g, cur) && 1 <= u < |g| && 0 <= k <= |g[u]| && Seen(cur.vs, u)
    ensures Explore(g, cur, u, k).counter - cur.counter == |Unseen(cur.vs)| - |Unseen(Explore(g, cur, u, k).vs)|
    ensures Numbered(cur) ==> Numbered(Explore(g, cur, u, k))
    ensures Idx(Explore(g, cur, u, k).vs, 0) == Idx(cur.vs, 0)
    decreases Unseen(cur.vs), 2, |g[u]| - k
  {
    if k < |g[u]| {
      assert g[u][k] in g[u];
      var next := Step(g, cur, u, g[u][k]);
      StepNumbering(g, cur, u, g[u][k]);
      UnseenKept(g, cur, next, u);
      ExploreNumbering(g, next, u, k + 1);
    }
  }

  /** Lines 255-259 from vertex u on: every tarjan_dfs started uses one
      number per vertex it visits, keeps the numbering gap-free, and leaves
      slot 0 unvisited. */
  lemma {:induction false} RunFromNumbering(g: Succ, s: St, u: int)
    requires Ready(g, s) && 1 <= u <= |g|
    ensures RunFrom(g, s, u).counter - s.counter == |Unseen(s.vs)| - |Unseen(RunFrom(g, s, u).vs)|
    ensures Numbered(s) ==> Numbered(RunFrom(g, s, u))
    ensures Idx(RunFrom(g, s, u).vs, 0) == Idx(s.vs, 0)
    decreases |g| - u
  {
    if u < |g| {
      if Idx(s.vs, u) == -1 {
        DfsNumbering(g, s, u);
      }
      RunFromNumbering(g, RunNext(g, s, u), u + 1);
      RunFromUnfold(g, s, u);
    }
  }

  /** After lines 255-259 every vertex 1..n is visited. */
  lemma {:induction false} RunFromVisits(g: Succ, s: St, u: int)
    requires Ready(g, s) && 1 <= u <= |g| && forall v :: 1 <= v < u ==> Seen(s.vs, v)
    ensures forall v :: 1 <= v < |g| ==> Seen(RunFrom(g, s, u).vs, v)
    decreases |g| - u
  {
    if u < |g| {
      RunNextVisits(g, s, u);
      RunFromVisits(g, RunNext(g, s, u), u + 1);
      RunFromUnfold(g, s, u);
    }
  }

  /** Line 256: after the round for u, the vertices 1..u are visited. */
  lemma RunNextVisits(g: Succ, s: St, u: int)
    requires Ready(g, s) && 1 <= u < |g| && forall v :: 1 <= v < u ==> Seen(s.vs, v)
    ensures forall v :: 1 <= v < u + 1 ==> Seen(RunNext(g, s, u).vs, v)
  {
    if Idx(s.vs, u) == -1 {
      SeenKept(s, Dfs(g, s, u), u);
    }
  }

  /** Lines 206-208 over a whole run: the counter ends at n, and the vertices
      1..n hold the discovery indices 0..n-1, pairwise distinct, each number
      used. */
  lemma RunNumbering(g: Succ)
    requires WellFormed(g)
    ensures Run(g).counter == |g| - 1 && |Run(g).vs| == |g|
    ensures forall v :: 1 <= v < |g| ==> 0 <= Run(g).vs[v].index < |g| - 1
    ensures forall v, w :: 1 <= v < w < |g| ==> Run(g).vs[v].index != Run(g).vs[w].index
    ensures forall i :: 0 <= i < |g| - 1 ==> Used(Run(g).vs, i, 1)
  {
    var s := St(InitialRecords(|g|), [], [], 0);
    InitialNumbered(s.vs);
    RunFromNumbering(g, s, 1);
    RunFromVisits(g, s, 1);
    FinalNumbering(g, Run(g));
  }
}
