/** The state of tarjan_dfs as a value, the invariant it keeps, and one lemma
    per step of the traversal (visit, tree edge, edge to a visited vertex,
    finishing a non-root vertex, finishing a root and popping its component).

    The proof follows the classical argument for Tarjan's algorithm: the
    vertices whose exploration is in progress ("grays") sit on the stack; every
    stacked vertex reaches a gray vertex that is no later in the stack and is
    reached by every vertex below it; a vertex whose lowlink stays equal to its
    index when it finishes is the first-visited vertex of its component, and
    the stack segment above it is that component. */
module TarjanInvariant {
  import opened Reachability
  import opened TarjanData
  import opened SeqUtil
  import opened SccSpec

  /** V[0..n], the stack contents bottom first, the member lists of the
      classes emitted so far, and the next discovery index. */
  datatype St = St(vs: seq<TarjanVertex>, stack: seq<int>, sccs: seq<seq<int>>, counter: int)

  /** Discovery index of v, -1 for an unvisited or out-of-range vertex. */
  function Idx(vs: seq<TarjanVertex>, v: int): int {
    if 0 <= v < |vs| then vs[v].index else -1
  }

  function Low(vs: seq<TarjanVertex>, v: int): int {
    if 0 <= v < |vs| then vs[v].lowlink else -1
  }

  predicate Seen(vs: seq<TarjanVertex>, v: int) {
    Idx(vs, v) != -1
  }

  /** y belongs to one of the classes 0..upto-1. */
  ghost predicate InClass(sccs: seq<seq<int>>, y: int, upto: int) {
    exists b :: 0 <= b < upto && b < |sccs| && y in sccs[b]
  }

  /** Visited vertices carry an index below the counter and a lowlink between
      0 and their index; unvisited ones are as initialised. */
  ghost predicate RecordsOk(g: Succ, s: St) {
    |s.vs| == |g| && s.counter >= 0 && Idx(s.vs, 0) == -1
    && (forall v :: 0 <= v < |s.vs| ==> s.vs[v].id == v)
    && (forall v :: 0 <= v < |s.vs| && s.vs[v].index == -1 ==> s.vs[v] == Unvisited(v))
    && (forall v :: 0 <= v < |s.vs| && s.vs[v].index != -1 ==> 0 <= s.vs[v].lowlink <= s.vs[v].index < s.counter)
  }

  /** The stack holds visited vertices in increasing index order, and on_stack
      is exactly membership in it. */
  ghost predicate StackOk(s: St) {
    (forall i :: 0 <= i < |s.stack| ==> 1 <= s.stack[i] < |s.vs| && s.vs[s.stack[i]].index != -1)
    && (forall i, j :: 0 <= i < j < |s.stack| ==> Idx(s.vs, s.stack[i]) < Idx(s.vs, s.stack[j]))
    && (forall v :: 0 <= v < |s.vs| ==> (s.vs[v].onStack <==> v in s.stack))
  }

  /** Classes are non-empty, pairwise disjoint, hold visited vertices that are
      off the stack in decreasing index order (pop order); every visited vertex
      is on the stack or in a class. */
  ghost predicate SccsOk(s: St) {
    (forall a :: 0 <= a < |s.sccs| ==> |s.sccs[a]| >= 1)
    && (forall a, i :: 0 <= a < |s.sccs| && 0 <= i < |s.sccs[a]| ==>
          1 <= s.sccs[a][i] < |s.vs| && s.vs[s.sccs[a][i]].index != -1 && !s.vs[s.sccs[a][i]].onStack)
    && (forall a, i, j :: 0 <= a < |s.sccs| && 0 <= i < j < |s.sccs[a]| ==>
          Idx(s.vs, s.sccs[a][i]) > Idx(s.vs, s.sccs[a][j]))
    && (forall a, b, x :: 0 <= a < b < |s.sccs| && x in s.sccs[a] ==> x !in s.sccs[b])
    && (forall v :: 0 <= v < |s.vs| && s.vs[v].index != -1 ==> v in s.stack || InClass(s.sccs, v, |s.sccs|))
  }

  /** The vertices under exploration are visited, and every stacked vertex
      reaches one of them that is no later in the stack. */
  ghost predicate GraysOk(g: Succ, s: St, grays: set<int>) {
    (forall x :: x in grays ==> Seen(s.vs, x))
    && (forall i :: 0 <= i < |s.stack| ==> ReachesGray(g, s.vs, grays, s.stack[i]))
  }

  /** y reaches a vertex under exploration whose index is no larger than y's. */
  ghost predicate ReachesGray(g: Succ, vs: seq<TarjanVertex>, grays: set<int>, y: int) {
    exists x :: x in grays && Idx(vs, x) <= Idx(vs, y) && Reach(g, y, x)
  }

  /** Every stacked vertex reaches every vertex above it. */
  ghost predicate StackReach(g: Succ, s: St) {
    forall i, j :: 0 <= i <= j < |s.stack| ==> Reach(g, s.stack[i], s.stack[j])
  }

  /** Each emitted class is a whole strongly connected component. */
  ghost predicate SccsExact(g: Succ, s: St) {
    forall a, x, y :: 0 <= a < |s.sccs| && x in s.sccs[a] && 1 <= y < |g| ==>
      (y in s.sccs[a] <==> MutualReach(g, x, y))
  }

  /** An edge leaving class a ends in class a or an earlier one. */
  ghost predicate SccsTopo(g: Succ, s: St) {
    forall a, x, y :: 0 <= a < |s.sccs| && x in s.sccs[a] && Edge(g, x, y) ==> InClass(s.sccs, y, a + 1)
  }

  /** A visited vertex whose exploration is over has all its successors visited. */
  ghost predicate BlackDone(g: Succ, s: St, grays: set<int>) {
    forall x, y {:trigger Edge(g, x, y)} :: Seen(s.vs, x) && x !in grays && Edge(g, x, y) ==> Seen(s.vs, y)
  }

  ghost predicate Inv(g: Succ, s: St, grays: set<int>) {
    WellFormed(g) && RecordsOk(g, s) && StackOk(s) && SccsOk(s) && GraysOk(g, s, grays)
    && StackReach(g, s) && SccsExact(g, s) && SccsTopo(g, s) && BlackDone(g, s, grays)
  }

  /** From s0 to s1 no visited record changes, the counter does not go back
      and emitted classes stay. */
  ghost predicate Grows(s0: St, s1: St) {
    |s1.vs| == |s0.vs| && s0.counter <= s1.counter && s0.sccs <= s1.sccs
    && forall v :: 0 <= v < |s0.vs| && s0.vs[v].index != -1 ==> s1.vs[v] == s0.vs[v]
  }

  /** u's lowlink is the index of a vertex in `below` that u reaches. */
  ghost predicate LowWitness(g: Succ, vs: seq<TarjanVertex>, below: seq<int>, u: int) {
    exists w :: w in below && Idx(vs, w) == Low(vs, u) && Reach(g, u, w)
  }

  /** Every edge from stack positions `from` and above into `below` ends at
      an index no smaller than `low`. */
  ghost predicate XEdges(g: Succ, s: St, from: int, below: seq<int>, low: int) {
    0 <= from && forall i, d {:trigger Edge(g, s.stack[i], d)} :: from <= i < |s.stack| && Edge(g, s.stack[i], d) && d in below ==> low <= Idx(s.vs, d)
  }

  /** The shape of the state inside the edge loop of tarjan_dfs(u) after k
      edges, s0 being the state on entry: u sits on the stack just above the
      entry stack with the entry counter as index, and its first k successors
      are visited. */
  ghost predicate LoopShape(g: Succ, s0: St, cur: St, u: int, k: int) {
    Grows(s0, cur) && 0 <= s0.counter < cur.counter
    && 1 <= u < |g| && 0 <= k <= |g[u]| && Idx(s0.vs, u) == -1
    && |s0.stack| < |cur.stack| && cur.stack[..|s0.stack|] == s0.stack && cur.stack[|s0.stack|] == u
    && Idx(cur.vs, u) == s0.counter
    && (forall i :: 0 <= i < k ==> Seen(cur.vs, g[u][i]))
  }

  /** u's lowlink is its own index or the index of a vertex below u on the stack. */
  ghost predicate LowOk(g: Succ, below: seq<int>, vs: seq<TarjanVertex>, u: int) {
    Low(vs, u) == Idx(vs, u) || LowWitness(g, vs, below, u)
  }

  /** None of u's first k edges that ends in `below` ends under u's lowlink. */
  ghost predicate LowBelow(g: Succ, below: seq<int>, vs: seq<TarjanVertex>, u: int, k: int) {
    0 <= u < |g| && 0 <= k <= |g[u]|
    && forall i :: 0 <= i < k && g[u][i] in below ==> Low(vs, u) <= Idx(vs, g[u][i])
  }

  /** The invariant of the edge loop of tarjan_dfs(u) after k edges. */
  ghost predicate LoopInv(g: Succ, s0: St, cur: St, u: int, k: int, grays: set<int>) {
    Inv(g, cur, grays + {u}) && LoopShape(g, s0, cur, u, k) && LowOk(g, s0.stack, cur.vs, u)
    && XEdges(g, cur, |s0.stack| + 1, s0.stack, Low(cur.vs, u)) && LowBelow(g, s0.stack, cur.vs, u, k)
  }

  /** tarjan_dfs(u) visits u with the entry counter as index and keeps what
      was visited before. */
  ghost predicate PostShape(s0: St, s1: St, u: int) {
    Grows(s0, s1) && s0.counter < s1.counter && Idx(s1.vs, u) == s0.counter && s0.stack <= s1.stack
  }

  /** A root u leaves the stack as it found it, and its component is the last
      class, ending with u. */
  ghost predicate PostRoot(s0: St, s1: St, u: int) {
    Low(s1.vs, u) == Idx(s1.vs, u) ==>
      s1.stack == s0.stack && |s0.sccs| < |s1.sccs|
      && |s1.sccs[|s1.sccs| - 1]| >= 1 && s1.sccs[|s1.sccs| - 1][|s1.sccs[|s1.sccs| - 1]| - 1] == u
  }

  /** A non-root u stays on the stack just above the entry stack, its lowlink
      is the index of a vertex below it that it reaches, and no edge from its
      part of the stack into the entry stack ends under that lowlink. */
  ghost predicate PostNonRoot(g: Succ, s0: St, s1: St, u: int) {
    Low(s1.vs, u) != Idx(s1.vs, u) ==>
      |s0.stack| < |s1.stack| && s1.stack[|s0.stack|] == u && Low(s1.vs, u) < Idx(s1.vs, u)
      && LowWitness(g, s1.vs, s0.stack, u)
      && XEdges(g, s1, |s0.stack|, s0.stack, Low(s1.vs, u))
  }

  /** What tarjan_dfs(u) guarantees, from entry state s0 to exit state s1. */
  ghost predicate DfsPost(g: Succ, s0: St, s1: St, u: int, grays: set<int>) {
    Inv(g, s1, grays) && PostShape(s0, s1, u) && PostRoot(s0, s1, u) && PostNonRoot(g, s0, s1, u)
  }

  /** Lines 206-211: u gets the next index as index and lowlink and is pushed. */
  function Pushed(s: St, u: int): St
    requires 0 <= u < |s.vs|
  {
    St(s.vs[u := s.vs[u].(index := s.counter, lowlink := s.counter, onStack := true)], s.stack + [u], s.sccs, s.counter + 1)
  }

  /** Lines 219 and 222: u's lowlink drops to x when x is smaller. */
  function Lowered(s: St, u: int, x: int): St
    requires 0 <= u < |s.vs|
  {
    if x < s.vs[u].lowlink then s.(vs := s.vs[u := s.vs[u].(lowlink := x)]) else s
  }

  /** Lines 220-223: an edge to a visited vertex v lowers u's lowlink to v's
      index when v is on the stack. */
  function AfterVisited(s: St, u: int, v: int): St
    requires 0 <= u < |s.vs| && 0 <= v < |s.vs|
  {
    if s.vs[v].onStack then Lowered(s, u, s.vs[v].index) else s
  }

  function ClearOnStack(vs: seq<TarjanVertex>, seg: seq<int>): (r: seq<TarjanVertex>)
    ensures |r| == |vs|
    ensures forall v :: 0 <= v < |vs| ==> r[v] == if v in seg then vs[v].(onStack := false) else vs[v]
  {
    seq(|vs|, v requires 0 <= v < |vs| => if v in seg then vs[v].(onStack := false) else vs[v])
  }

  /** Lines 233-239: the stack above position pos is popped into a new class,
      top first. */
  function Popped(s: St, pos: int): St
    requires 0 <= pos <= |s.stack|
  {
    St(ClearOnStack(s.vs, s.stack[pos..]), s.stack[..pos], s.sccs + [Reverse(s.stack[pos..])], s.counter)
  }


  // ---------------------------------------------------------------------------
  // Stack facts
  // ---------------------------------------------------------------------------

  /** A stacked vertex lies below position pos exactly when its index is
      smaller than that of the vertex at pos. */
  lemma StackSplit(s: St, pos: int, y: int)
    requires StackOk(s) && 0 <= pos < |s.stack| && y in s.stack
    ensures y in s.stack[..pos] <==> Idx(s.vs, y) < Idx(s.vs, s.stack[pos])
    ensures y in s.stack[pos..] <==> Idx(s.vs, y) >= Idx(s.vs, s.stack[pos])
  {
    StackBelow(s, pos, y);
    StackAbove(s, pos, y);
  }

  lemma StackBelow(s: St, pos: int, y: int)
    requires StackOk(s) && 0 <= pos < |s.stack| && y in s.stack
    ensures y in s.stack[..pos] <==> Idx(s.vs, y) < Idx(s.vs, s.stack[pos])
  {
    var i :| 0 <= i < |s.stack| && s.stack[i] == y;
    if i < pos {
      assert s.stack[..pos][i] == y;
    }
    if y in s.stack[..pos] {
      var j :| 0 <= j < pos && s.stack[..pos][j] == y;
      assert s.stack[j] == y;
    }
  }

  lemma StackAbove(s: St, pos: int, y: int)
    requires StackOk(s) && 0 <= pos < |s.stack| && y in s.stack
    ensures y in s.stack[pos..] <==> Idx(s.vs, y) >= Idx(s.vs, s.stack[pos])
  {
    var i :| 0 <= i < |s.stack| && s.stack[i] == y;
    if i >= pos {
      assert s.stack[pos..][i - pos] == y;
    }
    if y in s.stack[pos..] {
      var j :| 0 <= j < |s.stack| - pos && s.stack[pos..][j] == y;
      assert s.stack[pos + j] == y;
    }
  }

  /** A vertex of the stack prefix s0.stack is on cur's stack and visited. */
  lemma BelowSeen(s0: St, cur: St, d: int)
    requires StackOk(cur) && |s0.stack| <= |cur.stack| && cur.stack[..|s0.stack|] == s0.stack && d in s0.stack
    ensures d in cur.stack && 1 <= d < |cur.vs| && cur.vs[d].index != -1
  {
    InPrefix(cur.stack, |s0.stack|, d);
  }

  // ---------------------------------------------------------------------------
  // Start of tarjan_run
  // ---------------------------------------------------------------------------

  /** Lines 5-20 and 246-252: nothing visited, an empty stack, no class. */
  lemma InitInv(g: Succ, vs: seq<TarjanVertex>)
    requires WellFormed(g) && |vs| == |g| && forall v :: 0 <= v < |vs| ==> vs[v] == Unvisited(v)
    ensures Inv(g, St(vs, [], [], 0), {})
  {
  }

  // ---------------------------------------------------------------------------
  // Visiting u
  // ---------------------------------------------------------------------------

  /** Lines 206-211 set up the loop invariant for u, which grays reach. */
  lemma PushStep(g: Succ, s0: St, grays: set<int>, u: int)
    requires Inv(g, s0, grays) && 1 <= u < |g| && !Seen(s0.vs, u)
    requires forall x :: x in grays ==> Reach(g, x, u)
    ensures LoopInv(g, s0, Pushed(s0, u), u, 0, grays)
  {
    PushRecords(g, s0, u);
    PushSccs(g, s0, grays, u);
    PushGrays(g, s0, grays, u);
    PushStackReach(g, s0, grays, u);
    PushShape(g, s0, u);
  }

  lemma PushShape(g: Succ, s0: St, u: int)
    requires RecordsOk(g, s0) && 1 <= u < |g| && !Seen(s0.vs, u)
    ensures LoopShape(g, s0, Pushed(s0, u), u, 0) && LowOk(g, s0.stack, Pushed(s0, u).vs, u)
    ensures XEdges(g, Pushed(s0, u), |s0.stack| + 1, s0.stack, Low(Pushed(s0, u).vs, u))
    ensures LowBelow(g, s0.stack, Pushed(s0, u).vs, u, 0)
  {
    var s1 := Pushed(s0, u);
    assert s1.stack[..|s0.stack|] == s0.stack;
  }

  lemma PushRecords(g: Succ, s0: St, u: int)
    requires RecordsOk(g, s0) && StackOk(s0) && 1 <= u < |g| && !Seen(s0.vs, u)
    ensures RecordsOk(g, Pushed(s0, u)) && StackOk(Pushed(s0, u))
  {
    var s1 := Pushed(s0, u);
    assert forall v :: v != u ==> Idx(s1.vs, v) == Idx(s0.vs, v);
    assert u !in s0.stack;
    forall i, j | 0 <= i < j < |s1.stack|
      ensures Idx(s1.vs, s1.stack[i]) < Idx(s1.vs, s1.stack[j])
    {
      if j == |s0.stack| {
        assert s1.stack[i] == s0.stack[i];
      }
    }
  }

  lemma PushSccs(g: Succ, s0: St, grays: set<int>, u: int)
    requires RecordsOk(g, s0) && StackOk(s0) && SccsOk(s0) && SccsExact(g, s0) && SccsTopo(g, s0)
    requires BlackDone(g, s0, grays) && 1 <= u < |g| && !Seen(s0.vs, u)
    ensures SccsOk(Pushed(s0, u)) && SccsExact(g, Pushed(s0, u)) && SccsTopo(g, Pushed(s0, u))
    ensures BlackDone(g, Pushed(s0, u), grays + {u})
  {
    var s1 := Pushed(s0, u);
    assert forall v :: v != u ==> Idx(s1.vs, v) == Idx(s0.vs, v);
    forall a, i | 0 <= a < |s1.sccs| && 0 <= i < |s1.sccs[a]|
      ensures s1.sccs[a][i] != u
    {
    }
  }

  lemma PushGrays(g: Succ, s0: St, grays: set<int>, u: int)
    requires RecordsOk(g, s0) && StackOk(s0) && GraysOk(g, s0, grays) && 1 <= u < |g| && !Seen(s0.vs, u)
    ensures GraysOk(g, Pushed(s0, u), grays + {u})
  {
    var s1 := Pushed(s0, u);
    var gr := grays + {u};
    forall i | 0 <= i < |s1.stack|
      ensures ReachesGray(g, s1.vs, gr, s1.stack[i])
    {
      if i == |s0.stack| {
        ReachRefl(g, u);
      } else {
        var y := s0.stack[i];
        var x :| x in grays && Idx(s0.vs, x) <= Idx(s0.vs, y) && Reach(g, y, x);
        assert x != u && Idx(s1.vs, x) == Idx(s0.vs, x) && Idx(s1.vs, y) == Idx(s0.vs, y);
      }
    }
  }

  lemma PushStackReach(g: Succ, s0: St, grays: set<int>, u: int)
    requires RecordsOk(g, s0) && StackOk(s0) && GraysOk(g, s0, grays) && StackReach(g, s0)
    requires 1 <= u < |g| && !Seen(s0.vs, u)
    requires forall x :: x in grays ==> Reach(g, x, u)
    ensures StackReach(g, Pushed(s0, u))
  {
    var s1 := Pushed(s0, u);
    forall i, j | 0 <= i <= j < |s1.stack|
      ensures Reach(g, s1.stack[i], s1.stack[j])
    {
      if j < |s0.stack| {
        assert s1.stack[i] == s0.stack[i] && s1.stack[j] == s0.stack[j];
      } else if i == j {
        ReachRefl(g, u);
      } else {
        var y := s0.stack[i];
        var x :| x in grays && Idx(s0.vs, x) <= Idx(s0.vs, y) && Reach(g, y, x);
        ReachTrans(g, y, x, u);
      }
    }
  }

  /** The vertices being explored when tarjan_dfs(v) is called from u all reach v. */
  lemma GraysReachChild(g: Succ, grays: set<int>, u: int, v: int)
    requires Edge(g, u, v) && forall x :: x in grays ==> Reach(g, x, u)
    ensures forall x :: x in grays + {u} ==> Reach(g, x, v)
  {
    forall x | x in grays + {u}
      ensures Reach(g, x, v)
    {
      ReachEdge(g, u, v);
      if x != u {
        ReachTrans(g, x, u, v);
      }
    }
  }

  // ---------------------------------------------------------------------------
  // Lowering a lowlink
  // ---------------------------------------------------------------------------

  lemma GrowsTrans(s0: St, s1: St, s2: St)
    requires Grows(s0, s1) && Grows(s1, s2)
    ensures Grows(s0, s2)
  {
  }

  /** Lowering the lowlink of a vertex unvisited in s0 keeps Grows from s0. */
  lemma GrowsLowered(s0: St, s1: St, u: int, x: int)
    requires Grows(s0, s1) && 0 <= u < |s0.vs| && s0.vs[u].index == -1
    ensures Grows(s0, Lowered(s1, u, x))
  {
    LoweredFacts(s1, u, x);
  }

  /** Lowering touches u's lowlink and nothing else. */
  lemma LoweredFacts(s: St, u: int, x: int)
    requires 0 <= u < |s.vs|
    ensures var s1 := Lowered(s, u, x);
      s1.stack == s.stack && s1.sccs == s.sccs && s1.counter == s.counter && |s1.vs| == |s.vs|
      && (forall v :: Idx(s1.vs, v) == Idx(s.vs, v))
      && (forall v :: 0 <= v < |s.vs| ==>
            (s1.vs[v].index == s.vs[v].index && s1.vs[v].onStack == s.vs[v].onStack && s1.vs[v].id == s.vs[v].id))
      && (forall v :: 0 <= v < |s.vs| && v != u ==> s1.vs[v] == s.vs[v])
      && Low(s1.vs, u) == if x < Low(s.vs, u) then x else Low(s.vs, u)
  {
  }

  /** Lowering the lowlink of a visited vertex to a non-negative value keeps
      the invariant. */
  lemma LowerInv(g: Succ, s: St, gr: set<int>, u: int, x: int)
    requires Inv(g, s, gr) && 0 <= u < |s.vs| && Seen(s.vs, u) && 0 <= x
    ensures Inv(g, Lowered(s, u, x), gr)
  {
    var s1 := Lowered(s, u, x);
    LoweredFacts(s, u, x);
    assert s1.stack == s.stack;
    assert RecordsOk(g, s1);
    assert StackOk(s1);
    assert SccsOk(s1);
    assert GraysOk(g, s1, gr) by {
      forall i | 0 <= i < |s1.stack|
        ensures ReachesGray(g, s1.vs, gr, s1.stack[i])
      {
        assert ReachesGray(g, s.vs, gr, s.stack[i]);
        var z :| z in gr && Idx(s.vs, z) <= Idx(s.vs, s.stack[i]) && Reach(g, s.stack[i], z);
        assert Idx(s1.vs, z) == Idx(s.vs, z);
      }
    }
    assert BlackDone(g, s1, gr);
  }

  // ---------------------------------------------------------------------------
  // Tree edge u -> v (lines 216-219)
  // ---------------------------------------------------------------------------

  /** v was unvisited, tarjan_dfs(v) ran, and u's lowlink takes v's when that
      is smaller. */
  lemma TreeEdgeStep(g: Succ, s0: St, cur: St, u: int, k: int, grays: set<int>, v: int, sv: St)
    requires LoopInv(g, s0, cur, u, k, grays) && k < |g[u]| && v == g[u][k] && !Seen(cur.vs, v)
    requires DfsPost(g, cur, sv, v, grays + {u})
    ensures 0 <= u < |sv.vs|
    ensures LoopInv(g, s0, Lowered(sv, u, Low(sv.vs, v)), u, k + 1, grays)
  {
    TreeEdgeBasics(g, s0, cur, u, k, v, sv);
    LowerInv(g, sv, grays + {u}, u, Low(sv.vs, v));
    TreeEdgeShape(g, s0, cur, u, k, v, sv);
    TreeEdgeWitness(g, s0, cur, u, k, v, sv);
    TreeEdgeXEdges(g, s0, cur, u, k, v, sv);
    TreeEdgeBelow(g, s0, cur, u, k, v, sv);
  }

  lemma TreeEdgeBasics(g: Succ, s0: St, cur: St, u: int, k: int, v: int, sv: St)
    requires RecordsOk(g, sv) && LoopShape(g, s0, cur, u, k) && PostShape(cur, sv, v)
    ensures 0 <= u < |sv.vs| && sv.vs[u] == cur.vs[u] && Seen(sv.vs, u)
    ensures Seen(sv.vs, v) && 0 <= Low(sv.vs, v)
  {
  }

  lemma TreeEdgeShape(g: Succ, s0: St, cur: St, u: int, k: int, v: int, sv: St)
    requires LoopShape(g, s0, cur, u, k) && PostShape(cur, sv, v) && k < |g[u]| && v == g[u][k]
    requires 0 <= u < |sv.vs| && Seen(sv.vs, v)
    ensures LoopShape(g, s0, Lowered(sv, u, Low(sv.vs, v)), u, k + 1)
  {
    var pos := |s0.stack|;
    var x := Low(sv.vs, v);
    var s2 := Lowered(sv, u, x);
    LoweredFacts(sv, u, x);
    GrowsTrans(s0, cur, sv);
    GrowsLowered(s0, sv, u, x);
    assert s2.stack[..pos] == s0.stack by {
      assert s2.stack[..pos] == cur.stack[..pos];
    }
    assert s2.stack[pos] == cur.stack[pos];
    forall i | 0 <= i < k + 1
      ensures Seen(s2.vs, g[u][i])
    {
      if i < k {
        assert Idx(sv.vs, g[u][i]) == Idx(cur.vs, g[u][i]);
      }
    }
  }

  lemma TreeEdgeWitness(g: Succ, s0: St, cur: St, u: int, k: int, v: int, sv: St)
    requires RecordsOk(g, cur) && StackOk(cur) && LoopShape(g, s0, cur, u, k) && LowOk(g, s0.stack, cur.vs, u)
    requires PostShape(cur, sv, v) && PostNonRoot(g, cur, sv, v) && Edge(g, u, v) && 0 <= u < |sv.vs|
    ensures LowOk(g, s0.stack, Lowered(sv, u, Low(sv.vs, v)).vs, u)
  {
    var pos := |s0.stack|;
    assert sv.vs[u] == cur.vs[u];
    var s2 := Lowered(sv, u, Low(sv.vs, v));
    LoweredFacts(sv, u, Low(sv.vs, v));
    if Low(sv.vs, v) < Low(sv.vs, u) {
      assert Low(sv.vs, v) != Idx(sv.vs, v);
      var w :| w in cur.stack && Idx(sv.vs, w) == Low(sv.vs, v) && Reach(g, v, w);
      StackSplit(cur, pos, w);
      assert Idx(cur.vs, w) == Idx(sv.vs, w);
      assert w in s0.stack;
      ReachStep(g, u, v, w);
      assert LowWitness(g, s2.vs, s0.stack, u);
    } else if Low(cur.vs, u) != Idx(cur.vs, u) {
      var w :| w in s0.stack && Idx(cur.vs, w) == Low(cur.vs, u) && Reach(g, u, w);
      BelowSeen(s0, cur, w);
      assert s2.vs[w] == cur.vs[w];
      assert LowWitness(g, s2.vs, s0.stack, u);
    }
  }

  lemma TreeEdgeXEdges(g: Succ, s0: St, cur: St, u: int, k: int, v: int, sv: St)
    requires RecordsOk(g, cur) && StackOk(cur) && LoopShape(g, s0, cur, u, k)
    requires XEdges(g, cur, |s0.stack| + 1, s0.stack, Low(cur.vs, u))
    requires PostShape(cur, sv, v) && PostRoot(cur, sv, v) && PostNonRoot(g, cur, sv, v) && 0 <= u < |sv.vs|
    ensures XEdges(g, Lowered(sv, u, Low(sv.vs, v)), |s0.stack| + 1, s0.stack, Low(Lowered(sv, u, Low(sv.vs, v)).vs, u))
  {
    var pos := |s0.stack|;
    assert sv.vs[u] == cur.vs[u];
    var s2 := Lowered(sv, u, Low(sv.vs, v));
    LoweredFacts(sv, u, Low(sv.vs, v));
    forall i, d | pos + 1 <= i < |s2.stack| && Edge(g, s2.stack[i], d) && d in s0.stack
      ensures Low(s2.vs, u) <= Idx(s2.vs, d)
    {
      BelowSeen(s0, cur, d);
      assert Idx(s2.vs, d) == Idx(cur.vs, d);
      if i < |cur.stack| {
        assert s2.stack[i] == cur.stack[i];
      } else {
        assert s2.stack[i] == sv.stack[i];
      }
    }
  }

  lemma TreeEdgeBelow(g: Succ, s0: St, cur: St, u: int, k: int, v: int, sv: St)
    requires StackOk(cur) && LoopShape(g, s0, cur, u, k) && LowBelow(g, s0.stack, cur.vs, u, k)
    requires k < |g[u]| && v == g[u][k] && !Seen(cur.vs, v) && PostShape(cur, sv, v) && 0 <= u < |sv.vs|
    ensures LowBelow(g, s0.stack, Lowered(sv, u, Low(sv.vs, v)).vs, u, k + 1)
  {
    assert sv.vs[u] == cur.vs[u];
    var s2 := Lowered(sv, u, Low(sv.vs, v));
    LoweredFacts(sv, u, Low(sv.vs, v));
    forall i | 0 <= i < k + 1 && g[u][i] in s0.stack
      ensures Low(s2.vs, u) <= Idx(s2.vs, g[u][i])
    {
      BelowSeen(s0, cur, g[u][i]);
      assert Idx(s2.vs, g[u][i]) == Idx(cur.vs, g[u][i]);
    }
  }

  // ---------------------------------------------------------------------------
  // Edge u -> v to a visited vertex (lines 220-223)
  // ---------------------------------------------------------------------------

  lemma VisitedEdgeStep(g: Succ, s0: St, cur: St, u: int, k: int, grays: set<int>, v: int)
    requires LoopInv(g, s0, cur, u, k, grays) && k < |g[u]| && v == g[u][k] && Seen(cur.vs, v)
    ensures 0 <= u < |cur.vs| && 0 <= v < |cur.vs|
    ensures LoopInv(g, s0, AfterVisited(cur, u, v), u, k + 1, grays)
  {
    if cur.vs[v].onStack {
      LowerInv(g, cur, grays + {u}, u, cur.vs[v].index);
    }
    VisitedEdgeShape(g, s0, cur, u, k, v);
    VisitedEdgeWitness(g, s0, cur, u, k, v);
    VisitedEdgeBounds(g, s0, cur, u, k, v);
  }

  lemma VisitedEdgeShape(g: Succ, s0: St, cur: St, u: int, k: int, v: int)
    requires LoopShape(g, s0, cur, u, k) && k < |g[u]| && v == g[u][k] && Seen(cur.vs, v)
    ensures 0 <= u < |cur.vs| && 0 <= v < |cur.vs|
    ensures LoopShape(g, s0, AfterVisited(cur, u, v), u, k + 1)
  {
    var s2 := AfterVisited(cur, u, v);
    if cur.vs[v].onStack {
      LoweredFacts(cur, u, cur.vs[v].index);
      GrowsLowered(s0, cur, u, cur.vs[v].index);
    }
    assert forall w :: Idx(s2.vs, w) == Idx(cur.vs, w);
  }

  lemma VisitedEdgeWitness(g: Succ, s0: St, cur: St, u: int, k: int, v: int)
    requires RecordsOk(g, cur) && StackOk(cur) && LoopShape(g, s0, cur, u, k) && LowOk(g, s0.stack, cur.vs, u)
    requires k < |g[u]| && v == g[u][k] && Seen(cur.vs, v)
    ensures 0 <= u < |cur.vs| && 0 <= v < |cur.vs|
    ensures LowOk(g, s0.stack, AfterVisited(cur, u, v).vs, u)
  {
    var pos := |s0.stack|;
    var s2 := AfterVisited(cur, u, v);
    if cur.vs[v].onStack && cur.vs[v].index < cur.vs[u].lowlink {
      LoweredFacts(cur, u, cur.vs[v].index);
      StackSplit(cur, pos, v);
      assert v in s0.stack;
      ReachEdge(g, u, v);
      assert LowWitness(g, s2.vs, s0.stack, u);
    } else {
      if cur.vs[v].onStack {
        LoweredFacts(cur, u, cur.vs[v].index);
      }
      assert forall w :: 0 <= w < |cur.vs| ==> s2.vs[w] == cur.vs[w];
    }
  }

  lemma VisitedEdgeBounds(g: Succ, s0: St, cur: St, u: int, k: int, v: int)
    requires StackOk(cur) && LoopShape(g, s0, cur, u, k)
    requires XEdges(g, cur, |s0.stack| + 1, s0.stack, Low(cur.vs, u)) && LowBelow(g, s0.stack, cur.vs, u, k)
    requires k < |g[u]| && v == g[u][k] && Seen(cur.vs, v)
    ensures 0 <= u < |cur.vs| && 0 <= v < |cur.vs|
    ensures XEdges(g, AfterVisited(cur, u, v), |s0.stack| + 1, s0.stack, Low(AfterVisited(cur, u, v).vs, u))
    ensures LowBelow(g, s0.stack, AfterVisited(cur, u, v).vs, u, k + 1)
  {
    var s2 := AfterVisited(cur, u, v);
    if cur.vs[v].onStack {
      LoweredFacts(cur, u, cur.vs[v].index);
    }
    assert s2.stack == cur.stack;
    assert forall w :: Idx(s2.vs, w) == Idx(cur.vs, w);
    assert Low(s2.vs, u) <= Low(cur.vs, u);
    assert v in s0.stack ==> Low(s2.vs, u) <= Idx(s2.vs, v) by {
      if v in s0.stack {
        BelowSeen(s0, cur, v);
      }
    }
  }

  // ---------------------------------------------------------------------------
  // Finishing a vertex whose lowlink fell below its index (line 227 false)
  // ---------------------------------------------------------------------------

  /** Nothing is popped; u's exploration is over and u stays on the stack. */
  lemma FinishNonRoot(g: Succ, s0: St, cur: St, u: int, grays: set<int>)
    requires RecordsOk(g, s0) && GraysOk(g, s0, grays) && 1 <= u < |g| && LoopInv(g, s0, cur, u, |g[u]|, grays)
    requires Low(cur.vs, u) != Idx(cur.vs, u)
    ensures DfsPost(g, s0, cur, u, grays)
  {
    NonRootGrayBelow(g, s0, cur, u, grays);
    NonRootGrays(g, cur, u, grays);
    NonRootBlack(g, s0, cur, u, grays);
    NonRootXEdges(g, s0, cur, u);
    assert s0.stack <= cur.stack;
  }

  /** A non-root u reaches, through its lowlink witness, a vertex under
      exploration that was visited before it. */
  ghost predicate GrayBelow(g: Succ, vs: seq<TarjanVertex>, grays: set<int>, u: int) {
    exists z :: z in grays && Idx(vs, z) < Idx(vs, u) && Reach(g, u, z)
  }

  lemma NonRootGrayBelow(g: Succ, s0: St, cur: St, u: int, grays: set<int>)
    requires RecordsOk(g, s0) && GraysOk(g, s0, grays) && RecordsOk(g, cur)
    requires 1 <= u < |g| && LoopShape(g, s0, cur, u, |g[u]|)
    requires LowWitness(g, cur.vs, s0.stack, u) && Low(cur.vs, u) != Idx(cur.vs, u)
    ensures GrayBelow(g, cur.vs, grays, u)
  {
    var w :| w in s0.stack && Idx(cur.vs, w) == Low(cur.vs, u) && Reach(g, u, w);
    var j :| 0 <= j < |s0.stack| && s0.stack[j] == w;
    assert ReachesGray(g, s0.vs, grays, s0.stack[j]);
    var z :| z in grays && Idx(s0.vs, z) <= Idx(s0.vs, w) && Reach(g, w, z);
    assert Seen(s0.vs, z) && Seen(s0.vs, w);
    ReachTrans(g, u, w, z);
    assert Idx(cur.vs, z) < Idx(cur.vs, u);
  }

  lemma NonRootGrays(g: Succ, cur: St, u: int, grays: set<int>)
    requires GraysOk(g, cur, grays + {u}) && GrayBelow(g, cur.vs, grays, u)
    ensures GraysOk(g, cur, grays)
  {
    var z :| z in grays && Idx(cur.vs, z) < Idx(cur.vs, u) && Reach(g, u, z);
    forall i | 0 <= i < |cur.stack|
      ensures ReachesGray(g, cur.vs, grays, cur.stack[i])
    {
      var x :| x in grays + {u} && Idx(cur.vs, x) <= Idx(cur.vs, cur.stack[i]) && Reach(g, cur.stack[i], x);
      if x == u {
        ReachTrans(g, cur.stack[i], u, z);
        assert z in grays && Idx(cur.vs, z) <= Idx(cur.vs, cur.stack[i]) && Reach(g, cur.stack[i], z);
      } else {
        assert x in grays;
      }
    }
  }

  lemma NonRootBlack(g: Succ, s0: St, cur: St, u: int, grays: set<int>)
    requires BlackDone(g, cur, grays + {u}) && 1 <= u < |g| && LoopShape(g, s0, cur, u, |g[u]|)
    ensures BlackDone(g, cur, grays)
  {
    forall x, y | Seen(cur.vs, x) && x !in grays && Edge(g, x, y)
      ensures Seen(cur.vs, y)
    {
      if x == u {
        var i :| 0 <= i < |g[u]| && g[u][i] == y;
      }
    }
  }

  lemma NonRootXEdges(g: Succ, s0: St, cur: St, u: int)
    requires 1 <= u < |g| && LoopShape(g, s0, cur, u, |g[u]|)
    requires XEdges(g, cur, |s0.stack| + 1, s0.stack, Low(cur.vs, u)) && LowBelow(g, s0.stack, cur.vs, u, |g[u]|)
    ensures XEdges(g, cur, |s0.stack|, s0.stack, Low(cur.vs, u))
  {
    forall i, d | |s0.stack| <= i < |cur.stack| && Edge(g, cur.stack[i], d) && d in s0.stack
      ensures Low(cur.vs, u) <= Idx(cur.vs, d)
    {
      if i == |s0.stack| {
        var j :| 0 <= j < |g[u]| && g[u][j] == d;
      }
    }
  }

  // ---------------------------------------------------------------------------
  // Finishing a root (lines 227-240): the stack above u is its component
  // ---------------------------------------------------------------------------

  /** u and every vertex stacked from position pos on reach each other. */
  ghost predicate SegMutual(g: Succ, cur: St, pos: int, u: int) {
    0 <= pos && forall i :: pos <= i < |cur.stack| ==> MutualReach(g, u, cur.stack[i])
  }

  /** Every edge from the stack segment from pos on stays in the segment or
      ends in an emitted class. */
  ghost predicate SegExits(g: Succ, cur: St, pos: int) {
    0 <= pos <= |cur.stack|
    && forall i, d {:trigger Edge(g, cur.stack[i], d)} :: pos <= i < |cur.stack| && Edge(g, cur.stack[i], d) ==>
         d in cur.stack[pos..] || InClass(cur.sccs, d, |cur.sccs|)
  }

  /** Every vertex in u's component is in the stack segment from pos on. */
  ghost predicate SegComplete(g: Succ, cur: St, pos: int, u: int) {
    0 <= pos <= |cur.stack|
    && forall z :: 1 <= z < |g| && MutualReach(g, u, z) ==> z in cur.stack[pos..]
  }

  /** Lines 227-240 for a root: the segment is popped as one class. */
  lemma FinishRoot(g: Succ, s0: St, cur: St, u: int, grays: set<int>)
    requires Inv(g, s0, grays) && 1 <= u < |g| && LoopInv(g, s0, cur, u, |g[u]|, grays)
    requires forall x :: x in grays ==> Reach(g, x, u)
    requires Low(cur.vs, u) == Idx(cur.vs, u)
    ensures |s0.stack| < |cur.stack|
    ensures DfsPost(g, s0, Popped(cur, |s0.stack|), u, grays)
  {
    var pos := |s0.stack|;
    RootMutual(g, s0, cur, u, grays);
    RootExits(g, s0, cur, u, grays);
    OldClassesApart(g, cur, u);
    RootComplete(g, cur, pos, u);
    PoppedRecords(g, cur, pos);
    PoppedSccs(g, cur, pos);
    PoppedGrays(g, s0, cur, grays);
    PoppedStackReach(g, cur, pos);
    PoppedExact(g, cur, pos, u);
    PoppedTopo(g, cur, pos);
    PoppedBlack(g, s0, cur, u, grays);
    PoppedPost(g, s0, cur, u);
  }

  lemma RootMutual(g: Succ, s0: St, cur: St, u: int, grays: set<int>)
    requires StackReach(g, cur) && GraysOk(g, cur, grays + {u})
    requires |s0.stack| < |cur.stack| && cur.stack[|s0.stack|] == u
    requires forall x :: x in grays ==> Reach(g, x, u)
    ensures SegMutual(g, cur, |s0.stack|, u)
  {
    forall i | |s0.stack| <= i < |cur.stack|
      ensures MutualReach(g, u, cur.stack[i])
    {
      var x :| x in grays + {u} && Idx(cur.vs, x) <= Idx(cur.vs, cur.stack[i]) && Reach(g, cur.stack[i], x);
      if x != u {
        ReachTrans(g, cur.stack[i], x, u);
      }
    }
  }

  lemma RootExits(g: Succ, s0: St, cur: St, u: int, grays: set<int>)
    requires RecordsOk(g, s0) && GraysOk(g, s0, grays)
    requires RecordsOk(g, cur) && StackOk(cur) && SccsOk(cur) && BlackDone(g, cur, grays + {u})
    requires 1 <= u < |g| && LoopShape(g, s0, cur, u, |g[u]|) && Low(cur.vs, u) == Idx(cur.vs, u)
    requires XEdges(g, cur, |s0.stack| + 1, s0.stack, Low(cur.vs, u)) && LowBelow(g, s0.stack, cur.vs, u, |g[u]|)
    ensures SegExits(g, cur, |s0.stack|)
  {
    forall i, d | |s0.stack| <= i < |cur.stack| && Edge(g, cur.stack[i], d)
      ensures d in cur.stack[|s0.stack|..] || InClass(cur.sccs, d, |cur.sccs|)
    {
      RootExit(g, s0, cur, u, grays, i, d);
    }
  }

  /** One edge leaving the segment: its source is u or a finished vertex, so
      its end is visited; an end on the stack below u would have lowered u's
      lowlink under its index. */
  lemma RootExit(g: Succ, s0: St, cur: St, u: int, grays: set<int>, i: int, d: int)
    requires RecordsOk(g, s0) && GraysOk(g, s0, grays)
    requires RecordsOk(g, cur) && StackOk(cur) && SccsOk(cur) && BlackDone(g, cur, grays + {u})
    requires 1 <= u < |g| && LoopShape(g, s0, cur, u, |g[u]|) && Low(cur.vs, u) == Idx(cur.vs, u)
    requires XEdges(g, cur, |s0.stack| + 1, s0.stack, Low(cur.vs, u)) && LowBelow(g, s0.stack, cur.vs, u, |g[u]|)
    requires |s0.stack| <= i < |cur.stack| && Edge(g, cur.stack[i], d)
    ensures d in cur.stack[|s0.stack|..] || InClass(cur.sccs, d, |cur.sccs|)
  {
    var pos := |s0.stack|;
    var x := cur.stack[i];
    forall z | z in grays
      ensures Idx(cur.vs, z) < Idx(cur.vs, u)
    {
      assert Seen(s0.vs, z);
    }
    assert Idx(cur.vs, u) <= Idx(cur.vs, x);
    if x == u {
      var j :| 0 <= j < |g[u]| && g[u][j] == d;
      assert Seen(cur.vs, g[u][j]);
      assert d in s0.stack ==> Low(cur.vs, u) <= Idx(cur.vs, d);
    } else {
      assert x !in grays + {u};
      assert Seen(cur.vs, d);
      assert d in s0.stack ==> Low(cur.vs, u) <= Idx(cur.vs, d);
    }
    if d in cur.stack {
      StackSplit(cur, pos, d);
    }
  }

  /** The segment is closed under u's component: a walk from u that returns
      to u cannot leave it, since the only exits lead into emitted classes,
      which hold no vertex of u's component. */
  lemma RootComplete(g: Succ, cur: St, pos: int, u: int)
    requires 0 <= pos < |cur.stack| && cur.stack[pos] == u
    requires SegMutual(g, cur, pos, u) && SegExits(g, cur, pos)
    requires forall d :: MutualReach(g, d, u) ==> !InClass(cur.sccs, d, |cur.sccs|)
    ensures SegComplete(g, cur, pos, u)
  {
    var seg := cur.stack[pos..];
    var S := set x | x in seg;
    forall c, d | c in S && Edge(g, c, d) && Reach(g, d, u)
      ensures d in S
    {
      var i :| 0 <= i < |seg| && seg[i] == c;
      assert cur.stack[pos + i] == c;
      ReachEdge(g, c, d);
      ReachTrans(g, u, c, d);
      assert MutualReach(g, d, u);
    }
    forall z | 1 <= z < |g| && MutualReach(g, u, z)
      ensures z in seg
    {
      assert seg[0] == u;
      ReturnStaysIn(g, S, u, z, u);
    }
  }

  /** No vertex of an emitted class is in the component of a stacked vertex:
      the whole component would be in that class, off the stack. */
  lemma OldClassesApart(g: Succ, cur: St, u: int)
    requires StackOk(cur) && SccsOk(cur) && SccsExact(g, cur) && u in cur.stack && 1 <= u < |g|
    ensures forall d :: MutualReach(g, d, u) ==> !InClass(cur.sccs, d, |cur.sccs|)
  {
    forall d, b | MutualReach(g, d, u) && 0 <= b < |cur.sccs| && d in cur.sccs[b]
      ensures u in cur.sccs[b]
    {
    }
  }

  /** Clearing on_stack flags keeps every index and lowlink. */
  lemma ClearKeepsIdx(vs: seq<TarjanVertex>, seg: seq<int>)
    ensures forall v :: Idx(ClearOnStack(vs, seg), v) == Idx(vs, v) && Low(ClearOnStack(vs, seg), v) == Low(vs, v)
  {
  }

  lemma PoppedRecords(g: Succ, cur: St, pos: int)
    requires RecordsOk(g, cur) && StackOk(cur) && 0 <= pos < |cur.stack|
    ensures RecordsOk(g, Popped(cur, pos)) && StackOk(Popped(cur, pos))
  {
    var s1 := Popped(cur, pos);
    ClearKeepsIdx(cur.vs, cur.stack[pos..]);
    forall v | 0 <= v < |s1.vs|
      ensures s1.vs[v].onStack <==> v in s1.stack
    {
      if v in cur.stack {
        StackSplit(cur, pos, v);
      }
    }
  }

  /** The new class is the segment read top first: its members are stacked
      vertices in decreasing index order. */
  lemma PoppedNewClass(cur: St, pos: int)
    requires StackOk(cur) && 0 <= pos < |cur.stack|
    ensures var c := Reverse(cur.stack[pos..]);
      |c| >= 1
      && (forall i :: 0 <= i < |c| ==> c[i] == cur.stack[|cur.stack| - 1 - i] && c[i] in cur.stack[pos..])
      && (forall i, j :: 0 <= i < j < |c| ==> Idx(cur.vs, c[i]) > Idx(cur.vs, c[j]))
      && (forall x :: x in c <==> x in cur.stack[pos..])
  {
    var seg := cur.stack[pos..];
    var c := Reverse(seg);
    forall i | 0 <= i < |c|
      ensures c[i] == cur.stack[|cur.stack| - 1 - i] && c[i] in seg
    {
      assert seg[|seg| - 1 - i] == cur.stack[pos + |seg| - 1 - i];
    }
    forall x
      ensures x in c <==> x in seg
    {
      ReverseMembers(seg, x);
    }
  }

  lemma PoppedSccs(g: Succ, cur: St, pos: int)
    requires StackOk(cur) && SccsOk(cur) && 0 <= pos < |cur.stack|
    ensures SccsOk(Popped(cur, pos))
  {
    PoppedMembers(cur, pos);
    PoppedDisjoint(cur, pos);
    PoppedCovered(cur, pos);
  }

  /** Classes stay non-empty lists of visited, unstacked vertices in
      decreasing index order. */
  lemma PoppedMembers(cur: St, pos: int)
    requires StackOk(cur) && SccsOk(cur) && 0 <= pos < |cur.stack|
    ensures var s1 := Popped(cur, pos);
      (forall a :: 0 <= a < |s1.sccs| ==> |s1.sccs[a]| >= 1)
      && (forall a, i :: 0 <= a < |s1.sccs| && 0 <= i < |s1.sccs[a]| ==>
            1 <= s1.sccs[a][i] < |s1.vs| && s1.vs[s1.sccs[a][i]].index != -1 && !s1.vs[s1.sccs[a][i]].onStack)
      && (forall a, i, j :: 0 <= a < |s1.sccs| && 0 <= i < j < |s1.sccs[a]| ==>
            Idx(s1.vs, s1.sccs[a][i]) > Idx(s1.vs, s1.sccs[a][j]))
  {
    var s1 := Popped(cur, pos);
    ClearKeepsIdx(cur.vs, cur.stack[pos..]);
    PoppedNewClass(cur, pos);
    forall a, i | 0 <= a < |s1.sccs| && 0 <= i < |s1.sccs[a]|
      ensures 1 <= s1.sccs[a][i] < |s1.vs| && s1.vs[s1.sccs[a][i]].index != -1 && !s1.vs[s1.sccs[a][i]].onStack
    {
      if a < |cur.sccs| {
        assert s1.sccs[a][i] == cur.sccs[a][i];
      }
    }
  }

  /** The new class shares no vertex with the earlier ones: those are off the stack. */
  lemma PoppedDisjoint(cur: St, pos: int)
    requires StackOk(cur) && SccsOk(cur) && 0 <= pos < |cur.stack|
    ensures var s1 := Popped(cur, pos);
      forall a, b, x :: 0 <= a < b < |s1.sccs| && x in s1.sccs[a] ==> x !in s1.sccs[b]
  {
    var s1 := Popped(cur, pos);
    var seg := cur.stack[pos..];
    PoppedNewClass(cur, pos);
    forall a, b, x | 0 <= a < b < |s1.sccs| && x in s1.sccs[a]
      ensures x !in s1.sccs[b]
    {
      assert s1.sccs[a] == cur.sccs[a];
      if b == |cur.sccs| {
        var i :| 0 <= i < |cur.sccs[a]| && cur.sccs[a][i] == x;
        assert x !in cur.stack;
      } else {
        assert s1.sccs[b] == cur.sccs[b];
      }
    }
  }

  /** A visited vertex is still on the stack or in some class. */
  lemma PoppedCovered(cur: St, pos: int)
    requires StackOk(cur) && SccsOk(cur) && 0 <= pos < |cur.stack|
    ensures var s1 := Popped(cur, pos);
      forall v :: 0 <= v < |s1.vs| && s1.vs[v].index != -1 ==> v in s1.stack || InClass(s1.sccs, v, |s1.sccs|)
  {
    var s1 := Popped(cur, pos);
    var seg := cur.stack[pos..];
    ClearKeepsIdx(cur.vs, seg);
    PoppedNewClass(cur, pos);
    forall v | 0 <= v < |s1.vs| && s1.vs[v].index != -1
      ensures v in s1.stack || InClass(s1.sccs, v, |s1.sccs|)
    {
      if v in cur.stack {
        StackSplit(cur, pos, v);
        if v in seg {
          assert v in s1.sccs[|cur.sccs|];
        }
      } else {
        var b :| 0 <= b < |cur.sccs| && v in cur.sccs[b];
        assert s1.sccs[b] == cur.sccs[b];
      }
    }
  }

  lemma PoppedGrays(g: Succ, s0: St, cur: St, grays: set<int>)
    requires RecordsOk(g, s0) && GraysOk(g, s0, grays) && Grows(s0, cur)
    requires |s0.stack| <= |cur.stack| && cur.stack[..|s0.stack|] == s0.stack
    ensures GraysOk(g, Popped(cur, |s0.stack|), grays)
  {
    var s1 := Popped(cur, |s0.stack|);
    ClearKeepsIdx(cur.vs, cur.stack[|s0.stack|..]);
    GraysTransfer(g, s0, s1, grays);
  }

  /** GraysOk only looks at the stack and at indices of visited vertices. */
  lemma GraysTransfer(g: Succ, s0: St, s1: St, grays: set<int>)
    requires RecordsOk(g, s0) && GraysOk(g, s0, grays) && s1.stack == s0.stack
    requires forall v :: Seen(s0.vs, v) ==> Idx(s1.vs, v) == Idx(s0.vs, v)
    ensures GraysOk(g, s1, grays)
  {
    forall i | 0 <= i < |s1.stack|
      ensures ReachesGray(g, s1.vs, grays, s1.stack[i])
    {
      var x :| x in grays && Idx(s0.vs, x) <= Idx(s0.vs, s0.stack[i]) && Reach(g, s0.stack[i], x);
      assert Seen(s0.vs, x) && Seen(s0.vs, s0.stack[i]);
    }
  }

  lemma PoppedStackReach(g: Succ, cur: St, pos: int)
    requires StackReach(g, cur) && 0 <= pos <= |cur.stack|
    ensures StackReach(g, Popped(cur, pos))
  {
    var s1 := Popped(cur, pos);
    forall i, j | 0 <= i <= j < |s1.stack|
      ensures Reach(g, s1.stack[i], s1.stack[j])
    {
      assert s1.stack[i] == cur.stack[i] && s1.stack[j] == cur.stack[j];
    }
  }

  lemma PoppedExact(g: Succ, cur: St, pos: int, u: int)
    requires SccsExact(g, cur) && 0 <= pos < |cur.stack|
    requires SegMutual(g, cur, pos, u) && SegComplete(g, cur, pos, u)
    ensures SccsExact(g, Popped(cur, pos))
  {
    var s1 := Popped(cur, pos);
    var seg := cur.stack[pos..];
    forall a, x, y | 0 <= a < |s1.sccs| && x in s1.sccs[a] && 1 <= y < |g|
      ensures y in s1.sccs[a] <==> MutualReach(g, x, y)
    {
      if a == |cur.sccs| {
        ReverseMembers(seg, x);
        ReverseMembers(seg, y);
        var i :| 0 <= i < |seg| && seg[i] == x;
        assert cur.stack[pos + i] == x;
        assert MutualReach(g, u, x);
        if y in seg {
          var j :| 0 <= j < |seg| && seg[j] == y;
          assert cur.stack[pos + j] == y;
          MutualReachTrans(g, x, u, y);
        }
        if MutualReach(g, x, y) {
          MutualReachTrans(g, u, x, y);
        }
      }
    }
  }

  lemma PoppedTopo(g: Succ, cur: St, pos: int)
    requires SccsTopo(g, cur) && SegExits(g, cur, pos) && 0 <= pos < |cur.stack|
    ensures SccsTopo(g, Popped(cur, pos))
  {
    var s1 := Popped(cur, pos);
    var seg := cur.stack[pos..];
    forall a, x, y | 0 <= a < |s1.sccs| && x in s1.sccs[a] && Edge(g, x, y)
      ensures InClass(s1.sccs, y, a + 1)
    {
      if a < |cur.sccs| {
        var b :| 0 <= b < a + 1 && b < |cur.sccs| && y in cur.sccs[b];
        assert s1.sccs[b] == cur.sccs[b];
      } else {
        ReverseMembers(seg, x);
        ReverseMembers(seg, y);
        var i :| 0 <= i < |seg| && seg[i] == x;
        assert cur.stack[pos + i] == x;
        if y in seg {
          assert y in s1.sccs[a];
        } else {
          var b :| 0 <= b < |cur.sccs| && b < |cur.sccs| && y in cur.sccs[b];
          assert s1.sccs[b] == cur.sccs[b];
        }
      }
    }
  }

  lemma PoppedBlack(g: Succ, s0: St, cur: St, u: int, grays: set<int>)
    requires BlackDone(g, cur, grays + {u}) && 1 <= u < |g| && LoopShape(g, s0, cur, u, |g[u]|)
    ensures BlackDone(g, Popped(cur, |s0.stack|), grays)
  {
    var s1 := Popped(cur, |s0.stack|);
    ClearKeepsIdx(cur.vs, cur.stack[|s0.stack|..]);
    forall x, y | Seen(s1.vs, x) && x !in grays && Edge(g, x, y)
      ensures Seen(s1.vs, y)
    {
      if x == u {
        var i :| 0 <= i < |g[u]| && g[u][i] == y;
        assert Seen(cur.vs, g[u][i]);
      } else {
        assert Seen(cur.vs, x);
      }
    }
  }

  lemma PoppedPost(g: Succ, s0: St, cur: St, u: int)
    requires RecordsOk(g, s0) && StackOk(cur) && 1 <= u < |g| && LoopShape(g, s0, cur, u, |g[u]|)
    requires Low(cur.vs, u) == Idx(cur.vs, u)
    ensures PostShape(s0, Popped(cur, |s0.stack|), u) && PostRoot(s0, Popped(cur, |s0.stack|), u)
    ensures PostNonRoot(g, s0, Popped(cur, |s0.stack|), u)
  {
    var pos := |s0.stack|;
    var s1 := Popped(cur, pos);
    var seg := cur.stack[pos..];
    ClearKeepsIdx(cur.vs, seg);
    forall v | 0 <= v < |s0.vs| && s0.vs[v].index != -1
      ensures v !in seg
    {
      if v in cur.stack {
        StackSplit(cur, pos, v);
      }
    }
    assert s1.stack == s0.stack;
    assert seg[0] == u;
  }

  // ---------------------------------------------------------------------------
  // tarjan_run
  // ---------------------------------------------------------------------------

  /** The vertices not visited yet; each recursive call of tarjan_dfs is made
      with fewer of them. */
  ghost function Unseen(vs: seq<TarjanVertex>): set<int> {
    set v | 0 <= v < |vs| && vs[v].index == -1
  }

  lemma UnseenShrinks(s0: St, s1: St, u: int)
    requires Grows(s0, s1) && 0 <= u < |s0.vs| && s0.vs[u].index == -1 && s1.vs[u].index != -1
    ensures Unseen(s1.vs) < Unseen(s0.vs)
  {
    assert u in Unseen(s0.vs);
  }

  /** Lines 255-259: tarjan_dfs is started on an empty stack with nothing
      under exploration, so u is a root and the stack ends empty again. */
  lemma TopLevelRoot(g: Succ, s0: St, s1: St, u: int)
    requires DfsPost(g, s0, s1, u, {}) && s0.stack == []
    ensures Inv(g, s1, {}) && s1.stack == [] && Grows(s0, s1)
  {
  }

  /** Once every vertex is visited and the stack is empty, the classes
      partition 1..n into the strongly connected components, in reverse
      topological order. */
  lemma FinalPartition(g: Succ, s: St)
    requires Inv(g, s, {}) && s.stack == [] && forall v :: 1 <= v < |g| ==> Seen(s.vs, v)
    ensures IsPartition(s.sccs, |g| - 1) && AreComponents(g, s.sccs) && ReverseTopological(g, s.sccs)
  {
    FinalCovers(g, s);
    FinalDisjoint(g, s);
    FinalTopological(g, s);
  }

  /** At the end every vertex is in some class. */
  lemma FinalCovers(g: Succ, s: St)
    requires Inv(g, s, {}) && s.stack == [] && forall v :: 1 <= v < |g| ==> Seen(s.vs, v)
    ensures forall v :: 1 <= v <= |g| - 1 ==> InSome(s.sccs, v)
  {
    forall v | 1 <= v <= |g| - 1
      ensures InSome(s.sccs, v)
    {
      assert Seen(s.vs, v);
    }
  }

  /** At the end no vertex occurs twice among the classes. */
  lemma FinalDisjoint(g: Succ, s: St)
    requires Inv(g, s, {})
    ensures forall a, b, i, j ::
      (0 <= a < |s.sccs| && 0 <= b < |s.sccs| && 0 <= i < |s.sccs[a]| && 0 <= j < |s.sccs[b]| && (a != b || i != j))
      ==> s.sccs[a][i] != s.sccs[b][j]
  {
    var cs := s.sccs;
    forall a, b, i, j | 0 <= a < |cs| && 0 <= b < |cs| && 0 <= i < |cs[a]| && 0 <= j < |cs[b]| && (a != b || i != j)
      ensures cs[a][i] != cs[b][j]
    {
      if a < b {
        assert cs[a][i] in cs[a];
      } else if b < a {
        assert cs[b][j] in cs[b];
      }
    }
  }

  /** At the end an edge leaving a class ends in the same or an earlier class. */
  lemma FinalTopological(g: Succ, s: St)
    requires Inv(g, s, {}) && s.stack == []
    ensures ReverseTopological(g, s.sccs)
  {
    var cs := s.sccs;
    forall a, x, y | 0 <= a < |cs| && x in cs[a] && Edge(g, x, y)
      ensures exists b :: 0 <= b <= a && y in cs[b]
    {
      assert InClass(cs, y, a + 1);
    }
  }
}
