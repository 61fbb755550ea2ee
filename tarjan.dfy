/** tarjan_dfs and tarjan_run of tarjan.c over the mutable structures: the
    record array V, the stack S, the partition P and the index counter.
    Each method is proved to compute the matching function of TarjanSpec on
    the state the structures hold; TarjanSpec proves what those functions
    compute. */
module Tarjan {
  import opened Wrappers
  import opened SeqUtil
  import opened SccSpec
  import Graph
  import opened TarjanData
  import opened TarjanInvariant
  import opened TarjanSpec

  /** V, S, P and the counter hold the traversal state s. */
  ghost predicate Holds(V: array<TarjanVertex>, S: IntStack, P: TarjanPartition, index: int, s: St)
    reads V, S, P
  {
    V[..] == s.vs && S.data == s.stack && P.Classes() == s.sccs && index == s.counter
  }

  /** Lines 199-241: visits u, explores its edges in list order, and when u's
      lowlink is still its index pops the stack down to u into a new class
      named "C" followed by the class count. The structures end up holding
      Dfs(g, s0, u). */
  method TarjanDfs(u: int, G: Graph.AdjList, V: array<TarjanVertex>, S: IntStack, index: int,
                   P: TarjanPartition, ghost g: Reachability.Succ, ghost s0: St)
    returns (next: int)
    requires G.Valid() && g == G.Succ() && S.Valid() && P.Valid() && P.NamedInOrder()
    requires V.Length == G.n + 1 && 1 <= u <= G.n
    requires Holds(V, S, P, index, s0) && Ready(g, s0) && Idx(s0.vs, u) == -1
    modifies V, S, P
    decreases Unseen(s0.vs), 0
    ensures S.Valid() && P.Valid() && P.NamedInOrder() && old(P.classes) <= P.classes
    ensures Holds(V, S, P, next, Dfs(g, s0, u))
  {
    V[u] := V[u].(index := index, lowlink := index);
    next := index + 1;
    S.Push(u);
    V[u] := V[u].(onStack := true);
    ghost var p := Pushed(s0, u);
    assert Holds(V, S, P, next, p);
    PushedFacts(g, s0, u);

    next := ExploreEdges(u, G, V, S, next, P, g, p);
    ghost var c := Explore(g, p, u, 0);
    assert c.stack[|s0.stack|] == u;
    if V[u].lowlink == V[u].index {
      PopComponent(u, V, S, P, c);
    }
  }

  /** Lines 213-224: the edges of u in list order, from state p on. */
  method ExploreEdges(u: int, G: Graph.AdjList, V: array<TarjanVertex>, S: IntStack, index: int,
                      P: TarjanPartition, ghost g: Reachability.Succ, ghost p: St)
    returns (next: int)
    requires G.Valid() && g == G.Succ() && S.Valid() && P.Valid() && P.NamedInOrder()
    requires V.Length == G.n + 1 && 1 <= u <= G.n
    requires Holds(V, S, P, index, p) && Ready(g, p) && Seen(p.vs, u)
    modifies V, S, P
    decreases Unseen(p.vs), 2
    ensures S.Valid() && P.Valid() && P.NamedInOrder() && old(P.classes) <= P.classes
    ensures Holds(V, S, P, next, Explore(g, p, u, 0))
  {
    var l := G.arr[u];
    assert g[u] == Graph.Dests(l);
    var k := 0;
    next := index;
    ghost var cur := p;
    while k < |l|
      invariant 0 <= k <= |l|
      invariant S.Valid() && P.Valid() && P.NamedInOrder() && old(P.classes) <= P.classes
      invariant Holds(V, S, P, next, cur) && Ready(g, cur) && Seen(cur.vs, u)
      invariant Unseen(cur.vs) <= Unseen(p.vs)
      invariant Explore(g, cur, u, k) == Explore(g, p, u, 0)
    {
      var v := l[k].dest;
      assert v == g[u][k] && v in g[u];
      next := TarjanEdge(u, v, G, V, S, next, P, g, cur);
      ghost var after := Step(g, cur, u, v);
      StepKeeps(g, cur, u, v);
      assert Explore(g, cur, u, k) == Explore(g, after, u, k + 1);
      cur := after;
      k := k + 1;
    }
    assert Explore(g, cur, u, k) == cur;
  }

  /** Lines 214-223, one edge u -> v: an unvisited v is explored and u's
      lowlink drops to v's when that is smaller; a visited v still on the
      stack lowers u's lowlink to v's index when that is smaller. */
  method TarjanEdge(u: int, v: int, G: Graph.AdjList, V: array<TarjanVertex>, S: IntStack, index: int,
                    P: TarjanPartition, ghost g: Reachability.Succ, ghost cur: St)
    returns (next: int)
    requires G.Valid() && g == G.Succ() && S.Valid() && P.Valid() && P.NamedInOrder()
    requires V.Length == G.n + 1 && 1 <= u <= G.n && 1 <= v <= G.n
    requires Holds(V, S, P, index, cur) && Ready(g, cur) && Seen(cur.vs, u)
    modifies V, S, P
    decreases Unseen(cur.vs), 1
    ensures S.Valid() && P.Valid() && P.NamedInOrder() && old(P.classes) <= P.classes
    ensures Holds(V, S, P, next, Step(g, cur, u, v))
  {
    if V[v].index == -1 {
      next := TarjanDfs(v, G, V, S, index, P, g, cur);
      ghost var sv := Dfs(g, cur, v);
      if V[v].lowlink < V[u].lowlink {
        V[u] := V[u].(lowlink := V[v].lowlink);
      }
    } else {
      next := index;
      if V[v].onStack && V[v].index < V[u].lowlink {
        V[u] := V[u].(lowlink := V[v].index);
      }
    }
  }

  /** Lines 227-240: the stack is popped down to the topmost u into a new
      class named "C" followed by the class count, which then joins the
      partition. */
  method PopComponent(u: int, V: array<TarjanVertex>, S: IntStack, P: TarjanPartition, ghost cur: St)
    requires S.Valid() && P.Valid() && P.NamedInOrder()
    requires Holds(V, S, P, cur.counter, cur) && u in cur.stack
    requires forall i :: 0 <= i < |cur.stack| ==> 0 <= cur.stack[i] < |cur.vs|
    modifies V, S, P
    ensures S.Valid() && P.Valid() && P.NamedInOrder() && old(P.classes) <= P.classes
    ensures Holds(V, S, P, cur.counter, Popped(cur, LastIndex(cur.stack, u)))
  {
    ghost var pos := LastIndex(cur.stack, u);
    var name := ClassName(|P.classes| + 1);
    var C := new TarjanClass(Some(name));
    PopInto(u, V, S, C, cur.vs, cur.stack, pos);
    P.AddClass(C.Data());
    assert P.Classes() == cur.sccs + [Reverse(cur.stack[pos..])];
  }

  /** Lines 233-239: the vertices above position pos of the stack, and the
      one at pos, are popped, marked off the stack and added to class C in
      pop order. */
  method PopInto(u: int, V: array<TarjanVertex>, S: IntStack, C: TarjanClass,
                 ghost vs: seq<TarjanVertex>, ghost full: seq<int>, ghost pos: int)
    requires S.Valid() && S.data == full && V[..] == vs && C.Valid() && C.members == []
    requires 0 <= pos < |full| && full[pos] == u && forall j :: pos < j < |full| ==> full[j] != u
    requires forall i :: 0 <= i < |full| ==> 0 <= full[i] < |vs|
    modifies V, S, C
    ensures S.Valid() && C.Valid() && C.name == old(C.name)
    ensures S.data == full[..pos] && C.members == Reverse(full[pos..])
    ensures V[..] == ClearOnStack(vs, full[pos..])
  {
    var empty := S.Empty();
    ghost var t := |full|;
    while !empty
      invariant pos < t <= |full| && S.Valid() && S.data == full[..t] && !empty
      invariant C.Valid() && C.members == Reverse(full[t..]) && C.name == old(C.name)
      invariant V[..] == ClearOnStack(vs, full[t..])
      decreases t
    {
      var r := S.Pop();
      var w := r.value;
      ClearOneMore(vs, full, t - 1);
      ghost var before := V[..];
      V[w] := V[w].(onStack := false);
      assert V[..] == before[w := before[w].(onStack := false)];
      C.AddMember(w);
      ReverseCons(w, full[t..]);
      t := t - 1;
      if w == u {
        break;
      }
      empty := S.Empty();
    }
  }

  /** What the edge loop needs to know of a state after one more edge. */
  lemma StepKeeps(g: Reachability.Succ, cur: St, u: int, v: int)
    requires Ready(g, cur) && 1 <= u < |g| && 1 <= v < |g| && Seen(cur.vs, u)
    ensures Ready(g, Step(g, cur, u, v)) && Seen(Step(g, cur, u, v).vs, u)
    ensures Unseen(Step(g, cur, u, v).vs) <= Unseen(cur.vs)
  {
    UnseenKept(g, cur, Step(g, cur, u, v), u);
  }

  /** Clearing one more flag at the bottom of the popped segment. */
  lemma ClearOneMore(vs: seq<TarjanVertex>, full: seq<int>, t: int)
    requires 0 <= t < |full| && 0 <= full[t] < |vs|
    ensures full[t..] == [full[t]] + full[t + 1..]
    ensures ClearOnStack(vs, full[t..])
         == ClearOnStack(vs, full[t + 1..])[full[t] := ClearOnStack(vs, full[t + 1..])[full[t]].(onStack := false)]
  {
    assert full[t..] == [full[t]] + full[t + 1..];
  }

  /** Lines 244-263: every vertex 1..n not yet visited starts a traversal.
      The classes are those of Run(g): they partition 1..n into the strongly
      connected components, in reverse topological order, named C1, C2, ...
      in order. A missing or empty graph gives no class. */
  method TarjanRun(G: Graph.AdjList?) returns (P: TarjanPartition)
    requires G != null && G.n > 0 ==> G.Valid()
    ensures fresh(P) && P.Valid() && P.NamedInOrder()
    ensures G == null || G.n <= 0 ==> P.classes == []
    ensures G != null && G.n > 0 ==> P.Classes() == Run(G.Succ()).sccs
    ensures G != null && G.n > 0 ==>
      IsPartition(P.Classes(), G.n) && AreComponents(G.Succ(), P.Classes()) && ReverseTopological(G.Succ(), P.Classes())
  {
    P := new TarjanPartition();
    if G == null || G.n <= 0 {
      return;
    }
    var V := InitVertices(G);
    var S := new IntStack(G.n);
    var index := 0;
    ghost var g := G.Succ();
    ghost var cur := St(InitialRecords(|g|), [], [], 0);
    assert V[..] == cur.vs;
    var u := 1;
    while u <= G.n
      invariant 1 <= u <= G.n + 1 && V.Length == G.n + 1
      invariant fresh(V) && fresh(S) && fresh(P)
      invariant S.Valid() && P.Valid() && P.NamedInOrder()
      invariant Holds(V, S, P, index, cur) && Ready(g, cur)
      invariant RunFrom(g, cur, u) == Run(g)
    {
      ghost var after := RunNext(g, cur, u);
      if V[u].index == -1 {
        index := TarjanDfs(u, G, V, S, index, P, g, cur);
      }
      cur := after;
      u := u + 1;
    }
    assert RunFrom(g, cur, u) == cur;
    RunCorrect(g);
  }
}
