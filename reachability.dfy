/** Directed reachability over successor lists.

    A graph is given as `g: seq<seq<int>>` where `g[u]` lists the destinations of
    the edges leaving `u`, in the order of u's adjacency list. Vertices are
    1..|g|-1; slot 0 mirrors the unused list 0 of the C adjacency array. */
module Reachability {

  type Succ = seq<seq<int>>

  /** Every destination names a vertex 1..n, with n == |g| - 1. */
  ghost predicate WellFormed(g: Succ) {
    |g| >= 1 && forall u, v :: 0 <= u < |g| && v in g[u] ==> 1 <= v < |g|
  }

  ghost predicate Edge(g: Succ, x: int, y: int) {
    0 <= x < |g| && y in g[x]
  }

  /** y can be reached from x by following exactly n edges. */
  ghost predicate ReachIn(g: Succ, x: int, y: int, n: nat)
    decreases n
  {
    if n == 0 then x == y else exists z :: Edge(g, x, z) && ReachIn(g, z, y, n - 1)
  }

  /** y can be reached from x by following zero or more edges. */
  ghost predicate Reach(g: Succ, x: int, y: int) {
    exists n: nat :: ReachIn(g, x, y, n)
  }

  ghost predicate MutualReach(g: Succ, x: int, y: int) {
    Reach(g, x, y) && Reach(g, y, x)
  }

  lemma ReachRefl(g: Succ, x: int)
    ensures Reach(g, x, x)
  {
    assert ReachIn(g, x, x, 0);
  }

  lemma ReachEdge(g: Succ, x: int, y: int)
    requires Edge(g, x, y)
    ensures Reach(g, x, y)
  {
    assert ReachIn(g, y, y, 0);
    assert ReachIn(g, x, y, 1);
  }

  lemma {:induction false} ReachInTrans(g: Succ, x: int, y: int, z: int, n: nat, m: nat)
    requires ReachIn(g, x, y, n) && ReachIn(g, y, z, m)
    ensures ReachIn(g, x, z, n + m)
    decreases n
  {
    if n > 0 {
      var w :| Edge(g, x, w) && ReachIn(g, w, y, n - 1);
      ReachInTrans(g, w, y, z, n - 1, m);
    }
  }

  /** Paths compose: the end of one path may start another. */
  lemma ReachTrans(g: Succ, x: int, y: int, z: int)
    requires Reach(g, x, y) && Reach(g, y, z)
    ensures Reach(g, x, z)
  {
    var n: nat :| ReachIn(g, x, y, n);
    var m: nat :| ReachIn(g, y, z, m);
    ReachInTrans(g, x, y, z, n, m);
  }

  lemma ReachStep(g: Succ, x: int, y: int, z: int)
    requires Edge(g, x, y) && Reach(g, y, z)
    ensures Reach(g, x, z)
  {
    ReachEdge(g, x, y);
    ReachTrans(g, x, y, z);
  }

  lemma MutualReachTrans(g: Succ, x: int, y: int, z: int)
    requires MutualReach(g, x, y) && MutualReach(g, y, z)
    ensures MutualReach(g, x, z)
  {
    ReachTrans(g, x, y, z);
    ReachTrans(g, z, y, x);
  }

  lemma {:induction false} EscapeIn(g: Succ, s: set<int>, x: int, y: int, n: nat)
    requires x in s && y !in s && ReachIn(g, x, y, n)
    ensures exists c, d :: c in s && d !in s && Edge(g, c, d) && Reach(g, d, y)
    decreases n
  {
    if n > 0 {
      var z :| Edge(g, x, z) && ReachIn(g, z, y, n - 1);
      if z in s {
        EscapeIn(g, s, z, y, n - 1);
      } else {
        assert Reach(g, z, y);
      }
    }
  }

  /** A path that starts inside a vertex set and ends outside it crosses an
      edge that leaves the set, and the rest of the path goes on from there. */
  lemma Escape(g: Succ, s: set<int>, x: int, y: int)
    requires x in s && y !in s && Reach(g, x, y)
    ensures exists c, d :: c in s && d !in s && Edge(g, c, d) && Reach(g, d, y)
  {
    var n: nat :| ReachIn(g, x, y, n);
    EscapeIn(g, s, x, y, n);
  }

  /** A vertex set that no edge leaves is closed under reachability. */
  lemma ClosedUnderReach(g: Succ, s: set<int>, x: int, y: int)
    requires forall c, d :: c in s && Edge(g, c, d) ==> d in s
    requires x in s && Reach(g, x, y)
    ensures y in s
  {
    if y !in s {
      Escape(g, s, x, y);
    }
  }

  /** A walk from inside s to y, where y goes on to reach t, stays inside s
      when every edge leaving a vertex of s towards a vertex that reaches t
      ends in s. */
  lemma {:induction false} ReturnStaysInN(g: Succ, s: set<int>, x: int, y: int, t: int, n: nat)
    requires forall c, d :: c in s && Edge(g, c, d) && Reach(g, d, t) ==> d in s
    requires x in s && ReachIn(g, x, y, n) && Reach(g, y, t)
    ensures y in s
    decreases n
  {
    if n > 0 {
      var z :| Edge(g, x, z) && ReachIn(g, z, y, n - 1);
      ReachTrans(g, z, y, t);
      ReturnStaysInN(g, s, z, y, t, n - 1);
    }
  }

  lemma ReturnStaysIn(g: Succ, s: set<int>, x: int, y: int, t: int)
    requires forall c, d :: c in s && Edge(g, c, d) && Reach(g, d, t) ==> d in s
    requires x in s && Reach(g, x, y) && Reach(g, y, t)
    ensures y in s
  {
    var n: nat :| ReachIn(g, x, y, n);
    ReturnStaysInN(g, s, x, y, t, n);
  }
}
