/** removeTransitiveLinks of hasse.c: a link A -> C is dropped when links
    A -> B and B -> C sit at two different positions of the array (one of them
    may be the link itself, when A == B or B == C). All marks are taken on the array as
    it was on entry, then the survivors are moved down in order. */
module Hasse {
  import opened Links

  /** Links i and j (two different positions of s) form a path of two hops
      from the source of l to its destination: the test of lines 28-41. */
  ghost predicate TwoHop(s: seq<Link>, l: Link, i: int, j: int)
    requires 0 <= i < |s| && 0 <= j < |s|
  {
    i != j && s[i].to == s[j].from && l.from == s[i].from && l.to == s[j].to
  }

  /** Some pair of links of s is a two-hop path for l. */
  ghost predicate HasTwoHop(s: seq<Link>, l: Link) {
    exists i, j :: 0 <= i < |s| && 0 <= j < |s| && TwoHop(s, l, i, j)
  }

  /** Some pair (i', j') that the triple loop meets before (i, j) is a
      two-hop path for l. */
  ghost predicate HopBefore(s: seq<Link>, l: Link, i: int, j: int) {
    exists i', j' :: 0 <= i' < |s| && 0 <= j' < |s| && (i' < i || (i' == i && j' < j)) && TwoHop(s, l, i', j')
  }

  /** The links among the first k of s that have no two-hop path in s, in order. */
  ghost function Survivors(s: seq<Link>, k: nat): seq<Link>
    requires k <= |s|
  {
    if k == 0 then []
    else Survivors(s, k - 1) + (if HasTwoHop(s, s[k - 1]) then [] else [s[k - 1]])
  }

  /** What removeTransitiveLinks leaves of the links s. */
  ghost function Reduce(s: seq<Link>): seq<Link> {
    if |s| <= 2 then s else Survivors(s, |s|)
  }

  // ---------------------------------------------------------------------------
  // The in-place operation
  // ---------------------------------------------------------------------------

  /** removeTransitiveLinks: nothing happens to a missing array or to one of
      at most two links. Otherwise the links in use become Reduce of what
      they were; the buffer stays the same object, and its cells from the new
      size on are left as they were. */
  method RemoveTransitiveLinks(L: LinkArray?)
    requires L != null ==> L.Valid()
    modifies if L == null then {} else {L, L.data}
    ensures L != null ==> L.Valid() && L.data == old(L.data)
    ensures L != null ==> L.Contents() == Reduce(old(L.Contents()))
    ensures L != null ==> L.data[L.size..] == old(L.data[..])[L.size..]
    ensures L != null && old(L.size) <= 2 ==> L.size == old(L.size) && L.data[..] == old(L.data[..])
  {
    if L == null || L.size <= 2 {
      return;
    }
    var toRemove := MarkTransitive(L);
    Compact(L, toRemove);
  }

  /** Lines 47-55: the links whose marker is clear are moved down, in
      order, and the size becomes their number. */
  method Compact(L: LinkArray, toRemove: array<bool>)
    requires L.Valid() && toRemove.Length == L.size
    requires forall k :: 0 <= k < L.size ==> (toRemove[k] <==> HasTwoHop(L.Contents(), L.Contents()[k]))
    modifies L, L.data
    ensures L.Valid() && L.data == old(L.data)
    ensures L.Contents() == Survivors(old(L.Contents()), old(L.size))
    ensures L.data[L.size..] == old(L.data[..])[L.size..]
  {
    var n := L.size;
    ghost var s := L.data[..n];
    ghost var marks := toRemove[..];
    var w := 0;
    var i := 0;
    while i < n
      invariant 0 <= w <= i <= n
      invariant L.size == n
      invariant L.data == old(L.data)
      invariant n <= L.data.Length
      invariant L.data[..w] == Unmarked(s, marks, i)
      invariant forall p :: w <= p < L.data.Length ==> L.data[p] == old(L.data[p])
    {
      assert L.data[i] == s[i];
      if !toRemove[i] {
        L.data[w] := L.data[i];
        assert L.data[..w + 1] == L.data[..w] + [s[i]];
        w := w + 1;
      }
      i := i + 1;
    }
    L.size := w;
    UnmarkedSurvivors(s, marks, n);
    assert L.data[w..] == old(L.data[..])[w..];
  }

  /** The links among the first k of s whose marker is clear, in order. */
  ghost function Unmarked(s: seq<Link>, marks: seq<bool>, k: nat): seq<Link>
    requires k <= |s| && k <= |marks|
  {
    if k == 0 then []
    else Unmarked(s, marks, k - 1) + (if marks[k - 1] then [] else [s[k - 1]])
  }

  /** With a marker set exactly on the links that have a two-hop path, the
      unmarked links are the survivors. */
  lemma {:induction false} UnmarkedSurvivors(s: seq<Link>, marks: seq<bool>, k: nat)
    requires k <= |s| && k <= |marks|
    requires forall p :: 0 <= p < k ==> (marks[p] <==> HasTwoHop(s, s[p]))
    ensures Unmarked(s, marks, k) == Survivors(s, k)
  {
    if k > 0 {
      UnmarkedSurvivors(s, marks, k - 1);
    }
  }

  /** Lines 16-45: the marker of each link in use is set exactly when two
      links in use at different positions (possibly including itself) form a
      two-hop path for it. */
  method MarkTransitive(L: LinkArray) returns (toRemove: array<bool>)
    requires L.Valid()
    ensures fresh(toRemove) && toRemove.Length == L.size
    ensures forall k :: 0 <= k < L.size ==> (toRemove[k] <==> HasTwoHop(L.Contents(), L.Contents()[k]))
  {
    var n := L.size;
    ghost var s := L.data[..n];
    toRemove := new bool[n];
    var z := 0;
    while z < n
      invariant 0 <= z <= n
      invariant forall k :: 0 <= k < z ==> !toRemove[k]
    {
      toRemove[z] := false;
      z := z + 1;
    }
    var i := 0;
    while i < n
      invariant 0 <= i <= n
      invariant forall k :: 0 <= k < n ==> (toRemove[k] <==> HopBefore(s, s[k], i, 0))
    {
      var j := 0;
      while j < n
        invariant 0 <= j <= n
        invariant forall k :: 0 <= k < n ==> (toRemove[k] <==> HopBefore(s, s[k], i, j))
      {
        if i != j && L.data[i].to == L.data[j].from {
          var inter := L.data[j].to;
          var k := 0;
          while k < n
            invariant 0 <= k <= n
            invariant forall q :: 0 <= q < n ==>
              (toRemove[q] <==> HopBefore(s, s[q], i, j) || (q < k && TwoHop(s, s[q], i, j)))
          {
            if L.data[k].from == L.data[i].from && L.data[k].to == inter {
              toRemove[k] := true;
            }
            k := k + 1;
          }
        }
        HopBeforeNextPair(s, i, j);
        j := j + 1;
      }
      HopBeforeNextRow(s, i);
      i := i + 1;
    }
    HopBeforeAll(s);
  }

  lemma HopBeforeNextPair(s: seq<Link>, i: int, j: int)
    requires 0 <= i < |s| && 0 <= j < |s|
    ensures forall l :: HopBefore(s, l, i, j + 1) <==> HopBefore(s, l, i, j) || TwoHop(s, l, i, j)
  {
  }

  lemma HopBeforeNextRow(s: seq<Link>, i: int)
    requires 0 <= i < |s|
    ensures forall l :: HopBefore(s, l, i, |s|) <==> HopBefore(s, l, i + 1, 0)
  {
  }

  lemma HopBeforeAll(s: seq<Link>)
    ensures forall l :: HopBefore(s, l, |s|, 0) <==> HasTwoHop(s, l)
  {
  }

  // ---------------------------------------------------------------------------
  // What the reduction keeps
  // ---------------------------------------------------------------------------

  /** The positions among the first k of s whose link has no two-hop path, ascending. */
  ghost function KeptAt(s: seq<Link>, k: nat): seq<int>
    requires k <= |s|
  {
    if k == 0 then []
    else KeptAt(s, k - 1) + (if HasTwoHop(s, s[k - 1]) then [] else [k - 1])
  }

  /** The kept positions lie below k and ascend strictly. */
  lemma {:induction false} KeptAtFacts(s: seq<Link>, k: nat)
    requires k <= |s|
    ensures |KeptAt(s, k)| <= k
    ensures forall t :: 0 <= t < |KeptAt(s, k)| ==> 0 <= KeptAt(s, k)[t] < k
    ensures forall t1, t2 :: 0 <= t1 < t2 < |KeptAt(s, k)| ==> KeptAt(s, k)[t1] < KeptAt(s, k)[t2]
  {
    if k > 0 {
      KeptAtFacts(s, k - 1);
      var idx0 := KeptAt(s, k - 1);
      assert KeptAt(s, k) == idx0 + (if HasTwoHop(s, s[k - 1]) then [] else [k - 1]);
    }
  }

  /** The survivors are the links of s at the kept positions. */
  lemma {:induction false} SurvivorsAt(s: seq<Link>, k: nat)
    requires k <= |s|
    ensures |Survivors(s, k)| == |KeptAt(s, k)|
    ensures forall t :: 0 <= t < |KeptAt(s, k)| ==> 0 <= KeptAt(s, k)[t] < |s| && Survivors(s, k)[t] == s[KeptAt(s, k)[t]]
  {
    KeptAtFacts(s, k);
    if k > 0 {
      SurvivorsAt(s, k - 1);
      KeptAtFacts(s, k - 1);
    }
  }

  /** A link survives exactly when it is in the input and no two links at
      different positions of the input form a two-hop path for it. */
  lemma {:induction false} SurvivorsMembership(s: seq<Link>, k: nat, l: Link)
    requires k <= |s|
    ensures l in Survivors(s, k) <==> l in s[..k] && !HasTwoHop(s, l)
  {
    if k > 0 {
      SurvivorsMembership(s, k - 1, l);
      assert s[..k] == s[..k - 1] + [s[k - 1]];
    }
  }

  /** Removal is decided on the input array: with more than two links, a
      link is kept iff no two links at different positions of the input form a two-hop path
      for it; with at most two nothing is removed. */
  lemma ReduceMembership(s: seq<Link>, l: Link)
    ensures l in Reduce(s) <==> l in s && (|s| <= 2 || !HasTwoHop(s, l))
  {
    if |s| > 2 {
      SurvivorsMembership(s, |s|, l);
      assert s[..|s|] == s;
    }
  }

  /** The result is the input with some links left out: the survivors keep
      their relative order and there are never more of them. */
  lemma ReduceIsSubsequence(s: seq<Link>)
    ensures |Reduce(s)| <= |s|
    ensures exists idx: seq<int> ::
      (|idx| == |Reduce(s)|
       && (forall t :: 0 <= t < |idx| ==> 0 <= idx[t] < |s| && Reduce(s)[t] == s[idx[t]])
       && (forall t1, t2 :: 0 <= t1 < t2 < |idx| ==> idx[t1] < idx[t2]))
  {
    if |s| <= 2 {
      var idx := seq(|s|, t => t);
      assert forall t :: 0 <= t < |idx| ==> Reduce(s)[t] == s[idx[t]];
    } else {
      SurvivorsAt(s, |s|);
      KeptAtFacts(s, |s|);
      var idx := KeptAt(s, |s|);
      assert |idx| == |Reduce(s)|;
    }
  }

  /** No survivor has a two-hop path made of two survivors. */
  lemma SurvivorsHaveNoTwoHop(s: seq<Link>, l: Link)
    requires l in Survivors(s, |s|)
    ensures !HasTwoHop(Survivors(s, |s|), l)
  {
    var r := Survivors(s, |s|);
    var idx := KeptAt(s, |s|);
    SurvivorsAt(s, |s|);
    KeptAtFacts(s, |s|);
    SurvivorsMembership(s, |s|, l);
    if HasTwoHop(r, l) {
      var a, b :| 0 <= a < |r| && 0 <= b < |r| && TwoHop(r, l, a, b);
      assert a < b ==> idx[a] < idx[b];
      assert b < a ==> idx[b] < idx[a];
      assert TwoHop(s, l, idx[a], idx[b]);
    }
  }

  /** Links none of which has a two-hop path all survive. */
  lemma {:induction false} SurvivorsOfReduced(r: seq<Link>, k: nat)
    requires k <= |r| && forall p :: 0 <= p < |r| ==> !HasTwoHop(r, r[p])
    ensures Survivors(r, k) == r[..k]
  {
    if k > 0 {
      SurvivorsOfReduced(r, k - 1);
      assert r[..k] == r[..k - 1] + [r[k - 1]];
    }
  }

  /** Removing the transitive links a second time removes nothing more. */
  lemma ReduceIdempotent(s: seq<Link>)
    ensures Reduce(Reduce(s)) == Reduce(s)
  {
    var r := Reduce(s);
    if |s| > 2 && |r| > 2 {
      forall p | 0 <= p < |r|
        ensures !HasTwoHop(r, r[p])
      {
        SurvivorsHaveNoTwoHop(s, r[p]);
      }
      SurvivorsOfReduced(r, |r|);
      assert r[..|r|] == r;
    }
  }
}
