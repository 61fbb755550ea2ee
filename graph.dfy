/** The adjacency-list graph of graph.c: vertices 1..n, one linked list of
    (destination, probability) cells per vertex, new edges added at the head. */
module Graph {
  import Reachability
  import opened SeqUtil

  /** One list cell; make_cell builds it unlinked. Probabilities are kept as
      opaque reals: nothing here computes with them. */
  datatype Cell = Cell(dest: int, prob: real)

  /** A linked list, read from its head: the empty list is make_list(). */
  type List = seq<Cell>

  /** list_push_front: the new cell becomes the head and the old list follows it. */
  function PushFront(l: List, dest: int, prob: real): (r: List)
    ensures |r| == |l| + 1 && r[0] == Cell(dest, prob) && r[1..] == l
  {
    [Cell(dest, prob)] + l
  }

  /** The destinations of a list, in list order. */
  function Dests(l: List): (r: seq<int>)
    ensures |r| == |l| && forall i :: 0 <= i < |l| ==> r[i] == l[i].dest
  {
    if l == [] then [] else [l[0].dest] + Dests(l[1..])
  }

  lemma DestsMembership(l: List, v: int)
    ensures v in Dests(l) <==> exists i :: 0 <= i < |l| && l[i].dest == v
  {
    if v in Dests(l) {
      var i :| 0 <= i < |Dests(l)| && Dests(l)[i] == v;
      assert l[i].dest == v;
    }
  }

  /** The successor view of a whole adjacency array, one destination list per vertex. */
  function SuccessorsOf(lists: seq<List>): (g: Reachability.Succ)
    ensures |g| == |lists| && forall u :: 0 <= u < |lists| ==> g[u] == Dests(lists[u])
  {
    seq(|lists|, u requires 0 <= u < |lists| => Dests(lists[u]))
  }

  /** Every cell of every list points at a vertex 1..n. */
  ghost predicate CellsInRange(lists: seq<List>, n: int) {
    forall u, i :: 0 <= u < |lists| && 0 <= i < |lists[u]| ==> 1 <= lists[u][i].dest <= n
  }

  class AdjList {
    var n: int
    var arr: array?<List>

    /** The shape adj_create establishes and adj_add_edge keeps: lists 0..n,
        list 0 unused and every destination in 1..n. */
    ghost predicate Valid()
      reads this, arr
    {
      arr != null && n >= 0 && arr.Length == n + 1 && arr[0] == [] && CellsInRange(arr[..], n)
    }

    /** Successor lists in the order the lists store them. */
    ghost function Succ(): (g: Reachability.Succ)
      reads this, arr
      requires Valid()
      ensures |g| == n + 1 && Reachability.WellFormed(g)
    {
      var g := SuccessorsOf(arr[..]);
      assert forall u, v :: 0 <= u < |g| && v in g[u] ==> 1 <= v < |g| by {
        forall u, v | 0 <= u < |g| && v in g[u] ensures 1 <= v < |g| {
          DestsMembership(arr[u], v);
        }
      }
      g
    }

    /** adj_create: n vertices, lists 0..n all empty. */
    constructor (n0: int)
      requires n0 >= 0
      ensures Valid() && fresh(arr) && n == n0
      ensures forall u :: 0 <= u <= n ==> arr[u] == []
    {
      var a := new List[n0 + 1];
      var i := 0;
      while i <= n0
        invariant 0 <= i <= n0 + 1
        invariant forall u :: 0 <= u < i ==> a[u] == []
      {
        a[i] := [];
        i := i + 1;
      }
      n := n0;
      arr := a;
    }

    /** adj_add_edge: an edge with an end outside 1..n is refused (the C code
        stops the program; here ok is false and nothing changes); otherwise the
        cell (v, p) becomes the head of u's list and no other list changes. */
    method AddEdge(u: int, v: int, p: real) returns (ok: bool)
      requires Valid()
      modifies arr
      ensures Valid()
      ensures ok <==> 1 <= u <= n && 1 <= v <= n
      ensures ok ==> arr[..] == old(arr[..])[u := PushFront(old(arr[u]), v, p)]
      ensures !ok ==> arr[..] == old(arr[..])
    {
      if u < 1 || u > n || v < 1 || v > n {
        return false;
      }
      arr[u] := PushFront(arr[u], v, p);
      ok := true;
    }
  }

  /** adj_free: the lists are released and the graph is left with no vertices
      and no array; a graph whose array is already gone is left as it is. */
  method AdjFree(G: AdjList?)
    modifies G
    ensures G != null ==> G.arr == null
    ensures G != null ==> G.n == if old(G.arr) == null then old(G.n) else 0
  {
    if G == null || G.arr == null {
      return;
    }
    G.arr := null;
    G.n := 0;
  }

  /** One call of adj_add_edge, as data. */
  datatype EdgeInput = EdgeInput(u: int, v: int, p: real)

  /** The lists after a sequence of accepted adj_add_edge calls, in call order. */
  function AddAll(lists: seq<List>, es: seq<EdgeInput>): (r: seq<List>)
    requires forall k :: 0 <= k < |es| ==> 0 <= es[k].u < |lists|
    ensures |r| == |lists|
  {
    if es == [] then lists
    else
      var e := es[|es| - 1];
      var prev := AddAll(lists, es[..|es| - 1]);
      prev[e.u := PushFront(prev[e.u], e.v, e.p)]
  }

  /** The cells added to u's list, in call order. */
  function CellsFor(es: seq<EdgeInput>, u: int): seq<Cell> {
    if es == [] then []
    else
      var e := es[|es| - 1];
      CellsFor(es[..|es| - 1], u) + (if e.u == u then [Cell(e.v, e.p)] else [])
  }

  /** Because every edge goes in at the head, each list holds the cells added to
      it in reverse order of the calls, in front of what it held before. */
  lemma {:induction false} ListOrderIsReverseOfInsertion(lists: seq<List>, es: seq<EdgeInput>, u: int)
    requires forall k :: 0 <= k < |es| ==> 0 <= es[k].u < |lists|
    requires 0 <= u < |lists|
    ensures AddAll(lists, es)[u] == Reverse(CellsFor(es, u)) + lists[u]
  {
    if es != [] {
      var e := es[|es| - 1];
      var init := es[..|es| - 1];
      ListOrderIsReverseOfInsertion(lists, init, u);
      var c := CellsFor(init, u);
      if e.u == u {
        assert CellsFor(es, u) == c + [Cell(e.v, e.p)];
        ReverseSnoc(c, Cell(e.v, e.p));
      } else {
        assert CellsFor(es, u) == c;
      }
    }
  }
}
