/** The bookkeeping structures of tarjan.c: the per-vertex traversal records,
    the integer stack, a class (one strongly connected component) and the
    partition that collects the classes. The growable C arrays are sequences
    reassigned in place; the capacity each of them keeps is tracked with the
    source's growth rule, and only `capacity >= size` is relied upon. */
module TarjanData {
  import opened Wrappers
  import Graph

  /** Traversal record of one vertex: its discovery index and lowlink, -1
      while unvisited, and whether it is on the traversal stack. */
  datatype TarjanVertex = TarjanVertex(id: int, index: int, lowlink: int, onStack: bool)

  /** The record of vertex v before the traversal reaches it. */
  function Unvisited(v: int): TarjanVertex {
    TarjanVertex(v, -1, -1, false)
  }

  /** tarjan_init_vertices: no array for a missing or empty graph; otherwise
      records 0..n, each unvisited and off the stack. */
  method InitVertices(G: Graph.AdjList?) returns (V: array?<TarjanVertex>)
    ensures V == null <==> G == null || G.n <= 0
    ensures V != null ==> fresh(V) && V.Length == G.n + 1
    ensures V != null ==> forall i :: 0 <= i < V.Length ==> V[i] == Unvisited(i)
  {
    if G == null || G.n <= 0 {
      return null;
    }
    V := new TarjanVertex[G.n + 1];
    var i := 0;
    while i <= G.n
      invariant 0 <= i <= G.n + 1 == V.Length
      invariant forall k :: 0 <= k < i ==> V[k] == Unvisited(k)
    {
      V[i] := TarjanVertex(i, -1, -1, false);
      i := i + 1;
    }
  }

  /** The capacity after one growth step of the stack or of a class: at least 4, then doubling. */
  function Grown(capacity: int): (r: int)
    ensures r > capacity && r >= 4
  {
    if capacity < 4 then 4 else capacity * 2
  }

  /** A string cut to at most k characters, as strncpy/snprintf into a fixed buffer do. */
  function Truncate(s: string, k: nat): (r: string)
    ensures |r| <= k && r <= s
    ensures |s| <= k ==> r == s
    ensures |s| > k ==> |r| == k
  {
    if |s| <= k then s else s[..k]
  }

  /** The character of the decimal digit d. */
  function DigitChar(d: int): (c: char)
    requires 0 <= d < 10
    ensures '0' <= c <= '9'
  {
    "0123456789"[d]
  }

  /** The decimal digits of k, most significant first, as "%d" prints them. */
  function Decimal(k: nat): (r: string)
    ensures 1 <= |r| && forall i :: 0 <= i < |r| ==> '0' <= r[i] <= '9'
    decreases k
  {
    if k < 10 then [DigitChar(k)] else Decimal(k / 10) + [DigitChar(k % 10)]
  }

  /** The name snprintf gives the k-th class: "C" and k in decimal, cut to the
      7 characters that fit in the 8-byte name buffer. */
  function ClassName(k: nat): (r: string)
    ensures 2 <= |r| <= 7 && r[0] == 'C'
    ensures forall i :: 1 <= i < |r| ==> '0' <= r[i] <= '9'
  {
    Truncate("C" + Decimal(k), 7)
  }

  /** Up to 999999 classes the name is not cut: class k is "C" followed by k. */
  lemma ClassNameUncut(k: nat)
    requires k < 1000000
    ensures ClassName(k) == "C" + Decimal(k)
  {
    assert Pow10(6) == 1000000;
    DecimalLengthBelow(k, 6);
  }

  function Pow10(d: nat): nat {
    if d == 0 then 1 else 10 * Pow10(d - 1)
  }

  /** Below 10^d (d >= 1) a number has at most d digits. */
  lemma {:induction false} DecimalLengthBelow(k: nat, d: nat)
    requires 1 <= d && k < Pow10(d)
    ensures |Decimal(k)| <= d
    decreases d
  {
    if k >= 10 {
      assert d != 1 by { assert Pow10(1) == 10; }
      assert k / 10 < Pow10(d - 1);
      DecimalLengthBelow(k / 10, d - 1);
    }
  }

  /** IntStack: a growable stack of vertex ids, bottom first. */
  class IntStack {
    var data: seq<int>
    var capacity: int

    ghost predicate Valid()
      reads this
    {
      |data| <= capacity
    }

    /** stack_create: an empty stack; a requested capacity below 1 becomes 4. */
    constructor (capacity0: int)
      ensures Valid() && data == []
      ensures capacity == if capacity0 < 1 then 4 else capacity0
    {
      data := [];
      capacity := if capacity0 < 1 then 4 else capacity0;
    }

    /** stack_push: v goes on top, growing the buffer when it is full. */
    method Push(v: int)
      requires Valid()
      modifies this
      ensures Valid() && data == old(data) + [v]
      ensures capacity == if |old(data)| >= old(capacity) then Grown(old(capacity)) else old(capacity)
    {
      if |data| >= capacity {
        capacity := Grown(capacity);
      }
      data := data + [v];
    }

    /** stack_pop: the top is removed and returned; popping an empty stack is
        the source's fatal error, here None with the stack left as it is. */
    method Pop() returns (r: Option<int>)
      requires Valid()
      modifies this
      ensures Valid() && capacity == old(capacity)
      ensures old(data) == [] ==> r == None && data == old(data)
      ensures old(data) != [] ==> r == Some(old(data)[|old(data)| - 1]) && data == old(data)[..|old(data)| - 1]
    {
      if |data| <= 0 {
        return None;
      }
      r := Some(data[|data| - 1]);
      data := data[..|data| - 1];
    }

    /** stack_peek: the top without removing it; an error on an empty stack. */
    method Peek() returns (r: Option<int>)
      requires Valid()
      ensures r.None? <==> data == []
      ensures r.Some? ==> r.value == data[|data| - 1] && r.value in data
    {
      if |data| <= 0 {
        return None;
      }
      r := Some(data[|data| - 1]);
    }

    /** stack_empty. */
    method Empty() returns (b: bool)
      ensures b <==> data == []
    {
      b := |data| == 0;
    }
  }

  /** Last in, first out: a pop right after a push returns the pushed value
      and leaves the stack as it was before the push. */
  method PushThenPop(S: IntStack, v: int) returns (r: Option<int>)
    requires S.Valid()
    modifies S
    ensures S.Valid() && r == Some(v) && S.data == old(S.data)
  {
    S.Push(v);
    r := S.Pop();
  }

  /** TarjanClass: one component, its name and its members in insertion order. */
  class TarjanClass {
    var name: string
    var members: seq<int>
    var capacity: int

    ghost predicate Valid()
      reads this
    {
      |members| <= capacity
    }

    /** class_create: no members yet; the name is copied and cut to 7
        characters, or is "C?" when none is given. */
    constructor (name0: Option<string>)
      ensures Valid() && members == [] && capacity == 0
      ensures name == if name0.Some? then Truncate(name0.value, 7) else "C?"
    {
      name := if name0.Some? then Truncate(name0.value, 7) else "C?";
      members := [];
      capacity := 0;
    }

    /** The struct's fields as a value, as partition_add_class copies them. */
    function Data(): ClassData
      reads this
    {
      ClassData(name, members, capacity)
    }

    /** class_add_member: the vertex goes in at position size, size grows by
        one and earlier members stay where they are. */
    method AddMember(v: int)
      requires Valid()
      modifies this
      ensures Valid() && members == old(members) + [v] && name == old(name)
      ensures capacity == if |old(members)| >= old(capacity) then Grown(old(capacity)) else old(capacity)
    {
      if |members| >= capacity {
        capacity := Grown(capacity);
      }
      members := members + [v];
    }
  }

  /** A class as partition_add_class stores it: a shallow copy of the
      TarjanClass struct. */
  datatype ClassData = ClassData(name: string, members: seq<int>, capacity: int)

  /** The member lists of a sequence of classes. */
  function MembersOf(cs: seq<ClassData>): (r: seq<seq<int>>)
    ensures |r| == |cs| && forall i :: 0 <= i < |cs| ==> r[i] == cs[i].members
  {
    seq(|cs|, i requires 0 <= i < |cs| => cs[i].members)
  }

  /** TarjanPartition: the classes in creation order. */
  class TarjanPartition {
    var classes: seq<ClassData>
    var capacity: int

    ghost predicate Valid()
      reads this
    {
      |classes| <= capacity
    }

    /** The partition as member lists, class by class. */
    function Classes(): seq<seq<int>>
      reads this
    {
      MembersOf(classes)
    }

    /** Class i (0-based) carries the name "C" followed by i + 1. */
    ghost predicate NamedInOrder()
      reads this
    {
      forall i :: 0 <= i < |classes| ==> classes[i].name == ClassName(i + 1)
    }

    /** partition_create: no classes. */
    constructor ()
      ensures Valid() && classes == [] && capacity == 0
    {
      classes := [];
      capacity := 0;
    }

    /** partition_add_class: the class goes in at position size, size grows by
        one and earlier classes stay where they are. */
    method AddClass(c: ClassData)
      requires Valid()
      modifies this
      ensures Valid() && classes == old(classes) + [c]
      ensures capacity == if |old(classes)| >= old(capacity) then Grown(old(capacity)) else old(capacity)
    {
      if |classes| >= capacity {
        capacity := Grown(capacity);
      }
      classes := classes + [c];
    }
  }
}
