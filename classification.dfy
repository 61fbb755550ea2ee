/** The decisions of printGraphCharacteristics (caracteristiques.c): which
    classes have an outgoing link, and from that which are transient,
    persistent or absorbing, and whether the chain is irreducible. The
    report is returned as a value instead of being printed.

    The source reads the class of a link as `from - 1` (line 14), as if
    classes were numbered from 1 in the links, while build_class_links
    stores 0-based class positions. `first` is the number the links give
    the first class: 1 reproduces the source, 0 reads the links as
    build_class_links writes them. */
module Classification {
  import opened Wrappers
  import opened Links
  import opened TarjanData
  import opened Reachability
  import opened SccSpec
  import Hasse
  import Condensation
  import TarjanSpec

  /** Some link has class c as its source, reading sources as numbered from `first`. */
  ghost predicate Outgoing(links: seq<Link>, first: int, c: int) {
    exists i :: 0 <= i < |links| && links[i].from - first == c
  }

  /** What is reported of one class. */
  datatype ClassReport = ClassReport(name: string, members: seq<int>, transient: bool, absorbing: Option<int>)

  /** What is reported of the chain: one report per class, in partition order. */
  datatype Characteristics = Characteristics(classes: seq<ClassReport>, irreducible: bool)

  /** Lines 10-17: hasOutgoing[c] is set exactly when some link's source,
      read from `first`, is c; sources outside 0..nbClasses-1 are ignored. */
  method OutgoingFlags(L: LinkArray, nbClasses: int, first: int) returns (hasOutgoing: array<bool>)
    requires L.Valid() && nbClasses >= 0
    ensures fresh(hasOutgoing) && hasOutgoing.Length == nbClasses
    ensures forall c :: 0 <= c < nbClasses ==> (hasOutgoing[c] <==> Outgoing(L.Contents(), first, c))
  {
    hasOutgoing := new bool[nbClasses];
    var z := 0;
    while z < nbClasses
      invariant 0 <= z <= nbClasses
      invariant forall c :: 0 <= c < z ==> !hasOutgoing[c]
    {
      hasOutgoing[z] := false;
      z := z + 1;
    }
    ghost var links := L.Contents();
    var i := 0;
    while i < L.size
      invariant 0 <= i <= L.size
      invariant forall c :: 0 <= c < nbClasses ==>
        (hasOutgoing[c] <==> exists k :: 0 <= k < i && links[k].from - first == c)
    {
      var from := L.data[i].from - first;
      if from >= 0 && from < nbClasses {
        hasOutgoing[from] := true;
      }
      i := i + 1;
    }
  }

  /** printGraphCharacteristics without its output: class c is transient
      exactly when it has an outgoing link and persistent otherwise; a
      persistent class of one member is absorbing, and its state is that
      member; the chain is irreducible exactly when there is one class. */
  method Characterize(P: TarjanPartition, L: LinkArray, first: int) returns (r: Characteristics)
    requires L.Valid()
    ensures |r.classes| == |P.classes| && (r.irreducible <==> |P.classes| == 1)
    ensures forall c :: 0 <= c < |P.classes| ==>
      r.classes[c].name == P.classes[c].name && r.classes[c].members == P.classes[c].members
      && (r.classes[c].transient <==> Outgoing(L.Contents(), first, c))
      && (r.classes[c].absorbing.Some? <==> !r.classes[c].transient && |P.classes[c].members| == 1)
      && (r.classes[c].absorbing.Some? ==> r.classes[c].absorbing.value == P.classes[c].members[0])
  {
    var nbClasses := |P.classes|;
    var hasOutgoing := OutgoingFlags(L, nbClasses, first);
    var irreducible := nbClasses == 1;
    var reports: seq<ClassReport> := [];
    var i := 0;
    while i < nbClasses
      invariant 0 <= i <= nbClasses && |reports| == i
      invariant forall c :: 0 <= c < i ==>
        reports[c].name == P.classes[c].name && reports[c].members == P.classes[c].members
        && (reports[c].transient <==> hasOutgoing[c])
        && (reports[c].absorbing.Some? <==> !hasOutgoing[c] && |P.classes[c].members| == 1)
        && (reports[c].absorbing.Some? ==> reports[c].absorbing.value == P.classes[c].members[0])
    {
      var C := P.classes[i];
      var absorbing := if !hasOutgoing[i] && |C.members| == 1 then Some(C.members[0]) else None;
      reports := reports + [ClassReport(C.name, C.members, hasOutgoing[i], absorbing)];
      i := i + 1;
    }
    r := Characteristics(reports, irreducible);
  }

  // ---------------------------------------------------------------------------
  // Reading the links of build_class_links
  // ---------------------------------------------------------------------------

  /** Read from 0, as build_class_links numbers classes, class c of a
      partition has an outgoing link exactly when some member of c has an
      edge to a vertex outside c. */
  lemma TransientIffLeaves(g: Succ, cs: seq<seq<int>>, c: int)
    requires WellFormed(g) && IsPartition(cs, |g| - 1) && 0 <= c < |cs|
    ensures Outgoing(Condensation.ClassLinks(g, Condensation.ClassMap(cs, |g| - 1)), 0, c)
        <==> exists u, v :: u in cs[c] && Edge(g, u, v) && v !in cs[c]
  {
    var n := |g| - 1;
    var m := Condensation.ClassMap(cs, n);
    var links := Condensation.ClassLinks(g, m);
    if Outgoing(links, 0, c) {
      var i :| 0 <= i < |links| && links[i].from - 0 == c;
      Condensation.ClassLinksMembership(g, m, links[i]);
      var u, v :| Condensation.CrossEdge(g, m, u, v, links[i]);
      assert 1 <= v <= n;
      Condensation.PartitionMap(cs, n, u, c);
      Condensation.PartitionMap(cs, n, v, c);
      assert u in cs[c] && Edge(g, u, v) && v !in cs[c];
    }
    if exists u, v :: u in cs[c] && Edge(g, u, v) && v !in cs[c] {
      var u, v :| u in cs[c] && Edge(g, u, v) && v !in cs[c];
      assert 1 <= u <= n by {
        var k :| 0 <= k < |cs[c]| && cs[c][k] == u;
      }
      assert 1 <= v <= n;
      Condensation.PartitionMap(cs, n, u, c);
      Condensation.ClassMapMeaning(cs, n, v);
      assert InSome(cs, v);
      Condensation.PartitionMap(cs, n, v, c);
      var l := Link(c, m[v]);
      assert Condensation.CrossEdge(g, m, u, v, l);
      Condensation.ClassLinksMembership(g, m, l);
      var i :| 0 <= i < |links| && links[i] == l;
      assert links[i].from - 0 == c;
    }
  }

  /** When every link points to a lower class, removing the transitive links
      keeps every class's outgoing link, if it has one: of the links leaving
      a class, the one to the highest class is never removed. */
  lemma ReducePreservesOutgoing(s: seq<Link>, c: int)
    requires forall i :: 0 <= i < |s| ==> s[i].to < s[i].from
    ensures Outgoing(Hasse.Reduce(s), 0, c) <==> Outgoing(s, 0, c)
  {
    var r := Hasse.Reduce(s);
    if Outgoing(r, 0, c) {
      var i :| 0 <= i < |r| && r[i].from - 0 == c;
      Hasse.ReduceMembership(s, r[i]);
      var k :| 0 <= k < |s| && s[k] == r[i];
    }
    if Outgoing(s, 0, c) {
      var k :| 0 <= k < |s| && s[k].from - 0 == c;
      var l := SurvivorFrom(s, s[k]);
      Hasse.ReduceMembership(s, l);
      var i :| 0 <= i < |r| && r[i] == l;
      assert r[i].from - 0 == c;
    }
  }

  /** From a link of s, follow two-hop paths towards higher destinations
      until a surviving link with the same source is found. */
  lemma {:induction false} SurvivorFrom(s: seq<Link>, l: Link) returns (l': Link)
    requires forall i :: 0 <= i < |s| ==> s[i].to < s[i].from
    requires l in s
    ensures l' in s && l'.from == l.from && (|s| <= 2 || !Hasse.HasTwoHop(s, l'))
    decreases l.from - l.to
  {
    if |s| <= 2 || !Hasse.HasTwoHop(s, l) {
      l' := l;
    } else {
      var i, j :| 0 <= i < |s| && 0 <= j < |s| && Hasse.TwoHop(s, l, i, j);
      assert s[j].to < s[j].from;
      l' := SurvivorFrom(s, s[i]);
    }
  }

  /** On the classes tarjan_run emits, reading build_class_links's output
      from 0, classification gives the same answer on the links before and
      after removeTransitiveLinks, and a class is transient exactly when one
      of its members has an edge leaving it. */
  lemma ClassificationOfRun(g: Succ, c: int)
    requires WellFormed(g) && 0 <= c < |TarjanSpec.Run(g).sccs|
    ensures var cs := TarjanSpec.Run(g).sccs;
      var links := Condensation.ClassLinks(g, Condensation.ClassMap(cs, |g| - 1));
      (Outgoing(Hasse.Reduce(links), 0, c) <==> Outgoing(links, 0, c))
      && (Outgoing(links, 0, c) <==> exists u, v :: u in cs[c] && Edge(g, u, v) && v !in cs[c])
  {
    var cs := TarjanSpec.Run(g).sccs;
    TarjanSpec.RunCorrect(g);
    var links := Condensation.ClassLinks(g, Condensation.ClassMap(cs, |g| - 1));
    forall i | 0 <= i < |links|
      ensures links[i].to < links[i].from
    {
      Condensation.LinksPointBackward(g, cs, links[i]);
    }
    ReducePreservesOutgoing(links, c);
    TransientIffLeaves(g, cs, c);
  }

  // ---------------------------------------------------------------------------
  // Reading them from 1, as line 14 does
  // ---------------------------------------------------------------------------

  /** The chain 1 -> 2, 2 -> 1, 2 -> 3, 3 -> 3, vertex 2's list holding 3
      before 1 (the edge 2 -> 3 added last). */
  function Chain(): (g: Succ)
    ensures WellFormed(g)
  {
    [[], [2], [3, 1], [3]]
  }

  /** A vertex of 1..n lies in one class only. */
  lemma SameClass(cs: seq<seq<int>>, n: nat, v: int, c: int, d: int)
    requires IsPartition(cs, n) && 1 <= v <= n && 0 <= c < |cs| && 0 <= d < |cs|
    requires v in cs[c] && v in cs[d]
    ensures c == d
  {
    Condensation.PartitionMap(cs, n, v, c);
    Condensation.PartitionMap(cs, n, v, d);
  }

  /** A vertex of class d is in no other class. */
  lemma NotInOther(cs: seq<seq<int>>, n: nat, v: int, c: int, d: int)
    requires IsPartition(cs, n) && 1 <= v <= n && 0 <= c < |cs| && 0 <= d < |cs| && c != d
    requires v in cs[d]
    ensures v !in cs[c]
  {
    Condensation.PartitionMap(cs, n, v, c);
    Condensation.PartitionMap(cs, n, v, d);
  }

  /** The first two members of a class of a partition are different vertices. */
  lemma FirstTwoDiffer(cs: seq<seq<int>>, n: nat, c: int)
    requires IsPartition(cs, n) && 0 <= c < |cs| && |cs[c]| > 1
    ensures cs[c][0] != cs[c][1]
  {
  }

  /** Vertex 3 reaches nothing but itself. */
  lemma SinkReach(y: int)
    requires Reach(Chain(), 3, y)
    ensures y == 3
  {
    var g := Chain();
    forall c, d | c in {3} && Edge(g, c, d)
      ensures d in {3}
    {
      assert g[3] == [3];
    }
    ClosedUnderReach(g, {3}, 3, y);
  }

  /** In a partition of 1..3 where 3 lies in class a and 1 and 2 in class
      b, every class is a or b. */
  lemma OneOfTwo(cs: seq<seq<int>>, a: int, b: int, c: int)
    requires IsPartition(cs, 3) && 0 <= a < |cs| && 0 <= b < |cs| && 0 <= c < |cs|
    requires 3 in cs[a] && 1 in cs[b] && 2 in cs[b]
    ensures c == a || c == b
  {
    var x := cs[c][0];
    assert x in cs[c];
    if x == 3 {
      SameClass(cs, 3, 3, a, c);
    } else if x == 1 {
      SameClass(cs, 3, 1, b, c);
    } else {
      SameClass(cs, 3, 2, b, c);
    }
  }

  /** In a decomposition of Chain() into components, the class of 1 holds
      2 (they reach each other) and not 3 (3 reaches only itself). */
  lemma ChainComponent(cs: seq<seq<int>>, b: int)
    requires AreComponents(Chain(), cs) && 0 <= b < |cs| && 1 in cs[b]
    ensures 2 in cs[b] && 3 !in cs[b]
  {
    var g := Chain();
    ReachEdge(g, 1, 2);
    ReachEdge(g, 2, 1);
    assert MutualReach(g, 1, 2);
    if 3 in cs[b] {
      assert MutualReach(g, 3, 1);
      SinkReach(1);
    }
  }

  /** In a decomposition of Chain() into components in reverse topological
      order, 1 and 2 share a class, 3 is in another, and the edge 2 -> 3
      puts the class of 3 first. */
  lemma ChainPositions(cs: seq<seq<int>>) returns (a: int, b: int)
    requires IsPartition(cs, 3) && AreComponents(Chain(), cs) && ReverseTopological(Chain(), cs)
    ensures 0 <= a < b < |cs| && 3 in cs[a] && 1 in cs[b] && 2 in cs[b]
  {
    assert InSome(cs, 1) && InSome(cs, 3);
    a :| 0 <= a < |cs| && 3 in cs[a];
    b :| 0 <= b < |cs| && 1 in cs[b];
    ChainComponent(cs, b);
    assert Edge(Chain(), 2, 3);
    var b' :| 0 <= b' <= b && 3 in cs[b'];
    SameClass(cs, 3, 3, a, b');
  }

  /** A partition of 1..3 with 3 in class a and 1, 2 in a later class b is
      [[3], b's members]. */
  lemma ChainShape(cs: seq<seq<int>>, a: int, b: int)
    requires IsPartition(cs, 3) && 0 <= a < b < |cs| && 3 in cs[a] && 1 in cs[b] && 2 in cs[b]
    ensures |cs| == 2 && cs[0] == [3] && 1 in cs[1] && 2 in cs[1]
  {
    OneOfTwo(cs, a, b, 0);
    OneOfTwo(cs, a, b, 1);
    OneOfTwo(cs, a, b, |cs| - 1);
    assert a == 0 && b == 1 && |cs| == 2;
    NotInOther(cs, 3, 1, 0, 1);
    NotInOther(cs, 3, 2, 0, 1);
    forall i | 0 <= i < |cs[0]|
      ensures cs[0][i] == 3
    {
      assert cs[0][i] in cs[0];
    }
    if |cs[0]| > 1 {
      FirstTwoDiffer(cs, 3, 0);
      assert false;
    }
  }

  /** Any decomposition of Chain() into components in reverse topological
      order is {3} followed by {1, 2}. */
  lemma ChainClasses(cs: seq<seq<int>>)
    requires IsPartition(cs, 3) && AreComponents(Chain(), cs) && ReverseTopological(Chain(), cs)
    ensures |cs| == 2 && cs[0] == [3] && 1 in cs[1] && 2 in cs[1]
  {
    var a, b := ChainPositions(cs);
    ChainShape(cs, a, b);
  }

  /** Tarjan's run on Chain() emits two classes: first the absorbing state
      {3}, then {1, 2}. */
  lemma ExampleRun()
    ensures var cs := TarjanSpec.Run(Chain()).sccs;
      |cs| == 2 && cs[0] == [3] && 1 in cs[1] && 2 in cs[1]
  {
    TarjanSpec.RunCorrect(Chain());
    ChainClasses(TarjanSpec.Run(Chain()).sccs);
  }

  /** On that chain build_class_links produces the one link from class
      position 1 ({1, 2}) to class position 0 ({3}). Read from 1, as line 14
      does, the link marks class 0, the absorbing state {3}, as transient and
      leaves class 1 persistent; read from 0 it marks class 1 only. */
  lemma SourceReadingSwapsLabels()
    ensures var g := Chain();
      var cs := TarjanSpec.Run(g).sccs;
      var links := Condensation.ClassLinks(g, Condensation.ClassMap(cs, 3));
      |cs| == 2 && cs[0] == [3] && 1 in cs[1] && 2 in cs[1]
      && links == [Link(1, 0)]
      && Outgoing(links, 1, 0) && !Outgoing(links, 1, 1)
      && !Outgoing(links, 0, 0) && Outgoing(links, 0, 1)
  {
    var g := Chain();
    ExampleRun();
    TarjanSpec.RunCorrect(g);
    var cs := TarjanSpec.Run(g).sccs;
    var m := Condensation.ClassMap(cs, 3);
    Condensation.ClassMapMeaning(cs, 3, 0);
    Condensation.PartitionMap(cs, 3, 1, 1);
    Condensation.PartitionMap(cs, 3, 2, 1);
    Condensation.PartitionMap(cs, 3, 3, 0);
    assert m == [-1, 1, 1, 0];
    assert Condensation.EdgeLinks(m, 1, [2]) == [] by {
      assert [2][..0] == [];
    }
    assert Condensation.EdgeLinks(m, 1, [3, 1]) == [Link(1, 0)] by {
      assert [3, 1][..1] == [3] && [3][..0] == [];
    }
    assert Condensation.EdgeLinks(m, 0, [3]) == [] by {
      assert [3][..0] == [];
    }
    var links := Condensation.ClassLinks(g, m);
    assert Condensation.CandidatesBefore(g, m, 2) == [];
    assert Condensation.CandidatesBefore(g, m, 3) == [Link(1, 0)];
    assert Condensation.CandidatesBefore(g, m, 4) == [Link(1, 0)];
    assert links == [Link(1, 0)] by {
      assert [Link(1, 0)][..0] == [];
    }
    assert links[0].from - 1 == 0;
    assert links[0].from - 0 == 1;
  }
}
