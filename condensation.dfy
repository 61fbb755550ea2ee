/** The condensation of tarjan.c (lines 271-328): every vertex is mapped to
    its class, and the links between classes are collected edge by edge. */
module Condensation {
  import opened Reachability
  import opened SccSpec
  import opened Links
  import opened TarjanData
  import Graph

  // ---------------------------------------------------------------------------
  // Vertex to class (build_vertex_to_class)
  // ---------------------------------------------------------------------------

  /** The map m after class ci assigns itself to its members ms, in order;
      members outside 1..n (n == |m| - 1) are skipped. */
  function Fill(m: seq<int>, ms: seq<int>, ci: int): (r: seq<int>)
    ensures |r| == |m|
  {
    if ms == [] then m
    else
      var m0 := Fill(m, ms[..|ms| - 1], ci);
      var v := ms[|ms| - 1];
      if 1 <= v < |m0| then m0[v := ci] else m0
  }

  /** The map after the classes cs, taken in order, over vertices 0..n. */
  function ClassMap(cs: seq<seq<int>>, n: nat): (r: seq<int>)
    ensures |r| == n + 1
  {
    if cs == [] then seq(n + 1, _ => -1)
    else Fill(ClassMap(cs[..|cs| - 1], n), cs[|cs| - 1], |cs| - 1)
  }

  lemma {:induction false} FillMeaning(m: seq<int>, ms: seq<int>, ci: int, v: int)
    requires 0 <= v < |m|
    ensures Fill(m, ms, ci)[v] == if 1 <= v && v in ms then ci else m[v]
  {
    if ms != [] {
      FillMeaning(m, ms[..|ms| - 1], ci, v);
      assert ms == ms[..|ms| - 1] + [ms[|ms| - 1]];
    }
  }

  /** A vertex 1..n is mapped to -1 when no class holds it, and otherwise to
      the last class that holds it; vertex 0 is always mapped to -1. */
  lemma {:induction false} ClassMapMeaning(cs: seq<seq<int>>, n: nat, v: int)
    requires 0 <= v <= n
    ensures var r := ClassMap(cs, n)[v];
      (r == -1 <==> v == 0 || forall c :: 0 <= c < |cs| ==> v !in cs[c])
      && (r != -1 ==> 0 <= r < |cs| && v in cs[r] && forall c :: r < c < |cs| ==> v !in cs[c])
  {
    if cs != [] {
      var init := cs[..|cs| - 1];
      ClassMapMeaning(init, n, v);
      FillMeaning(ClassMap(init, n), cs[|cs| - 1], |cs| - 1, v);
      assert forall c :: 0 <= c < |cs| - 1 ==> cs[c] == init[c];
    }
  }

  /** For a partition of 1..n the map names the one class of each vertex. */
  lemma PartitionMap(cs: seq<seq<int>>, n: nat, v: int, c: int)
    requires IsPartition(cs, n) && 1 <= v <= n
    ensures ClassMap(cs, n)[v] == c <==> 0 <= c < |cs| && v in cs[c]
  {
    ClassMapMeaning(cs, n, v);
    var r := ClassMap(cs, n)[v];
    assert InSome(cs, v);
    if 0 <= c < |cs| && v in cs[c] {
      var i :| 0 <= i < |cs[c]| && cs[c][i] == v;
      var j :| 0 <= j < |cs[r]| && cs[r][j] == v;
      assert c == r;
    }
  }

  /** build_vertex_to_class: map[0..n] starts at -1, then every class in
      order writes its index at each of its members that lies in 1..n. */
  method BuildVertexToClass(P: TarjanPartition, n: int) returns (v2c: array<int>)
    requires n >= 0
    ensures fresh(v2c) && v2c.Length == n + 1 && v2c[..] == ClassMap(P.Classes(), n)
  {
    v2c := new int[n + 1];
    var i := 0;
    while i <= n
      invariant 0 <= i <= n + 1
      invariant forall v :: 0 <= v < i ==> v2c[v] == -1
    {
      v2c[i] := -1;
      i := i + 1;
    }
    ghost var cs := P.Classes();
    assert v2c[..] == ClassMap(cs[..0], n);
    var ci := 0;
    while ci < |P.classes|
      invariant 0 <= ci <= |P.classes| && v2c[..] == ClassMap(cs[..ci], n)
    {
      var members := P.classes[ci].members;
      assert members == cs[ci];
      var k := 0;
      while k < |members|
        invariant 0 <= k <= |members|
        invariant v2c[..] == Fill(ClassMap(cs[..ci], n), members[..k], ci)
      {
        var v := members[k];
        assert members[..k + 1][..k] == members[..k];
        if v >= 1 && v <= n {
          v2c[v] := ci;
        }
        k := k + 1;
      }
      assert members[..k] == members;
      assert cs[..ci + 1][..ci] == cs[..ci];
      ci := ci + 1;
    }
    assert cs[..ci] == cs;
  }

  // ---------------------------------------------------------------------------
  // Class links (build_class_links)
  // ---------------------------------------------------------------------------

  /** The link an edge into v adds from class ci, if any: none when either
      end has no class or both ends share it. (A destination outside the map
      adds nothing; adj_add_edge never stores one.) */
  function Candidate(m: seq<int>, ci: int, v: int): seq<Link>
  {
    if 0 <= v < |m| && ci != m[v] && ci >= 0 && m[v] >= 0 then [Link(ci, m[v])] else []
  }

  /** The candidate links of the destinations ds, in list order. */
  function EdgeLinks(m: seq<int>, ci: int, ds: seq<int>): seq<Link>
  {
    if ds == [] then [] else EdgeLinks(m, ci, ds[..|ds| - 1]) + Candidate(m, ci, ds[|ds| - 1])
  }

  /** The candidate links of the vertices 1..u-1, vertex by vertex. */
  function CandidatesBefore(g: Succ, m: seq<int>, u: int): seq<Link>
    requires WellFormed(g) && |m| == |g| && 1 <= u <= |g|
  {
    if u == 1 then []
    else
      CandidatesBefore(g, m, u - 1) + EdgeLinks(m, m[u - 1], g[u - 1])
  }

  /** The first occurrence of each element, in order of first occurrence. */
  function Dedup(s: seq<Link>): (r: seq<Link>)
    ensures forall l :: l in r <==> l in s
  {
    if s == [] then []
    else
      var d := Dedup(s[..|s| - 1]);
      if s[|s| - 1] in d then d else d + [s[|s| - 1]]
  }

  /** No link is produced twice. */
  lemma {:induction false} DedupDistinct(s: seq<Link>)
    ensures forall i, j :: 0 <= i < j < |Dedup(s)| ==> Dedup(s)[i] != Dedup(s)[j]
  {
    if s != [] {
      DedupDistinct(s[..|s| - 1]);
    }
  }

  /** Adding one element to the input adds it to the output when it is new. */
  lemma DedupSnoc(s: seq<Link>, x: Link)
    ensures Dedup(s + [x]) == if x in Dedup(s) then Dedup(s) else Dedup(s) + [x]
  {
    assert (s + [x])[..|s|] == s;
  }

  /** The candidates of the first k + 1 destinations are those of the first k
      followed by that of the (k + 1)-th. */
  lemma EdgeLinksStep(m: seq<int>, ci: int, ds: seq<int>, k: int)
    requires 0 <= k < |ds|
    ensures EdgeLinks(m, ci, ds[..k + 1]) == EdgeLinks(m, ci, ds[..k]) + Candidate(m, ci, ds[k])
  {
    assert ds[..k + 1][..k] == ds[..k];
  }

  /** The links build_class_links produces for the graph g and the class map m. */
  function ClassLinks(g: Succ, m: seq<int>): seq<Link>
    requires WellFormed(g) && |m| == |g|
  {
    Dedup(CandidatesBefore(g, m, |g|))
  }

  /** An edge u -> v between two different classes. */
  ghost predicate CrossEdge(g: Succ, m: seq<int>, u: int, v: int, l: Link) {
    1 <= u < |g| && v in g[u] && 0 <= v < |m| && 0 <= u < |m|
    && l == Link(m[u], m[v]) && m[u] != m[v] && m[u] >= 0 && m[v] >= 0
  }

  lemma {:induction false} EdgeLinksMembership(g: Succ, m: seq<int>, u: int, ds: seq<int>, l: Link)
    requires WellFormed(g) && |m| == |g| && 1 <= u < |g|
    requires forall i :: 0 <= i < |ds| ==> ds[i] in g[u]
    ensures l in EdgeLinks(m, m[u], ds) <==> exists v :: v in ds && CrossEdge(g, m, u, v, l)
  {
    if ds != [] {
      var init := ds[..|ds| - 1];
      var v := ds[|ds| - 1];
      EdgeLinksMembership(g, m, u, init, l);
      assert ds == init + [v];
      if l in Candidate(m, m[u], v) {
        assert CrossEdge(g, m, u, v, l);
      }
    }
  }

  lemma {:induction false} CandidatesMembership(g: Succ, m: seq<int>, u: int, l: Link)
    requires WellFormed(g) && |m| == |g| && 1 <= u <= |g|
    ensures l in CandidatesBefore(g, m, u) <==> exists x, v :: 1 <= x < u && CrossEdge(g, m, x, v, l)
    decreases u
  {
    if u > 1 {
      CandidatesMembership(g, m, u - 1, l);
      EdgeLinksMembership(g, m, u - 1, g[u - 1], l);
      if l in EdgeLinks(m, m[u - 1], g[u - 1]) {
        var v :| v in g[u - 1] && CrossEdge(g, m, u - 1, v, l);
        assert 1 <= u - 1 < u;
      }
    }
  }

  /** A link is produced exactly when some edge joins two different classes
      in that direction: each link has a witness edge and each edge between
      classes is represented. */
  lemma ClassLinksMembership(g: Succ, m: seq<int>, l: Link)
    requires WellFormed(g) && |m| == |g|
    ensures l in ClassLinks(g, m) <==> exists u, v :: CrossEdge(g, m, u, v, l)
  {
    CandidatesMembership(g, m, |g|, l);
  }

  /** Position of the first occurrence of l in s. */
  function FirstIndex(s: seq<Link>, l: Link): (i: int)
    requires l in s
    ensures 0 <= i < |s| && s[i] == l && forall j :: 0 <= j < i ==> s[j] != l
  {
    if s[0] == l then 0 else 1 + FirstIndex(s[1..], l)
  }

  lemma FirstIndexPrefix(s: seq<Link>, t: seq<Link>, l: Link)
    requires l in s
    ensures FirstIndex(s + t, l) == FirstIndex(s, l)
  {
    var i := FirstIndex(s, l);
    var k := FirstIndex(s + t, l);
    assert (s + t)[i] == l;
    assert k <= i;
    assert s[k] == (s + t)[k];
  }

  /** Dedup keeps elements in the order of their first occurrences. */
  lemma {:induction false} DedupOrder(s: seq<Link>, i: int, j: int)
    requires 0 <= i < j < |Dedup(s)|
    ensures FirstIndex(s, Dedup(s)[i]) < FirstIndex(s, Dedup(s)[j])
  {
    var init := s[..|s| - 1];
    var x := s[|s| - 1];
    var d := Dedup(init);
    assert s == init + [x];
    FirstIndexPrefix(init, [x], Dedup(s)[i]);
    if j < |d| {
      DedupOrder(init, i, j);
      FirstIndexPrefix(init, [x], Dedup(s)[j]);
    } else {
      assert Dedup(s)[j] == x && x !in init;
    }
  }

  /** Links come out in the order their first witness edge is met: vertices
      ascending, each list in list order. */
  lemma FirstEncounterOrder(g: Succ, m: seq<int>, i: int, j: int)
    requires WellFormed(g) && |m| == |g| && 0 <= i < j < |ClassLinks(g, m)|
    ensures var c := CandidatesBefore(g, m, |g|);
      FirstIndex(c, ClassLinks(g, m)[i]) < FirstIndex(c, ClassLinks(g, m)[j])
  {
    DedupOrder(CandidatesBefore(g, m, |g|), i, j);
  }

  /** build_class_links: the links are reset, then for u = 1..n and each
      edge u -> v in list order the link (class of u, class of v) is added
      when both have a class, the classes differ and the link is new. */
  method BuildClassLinks(G: Graph.AdjList, P: TarjanPartition, links: LinkArray)
    requires G.Valid()
    modifies links
    ensures links.Valid() && links.Contents() == ClassLinks(G.Succ(), ClassMap(P.Classes(), G.n))
  {
    links.data := new Link[0];
    links.size := 0;
    var v2c := BuildVertexToClass(P, G.n);
    ghost var g := G.Succ();
    assert forall u :: 1 <= u <= G.n ==> g[u] == Graph.Dests(G.arr[u]);
    AddAllLinks(G.arr, G.n, links, v2c, g, v2c[..]);
  }

  /** The candidate lists before each vertex u = 0..|g|, as a sequence. */
  lemma CandidatePrefixes(g: Succ, m: seq<int>) returns (cand: seq<seq<Link>>)
    requires WellFormed(g) && |m| == |g|
    ensures |cand| == |g| + 1 && cand[1] == []
    ensures forall u :: 1 <= u < |g| ==> cand[u + 1] == cand[u] + EdgeLinks(m, m[u], g[u])
    ensures Dedup(cand[|g|]) == ClassLinks(g, m)
  {
    cand := [[]] + CandidateTable(g, m, |g|);
    forall u | 1 <= u < |g|
      ensures cand[u + 1] == cand[u] + EdgeLinks(m, m[u], g[u])
    {
      CandidateTableAt(g, m, |g|, u);
      CandidateTableAt(g, m, |g|, u + 1);
    }
    CandidateTableAt(g, m, |g|, 1);
    CandidateTableAt(g, m, |g|, |g|);
  }

  /** CandidatesBefore for u = 1..k, in order. */
  function CandidateTable(g: Succ, m: seq<int>, k: int): (t: seq<seq<Link>>)
    requires WellFormed(g) && |m| == |g| && 0 <= k <= |g|
    ensures |t| == k
  {
    if k == 0 then [] else CandidateTable(g, m, k - 1) + [CandidatesBefore(g, m, k)]
  }

  lemma {:induction false} CandidateTableAt(g: Succ, m: seq<int>, k: int, u: int)
    requires WellFormed(g) && |m| == |g| && 0 <= k <= |g| && 1 <= u <= k
    ensures CandidateTable(g, m, k)[u - 1] == CandidatesBefore(g, m, u)
  {
    if u < k {
      CandidateTableAt(g, m, k - 1, u);
    }
  }

  /** Lines 315-325: the links of vertices 1..n, whose lists are adj[1..n],
      in that order, into an empty link array. */
  method AddAllLinks(adj: array<Graph.List>, n: int, links: LinkArray, v2c: array<int>, ghost g: Succ, ghost m: seq<int>)
    requires WellFormed(g) && |g| == n + 1 && adj.Length == n + 1 && v2c[..] == m && |m| == n + 1
    requires forall u :: 1 <= u <= n ==> g[u] == Graph.Dests(adj[u])
    requires links.Valid() && links.size == 0
    modifies links, links.data
    ensures links.Valid() && links.Contents() == ClassLinks(g, m)
    ensures links.data == old(links.data) || fresh(links.data)
  {
    ghost var cand := CandidatePrefixes(g, m);
    assert links.Contents() == Dedup(cand[1]);
    var u := 1;
    while u <= n
      invariant 1 <= u <= n + 1
      invariant links.Valid()
      invariant links.data == old(links.data) || fresh(links.data)
      invariant links.Contents() == Dedup(cand[u])
    {
      AddVertexLinks(links, v2c, adj[u], g, m, u, cand[u]);
      u := u + 1;
    }
  }

  /** Lines 316-324 for vertex u, whose list is l: its links are added
      after those already produced from the candidates before. */
  method AddVertexLinks(links: LinkArray, v2c: array<int>, l: Graph.List, ghost g: Succ, ghost m: seq<int>, u: int,
                        ghost before: seq<Link>)
    requires WellFormed(g) && |m| == |g| && 1 <= u < |g| && g[u] == Graph.Dests(l) && v2c[..] == m
    requires links.Valid() && links.Contents() == Dedup(before)
    modifies links, links.data
    ensures links.Valid() && links.Contents() == Dedup(before + EdgeLinks(m, m[u], g[u]))
    ensures links.data == old(links.data) || fresh(links.data)
  {
    assert forall i :: 0 <= i < |l| ==> l[i].dest in g[u];
    AddEdgeLinks(links, v2c, v2c[u], l, m, before);
  }

  /** Lines 317-324 for one vertex of class ci: each cell of its list l, in
      list order, adds its candidate link unless the link is already there. */
  method AddEdgeLinks(links: LinkArray, v2c: array<int>, ci: int, l: Graph.List,
                      ghost m: seq<int>, ghost base: seq<Link>)
    requires links.Valid() && links.Contents() == Dedup(base) && v2c[..] == m
    requires forall i :: 0 <= i < |l| ==> 0 <= l[i].dest < |m|
    modifies links, links.data
    ensures links.Valid() && links.Contents() == Dedup(base + EdgeLinks(m, ci, Graph.Dests(l)))
    ensures links.data == old(links.data) || fresh(links.data)
  {
    ghost var ds := Graph.Dests(l);
    var k := 0;
    assert base + EdgeLinks(m, ci, ds[..0]) == base;
    while k < |l|
      invariant 0 <= k <= |l|
      invariant links.Valid()
      invariant links.data == old(links.data) || fresh(links.data)
      invariant links.Contents() == Dedup(base + EdgeLinks(m, ci, ds[..k]))
    {
      AddCell(links, v2c, ci, l, m, base, k);
      k := k + 1;
    }
    assert ds[..k] == ds;
  }

  /** Lines 318-323 for the k-th cell of the list l of a vertex of class ci:
      the link (ci, class of its destination) is pushed when both classes
      exist, differ, and the link is not there yet. */
  method AddCell(links: LinkArray, v2c: array<int>, ci: int, l: Graph.List,
                 ghost m: seq<int>, ghost base: seq<Link>, k: int)
    requires 0 <= k < |l| && v2c[..] == m && 0 <= l[k].dest < |m|
    requires links.Valid() && links.Contents() == Dedup(base + EdgeLinks(m, ci, Graph.Dests(l)[..k]))
    modifies links, links.data
    ensures links.Valid() && links.Contents() == Dedup(base + EdgeLinks(m, ci, Graph.Dests(l)[..k + 1]))
    ensures links.data == old(links.data) || fresh(links.data)
  {
    ghost var ds := Graph.Dests(l);
    ghost var acc := base + EdgeLinks(m, ci, ds[..k]);
    var cj := v2c[l[k].dest];
    EdgeLinksStep(m, ci, ds, k);
    assert base + EdgeLinks(m, ci, ds[..k + 1]) == acc + Candidate(m, ci, l[k].dest);
    if ci != cj && ci >= 0 && cj >= 0 {
      var found := links.Exists(ci, cj);
      DedupSnoc(acc, Link(ci, cj));
      if !found {
        links.Push(ci, cj);
      }
    } else {
      assert acc + Candidate(m, ci, l[k].dest) == acc;
    }
  }

  // ---------------------------------------------------------------------------
  // Links of Tarjan's partition
  // ---------------------------------------------------------------------------

  /** With classes in reverse topological order, as tarjan_run emits them,
      every link goes from a later class to an earlier one. */
  lemma LinksPointBackward(g: Succ, cs: seq<seq<int>>, l: Link)
    requires WellFormed(g) && IsPartition(cs, |g| - 1) && ReverseTopological(g, cs)
    requires l in ClassLinks(g, ClassMap(cs, |g| - 1))
    ensures 0 <= l.to < l.from < |cs|
  {
    var n := |g| - 1;
    var m := ClassMap(cs, n);
    ClassLinksMembership(g, m, l);
    var u, v :| CrossEdge(g, m, u, v, l);
    LinkEdgeBackward(g, cs, m, u, v);
  }

  /** An edge between two different classes of a reverse topological
      partition goes from a later class to an earlier one. */
  lemma LinkEdgeBackward(g: Succ, cs: seq<seq<int>>, m: seq<int>, u: int, v: int)
    requires WellFormed(g) && IsPartition(cs, |g| - 1) && ReverseTopological(g, cs)
    requires m == ClassMap(cs, |g| - 1) && 1 <= u < |g| && v in g[u] && m[u] != m[v]
    ensures 0 <= m[v] < m[u] < |cs|
  {
    var n := |g| - 1;
    assert 1 <= v <= n;
    ClassMapMeaning(cs, n, u);
    ClassMapMeaning(cs, n, v);
    assert InSome(cs, u) && InSome(cs, v);
    assert Edge(g, u, v);
    var b :| 0 <= b <= m[u] && v in cs[b];
    PartitionMap(cs, n, v, b);
  }
}
