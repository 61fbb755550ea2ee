/** The index-level matrix operations of matrix.c. A float** of n rows of n
    entries is an n-by-n array2 of reals; the entries are only stored and
    moved, never computed with. */
module Matrix {
  import opened Wrappers
  import Graph
  import opened Reachability
  import opened TarjanData

  /** matrix_create: an n-by-n matrix with every entry 0 (calloc'd rows). */
  method MatrixCreate(n: int) returns (M: array2<real>)
    requires n >= 0
    ensures fresh(M) && M.Length0 == n && M.Length1 == n
    ensures forall i, j :: 0 <= i < n && 0 <= j < n ==> M[i, j] == 0.0
  {
    M := new real[n, n];
    var i := 0;
    while i < n
      invariant 0 <= i <= n
      invariant forall r, c :: 0 <= r < i && 0 <= c < n ==> M[r, c] == 0.0
    {
      var j := 0;
      while j < n
        invariant 0 <= j <= n
        invariant forall r, c :: 0 <= r < i && 0 <= c < n ==> M[r, c] == 0.0
        invariant forall c :: 0 <= c < j ==> M[i, c] == 0.0
      {
        M[i, j] := 0.0;
        j := j + 1;
      }
      i := i + 1;
    }
  }

  /** matrix_copy: the leading n-by-n block of dest receives that of src;
      the rest of dest is untouched, and src keeps its entries, even when it
      is dest itself. */
  method MatrixCopy(dest: array2<real>, src: array2<real>, n: int)
    requires 0 <= n <= dest.Length0 && n <= dest.Length1 && n <= src.Length0 && n <= src.Length1
    modifies dest
    ensures forall i, j :: 0 <= i < n && 0 <= j < n ==> dest[i, j] == old(src[i, j])
    ensures forall i, j :: 0 <= i < dest.Length0 && 0 <= j < dest.Length1 && !(i < n && j < n)
              ==> dest[i, j] == old(dest[i, j])
    ensures forall i, j :: 0 <= i < src.Length0 && 0 <= j < src.Length1 ==> src[i, j] == old(src[i, j])
  {
    var i := 0;
    while i < n
      invariant 0 <= i <= n
      invariant forall r, c :: 0 <= r < i && 0 <= c < n ==> dest[r, c] == old(src[r, c])
      invariant forall r, c :: 0 <= r < dest.Length0 && 0 <= c < dest.Length1 && !(r < i && c < n)
                  ==> dest[r, c] == old(dest[r, c])
      invariant forall r, c :: i <= r < src.Length0 && 0 <= c < src.Length1 ==> src[r, c] == old(src[r, c])
    {
      var j := 0;
      while j < n
        invariant 0 <= j <= n
        invariant forall r, c :: 0 <= r < i && 0 <= c < n ==> dest[r, c] == old(src[r, c])
        invariant forall c :: 0 <= c < j ==> dest[i, c] == old(src[i, c])
        invariant forall r, c ::
                    (0 <= r < dest.Length0 && 0 <= c < dest.Length1 && !(r < i && c < n) && !(r == i && c < j))
                    ==> dest[r, c] == old(dest[r, c])
        invariant forall r, c :: i < r < src.Length0 && 0 <= c < src.Length1 ==> src[r, c] == old(src[r, c])
        invariant forall c :: j <= c < src.Length1 ==> src[i, c] == old(src[i, c])
      {
        dest[i, j] := src[i, j];
        j := j + 1;
      }
      i := i + 1;
    }
  }

  // ---------------------------------------------------------------------------
  // The transition matrix of a graph (matrix_from_graph)
  // ---------------------------------------------------------------------------

  /** The probability of the last cell of l, in list order, that goes to v. */
  function LastProb(l: Graph.List, v: int): Option<real> {
    if l == [] then None
    else if l[|l| - 1].dest == v then Some(l[|l| - 1].prob)
    else LastProb(l[..|l| - 1], v)
  }

  /** The entry for the edge into v of a vertex whose list is l: 0 when l
      has no cell to v. */
  function Entry(l: Graph.List, v: int): real {
    match LastProb(l, v)
    case None => 0.0
    case Some(p) => p
  }

  /** There is a probability for v exactly when some cell goes to v, and it
      is that of a cell to v with no later cell to v. */
  lemma {:induction false} LastProbMeaning(l: Graph.List, v: int)
    ensures LastProb(l, v).Some? <==> exists i :: 0 <= i < |l| && l[i].dest == v
    ensures LastProb(l, v).Some? ==> exists i :: 0 <= i < |l| && l[i] == Graph.Cell(v, LastProb(l, v).value)
                                      && forall j :: i < j < |l| ==> l[j].dest != v
  {
    if l != [] {
      var init := l[..|l| - 1];
      LastProbMeaning(init, v);
      if l[|l| - 1].dest != v {
        if exists i :: 0 <= i < |l| && l[i].dest == v {
          var i :| 0 <= i < |l| && l[i].dest == v;
          assert init[i].dest == v;
        }
        if LastProb(l, v).Some? {
          var i :| 0 <= i < |init| && init[i] == Graph.Cell(v, LastProb(init, v).value)
                   && forall j :: i < j < |init| ==> init[j].dest != v;
          assert l[i] == init[i];
        }
      }
    }
  }

  /** M[u-1][v-1] is 0 when u has no edge to v, and otherwise the
      probability of u's last cell to v in list order. */
  lemma EntryOfEdge(l: Graph.List, v: int)
    ensures v !in Graph.Dests(l) ==> Entry(l, v) == 0.0
    ensures v in Graph.Dests(l) ==> exists i :: 0 <= i < |l| && l[i] == Graph.Cell(v, Entry(l, v))
                                      && forall j :: i < j < |l| ==> l[j].dest != v
  {
    LastProbMeaning(l, v);
    Graph.DestsMembership(l, v);
  }

  /** One more cell at the end of a list: a cell to v overrides what came before. */
  lemma EntryStep(pre: Graph.List, c: Graph.Cell)
    ensures forall v :: Entry(pre + [c], v) == if c.dest == v then c.prob else Entry(pre, v)
  {
    var l1 := pre + [c];
    assert l1[..|l1| - 1] == pre;
  }

  /** matrix_from_graph: entry (u-1, v-1) is Entry of u's list for v: the
      probability of u's last cell to v, or 0 when u has no edge to v. */
  method MatrixFromGraph(G: Graph.AdjList) returns (M: array2<real>)
    requires G.Valid()
    ensures fresh(M) && M.Length0 == G.n && M.Length1 == G.n
    ensures forall i, j :: 0 <= i < G.n && 0 <= j < G.n ==> M[i, j] == Entry(G.arr[i + 1], j + 1)
  {
    var n := G.n;
    M := MatrixCreate(n);
    var u := 1;
    while u <= n
      invariant 1 <= u <= n + 1
      invariant forall i, j :: 0 <= i < u - 1 && 0 <= j < n ==> M[i, j] == Entry(G.arr[i + 1], j + 1)
      invariant forall i, j :: u - 1 <= i < n && 0 <= j < n ==> M[i, j] == 0.0
    {
      var l := G.arr[u];
      assert forall k :: 0 <= k < |l| ==> 1 <= l[k].dest <= n;
      var k := 0;
      assert forall v :: 1 <= v <= n ==> Entry(l[..k], v) == 0.0;
      while k < |l|
        invariant 0 <= k <= |l|
        invariant forall i, j :: 0 <= i < u - 1 && 0 <= j < n ==> M[i, j] == Entry(G.arr[i + 1], j + 1)
        invariant forall i, j :: u <= i < n && 0 <= j < n ==> M[i, j] == 0.0
        invariant forall v :: 1 <= v <= n ==> M[u - 1, v - 1] == Entry(l[..k], v)
      {
        var v := l[k].dest;
        M[u - 1, v - 1] := l[k].prob;
        assert l[..k + 1] == l[..k] + [l[k]];
        EntryStep(l[..k], l[k]);
        k := k + 1;
      }
      assert l[..k] == l;
      u := u + 1;
    }
  }

  /** A class that no edge leaves keeps all of its members' transitions: in
      the rows of its members, every column of a vertex outside the class
      holds 0, so its principal submatrix is the whole chain restricted to it. */
  lemma ClosedClassRows(lists: seq<Graph.List>, members: seq<int>, u: int, v: int)
    requires forall x, y :: x in members && Edge(Graph.SuccessorsOf(lists), x, y) ==> y in members
    requires u in members && v !in members && 0 <= u < |lists|
    ensures Entry(lists[u], v) == 0.0
  {
    assert Graph.SuccessorsOf(lists)[u] == Graph.Dests(lists[u]);
    EntryOfEdge(lists[u], v);
  }

  // ---------------------------------------------------------------------------
  // Principal submatrix of a class (subMatrix)
  // ---------------------------------------------------------------------------

  /** subMatrix: for a class position outside the partition there is no
      matrix and the size out-parameter keeps the value it had (outN0).
      Otherwise the size is the class's member count k, and S is k-by-k with
      S[i][j] the entry of M for members i and j, in member-list order. */
  method SubMatrix(M: array2<real>, P: TarjanPartition, ci: int, outN0: int) returns (S: array2?<real>, outN: int)
    requires 0 <= ci < |P.classes| ==>
      forall k :: 0 <= k < |P.classes[ci].members| ==>
        1 <= P.classes[ci].members[k] <= M.Length0 && P.classes[ci].members[k] <= M.Length1
    ensures !(0 <= ci < |P.classes|) ==> S == null && outN == outN0
    ensures 0 <= ci < |P.classes| ==> S != null && fresh(S) && outN == |P.classes[ci].members|
    ensures 0 <= ci < |P.classes| ==> S != null && S.Length0 == outN && S.Length1 == outN
    ensures 0 <= ci < |P.classes| ==>
      S != null && (forall i, j :: 0 <= i < |P.classes[ci].members| && 0 <= j < |P.classes[ci].members| ==>
         S[i, j] == M[P.classes[ci].members[i] - 1, P.classes[ci].members[j] - 1])
  {
    if ci < 0 || ci >= |P.classes| {
      return null, outN0;
    }
    var cls := P.classes[ci];
    var k := |cls.members|;
    outN := k;
    var T := MatrixCreate(k);
    var i := 0;
    while i < k
      invariant 0 <= i <= k
      invariant forall r, c :: 0 <= r < i && 0 <= c < k ==> T[r, c] == M[cls.members[r] - 1, cls.members[c] - 1]
    {
      var originalI := cls.members[i];
      var j := 0;
      while j < k
        invariant 0 <= j <= k
        invariant forall r, c :: 0 <= r < i && 0 <= c < k ==> T[r, c] == M[cls.members[r] - 1, cls.members[c] - 1]
        invariant forall c :: 0 <= c < j ==> T[i, c] == M[originalI - 1, cls.members[c] - 1]
      {
        var originalJ := cls.members[j];
        T[i, j] := M[originalI - 1, originalJ - 1];
        j := j + 1;
      }
      i := i + 1;
    }
    S := T;
  }
}
