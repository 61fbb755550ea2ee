/** What a decomposition into strongly connected components must satisfy,
    stated on member lists so that it can be checked against any producer. */
module SccSpec {
  import opened Reachability

  /** v belongs to some class. */
  ghost predicate InSome(cs: seq<seq<int>>, v: int) {
    exists a :: 0 <= a < |cs| && v in cs[a]
  }

  /** Every vertex 1..n occurs in exactly one class, at exactly one position;
      classes are non-empty and hold only vertices 1..n. */
  ghost predicate IsPartition(cs: seq<seq<int>>, n: int) {
    (forall a :: 0 <= a < |cs| ==> |cs[a]| >= 1)
    && (forall a, i :: 0 <= a < |cs| && 0 <= i < |cs[a]| ==> 1 <= cs[a][i] <= n)
    && (forall v :: 1 <= v <= n ==> InSome(cs, v))
    && (forall a, b, i, j ::
          (0 <= a < |cs| && 0 <= b < |cs| && 0 <= i < |cs[a]| && 0 <= j < |cs[b]| && (a != b || i != j))
          ==> cs[a][i] != cs[b][j])
  }

  /** Two vertices share a class exactly when each reaches the other. */
  ghost predicate AreComponents(g: Succ, cs: seq<seq<int>>) {
    forall a, x, y :: 0 <= a < |cs| && x in cs[a] && 1 <= y < |g| ==> (y in cs[a] <==> MutualReach(g, x, y))
  }

  /** Classes come in reverse topological order: an edge leaving class a ends
      in class a or in an earlier one. */
  ghost predicate ReverseTopological(g: Succ, cs: seq<seq<int>>) {
    forall a, x, y :: 0 <= a < |cs| && x in cs[a] && Edge(g, x, y) ==> exists b :: 0 <= b <= a && y in cs[b]
  }
}
