module DegreeOrdered {
  // Counting with a degree ranking and sorted forward lists.

  import opened Graphs
  import opened Sorting
  import opened Triangles

  ghost function EdgesOf(g: Csr): Edges
    requires g.WellFormed()
  {
    set u, v | 0 <= u < g.n && v in g.Neigh(u) :: (u, v)
  }

  /** u comes before v when it has fewer neighbours, or as many and a smaller id. */
  predicate Earlier(g: Csr, u: nat, v: nat)
    requires g.Shaped() && u < g.n && v < g.n
  {
    g.Degree(u) < g.Degree(v) || (g.Degree(u) == g.Degree(v) && u < v)
  }

  ghost predicate RanksByDegree(g: Csr, rank: seq<nat>)
    requires g.Shaped()
  {
    && |rank| == g.n
    && forall u, v :: 0 <= u < g.n && 0 <= v < g.n ==> (rank[u] < rank[v] <==> Earlier(g, u, v))
  }

  function DegreeKey(g: Csr, v: nat): Key
    requires g.Shaped()
  {
    (if v < g.n then g.Degree(v) else 0, v, 0)
  }

  /** The ranking by degree: a permutation of the vertices. */
  method Ranks(g: Csr) returns (rank: seq<nat>)
    requires g.WellFormed()
    ensures RanksByDegree(g, rank) && Ranking(EdgesOf(g), rank)
    ensures forall v :: 0 <= v < g.n ==> rank[v] < g.n
  {
    var ids: seq<nat> := seq(g.n, i => i);
    var order := SortBy(ids, (v: nat) => DegreeKey(g, v));

    SameMembers(ids, order);
    var places := new nat[g.n](_ => 0);
    for r := 0 to |order|
      invariant forall i :: 0 <= i < r ==> order[i] < g.n && places[order[i]] == i
    {
      assert order[r] in ids;
      places[order[r]] := r;
    }
    rank := places[..];
    forall v: nat | v < g.n ensures v in order {
      assert ids[v] in ids;
    }
    RankedByOrder(g, order, rank);
  }

  lemma RankedByOrder(g: Csr, order: seq<nat>, rank: seq<nat>)
    requires g.WellFormed() && |order| == |rank| == g.n
    requires forall v: nat :: v < g.n ==> v in order
    requires forall i :: 0 <= i < g.n ==> order[i] < g.n && rank[order[i]] == i
    requires SortedBy(order, (v: nat) => DegreeKey(g, v))
    ensures RanksByDegree(g, rank) && Ranking(EdgesOf(g), rank)
    ensures forall v :: 0 <= v < g.n ==> rank[v] < g.n
  {
    forall u, v | 0 <= u < g.n && 0 <= v < g.n
      ensures rank[u] < rank[v] <==> Earlier(g, u, v)
      ensures rank[u] == rank[v] ==> u == v
      ensures rank[u] < g.n
    {
      assert u in order && v in order;
      var i :| 0 <= i < g.n && order[i] == u;
      var j :| 0 <= j < g.n && order[j] == v;
      assert i < j ==> !Below(DegreeKey(g, v), DegreeKey(g, u));
      assert j < i ==> !Below(DegreeKey(g, u), DegreeKey(g, v));
    }
    forall u, v | (u, v) in EdgesOf(g) ensures u < |rank| && v < |rank| {
      RowsAreSimple(g);
      var i :| 0 <= i < |g.Rows()[u]| && g.Rows()[u][i] == v;
    }
  }

  /** The neighbours of u above it, by rank. */
  method Forward(g: Csr, rank: seq<nat>, u: nat) returns (up: seq<nat>)
    requires g.WellFormed() && Ranking(EdgesOf(g), rank) && |rank| == g.n && u < g.n
    ensures Climbing(rank, up) && Elems(up) == Above(EdgesOf(g), rank, u)
  {
    ghost var e := EdgesOf(g);
    RowsAreSimple(g);
    var neigh := g.Neigh(u);
    assert neigh == g.Rows()[u];
    var kept: seq<nat> := [];
    for i := 0 to |neigh|
      invariant forall x :: x in kept <==> x in neigh[..i] && rank[u] < rank[x]
      invariant forall a, b :: 0 <= a < b < |kept| ==> kept[a] != kept[b]
    {
      var v := neigh[i];
      assert (u, v) in e;
      assert neigh[..i + 1] == neigh[..i] + [v] && v !in neigh[..i];
      if rank[v] > rank[u] {
        kept := kept + [v];
      }
    }
    assert neigh[..|neigh|] == neigh;
    up := SortBy(kept, (v: nat) => (if v < |rank| then rank[v] else 0, 0, 0));
    SameMembers(kept, up);
    forall x ensures x in up <==> x in Above(e, rank, u) {
      assert x in neigh <==> (u, x) in e;
      assert (u, x) in e ==> (u, x).0 == u && (u, x).1 == x;
    }
    forall i | 0 <= i < |up| ensures up[i] < |rank| {
      assert (u, up[i]) in e;
    }
    forall i, j | 0 <= i < j < |up| ensures rank[up[i]] < rank[up[j]] {
      assert up[i] != up[j];
    }
  }

  /** The two-pointer walk counts the shared elements. */
  method CountShared(rank: seq<nat>, a: seq<nat>, b: seq<nat>) returns (count: nat)
    requires Climbing(rank, a) && Climbing(rank, b)
    requires Injective(rank)
    ensures count == |Shared(a, b)|
  {
    var i: nat, j: nat := 0, 0;
    count := 0;
    while i < |a| && j < |b|
      invariant i <= |a| && j <= |b|
      invariant count + Matches(rank, a, b, i, j) == Matches(rank, a, b, 0, 0)
    {
      var ra, rb := rank[a[i]], rank[b[j]];
      if ra < rb {
        i := i + 1;
      } else if ra > rb {
        j := j + 1;
      } else {
        count := count + 1;
        i, j := i + 1, j + 1;
      }
    }
    MatchesAreShared(rank, a, b, 0, 0);
    assert a[0..] == a && b[0..] == b;
  }

  /** The count is the number of triangles. */
  method TriangleCount(g: Csr) returns (count: nat)
    requires g.WellFormed() && Symmetric(EdgesOf(g))
    ensures count == |Triples(EdgesOf(g))|
  {
    ghost var e := EdgesOf(g);
    var rank := Ranks(g);
    var fwd: seq<seq<nat>> := [];
    for u := 0 to g.n
      invariant |fwd| == u
      invariant forall x :: 0 <= x < u ==> Climbing(rank, fwd[x]) && Elems(fwd[x]) == Above(e, rank, x)
    {
      var up := Forward(g, rank, u);
      fwd := fwd + [up];
    }
    count := 0;
    ghost var done: Edges := {};
    assert Met(e, rank, {}) == {};
    for u := 0 to g.n
      invariant Counting(e, rank, u, [], done, count)
    {
      count, done := CountFrom(e, rank, fwd, u, done, count);
    }
    assert done == Upward(e, rank);
    MetAll(e, rank);
  }

  /** The upward edges out of the vertices before u, and to `heads` out of u, are done. */
  ghost predicate Counting(e: Edges, rank: seq<nat>, u: nat, heads: seq<nat>, done: Edges, count: nat)
    requires Ranking(e, rank)
  {
    && done <= Upward(e, rank) && count == |Met(e, rank, done)|
    && forall p :: p in Upward(e, rank) ==> (p in done <==> p.0 < u || (p.0 == u && p.1 in heads))
  }

  method CountFrom(ghost e: Edges, rank: seq<nat>, fwd: seq<seq<nat>>, u: nat, ghost done: Edges, before: nat)
    returns (count: nat, ghost done': Edges)
    requires Ranking(e, rank) && u < |fwd| == |rank|
    requires forall x :: 0 <= x < |fwd| ==> Climbing(rank, fwd[x]) && Elems(fwd[x]) == Above(e, rank, x)
    requires Counting(e, rank, u, [], done, before)
    ensures Counting(e, rank, u + 1, [], done', count)
  {
    var list := fwd[u];
    count, done' := before, done;
    for k := 0 to |list|
      invariant Counting(e, rank, u, list[..k], done', count)
    {
      var v := list[k];
      CountOne(e, rank, u, list, k, done', count);
      var more := CountShared(rank, list, fwd[v]);
      count := count + more;
      done' := done' + {(u, v)};
    }
    assert forall p :: p in Upward(e, rank) && p.0 == u ==> p.1 in Above(e, rank, u);
    assert list[..|list|] == list;
  }

  lemma CountOne(e: Edges, rank: seq<nat>, u: nat, list: seq<nat>, k: nat, done: Edges, count: nat)
    requires Ranking(e, rank) && Climbing(rank, list) && Elems(list) == Above(e, rank, u) && k < |list|
    requires Counting(e, rank, u, list[..k], done, count)
    ensures Counting(e, rank, u, list[..k + 1], done + {(u, list[k])},
                     count + |Above(e, rank, u) * Above(e, rank, list[k])|)
  {
    var v := list[k];
    assert v in Above(e, rank, u);
    assert v !in list[..k] && list[..k + 1] == list[..k] + [v];
    MetGrows(e, rank, done, (u, v));
  }
}
