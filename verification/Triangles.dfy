module Triangles {
  // Triangles of an undirected graph as three-element vertex sets, and why looking only
  // upwards in a ranking meets each of them once.

  type Edges = set<(nat, nat)>

  ghost predicate Symmetric(e: Edges) {
    forall u, v :: (u, v) in e ==> (v, u) in e
  }

  ghost predicate Injective(rank: seq<nat>) {
    forall u, v :: 0 <= u < |rank| && 0 <= v < |rank| && rank[u] == rank[v] ==> u == v
  }

  /** rank gives every vertex a place of its own. */
  ghost predicate Ranking(e: Edges, rank: seq<nat>) {
    && (forall u, v :: (u, v) in e ==> u < |rank| && v < |rank|)
    && Injective(rank)
  }

  /** All sets of three mutually adjacent vertices. */
  ghost function Triples(e: Edges): set<set<nat>> {
    set p, q | p in e && q in e && p.1 == q.0 && (p.0, q.1) in e && p.0 != p.1 && p.1 != q.1 && p.0 != q.1 ::
      {p.0, p.1, q.1}
  }

  /** The neighbours of u that rank above it. */
  ghost function Above(e: Edges, rank: seq<nat>, u: nat): set<nat>
    requires Ranking(e, rank)
  {
    set p | p in e && p.0 == u && rank[u] < rank[p.1] :: p.1
  }

  ghost function Upward(e: Edges, rank: seq<nat>): Edges
    requires Ranking(e, rank)
  {
    set p | p in e && rank[p.0] < rank[p.1]
  }

  ghost function Closing(e: Edges, rank: seq<nat>, p: (nat, nat)): set<nat>
    requires Ranking(e, rank)
  {
    Above(e, rank, p.0) * Above(e, rank, p.1)
  }

  /** The triangles met when the upward edges in `done` have been looked at. */
  ghost function Met(e: Edges, rank: seq<nat>, done: Edges): set<set<nat>>
    requires Ranking(e, rank)
  {
    set p, w | p in done && w in Closing(e, rank, p) :: {p.0, p.1, w}
  }

  lemma SameTriple(rank: seq<nat>, u: nat, v: nat, w: nat, u': nat, v': nat, w': nat)
    requires u < |rank| && v < |rank| && w < |rank| && rank[u] < rank[v] < rank[w]
    requires u' < |rank| && v' < |rank| && w' < |rank| && rank[u'] < rank[v'] < rank[w']
    requires {u, v, w} == {u', v', w'}
    ensures u == u' && v == v' && w == w'
  {
    var s := {u, v, w};
    assert u in s && v in s && w in s && u' in s && v' in s && w' in s;
    assert u in {u', v', w'} && v in {u', v', w'} && w in {u', v', w'};
  }

  ghost function With(u: nat, v: nat, ws: set<nat>): set<set<nat>> {
    set w | w in ws :: {u, v, w}
  }

  lemma {:induction false} WithSize(u: nat, v: nat, ws: set<nat>)
    requires u !in ws && v !in ws
    ensures |With(u, v, ws)| == |ws|
  {
    if ws == {} {
      assert With(u, v, ws) == {};
    } else {
      var w :| w in ws;
      WithSize(u, v, ws - {w});
      assert With(u, v, ws) == With(u, v, ws - {w}) + {{u, v, w}};
      forall x | x in ws - {w} ensures {u, v, x} != {u, v, w} {
        assert x in {u, v, x} && x !in {u, v, w};
      }
    }
  }

  /** Looking at one more upward edge meets as many new triangles as it has closing vertices. */
  lemma MetGrows(e: Edges, rank: seq<nat>, done: Edges, p: (nat, nat))
    requires Ranking(e, rank) && done <= Upward(e, rank) && p in Upward(e, rank) && p !in done
    ensures |Met(e, rank, done + {p})| == |Met(e, rank, done)| + |Closing(e, rank, p)|
  {
    var ws := Closing(e, rank, p);
    var extra := With(p.0, p.1, ws);
    WithSize(p.0, p.1, ws);
    MetPlus(e, rank, done, p);
    MetApart(e, rank, done, p);
    DisjointSize(Met(e, rank, done), extra);
  }

  lemma DisjointSize(a: set<set<nat>>, b: set<set<nat>>)
    requires a !! b
    ensures |a + b| == |a| + |b|
  {
  }

  lemma MetPlus(e: Edges, rank: seq<nat>, done: Edges, p: (nat, nat))
    requires Ranking(e, rank)
    ensures Met(e, rank, done + {p}) == Met(e, rank, done) + With(p.0, p.1, Closing(e, rank, p))
  {
  }

  lemma MetApart(e: Edges, rank: seq<nat>, done: Edges, p: (nat, nat))
    requires Ranking(e, rank) && done <= Upward(e, rank) && p in Upward(e, rank) && p !in done
    ensures Met(e, rank, done) !! With(p.0, p.1, Closing(e, rank, p))
  {
    var ws := Closing(e, rank, p);
    forall t | t in Met(e, rank, done) && t in With(p.0, p.1, ws) ensures false {
      var q, w :| q in done && w in Closing(e, rank, q) && t == {q.0, q.1, w};
      var w' :| w' in ws && t == {p.0, p.1, w'};
      SameTriple(rank, q.0, q.1, w, p.0, p.1, w');
    }
  }

  lemma TripleMet(e: Edges, rank: seq<nat>, a: nat, b: nat, c: nat)
    requires Ranking(e, rank) && (a, b) in e && (b, c) in e && (a, c) in e && rank[a] < rank[b] < rank[c]
    ensures {a, b, c} in Met(e, rank, Upward(e, rank))
  {
    var p := (a, b);
    assert (a, c) in e && (a, c).0 == a && (b, c).0 == b;
    assert c in Above(e, rank, a) && c in Above(e, rank, b);
    assert p in Upward(e, rank) && c in Closing(e, rank, p) && {a, b, c} == {p.0, p.1, c};
  }

  lemma TripleInOrder(e: Edges, rank: seq<nat>, a: nat, b: nat, c: nat)
    requires Ranking(e, rank) && Symmetric(e) && a != b && b != c && a != c
    requires (a, b) in e && (b, c) in e && (a, c) in e
    ensures {a, b, c} in Met(e, rank, Upward(e, rank))
  {
    var t := {a, b, c};
    assert t == {a, c, b} == {b, a, c} == {b, c, a} == {c, a, b} == {c, b, a};
    if rank[a] < rank[b] {
      if rank[b] < rank[c] { TripleMet(e, rank, a, b, c); }
      else if rank[a] < rank[c] { TripleMet(e, rank, a, c, b); }
      else { TripleMet(e, rank, c, a, b); }
    } else {
      if rank[a] < rank[c] { TripleMet(e, rank, b, a, c); }
      else if rank[b] < rank[c] { TripleMet(e, rank, b, c, a); }
      else { TripleMet(e, rank, c, b, a); }
    }
  }

  /** Whatever the ranking, the upward edges meet exactly the triangles. */
  lemma MetAll(e: Edges, rank: seq<nat>)
    requires Ranking(e, rank) && Symmetric(e)
    ensures Met(e, rank, Upward(e, rank)) == Triples(e)
  {
    forall t | t in Triples(e) ensures t in Met(e, rank, Upward(e, rank)) {
      var p, q :| p in e && q in e && p.1 == q.0 && (p.0, q.1) in e && p.0 != p.1 && p.1 != q.1 && p.0 != q.1
        && t == {p.0, p.1, q.1};
      assert p == (p.0, p.1) && q == (p.1, q.1);
      TripleInOrder(e, rank, p.0, p.1, q.1);
    }
    MetAreTriples(e, rank);
  }

  lemma MetAreTriples(e: Edges, rank: seq<nat>)
    requires Ranking(e, rank)
    ensures Met(e, rank, Upward(e, rank)) <= Triples(e)
  {
    forall t | t in Met(e, rank, Upward(e, rank)) ensures t in Triples(e) {
      var p, w :| p in Upward(e, rank) && w in Closing(e, rank, p) && t == {p.0, p.1, w};
      var q := (p.1, w);
      assert p == (p.0, p.1) && q in e && (p.0, w) in e;
    }
  }

  // ---------------------------------------------------------------- the two-pointer walk

  ghost predicate Climbing(rank: seq<nat>, s: seq<nat>) {
    && (forall i :: 0 <= i < |s| ==> s[i] < |rank|)
    && (forall i, j :: 0 <= i < j < |s| ==> rank[s[i]] < rank[s[j]])
  }

  ghost function Elems(s: seq<nat>): set<nat> {
    set x | x in s
  }

  ghost function Shared(a: seq<nat>, b: seq<nat>): set<nat> {
    Elems(a) * Elems(b)
  }

  lemma StepLess(rank: seq<nat>, a: seq<nat>, b: seq<nat>)
    requires Climbing(rank, a) && Climbing(rank, b) && a != [] && b != [] && rank[a[0]] < rank[b[0]]
    ensures Shared(a[1..], b) == Shared(a, b) && Shared(b, a[1..]) == Shared(b, a)
  {
    forall k | 0 <= k < |b| ensures b[k] != a[0] {
    }
    assert forall x :: x in a <==> x == a[0] || x in a[1..];
  }

  lemma StepEqual(rank: seq<nat>, a: seq<nat>, b: seq<nat>)
    requires Climbing(rank, a) && Climbing(rank, b) && a != [] && b != [] && a[0] == b[0]
    ensures Shared(a, b) == Shared(a[1..], b[1..]) + {a[0]} && a[0] !in a[1..]
  {
    assert forall x :: x in a <==> x == a[0] || x in a[1..];
    assert forall x :: x in b <==> x == b[0] || x in b[1..];
    forall k | 1 <= k < |a| ensures a[k] != a[0] {
    }
    forall k | 1 <= k < |b| ensures b[k] != b[0] {
    }
  }

  lemma Rest(rank: seq<nat>, s: seq<nat>, i: nat)
    requires Climbing(rank, s) && i < |s|
    ensures Climbing(rank, s[i..]) && s[i..][1..] == s[i + 1..] && s[i..][0] == s[i]
  {
  }

  /** How many elements the rests of the two lists share. */
  ghost function Left(a: seq<nat>, b: seq<nat>, i: nat, j: nat): nat
    requires i <= |a| && j <= |b|
  {
    |Shared(a[i..], b[j..])|
  }

  lemma PassLess(rank: seq<nat>, a: seq<nat>, b: seq<nat>, i: nat, j: nat)
    requires Climbing(rank, a) && Climbing(rank, b) && i < |a| && j < |b| && rank[a[i]] < rank[b[j]]
    ensures Left(a, b, i + 1, j) == Left(a, b, i, j)
  {
    Rest(rank, a, i);
    Rest(rank, b, j);
    StepLess(rank, a[i..], b[j..]);
  }

  lemma PassGreater(rank: seq<nat>, a: seq<nat>, b: seq<nat>, i: nat, j: nat)
    requires Climbing(rank, a) && Climbing(rank, b) && i < |a| && j < |b| && rank[a[i]] > rank[b[j]]
    ensures Left(a, b, i, j + 1) == Left(a, b, i, j)
  {
    Rest(rank, a, i);
    Rest(rank, b, j);
    StepLess(rank, b[j..], a[i..]);
  }

  lemma PassEqual(rank: seq<nat>, a: seq<nat>, b: seq<nat>, i: nat, j: nat)
    requires Climbing(rank, a) && Climbing(rank, b) && i < |a| && j < |b| && rank[a[i]] == rank[b[j]] && Injective(rank)
    ensures Left(a, b, i, j) == Left(a, b, i + 1, j + 1) + 1
  {
    Rest(rank, a, i);
    Rest(rank, b, j);
    StepEqual(rank, a[i..], b[j..]);
  }

  /** The matches the walk makes from (i, j) on. */
  function Matches(rank: seq<nat>, a: seq<nat>, b: seq<nat>, i: nat, j: nat): nat
    decreases |a| + |b| - i - j
  {
    if i >= |a| || j >= |b| || a[i] >= |rank| || b[j] >= |rank| then 0
    else if rank[a[i]] < rank[b[j]] then Matches(rank, a, b, i + 1, j)
    else if rank[a[i]] > rank[b[j]] then Matches(rank, a, b, i, j + 1)
    else 1 + Matches(rank, a, b, i + 1, j + 1)
  }

  /** They are the shared elements of what is left. */
  lemma {:induction false} MatchesAreShared(rank: seq<nat>, a: seq<nat>, b: seq<nat>, i: nat, j: nat)
    requires Climbing(rank, a) && Climbing(rank, b) && Injective(rank) && i <= |a| && j <= |b|
    ensures Matches(rank, a, b, i, j) == Left(a, b, i, j)
    decreases |a| + |b| - i - j
  {
    if i == |a| || j == |b| {
      assert Shared(a[i..], b[j..]) == {};
    } else if rank[a[i]] < rank[b[j]] {
      MatchesAreShared(rank, a, b, i + 1, j);
      PassLess(rank, a, b, i, j);
    } else if rank[a[i]] > rank[b[j]] {
      MatchesAreShared(rank, a, b, i, j + 1);
      PassGreater(rank, a, b, i, j);
    } else {
      MatchesAreShared(rank, a, b, i + 1, j + 1);
      PassEqual(rank, a, b, i, j);
    }
  }
}
