/** The full-recompute triangle oracle of the streaming topic: undirected edges stored once as
    (min, max), sorted adjacency lists, and common neighbours above the larger endpoint. */
module StreamTriangles {
  import opened Common
  import opened Sorting
  import opened Triangles
  import Graphs
  import DegreeOrdered

  /** A Z-set of edges, as its entries. */
  type Stored = seq<((nat, nat), int)>

  ghost predicate SimpleEdges(z: Stored) {
    && (forall i :: 0 <= i < |z| ==> z[i].0.0 < z[i].0.1 && z[i].1 == 1)
    && (forall i, j :: 0 <= i < j < |z| ==> z[i].0 != z[j].0)
  }

  /** The edges, both ways. */
  ghost function Both(z: Stored): Edges {
    (set x | x in z :: (x.0.0, x.0.1)) + (set x | x in z :: (x.0.1, x.0.0))
  }

  lemma BothSnoc(z: Stored, x: ((nat, nat), int))
    ensures Both(z + [x]) == Both(z) + {(x.0.0, x.0.1), (x.0.1, x.0.0)}
  {
    forall p | p in Both(z) + {(x.0.0, x.0.1), (x.0.1, x.0.0)} ensures p in Both(z + [x]) {
      assert x in z + [x];
    }
  }

  lemma InBoth(z: Stored, i: nat)
    requires i < |z|
    ensures (z[i].0.0, z[i].0.1) in Both(z) && (z[i].0.1, z[i].0.0) in Both(z)
  {
    assert z[i] in z;
  }

  lemma OneWay(z: Stored, u: nat, v: nat)
    requires u < v && (u, v) in Both(z) && SimpleEdges(z)
    ensures exists i :: 0 <= i < |z| && z[i].0 == (u, v)
  {
    var x :| x in z && ((x.0.0, x.0.1) == (u, v) || (x.0.1, x.0.0) == (u, v));
    var i :| 0 <= i < |z| && z[i] == x;
    assert z[i].0.0 < z[i].0.1;
  }

  // ---------------------------------------------------------------- adjacency

  type Lists = map<nat, seq<nat>>

  function At(adj: Lists, u: nat): seq<nat> {
    if u in adj then adj[u] else []
  }

  /** The lists hold the edges, each neighbour once. */
  ghost predicate Holds(adj: Lists, e: Edges) {
    && (forall u: nat, x: nat :: x in At(adj, u) <==> (u, x) in e)
    && (forall u: nat :: Distinct(At(adj, u)))
  }

  function Push(adj: Lists, u: nat, v: nat): Lists {
    adj[u := At(adj, u) + [v]]
  }

  lemma PushHolds(adj: Lists, e: Edges, u: nat, v: nat)
    requires Holds(adj, e) && (u, v) !in e
    ensures Holds(Push(adj, u, v), e + {(u, v)})
  {
    var r, f := Push(adj, u, v), e + {(u, v)};
    forall w: nat, x: nat ensures x in At(r, w) <==> (w, x) in f {
      assert w != u ==> At(r, w) == At(adj, w);
    }
    forall w: nat ensures Distinct(At(r, w)) {
      assert w != u ==> At(r, w) == At(adj, w);
      assert Distinct(At(adj, w));
      assert v !in At(adj, u);
    }
  }

  /** Strictly increasing lists. */
  ghost predicate Rising(s: seq<nat>) {
    forall i, j :: 0 <= i < j < |s| ==> s[i] < s[j]
  }

  ghost predicate SortedLists(adj: Lists, e: Edges) {
    Holds(adj, e) && forall u: nat :: Rising(At(adj, u))
  }

  lemma OneLonger(z: Stored, k: nat)
    requires k < |z|
    ensures z[..k + 1] == z[..k] + [z[k]]
  {
  }

  lemma StoreStep(adj: Lists, z: Stored, k: nat)
    requires SimpleEdges(z) && k < |z| && Holds(adj, Both(z[..k]))
    ensures Holds(Push(Push(adj, z[k].0.0, z[k].0.1), z[k].0.1, z[k].0.0), Both(z[..k + 1]))
  {
    var (u, v) := z[k].0;
    FreshEdge(z, k);
    PushHolds(adj, Both(z[..k]), u, v);
    PushHolds(Push(adj, u, v), Both(z[..k]) + {(u, v)}, v, u);
    BothSnoc(z[..k], z[k]);
    OneLonger(z, k);
    assert Both(z[..k + 1]) == Both(z[..k]) + {(u, v)} + {(v, u)};
  }

  method Collect(z: Stored) returns (adj: Lists)
    requires SimpleEdges(z)
    ensures Holds(adj, Both(z))
  {
    adj := map[];
    for k := 0 to |z|
      invariant Holds(adj, Both(z[..k]))
    {
      var (u, v) := z[k].0;
      StoreStep(adj, z, k);
      adj := Push(adj, u, v);
      adj := Push(adj, v, u);
    }
    assert z[..|z|] == z;
  }

  /** Sorted adjacency lists, both directions. */
  method Adjacency(z: Stored) returns (adj: Lists)
    requires SimpleEdges(z)
    ensures SortedLists(adj, Both(z))
  {
    adj := Collect(z);
    ghost var e := Both(z);
    var todo := adj.Keys;
    while todo != {}
      invariant todo <= adj.Keys && Holds(adj, e)
      invariant forall u: nat :: u !in todo ==> Rising(At(adj, u))
    {
      var u :| u in todo;
      var l := SortBy(adj[u], (x: nat) => (x, 0, 0));
      SortedList(adj, e, u, l);
      adj := adj[u := l];
      todo := todo - {u};
    }
  }

  lemma FreshEdge(z: Stored, k: nat)
    requires SimpleEdges(z) && k < |z|
    ensures (z[k].0.0, z[k].0.1) !in Both(z[..k]) && (z[k].0.1, z[k].0.0) !in Both(z[..k])
  {
    var q := z[..k];
    var (u, v) := z[k].0;
    forall x | x in q ensures (x.0.0, x.0.1) != (u, v) && (x.0.1, x.0.0) != (u, v) {
      var i :| 0 <= i < k && z[i] == x;
      assert z[i].0 != z[k].0 && z[i].0.0 < z[i].0.1;
    }
  }

  lemma SortedList(adj: Lists, e: Edges, u: nat, l: seq<nat>)
    requires Holds(adj, e) && u in adj && multiset(l) == multiset(adj[u]) && SortedBy(l, (x: nat) => (x, 0, 0))
    ensures Rising(l) && Holds(adj[u := l], e)
    ensures forall w: nat :: w != u ==> At(adj[u := l], w) == At(adj, w)
  {
    assert At(adj, u) == adj[u] && Distinct(adj[u]);
    SameMembers(adj[u], l);
    var r := adj[u := l];
    forall i, j | 0 <= i < j < |l| ensures l[i] < l[j] {
      assert l[i] != l[j];
    }
    forall w: nat, x: nat ensures x in At(r, w) <==> (w, x) in e {
      assert w != u ==> At(r, w) == At(adj, w);
      assert x in At(adj, w) <==> (w, x) in e;
    }
    forall w: nat ensures Distinct(At(r, w)) {
      assert w != u ==> At(r, w) == At(adj, w);
      assert Distinct(At(adj, w));
    }
  }

  // ---------------------------------------------------------------- the walk

  ghost function Over(s: set<nat>, v: nat): set<nat> {
    set x | x in s && x > v
  }

  /** The matches above v the walk makes from (i, j) on. */
  function MatchesOver(a: seq<nat>, b: seq<nat>, i: nat, j: nat, v: nat): nat
    decreases |a| + |b| - i - j
  {
    if i >= |a| || j >= |b| then 0
    else if a[i] == b[j] then (if a[i] > v then 1 else 0) + MatchesOver(a, b, i + 1, j + 1, v)
    else if a[i] < b[j] then MatchesOver(a, b, i + 1, j, v)
    else MatchesOver(a, b, i, j + 1, v)
  }

  ghost function Places(n: nat): (rank: seq<nat>)
    ensures |rank| == n && forall i :: 0 <= i < n ==> rank[i] == i
  {
    seq(n, i => i)
  }

  lemma OverGrows(s: set<nat>, t: set<nat>, x: nat, v: nat)
    requires s == t + {x} && x !in t
    ensures |Over(s, v)| == |Over(t, v)| + (if x > v then 1 else 0)
  {
    assert Over(s, v) == Over(t, v) + (if x > v then {x} else {});
  }

  lemma {:induction false} MatchesAreOver(rank: seq<nat>, a: seq<nat>, b: seq<nat>, i: nat, j: nat, v: nat)
    requires Climbing(rank, a) && Climbing(rank, b) && rank == Places(|rank|) && i <= |a| && j <= |b|
    ensures MatchesOver(a, b, i, j, v) == |Over(Shared(a[i..], b[j..]), v)|
    decreases |a| + |b| - i - j
  {
    if i == |a| || j == |b| {
      assert Shared(a[i..], b[j..]) == {};
    } else {
      Rest(rank, a, i);
      Rest(rank, b, j);
      if a[i] == b[j] {
        MatchesAreOver(rank, a, b, i + 1, j + 1, v);
        StepEqual(rank, a[i..], b[j..]);
        OverGrows(Shared(a[i..], b[j..]), Shared(a[i + 1..], b[j + 1..]), a[i], v);
      } else if a[i] < b[j] {
        MatchesAreOver(rank, a, b, i + 1, j, v);
        StepLess(rank, a[i..], b[j..]);
      } else {
        MatchesAreOver(rank, a, b, i, j + 1, v);
        StepLess(rank, b[j..], a[i..]);
      }
    }
  }

  function Bound(z: Stored): nat {
    if z == [] then 0 else
      var b, x := Bound(z[..|z| - 1]), z[|z| - 1].0;
      if x.0 >= b && x.0 >= x.1 then x.0 + 1 else if x.1 >= b then x.1 + 1 else b
  }

  lemma {:induction false} Bounded(z: Stored)
    ensures forall i :: 0 <= i < |z| ==> z[i].0.0 < Bound(z) && z[i].0.1 < Bound(z)
  {
    if z != [] {
      Bounded(z[..|z| - 1]);
    }
  }

  lemma IdRanking(z: Stored)
    ensures Ranking(Both(z), Places(Bound(z))) && Symmetric(Both(z))
  {
    Bounded(z);
    var rank := Places(Bound(z));
    forall u, v | (u, v) in Both(z) ensures u < |rank| && v < |rank| && (v, u) in Both(z) {
      var x :| x in z && ((x.0.0, x.0.1) == (u, v) || (x.0.1, x.0.0) == (u, v));
      var i :| 0 <= i < |z| && z[i] == x;
      InBoth(z, i);
    }
  }

  /** The common neighbours above v close the triangles on (u, v). */
  lemma OverCloses(adj: Lists, e: Edges, rank: seq<nat>, u: nat, v: nat)
    requires SortedLists(adj, e) && Ranking(e, rank) && rank == Places(|rank|) && u < v && (u, v) in e
    ensures Climbing(rank, At(adj, u)) && Climbing(rank, At(adj, v))
    ensures Over(Shared(At(adj, u), At(adj, v)), v) == Closing(e, rank, (u, v))
  {
    var a, b := At(adj, u), At(adj, v);
    assert Rising(a) && Rising(b);
    forall i | 0 <= i < |a| ensures a[i] < |rank| {
      assert (u, a[i]) in e;
    }
    forall i | 0 <= i < |b| ensures b[i] < |rank| {
      assert (v, b[i]) in e;
    }
    forall x: nat ensures x in Over(Shared(a, b), v) <==> x in Closing(e, rank, (u, v)) {
      assert (x in a <==> (u, x) in e) && (x in b <==> (v, x) in e);
      assert (u, x) in e ==> (u, x).0 == u && (u, x).1 == x && rank[x] == x;
      assert (v, x) in e ==> (v, x).0 == v && (v, x).1 == x;
    }
  }

  method CountOver(a: seq<nat>, b: seq<nat>, v: nat) returns (count: nat)
    ensures count == MatchesOver(a, b, 0, 0, v)
  {
    var i: nat, j: nat := 0, 0;
    count := 0;
    while i < |a| && j < |b|
      invariant i <= |a| && j <= |b|
      invariant count + MatchesOver(a, b, i, j, v) == MatchesOver(a, b, 0, 0, v)
    {
      if a[i] == b[j] {
        if a[i] > v {
          count := count + 1;
        }
        i, j := i + 1, j + 1;
      } else if a[i] < b[j] {
        i := i + 1;
      } else {
        j := j + 1;
      }
    }
  }

  ghost function Heads(z: Stored, k: nat): Edges
    requires k <= |z|
  {
    set x | x in z[..k] :: x.0
  }

  lemma HeadsSnoc(z: Stored, k: nat)
    requires SimpleEdges(z) && k < |z|
    ensures Heads(z, k + 1) == Heads(z, k) + {z[k].0} && z[k].0 !in Heads(z, k) && z[k].0 in Both(z)
  {
    assert z[..k + 1] == z[..k] + [z[k]];
    InBoth(z, k);
  }

  lemma HeadIsUpward(z: Stored, k: nat, p: (nat, nat))
    requires SimpleEdges(z) && k <= |z| && p in Heads(z, k) && Ranking(Both(z), Places(Bound(z)))
    ensures p in Upward(Both(z), Places(Bound(z)))
  {
    var q := z[..k];
    var i :| 0 <= i < k && q[i].0 == p;
    InBoth(z, i);
    assert z[i].0 == p == (p.0, p.1);
  }

  lemma HeadsAreUpward(z: Stored)
    requires SimpleEdges(z)
    ensures Ranking(Both(z), Places(Bound(z))) && Symmetric(Both(z))
    ensures forall k :: 0 <= k <= |z| ==> Heads(z, k) <= Upward(Both(z), Places(Bound(z)))
    ensures Heads(z, |z|) == Upward(Both(z), Places(Bound(z)))
  {
    IdRanking(z);
    var up := Upward(Both(z), Places(Bound(z)));
    forall p, k | 0 <= k <= |z| && p in Heads(z, k) ensures p in up {
      HeadIsUpward(z, k, p);
    }
    forall p | p in up ensures p in Heads(z, |z|) {
      assert p == (p.0, p.1);
      OneWay(z, p.0, p.1);
      var i :| 0 <= i < |z| && z[i].0 == p;
      assert z[..|z|] == z && z[i] in z;
    }
  }

  /** The triangles met on the first k stored edges. */
  ghost function MetBy(z: Stored, k: nat): nat
    requires SimpleEdges(z) && k <= |z|
  {
    HeadsAreUpward(z);
    |Met(Both(z), Places(Bound(z)), Heads(z, k))|
  }

  lemma LookStep(adj: Lists, z: Stored, k: nat)
    requires SimpleEdges(z) && SortedLists(adj, Both(z)) && k < |z|
    ensures MetBy(z, k + 1) == MetBy(z, k) + MatchesOver(At(adj, z[k].0.0), At(adj, z[k].0.1), 0, 0, z[k].0.1)
  {
    var e, rank := Both(z), Places(Bound(z));
    var (u, v) := z[k].0;
    var a, b := At(adj, u), At(adj, v);
    HeadsAreUpward(z);
    HeadsSnoc(z, k);
    OverCloses(adj, e, rank, u, v);
    MatchesAreOver(rank, a, b, 0, 0, v);
    assert a[0..] == a && b[0..] == b;
    assert (u, v) in Heads(z, k + 1);
    MetGrows(e, rank, Heads(z, k), (u, v));
  }

  lemma MetEnds(z: Stored)
    requires SimpleEdges(z)
    ensures MetBy(z, 0) == 0 && MetBy(z, |z|) == |Triples(Both(z))|
  {
    HeadsAreUpward(z);
    assert Met(Both(z), Places(Bound(z)), Heads(z, 0)) == {};
    MetAll(Both(z), Places(Bound(z)));
  }

  /** The oracle counts the triangles of the undirected graph. */
  method CountTriangles(z: Stored) returns (count: nat)
    requires SimpleEdges(z)
    ensures count == |Triples(Both(z))|
  {
    var adj := Adjacency(z);
    count := 0;
    MetEnds(z);
    for k := 0 to |z|
      invariant count == MetBy(z, k)
    {
      var (u, v) := z[k].0;
      LookStep(adj, z, k);
      var c := CountOver(At(adj, u), At(adj, v), v);
      count := count + c;
    }
  }

  /** The two counters agree on the same graph. */
  method CountBoth(g: Graphs.Csr, z: Stored) returns (ranked: nat, streamed: nat)
    requires g.WellFormed() && SimpleEdges(z) && DegreeOrdered.EdgesOf(g) == Both(z)
    ensures ranked == streamed
  {
    ranked := DegreeOrdered.TriangleCount(g);
    streamed := CountTriangles(z);
  }
}
