module GraphBuilder {
  // Building the weighted CSR graph of the algorithms topic from an edge list.

  import opened Sorting
  import opened TripleLists
  import opened Graphs
  import T = Triangles
  import DegreeOrdered

  type Listed = seq<Triple<nat>>

  /** The list, or its reversal when asked, gives an edge from u to v of weight w. */
  predicate Given(edges: Listed, symmetric: bool, u: nat, v: nat, w: nat) {
    u != v && ((u, v, w) in edges || (symmetric && (v, u, w) in edges))
  }

  /** w is the smallest weight given from u to v. */
  ghost predicate Lightest(edges: Listed, symmetric: bool, u: nat, v: nat, w: nat) {
    Given(edges, symmetric, u, v, w) && forall x: nat :: Given(edges, symmetric, u, v, x) ==> w <= x
  }

  /** Every listed edge that is not a loop joins vertices below n. */
  predicate Fits(n: nat, edges: Listed) {
    forall k :: 0 <= k < |edges| ==> edges[k].0 == edges[k].1 || (edges[k].0 < n && edges[k].1 < n)
  }

  method Spread(n: nat, edges: Listed, symmetric: bool) returns (all: Listed)
    requires Fits(n, edges)
    ensures forall u: nat, v: nat, w: nat :: (u, v, w) in all <==> Given(edges, symmetric, u, v, w)
    ensures forall k :: 0 <= k < |all| ==> all[k].0 < n && all[k].1 < n
  {
    all := [];
    for k := 0 to |edges|
      invariant forall u: nat, v: nat, w: nat :: (u, v, w) in all <==> Given(edges[..k], symmetric, u, v, w)
      invariant forall k :: 0 <= k < |all| ==> all[k].0 < n && all[k].1 < n
    {
      var (u, v, w) := edges[k];
      assert edges[..k + 1] == edges[..k] + [edges[k]];
      if u != v {
        all := all + [(u, v, w)];
        if symmetric {
          all := all + [(v, u, w)];
        }
      }
    }
    assert edges[..|edges|] == edges;
  }

  function FullKey(x: Triple<nat>): Key {
    x
  }

  predicate SamePair(x: Triple<nat>, y: Triple<nat>) {
    x.0 == y.0 && x.1 == y.1
  }

  /** The first of each run of equal pairs. */
  function Firsts(s: Listed): (kept: Listed)
    ensures kept == [] <==> s == []
    ensures s != [] ==> SamePair(kept[|kept| - 1], s[|s| - 1])
  {
    if s == [] then [] else
      var kept := Firsts(s[..|s| - 1]);
      if kept != [] && SamePair(kept[|kept| - 1], s[|s| - 1]) then kept else kept + [s[|s| - 1]]
  }

  /** x is in s, and no lighter triple of its pair is. */
  ghost predicate LeastIn(s: Listed, x: Triple<nat>) {
    x in s && forall y :: y in s && SamePair(x, y) ==> x.2 <= y.2
  }

  /** Everything in s is at or before x. */
  ghost predicate UpTo(s: Listed, x: Triple<nat>) {
    forall y :: y in s ==> !Below(FullKey(x), FullKey(y))
  }

  lemma SortedInit(s: Listed)
    requires SortedBy(s, FullKey) && s != []
    ensures SortedBy(s[..|s| - 1], FullKey) && UpTo(s[..|s| - 1], s[|s| - 1])
    ensures forall y :: y in s <==> y in s[..|s| - 1] || y == s[|s| - 1]
  {
    assert s == s[..|s| - 1] + [s[|s| - 1]];
  }

  /** Of a sorted list the first of each run is the lightest of its pair. */
  lemma {:induction false} FirstsAreLeast(s: Listed, x: Triple<nat>)
    requires SortedBy(s, FullKey)
    ensures x in Firsts(s) <==> LeastIn(s, x)
  {
    if s != [] {
      var init, last := s[..|s| - 1], s[|s| - 1];
      SortedInit(s);
      FirstsAreLeast(init, x);
      if init != [] && SamePair(init[|init| - 1], last) {
        LeastMet(init, last, s, x);
      } else {
        NewPair(init, last);
      }
    }
  }

  lemma LeastMet(init: Listed, last: Triple<nat>, s: Listed, x: Triple<nat>)
    requires init != [] && SamePair(init[|init| - 1], last) && UpTo(init, last)
    requires forall y :: y in s <==> y in init || y == last
    ensures LeastIn(s, x) <==> LeastIn(init, x)
  {
    var p := init[|init| - 1];
    assert p in init && p.2 <= last.2;
    if LeastIn(init, x) && SamePair(x, last) {
      assert x.2 <= p.2;
    }
    if LeastIn(s, x) && x == last {
      assert p == last;
    }
  }

  /** A pair unlike the one before has not been met in a sorted list. */
  lemma NewPair(init: Listed, last: Triple<nat>)
    requires SortedBy(init, FullKey) && UpTo(init, last)
    requires init != [] ==> !SamePair(init[|init| - 1], last)
    ensures forall y :: y in init ==> !SamePair(y, last)
  {
    forall y | y in init ensures !SamePair(y, last) {
      var k :| 0 <= k < |init| && init[k] == y;
      var p := init[|init| - 1];
      assert p in init;
      assert k < |init| - 1 ==> !Below(FullKey(p), FullKey(y));
    }
  }

  lemma {:induction false} FirstsAscend(s: Listed)
    requires SortedBy(s, FullKey)
    ensures Ascending(Firsts(s))
  {
    if s != [] {
      var init, last := s[..|s| - 1], s[|s| - 1];
      SortedInit(s);
      FirstsAscend(init);
      if init != [] {
        assert init[|init| - 1] in init;
      }
    }
  }

  /** Drops all but the first of each run of equal pairs. */
  method Deduplicate(s: Listed) returns (kept: Listed)
    ensures kept == Firsts(s)
  {
    kept := [];
    for k := 0 to |s|
      invariant kept == Firsts(s[..k])
    {
      assert s[..k + 1][..k] == s[..k];
      if !(kept != [] && kept[|kept| - 1].0 == s[k].0 && kept[|kept| - 1].1 == s[k].1) {
        kept := kept + [s[k]];
      }
    }
    assert s[..|s|] == s;
  }

  /** Columns and weights of an ascending list behind its row pointers make a graph. */
  lemma FromList(g: Csr, t: Listed)
    requires Ascending(t) && Points(g.offsets, g.n, t) && |g.targets| == |g.weights| == |t|
    requires forall e :: 0 <= e < |t| ==>
             t[e].0 < g.n && t[e].1 < g.n && g.targets[e] == t[e].1 && g.weights[e] == t[e].2
    ensures g.WellFormed()
    ensures forall u: nat, v: nat, w: nat :: HasEdge(g, u, v, w) <==> (u, v, w) in t
  {
    CountEnds(t, g.n);
    forall i, j | 0 <= i <= j <= g.n ensures g.offsets[i] <= g.offsets[j] {
      CountMonotone(t, i, j);
    }
    forall e, i | 0 <= i < g.n && 0 <= e < |t|
      ensures g.offsets[i] <= e < g.offsets[i + 1] <==> t[e].0 == i
    {
      CountCuts(t, i, e);
      CountCuts(t, i + 1, e);
    }
    forall u: nat, v: nat, w: nat ensures HasEdge(g, u, v, w) <==> (u, v, w) in t {
      ListedEdge(g, t, u, v, w);
    }
  }

  lemma ListedEdge(g: Csr, t: Listed, u: nat, v: nat, w: nat)
    requires g.Shaped() && |g.targets| == |t|
    requires forall e :: 0 <= e < |t| ==> t[e].0 < g.n && g.targets[e] == t[e].1 && g.weights[e] == t[e].2
    requires forall e, i :: 0 <= i < g.n && 0 <= e < |t| ==> (g.offsets[i] <= e < g.offsets[i + 1] <==> t[e].0 == i)
    ensures HasEdge(g, u, v, w) <==> (u, v, w) in t
  {
    if (u, v, w) in t {
      var e :| 0 <= e < |t| && t[e] == (u, v, w);
      assert g.offsets[u] <= e < g.offsets[u + 1];
      var i := e - g.offsets[u];
      assert g.Neigh(u)[i] == v && g.NeighW(u).1[i] == w;
    }
    if HasEdge(g, u, v, w) {
      var i :| 0 <= i < g.Degree(u) && g.Neigh(u)[i] == v && g.NeighW(u).1[i] == w;
      var e := g.offsets[u] + i;
      assert g.targets[e] == v && g.weights[e] == w;
      assert t[e] == (u, v, w);
    }
  }

  /** The graph has the given edges without loops, each pair once, with its smallest weight. */
  method FromEdges(n: nat, edges: Listed, symmetric: bool) returns (g: Csr)
    requires Fits(n, edges)
    ensures g.n == n && g.WellFormed()
    ensures forall u: nat, v: nat, w: nat :: HasEdge(g, u, v, w) <==> Lightest(edges, symmetric, u, v, w)
  {
    var all := Spread(n, edges, symmetric);
    var sorted := SortBy(all, FullKey);
    SameMembers(all, sorted);
    var kept := Deduplicate(sorted);
    FirstsAscend(sorted);
    forall k | 0 <= k < |kept| ensures kept[k].0 < n && kept[k].1 < n {
      KeptFits(n, all, sorted, kept[k]);
    }
    var offsets := RowPointers(n, kept);
    g := Csr(n, offsets, seq(|kept|, e requires 0 <= e < |kept| => kept[e].1),
      seq(|kept|, e requires 0 <= e < |kept| => kept[e].2));
    FromList(g, kept);
    forall u: nat, v: nat, w: nat ensures HasEdge(g, u, v, w) <==> Lightest(edges, symmetric, u, v, w) {
      FirstsAreLeast(sorted, (u, v, w));
      LeastIsLightest(edges, symmetric, sorted, u, v, w);
    }
  }

  lemma KeptFits(n: nat, all: Listed, sorted: Listed, x: Triple<nat>)
    requires SortedBy(sorted, FullKey) && x in Firsts(sorted) && forall y :: y in all <==> y in sorted
    requires forall k :: 0 <= k < |all| ==> all[k].0 < n && all[k].1 < n
    ensures x.0 < n && x.1 < n
  {
    FirstsAreLeast(sorted, x);
    assert x in all;
  }

  lemma LeastIsLightest(edges: Listed, symmetric: bool, s: Listed, u: nat, v: nat, w: nat)
    requires forall u: nat, v: nat, w: nat :: (u, v, w) in s <==> Given(edges, symmetric, u, v, w)
    ensures LeastIn(s, (u, v, w)) <==> Lightest(edges, symmetric, u, v, w)
  {
    if LeastIn(s, (u, v, w)) {
      forall x: nat | Given(edges, symmetric, u, v, x) ensures w <= x {
        assert (u, v, x) in s && SamePair((u, v, w), (u, v, x));
      }
    }
    if Lightest(edges, symmetric, u, v, w) {
      forall y | y in s && SamePair((u, v, w), y) ensures w <= y.2 {
        assert y == (u, v, y.2);
      }
    }
  }

  lemma LightestBothWays(edges: Listed, u: nat, v: nat, w: nat)
    ensures Lightest(edges, true, u, v, w) <==> Lightest(edges, true, v, u, w)
  {
    forall x: nat ensures Given(edges, true, u, v, x) <==> Given(edges, true, v, u, x) {
    }
  }

  lemma WeightsSymmetric(g: Csr, edges: Listed)
    requires g.WellFormed()
    requires forall u: nat, v: nat, w: nat :: HasEdge(g, u, v, w) <==> Lightest(edges, true, u, v, w)
    ensures forall u: nat, v: nat, w: nat :: HasEdge(g, u, v, w) <==> HasEdge(g, v, u, w)
  {
    forall u: nat, v: nat, w: nat ensures HasEdge(g, u, v, w) <==> HasEdge(g, v, u, w) {
      LightestBothWays(edges, u, v, w);
    }
  }

  /** A graph built both ways has symmetric edges, as the triangle counter expects. */
  lemma BuiltSymmetric(g: Csr, edges: Listed)
    requires g.WellFormed()
    requires forall u: nat, v: nat, w: nat :: HasEdge(g, u, v, w) <==> Lightest(edges, true, u, v, w)
    ensures T.Symmetric(DegreeOrdered.EdgesOf(g))
    ensures forall u: nat, v: nat, w: nat :: HasEdge(g, u, v, w) <==> HasEdge(g, v, u, w)
  {
    WeightsSymmetric(g, edges);
    forall u, v | (u, v) in DegreeOrdered.EdgesOf(g) ensures (v, u) in DegreeOrdered.EdgesOf(g) {
      var i :| 0 <= i < |g.Neigh(u)| && g.Neigh(u)[i] == v;
      assert HasEdge(g, u, v, g.NeighW(u).1[i]);
      assert HasEdge(g, v, u, g.NeighW(u).1[i]);
    }
  }

  predicate Joins(x: Triple<nat>, symmetric: bool, u: nat, v: nat) {
    (x.0 == u && x.1 == v) || (symmetric && x.0 == v && x.1 == u)
  }

  /** The i-th listed edge is the first that gives an edge from u to v. */
  ghost predicate FirstListed(edges: Listed, symmetric: bool, u: nat, v: nat, i: nat) {
    i < |edges| && Joins(edges[i], symmetric, u, v) && forall j :: 0 <= j < i ==> !Joins(edges[j], symmetric, u, v)
  }

  /** The documented weight, the first listed, is kept exactly if no parallel listing is lighter. */
  lemma FirstKeptWhen(g: Csr, edges: Listed, symmetric: bool, u: nat, v: nat, i: nat)
    requires g.WellFormed() && u != v && FirstListed(edges, symmetric, u, v, i)
    requires forall u: nat, v: nat, w: nat :: HasEdge(g, u, v, w) <==> Lightest(edges, symmetric, u, v, w)
    ensures HasEdge(g, u, v, edges[i].2) <==>
            forall j :: 0 <= j < |edges| && Joins(edges[j], symmetric, u, v) ==> edges[i].2 <= edges[j].2
  {
    var w := edges[i].2;
    GivenListed(edges, symmetric, u, v, w);
    assert Joins(edges[i], symmetric, u, v);
    forall x: nat | Given(edges, symmetric, u, v, x)
      ensures exists j :: 0 <= j < |edges| && Joins(edges[j], symmetric, u, v) && edges[j].2 == x
    {
      GivenListed(edges, symmetric, u, v, x);
    }
    forall j | 0 <= j < |edges| && Joins(edges[j], symmetric, u, v) ensures Given(edges, symmetric, u, v, edges[j].2) {
      GivenListed(edges, symmetric, u, v, edges[j].2);
    }
    assert HasEdge(g, u, v, w) <==> Lightest(edges, symmetric, u, v, w);
  }

  lemma GivenListed(edges: Listed, symmetric: bool, u: nat, v: nat, x: nat)
    requires u != v
    ensures Given(edges, symmetric, u, v, x) <==>
            exists j :: 0 <= j < |edges| && Joins(edges[j], symmetric, u, v) && edges[j].2 == x
  {
    if Given(edges, symmetric, u, v, x) {
      var e: Triple<nat> := if (u, v, x) in edges then (u, v, x) else (v, u, x);
      var j :| 0 <= j < |edges| && edges[j] == e;
    }
    if j :| 0 <= j < |edges| && Joins(edges[j], symmetric, u, v) && edges[j].2 == x {
      assert edges[j] == (u, v, x) || edges[j] == (v, u, x);
    }
  }

  /** Of parallel edges the lightest is kept, which need not be the first listed. */
  lemma FirstWeightLost(w: nat)
    ensures Lightest([(0, 1, 9), (0, 1, 5)], false, 0, 1, w) <==> w == 5
  {
    var edges: Listed := [(0, 1, 9), (0, 1, 5)];
    assert Given(edges, false, 0, 1, 5) by {
      assert edges[1] == (0, 1, 5);
    }
    forall x: nat | Given(edges, false, 0, 1, x) ensures x == 9 || x == 5 {
    }
  }
}
