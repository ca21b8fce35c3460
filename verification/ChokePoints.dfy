module ChokePoints {
  // Attack paths to tier zero, and what removing one node takes away.

  import opened Graphs
  import opened Reachability

  /** The directory graph: users come first among the node ids. */
  datatype AdGraph = AdGraph(n_users: nat, n_groups: nat, n_computers: nat, edges: seq<(nat, nat)>, tier_zero: nat) {
    function Nodes(): nat {
      n_users + n_groups + n_computers
    }

    predicate Valid() {
      tier_zero < Nodes() && forall k :: 0 <= k < |edges| ==> edges[k].0 < Nodes() && edges[k].1 < Nodes()
    }
  }

  // ---------------------------------------------------------------- routes

  /** p follows edges from u to tier zero. */
  ghost predicate Route(g: AdGraph, p: seq<nat>, u: nat) {
    && p != [] && p[0] == u && p[|p| - 1] == g.tier_zero
    && forall i :: 0 <= i < |p| - 1 ==> (p[i], p[i + 1]) in g.edges
  }

  ghost predicate Exposed(g: AdGraph, u: nat) {
    exists p :: Route(g, p, u)
  }

  /** Some attack path of u does not visit d. */
  ghost predicate Avoids(g: AdGraph, u: nat, d: nat) {
    exists p :: Route(g, p, u) && d !in p
  }

  /** Every attack path of u visits d. */
  ghost predicate Dominates(g: AdGraph, d: nat, u: nat) {
    forall p :: Route(g, p, u) ==> d in p
  }

  // ---------------------------------------------------------------- reversing the edges

  /** rev[v] lists the sources of the edges into v. */
  ghost predicate Reversed(g: AdGraph, rev: Adjacency) {
    && |rev| == g.Nodes()
    && forall u: nat, v: nat :: v < |rev| ==> (u in rev[v] <==> (u, v) in g.edges)
  }

  method ReverseAdj(g: AdGraph) returns (rev: Adjacency)
    requires g.Valid()
    ensures Reversed(g, rev) && InRange(rev)
  {
    var lists := new seq<nat>[g.Nodes()](_ => []);
    for k := 0 to |g.edges|
      invariant forall v: nat, u: nat :: v < lists.Length ==> (u in lists[v] <==> (u, v) in g.edges[..k])
    {
      var (u, v) := g.edges[k];
      assert g.edges[..k + 1] == g.edges[..k] + [(u, v)];
      lists[v] := lists[v] + [u];
    }
    rev := lists[..];
    assert g.edges[..|g.edges|] == g.edges;
    forall v, i | 0 <= v < |rev| && 0 <= i < |rev[v]| ensures rev[v][i] < |rev| {
      assert rev[v][i] in rev[v];
      var k :| 0 <= k < |g.edges| && g.edges[k] == (rev[v][i], v);
    }
  }

  /** The reversed lists without the edges at d. */
  ghost predicate Without(rev: Adjacency, d: nat, cut: Adjacency) {
    && |cut| == |rev|
    && forall u: nat, v: nat :: v < |rev| ==> (u in cut[v] <==> u in rev[v] && u != d && v != d)
  }

  function Retained(s: seq<nat>, d: nat): seq<nat> {
    if s == [] then [] else Retained(s[..|s| - 1], d) + (if s[|s| - 1] != d then [s[|s| - 1]] else [])
  }

  lemma {:induction false} RetainedMembers(s: seq<nat>, d: nat, x: nat)
    ensures x in Retained(s, d) <==> x in s && x != d
  {
    if s != [] {
      RetainedMembers(s[..|s| - 1], d, x);
      assert s == s[..|s| - 1] + [s[|s| - 1]];
    }
  }

  method Remove(rev: Adjacency, d: nat) returns (cut: Adjacency)
    requires d < |rev| && InRange(rev)
    ensures Without(rev, d, cut) && InRange(cut)
  {
    var base := rev[d := []];
    cut := [];
    for v := 0 to |base|
      invariant |cut| == v && forall x: nat :: x < v ==> cut[x] == Retained(base[x], d)
    {
      cut := cut + [Retained(base[v], d)];
    }
    forall u: nat, v: nat | v < |rev| ensures u in cut[v] <==> u in rev[v] && u != d && v != d {
      RetainedMembers(base[v], d, u);
    }
    forall v, i | 0 <= v < |cut| && 0 <= i < |cut[v]| ensures cut[v][i] < |cut| {
      assert cut[v][i] in cut[v] && cut[v][i] in rev[v];
      var j :| 0 <= j < |rev[v]| && rev[v][j] == cut[v][i];
    }
  }

  // ---------------------------------------------------------------- reachability and routes

  lemma {:induction false} RouteSteps(g: AdGraph, rev: Adjacency, p: seq<nat>, u: nat)
    requires g.Valid() && Reversed(g, rev) && Route(g, p, u)
    ensures Steps(rev, g.tier_zero, |p| - 1, u)
  {
    if |p| > 1 {
      RouteSteps(g, rev, p[1..], p[1]);
      assert (p[0], p[1]) in g.edges;
      assert Edge(rev, p[1], u) && Steps(rev, g.tier_zero, |p| - 2, p[1]);
    }
  }

  lemma {:induction false} StepsRoute(g: AdGraph, rev: Adjacency, k: nat, u: nat) returns (p: seq<nat>)
    requires Reversed(g, rev) && Steps(rev, g.tier_zero, k, u)
    ensures Route(g, p, u)
  {
    if k == 0 {
      p := [u];
    } else {
      var x: nat :| Edge(rev, x, u) && Steps(rev, g.tier_zero, k - 1, x);
      var q := StepsRoute(g, rev, k - 1, x);
      p := [u] + q;
    }
  }

  lemma ExposedIffReached(g: AdGraph, rev: Adjacency, u: nat)
    requires g.Valid() && Reversed(g, rev)
    ensures Exposed(g, u) <==> Reaches(rev, g.tier_zero, u)
  {
    if Exposed(g, u) {
      var p :| Route(g, p, u);
      RouteSteps(g, rev, p, u);
    }
    if Reaches(rev, g.tier_zero, u) {
      var k: nat :| Steps(rev, g.tier_zero, k, u);
      var p := StepsRoute(g, rev, k, u);
    }
  }

  lemma {:induction false} AvoidingSteps(g: AdGraph, rev: Adjacency, cut: Adjacency, d: nat, p: seq<nat>, u: nat)
    requires g.Valid() && Reversed(g, rev) && Without(rev, d, cut) && Route(g, p, u) && d !in p
    ensures Steps(cut, g.tier_zero, |p| - 1, u)
  {
    if |p| > 1 {
      AvoidingSteps(g, rev, cut, d, p[1..], p[1]);
      assert (p[0], p[1]) in g.edges && p[0] != d && p[1] != d;
      assert Edge(cut, p[1], u) && Steps(cut, g.tier_zero, |p| - 2, p[1]);
    }
  }

  lemma {:induction false} StepsAvoiding(g: AdGraph, rev: Adjacency, cut: Adjacency, d: nat, k: nat, u: nat)
    returns (p: seq<nat>)
    requires Reversed(g, rev) && Without(rev, d, cut) && u != d && Steps(cut, g.tier_zero, k, u)
    ensures Route(g, p, u) && d !in p
  {
    if k == 0 {
      p := [u];
    } else {
      var x: nat :| Edge(cut, x, u) && Steps(cut, g.tier_zero, k - 1, x);
      var q := StepsAvoiding(g, rev, cut, d, k - 1, x);
      p := [u] + q;
    }
  }

  lemma AvoidsIffReached(g: AdGraph, rev: Adjacency, cut: Adjacency, d: nat, u: nat)
    requires g.Valid() && Reversed(g, rev) && Without(rev, d, cut) && u != d
    ensures Avoids(g, u, d) <==> Reaches(cut, g.tier_zero, u)
  {
    if Avoids(g, u, d) {
      var p :| Route(g, p, u) && d !in p;
      AvoidingSteps(g, rev, cut, d, p, u);
    }
    if Reaches(cut, g.tier_zero, u) {
      var k: nat :| Steps(cut, g.tier_zero, k, u);
      var p := StepsAvoiding(g, rev, cut, d, k, u);
    }
  }

  // ---------------------------------------------------------------- counting users

  ghost function Users(n: nat): set<nat> {
    if n == 0 then {} else Users(n - 1) + {n - 1}
  }

  lemma {:induction false} UsersAre(n: nat)
    ensures forall u: nat :: u in Users(n) <==> u < n
  {
    if n > 0 {
      UsersAre(n - 1);
    }
  }

  /** The users whose every attack path goes through d. */
  ghost function Cut(g: AdGraph, d: nat): set<nat> {
    set u | u in Users(g.n_users) && Exposed(g, u) && Dominates(g, d, u)
  }

  datatype Removed = Nothing | Node(d: nat)

  /** Whether `Exposure` counts user u. */
  ghost predicate Counts(g: AdGraph, removed: Removed, u: nat) {
    match removed
    case Nothing => Exposed(g, u)
    case Node(d) => Avoids(g, u, d)
  }

  /** The users counted by `Exposure`. */
  ghost function Counted(g: AdGraph, removed: Removed, n: nat): set<nat> {
    set u | u in Users(n) && Counts(g, removed, u)
  }

  lemma CountNext(g: AdGraph, removed: Removed, n: nat)
    ensures |Counted(g, removed, n + 1)| == |Counted(g, removed, n)| + (if Counts(g, removed, n) then 1 else 0)
  {
    UsersAre(n);
    assert Users(n + 1) == Users(n) + {n};
    CountedNext(g, removed, n);
    assert n !in Counted(g, removed, n);
  }

  lemma CountedNext(g: AdGraph, removed: Removed, n: nat)
    ensures Counted(g, removed, n + 1) == Counted(g, removed, n) + (if Counts(g, removed, n) then {n} else {})
  {
  }

  /** The number of users with an attack path to tier zero, if `removed` is taken out. */
  method Exposure(g: AdGraph, removed: Removed) returns (count: nat)
    requires g.Valid() && (removed.Node? ==> removed.d < g.Nodes())
    ensures count == |Counted(g, removed, g.n_users)|
  {
    var rev := ReverseAdj(g);
    var lists := rev;
    if removed.Node? {
      lists := Remove(rev, removed.d);
    }
    var seen := Search(lists, g.tier_zero);
    count := 0;
    assert Counted(g, removed, 0) == {};
    for u := 0 to g.n_users
      invariant count == |Counted(g, removed, u)|
    {
      CountNext(g, removed, u);
      if removed.Nothing? {
        ExposedIffReached(g, rev, u);
      } else if u != removed.d {
        AvoidsIffReached(g, rev, lists, removed.d, u);
      } else {
        NeverAvoidsItself(g, u);
      }
      if seen[u] && removed != Node(u) {
        count := count + 1;
      }
    }
  }

  lemma NeverAvoidsItself(g: AdGraph, u: nat)
    ensures !Avoids(g, u, u)
  {
  }

  /** Of the exposed users those not cut by d avoid it. */
  lemma CutSize(g: AdGraph, d: nat)
    ensures |Cut(g, d)| == |Counted(g, Nothing, g.n_users)| - |Counted(g, Node(d), g.n_users)|
  {
    var a, b := Counted(g, Nothing, g.n_users), Counted(g, Node(d), g.n_users);
    forall u | Counts(g, Node(d), u) ensures Counts(g, Nothing, u) && !Dominates(g, d, u) {
    }
    forall u | Exposed(g, u) && !Counts(g, Node(d), u) ensures Dominates(g, d, u) {
    }
    assert b <= a && Cut(g, d) == a - b;
  }

  lemma TierZeroCutsAll(g: AdGraph)
    ensures Cut(g, g.tier_zero) == Counted(g, Nothing, g.n_users)
  {
    forall u, p | Route(g, p, u) ensures g.tier_zero in p {
      assert p[|p| - 1] in p;
    }
  }

  /** The blast radius of a node is the number of exposed users it dominates. */
  method BlastRadiusNaive(g: AdGraph) returns (blast: seq<nat>)
    requires g.Valid()
    ensures |blast| == g.Nodes() && forall d: nat :: d < g.Nodes() ==> blast[d] == |Cut(g, d)|
  {
    var total := Exposure(g, Nothing);
    blast := [];
    for d := 0 to g.Nodes()
      invariant |blast| == d && forall x: nat :: x < d ==> blast[x] == |Cut(g, x)|
    {
      CutSize(g, d);
      if d == g.tier_zero {
        TierZeroCutsAll(g);
        blast := blast + [total];
      } else {
        var left := Exposure(g, Node(d));
        blast := blast + [total - left];
      }
    }
  }
}
