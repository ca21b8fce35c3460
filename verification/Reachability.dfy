/** Reachability in adjacency lists, and the breadth-first search that computes it. */
module Reachability {
  import opened Graphs

  type Adjacency = seq<seq<nat>>

  ghost predicate Edge(g: Adjacency, u: nat, v: nat) {
    u < |g| && v in g[u]
  }

  /** v is k edges away from s along some walk. */
  ghost predicate Steps(g: Adjacency, s: nat, k: nat, v: nat) {
    if k == 0 then v == s else exists u: nat :: Edge(g, u, v) && Steps(g, s, k - 1, u)
  }

  ghost predicate Reaches(g: Adjacency, s: nat, v: nat) {
    exists k: nat :: Steps(g, s, k, v)
  }

  /** A set of vertices that s belongs to and edges do not leave. */
  ghost predicate ClosedFrom(g: Adjacency, s: nat, c: nat -> bool) {
    c(s) && forall u: nat, v: nat :: c(u) && Edge(g, u, v) ==> c(v)
  }

  lemma ReachesSelf(g: Adjacency, s: nat)
    ensures Reaches(g, s, s)
  {
    assert Steps(g, s, 0, s);
  }

  lemma ReachesOn(g: Adjacency, s: nat, u: nat, v: nat)
    requires Reaches(g, s, u) && Edge(g, u, v)
    ensures Reaches(g, s, v)
  {
    var k: nat :| Steps(g, s, k, u);
    assert Steps(g, s, k + 1, v);
  }

  /** Whatever is reached lies in every closed set. */
  lemma {:induction false} StaysClosed(g: Adjacency, s: nat, c: nat -> bool, k: nat, v: nat)
    requires ClosedFrom(g, s, c) && Steps(g, s, k, v)
    ensures c(v)
  {
    if k > 0 {
      var u: nat :| Edge(g, u, v) && Steps(g, s, k - 1, u);
      StaysClosed(g, s, c, k - 1, u);
    }
  }

  /** The vertices reached from s. */
  ghost function From(g: Adjacency, s: nat): nat -> bool {
    (v: nat) => Reaches(g, s, v)
  }

  lemma FromClosed(g: Adjacency, s: nat)
    ensures ClosedFrom(g, s, From(g, s))
  {
    ReachesSelf(g, s);
    forall u: nat, v: nat | Reaches(g, s, u) && Edge(g, u, v) ensures Reaches(g, s, v) {
      ReachesOn(g, s, u, v);
    }
  }

  // ---------------------------------------------------------------- breadth-first search

  /** Seen vertices are in c and are queued or done; done ones have all their successors seen,
      the vertex u being scanned its first j. */
  ghost predicate Visiting(g: Adjacency, c: nat -> bool, seen: seq<bool>, q: seq<nat>, u: nat, j: nat) {
    && |seen| == |g|
    && (forall v: nat :: v < |g| && seen[v] ==> c(v))
    && (forall i :: 0 <= i < |q| ==> q[i] < |g| && seen[q[i]])
    && (forall v, i :: 0 <= v < |g| && seen[v] && v !in q && v != u && 0 <= i < |g[v]| ==>
      g[v][i] < |g| && seen[g[v][i]])
    && (u < |g| ==> seen[u] && j <= |g[u]| && forall i :: 0 <= i < j ==> g[u][i] < |g| && seen[g[u][i]])
  }

  lemma VisitStep(g: Adjacency, s: nat, c: nat -> bool, seen: seq<bool>, q: seq<nat>, u: nat, j: nat, v: nat)
    requires InRange(g) && ClosedFrom(g, s, c) && u < |g| && j < |g[u]| && v == g[u][j]
    requires Visiting(g, c, seen, q, u, j)
    ensures v < |g|
    ensures seen[v] ==> Visiting(g, c, seen, q, u, j + 1)
    ensures !seen[v] ==> Visiting(g, c, seen[v := true], q + [v], u, j + 1)
  {
    assert Edge(g, u, v);
  }

  /** The number of vertices not seen. */
  function Unseen(seen: seq<bool>): nat {
    if seen == [] then 0 else Unseen(seen[1..]) + (if seen[0] then 0 else 1)
  }

  lemma {:induction false} SeeOne(seen: seq<bool>, v: nat)
    requires v < |seen| && !seen[v]
    ensures Unseen(seen[v := true]) == Unseen(seen) - 1
  {
    if v == 0 {
      assert seen[v := true][1..] == seen[1..];
    } else {
      SeeOne(seen[1..], v - 1);
      assert seen[v := true][1..] == seen[1..][v - 1 := true];
    }
  }

  method Scan(g: Adjacency, ghost s: nat, ghost c: nat -> bool, u: nat, seen: array<bool>, q: seq<nat>)
    returns (q': seq<nat>)
    requires InRange(g) && ClosedFrom(g, s, c) && u < |g| && Visiting(g, c, seen[..], q, u, 0)
    modifies seen
    ensures Visiting(g, c, seen[..], q', u, |g[u]|)
    ensures forall v :: 0 <= v < |g| && old(seen[v]) ==> seen[v]
    ensures |q'| + Unseen(seen[..]) == |q| + Unseen(old(seen[..]))
  {
    q' := q;
    for j := 0 to |g[u]|
      invariant Visiting(g, c, seen[..], q', u, j)
      invariant forall v :: 0 <= v < |g| && old(seen[v]) ==> seen[v]
      invariant |q'| + Unseen(seen[..]) == |q| + Unseen(old(seen[..]))
    {
      var v := g[u][j];
      VisitStep(g, s, c, seen[..], q', u, j, v);
      if !seen[v] {
        SeeOne(seen[..], v);
        ghost var was := seen[..];
        seen[v] := true;
        assert seen[..] == was[v := true];
        q' := q' + [v];
      }
    }
  }

  lemma Dequeue(g: Adjacency, c: nat -> bool, seen: seq<bool>, q: seq<nat>)
    requires Visiting(g, c, seen, q, |g|, 0) && q != []
    ensures q[0] < |g| && Visiting(g, c, seen, q[1..], q[0], 0)
  {
    assert forall x: nat :: x in q <==> x == q[0] || x in q[1..];
  }

  lemma ScanDone(g: Adjacency, c: nat -> bool, seen: seq<bool>, q: seq<nat>, u: nat)
    requires u < |g| && Visiting(g, c, seen, q, u, |g[u]|)
    ensures Visiting(g, c, seen, q, |g|, 0)
  {
  }

  lemma SearchOver(g: Adjacency, s: nat, seen: seq<bool>)
    requires s < |g| && Visiting(g, From(g, s), seen, [], |g|, 0) && seen[s] && InRange(g)
    ensures forall v: nat :: v < |g| ==> (seen[v] <==> Reaches(g, s, v))
  {
    var c := (v: nat) => v < |seen| && seen[v];
    forall u: nat, v: nat | c(u) && Edge(g, u, v) ensures c(v) {
      var i :| 0 <= i < |g[u]| && g[u][i] == v;
    }
    forall v: nat | v < |g| && Reaches(g, s, v) ensures seen[v] {
      var k: nat :| Steps(g, s, k, v);
      StaysClosed(g, s, c, k, v);
    }
  }

  /** The search sees exactly what s reaches. */
  method Search(g: Adjacency, s: nat) returns (result: seq<bool>)
    requires InRange(g) && s < |g|
    ensures |result| == |g| && forall v: nat :: v < |g| ==> (result[v] <==> Reaches(g, s, v))
  {
    var seen := new bool[|g|](_ => false);
    seen[s] := true;
    var q := [s];
    ghost var c := From(g, s);
    FromClosed(g, s);
    while q != []
      invariant Visiting(g, c, seen[..], q, |g|, 0) && seen[s]
      decreases |q| + Unseen(seen[..])
    {
      var u := q[0];
      Dequeue(g, c, seen[..], q);
      q := Scan(g, s, c, u, seen, q[1..]);
      ScanDone(g, c, seen[..], q, u);
    }
    SearchOver(g, s, seen[..]);
    result := seen[..];
  }
}
