module Betweenness {
  // Betweenness centrality from its definition: over all ordered pairs of other vertices, the
  // share of their shortest paths that a vertex lies on.

  import opened Graphs
  import opened PathCounts
  import opened BfsSigma

  /** The share of the shortest paths from s to t that go through v, endpoints excluded. */
  ghost function Share(g: Adjacency, s: nat, t: nat, v: nat): real {
    if s == t || v == s || v == t then 0.0
    else if d: nat :| IsDist(g, s, t, d) then
      assert |Paths(g, s, d, t)| != 0;
      (|Through(g, s, t, d, v)| as real) / (|Paths(g, s, d, t)| as real)
    else 0.0
  }

  /** The shares of all pairs before (s, t), row by row. */
  ghost function SharesBefore(g: Adjacency, v: nat, s: nat, t: nat): real
    decreases s, t
  {
    if t > 0 then SharesBefore(g, v, s, t - 1) + Share(g, s, t - 1, v)
    else if s > 0 then SharesBefore(g, v, s - 1, |g|)
    else 0.0
  }

  ghost function Centrality(g: Adjacency, v: nat): real {
    SharesBefore(g, v, |g|, 0)
  }

  lemma OneDist(g: Adjacency, s: nat, t: nat, d: nat, e: nat)
    requires IsDist(g, s, t, d) && IsDist(g, s, t, e)
    ensures d == e
  {
    assert d < e ==> Paths(g, s, d, t) == {};
    assert e < d ==> Paths(g, s, e, t) == {};
  }

  /** What one search found from each source. */
  datatype Search = Search(depth: seq<int>, sigma: seq<nat>)

  ghost predicate Searched(g: Adjacency, found: seq<Search>) {
    && |found| == |g|
    && forall s :: 0 <= s < |g| ==> Answer(g, s, found[s].depth, found[s].sigma)
  }

  lemma NoShare(g: Adjacency, found: seq<Search>, s: nat, t: nat, v: nat)
    requires Searched(g, found) && s < |g| && t < |g| && v < |g|
    requires s == t || found[s].depth[t] < 0
    ensures Share(g, s, t, v) == 0.0
  {
    assert Answer(g, s, found[s].depth, found[s].sigma);
    if s != t {
      assert Unreachable(g, s, t);
      forall d: nat ensures !IsDist(g, s, t, d) {
      }
    }
  }

  /** What the innermost loop adds for v. */
  function Added(found: seq<Search>, s: nat, t: nat, v: nat): real
    requires s < |found| && t < |found| && v < |found|
    requires forall x <- found :: |x.depth| == |x.sigma| == |found|
    requires found[s].sigma[t] > 0
  {
    if v == s || v == t || found[s].depth[v] < 0 then 0.0
    else if found[v].depth[t] >= 0 && found[s].depth[v] + found[v].depth[t] == found[s].depth[t]
      then ((found[s].sigma[v] * found[v].sigma[t]) as real) / (found[s].sigma[t] as real)
    else 0.0
  }

  lemma ShareAdded(g: Adjacency, found: seq<Search>, s: nat, t: nat, v: nat)
    requires Searched(g, found) && s < |g| && t < |g| && v < |g|
    requires s != t && found[s].depth[t] >= 0
    ensures found[s].sigma[t] > 0 && Added(found, s, t, v) == Share(g, s, t, v)
  {
    assert Answer(g, s, found[s].depth, found[s].sigma) && Answer(g, v, found[v].depth, found[v].sigma);
    var d := found[s].depth[t];
    assert Paths(g, s, d, t) != {};
    if v != s && v != t {
      var e: nat :| IsDist(g, s, t, e) && Share(g, s, t, v)
        == (|Through(g, s, t, e, v)| as real) / (|Paths(g, s, e, t)| as real);
      OneDist(g, s, t, d, e);
      var i, j := found[s].depth[v], found[v].depth[t];
      if i >= 0 && j >= 0 {
        SplitAtVertex(g, s, t, d, v, i, j);
      } else {
        NotThrough(g, s, t, d, v);
      }
    }
  }

  /** The searches from every source. */
  method SearchAll(g: Csr) returns (found: seq<Search>)
    requires g.WellFormed()
    ensures Searched(g.Rows(), found)
  {
    found := [];
    for s := 0 to g.n
      invariant |found| == s
      invariant forall x :: 0 <= x < s ==> Answer(g.Rows(), x, found[x].depth, found[x].sigma)
    {
      var depth, sigma := Bfs(g, s);
      found := found + [Search(depth, sigma)];
    }
  }

  /** The innermost loop, for one pair. */
  method AddPair(ghost g: Adjacency, found: seq<Search>, s: nat, t: nat, bc: array<real>)
    requires Searched(g, found) && s < |g| && t < |g| && bc.Length == |g|
    requires s != t && found[s].depth[t] >= 0
    modifies bc
    ensures forall v :: 0 <= v < |g| ==> bc[v] == old(bc[v]) + Share(g, s, t, v)
  {
    var n := |found|;
    var ds, sigma := found[s].depth, found[s].sigma;
    for v := 0 to n
      invariant forall x :: 0 <= x < v ==> bc[x] == old(bc[x]) + Share(g, s, t, x)
      invariant forall x :: v <= x < n ==> bc[x] == old(bc[x])
    {
      ShareAdded(g, found, s, t, v);
      if !(v == s || v == t || ds[v] < 0) {
        var dv, sigmaV := found[v].depth, found[v].sigma;
        if dv[t] >= 0 && ds[v] + dv[t] == ds[t] {
          bc[v] := bc[v] + ((sigma[v] * sigmaV[t]) as real) / (sigma[t] as real);
        }
      }
    }
  }

  /** The brute-force oracle computes the centrality of every vertex. */
  method Brute(g: Csr) returns (r: seq<real>)
    requires g.WellFormed() && g.n <= 512
    ensures |r| == g.n && forall v :: 0 <= v < g.n ==> r[v] == Centrality(g.Rows(), v)
  {
    var found := SearchAll(g);
    var bc := new real[g.n](_ => 0.0);
    ghost var rows := g.Rows();
    for s := 0 to g.n
      invariant forall v :: 0 <= v < g.n ==> bc[v] == SharesBefore(rows, v, s, 0)
    {
      for t := 0 to g.n
        invariant forall v :: 0 <= v < g.n ==> bc[v] == SharesBefore(rows, v, s, t)
      {
        if t == s || found[s].depth[t] < 0 {
          forall v: nat | v < g.n ensures Share(rows, s, t, v) == 0.0 {
            NoShare(rows, found, s, t, v);
          }
        } else {
          AddPair(rows, found, s, t, bc);
        }
      }
    }
    r := bc[..];
  }
}
