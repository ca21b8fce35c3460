/** The weighted CSR graphs of the algorithms topic: rows of targets and weights behind an
    offsets table, as the builder leaves them (targets ascending, no duplicates). */
module Graphs {

  datatype Csr = Csr(n: nat, offsets: seq<nat>, targets: seq<nat>, weights: seq<nat>) {

    ghost predicate Shaped() {
      && |offsets| == n + 1 && offsets[0] == 0 && offsets[n] == |targets| == |weights|
      && forall i, j :: 0 <= i <= j <= n ==> offsets[i] <= offsets[j]
    }

    ghost predicate WellFormed() {
      && Shaped()
      && (forall e :: 0 <= e < |targets| ==> targets[e] < n)
      && (forall u, i, j :: 0 <= u < n && offsets[u] <= i < j < offsets[u + 1] ==> targets[i] < targets[j])
    }

    function Neigh(u: nat): seq<nat>
      requires Shaped() && u < n
    {
      targets[offsets[u]..offsets[u + 1]]
    }

    function NeighW(u: nat): (r: (seq<nat>, seq<nat>))
      requires Shaped() && u < n
      ensures |r.0| == |r.1|
    {
      (targets[offsets[u]..offsets[u + 1]], weights[offsets[u]..offsets[u + 1]])
    }

    function Degree(u: nat): nat
      requires Shaped() && u < n
    {
      offsets[u + 1] - offsets[u]
    }

    /** The rows as adjacency lists. */
    ghost function Rows(): (r: seq<seq<nat>>)
      requires Shaped()
      ensures |r| == n && forall u :: 0 <= u < n ==> r[u] == Neigh(u)
    {
      seq(n, u requires 0 <= u < n => Neigh(u))
    }
  }

  /** Rows of targets with their weights. */
  type WeightedRows = seq<seq<(nat, nat)>>

  ghost function Weighted(g: Csr): (r: WeightedRows)
    requires g.Shaped()
    ensures |r| == g.n && forall u :: 0 <= u < g.n ==> |r[u]| == g.Degree(u)
    ensures forall u, i :: 0 <= u < g.n && 0 <= i < g.Degree(u) ==> r[u][i] == (g.Neigh(u)[i], g.NeighW(u).1[i])
  {
    seq(g.n, u requires 0 <= u < g.n =>
      seq(g.Degree(u), i requires 0 <= i < g.Degree(u) => (g.Neigh(u)[i], g.NeighW(u).1[i])))
  }

  /** The graph has an edge from u to v of weight w. */
  ghost predicate HasEdge(g: Csr, u: nat, v: nat, w: nat)
    requires g.Shaped()
  {
    u < g.n && exists i :: 0 <= i < g.Degree(u) && g.Neigh(u)[i] == v && g.NeighW(u).1[i] == w
  }

  ghost predicate InRange(rows: seq<seq<nat>>) {
    forall u, i :: 0 <= u < |rows| && 0 <= i < |rows[u]| ==> rows[u][i] < |rows|
  }

  ghost predicate Simple(rows: seq<seq<nat>>) {
    forall u, i, j :: 0 <= u < |rows| && 0 <= i < j < |rows[u]| ==> rows[u][i] != rows[u][j]
  }

  lemma RowsAreSimple(g: Csr)
    requires g.WellFormed()
    ensures InRange(g.Rows()) && Simple(g.Rows())
  {
    var rows := g.Rows();
    forall u, i | 0 <= u < |rows| && 0 <= i < |rows[u]| ensures rows[u][i] < |rows| {
      assert rows[u][i] == g.targets[g.offsets[u] + i];
    }
    forall u, i, j | 0 <= u < |rows| && 0 <= i < j < |rows[u]| ensures rows[u][i] != rows[u][j] {
      assert rows[u][i] == g.targets[g.offsets[u] + i] && rows[u][j] == g.targets[g.offsets[u] + j];
    }
  }
}
