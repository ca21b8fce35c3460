module Components {
  // Connected components by union-find that links to the smaller root, and the relabelling that
  // makes labellings comparable.

  import opened Graphs
  import opened Connectivity

  /** v's parent is no larger; low is the least vertex of every class, and its own parent. */
  ghost predicate Placed(parent: seq<nat>, low: seq<nat>, x: nat) {
    && x < |parent| == |low| && parent[x] <= x && low[x] <= x
    && low[parent[x]] == low[x] && parent[low[x]] == low[x]
    && (parent[x] == x ==> low[x] == x)
  }

  ghost predicate Forest(parent: seq<nat>, low: seq<nat>) {
    && |parent| == |low|
    && forall x: nat {:trigger Placed(parent, low, x)} :: x < |parent| ==> Placed(parent, low, x)
  }

  lemma Halve(parent: seq<nat>, low: seq<nat>, x: nat, g: nat)
    requires Forest(parent, low) && x < |parent| && parent[x] < |parent| && g == parent[parent[x]] && parent[x] != x
    ensures Forest(parent[x := g], low) && g < x && low[g] == low[x]
  {
    assert Placed(parent, low, x) && Placed(parent, low, parent[x]);
    var parent' := parent[x := g];
    forall y: nat | y < |parent| ensures Placed(parent', low, y) {
      assert Placed(parent, low, y);
    }
  }

  method Find(parent: array<nat>, ghost low: seq<nat>, v: nat) returns (r: nat)
    requires Forest(parent[..], low) && v < parent.Length
    modifies parent
    ensures Forest(parent[..], low) && r == low[v] && r <= v && parent[r] == r && low[r] == r
    ensures forall y :: 0 <= y < parent.Length && old(parent[y]) == y ==> parent[y] == y
  {
    r := v;
    while parent[r] != r
      invariant Forest(parent[..], low) && r <= v && low[r] == low[v]
      invariant forall y :: 0 <= y < parent.Length && old(parent[y]) == y ==> parent[y] == y
      decreases r
    {
      ghost var p := parent[..];
      assert Placed(p, low, r);
      assert Placed(p, low, p[r]);
      Halve(p, low, r, p[p[r]]);
      parent[r] := parent[parent[r]];
      r := parent[r];
    }
    assert Placed(parent[..], low, r);
  }

  lemma Link(parent: seq<nat>, low: seq<nat>, e: Links, u: nat, v: nat, lo: nat, hi: nat)
    requires Forest(parent, low) && Represents(low, e) && u < |parent| && v < |parent| && lo < hi < |parent|
    requires parent[lo] == lo == low[lo] && parent[hi] == hi == low[hi]
    requires (low[u] == lo && low[v] == hi) || (low[u] == hi && low[v] == lo)
    ensures Forest(parent[hi := lo], Moved(low, hi, lo)) && Represents(Moved(low, hi, lo), e + {(u, v)})
  {
    var parent', low' := parent[hi := lo], Moved(low, hi, lo);
    forall y: nat | y < |parent| ensures Placed(parent', low', y) {
      assert Placed(parent, low, y);
    }
    assert Merged(low, low', u, v) || Merged(low, low', v, u);
    MergeRepresents(low, low', e, u, v);
  }

  method Connect(parent: array<nat>, ghost low: seq<nat>, ghost e: Links, u: nat, v: nat) returns (ghost low': seq<nat>)
    requires Forest(parent[..], low) && Represents(low, e) && u < parent.Length && v < parent.Length
    modifies parent
    ensures Forest(parent[..], low') && Represents(low', e + {(u, v)})
  {
    var ru := Find(parent, low, u);
    var rv := Find(parent, low, v);
    low' := low;
    if ru != rv {
      var lo, hi := if ru < rv then ru else rv, if ru < rv then rv else ru;
      Link(parent[..], low, e, u, v, lo, hi);
      low' := Moved(low, hi, lo);
      parent[hi] := lo;
    } else {
      MergeRepresents(low, low, e, u, v);
    }
  }

  /** The edges of the first u rows, and the first j of row u, as links. */
  ghost function RowLinks(rows: seq<seq<nat>>, u: nat, j: nat): Links
    requires u <= |rows| && (u < |rows| ==> j <= |rows[u]|)
    decreases u, j
  {
    if u < |rows| && j > 0 then RowLinks(rows, u, j - 1) + {(u, rows[u][j - 1])}
    else if u > 0 then RowLinks(rows, u - 1, |rows[u - 1]|)
    else {}
  }

  /** All edges of the graph as links. */
  ghost function GraphLinks(g: Csr): Links
    requires g.Shaped()
  {
    set u, v | 0 <= u < g.n && v in g.Neigh(u) :: (u, v)
  }

  lemma {:induction false} RowLinksAre(rows: seq<seq<nat>>, u: nat, j: nat, x: nat, y: nat)
    requires u <= |rows| && (u < |rows| ==> j <= |rows[u]|)
    ensures (x, y) in RowLinks(rows, u, j) <==>
              (x < u && y in rows[x]) || (x == u && u < |rows| && exists i :: 0 <= i < j && rows[u][i] == y)
    decreases u, j
  {
    if u < |rows| && j > 0 {
      RowLinksAre(rows, u, j - 1, x, y);
    } else if u > 0 {
      RowLinksAre(rows, u - 1, |rows[u - 1]|, x, y);
    }
  }

  lemma AllRowLinks(g: Csr)
    requires g.Shaped()
    ensures RowLinks(g.Rows(), g.n, 0) == GraphLinks(g)
  {
    var rows := g.Rows();
    forall p ensures p in RowLinks(rows, g.n, 0) <==> p in GraphLinks(g) {
      RowLinksAre(rows, g.n, 0, p.0, p.1);
      assert p == (p.0, p.1);
    }
  }

  /** Every label is the least vertex of its connected component. */
  ghost predicate LeastLabels(labels: seq<nat>, e: Links) {
    && Represents(labels, e)
    && forall v: nat :: v < |labels| ==> labels[v] <= v && labels[labels[v]] == labels[v]
  }

  lemma LeastIsLeast(labels: seq<nat>, e: Links, v: nat, w: nat)
    requires LeastLabels(labels, e) && v < |labels| && w < |labels| && Linked(e, v, w)
    ensures labels[v] <= w && Linked(e, v, labels[v])
  {
    assert labels[v] == labels[w] <==> Linked(e, v, w);
    assert labels[v] == labels[labels[v]] <==> Linked(e, v, labels[v]);
  }

  lemma IdentityForest(n: nat)
    ensures var ids: seq<nat> := seq(n, i => i); Forest(ids, ids) && Represents(ids, {})
  {
    var ids: seq<nat> := seq(n, i => i);
    IdentityRepresents(ids);
    forall x: nat | x < n ensures Placed(ids, ids, x) {
    }
  }

  /** Links the edges of row u. */
  method LinkRow(parent: array<nat>, ghost low: seq<nat>, ghost rows: seq<seq<nat>>, u: nat, neigh: seq<nat>)
    returns (ghost low': seq<nat>)
    requires u < |rows| == parent.Length && neigh == rows[u] && forall i :: 0 <= i < |neigh| ==> neigh[i] < |rows|
    requires Forest(parent[..], low) && Represents(low, RowLinks(rows, u, 0))
    modifies parent
    ensures Forest(parent[..], low') && Represents(low', RowLinks(rows, u + 1, 0))
  {
    low' := low;
    for j := 0 to |neigh|
      invariant Forest(parent[..], low') && Represents(low', RowLinks(rows, u, j))
    {
      low' := Connect(parent, low', RowLinks(rows, u, j), u, neigh[j]);
    }
  }

  lemma LowIsLeast(parent: seq<nat>, low: seq<nat>, e: Links)
    requires Forest(parent, low) && Represents(low, e)
    ensures LeastLabels(low, e)
  {
    forall v: nat | v < |low| ensures low[v] <= v && low[low[v]] == low[v] {
      assert Placed(parent, low, v);
      assert Placed(parent, low, low[v]);
    }
  }

  lemma NeighboursInRange(g: Csr, u: nat)
    requires g.Shaped() && InRange(g.Rows()) && u < g.n
    ensures forall i :: 0 <= i < |g.Neigh(u)| ==> g.Neigh(u)[i] < g.n
  {
    assert g.Rows()[u] == g.Neigh(u);
  }

  /** Links all edges of the graph. */
  method LinkAll(g: Csr) returns (parent: array<nat>, ghost low: seq<nat>)
    requires g.Shaped() && InRange(g.Rows())
    ensures fresh(parent) && parent.Length == g.n
    ensures Forest(parent[..], low) && Represents(low, RowLinks(g.Rows(), g.n, 0))
  {
    parent := new nat[g.n](i => i);
    low := seq(g.n, i => i);
    ghost var rows := g.Rows();
    IdentityForest(g.n);
    assert parent[..] == low;
    for u := 0 to g.n
      invariant Forest(parent[..], low) && Represents(low, RowLinks(rows, u, 0))
    {
      NeighboursInRange(g, u);
      low := LinkRow(parent, low, rows, u, g.Neigh(u));
    }
  }

  /** Union-find over all edges. */
  method CcUnionFind(g: Csr) returns (labels: seq<nat>)
    requires g.WellFormed()
    ensures |labels| == g.n && LeastLabels(labels, GraphLinks(g))
  {
    RowsAreSimple(g);
    var parent, low := LinkAll(g);
    labels := [];
    for v := 0 to g.n
      invariant Forest(parent[..], low) && labels == low[..v]
    {
      var r := Find(parent, low, v);
      labels := labels + [r];
    }
    assert labels == low;
    AllRowLinks(g);
    LowIsLeast(parent[..], low, GraphLinks(g));
  }

  // ---------------------------------------------------------------- canonical labels

  /** x is the least vertex with v's label. */
  ghost predicate LeastOf(labels: seq<nat>, v: nat, x: nat) {
    && v < |labels| && x <= v && labels[x] == labels[v]
    && forall w: nat :: w < |labels| && labels[w] == labels[v] ==> x <= w
  }

  ghost predicate CanonicalOf(labels: seq<nat>, out: seq<nat>) {
    && |out| == |labels|
    && forall v: nat {:trigger out[v]} :: v < |labels| ==> LeastOf(labels, v, out[v])
  }

  /** u32::MAX. */
  const NONE: nat := 0xFFFF_FFFF

  method Canonical(labels: seq<nat>) returns (out: seq<nat>)
    requires |labels| <= NONE && forall v :: 0 <= v < |labels| ==> labels[v] < |labels|
    ensures CanonicalOf(labels, out)
  {
    var n := |labels|;
    var minOf := new nat[n](_ => NONE);
    for v := 0 to n
      invariant forall w: nat :: w < v ==> minOf[labels[w]] <= w
      invariant forall l: nat :: l < n && minOf[l] != NONE ==> minOf[l] < v && labels[minOf[l]] == l
    {
      var l := labels[v];
      minOf[l] := if minOf[l] <= v then minOf[l] else v;
    }
    out := seq(n, v requires 0 <= v < n && labels[v] < minOf.Length reads minOf => minOf[labels[v]]);
  }

  ghost predicate SamePartition(a: seq<nat>, b: seq<nat>) {
    |a| == |b| && forall u: nat, v: nat :: u < |a| && v < |a| ==> (a[u] == a[v] <==> b[u] == b[v])
  }

  lemma SameLeast(a: seq<nat>, b: seq<nat>, v: nat, x: nat, y: nat)
    requires SamePartition(a, b) && LeastOf(a, v, x) && LeastOf(b, v, y)
    ensures x == y
  {
    assert a[x] == a[v] <==> b[x] == b[v];
    assert a[y] == a[v] <==> b[y] == b[v];
  }

  /** Canonical labellings are equal exactly when the labellings partition alike. */
  lemma CanonicalCompares(a: seq<nat>, b: seq<nat>, ca: seq<nat>, cb: seq<nat>)
    requires |a| == |b| && CanonicalOf(a, ca) && CanonicalOf(b, cb)
    ensures ca == cb <==> SamePartition(a, b)
  {
    if SamePartition(a, b) {
      forall v: nat | v < |a| ensures ca[v] == cb[v] {
        SameLeast(a, b, v, ca[v], cb[v]);
      }
    }
    if ca == cb {
      forall u: nat, v: nat | u < |a| && v < |a| ensures a[u] == a[v] <==> b[u] == b[v] {
        CanonicalSplits(a, ca, u, v);
        CanonicalSplits(b, cb, u, v);
      }
    }
  }

  lemma CanonicalSplits(a: seq<nat>, ca: seq<nat>, u: nat, v: nat)
    requires CanonicalOf(a, ca) && u < |a| && v < |a|
    ensures a[u] == a[v] <==> ca[u] == ca[v]
  {
    assert LeastOf(a, u, ca[u]) && LeastOf(a, v, ca[v]);
  }

  /** Least labels are their own canonical form. */
  lemma LeastAreCanonical(labels: seq<nat>, e: Links)
    requires LeastLabels(labels, e)
    ensures CanonicalOf(labels, labels)
  {
    forall v: nat | v < |labels| ensures LeastOf(labels, v, labels[v]) {
      forall w: nat | w < |labels| && labels[w] == labels[v] ensures labels[v] <= w {
        assert labels[w] <= w;
      }
    }
  }
}
