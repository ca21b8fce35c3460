module SparseTranspose {
  // Transposing a sparse matrix with a counting sort: every entry is moved to the next free
  // slot of its column.

  import opened TripleLists
  import opened Sparse

  /** The entries with row and column swapped, in the order they are read. */
  ghost function Swapped(a: Csr): (u: seq<Triple<int>>)
    requires a.Shaped()
    ensures |u| == |a.colidx|
  {
    var t := a.Triples();
    seq(|t|, e requires 0 <= e < |t| => (t[e].1, t[e].0, t[e].2))
  }

  /** The slot entry e goes to: behind the smaller rows and the earlier entries of its row. */
  ghost function Slot(u: seq<Triple<int>>, e: nat): nat
    requires e < |u|
  {
    CountBelow(u, u[e].0) + CountAt(u[..e], u[e].0)
  }

  lemma SlotInRow(u: seq<Triple<int>>, e: nat)
    requires e < |u|
    ensures CountBelow(u, u[e].0) <= Slot(u, e) < CountBelow(u, u[e].0 + 1) <= |u|
  {
    CountSplit(u, u[e].0);
    CountNext(u, e, u[e].0);
    CountAtMonotone(u, e + 1, u[e].0);
    CountMonotone(u, u[e].0 + 1, u[e].0 + 1);
  }

  /** Slots follow the rows, and within a row the order of reading. */
  lemma SlotOrder(u: seq<Triple<int>>, d: nat, e: nat)
    requires d < |u| && e < |u| && d != e
    requires u[d].0 < u[e].0 || (u[d].0 == u[e].0 && d < e)
    ensures Slot(u, d) < Slot(u, e)
  {
    if u[d].0 < u[e].0 {
      SlotInRow(u, d);
      CountMonotone(u, u[d].0 + 1, u[e].0);
    } else {
      CountNext(u, d, u[d].0);
      var q := u[..e];
      assert q[..d + 1] == u[..d + 1];
      CountAtMonotone(q, d + 1, u[d].0);
    }
  }

  lemma SlotsApart(u: seq<Triple<int>>, d: nat, e: nat)
    requires d < |u| && e < |u| && d != e
    ensures Slot(u, d) != Slot(u, e)
  {
    if u[d].0 < u[e].0 || (u[d].0 == u[e].0 && d < e) {
      SlotOrder(u, d, e);
    } else {
      SlotOrder(u, e, d);
    }
  }

  /** The i-th entry of row c. */
  lemma {:induction false} NthOfRow(u: seq<Triple<int>>, c: nat, i: nat) returns (e: nat)
    requires i < CountAt(u, c)
    ensures e < |u| && u[e].0 == c && CountAt(u[..e], c) == i
  {
    var m := |u| - 1;
    if u[m].0 == c && CountAt(u[..m], c) == i {
      e := m;
    } else {
      e := NthOfRow(u[..m], c, i);
      assert u[..m][..e] == u[..e];
    }
  }

  /** Every slot is some entry's. */
  lemma {:induction false} SlotFilled(u: seq<Triple<int>>, p: nat, c: nat) returns (e: nat)
    requires c > 0 && p < CountBelow(u, c)
    ensures e < |u| && Slot(u, e) == p
  {
    NoneBelow(u);
    if p < CountBelow(u, c - 1) {
      e := SlotFilled(u, p, c - 1);
    } else {
      CountSplit(u, c - 1);
      e := NthOfRow(u, c - 1, p - CountBelow(u, c - 1));
    }
  }

  lemma {:induction false} NoneBelow(u: seq<Triple<int>>)
    ensures CountBelow(u, 0) == 0
  {
    if u != [] {
      NoneBelow(u[..|u| - 1]);
    }
  }

  /** out holds the first e entries, each in its slot. */
  ghost predicate Scattered(u: seq<Triple<int>>, out: seq<Triple<int>>, e: nat) {
    && |out| == |u| && e <= |u|
    && forall k :: 0 <= k < e ==> Slot(u, k) < |u| && out[Slot(u, k)] == u[k]
  }

  lemma ScatterStep(u: seq<Triple<int>>, out: seq<Triple<int>>, e: nat)
    requires Scattered(u, out, e) && e < |u|
    ensures Slot(u, e) < |u| && Scattered(u, out[Slot(u, e) := u[e]], e + 1)
  {
    SlotInRow(u, e);
    forall k | 0 <= k < e ensures Slot(u, k) != Slot(u, e) {
      SlotsApart(u, k, e);
    }
  }

  /** The scattered list has the members of u and ascends when u's columns do within each row. */
  lemma ScatteredSorted(u: seq<Triple<int>>, out: seq<Triple<int>>, n: nat)
    requires Scattered(u, out, |u|) && RowsBelow(u, n)
    requires forall k, l :: 0 <= k < l < |u| && u[k].0 == u[l].0 ==> u[k].1 < u[l].1
    ensures Ascending(out) && (forall x :: x in out <==> x in u)
    ensures forall p :: 0 <= p < |u| ==> out[p].0 < n && CountBelow(u, out[p].0) <= p < CountBelow(u, out[p].0 + 1)
  {
    CountEnds(u, n);
    forall p | 0 <= p < |u|
      ensures out[p] in u && out[p].0 < n && CountBelow(u, out[p].0) <= p < CountBelow(u, out[p].0 + 1)
    {
      var k := SlotFilled(u, p, n);
      SlotInRow(u, k);
      assert out[p] == u[k];
    }
    forall x | x in u ensures x in out {
      var k :| 0 <= k < |u| && u[k] == x;
      assert out[Slot(u, k)] == x;
    }
    forall p, q | 0 <= p < q < |u| ensures out[p].0 < out[q].0 || (out[p].0 == out[q].0 && out[p].1 < out[q].1) {
      var k := SlotFilled(u, p, n);
      var l := SlotFilled(u, q, n);
      assert out[p] == u[k] && out[q] == u[l];
      if !(u[k].0 < u[l].0 || (u[k].0 == u[l].0 && k < l)) {
        SlotOrder(u, l, k);
      }
    }
  }

  // ---------------------------------------------------------------- the method

  ghost predicate IsTranspose(a: Csr, b: Csr) {
    && a.Valid() && b.Valid() && a.n == b.n
    && forall r: nat, c: nat, v: int :: (r, c, v) in a.Triples() <==> (c, r, v) in b.Triples()
  }

  lemma SwappedFacts(a: Csr)
    requires a.Valid()
    ensures RowsBelow(Swapped(a), a.n) && ColsBelow(Swapped(a), a.n)
    ensures forall k, l :: 0 <= k < l < |Swapped(a)| && Swapped(a)[k].0 == Swapped(a)[l].0 ==>
            Swapped(a)[k].1 < Swapped(a)[l].1
    ensures forall r: nat, c: nat, v: int :: (r, c, v) in a.Triples() <==> (c, r, v) in Swapped(a)
  {
    ValidTriples(a);
    var t, u := a.Triples(), Swapped(a);
    forall r: nat, c: nat, v: int ensures (r, c, v) in t <==> (c, r, v) in u {
      if (r, c, v) in t {
        var k :| 0 <= k < |t| && t[k] == (r, c, v);
        assert u[k] == (c, r, v);
      }
      if (c, r, v) in u {
        var k :| 0 <= k < |u| && u[k] == (c, r, v);
        assert t[k] == (r, c, v);
      }
    }
  }

  /** The scattered triples, seen from the two arrays that are written. */
  ghost function Written(u: seq<Triple<int>>, out: seq<Triple<int>>, colidx: seq<nat>, vals: seq<int>, e: nat): bool
    requires |out| == |u|
  {
    && |colidx| == |vals| == |u|
    && Scattered(u, out, e)
    && forall p :: 0 <= p < |u| ==> colidx[p] == out[p].1 && vals[p] == out[p].2
  }

  lemma SameCounts(u: seq<Triple<int>>, out: seq<Triple<int>>, i: nat)
    requires |u| == |out|
    requires forall p :: 0 <= p < |u| ==> CountBelow(u, out[p].0) <= p < CountBelow(u, out[p].0 + 1)
    ensures CountBelow(out, i) == CountBelow(u, i)
  {
    CountMonotone(u, i, i);
    forall k | 0 <= k < |out| ensures out[k].0 < i <==> k < CountBelow(u, i) {
      if out[k].0 < i {
        CountMonotone(u, out[k].0 + 1, i);
      } else {
        CountMonotone(u, i, out[k].0);
      }
    }
    CutCounts(out, i, CountBelow(u, i));
  }

  lemma TransposeBuilt(a: Csr, rowptr: seq<nat>, out: seq<Triple<int>>, colidx: seq<nat>, vals: seq<int>)
    requires a.Valid() && Points(rowptr, a.n, Swapped(a)) && |out| == |a.colidx|
    requires Written(Swapped(a), out, colidx, vals, |a.colidx|)
    ensures IsTranspose(a, Csr(a.n, rowptr, colidx, vals))
  {
    var u, n := Swapped(a), a.n;
    SwappedFacts(a);
    ScatteredSorted(u, out, n);
    forall k | 0 <= k < |out| ensures out[k].1 < n {
      assert out[k] in u;
    }
    forall i | 0 <= i <= n ensures rowptr[i] == CountBelow(out, i) {
      SameCounts(u, out, i);
    }
    FromTriples(Csr(n, rowptr, colidx, vals), out);
    forall r: nat, c: nat, v: int ensures (r, c, v) in a.Triples() <==> (c, r, v) in out {
      assert (c, r, v) in u <==> (c, r, v) in out;
    }
  }

  /** Where the next entry of each row goes. */
  ghost predicate Cursors(u: seq<Triple<int>>, n: nat, cur: seq<nat>, e: nat) {
    |cur| == n && e <= |u| && forall c :: 0 <= c < n ==> cur[c] == CountBelow(u, c) + CountAt(u[..e], c)
  }

  lemma CursorStep(u: seq<Triple<int>>, n: nat, cur: seq<nat>, e: nat)
    requires Cursors(u, n, cur, e) && e < |u| && u[e].0 < n
    ensures cur[u[e].0] == Slot(u, e) && Cursors(u, n, cur[u[e].0 := cur[u[e].0] + 1], e + 1)
  {
    var cur' := cur[u[e].0 := cur[u[e].0] + 1];
    forall c | 0 <= c < n ensures cur'[c] == CountBelow(u, c) + CountAt(u[..e + 1], c) {
      CountNext(u, e, c);
    }
  }

  /** The state of the scatter. */
  ghost predicate Moving(u: seq<Triple<int>>, n: nat, cur: seq<nat>, out: seq<Triple<int>>, colidx: seq<nat>,
                         vals: seq<int>, e: nat) {
    |out| == |u| && Cursors(u, n, cur, e) && Written(u, out, colidx, vals, e)
  }

  lemma MoveStep(u: seq<Triple<int>>, n: nat, cur: seq<nat>, out: seq<Triple<int>>, colidx: seq<nat>, vals: seq<int>,
                 e: nat, p: nat)
    requires Moving(u, n, cur, out, colidx, vals, e) && e < |u| && u[e].0 < n && p == cur[u[e].0]
    ensures p < |u|
    ensures Moving(u, n, cur[u[e].0 := p + 1], out[p := u[e]], colidx[p := u[e].1], vals[p := u[e].2], e + 1)
  {
    CursorStep(u, n, cur, e);
    ScatterStep(u, out, e);
  }

  /** Puts one entry into the next slot of its column. */
  method MoveEntry(r: nat, c: nat, v: int, cur: array<nat>, colidx: array<nat>, vals: array<int>) returns (p: nat)
    requires c < cur.Length && cur[c] < colidx.Length == vals.Length && cur != colidx
    modifies cur, colidx, vals
    ensures p == old(cur[c]) && cur[..] == old(cur[..])[c := p + 1]
    ensures colidx[..] == old(colidx[..])[p := r] && vals[..] == old(vals[..])[p := v]
  {
    p := cur[c];
    colidx[p] := r;
    vals[p] := v;
    cur[c] := cur[c] + 1;
  }

  /** The e-th entry read. */
  method MoveNext(ghost u: seq<Triple<int>>, ghost n: nat, r: nat, c: nat, v: int, cur: array<nat>,
                  ghost out: seq<Triple<int>>,
                  colidx: array<nat>, vals: array<int>, ghost e: nat) returns (ghost out': seq<Triple<int>>)
    requires Moving(u, n, cur[..], out, colidx[..], vals[..], e) && e < |u| && u[e] == (c, r, v) && c < n
             && cur != colidx
    modifies cur, colidx, vals
    ensures Moving(u, n, cur[..], out', colidx[..], vals[..], e + 1)
  {
    MoveStep(u, n, cur[..], out, colidx[..], vals[..], e, cur[c]);
    var p := MoveEntry(r, c, v, cur, colidx, vals);
    out' := out[p := u[e]];
  }

  /** Row r's entries are what is read from position e on. */
  ghost predicate ReadsRow(u: seq<Triple<int>>, n: nat, r: nat, cols: seq<nat>, vs: seq<int>, e: nat) {
    && |cols| == |vs| && e + |cols| <= |u|
    && forall k :: 0 <= k < |cols| ==> u[e + k] == (cols[k], r, vs[k]) && cols[k] < n
  }

  lemma RowIsRead(a: Csr, u: seq<Triple<int>>, r: nat)
    requires a.Valid() && r < a.n && u == Swapped(a)
    ensures ReadsRow(u, a.n, r, a.Row(r).0, a.Row(r).1, a.rowptr[r])
    ensures a.rowptr[r] + |a.Row(r).0| == a.rowptr[r + 1]
  {
    forall k | 0 <= k < |a.Row(r).0| ensures u[a.rowptr[r] + k] == (a.Row(r).0[k], r, a.Row(r).1[k]) {
      InRow(a, r, a.rowptr[r] + k);
    }
  }

  method MoveRow(ghost u: seq<Triple<int>>, ghost n: nat, r: nat, cols: seq<nat>, vs: seq<int>, cur: array<nat>,
                 ghost out: seq<Triple<int>>, colidx: array<nat>, vals: array<int>, ghost start: nat)
    returns (ghost out': seq<Triple<int>>)
    requires ReadsRow(u, n, r, cols, vs, start) && cur != colidx
    requires Moving(u, n, cur[..], out, colidx[..], vals[..], start)
    modifies cur, colidx, vals
    ensures Moving(u, n, cur[..], out', colidx[..], vals[..], start + |cols|)
  {
    out' := out;
    ghost var e := start;
    for k := 0 to |cols|
      invariant e == start + k
      invariant Moving(u, n, cur[..], out', colidx[..], vals[..], e)
    {
      out' := MoveNext(u, n, r, cols[k], vs[k], cur, out', colidx, vals, e);
      e := e + 1;
    }
  }

  method MoveOneRow(a: Csr, ghost u: seq<Triple<int>>, r: nat, cur: array<nat>, ghost out: seq<Triple<int>>,
                    colidx: array<nat>, vals: array<int>, ghost start: nat)
    returns (ghost out': seq<Triple<int>>)
    requires a.Valid() && r < a.n && u == Swapped(a) && start == a.rowptr[r] && cur != colidx
    requires Moving(u, a.n, cur[..], out, colidx[..], vals[..], start)
    modifies cur, colidx, vals
    ensures Moving(u, a.n, cur[..], out', colidx[..], vals[..], a.rowptr[r + 1])
  {
    RowIsRead(a, u, r);
    var (cols, vs) := a.Row(r);
    out' := MoveRow(u, a.n, r, cols, vs, cur, out, colidx, vals, start);
  }

  /** Where each column's entries start. */
  method ColumnStarts(a: Csr) returns (rowptr: seq<nat>)
    requires a.Valid()
    ensures Points(rowptr, a.n, Swapped(a))
  {
    SwappedFacts(a);
    var counted := seq(|a.colidx|, e requires 0 <= e < |a.colidx| => (a.colidx[e], 0, 0));
    SameRows(counted, Swapped(a));
    rowptr := RowPointers(a.n, counted);
  }

  lemma MoveStarts(u: seq<Triple<int>>, n: nat, cur: seq<nat>, out: seq<Triple<int>>, colidx: seq<nat>, vals: seq<int>)
    requires |cur| == n && (forall c :: 0 <= c < n ==> cur[c] == CountBelow(u, c))
    requires |out| == |colidx| == |vals| == |u| && forall p :: 0 <= p < |u| ==>
             out[p] == (0, 0, 0) && colidx[p] == 0 && vals[p] == 0
    ensures Moving(u, n, cur, out, colidx, vals, 0)
  {
    assert u[..0] == [];
  }

  /** The transpose holds the entries of the matrix with row and column swapped. */
  method Transpose(a: Csr) returns (b: Csr)
    requires a.Valid()
    ensures IsTranspose(a, b)
  {
    ghost var u := Swapped(a);
    var rowptr := ColumnStarts(a);
    var cur := new nat[a.n](i requires 0 <= i < a.n => if i < |rowptr| then rowptr[i] else 0);
    var colidx, vals := new nat[|a.colidx|](_ => 0), new int[|a.colidx|](_ => 0);
    ghost var out := seq(|u|, p => (0, 0, 0));
    MoveStarts(u, a.n, cur[..], out, colidx[..], vals[..]);
    ghost var e: nat := 0;
    for r := 0 to a.n
      invariant e == a.rowptr[r] && Moving(u, a.n, cur[..], out, colidx[..], vals[..], e)
    {
      out := MoveOneRow(a, u, r, cur, out, colidx, vals, e);
      e := a.rowptr[r + 1];
    }
    b := Csr(a.n, rowptr, colidx[..], vals[..]);
    TransposeBuilt(a, rowptr, out, colidx[..], vals[..]);
  }

  /** Only the rows matter to the counts. */
  lemma {:induction false} SameRows(a: seq<Triple<int>>, b: seq<Triple<int>>)
    requires |a| == |b| && forall k :: 0 <= k < |a| ==> a[k].0 == b[k].0
    ensures forall i: nat :: CountBelow(a, i) == CountBelow(b, i)
  {
    if a != [] {
      SameRows(a[..|a| - 1], b[..|b| - 1]);
    }
  }

  /** Transposing twice gives the matrix back, arrays and all. */
  lemma Involution(a: Csr, b: Csr, c: Csr)
    requires IsTranspose(a, b) && IsTranspose(b, c)
    ensures c == a
  {
    forall x: Triple<int> ensures x in a.Triples() <==> x in c.Triples() {
      var (r, k, v) := x;
      assert (r, k, v) in a.Triples() <==> (k, r, v) in b.Triples();
      assert (k, r, v) in b.Triples() <==> (r, k, v) in c.Triples();
    }
    SameMatrix(a, c);
  }

  /** There is only one transpose. */
  lemma TransposeUnique(a: Csr, b: Csr, c: Csr)
    requires IsTranspose(a, b) && IsTranspose(a, c)
    ensures b == c
  {
    forall x: Triple<int> ensures x in b.Triples() <==> x in c.Triples() {
      var (r, k, v) := x;
      assert (k, r, v) in a.Triples() <==> (r, k, v) in b.Triples();
    }
    SameMatrix(b, c);
  }
}
