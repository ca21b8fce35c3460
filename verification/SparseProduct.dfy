/** The row-by-row sparse product with a hash accumulator, against the sum over the inner index. */
module SparseProduct {
  import opened Sorting
  import opened TripleLists
  import opened Sparse
  import opened SparseTranspose

  type Triples = seq<Triple<int>>

  /** The sum of a[i, k] * b[k, j] over k < m. */
  function DotBelow(a: Triples, b: Triples, i: nat, j: nat, m: nat): int {
    if m == 0 then 0 else DotBelow(a, b, i, j, m - 1) + ValueAt(a, i, m - 1) * ValueAt(b, m - 1, j)
  }

  /** Some inner index joins a stored entry of a to one of b. */
  ghost predicate Meets(a: Triples, b: Triples, i: nat, j: nat) {
    exists k: nat :: Stored(a, i, k) && Stored(b, k, j)
  }

  /** c holds the product: an entry wherever rows and columns meet, even if the sum is zero. */
  ghost predicate IsProduct(a: Csr, b: Csr, c: Csr) {
    && a.Valid() && b.Valid() && c.Valid() && a.n == b.n == c.n
    && forall i: nat, j: nat, v: int :: (i, j, v) in c.Triples() <==>
         Meets(a.Triples(), b.Triples(), i, j) && v == DotBelow(a.Triples(), b.Triples(), i, j, a.n)
  }

  /** The entries of row i of the product. */
  ghost predicate ProductRow(a: Csr, b: Csr, i: nat, row: RowList)
    requires a.Shaped() && b.Shaped()
  {
    && (forall x, y :: 0 <= x < y < |row| ==> row[x].0 < row[y].0)
    && (forall j: nat, v: int :: (j, v) in row <==>
          Meets(a.Triples(), b.Triples(), i, j) && v == DotBelow(a.Triples(), b.Triples(), i, j, a.n))
  }

  /** The entries of the first i rows. */
  ghost predicate ProductRows(a: Csr, b: Csr, i: nat, t: Triples)
    requires a.Shaped() && b.Shaped()
  {
    && Ascending(t) && RowsBelow(t, i)
    && (forall r: nat, j: nat, v: int :: (r, j, v) in t <==>
          r < i && Meets(a.Triples(), b.Triples(), r, j) && v == DotBelow(a.Triples(), b.Triples(), r, j, a.n))
  }

  // ---------------------------------------------------------------- one row

  type Acc = map<nat, int>

  function ValueIn(acc: Acc, j: nat): int {
    if j in acc then acc[j] else 0
  }

  /** What a list of columns and values holds at column j. */
  function ListValue(cols: seq<nat>, vs: seq<int>, j: nat): int
    requires |cols| == |vs|
  {
    if cols == [] then 0 else
      ListValue(cols[..|cols| - 1], vs[..|vs| - 1], j) + (if cols[|cols| - 1] == j then vs[|vs| - 1] else 0)
  }

  lemma {:induction false} NotListed(cols: seq<nat>, vs: seq<int>, j: nat)
    requires |cols| == |vs| && j !in cols
    ensures ListValue(cols, vs, j) == 0
  {
    if cols != [] {
      NotListed(cols[..|cols| - 1], vs[..|vs| - 1], j);
    }
  }

  lemma {:induction false} Listed(cols: seq<nat>, vs: seq<int>, f: nat)
    requires |cols| == |vs| && f < |cols| && forall x, y :: 0 <= x < y < |cols| ==> cols[x] != cols[y]
    ensures ListValue(cols, vs, cols[f]) == vs[f]
  {
    var m := |cols| - 1;
    if f == m {
      assert cols[f] !in cols[..m];
      NotListed(cols[..m], vs[..m], cols[f]);
    } else {
      Listed(cols[..m], vs[..m], f);
    }
  }

  lemma RowAscends(a: Csr, i: nat)
    requires a.Valid() && i < a.n
    ensures forall x, y :: 0 <= x < y < |a.Row(i).0| ==> a.Row(i).0[x] < a.Row(i).0[y]
    ensures forall x :: 0 <= x < |a.Row(i).0| ==> a.Row(i).0[x] < a.n
  {
    var cols, base := a.Row(i).0, a.rowptr[i];
    forall x | 0 <= x < |cols| ensures cols[x] == a.colidx[base + x] && cols[x] < a.n {
    }
    forall x, y | 0 <= x < y < |cols| ensures cols[x] < cols[y] {
      assert a.colidx[base + x] < a.colidx[base + y];
    }
  }

  lemma EntryValue(b: Csr, k: nat, f: nat)
    requires b.Valid() && k < b.n && f < |b.Row(k).0|
    ensures b.Row(k).1[f] == ValueAt(b.Triples(), k, b.Row(k).0[f]) && Stored(b.Triples(), k, b.Row(k).0[f])
  {
    ValidTriples(b);
    InRow(b, k, b.rowptr[k] + f);
    AscendingValue(b.Triples(), b.rowptr[k] + f);
  }

  lemma NoEntry(b: Csr, k: nat, j: nat)
    requires b.Valid() && k < b.n && j !in b.Row(k).0
    ensures !Stored(b.Triples(), k, j)
  {
    var t := b.Triples();
    forall e | 0 <= e < |t| && t[e].0 == k ensures t[e].1 != j {
      RowRange(b, e, b.n);
      assert b.Row(k).0[e - b.rowptr[k]] == b.colidx[e];
    }
  }

  /** A row's list is the row of the matrix. */
  lemma RowValue(b: Csr, k: nat, j: nat)
    requires b.Valid() && k < b.n
    ensures ListValue(b.Row(k).0, b.Row(k).1, j) == ValueAt(b.Triples(), k, j)
    ensures j in b.Row(k).0 <==> Stored(b.Triples(), k, j)
  {
    var (cols, vs) := b.Row(k);
    if j in cols {
      var f :| 0 <= f < |cols| && cols[f] == j;
      EntryValue(b, k, f);
      RowAscends(b, k);
      Listed(cols, vs, f);
    } else {
      NoEntry(b, k, j);
      AbsentValue(b.Triples(), k, j);
      NotListed(cols, vs, j);
    }
  }

  /** Adds av times a row to the accumulator. */
  method AddScaled(acc: Acc, av: int, cols: seq<nat>, vs: seq<int>) returns (r: Acc)
    requires |cols| == |vs|
    ensures forall j: nat :: j in r <==> j in acc || j in cols
    ensures forall j: nat :: ValueIn(r, j) == ValueIn(acc, j) + av * ListValue(cols, vs, j)
    ensures |r| <= |acc| + |cols|
  {
    r := acc;
    for f := 0 to |cols|
      invariant forall j: nat :: j in r <==> j in acc || j in cols[..f]
      invariant forall j: nat :: ValueIn(r, j) == ValueIn(acc, j) + av * ListValue(cols[..f], vs[..f], j)
      invariant |r| <= |acc| + f
    {
      var j, bv := cols[f], vs[f];
      ListNext(cols, vs, f, av);
      r := r[j := ValueIn(r, j) + av * bv];
    }
    assert cols[..|cols|] == cols && vs[..|vs|] == vs;
  }

  lemma ListNext(cols: seq<nat>, vs: seq<int>, f: nat, av: int)
    requires f < |cols| == |vs|
    ensures cols[..f + 1] == cols[..f] + [cols[f]]
    ensures forall j: nat :: av * ListValue(cols[..f + 1], vs[..f + 1], j) ==
                             av * ListValue(cols[..f], vs[..f], j) + (if cols[f] == j then av * vs[f] else 0)
  {
    var c, v := cols[..f + 1], vs[..f + 1];
    assert c[..f] == cols[..f] && v[..f] == vs[..f];
    forall j: nat ensures av * ListValue(c, v, j) ==
                          av * ListValue(cols[..f], vs[..f], j) + (if cols[f] == j then av * vs[f] else 0) {
      Times(av, ListValue(cols[..f], vs[..f], j), if cols[f] == j then vs[f] else 0);
    }
  }

  lemma Times(a: int, x: int, y: int)
    ensures a * (x + y) == a * x + a * y
  {
  }

  /** Column j is met by one of the first m entries of row i. */
  ghost predicate Touched(cols: seq<nat>, b: Triples, m: nat, j: nat)
    requires m <= |cols|
  {
    m > 0 && (Touched(cols, b, m - 1, j) || Stored(b, cols[m - 1], j))
  }

  lemma {:induction false} TouchedBy(cols: seq<nat>, b: Triples, m: nat, j: nat)
    requires m <= |cols|
    ensures Touched(cols, b, m, j) <==> exists x :: 0 <= x < m && Stored(b, cols[x], j)
  {
    if m > 0 {
      TouchedBy(cols, b, m - 1, j);
    }
  }

  /** The inner indices used up by the first m entries. */
  function Used(cols: seq<nat>, m: nat): nat
    requires m <= |cols|
  {
    if m == 0 then 0 else cols[m - 1] + 1
  }

  /** The first m entries of row i have been used. */
  ghost predicate Accumulated(a: Csr, b: Csr, i: nat, m: nat, acc: Acc)
    requires a.Valid() && b.Valid() && a.n == b.n && i < a.n && m <= |a.Row(i).0|
  {
    var cols := a.Row(i).0;
    forall j: nat ::
      && (j in acc <==> Touched(cols, b.Triples(), m, j))
      && ValueIn(acc, j) == DotBelow(a.Triples(), b.Triples(), i, j, Used(cols, m))
  }

  /** Inner indices without a stored entry contribute nothing. */
  lemma {:induction false} SkipGap(a: Triples, b: Triples, i: nat, j: nat, from: nat, to: nat)
    requires from <= to && forall k: nat :: from <= k < to ==> !Stored(a, i, k)
    ensures DotBelow(a, b, i, j, to) == DotBelow(a, b, i, j, from)
  {
    if from < to {
      SkipGap(a, b, i, j, from, to - 1);
      AbsentValue(a, i, to - 1);
    }
  }

  /** The gap before the m-th entry of row i is empty. */
  lemma EmptyGap(a: Csr, i: nat, m: nat, k: nat)
    requires a.Valid() && i < a.n && m <= |a.Row(i).0|
    requires m > 0 ==> a.Row(i).0[m - 1] < k
    requires m < |a.Row(i).0| ==> k < a.Row(i).0[m]
    ensures !Stored(a.Triples(), i, k)
  {
    RowValue(a, i, k);
    RowAscends(a, i);
  }

  lemma DotStep(a: Csr, b: Csr, i: nat, m: nat, j: nat)
    requires a.Valid() && b.Valid() && a.n == b.n && i < a.n && m < |a.Row(i).0| && a.Row(i).0[m] < b.n
    ensures var k := a.Row(i).0[m];
            DotBelow(a.Triples(), b.Triples(), i, j, k + 1) ==
            DotBelow(a.Triples(), b.Triples(), i, j, Used(a.Row(i).0, m))
            + a.Row(i).1[m] * ListValue(b.Row(k).0, b.Row(k).1, j)
  {
    var cols := a.Row(i).0;
    var k := cols[m];
    RowAscends(a, i);
    forall x: nat | Used(cols, m) <= x < k ensures !Stored(a.Triples(), i, x) {
      EmptyGap(a, i, m, x);
    }
    SkipGap(a.Triples(), b.Triples(), i, j, Used(cols, m), k);
    RowValue(b, k, j);
    EntryValue(a, i, m);
  }

  lemma AccumulateStep(a: Csr, b: Csr, i: nat, m: nat, acc: Acc, acc': Acc)
    requires a.Valid() && b.Valid() && a.n == b.n && i < a.n && m < |a.Row(i).0| && a.Row(i).0[m] < b.n
    requires Accumulated(a, b, i, m, acc)
    requires var k := a.Row(i).0[m];
             && (forall j: nat :: j in acc' <==> j in acc || j in b.Row(k).0)
             && (forall j: nat ::
               ValueIn(acc', j) == ValueIn(acc, j) + a.Row(i).1[m] * ListValue(b.Row(k).0, b.Row(k).1, j))
    ensures Accumulated(a, b, i, m + 1, acc')
  {
    var cols := a.Row(i).0;
    var k := cols[m];
    forall j: nat ensures j in acc' <==> Touched(cols, b.Triples(), m + 1, j) {
      RowValue(b, k, j);
      assert j in acc <==> Touched(cols, b.Triples(), m, j);
    }
    forall j: nat ensures ValueIn(acc', j) == DotBelow(a.Triples(), b.Triples(), i, j, k + 1) {
      DotStep(a, b, i, m, j);
    }
  }

  lemma AccumulatedAll(a: Csr, b: Csr, i: nat, acc: Acc)
    requires a.Valid() && b.Valid() && a.n == b.n && i < a.n
    requires Accumulated(a, b, i, |a.Row(i).0|, acc)
    ensures forall j: nat :: j in acc <==> Meets(a.Triples(), b.Triples(), i, j)
    ensures forall j: nat :: ValueIn(acc, j) == DotBelow(a.Triples(), b.Triples(), i, j, a.n)
  {
    var cols := a.Row(i).0;
    var m := |cols|;
    RowAscends(a, i);
    forall j: nat ensures j in acc <==> Meets(a.Triples(), b.Triples(), i, j) {
      TouchedBy(cols, b.Triples(), m, j);
      if j in acc {
        var x :| 0 <= x < m && Stored(b.Triples(), cols[x], j);
        RowValue(a, i, cols[x]);
      }
      if Meets(a.Triples(), b.Triples(), i, j) {
        var k: nat :| Stored(a.Triples(), i, k) && Stored(b.Triples(), k, j);
        RowValue(a, i, k);
        var x :| 0 <= x < m && cols[x] == k;
      }
    }
    var from := Used(cols, m);
    forall k: nat | from <= k < a.n ensures !Stored(a.Triples(), i, k) {
      EmptyGap(a, i, m, k);
    }
    forall j: nat ensures ValueIn(acc, j) == DotBelow(a.Triples(), b.Triples(), i, j, a.n) {
      SkipGap(a.Triples(), b.Triples(), i, j, from, a.n);
    }
  }

  // ---------------------------------------------------------------- rows into a matrix

  type RowList = seq<(nat, int)>

  ghost predicate RowOf(acc: Acc, row: RowList) {
    && |row| == |acc|
    && (forall x, y :: 0 <= x < y < |row| ==> row[x].0 < row[y].0)
    && (forall j: nat, v: int :: (j, v) in row <==> j in acc && acc[j] == v)
  }

  /** The accumulator's entries in any order. */
  method Gather(acc: Acc) returns (row: RowList)
    ensures |row| == |acc|
    ensures forall x, y :: 0 <= x < y < |row| ==> row[x].0 != row[y].0
    ensures forall j: nat, v: int :: (j, v) in row <==> j in acc && acc[j] == v
  {
    row := [];
    var todo := acc.Keys;
    while todo != {}
      invariant todo <= acc.Keys && |row| + |todo| == |acc.Keys|
      invariant forall x :: 0 <= x < |row| ==> row[x].0 in acc && row[x].0 !in todo
      invariant forall x, y :: 0 <= x < y < |row| ==> row[x].0 != row[y].0
      invariant forall j: nat, v: int :: (j, v) in row <==> j in acc && j !in todo && acc[j] == v
    {
      var j :| j in todo;
      row := row + [(j, acc[j])];
      todo := todo - {j};
    }
    assert |acc.Keys| == |acc|;
  }

  /** Uses the m-th entry of row i. */
  method UseEntry(a: Csr, b: Csr, i: nat, m: nat, acc: Acc) returns (acc': Acc)
    requires a.Valid() && b.Valid() && a.n == b.n && i < a.n && m < |a.Row(i).0| && a.Row(i).0[m] < b.n
    requires Accumulated(a, b, i, m, acc)
    ensures Accumulated(a, b, i, m + 1, acc') && |acc'| <= |acc| + |b.Row(a.Row(i).0[m]).0|
  {
    var (cols, vs) := a.Row(i);
    var (bcols, bvals) := b.Row(cols[m]);
    acc' := AddScaled(acc, vs[m], bcols, bvals);
    AccumulateStep(a, b, i, m, acc, acc');
  }

  /** The accumulator for row i has no more entries than the multiplications it took. */
  method AccumulateRow(a: Csr, b: Csr, i: nat) returns (acc: Acc)
    requires a.Valid() && b.Valid() && a.n == b.n && i < a.n
    ensures Accumulated(a, b, i, |a.Row(i).0|, acc)
    ensures |acc| <= RowFlops(a, b, i, |a.Row(i).0|)
  {
    acc := map[];
    var cols := a.Row(i).0;
    RowAscends(a, i);
    for m := 0 to |cols|
      invariant Accumulated(a, b, i, m, acc)
      invariant |acc| <= RowFlops(a, b, i, m)
    {
      acc := UseEntry(a, b, i, m, acc);
    }
  }

  lemma RowFinished(a: Csr, b: Csr, i: nat, acc: Acc, row: RowList)
    requires a.Valid() && b.Valid() && a.n == b.n && i < a.n
    requires Accumulated(a, b, i, |a.Row(i).0|, acc) && RowOf(acc, row)
    ensures ProductRow(a, b, i, row)
  {
    AccumulatedAll(a, b, i, acc);
    forall j: nat, v: int ensures (j, v) in row <==>
        Meets(a.Triples(), b.Triples(), i, j) && v == DotBelow(a.Triples(), b.Triples(), i, j, a.n)
    {
      assert j in acc ==> acc[j] == ValueIn(acc, j);
    }
  }

  /** One row of the product, no longer than the multiplications it took. */
  method MultiplyRow(a: Csr, b: Csr, i: nat) returns (row: RowList)
    requires a.Valid() && b.Valid() && a.n == b.n && i < a.n
    ensures |row| <= RowFlops(a, b, i, |a.Row(i).0|) && ProductRow(a, b, i, row)
  {
    var acc := AccumulateRow(a, b, i);
    var found := Gather(acc);
    row := SortBy(found, (x: (nat, int)) => (x.0, 0, 0));
    SortedRow(acc, found, row);
    RowFinished(a, b, i, acc, row);
  }

  lemma SortedRow(acc: Acc, found: RowList, row: RowList)
    requires SortedBy(row, (x: (nat, int)) => (x.0, 0, 0)) && multiset(row) == multiset(found) && |found| == |acc|
    requires forall x, y :: 0 <= x < y < |found| ==> found[x].0 != found[y].0
    requires forall j: nat, v: int :: (j, v) in found <==> j in acc && acc[j] == v
    ensures RowOf(acc, row)
  {
    SameMembers(found, row);
    forall x, y | 0 <= x < y < |row| ensures row[x].0 < row[y].0 {
      var p, q := row[x], row[y];
      assert p in found && q in found && p == (p.0, p.1) && q == (q.0, q.1);
      assert p != q;
    }
  }

  /** The multiplications row i takes for its first m entries. */
  function RowFlops(a: Csr, b: Csr, i: nat, m: nat): nat
    requires a.Valid() && b.Valid() && a.n == b.n && i < a.n && m <= |a.Row(i).0|
  {
    if m == 0 then 0 else RowAscends(a, i); RowFlops(a, b, i, m - 1) + |b.Row(a.Row(i).0[m - 1]).0|
  }

  function FlopsBelow(a: Csr, b: Csr, i: nat): nat
    requires a.Valid() && b.Valid() && a.n == b.n && i <= a.n
  {
    if i == 0 then 0 else FlopsBelow(a, b, i - 1) + RowFlops(a, b, i - 1, |a.Row(i - 1).0|)
  }

  /** The multiplications of the whole product. */
  method Flopcount(a: Csr, b: Csr) returns (r: nat)
    requires a.Valid() && b.Valid() && a.n == b.n
    ensures r == FlopsBelow(a, b, a.n)
  {
    r := 0;
    for i := 0 to a.n
      invariant r == FlopsBelow(a, b, i)
    {
      var cols := a.Row(i).0;
      RowAscends(a, i);
      for m := 0 to |cols|
        invariant r == FlopsBelow(a, b, i) + RowFlops(a, b, i, m)
      {
        r := r + |b.Row(cols[m]).0|;
      }
    }
  }

  /** Row pointers, columns and values of a list of triples of rows before i. */
  ghost predicate Arrays(t: Triples, i: nat, ptr: seq<nat>, cols: seq<nat>, vs: seq<int>) {
    && |ptr| > i && (forall x :: 0 <= x <= i ==> ptr[x] == CountBelow(t, x))
    && |cols| == |vs| == |t| && forall e :: 0 <= e < |t| ==> cols[e] == t[e].1 && vs[e] == t[e].2
  }

  ghost function RowTriples(i: nat, row: RowList): (t: Triples)
    ensures |t| == |row|
  {
    seq(|row|, x requires 0 <= x < |row| => (i, row[x].0, row[x].1))
  }

  lemma {:induction false} LaterRow(t: Triples, s: Triples, i: nat, x: nat)
    requires x <= i && forall k :: 0 <= k < |s| ==> s[k].0 == i
    ensures CountBelow(t + s, x) == CountBelow(t, x)
  {
    if s == [] {
      assert t + s == t;
    } else {
      var m := |s| - 1;
      assert t + s == (t + s[..m]) + [s[m]];
      CountSnoc(t + s[..m], s[m], x);
      LaterRow(t, s[..m], i, x);
    }
  }

  lemma RowMembers(i: nat, row: RowList, r: nat, j: nat, v: int)
    ensures (r, j, v) in RowTriples(i, row) <==> r == i && (j, v) in row
  {
    var s := RowTriples(i, row);
    if r == i && (j, v) in row {
      var x :| 0 <= x < |row| && row[x] == (j, v);
      assert s[x] == (r, j, v);
    }
    if (r, j, v) in s {
      var x :| 0 <= x < |s| && s[x] == (r, j, v);
      assert row[x] == (j, v);
    }
  }

  lemma AppendRow(a: Csr, b: Csr, i: nat, t: Triples, row: RowList)
    requires a.Shaped() && b.Shaped() && ProductRows(a, b, i, t) && ProductRow(a, b, i, row)
    ensures ProductRows(a, b, i + 1, t + RowTriples(i, row))
  {
    var s := RowTriples(i, row);
    forall r: nat, j: nat, v: int ensures (r, j, v) in t + s <==>
        r < i + 1 && Meets(a.Triples(), b.Triples(), r, j) && v == DotBelow(a.Triples(), b.Triples(), r, j, a.n)
    {
      RowMembers(i, row, r, j, v);
      assert (r, j, v) in t + s <==> (r, j, v) in t || (r, j, v) in s;
    }
  }

  lemma AppendArrays(t: Triples, i: nat, ptr: seq<nat>, cols: seq<nat>, vs: seq<int>, row: RowList)
    requires Arrays(t, i, ptr, cols, vs) && RowsBelow(t, i) && i + 1 < |ptr|
    ensures Arrays(t + RowTriples(i, row), i + 1, ptr[i + 1 := |t| + |row|],
                   cols + seq(|row|, x requires 0 <= x < |row| => row[x].0),
                   vs + seq(|row|, x requires 0 <= x < |row| => row[x].1))
  {
    var s := RowTriples(i, row);
    forall x | 0 <= x <= i ensures CountBelow(t + s, x) == CountBelow(t, x) {
      LaterRow(t, s, i, x);
    }
    CountEnds(t + s, i + 1);
  }

  /** The hash product is the matrix product, rows sorted, and no larger than the flop count. */
  method Product(a: Csr, b: Csr) returns (c: Csr)
    requires a.Valid() && b.Valid() && a.n == b.n
    ensures IsProduct(a, b, c) && c.Nnz() <= FlopsBelow(a, b, a.n)
  {
    var ptr := new nat[a.n + 1](_ => 0);
    var cols: seq<nat>, vs: seq<int> := [], [];
    ghost var t: Triples := [];
    for i := 0 to a.n
      invariant ProductRows(a, b, i, t) && Arrays(t, i, ptr[..], cols, vs)
      invariant |t| <= FlopsBelow(a, b, i)
    {
      var row := MultiplyRow(a, b, i);
      AppendRow(a, b, i, t, row);
      AppendArrays(t, i, ptr[..], cols, vs, row);
      cols := cols + seq(|row|, x requires 0 <= x < |row| => row[x].0);
      vs := vs + seq(|row|, x requires 0 <= x < |row| => row[x].1);
      ptr[i + 1] := |cols|;
      t := t + RowTriples(i, row);
    }
    c := Csr(a.n, ptr[..], cols, vs);
    ProductBuilt(a, b, t, c);
  }

  lemma ProductBuilt(a: Csr, b: Csr, t: Triples, c: Csr)
    requires a.Valid() && b.Valid() && a.n == b.n == c.n && |c.rowptr| == a.n + 1
    requires ProductRows(a, b, a.n, t) && Arrays(t, a.n, c.rowptr, c.colidx, c.vals)
    ensures IsProduct(a, b, c) && |c.colidx| == |t|
  {
    forall e | 0 <= e < |t| ensures t[e].1 < a.n {
      var (i, j, v) := t[e];
      assert (i, j, v) in t;
      var k: nat :| Stored(a.Triples(), i, k) && Stored(b.Triples(), k, j);
      var x :| 0 <= x < |b.Triples()| && b.Triples()[x].0 == k && b.Triples()[x].1 == j;
      assert b.colidx[x] == j;
    }
    FromTriples(c, t);
  }

  // ---------------------------------------------------------------- the algebra

  lemma SwapStored(a: Csr, b: Csr, r: nat, c: nat)
    requires IsTranspose(a, b) && Stored(a.Triples(), r, c)
    ensures Stored(b.Triples(), c, r) && ValueAt(a.Triples(), r, c) == ValueAt(b.Triples(), c, r)
  {
    var t, u := a.Triples(), b.Triples();
    ValidTriples(a);
    ValidTriples(b);
    var k :| 0 <= k < |t| && t[k].0 == r && t[k].1 == c;
    var v := t[k].2;
    assert t[k] == (r, c, v);
    assert (r, c, v) in t <==> (c, r, v) in u;
    var l :| 0 <= l < |u| && u[l] == (c, r, v);
    AscendingValue(t, k);
    AscendingValue(u, l);
  }

  lemma TransposedCells(a: Csr, b: Csr, r: nat, c: nat)
    requires IsTranspose(a, b)
    ensures Stored(a.Triples(), r, c) <==> Stored(b.Triples(), c, r)
    ensures ValueAt(a.Triples(), r, c) == ValueAt(b.Triples(), c, r)
  {
    if Stored(a.Triples(), r, c) {
      SwapStored(a, b, r, c);
    } else if Stored(b.Triples(), c, r) {
      assert IsTranspose(b, a);
      SwapStored(b, a, c, r);
    } else {
      AbsentValue(a.Triples(), r, c);
      AbsentValue(b.Triples(), c, r);
    }
  }

  lemma {:induction false} TransposedDot(a: Csr, b: Csr, at: Csr, bt: Csr, i: nat, j: nat, m: nat)
    requires IsTranspose(a, at) && IsTranspose(b, bt)
    ensures DotBelow(bt.Triples(), at.Triples(), j, i, m) == DotBelow(a.Triples(), b.Triples(), i, j, m)
  {
    if m > 0 {
      TransposedDot(a, b, at, bt, i, j, m - 1);
      TransposedCells(a, at, i, m - 1);
      TransposedCells(b, bt, m - 1, j);
    }
  }

  lemma TransposedMeets(a: Csr, b: Csr, at: Csr, bt: Csr, i: nat, j: nat)
    requires IsTranspose(a, at) && IsTranspose(b, bt)
    ensures Meets(a.Triples(), b.Triples(), i, j) <==> Meets(bt.Triples(), at.Triples(), j, i)
  {
    forall k: nat
      ensures Stored(a.Triples(), i, k) <==> Stored(at.Triples(), k, i)
      ensures Stored(b.Triples(), k, j) <==> Stored(bt.Triples(), j, k)
    {
      TransposedCells(a, at, i, k);
      TransposedCells(b, bt, k, j);
    }
  }

  /** The transpose of a product is the product of the transposes the other way round: the same
      rows, columns, stored zeros and values. */
  lemma ProductTransposed(a: Csr, b: Csr, c: Csr, at: Csr, bt: Csr, ct: Csr, d: Csr)
    requires IsProduct(a, b, c) && IsTranspose(a, at) && IsTranspose(b, bt) && IsTranspose(c, ct)
             && IsProduct(bt, at, d)
    ensures ct == d
  {
    forall i: nat, j: nat, v: int ensures (i, j, v) in c.Triples() <==> (j, i, v) in d.Triples() {
      TransposedMeets(a, b, at, bt, i, j);
      TransposedDot(a, b, at, bt, i, j, a.n);
    }
    TransposeUnique(c, ct, d);
  }
}
