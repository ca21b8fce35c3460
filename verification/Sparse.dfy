/** Square sparse matrices stored by rows, and building one from triples. */
module Sparse {
  import opened Sorting
  import opened TripleLists

  datatype Csr = Csr(n: nat, rowptr: seq<nat>, colidx: seq<nat>, vals: seq<int>) {

    ghost predicate Shaped() {
      && |rowptr| == n + 1 && rowptr[0] == 0 && rowptr[n] == |colidx| == |vals|
      && forall i, j :: 0 <= i <= j <= n ==> rowptr[i] <= rowptr[j]
    }

    /** Column indices in range, and strictly ascending within each row. */
    ghost predicate Valid() {
      && Shaped()
      && (forall e :: 0 <= e < |colidx| ==> colidx[e] < n)
      && (forall i, d, e :: 0 <= i < n && rowptr[i] <= d < e < rowptr[i + 1] ==> colidx[d] < colidx[e])
    }

    function Nnz(): nat {
      |colidx|
    }

    function Row(i: nat): (r: (seq<nat>, seq<int>))
      requires Shaped() && i < n
      ensures |r.0| == |r.1| == rowptr[i + 1] - rowptr[i]
    {
      (colidx[rowptr[i]..rowptr[i + 1]], vals[rowptr[i]..rowptr[i + 1]])
    }

    /** The stored entries, row by row. */
    ghost function Triples(): (t: seq<Triple<int>>)
      requires Shaped()
      ensures |t| == |colidx|
    {
      seq(|colidx|, e requires 0 <= e < |colidx| => (RowBelow(rowptr, e, n), colidx[e], vals[e]))
    }
  }

  /** Every position belongs to the row whose range holds it. */
  lemma {:induction false} RowRange(a: Csr, e: nat, i: nat)
    requires a.Shaped() && i <= a.n && e < a.rowptr[i]
    ensures RowBelow(a.rowptr, e, i) < i
    ensures a.rowptr[RowBelow(a.rowptr, e, i)] <= e < a.rowptr[RowBelow(a.rowptr, e, i) + 1]
  {
    if i > 0 && e < a.rowptr[i - 1] {
      RowRange(a, e, i - 1);
    }
  }

  lemma InRow(a: Csr, i: nat, e: nat)
    requires a.Shaped() && i < a.n && a.rowptr[i] <= e < a.rowptr[i + 1]
    ensures e < |a.colidx| && a.Triples()[e] == (i, a.colidx[e], a.vals[e])
  {
    RowIs(a.rowptr, e, a.n, i);
  }

  lemma {:induction false} CutCounts<V>(t: seq<Triple<V>>, i: nat, p: nat)
    requires p <= |t| && forall k :: 0 <= k < |t| ==> (t[k].0 < i <==> k < p)
    ensures CountBelow(t, i) == p
  {
    if t != [] {
      CutCounts(t[..|t| - 1], i, if p == |t| then p - 1 else p);
    }
  }

  /** A valid matrix is its ascending list of triples with the row pointers counted from it. */
  lemma ValidTriples(a: Csr)
    requires a.Valid()
    ensures Ascending(a.Triples()) && RowsBelow(a.Triples(), a.n) && Points(a.rowptr, a.n, a.Triples())
  {
    var t := a.Triples();
    forall e | 0 <= e < |t| ensures t[e].0 < a.n && a.rowptr[t[e].0] <= e < a.rowptr[t[e].0 + 1] {
      RowRange(a, e, a.n);
    }
    forall d, e | 0 <= d < e < |t| ensures t[d].0 < t[e].0 || (t[d].0 == t[e].0 && t[d].1 < t[e].1) {
    }
    forall i | 0 <= i <= a.n ensures a.rowptr[i] == CountBelow(t, i) {
      forall k | 0 <= k < |t| ensures t[k].0 < i <==> k < a.rowptr[i] {
        if t[k].0 < i {
          assert a.rowptr[t[k].0 + 1] <= a.rowptr[i];
        } else {
          assert a.rowptr[i] <= a.rowptr[t[k].0];
        }
      }
      CutCounts(t, i, a.rowptr[i]);
    }
  }

  /** Matrices of one size with the same entries are the same. */
  lemma SameMatrix(a: Csr, b: Csr)
    requires a.Valid() && b.Valid() && a.n == b.n && forall x: Triple<int> :: x in a.Triples() <==> x in b.Triples()
    ensures a == b
  {
    ValidTriples(a);
    ValidTriples(b);
    SameList(a.Triples(), b.Triples());
    forall e | 0 <= e < |a.colidx| ensures a.colidx[e] == b.colidx[e] && a.vals[e] == b.vals[e] {
      assert a.Triples()[e] == b.Triples()[e];
    }
    assert a.rowptr == b.rowptr;
  }

  ghost predicate ColsBelow<V>(t: seq<Triple<V>>, n: nat) {
    forall k :: 0 <= k < |t| ==> t[k].1 < n
  }

  lemma PointsShape(a: Csr, t: seq<Triple<int>>)
    requires RowsBelow(t, a.n) && Points(a.rowptr, a.n, t) && |a.colidx| == |a.vals| == |t|
    ensures a.Shaped()
  {
    CountEnds(t, a.n);
    forall i, j | 0 <= i <= j <= a.n ensures a.rowptr[i] <= a.rowptr[j] {
      CountMonotone(t, i, j);
    }
  }

  lemma RowOfPosition(a: Csr, t: seq<Triple<int>>, e: nat, i: nat)
    requires Ascending(t) && Points(a.rowptr, a.n, t) && e < |t| && i < a.n && a.rowptr[i] <= e < a.rowptr[i + 1]
    ensures t[e].0 == i
  {
    CountCuts(t, i, e);
    CountCuts(t, i + 1, e);
  }

  /** Columns and values of a list, behind its row pointers. */
  lemma FromTriples(a: Csr, t: seq<Triple<int>>)
    requires Ascending(t) && RowsBelow(t, a.n) && ColsBelow(t, a.n) && Points(a.rowptr, a.n, t)
    requires |a.colidx| == |a.vals| == |t| && forall e :: 0 <= e < |t| ==> a.colidx[e] == t[e].1 && a.vals[e] == t[e].2
    ensures a.Valid() && a.Triples() == t
  {
    PointsShape(a, t);
    forall i, d, e | 0 <= i < a.n && a.rowptr[i] <= d < e < a.rowptr[i + 1] ensures a.colidx[d] < a.colidx[e] {
      RowOfPosition(a, t, d, i);
      RowOfPosition(a, t, e, i);
    }
    forall e | 0 <= e < |t| ensures a.Triples()[e] == t[e] {
      RowRange(a, e, a.n);
      RowOfPosition(a, t, e, RowBelow(a.rowptr, e, a.n));
    }
  }

  // ---------------------------------------------------------------- values

  /** The sum of the values given at (r, c). */
  function ValueAt(t: seq<Triple<int>>, r: nat, c: nat): int {
    if t == [] then 0 else
      ValueAt(t[..|t| - 1], r, c) + (if t[|t| - 1].0 == r && t[|t| - 1].1 == c then t[|t| - 1].2 else 0)
  }

  ghost predicate Stored(t: seq<Triple<int>>, r: nat, c: nat) {
    exists k :: 0 <= k < |t| && t[k].0 == r && t[k].1 == c
  }

  lemma ValueSnoc(t: seq<Triple<int>>, x: Triple<int>, r: nat, c: nat)
    ensures ValueAt(t + [x], r, c) == ValueAt(t, r, c) + (if x.0 == r && x.1 == c then x.2 else 0)
    ensures Stored(t + [x], r, c) <==> Stored(t, r, c) || (x.0 == r && x.1 == c)
  {
    assert (t + [x])[..|t|] == t;
    if Stored(t, r, c) {
      var k :| 0 <= k < |t| && t[k].0 == r && t[k].1 == c;
      assert (t + [x])[k] == t[k];
    }
    assert (t + [x])[|t|] == x;
  }

  lemma {:induction false} AbsentValue(t: seq<Triple<int>>, r: nat, c: nat)
    requires !Stored(t, r, c)
    ensures ValueAt(t, r, c) == 0
  {
    if t != [] {
      var init, last := t[..|t| - 1], t[|t| - 1];
      assert t == init + [last];
      ValueSnoc(init, last, r, c);
      AbsentValue(init, r, c);
    }
  }

  /** In an ascending list every position has at most one entry, which is its value. */
  lemma {:induction false} AscendingValue(t: seq<Triple<int>>, k: nat)
    requires Ascending(t) && k < |t|
    ensures ValueAt(t, t[k].0, t[k].1) == t[k].2
  {
    var init, last := t[..|t| - 1], t[|t| - 1];
    if k < |t| - 1 {
      AscendingValue(init, k);
    } else {
      AbsentValue(init, last.0, last.1);
    }
  }

  // ---------------------------------------------------------------- building

  ghost predicate SameCells(a: seq<Triple<int>>, b: seq<Triple<int>>) {
    forall r: nat, c: nat :: ValueAt(a, r, c) == ValueAt(b, r, c) && (Stored(a, r, c) <==> Stored(b, r, c))
  }

  function PlaceKey(x: Triple<int>): Key {
    (x.0, x.1, 0)
  }

  /** The entries so far merged, the last of them at the place last read. */
  ghost predicate Merging(dedup: seq<Triple<int>>, s: seq<Triple<int>>) {
    && Ascending(dedup) && SameCells(dedup, s) && (dedup == [] <==> s == [])
    && (s != [] ==> dedup[|dedup| - 1].0 == s[|s| - 1].0 && dedup[|dedup| - 1].1 == s[|s| - 1].1)
  }

  /** Adds x to the last entry if it is at the same place, and appends it otherwise. */
  function Merge(dedup: seq<Triple<int>>, x: Triple<int>): seq<Triple<int>> {
    if dedup != [] && dedup[|dedup| - 1].0 == x.0 && dedup[|dedup| - 1].1 == x.1
    then dedup[..|dedup| - 1] + [(x.0, x.1, dedup[|dedup| - 1].2 + x.2)]
    else dedup + [x]
  }

  lemma MergeCells(dedup: seq<Triple<int>>, x: Triple<int>, r: nat, c: nat)
    ensures ValueAt(Merge(dedup, x), r, c) == ValueAt(dedup, r, c) + (if x.0 == r && x.1 == c then x.2 else 0)
    ensures Stored(Merge(dedup, x), r, c) <==> Stored(dedup, r, c) || (x.0 == r && x.1 == c)
  {
    if dedup != [] && dedup[|dedup| - 1].0 == x.0 && dedup[|dedup| - 1].1 == x.1 {
      var init, last := dedup[..|dedup| - 1], dedup[|dedup| - 1];
      assert dedup == init + [last];
      ValueSnoc(init, last, r, c);
      ValueSnoc(init, (x.0, x.1, last.2 + x.2), r, c);
    } else {
      ValueSnoc(dedup, x, r, c);
    }
  }

  lemma MergeSame(dedup: seq<Triple<int>>, s: seq<Triple<int>>, x: Triple<int>)
    requires SameCells(dedup, s)
    ensures SameCells(Merge(dedup, x), s + [x])
  {
    forall i: nat, c: nat
      ensures ValueAt(Merge(dedup, x), i, c) == ValueAt(s + [x], i, c)
      ensures Stored(Merge(dedup, x), i, c) <==> Stored(s + [x], i, c)
    {
      MergeCells(dedup, x, i, c);
      ValueSnoc(s, x, i, c);
      assert ValueAt(dedup, i, c) == ValueAt(s, i, c);
    }
  }

  lemma MergeAscends(dedup: seq<Triple<int>>, x: Triple<int>)
    requires Ascending(dedup)
    requires dedup != [] ==> var l := dedup[|dedup| - 1]; l.0 < x.0 || (l.0 == x.0 && l.1 <= x.1)
    ensures Ascending(Merge(dedup, x)) && Merge(dedup, x) != []
    ensures var l := Merge(dedup, x)[|Merge(dedup, x)| - 1]; l.0 == x.0 && l.1 == x.1
  {
  }

  lemma MergeStep(dedup: seq<Triple<int>>, s: seq<Triple<int>>, k: nat)
    requires SortedBy(s, PlaceKey) && k < |s| && Merging(dedup, s[..k])
    ensures Merging(Merge(dedup, s[k]), s[..k + 1])
  {
    assert s[..k + 1] == s[..k] + [s[k]];
    MergeSame(dedup, s[..k], s[k]);
    assert k > 0 ==> !Below(PlaceKey(s[k]), PlaceKey(s[k - 1]));
    MergeAscends(dedup, s[k]);
  }

  method Deduplicate(s: seq<Triple<int>>) returns (dedup: seq<Triple<int>>)
    requires SortedBy(s, PlaceKey)
    ensures Ascending(dedup) && SameCells(dedup, s)
  {
    dedup := [];
    for k := 0 to |s|
      invariant Merging(dedup, s[..k])
    {
      MergeStep(dedup, s, k);
      dedup := Merge(dedup, s[k]);
    }
    assert s[..|s|] == s;
  }

  lemma {:induction false} ValueDrop(t: seq<Triple<int>>, k: nat, r: nat, c: nat)
    requires k < |t|
    ensures ValueAt(t, r, c) == ValueAt(t[..k] + t[k + 1..], r, c) + (if t[k].0 == r && t[k].1 == c then t[k].2 else 0)
  {
    var m := |t| - 1;
    if k == m {
      assert t[..k] + t[k + 1..] == t[..m];
    } else {
      ValueDrop(t[..m], k, r, c);
      assert t[..k] + t[k + 1..] == (t[..m][..k] + t[..m][k + 1..]) + [t[m]];
      ValueSnoc(t[..m][..k] + t[..m][k + 1..], t[m], r, c);
    }
  }

  /** Reordering does not change a sum. */
  lemma {:induction false} ValuePermuted(a: seq<Triple<int>>, b: seq<Triple<int>>, r: nat, c: nat)
    requires multiset(a) == multiset(b)
    ensures ValueAt(a, r, c) == ValueAt(b, r, c)
  {
    if a == [] {
      assert |multiset(b)| == 0;
    } else {
      var x := a[|a| - 1];
      assert x in multiset(b);
      var k :| 0 <= k < |b| && b[k] == x;
      var rest := b[..k] + b[k + 1..];
      assert a == a[..|a| - 1] + [x] && b == b[..k] + [x] + b[k + 1..];
      assert multiset(rest) == multiset(b) - multiset{x};
      ValuePermuted(a[..|a| - 1], rest, r, c);
      ValueDrop(b, k, r, c);
    }
  }

  lemma CellsPermuted(a: seq<Triple<int>>, b: seq<Triple<int>>)
    requires multiset(a) == multiset(b)
    ensures SameCells(a, b)
  {
    forall r: nat, c: nat ensures ValueAt(a, r, c) == ValueAt(b, r, c) && (Stored(a, r, c) <==> Stored(b, r, c)) {
      ValuePermuted(a, b, r, c);
      SameMembers(a, b);
      StoredMember(a, b, r, c);
      StoredMember(b, a, r, c);
    }
  }

  lemma StoredMember(a: seq<Triple<int>>, b: seq<Triple<int>>, r: nat, c: nat)
    requires forall x :: x in a ==> x in b
    ensures Stored(a, r, c) ==> Stored(b, r, c)
  {
    if Stored(a, r, c) {
      var k :| 0 <= k < |a| && a[k].0 == r && a[k].1 == c;
      assert a[k] in b;
      var l :| 0 <= l < |b| && b[l] == a[k];
    }
  }

  lemma CellsInRange(t: seq<Triple<int>>, edges: seq<Triple<int>>, n: nat)
    requires SameCells(t, edges) && RowsBelow(edges, n) && ColsBelow(edges, n)
    ensures RowsBelow(t, n) && ColsBelow(t, n)
  {
    forall k | 0 <= k < |t| ensures t[k].0 < n && t[k].1 < n {
      assert Stored(t, t[k].0, t[k].1);
      assert Stored(edges, t[k].0, t[k].1);
    }
  }

  /** The matrix whose entry at (r, c) is the sum of the values given there; a place is stored
      when it was given, even when the sum is zero. */
  method FromEdges(n: nat, edges: seq<Triple<int>>) returns (a: Csr)
    requires RowsBelow(edges, n) && ColsBelow(edges, n)
    ensures a.n == n && a.Valid() && SameCells(a.Triples(), edges)
  {
    var sorted := SortBy(edges, PlaceKey);
    var dedup := Deduplicate(sorted);
    CellsPermuted(sorted, edges);
    assert SameCells(dedup, edges);
    CellsInRange(dedup, edges, n);
    var rowptr := RowPointers(n, dedup);
    var colidx := seq(|dedup|, e requires 0 <= e < |dedup| => dedup[e].1);
    var vals := seq(|dedup|, e requires 0 <= e < |dedup| => dedup[e].2);
    a := Csr(n, rowptr, colidx, vals);
    FromTriples(a, dedup);
  }
}
