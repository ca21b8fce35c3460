module DeltaJoin {
  // The weighted hash join of two keyed Z-sets, and the identity all incremental joins rest on:
  // it is bilinear.

  import opened ZSets

  /** The entries of one key, as the hash index stores them. */
  function Matches<K(==), A>(a: Entries<(K, A)>, k: K): seq<(A, int)> {
    if a == [] then [] else
      var n := |a| - 1;
      Matches(a[..n], k) + (if a[n].0.0 == k then [(a[n].0.1, a[n].1)] else [])
  }

  /** The output rows one probe makes. */
  function Probe<K, A, B>(ms: seq<(A, int)>, k: K, vb: B, wb: int): (r: Entries<(K, A, B)>)
    ensures |r| == |ms|
  {
    if ms == [] then [] else
      var n := |ms| - 1;
      Probe(ms[..n], k, vb, wb) + [((k, ms[n].0, vb), ms[n].1 * wb)]
  }

  function Rows<K(==), A, B>(a: Entries<(K, A)>, b: Entries<(K, B)>): Entries<(K, A, B)> {
    if b == [] then [] else
      var n := |b| - 1;
      Rows(a, b[..n]) + Probe(Matches(a, b[n].0.0), b[n].0.0, b[n].0.1, b[n].1)
  }

  function Join<K(==), A(==), B(==)>(o: Order<(K, A, B)>, a: Entries<(K, A)>, b: Entries<(K, B)>): Entries<(K, A, B)> {
    FromUpdates(o, Rows(a, b))
  }

  // ---------------------------------------------------------------- the hash join

  ghost predicate Indexes<K(!new), A>(index: map<K, seq<(A, int)>>, a: Entries<(K, A)>) {
    && (forall k :: k in index ==> index[k] == Matches(a, k))
    && (forall k :: k !in index ==> Matches(a, k) == [])
  }

  method BuildIndex<K(==, !new), A>(a: Entries<(K, A)>) returns (index: map<K, seq<(A, int)>>)
    ensures Indexes(index, a)
  {
    index := map[];
    for i := 0 to |a|
      invariant Indexes(index, a[..i])
    {
      assert a[..i + 1][..i] == a[..i];
      var ((k, va), w) := a[i];
      index := index[k := (if k in index then index[k] else []) + [(va, w)]];
    }
    assert a[..|a|] == a;
  }

  /** Pairs one entry of b with the matching entries of a. */
  method ProbeAll<K(==), A(==), B(==)>(matches: seq<(A, int)>, k: K, vb: B, wb: int, so: Entries<(K, A, B)>)
    returns (out: Entries<(K, A, B)>)
    ensures out == so + Probe(matches, k, vb, wb)
  {
    out := so;
    for j := 0 to |matches|
      invariant out == so + Probe(matches[..j], k, vb, wb)
    {
      assert matches[..j + 1][..j] == matches[..j];
      var (va, wa) := matches[j];
      out := out + [((k, va, vb), wa * wb)];
    }
    assert matches[..|matches|] == matches;
  }

  method JoinOracle<K(==, !new), A(==, !new), B(==, !new)>(o: Order<(K, A, B)>, a: Entries<(K, A)>, b: Entries<(K, B)>)
    returns (z: Entries<(K, A, B)>)
    requires Total(o)
    ensures z == Join(o, a, b)
  {
    var index := BuildIndex(a);
    var out: Entries<(K, A, B)> := [];
    for i := 0 to |b|
      invariant out == Rows(a, b[..i])
    {
      assert b[..i + 1][..i] == b[..i];
      var ((k, vb), wb) := b[i];
      if k in index {
        out := ProbeAll(index[k], k, vb, wb, out);
      }
    }
    assert b[..|b|] == b;
    z := MakeZSet(o, out);
  }

  // ---------------------------------------------------------------- weights multiply

  lemma {:induction false} MatchesWeight<K, A>(a: Entries<(K, A)>, k: K, va: A)
    ensures Weight(Matches(a, k), va) == Weight(a, (k, va))
  {
    if a != [] {
      var n := |a| - 1;
      MatchesWeight(a[..n], k, va);
      WeightConcat(Matches(a[..n], k), if a[n].0.0 == k then [(a[n].0.1, a[n].1)] else [], va);
      WeightConcat(a[..n], [a[n]], (k, va));
      assert a == a[..n] + [a[n]];
    }
  }

  lemma {:induction false} ProbeWeight<K, A, B>(ms: seq<(A, int)>, k: K, vb: B, wb: int, t: (K, A, B))
    ensures Weight(Probe(ms, k, vb, wb), t) == if t.0 == k && t.2 == vb then Weight(ms, t.1) * wb else 0
  {
    if ms != [] {
      var n := |ms| - 1;
      ProbeWeight(ms[..n], k, vb, wb, t);
      WeightConcat(Probe(ms[..n], k, vb, wb), [((k, ms[n].0, vb), ms[n].1 * wb)], t);
      WeightConcat(ms[..n], [ms[n]], t.1);
      assert ms == ms[..n] + [ms[n]];
    }
  }

  lemma {:induction false} RowsWeight<K, A, B>(a: Entries<(K, A)>, b: Entries<(K, B)>, k: K, va: A, vb: B)
    ensures Weight(Rows(a, b), (k, va, vb)) == Weight(a, (k, va)) * Weight(b, (k, vb))
  {
    if b != [] {
      var n := |b| - 1;
      var ((kb, v), w) := b[n];
      RowsWeight(a, b[..n], k, va, vb);
      WeightConcat(Rows(a, b[..n]), Probe(Matches(a, kb), kb, v, w), (k, va, vb));
      ProbeWeight(Matches(a, kb), kb, v, w, (k, va, vb));
      MatchesWeight(a, k, va);
      WeightConcat(b[..n], [b[n]], (k, vb));
      assert b == b[..n] + [b[n]];
      Expand(Weight(a, (k, va)), 0, Weight(b[..n], (k, vb)), Weight([b[n]], (k, vb)));
    }
  }

  lemma Expand(wa: int, wda: int, wb: int, wdb: int)
    ensures (wa + wda) * (wb + wdb) == wa * wb + (wda * wb + wa * wdb + wda * wdb)
  {
  }

  /** The weight of an output row is the product of the weights of its two sides. */
  lemma JoinWeight<K(!new), A(!new), B(!new)>(o: Order<(K, A, B)>, a: Entries<(K, A)>, b: Entries<(K, B)>, t: (K, A, B))
    requires Total(o)
    ensures Weight(Join(o, a, b), t) == Weight(a, (t.0, t.1)) * Weight(b, (t.0, t.2))
  {
    FromUpdatesCanonical(o, Rows(a, b));
    RowsWeight(a, b, t.0, t.1, t.2);
  }

  /** What the delta of a join is made of: the three smaller joins. */
  function DeltaRows<K(==), A(==), B(==)>(o: Order<(K, A, B)>, a: Entries<(K, A)>, da: Entries<(K, A)>,
                                          b: Entries<(K, B)>, db: Entries<(K, B)>): Entries<(K, A, B)> {
    Merge(o, Merge(o, Join(o, da, b), Join(o, a, db)), Join(o, da, db))
  }

  lemma DeltaRowsWeight<K(!new), A(!new), B(!new)>(o: Order<(K, A, B)>, a: Entries<(K, A)>, da: Entries<(K, A)>,
                                                   b: Entries<(K, B)>, db: Entries<(K, B)>, t: (K, A, B),
                                                   wa: int, wda: int, wb: int, wdb: int)
    requires Total(o)
    requires wa == Weight(a, (t.0, t.1)) && wda == Weight(da, (t.0, t.1))
    requires wb == Weight(b, (t.0, t.2)) && wdb == Weight(db, (t.0, t.2))
    ensures Weight(DeltaRows(o, a, da, b, db), t) == wda * wb + wa * wdb + wda * wdb
  {
    JoinWeight(o, da, b, t);
    JoinWeight(o, a, db, t);
    JoinWeight(o, da, db, t);
    MergeWeight(o, Merge(o, Join(o, da, b), Join(o, a, db)), Join(o, da, db), t);
    MergeWeight(o, Join(o, da, b), Join(o, a, db), t);
  }

  lemma DeltaWeight<K(!new), A(!new), B(!new)>(
    o: Order<(K, A, B)>, oa: Order<(K, A)>, ob: Order<(K, B)>,
    a: Entries<(K, A)>, da: Entries<(K, A)>, b: Entries<(K, B)>, db: Entries<(K, B)>,
    t: (K, A, B))
    requires Total(o) && Total(oa) && Total(ob)
    ensures Weight(Join(o, Merge(oa, a, da), Merge(ob, b, db)), t)
         == Weight(Join(o, a, b), t) + Weight(DeltaRows(o, a, da, b, db), t)
  {
    var wa, wda, wb, wdb := Weight(a, (t.0, t.1)), Weight(da, (t.0, t.1)), Weight(b, (t.0, t.2)),
      Weight(db, (t.0, t.2));
    var product := (wa + wda) * (wb + wdb);
    WholeWeight(o, oa, ob, a, da, b, db, t, wa + wda, wb + wdb, product);
    OldAndNew(o, a, da, b, db, t, wa, wda, wb, wdb, product);
  }

  lemma WholeWeight<K(!new), A(!new), B(!new)>(
    o: Order<(K, A, B)>, oa: Order<(K, A)>, ob: Order<(K, B)>,
    a: Entries<(K, A)>, da: Entries<(K, A)>, b: Entries<(K, B)>, db: Entries<(K, B)>,
    t: (K, A, B), wa: int, wb: int, product: int)
    requires Total(o) && Total(oa) && Total(ob)
    requires wa == Weight(a, (t.0, t.1)) + Weight(da, (t.0, t.1))
             && wb == Weight(b, (t.0, t.2)) + Weight(db, (t.0, t.2))
    requires product == wa * wb
    ensures Weight(Join(o, Merge(oa, a, da), Merge(ob, b, db)), t) == product
  {
    JoinWeight(o, Merge(oa, a, da), Merge(ob, b, db), t);
    MergeWeight(oa, a, da, (t.0, t.1));
    MergeWeight(ob, b, db, (t.0, t.2));
  }

  lemma OldAndNew<K(!new), A(!new), B(!new)>(o: Order<(K, A, B)>, a: Entries<(K, A)>, da: Entries<(K, A)>,
                                             b: Entries<(K, B)>, db: Entries<(K, B)>, t: (K, A, B),
                                             wa: int, wda: int, wb: int, wdb: int, product: int)
    requires Total(o) && product == (wa + wda) * (wb + wdb)
    requires wa == Weight(a, (t.0, t.1)) && wda == Weight(da, (t.0, t.1))
    requires wb == Weight(b, (t.0, t.2)) && wdb == Weight(db, (t.0, t.2))
    ensures Weight(Join(o, a, b), t) + Weight(DeltaRows(o, a, da, b, db), t) == product
  {
    JoinWeight(o, a, b, t);
    DeltaRowsWeight(o, a, da, b, db, t, wa, wda, wb, wdb);
    Expand(wa, wda, wb, wdb);
  }

  /** Bilinearity: (A + dA) join (B + dB), minus A join B, is dA join B + A join dB +
      dA join dB, entry list for entry list, whatever A, B and the deltas hold. */
  lemma Bilinear<K(!new), A(!new), B(!new)>(
    o: Order<(K, A, B)>, oa: Order<(K, A)>, ob: Order<(K, B)>,
    a: Entries<(K, A)>, da: Entries<(K, A)>, b: Entries<(K, B)>, db: Entries<(K, B)>)
    requires Total(o) && Total(oa) && Total(ob)
    ensures Merge(o, Join(o, Merge(oa, a, da), Merge(ob, b, db)), Negate(Join(o, a, b))) == DeltaRows(o, a, da, b, db)
  {
    var whole, part := Join(o, Merge(oa, a, da), Merge(ob, b, db)), Join(o, a, b);
    MergeCanonical(o, whole, Negate(part));
    MergeCanonical(o, Merge(o, Join(o, da, b), Join(o, a, db)), Join(o, da, db));
    forall t ensures Weight(Merge(o, whole, Negate(part)), t) == Weight(DeltaRows(o, a, da, b, db), t) {
      MergeWeight(o, whole, Negate(part), t);
      NegateWeight(part, t);
      DeltaWeight(o, oa, ob, a, da, b, db, t);
    }
    CanonicalUnique(o, Merge(o, whole, Negate(part)), DeltaRows(o, a, da, b, db));
  }

  // ---------------------------------------------------------------- streams of deltas

  /** The collection a stream of deltas adds up to. */
  function Sum<T(==)>(o: Order<T>, deltas: seq<Entries<T>>): Entries<T> {
    if deltas == [] then [] else Merge(o, Sum(o, deltas[..|deltas| - 1]), deltas[|deltas| - 1])
  }

  /** The delta joins of two streams, each against the collections before its batch, added up. */
  function Streamed<K(==), A(==), B(==)>(o: Order<(K, A, B)>, oa: Order<(K, A)>, ob: Order<(K, B)>,
                                         das: seq<Entries<(K, A)>>, dbs: seq<Entries<(K, B)>>): Entries<(K, A, B)>
    requires |das| == |dbs|
  {
    if das == [] then [] else
      var n := |das| - 1;
      Merge(o, Streamed(o, oa, ob, das[..n], dbs[..n]),
        DeltaRows(o, Sum(oa, das[..n]), das[n], Sum(ob, dbs[..n]), dbs[n]))
  }

  /** Over any number of batches the deltas keep adding up to the join of everything so far. */
  lemma {:induction false} StreamedIsJoin<K(!new), A(!new), B(!new)>(
    o: Order<(K, A, B)>, oa: Order<(K, A)>, ob: Order<(K, B)>, das: seq<Entries<(K, A)>>, dbs: seq<Entries<(K, B)>>)
    requires Total(o) && Total(oa) && Total(ob) && |das| == |dbs|
    ensures Streamed(o, oa, ob, das, dbs) == Join(o, Sum(oa, das), Sum(ob, dbs))
  {
    if das != [] {
      var n := |das| - 1;
      var a, b := Sum(oa, das[..n]), Sum(ob, dbs[..n]);
      StreamedIsJoin(o, oa, ob, das[..n], dbs[..n]);
      var before, delta := Join(o, a, b), DeltaRows(o, a, das[n], b, dbs[n]);
      var after := Join(o, Merge(oa, a, das[n]), Merge(ob, b, dbs[n]));
      MergeCanonical(o, before, delta);
      FromUpdatesCanonical(o, Rows(Merge(oa, a, das[n]), Merge(ob, b, dbs[n])));
      forall t ensures Weight(Merge(o, before, delta), t) == Weight(after, t) {
        MergeWeight(o, before, delta, t);
        DeltaWeight(o, oa, ob, a, das[n], b, dbs[n], t);
      }
      CanonicalUnique(o, Merge(o, before, delta), after);
    }
  }
}
