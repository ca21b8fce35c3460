module ZSets {
  // Z-sets: collections whose elements carry integer weights, kept sorted, without duplicates
  // and without zero weights.

  /** The element order, `Ord` in the generic code. */
  datatype Order<!T> = Order(lt: (T, T) -> bool)

  ghost predicate Total<T(!new)>(o: Order<T>) {
    && (forall x :: !o.lt(x, x))
    && (forall x, y :: x == y || o.lt(x, y) || o.lt(y, x))
    && (forall x, y, z :: o.lt(x, y) && o.lt(y, z) ==> o.lt(x, z))
  }

  type Entries<T> = seq<(T, int)>

  /** The total weight a list of updates gives to t. */
  function Weight<T(==)>(s: Entries<T>, t: T): int {
    if s == [] then 0 else (if s[0].0 == t then s[0].1 else 0) + Weight(s[1..], t)
  }

  ghost predicate SameWeights<T(!new)>(a: Entries<T>, b: Entries<T>) {
    forall t :: Weight(a, t) == Weight(b, t)
  }

  ghost predicate Ascending<T>(o: Order<T>, s: Entries<T>) {
    forall i, j :: 0 <= i < j < |s| ==> o.lt(s[i].0, s[j].0)
  }

  ghost predicate NonZero<T>(s: Entries<T>) {
    forall i :: 0 <= i < |s| ==> s[i].1 != 0
  }

  ghost predicate Canonical<T>(o: Order<T>, s: Entries<T>) {
    Ascending(o, s) && NonZero(s)
  }

  lemma {:induction false} WeightConcat<T>(a: Entries<T>, b: Entries<T>, t: T)
    ensures Weight(a + b, t) == Weight(a, t) + Weight(b, t)
  {
    if a == [] {
      assert a + b == b;
    } else {
      assert (a + b)[1..] == a[1..] + b;
      WeightConcat(a[1..], b, t);
    }
  }

  /** Elements that do not occur weigh nothing. */
  lemma {:induction false} AbsentWeight<T>(s: Entries<T>, t: T)
    requires forall i :: 0 <= i < |s| ==> s[i].0 != t
    ensures Weight(s, t) == 0
  {
    if s != [] {
      AbsentWeight(s[1..], t);
    }
  }

  lemma HeadWeight<T(!new)>(o: Order<T>, s: Entries<T>, t: T)
    requires Total(o) && Ascending(o, s) && s != []
    requires t == s[0].0 || o.lt(t, s[0].0)
    ensures Weight(s[1..], t) == 0
    ensures Weight(s, t) == if t == s[0].0 then s[0].1 else 0
  {
    AbsentWeight(s[1..], t);
  }

  /** Two canonical lists with the same weights are the same list. */
  lemma {:induction false} CanonicalUnique<T(!new)>(o: Order<T>, a: Entries<T>, b: Entries<T>)
    requires Total(o) && Canonical(o, a) && Canonical(o, b) && SameWeights(a, b)
    ensures a == b
  {
    if a == [] && b == [] {
    } else if a == [] || (b != [] && o.lt(b[0].0, a[0].0)) {
      HeadWeight(o, b, b[0].0);
      if a != [] {
        HeadWeight(o, a, b[0].0);
      }
      assert false;
    } else if b == [] || o.lt(a[0].0, b[0].0) {
      HeadWeight(o, a, a[0].0);
      if b != [] {
        HeadWeight(o, b, a[0].0);
      }
      assert false;
    } else {
      HeadWeight(o, a, a[0].0);
      HeadWeight(o, b, a[0].0);
      forall t ensures Weight(a[1..], t) == Weight(b[1..], t) {
        assert Weight(a, t) == Weight(b, t);
      }
      CanonicalUnique(o, a[1..], b[1..]);
      assert a == [a[0]] + a[1..] && b == [b[0]] + b[1..];
    }
  }

  // ---------------------------------------------------------------- the canonical form

  /** Adds weight w to t in a canonical list. */
  function Insert<T(==)>(o: Order<T>, z: Entries<T>, t: T, w: int): Entries<T> {
    if z == [] then (if w == 0 then [] else [(t, w)])
    else if z[0].0 == t then (if z[0].1 + w == 0 then z[1..] else [(t, z[0].1 + w)] + z[1..])
    else if o.lt(t, z[0].0) then (if w == 0 then z else [(t, w)] + z)
    else [z[0]] + Insert(o, z[1..], t, w)
  }

  /** The canonical list of a list of updates. */
  function FromUpdates<T(==)>(o: Order<T>, u: Entries<T>): Entries<T> {
    if u == [] then [] else Insert(o, FromUpdates(o, u[..|u| - 1]), u[|u| - 1].0, u[|u| - 1].1)
  }

  lemma {:induction false} InsertWeight<T(!new)>(o: Order<T>, z: Entries<T>, t: T, w: int, x: T)
    ensures Weight(Insert(o, z, t, w), x) == Weight(z, x) + (if x == t then w else 0)
  {
    if z == [] {
    } else if z[0].0 == t || o.lt(t, z[0].0) {
    } else {
      InsertWeight(o, z[1..], t, w, x);
    }
  }

  lemma {:induction false} InsertCanonical<T(!new)>(o: Order<T>, z: Entries<T>, t: T, w: int)
    requires Total(o) && Canonical(o, z)
    ensures Canonical(o, Insert(o, z, t, w))
    ensures forall i :: 0 <= i < |Insert(o, z, t, w)| ==>
              Insert(o, z, t, w)[i].0 == t || exists j :: 0 <= j < |z| && z[j].0 == Insert(o, z, t, w)[i].0
  {
    if z == [] || z[0].0 == t || o.lt(t, z[0].0) {
    } else {
      InsertCanonical(o, z[1..], t, w);
    }
  }

  lemma {:induction false} FromUpdatesCanonical<T(!new)>(o: Order<T>, u: Entries<T>)
    requires Total(o)
    ensures Canonical(o, FromUpdates(o, u))
    ensures SameWeights(FromUpdates(o, u), u)
  {
    if u != [] {
      var n := |u| - 1;
      FromUpdatesCanonical(o, u[..n]);
      var z := FromUpdates(o, u[..n]);
      InsertCanonical(o, z, u[n].0, u[n].1);
      forall t ensures Weight(FromUpdates(o, u), t) == Weight(u, t) {
        InsertWeight(o, z, u[n].0, u[n].1, t);
        assert u == u[..n] + [u[n]];
        WeightConcat(u[..n], [u[n]], t);
      }
    }
  }

  /** A canonical list with the weights of u is the canonical list of u. */
  lemma IsCanonicalOf<T(!new)>(o: Order<T>, z: Entries<T>, u: Entries<T>)
    requires Total(o) && Canonical(o, z) && SameWeights(z, u)
    ensures z == FromUpdates(o, u)
  {
    FromUpdatesCanonical(o, u);
    forall t ensures Weight(z, t) == Weight(FromUpdates(o, u), t) {
      assert Weight(z, t) == Weight(u, t);
    }
    CanonicalUnique(o, z, FromUpdates(o, u));
  }

  // ---------------------------------------------------------------- consolidation in place

  ghost predicate Sorted<T>(o: Order<T>, s: Entries<T>) {
    forall i, j :: 0 <= i < j < |s| ==> !o.lt(s[j].0, s[i].0)
  }

  /** The standard library's stable sort by key, as insertion from the left. */
  function SortByKey<T>(o: Order<T>, s: Entries<T>): (r: Entries<T>)
    ensures |r| == |s|
  {
    if s == [] then [] else Place(o, SortByKey(o, s[..|s| - 1]), s[|s| - 1])
  }

  function Place<T>(o: Order<T>, z: Entries<T>, x: (T, int)): (r: Entries<T>)
    ensures |r| == |z| + 1
  {
    if z == [] then [x]
    else if o.lt(x.0, z[|z| - 1].0) then Place(o, z[..|z| - 1], x) + [z[|z| - 1]]
    else z + [x]
  }

  lemma {:induction false} PlaceWeight<T>(o: Order<T>, z: Entries<T>, x: (T, int), t: T)
    ensures Weight(Place(o, z, x), t) == Weight(z, t) + (if x.0 == t then x.1 else 0)
  {
    if z == [] || !o.lt(x.0, z[|z| - 1].0) {
      WeightConcat(z, [x], t);
    } else {
      var init, last := z[..|z| - 1], [z[|z| - 1]];
      PlaceWeight(o, init, x, t);
      WeightConcat(Place(o, init, x), last, t);
      WeightConcat(init, last, t);
      assert z == init + last;
    }
  }

  lemma {:induction false} PlaceSorted<T(!new)>(o: Order<T>, z: Entries<T>, x: (T, int))
    requires Total(o) && Sorted(o, z)
    ensures Sorted(o, Place(o, z, x))
    ensures forall i :: 0 <= i <= |z| ==>
            Place(o, z, x)[i] == x || exists j :: 0 <= j < |z| && Place(o, z, x)[i] == z[j]
  {
    if z != [] && o.lt(x.0, z[|z| - 1].0) {
      PlaceSorted(o, z[..|z| - 1], x);
    }
  }

  lemma {:induction false} SortByKeySorts<T(!new)>(o: Order<T>, s: Entries<T>)
    requires Total(o)
    ensures Sorted(o, SortByKey(o, s)) && SameWeights(SortByKey(o, s), s)
  {
    if s != [] {
      var n := |s| - 1;
      SortByKeySorts(o, s[..n]);
      PlaceSorted(o, SortByKey(o, s[..n]), s[n]);
      forall t ensures Weight(SortByKey(o, s), t) == Weight(s, t) {
        PlaceWeight(o, SortByKey(o, s[..n]), s[n], t);
        WeightConcat(s[..n], [s[n]], t);
        assert s == s[..n] + [s[n]];
      }
    }
  }

  /** While consolidating: `kept` is canonical, `rest` sorted and strictly above it, and
      together they weigh what the updates weigh. */
  ghost predicate Consolidating<T(!new)>(o: Order<T>, kept: Entries<T>, rest: Entries<T>, u: Entries<T>) {
    && Canonical(o, kept) && Sorted(o, rest)
    && (forall i, j :: 0 <= i < |kept| && 0 <= j < |rest| ==> o.lt(kept[i].0, rest[j].0))
    && (forall t :: Weight(kept, t) + Weight(rest, t) == Weight(u, t))
  }

  /** The head of `rest` gives its weight to the next entry of the same key. */
  lemma Absorb<T(!new)>(o: Order<T>, kept: Entries<T>, rest: Entries<T>, u: Entries<T>)
    requires Consolidating(o, kept, rest, u) && |rest| >= 2 && rest[0].0 == rest[1].0
    ensures Consolidating(o, kept, [(rest[1].0, rest[1].1 + rest[0].1)] + rest[2..], u)
  {
    var rest' := [(rest[1].0, rest[1].1 + rest[0].1)] + rest[2..];
    forall t ensures Weight(rest', t) == Weight(rest, t) {
      assert rest'[1..] == rest[2..] && rest[1..][1..] == rest[2..];
    }
  }

  /** The last entry of a key is kept unless its weight is zero. */
  lemma Settle<T(!new)>(o: Order<T>, kept: Entries<T>, rest: Entries<T>, u: Entries<T>)
    requires Total(o) && Consolidating(o, kept, rest, u) && rest != []
    requires |rest| >= 2 ==> rest[0].0 != rest[1].0
    ensures Consolidating(o, if rest[0].1 == 0 then kept else kept + [rest[0]], rest[1..], u)
  {
    forall j | 1 <= j < |rest| ensures o.lt(rest[0].0, rest[j].0) {
      assert !o.lt(rest[1].0, rest[0].0) && !o.lt(rest[j].0, rest[1].0);
    }
    forall t ensures Weight(kept + [rest[0]], t) + Weight(rest[1..], t) == Weight(kept, t) + Weight(rest, t) {
      WeightConcat(kept, [rest[0]], t);
    }
  }

  /** One step of the compaction loop. */
  method Compact<T(==, !new)>(o: Order<T>, vec: array<(T, int)>, w: nat, i: nat, ghost u: Entries<T>) returns (w': nat)
    requires Total(o) && w <= i < vec.Length
    requires Consolidating(o, vec[..w], vec[i..], u)
    modifies vec
    ensures w' <= i + 1 && Consolidating(o, vec[..w'], vec[i + 1..], u)
  {
    ghost var kept, rest := vec[..w], vec[i..];
    w' := w;
    if i + 1 < vec.Length && vec[i].0 == vec[i + 1].0 {
      Absorb(o, kept, rest, u);
      vec[i + 1] := (vec[i + 1].0, vec[i + 1].1 + vec[i].1);
      vec[i] := (vec[i].0, 0);
      assert vec[i + 1..] == [(rest[1].0, rest[1].1 + rest[0].1)] + rest[2..];
    } else {
      Settle(o, kept, rest, u);
      if vec[i].1 != 0 {
        vec[w], vec[i] := vec[i], vec[w];
        w' := w + 1;
        assert vec[..w'] == kept + [rest[0]];
      }
      assert vec[i + 1..] == rest[1..];
    }
  }

  lemma ConsolidatingAtFirst<T(!new)>(o: Order<T>, u: Entries<T>)
    requires Total(o)
    ensures Consolidating(o, [], SortByKey(o, u), u)
  {
    SortByKeySorts(o, u);
  }

  lemma Consolidated<T(!new)>(o: Order<T>, kept: Entries<T>, u: Entries<T>)
    requires Total(o) && Consolidating(o, kept, [], u)
    ensures kept == FromUpdates(o, u)
  {
    forall t ensures Weight(kept, t) == Weight(u, t) {
      assert Weight(kept, t) + Weight([], t) == Weight(u, t);
    }
    IsCanonicalOf(o, kept, u);
  }

  /** Sorts, sums equal keys and drops zeros, all in the vector: its first w entries are the
      canonical list of what it held. */
  method Consolidate<T(==, !new)>(o: Order<T>, vec: array<(T, int)>) returns (w: nat)
    requires Total(o)
    modifies vec
    ensures w <= vec.Length && vec[..w] == FromUpdates(o, old(vec[..]))
  {
    ghost var u := vec[..];
    var sorted := SortByKey(o, vec[..]);
    forall i | 0 <= i < vec.Length {
      vec[i] := sorted[i];
    }
    ConsolidatingAtFirst(o, u);
    w := 0;
    assert vec[..0] == [] && vec[0..] == sorted;
    for i := 0 to vec.Length
      invariant w <= i
      invariant Consolidating(o, vec[..w], vec[i..], u)
    {
      w := Compact(o, vec, w, i, u);
    }
    assert vec[vec.Length..] == [];
    Consolidated(o, vec[..w], u);
  }

  // ---------------------------------------------------------------- operations

  method MakeZSet<T(==, !new)>(o: Order<T>, updates: Entries<T>) returns (z: Entries<T>)
    requires Total(o)
    ensures z == FromUpdates(o, updates)
  {
    var vec := new (T, int)[|updates|](i requires 0 <= i < |updates| => updates[i]);
    assert vec[..] == updates;
    var w := Consolidate(o, vec);
    z := vec[..w];
  }

  /** Union with weight addition. */
  function Merge<T(==)>(o: Order<T>, a: Entries<T>, b: Entries<T>): Entries<T> {
    FromUpdates(o, a + b)
  }

  function Negate<T>(a: Entries<T>): (r: Entries<T>)
    ensures |r| == |a|
  {
    seq(|a|, i requires 0 <= i < |a| => (a[i].0, -a[i].1))
  }

  lemma MergeWeight<T(!new)>(o: Order<T>, a: Entries<T>, b: Entries<T>, t: T)
    requires Total(o)
    ensures Weight(Merge(o, a, b), t) == Weight(a, t) + Weight(b, t)
  {
    FromUpdatesCanonical(o, a + b);
    WeightConcat(a, b, t);
  }

  lemma {:induction false} NegateWeight<T(!new)>(a: Entries<T>, t: T)
    ensures Weight(Negate(a), t) == -Weight(a, t)
  {
    if a != [] {
      assert Negate(a)[1..] == Negate(a[1..]);
      NegateWeight(a[1..], t);
    }
  }

  lemma MergeCanonical<T(!new)>(o: Order<T>, a: Entries<T>, b: Entries<T>)
    requires Total(o)
    ensures Canonical(o, Merge(o, a, b))
  {
    FromUpdatesCanonical(o, a + b);
  }

  lemma MergeCommutes<T(!new)>(o: Order<T>, a: Entries<T>, b: Entries<T>)
    requires Total(o)
    ensures Merge(o, a, b) == Merge(o, b, a)
  {
    MergeCanonical(o, a, b);
    MergeCanonical(o, b, a);
    forall t ensures Weight(Merge(o, a, b), t) == Weight(Merge(o, b, a), t) {
      MergeWeight(o, a, b, t);
      MergeWeight(o, b, a, t);
    }
    CanonicalUnique(o, Merge(o, a, b), Merge(o, b, a));
  }

  lemma MergeAssociates<T(!new)>(o: Order<T>, a: Entries<T>, b: Entries<T>, c: Entries<T>)
    requires Total(o)
    ensures Merge(o, Merge(o, a, b), c) == Merge(o, a, Merge(o, b, c))
  {
    MergeCanonical(o, Merge(o, a, b), c);
    MergeCanonical(o, a, Merge(o, b, c));
    forall t ensures Weight(Merge(o, Merge(o, a, b), c), t) == Weight(Merge(o, a, Merge(o, b, c)), t) {
      MergeWeight(o, Merge(o, a, b), c, t);
      MergeWeight(o, a, b, t);
      MergeWeight(o, a, Merge(o, b, c), t);
      MergeWeight(o, b, c, t);
    }
    CanonicalUnique(o, Merge(o, Merge(o, a, b), c), Merge(o, a, Merge(o, b, c)));
  }

  /** Deleting everything that was inserted leaves nothing at all. */
  lemma MergeCancels<T(!new)>(o: Order<T>, a: Entries<T>)
    requires Total(o)
    ensures Merge(o, a, Negate(a)) == []
  {
    MergeCanonical(o, a, Negate(a));
    forall t ensures Weight(Merge(o, a, Negate(a)), t) == Weight([], t) {
      MergeWeight(o, a, Negate(a), t);
      NegateWeight(a, t);
    }
    CanonicalUnique(o, Merge(o, a, Negate(a)), []);
  }

  /** The weight lookup: a binary search over the sorted entries. */
  method WeightOf<T(==, !new)>(o: Order<T>, z: Entries<T>, t: T) returns (w: int)
    requires Total(o) && Canonical(o, z)
    ensures w == Weight(z, t)
  {
    var lo, hi := 0, |z|;
    while lo < hi
      invariant 0 <= lo <= hi <= |z|
      invariant forall i :: 0 <= i < |z| && !(lo <= i < hi) ==> z[i].0 != t
    {
      var mid := (lo + hi) / 2;
      if z[mid].0 == t {
        WeightAt(z, mid);
        return z[mid].1;
      } else if o.lt(z[mid].0, t) {
        lo := mid + 1;
      } else {
        hi := mid;
      }
    }
    AbsentWeight(z, t);
    w := 0;
  }

  lemma {:induction false} WeightAt<T>(z: Entries<T>, i: nat)
    requires i < |z| && forall j :: 0 <= j < |z| && j != i ==> z[j].0 != z[i].0
    ensures Weight(z, z[i].0) == z[i].1
  {
    if i == 0 {
      AbsentWeight(z[1..], z[0].0);
    } else {
      WeightAt(z[1..], i - 1);
    }
  }

  /** `distinct` keeps one of everything with positive weight. */
  function Distinct<T>(a: Entries<T>): Entries<T> {
    if a == [] then [] else (if a[0].1 > 0 then [(a[0].0, 1)] else []) + Distinct(a[1..])
  }

  lemma {:induction false} DistinctElements<T>(a: Entries<T>, i: nat) returns (j: nat)
    requires i < |Distinct(a)|
    ensures j < |a| && a[j].0 == Distinct(a)[i].0 && Distinct(a)[i].1 == 1
  {
    var kept := if a[0].1 > 0 then 1 else 0;
    if i < kept {
      j := 0;
    } else {
      j := DistinctElements(a[1..], i - kept);
      j := j + 1;
    }
  }

  lemma {:induction false} DistinctCanonical<T(!new)>(o: Order<T>, a: Entries<T>)
    requires Total(o) && Canonical(o, a)
    ensures Canonical(o, Distinct(a))
  {
    if a != [] {
      var rest := Distinct(a[1..]);
      DistinctCanonical(o, a[1..]);
      forall i | 0 <= i < |rest| ensures o.lt(a[0].0, rest[i].0) {
        var j := DistinctElements(a[1..], i);
      }
    }
  }

  /** Of a canonical list `distinct` keeps exactly the elements of positive weight, once. */
  lemma {:induction false} DistinctWeight<T(!new)>(o: Order<T>, a: Entries<T>, t: T)
    requires Total(o) && Canonical(o, a)
    ensures Weight(Distinct(a), t) == if Weight(a, t) > 0 then 1 else 0
  {
    if a != [] {
      DistinctWeight(o, a[1..], t);
      var kept: Entries<T> := [(a[0].0, 1)];
      WeightConcat(kept, Distinct(a[1..]), t);
      assert kept[1..] == [];
      if a[0].1 <= 0 {
        assert Distinct(a) == Distinct(a[1..]);
      }
      if t == a[0].0 {
        HeadWeight(o, a, t);
      }
    }
  }

  /** Weights that `distinct` can be applied to before they are added: not both are positive,
      and a positive one is not cancelled. */
  predicate Separate(x: int, y: int) {
    !(x > 0 && y > 0) && (x > 0 || y > 0 ==> x + y > 0)
  }

  ghost predicate AllSeparate<T(!new)>(a: Entries<T>, b: Entries<T>) {
    forall t :: Separate(Weight(a, t), Weight(b, t))
  }

  lemma DistinctSum<T(!new)>(o: Order<T>, a: Entries<T>, b: Entries<T>, t: T)
    requires Total(o) && Canonical(o, a) && Canonical(o, b)
    ensures Weight(Merge(o, Distinct(a), Distinct(b)), t) == Weight(Distinct(Merge(o, a, b)), t)
            <==> Separate(Weight(a, t), Weight(b, t))
  {
    MergeCanonical(o, a, b);
    MergeWeight(o, a, b, t);
    MergeWeight(o, Distinct(a), Distinct(b), t);
    DistinctWeight(o, a, t);
    DistinctWeight(o, b, t);
    DistinctWeight(o, Merge(o, a, b), t);
  }

  /** When `distinct` is additive: on exactly the Z-sets whose weights are separate everywhere. */
  lemma DistinctAddsWhen<T(!new)>(o: Order<T>, a: Entries<T>, b: Entries<T>)
    requires Total(o) && Canonical(o, a) && Canonical(o, b)
    ensures Merge(o, Distinct(a), Distinct(b)) == Distinct(Merge(o, a, b)) <==> AllSeparate(a, b)
  {
    var sum, whole := Merge(o, Distinct(a), Distinct(b)), Distinct(Merge(o, a, b));
    forall t ensures Weight(sum, t) == Weight(whole, t) <==> Separate(Weight(a, t), Weight(b, t)) {
      DistinctSum(o, a, b, t);
    }
    if AllSeparate(a, b) {
      MergeCanonical(o, a, b);
      MergeCanonical(o, Distinct(a), Distinct(b));
      DistinctCanonical(o, Merge(o, a, b));
      forall t ensures Weight(sum, t) == Weight(whole, t) {
        assert Separate(Weight(a, t), Weight(b, t));
      }
      CanonicalUnique(o, sum, whole);
    }
  }

  /** When `distinct` needs no state: the delta of the result is the result of the delta d on
      exactly the a whose weights are separate from d's. */
  lemma DistinctDeltaWhen<T(!new)>(o: Order<T>, a: Entries<T>, d: Entries<T>)
    requires Total(o) && Canonical(o, a) && Canonical(o, d)
    ensures Merge(o, Distinct(Merge(o, a, d)), Negate(Distinct(a))) == Distinct(d) <==> AllSeparate(a, d)
  {
    var whole, own := Distinct(Merge(o, a, d)), Distinct(a);
    DistinctAddsWhen(o, a, d);
    MergeCanonical(o, a, d);
    DistinctCanonical(o, Merge(o, a, d));
    DistinctCanonical(o, d);
    MovedAcross(o, whole, own, Distinct(d));
  }

  /** w - a == d exactly if a + d == w. */
  lemma MovedAcross<T(!new)>(o: Order<T>, w: Entries<T>, a: Entries<T>, d: Entries<T>)
    requires Total(o) && Canonical(o, w) && Canonical(o, d)
    ensures Merge(o, w, Negate(a)) == d <==> Merge(o, a, d) == w
  {
    MergeCanonical(o, w, Negate(a));
    MergeCanonical(o, a, d);
    forall t
      ensures Weight(Merge(o, w, Negate(a)), t) == Weight(w, t) - Weight(a, t)
      ensures Weight(Merge(o, a, d), t) == Weight(a, t) + Weight(d, t)
    {
      MergeWeight(o, w, Negate(a), t);
      NegateWeight(a, t);
      MergeWeight(o, a, d, t);
    }
    if Merge(o, w, Negate(a)) == d {
      CanonicalUnique(o, Merge(o, a, d), w);
    } else if Merge(o, a, d) == w {
      CanonicalUnique(o, Merge(o, w, Negate(a)), d);
    }
  }

  /** So it is not linear: deleting the last copy of x is not separate. */
  lemma DistinctIsNotLinear<T(!new)>(o: Order<T>, x: T)
    requires Total(o)
    ensures var a, d := [(x, 1)], [(x, -1)];
            Merge(o, Distinct(Merge(o, a, d)), Negate(Distinct(a))) != Distinct(d)
  {
    var a, d: Entries<T> := [(x, 1)], [(x, -1)];
    assert !Separate(Weight(a, x), Weight(d, x));
    DistinctDeltaWhen(o, a, d);
  }
}
