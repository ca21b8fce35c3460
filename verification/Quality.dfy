/** Pair precision and recall of a clustering from contingency counts: the counts are exact
    numbers of address pairs. */
module Quality {

  /** How often k occurs. */
  function Occurrences<K(==)>(keys: seq<K>, k: K): nat {
    if keys == [] then 0 else Occurrences(keys[..|keys| - 1], k) + (if keys[|keys| - 1] == k then 1 else 0)
  }

  /** The pairs of positions with equal keys, the key being in s. */
  ghost function EqualPairs<K>(keys: seq<K>, s: set<K>): set<(nat, nat)> {
    set a, b | 0 <= a < b < |keys| && keys[a] == keys[b] && keys[b] in s :: (a, b)
  }

  function Choose2(n: nat): nat {
    n * (if n == 0 then 0 else n - 1) / 2
  }

  lemma Choose2Step(n: nat)
    ensures Choose2(n + 1) == Choose2(n) + n
  {
    assert (n + 1) * n == n * (if n == 0 then 0 else n - 1) + 2 * n;
  }

  ghost function EarlierThan<K>(keys: seq<K>, k: K, n: nat, b: nat): set<(nat, nat)>
    requires n <= |keys|
  {
    set a | 0 <= a < n && keys[a] == k :: (a, b)
  }

  lemma {:induction false} EarlierSize<K>(keys: seq<K>, k: K, n: nat, b: nat)
    requires n <= |keys|
    ensures |EarlierThan(keys, k, n, b)| == Occurrences(keys[..n], k)
  {
    if n == 0 {
      assert EarlierThan(keys, k, n, b) == {};
    } else {
      EarlierSize(keys, k, n - 1, b);
      assert keys[..n][..n - 1] == keys[..n - 1];
      assert EarlierThan(keys, k, n, b) == EarlierThan(keys, k, n - 1, b)
        + (if keys[n - 1] == k then {(n - 1, b)} else {});
    }
  }

  lemma PairsSplit<K>(keys: seq<K>, s: set<K>)
    requires keys != []
    ensures var init := keys[..|keys| - 1]; var last := keys[|keys| - 1];
            |EqualPairs(keys, s)| == |EqualPairs(init, s)| + (if last in s then Occurrences(init, last) else 0)
  {
    var m := |keys| - 1;
    var init, last := keys[..m], keys[m];
    EarlierSize(keys, last, m, m);
    var extra := if last in s then EarlierThan(keys, last, m, m) else {};
    assert EqualPairs(keys, s) == EqualPairs(init, s) + extra;
    assert EqualPairs(init, s) !! extra;
  }

  /** One more key adds its occurrences taken two at a time. */
  lemma {:induction false} AddKey<K>(keys: seq<K>, s: set<K>, k: K)
    requires k !in s
    ensures |EqualPairs(keys, s + {k})| == |EqualPairs(keys, s)| + Choose2(Occurrences(keys, k))
  {
    if keys == [] {
      assert EqualPairs(keys, s + {k}) == {} == EqualPairs(keys, s);
    } else {
      AddKey(keys[..|keys| - 1], s, k);
      PairsSplit(keys, s);
      PairsSplit(keys, s + {k});
      Choose2Step(Occurrences(keys[..|keys| - 1], k));
    }
  }

  // ---------------------------------------------------------------- counting with maps

  ghost predicate Counts<K>(m: map<K, nat>, keys: seq<K>) {
    && (forall i :: 0 <= i < |keys| ==> keys[i] in m)
    && (forall k :: k in m ==> k in keys && m[k] == Occurrences(keys, k))
  }

  function Bump<K>(m: map<K, nat>, k: K): map<K, nat> {
    m[k := (if k in m then m[k] else 0) + 1]
  }

  lemma {:induction false} NoOccurrence<K>(keys: seq<K>, k: K)
    requires k !in keys
    ensures Occurrences(keys, k) == 0
  {
    if keys != [] {
      NoOccurrence(keys[..|keys| - 1], k);
    }
  }

  lemma BumpCounts<K>(m: map<K, nat>, keys: seq<K>, k: K)
    requires Counts(m, keys)
    ensures Counts(Bump(m, k), keys + [k])
  {
    assert (keys + [k])[..|keys|] == keys;
    if k !in m {
      NoOccurrence(keys, k);
    }
  }

  /** The sum of the values taken two at a time is the number of pairs with equal keys. */
  method SumPairs<K(==)>(m: map<K, nat>, ghost keys: seq<K>) returns (sum: nat)
    requires Counts(m, keys)
    ensures sum == |EqualPairs(keys, m.Keys)|
  {
    sum := 0;
    ghost var done: set<K> := {};
    var todo := m.Keys;
    assert EqualPairs(keys, {}) == {};
    while todo != {}
      invariant done + todo == m.Keys && done !! todo && sum == |EqualPairs(keys, done)|
    {
      var k :| k in todo;
      AddKey(keys, done, k);
      sum := sum + Choose2(m[k]);
      todo, done := todo - {k}, done + {k};
    }
  }

  // ---------------------------------------------------------------- precision and recall

  datatype ClusterQuality = ClusterQuality(nClusters: nat, largest: nat, precision: real, recall: real)

  /** The pairs of positions whose keys agree. */
  ghost function Agreeing<K>(keys: seq<K>): set<(nat, nat)> {
    set a, b | 0 <= a < b < |keys| && keys[a] == keys[b] :: (a, b)
  }

  function Zip(a: seq<nat>, b: seq<nat>): (r: seq<(nat, nat)>)
    requires |a| == |b|
    ensures |r| == |a| && forall i :: 0 <= i < |a| ==> r[i] == (a[i], b[i])
  {
    seq(|a|, i requires 0 <= i < |a| => (a[i], b[i]))
  }

  ghost function Ratio(part: nat, whole: nat): real {
    if whole == 0 then 1.0 else (part as real) / (whole as real)
  }

  lemma AllKeys<K>(m: map<K, nat>, keys: seq<K>)
    requires Counts(m, keys)
    ensures EqualPairs(keys, m.Keys) == Agreeing(keys)
  {
    assert forall i :: 0 <= i < |keys| ==> keys[i] in keys;
  }

  /** Pairs agreeing on both keys are the pairs agreeing on each. */
  lemma BothAgree(labels: seq<nat>, entities: seq<nat>)
    requires |labels| == |entities|
    ensures Agreeing(Zip(labels, entities)) == Agreeing(labels) * Agreeing(entities)
  {
  }

  lemma BumpNext<K>(m: map<K, nat>, keys: seq<K>, a: nat)
    requires a < |keys| && Counts(m, keys[..a])
    ensures Counts(Bump(m, keys[a]), keys[..a + 1])
  {
    assert keys[..a + 1] == keys[..a] + [keys[a]];
    BumpCounts(m, keys[..a], keys[a]);
  }

  ghost predicate Tallied(labels: seq<nat>, used: seq<nat>, a: nat, clusters: map<nat, nat>, owners: map<nat, nat>,
                          joint: map<(nat, nat), nat>)
    requires |labels| == |used| && a <= |labels|
  {
    Counts(clusters, labels[..a]) && Counts(owners, used[..a]) && Counts(joint, Zip(labels, used)[..a])
  }

  lemma TallyStep(labels: seq<nat>, used: seq<nat>, a: nat, clusters: map<nat, nat>, owners: map<nat, nat>,
                  joint: map<(nat, nat), nat>)
    requires |labels| == |used| && a < |labels| && Tallied(labels, used, a, clusters, owners, joint)
    ensures Tallied(labels, used, a + 1, Bump(clusters, labels[a]), Bump(owners, used[a]),
            Bump(joint, (labels[a], used[a])))
  {
    BumpNext(clusters, labels, a);
    BumpNext(owners, used, a);
    BumpNext(joint, Zip(labels, used), a);
  }

  method Tables(labels: seq<nat>, used: seq<nat>)
    returns (clusters: map<nat, nat>, owners: map<nat, nat>, joint: map<(nat, nat), nat>)
    requires |labels| == |used|
    ensures Counts(clusters, labels) && Counts(owners, used) && Counts(joint, Zip(labels, used))
  {
    clusters, owners, joint := map[], map[], map[];
    for a := 0 to |labels|
      invariant Tallied(labels, used, a, clusters, owners, joint)
    {
      TallyStep(labels, used, a, clusters, owners, joint);
      clusters, owners, joint := Bump(clusters, labels[a]), Bump(owners, used[a]), Bump(joint, (labels[a], used[a]));
    }
    assert labels[..|labels|] == labels && used[..|used|] == used && Zip(labels, used)[..|labels|] == Zip(labels, used);
  }

  /** The largest count. */
  method Largest(m: map<nat, nat>) returns (largest: nat)
    ensures forall k :: k in m ==> m[k] <= largest
    ensures if m.Keys == {} then largest == 0 else exists k :: k in m && m[k] == largest
  {
    largest := 0;
    var todo := m.Keys;
    while todo != {}
      invariant todo <= m.Keys && forall k :: k in m && k !in todo ==> m[k] <= largest
      invariant if todo == m.Keys then largest == 0 else exists k :: k in m && k !in todo && m[k] == largest
    {
      var k :| k in todo;
      if m[k] >= largest {
        largest := m[k];
      }
      todo := todo - {k};
    }
  }

  /** True positives, predicted pairs and actual pairs, and the cluster sizes. */
  method PairCounts(labels: seq<nat>, used: seq<nat>)
    returns (tp: nat, predicted: nat, actual: nat, clusters: map<nat, nat>)
    requires |labels| == |used|
    ensures tp == |Agreeing(labels) * Agreeing(used)| && predicted == |Agreeing(labels)| && actual == |Agreeing(used)|
    ensures Counts(clusters, labels)
  {
    var owners, joint;
    clusters, owners, joint := Tables(labels, used);
    tp := SumPairs(joint, Zip(labels, used));
    predicted := SumPairs(clusters, labels);
    actual := SumPairs(owners, used);
    AllKeys(joint, Zip(labels, used));
    AllKeys(clusters, labels);
    AllKeys(owners, used);
    BothAgree(labels, used);
  }

  /** Precision and recall over pairs of addresses: of the pairs clustered together, the share
      that has one owner; of the pairs with one owner, the share clustered together. */
  method Measure(entities: seq<nat>, labels: seq<nat>) returns (q: ClusterQuality)
    requires |labels| <= |entities|
    ensures var used := entities[..|labels|];
      && q.precision == Ratio(|Agreeing(labels) * Agreeing(used)|, |Agreeing(labels)|)
      && q.recall == Ratio(|Agreeing(labels) * Agreeing(used)|, |Agreeing(used)|)
    ensures q.nClusters == |set l | l in labels|
    ensures forall l :: l in labels ==> Occurrences(labels, l) <= q.largest
    ensures if labels == [] then q.largest == 0 else exists l :: l in labels && Occurrences(labels, l) == q.largest
  {
    var used := entities[..|labels|];
    var tp, predicted, actual, clusters := PairCounts(labels, used);
    var largest := Largest(clusters);
    assert clusters.Keys == set l | l in labels;
    assert |clusters| == |clusters.Keys|;
    assert labels != [] ==> labels[0] in clusters;
    q := ClusterQuality(|clusters|, largest,
                        if predicted == 0 then 1.0 else (tp as real) / (predicted as real),
                        if actual == 0 then 1.0 else (tp as real) / (actual as real));
  }
}
