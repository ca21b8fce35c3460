/** Lists of (row, column, value) triples, and the row pointers counted from them. */
module TripleLists {
  type Triple<V> = (nat, nat, V)

  /** Strictly ascending by row, then column. */
  ghost predicate Ascending<V>(t: seq<Triple<V>>) {
    forall k, l :: 0 <= k < l < |t| ==> t[k].0 < t[l].0 || (t[k].0 == t[l].0 && t[k].1 < t[l].1)
  }

  ghost predicate RowsBelow<V>(t: seq<Triple<V>>, n: nat) {
    forall k :: 0 <= k < |t| ==> t[k].0 < n
  }

  function CountAt<V>(t: seq<Triple<V>>, i: nat): nat {
    if t == [] then 0 else CountAt(t[..|t| - 1], i) + (if t[|t| - 1].0 == i then 1 else 0)
  }

  function CountBelow<V>(t: seq<Triple<V>>, i: nat): nat {
    if t == [] then 0 else CountBelow(t[..|t| - 1], i) + (if t[|t| - 1].0 < i then 1 else 0)
  }

  lemma CountSnoc<V>(t: seq<Triple<V>>, x: Triple<V>, i: nat)
    ensures CountAt(t + [x], i) == CountAt(t, i) + (if x.0 == i then 1 else 0)
    ensures CountBelow(t + [x], i) == CountBelow(t, i) + (if x.0 < i then 1 else 0)
  {
    assert (t + [x])[..|t|] == t;
  }

  lemma CountNext<V>(t: seq<Triple<V>>, e: nat, i: nat)
    requires e < |t|
    ensures CountAt(t[..e + 1], i) == CountAt(t[..e], i) + (if t[e].0 == i then 1 else 0)
    ensures CountBelow(t[..e + 1], i) == CountBelow(t[..e], i) + (if t[e].0 < i then 1 else 0)
  {
    assert t[..e + 1] == t[..e] + [t[e]];
    CountSnoc(t[..e], t[e], i);
  }

  lemma {:induction false} CountSplit<V>(t: seq<Triple<V>>, i: nat)
    ensures CountBelow(t, i + 1) == CountBelow(t, i) + CountAt(t, i)
  {
    if t != [] {
      CountSplit(t[..|t| - 1], i);
    }
  }

  lemma {:induction false} CountEnds<V>(t: seq<Triple<V>>, n: nat)
    requires RowsBelow(t, n)
    ensures CountBelow(t, 0) == 0 && CountBelow(t, n) == |t|
  {
    if t != [] {
      CountEnds(t[..|t| - 1], n);
    }
  }

  lemma {:induction false} CountMonotone<V>(t: seq<Triple<V>>, i: nat, j: nat)
    requires i <= j
    ensures CountBelow(t, i) <= CountBelow(t, j) <= |t|
  {
    if t != [] {
      CountMonotone(t[..|t| - 1], i, j);
    }
  }

  lemma {:induction false} CountAtMonotone<V>(t: seq<Triple<V>>, k: nat, i: nat)
    requires k <= |t|
    ensures CountAt(t[..k], i) <= CountAt(t, i)
  {
    if k == |t| {
      assert t[..k] == t;
    } else {
      CountAtMonotone(t[..|t| - 1], k, i);
      assert t[..|t| - 1][..k] == t[..k];
    }
  }

  /** In an ascending list the rows below i come first. */
  lemma {:induction false} CountCuts<V>(t: seq<Triple<V>>, i: nat, k: nat)
    requires Ascending(t) && k < |t|
    ensures t[k].0 < i <==> k < CountBelow(t, i)
  {
    var m := |t| - 1;
    CountMonotone(t[..m], i, i);
    if k < m {
      CountCuts(t[..m], i, k);
      assert t[k].0 <= t[m].0;
    }
    if t[m].0 < i {
      AllBelow(t[..m], i);
    }
  }

  lemma {:induction false} AllBelow<V>(t: seq<Triple<V>>, i: nat)
    requires RowsBelow(t, i)
    ensures CountBelow(t, i) == |t|
  {
    if t != [] {
      AllBelow(t[..|t| - 1], i);
    }
  }

  /** Two ascending lists with the same members are the same list. */
  lemma {:induction false} SameList<V>(a: seq<Triple<V>>, b: seq<Triple<V>>)
    requires Ascending(a) && Ascending(b) && forall x: Triple<V> :: x in a <==> x in b
    ensures a == b
  {
    if a == [] || b == [] {
      NoMembers(a);
      NoMembers(b);
    } else {
      var la, lb := a[|a| - 1], b[|b| - 1];
      assert la in b && lb in a;
      LastIsGreatest(a, lb);
      LastIsGreatest(b, la);
      assert la == lb;
      var ia, ib := a[..|a| - 1], b[..|b| - 1];
      forall x: Triple<V> ensures x in ia <==> x in ib {
        Init(a, x);
        Init(b, x);
      }
      SameList(ia, ib);
      assert a == ia + [la] && b == ib + [lb];
    }
  }

  lemma NoMembers<V>(t: seq<Triple<V>>)
    ensures t == [] <==> forall x :: x !in t
  {
    if t != [] {
      assert t[0] in t;
    }
  }

  lemma LastIsGreatest<V>(t: seq<Triple<V>>, x: Triple<V>)
    requires Ascending(t) && x in t
    ensures var l := t[|t| - 1]; x == l || x.0 < l.0 || (x.0 == l.0 && x.1 < l.1)
  {
  }

  lemma Init<V>(t: seq<Triple<V>>, x: Triple<V>)
    requires Ascending(t) && t != []
    ensures x in t[..|t| - 1] <==> x in t && x != t[|t| - 1]
  {
    var i := t[..|t| - 1];
    if x in i {
      var k :| 0 <= k < |i| && i[k] == x;
      assert t[k] == x;
    }
    if x in t && x != t[|t| - 1] {
      var k :| 0 <= k < |t| && t[k] == x;
      assert i[k] == x;
    }
  }

  // ---------------------------------------------------------------- row pointers

  /** ptr[i] is the number of triples in rows before i. */
  ghost predicate Points<V>(ptr: seq<nat>, n: nat, t: seq<Triple<V>>) {
    |ptr| == n + 1 && forall i :: 0 <= i <= n ==> ptr[i] == CountBelow(t, i)
  }

  ghost predicate Tallied<V>(n: nat, t: seq<Triple<V>>, cnt: seq<nat>) {
    |cnt| == n + 1 && cnt[0] == 0 && forall j :: 1 <= j <= n ==> cnt[j] == CountAt(t, j - 1)
  }

  lemma TallyStep<V>(n: nat, t: seq<Triple<V>>, e: nat, cnt: seq<nat>)
    requires e < |t| && t[e].0 < n && Tallied(n, t[..e], cnt)
    ensures Tallied(n, t[..e + 1], cnt[t[e].0 + 1 := cnt[t[e].0 + 1] + 1])
  {
    var cnt' := cnt[t[e].0 + 1 := cnt[t[e].0 + 1] + 1];
    forall j | 1 <= j <= n ensures cnt'[j] == CountAt(t[..e + 1], j - 1) {
      CountNext(t, e, j - 1);
    }
  }

  /** The histogram of the rows, one place up. */
  method Histogram<V>(n: nat, t: seq<Triple<V>>) returns (cnt: array<nat>)
    requires RowsBelow(t, n)
    ensures fresh(cnt) && cnt.Length == n + 1 && Tallied(n, t, cnt[..])
  {
    cnt := new nat[n + 1](_ => 0);
    assert t[..0] == [];
    for e := 0 to |t|
      invariant Tallied(n, t[..e], cnt[..])
    {
      TallyStep(n, t, e, cnt[..]);
      cnt[t[e].0 + 1] := cnt[t[e].0 + 1] + 1;
    }
    assert t[..|t|] == t;
  }

  /** Counting and running totals give the row pointers. */
  method RowPointers<V>(n: nat, t: seq<Triple<V>>) returns (ptr: seq<nat>)
    requires RowsBelow(t, n)
    ensures Points(ptr, n, t)
  {
    var cnt := Histogram(n, t);
    CountEnds(t, n);
    for i := 0 to n
      invariant forall j :: 0 <= j <= i ==> cnt[j] == CountBelow(t, j)
      invariant forall j :: i < j <= n ==> cnt[j] == CountAt(t, j - 1)
    {
      CountSplit(t, i);
      cnt[i + 1] := cnt[i + 1] + cnt[i];
    }
    ptr := cnt[..];
  }

  /** The row a position belongs to: the last one starting at or before it. */
  function RowBelow(ptr: seq<nat>, e: nat, r: nat): (s: nat)
    requires r < |ptr|
    ensures s <= r
  {
    if r == 0 || ptr[r] <= e then r else RowBelow(ptr, e, r - 1)
  }

  lemma {:induction false} RowIs(ptr: seq<nat>, e: nat, r: nat, s: nat)
    requires r < |ptr| && s <= r && ptr[s] <= e && forall i :: s < i <= r ==> e < ptr[i]
    ensures RowBelow(ptr, e, r) == s
  {
    if r != s {
      RowIs(ptr, e, r - 1, s);
    }
  }
}
