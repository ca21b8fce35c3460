module Replacement {
  // Strict LRU and FIFO replacement over whole traces. LRU keeps the most recently used distinct
  // pages, so its contents and hits only grow with the capacity; when FIFO's do is another module.

  import opened Common

  type Page = nat

  // ---------------------------------------------------------------- recency

  function Without(s: seq<Page>, p: Page): seq<Page> {
    if s == [] then [] else Without(s[..|s| - 1], p) + (if s[|s| - 1] != p then [s[|s| - 1]] else [])
  }

  /** The distinct pages of a trace, by last access. */
  function Recency(t: seq<Page>): seq<Page> {
    if t == [] then [] else Without(Recency(t[..|t| - 1]), t[|t| - 1]) + [t[|t| - 1]]
  }

  /** The position of the last access to p. */
  function LastUse(t: seq<Page>, p: Page): (i: nat)
    requires p in t
    ensures i < |t| && t[i] == p && forall j :: i < j < |t| ==> t[j] != p
  {
    if t[|t| - 1] == p then |t| - 1 else LastUse(t[..|t| - 1], p)
  }

  /** Each page of t once, in order of last access. */
  ghost predicate ByLastUse(t: seq<Page>, r: seq<Page>) {
    && (forall p :: p in r <==> p in t)
    && forall i, j :: 0 <= i < j < |r| ==> r[i] in t && r[j] in t && LastUse(t, r[i]) < LastUse(t, r[j])
  }

  lemma {:induction false} WithoutMembers(s: seq<Page>, p: Page, x: Page)
    ensures x in Without(s, p) <==> x in s && x != p
  {
    if s != [] {
      WithoutMembers(s[..|s| - 1], p, x);
      assert s == s[..|s| - 1] + [s[|s| - 1]];
    }
  }

  lemma {:induction false} WithoutOrder(s: seq<Page>, p: Page, t: seq<Page>)
    requires forall i :: 0 <= i < |s| ==> s[i] in t
    requires forall i, j :: 0 <= i < j < |s| ==> LastUse(t, s[i]) < LastUse(t, s[j])
    ensures forall i :: 0 <= i < |Without(s, p)| ==> Without(s, p)[i] in t && Without(s, p)[i] != p
    ensures forall i, j :: 0 <= i < j < |Without(s, p)| ==> LastUse(t, Without(s, p)[i]) < LastUse(t, Without(s, p)[j])
  {
    if s != [] {
      var init, last := s[..|s| - 1], s[|s| - 1];
      WithoutOrder(init, p, t);
      forall i | 0 <= i < |Without(init, p)| ensures LastUse(t, Without(init, p)[i]) < LastUse(t, last) {
        var x := Without(init, p)[i];
        WithoutMembers(init, p, x);
        var k :| 0 <= k < |init| && init[k] == x;
        assert s[k] == x;
      }
    }
  }

  lemma LaterUse(t: seq<Page>, p: Page, x: Page)
    requires x in t && x != p
    ensures x in t + [p] && LastUse(t + [p], x) == LastUse(t, x) < LastUse(t + [p], p)
  {
    assert (t + [p])[..|t|] == t;
    assert (t + [p])[|t|] == p;
    assert (t + [p])[LastUse(t, x)] == x;
  }

  lemma RecencyStep(t: seq<Page>, r: seq<Page>, p: Page)
    requires ByLastUse(t, r)
    ensures ByLastUse(t + [p], Without(r, p) + [p])
  {
    var w, u := Without(r, p), t + [p];
    WithoutOrder(r, p, t);
    forall x ensures x in w + [p] <==> x in u {
      WithoutMembers(r, p, x);
    }
    forall i, j | 0 <= i < j < |w| + 1 ensures LastUse(u, (w + [p])[i]) < LastUse(u, (w + [p])[j]) {
      LaterUse(t, p, w[i]);
      if j < |w| {
        LaterUse(t, p, w[j]);
      }
    }
  }

  /** Recency is the order of last access. */
  lemma {:induction false} RecencyIs(t: seq<Page>)
    ensures ByLastUse(t, Recency(t))
  {
    if t != [] {
      RecencyIs(t[..|t| - 1]);
      assert t == t[..|t| - 1] + [t[|t| - 1]];
      RecencyStep(t[..|t| - 1], Recency(t[..|t| - 1]), t[|t| - 1]);
    }
  }

  // ---------------------------------------------------------------- strict LRU

  /** The queue after an access. */
  function LruStep(order: seq<Page>, cap: nat, p: Page): seq<Page> {
    (if p in order then Without(order, p) else if |order| >= cap && order != [] then order[1..] else order) + [p]
  }

  function LruAfter(t: seq<Page>, cap: nat): seq<Page> {
    if t == [] then [] else LruStep(LruAfter(t[..|t| - 1], cap), cap, t[|t| - 1])
  }

  function LruHits(t: seq<Page>, cap: nat): nat {
    if t == [] then 0 else
      LruHits(t[..|t| - 1], cap) + (if t[|t| - 1] in LruAfter(t[..|t| - 1], cap) then 1 else 0)
  }

  /** The last k elements, or all. */
  function Suffix(s: seq<Page>, k: nat): seq<Page> {
    if |s| <= k then s else s[|s| - k..]
  }

  lemma {:induction false} WithoutAbsent(s: seq<Page>, p: Page)
    requires p !in s
    ensures Without(s, p) == s
  {
    if s != [] {
      WithoutAbsent(s[..|s| - 1], p);
      assert s == s[..|s| - 1] + [s[|s| - 1]];
    }
  }

  lemma {:induction false} WithoutConcat(a: seq<Page>, b: seq<Page>, p: Page)
    ensures Without(a + b, p) == Without(a, p) + Without(b, p)
  {
    if b == [] {
      assert a + b == a;
    } else {
      assert (a + b)[..|a + b| - 1] == a + b[..|b| - 1];
      WithoutConcat(a, b[..|b| - 1], p);
    }
  }

  lemma {:induction false} WithoutDistinct(s: seq<Page>, p: Page)
    requires Distinct(s)
    ensures Distinct(Without(s, p)) && |Without(s, p)| == |s| - (if p in s then 1 else 0)
  {
    if s != [] {
      var init, last := s[..|s| - 1], s[|s| - 1];
      WithoutDistinct(init, p);
      assert s == init + [last];
      assert last !in init;
      forall i | 0 <= i < |Without(init, p)| ensures Without(init, p)[i] != last {
        WithoutMembers(init, p, Without(init, p)[i]);
      }
    }
  }

  lemma SuffixOf(a: seq<Page>, b: seq<Page>, k: nat)
    requires |b| == k || (a == [] && |b| <= k)
    ensures Suffix(a + b, k) == b
  {
  }

  lemma SuffixHit(front: seq<Page>, s: seq<Page>, cap: nat, p: Page)
    requires p in s && p !in front && Distinct(s) && (|s| == cap || (front == [] && |s| <= cap))
    ensures Suffix(Without(front + s, p) + [p], cap) == Without(s, p) + [p]
  {
    WithoutConcat(front, s, p);
    WithoutAbsent(front, p);
    WithoutDistinct(s, p);
    assert Without(front + s, p) + [p] == front + (Without(s, p) + [p]);
    SuffixOf(front, Without(s, p) + [p], cap);
  }

  lemma SuffixMiss(front: seq<Page>, s: seq<Page>, cap: nat, p: Page)
    requires p !in s && cap >= 1 && (|s| == cap || (front == [] && |s| < cap))
    ensures Suffix(Without(front + s, p) + [p], cap) == (if |s| == cap then s[1..] else s) + [p]
  {
    WithoutConcat(front, s, p);
    WithoutAbsent(s, p);
    if |s| == cap {
      assert Without(front + s, p) + [p] == (Without(front, p) + [s[0]]) + (s[1..] + [p]);
      SuffixOf(Without(front, p) + [s[0]], s[1..] + [p], cap);
    } else {
      assert Without(front + s, p) + [p] == [] + (s + [p]);
      SuffixOf([], s + [p], cap);
    }
  }

  lemma Halves(r: seq<Page>, k: nat, p: Page)
    requires Distinct(r) && k <= |r| && p in r[k..]
    ensures p !in r[..k] && Distinct(r[k..])
  {
    var s := r[k..];
    var i :| 0 <= i < |s| && s[i] == p;
    assert r[k + i] == p;
  }

  /** One access takes the suffix of the recency list to the suffix of the next one. */
  lemma LruSuffix(r: seq<Page>, cap: nat, p: Page)
    requires Distinct(r) && cap >= 1
    ensures LruStep(Suffix(r, cap), cap, p) == Suffix(Without(r, p) + [p], cap)
  {
    var k := if |r| <= cap then 0 else |r| - cap;
    var front, s := r[..k], r[k..];
    assert r == front + s && Suffix(r, cap) == s;
    if p in s {
      Halves(r, k, p);
      SuffixHit(front, s, cap, p);
    } else {
      SuffixMiss(front, s, cap, p);
    }
  }

  /** LRU's queue is always the most recently used distinct pages, up to the capacity. */
  lemma {:induction false} LruIsRecent(t: seq<Page>, cap: nat)
    requires cap >= 1
    ensures LruAfter(t, cap) == Suffix(Recency(t), cap)
  {
    if t != [] {
      LruIsRecent(t[..|t| - 1], cap);
      RecencyDistinct(t[..|t| - 1]);
      LruSuffix(Recency(t[..|t| - 1]), cap, t[|t| - 1]);
    }
  }

  lemma RecencyMembers(t: seq<Page>)
    ensures forall p :: p in Recency(t) <==> p in t
  {
    RecencyIs(t);
  }

  lemma RecencyDistinct(t: seq<Page>)
    ensures Distinct(Recency(t))
  {
    RecencyIs(t);
  }

  /** A larger cache holds everything a smaller one does. */
  lemma LruInclusion(t: seq<Page>, small: nat, large: nat, p: Page)
    requires 1 <= small <= large && p in LruAfter(t, small)
    ensures p in LruAfter(t, large)
  {
    LruIsRecent(t, small);
    LruIsRecent(t, large);
    SuffixGrows(Recency(t), small, large, p);
  }

  lemma SuffixGrows(r: seq<Page>, small: nat, large: nat, p: Page)
    requires small <= large && p in Suffix(r, small)
    ensures p in Suffix(r, large)
  {
    var s, l := Suffix(r, small), Suffix(r, large);
    var k :| 0 <= k < |s| && s[k] == p;
    assert l[|l| - |s| + k] == p;
  }

  /** A larger cache hits at least as often, on every trace. */
  lemma {:induction false} LruHitsMonotone(t: seq<Page>, small: nat, large: nat)
    requires 1 <= small <= large
    ensures LruHits(t, small) <= LruHits(t, large)
  {
    if t != [] {
      var init, p := t[..|t| - 1], t[|t| - 1];
      LruHitsMonotone(init, small, large);
      if p in LruAfter(init, small) {
        LruInclusion(init, small, large, p);
      }
    }
  }

  lemma LruKeeps(order: seq<Page>, cap: nat, p: Page)
    requires Distinct(order) && |order| <= cap && cap >= 1
    ensures Distinct(LruStep(order, cap, p)) && |LruStep(order, cap, p)| <= cap
    ensures p in order ==> |LruStep(order, cap, p)| == |order|
    ensures forall x :: x in LruStep(order, cap, p) <==>
              x == p || (x in order && (p in order || |order| < cap || x != order[0]))
  {
    if p in order {
      WithoutDistinct(order, p);
      forall x ensures x in Without(order, p) <==> x in order && x != p {
        WithoutMembers(order, p, x);
      }
    } else if |order| >= cap {
      assert forall x :: x in order <==> x == order[0] || x in order[1..];
      assert forall i :: 1 <= i < |order| ==> order[i] != order[0];
    }
  }

  class Lru {
    var order: seq<Page>
    var map_: map<Page, ()>
    const cap: nat

    ghost predicate Valid()
      reads this
    {
      Distinct(order) && (forall p :: p in map_ <==> p in order) && |order| == |map_| <= cap && cap >= 1
    }

    constructor (cap: nat)
      requires cap >= 1
      ensures Valid() && this.cap == cap && order == []
    {
      this.cap := cap;
      order, map_ := [], map[];
    }

    /** True on a hit. */
    method Access(page: Page) returns (hit: bool)
      requires Valid()
      modifies this
      ensures Valid() && hit == (page in old(order)) && order == LruStep(old(order), cap, page)
    {
      hit := page in map_;
      LruKeeps(order, cap, page);
      if hit {
        order := Without(order, page);
      } else if |map_| >= cap {
        var victim := order[0];
        order := order[1..];
        map_ := map_ - {victim};
      }
      order := order + [page];
      map_ := map_[page := ()];
    }

    /** The hits of a trace on an empty cache. */
    method Hits(t: seq<Page>) returns (hits: nat)
      requires Valid() && order == []
      modifies this
      ensures Valid() && hits == LruHits(t, cap) && order == LruAfter(t, cap)
    {
      hits := 0;
      for i := 0 to |t|
        invariant Valid() && hits == LruHits(t[..i], cap) && order == LruAfter(t[..i], cap)
      {
        assert t[..i + 1][..i] == t[..i];
        var hit := Access(t[i]);
        if hit {
          hits := hits + 1;
        }
      }
      assert t[..|t|] == t;
    }
  }

  // ---------------------------------------------------------------- FIFO

  function FifoStep(order: seq<Page>, cap: nat, p: Page): seq<Page> {
    if p in order then order else (if |order| >= cap && order != [] then order[1..] else order) + [p]
  }

  function FifoAfter(t: seq<Page>, cap: nat): seq<Page> {
    if t == [] then [] else FifoStep(FifoAfter(t[..|t| - 1], cap), cap, t[|t| - 1])
  }

  function FifoHits(t: seq<Page>, cap: nat): nat {
    if t == [] then 0 else
      FifoHits(t[..|t| - 1], cap) + (if t[|t| - 1] in FifoAfter(t[..|t| - 1], cap) then 1 else 0)
  }

  class Fifo {
    var order: seq<Page>
    var map_: map<Page, ()>
    const cap: nat

    ghost predicate Valid()
      reads this
    {
      Distinct(order) && (forall p :: p in map_ <==> p in order) && |order| == |map_| <= cap && cap >= 1
    }

    constructor (cap: nat)
      requires cap >= 1
      ensures Valid() && this.cap == cap && order == []
    {
      this.cap := cap;
      order, map_ := [], map[];
    }

    method Access(page: Page) returns (hit: bool)
      requires Valid()
      modifies this
      ensures Valid() && hit == (page in old(order)) && order == FifoStep(old(order), cap, page)
    {
      if page in map_ {
        return true;
      }
      if |map_| >= cap {
        var victim := order[0];
        assert forall x :: x in order <==> x == victim || x in order[1..];
        order := order[1..];
        map_ := map_ - {victim};
      }
      order := order + [page];
      map_ := map_[page := ()];
      hit := false;
    }
  }
}
