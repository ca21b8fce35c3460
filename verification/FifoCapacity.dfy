module FifoCapacity {
  // Hits of FIFO replacement against its capacity: more frames never cost a hit on any trace
  // exactly when there are as many frames, or at least 2n - 1 in place of n (Belady's anomaly).

  import opened Common
  import opened Replacement

  // ---------------------------------------------------------------- loads

  /** The pages loaded, in order. */
  function Loads(t: seq<Page>, cap: nat): seq<Page> {
    if t == [] then [] else
      var init, p := t[..|t| - 1], t[|t| - 1];
      if p in FifoAfter(init, cap) then Loads(init, cap) else Loads(init, cap) + [p]
  }

  lemma SuffixLoads(w: seq<Page>, cap: nat, p: Page)
    requires cap >= 1 && p !in Suffix(w, cap)
    ensures FifoStep(Suffix(w, cap), cap, p) == Suffix(w + [p], cap)
  {
  }

  /** FIFO holds the last pages loaded. */
  lemma {:induction false} HoldsLastLoads(t: seq<Page>, cap: nat)
    requires cap >= 1
    ensures FifoAfter(t, cap) == Suffix(Loads(t, cap), cap)
  {
    if t != [] {
      var init, p := t[..|t| - 1], t[|t| - 1];
      HoldsLastLoads(init, cap);
      if p !in FifoAfter(init, cap) {
        SuffixLoads(Loads(init, cap), cap, p);
      }
    }
  }

  lemma {:induction false} FifoSound(t: seq<Page>, cap: nat)
    requires cap >= 1
    ensures Distinct(FifoAfter(t, cap)) && |FifoAfter(t, cap)| <= cap
    ensures forall p :: p in FifoAfter(t, cap) ==> p in t
  {
    if t != [] {
      FifoSound(t[..|t| - 1], cap);
      assert t == t[..|t| - 1] + [t[|t| - 1]];
    }
  }

  /** Distinct pages found in a list are no more than its elements. */
  lemma {:induction false} DistinctFits(u: seq<Page>, v: seq<Page>)
    requires Distinct(u) && forall p :: p in u ==> p in v
    ensures |u| <= |v|
  {
    if u != [] {
      var n, p := |u| - 1, u[|u| - 1];
      assert p in u;
      var k :| 0 <= k < |v| && v[k] == p;
      var rest := v[..k] + v[k + 1..];
      forall x | x in u[..n] ensures x in rest {
        assert x in u && x != p;
        var m :| 0 <= m < |v| && v[m] == x;
        assert rest[if m < k then m else m - 1] == x;
      }
      DistinctFits(u[..n], rest);
    }
  }

  // ---------------------------------------------------------------- enough frames never cost a hit

  /** The loads around position i: from n - 1 before it on. */
  function Window(w: seq<Page>, i: nat, n: nat): seq<Page>
    requires i < |w|
  {
    if i + 1 >= n then w[i + 1 - n..] else w
  }

  /** Page w[i] is at j in the large cache, and all that was loaded there after it is in the window. */
  ghost predicate Behind(w: seq<Page>, n: nat, l: seq<Page>, i: nat, j: nat)
    requires i < |w|
  {
    j < |l| && l[j] == w[i] && forall k :: j < k < |l| ==> l[k] in Window(w, i, n)
  }

  ghost predicate Covered(w: seq<Page>, n: nat, l: seq<Page>, i: nat)
    requires i < |w|
  {
    exists j: nat :: Behind(w, n, l, i, j)
  }

  ghost predicate Recent(w: seq<Page>, n: nat, i: nat) {
    i < |w| <= i + n
  }

  /** Every page in the small cache is covered in the large one, or it was there when the small
      cache loaded it: such a page is a credit, and pays for the hit it may give the small cache
      alone. */
  ghost predicate Credited(w: seq<Page>, n: nat, l: seq<Page>, g: set<Page>) {
    && (forall p :: p in g ==> p in Suffix(w, n))
    && forall i: nat :: Recent(w, n, i) ==> w[i] in g || Covered(w, n, l, i)
  }

  lemma RecentHeld(w: seq<Page>, n: nat, i: nat)
    requires Recent(w, n, i)
    ensures w[i] in Suffix(w, n)
  {
    var s := Suffix(w, n);
    assert s[i - (|w| - |s|)] == w[i];
  }

  lemma HeldRecent(w: seq<Page>, n: nat, p: Page) returns (i: nat)
    requires p in Suffix(w, n)
    ensures Recent(w, n, i) && w[i] == p
  {
    var s := Suffix(w, n);
    var k :| 0 <= k < |s| && s[k] == p;
    i := |w| - |s| + k;
  }

  lemma HeldInWindow(w: seq<Page>, n: nat, i: nat, p: Page)
    requires Recent(w, n, i) && p in Suffix(w, n)
    ensures p in Window(w, i, n)
  {
    var k := HeldRecent(w, n, p);
    var v := Window(w, i, n);
    assert v[k - (|w| - |v|)] == p;
  }

  lemma WindowGrows(w: seq<Page>, n: nat, l: seq<Page>, i: nat, p: Page)
    requires i < |w| && Covered(w, n, l, i)
    ensures Covered(w + [p], n, l, i)
  {
    var j: nat :| Behind(w, n, l, i, j);
    assert Window(w + [p], i, n) == Window(w, i, n) + [p];
    assert Behind(w + [p], n, l, i, j);
  }

  /** With 2n - 1 frames a covered page is not the one evicted: fewer pages fit into the window. */
  lemma StaysCovered(w: seq<Page>, n: nat, l: seq<Page>, m: nat, i: nat, x: Page)
    requires Recent(w, n, i) && Covered(w, n, l, i) && m + 1 >= 2 * n && |l| <= m && Distinct(l)
    requires x !in l && x in Window(w, i, n)
    ensures Covered(w, n, FifoStep(l, m, x), i)
  {
    var j: nat :| Behind(w, n, l, i, j);
    if |l| < m {
      assert Behind(w, n, l + [x], i, j);
    } else if j > 0 {
      assert Behind(w, n, l[1..] + [x], i, j - 1);
    } else {
      RecentHeld(w, n, i);
      HeldInWindow(w, n, i, w[i]);
      DistinctFits(l + [x], Window(w, i, n));
      assert false;
    }
  }

  lemma NewCovered(w: seq<Page>, n: nat, l: seq<Page>, m: nat, i: nat)
    requires i < |w| && w[i] !in l
    ensures Covered(w, n, FifoStep(l, m, w[i]), i)
  {
    var l' := FifoStep(l, m, w[i]);
    assert Behind(w, n, l', i, |l'| - 1);
  }

  /** One access keeps the credits; a hit of the small cache alone uses one up, and a hit of the
      large one alone gives one. */
  lemma CreditStep(w: seq<Page>, n: nat, l: seq<Page>, m: nat, g: set<Page>, p: Page) returns (g': set<Page>)
    requires Credited(w, n, l, g) && 1 <= n && m + 1 >= 2 * n && |l| <= m && Distinct(l)
    ensures var hit := p in Suffix(w, n);
            && Credited(if hit then w else w + [p], n, FifoStep(l, m, p), g')
            && (if hit then 1 else 0) + |g'| <= (if p in l then 1 else 0) + |g|
  {
    if p in Suffix(w, n) {
      g' := if p in l then g else g - {p};
      if p !in l {
        HitAlone(w, n, l, m, g, p);
      }
    } else {
      var s' := Suffix(w + [p], n);
      g' := set x | x in g + (if p in l then {p} else {}) && x in s';
      SubsetAtMost(g', g + (if p in l then {p} else {}));
      Loaded(w, n, l, m, g, p, g');
    }
  }

  lemma SubsetAtMost(a: set<Page>, b: set<Page>)
    requires a <= b
    ensures |a| <= |b|
  {
    assert |b - a| == |b| - |a|;
  }

  lemma HitAlone(w: seq<Page>, n: nat, l: seq<Page>, m: nat, g: set<Page>, p: Page)
    requires Credited(w, n, l, g) && 1 <= n && m + 1 >= 2 * n && |l| <= m && Distinct(l)
    requires p in Suffix(w, n) && p !in l
    ensures p in g && Credited(w, n, FifoStep(l, m, p), g - {p})
  {
    var k := HeldRecent(w, n, p);
    assert w[k] in g || Covered(w, n, l, k);
    forall i: nat | Recent(w, n, i) ensures w[i] in g - {p} || Covered(w, n, FifoStep(l, m, p), i) {
      if w[i] == p {
        NewCovered(w, n, l, m, i);
      } else if w[i] !in g {
        HeldInWindow(w, n, i, p);
        StaysCovered(w, n, l, m, i, p);
      }
    }
  }

  lemma Loaded(w: seq<Page>, n: nat, l: seq<Page>, m: nat, g: set<Page>, p: Page, g': set<Page>)
    requires Credited(w, n, l, g) && 1 <= n && m + 1 >= 2 * n && |l| <= m && Distinct(l) && p !in Suffix(w, n)
    requires g' == set x | x in g + (if p in l then {p} else {}) && x in Suffix(w + [p], n)
    ensures Credited(w + [p], n, FifoStep(l, m, p), g')
  {
    var w' := w + [p];
    RecentHeld(w', n, |w|);
    forall i: nat | Recent(w', n, i) ensures w'[i] in g' || Covered(w', n, FifoStep(l, m, p), i) {
      RecentHeld(w', n, i);
      if i == |w| {
        if p !in l {
          NewCovered(w', n, l, m, i);
        }
      } else if w[i] !in g {
        WindowGrows(w, n, l, i, p);
        if p !in l {
          HeldInWindow(w', n, i, p);
          StaysCovered(w', n, l, m, i, p);
        }
      }
    }
  }

  /** With 2n - 1 frames or more FIFO hits at least as often as with n, credits included. */
  lemma {:induction false} CreditBound(t: seq<Page>, n: nat, m: nat) returns (g: set<Page>)
    requires 1 <= n && m + 1 >= 2 * n
    ensures Credited(Loads(t, n), n, FifoAfter(t, m), g)
    ensures FifoHits(t, n) + |g| <= FifoHits(t, m)
  {
    g := {};
    if t != [] {
      var init := t[..|t| - 1];
      g := CreditBound(init, n, m);
      HoldsLastLoads(init, n);
      FifoSound(init, m);
      g := CreditStep(Loads(init, n), n, FifoAfter(init, m), m, g, t[|t| - 1]);
    }
  }

  // ---------------------------------------------------------------- the anomaly

  /** No page comes again within cap places, from a position on. */
  ghost predicate Spread(v: seq<Page>, cap: nat, from: nat) {
    forall j, l :: from <= j < |v| && 0 <= l < j <= l + cap ==> v[l] != v[j]
  }

  lemma Access(t: seq<Page>, p: Page, cap: nat)
    requires cap >= 1
    ensures p in FifoAfter(t, cap) ==>
            Loads(t + [p], cap) == Loads(t, cap) && FifoHits(t + [p], cap) == FifoHits(t, cap) + 1
                                       && FifoAfter(t + [p], cap) == FifoAfter(t, cap)
    ensures p !in FifoAfter(t, cap) ==>
            Loads(t + [p], cap) == Loads(t, cap) + [p] && FifoHits(t + [p], cap) == FifoHits(t, cap)
  {
    assert (t + [p])[..|t|] == t;
  }

  lemma SpreadMisses(v: seq<Page>, x: Page, cap: nat, from: nat)
    requires Spread(v + [x], cap, from) && from <= |v|
    ensures Spread(v, cap, from) && x !in Suffix(v, cap)
  {
    var u := v + [x];
    forall j, l | from <= j < |v| && 0 <= l < j <= l + cap ensures v[l] != v[j] {
      assert u[l] != u[j];
    }
    forall k: nat | Recent(v, cap, k) ensures v[k] != x {
      assert u[k] != u[|v|];
    }
    if x in Suffix(v, cap) {
      var k := HeldRecent(v, cap, x);
      assert false;
    }
  }

  /** Such pages all miss. */
  lemma {:induction false} AllMiss(t: seq<Page>, u: seq<Page>, cap: nat)
    requires cap >= 1 && Spread(Loads(t, cap) + u, cap, |Loads(t, cap)|)
    ensures Loads(t + u, cap) == Loads(t, cap) + u && FifoHits(t + u, cap) == FifoHits(t, cap)
  {
    var w := Loads(t, cap);
    if u == [] {
      assert t + u == t && w + u == w;
    } else {
      var init, p := u[..|u| - 1], u[|u| - 1];
      assert u == init + [p];
      assert t + u == (t + init) + [p] && w + u == (w + init) + [p];
      SpreadMisses(w + init, p, cap, |w|);
      AllMiss(t, init, cap);
      HoldsLastLoads(t + init, cap);
      Access(t + init, p, cap);
    }
  }

  /** Pages held all hit. */
  lemma {:induction false} AllHit(t: seq<Page>, u: seq<Page>, cap: nat)
    requires cap >= 1 && forall p :: p in u ==> p in FifoAfter(t, cap)
    ensures Loads(t + u, cap) == Loads(t, cap) && FifoHits(t + u, cap) == FifoHits(t, cap) + |u|
    ensures FifoAfter(t + u, cap) == FifoAfter(t, cap)
  {
    if u == [] {
      assert t + u == t;
    } else {
      var init, p := u[..|u| - 1], u[|u| - 1];
      assert p in u && u == init + [p];
      assert t + u == (t + init) + [p];
      AllHit(t, init, cap);
      Access(t + init, p, cap);
    }
  }

  /** The pages lo, lo + 1, ..., hi. */
  function Pages(lo: nat, hi: nat): seq<Page>
    requires lo <= hi + 1
  {
    seq(hi + 1 - lo, i requires 0 <= i => lo + i)
  }

  /** Belady's trace for n frames against m: all of 1..m, the first n - 1 again, page 0, all of
      1..m, page 0. */
  function Belady(n: nat, m: nat): seq<Page>
    requires 1 <= n <= m
  {
    Pages(1, m) + Pages(1, n - 1) + [0] + Pages(1, m) + [0]
  }

  lemma StartsEmpty(u: seq<Page>, cap: nat)
    requires cap >= 1 && Spread(u, cap, 0)
    ensures Loads(u, cap) == u && FifoHits(u, cap) == 0
  {
    assert [] + u == u;
    AllMiss([], u, cap);
  }

  lemma FirstRound(n: nat, m: nat, a: seq<Page>, b: seq<Page>)
    requires 1 <= n < m && a == Pages(1, m) && b == Pages(1, n - 1) + [0]
    ensures Loads(a + b, n) == a + b && FifoHits(a + b, n) == 0 && FifoAfter(a + b, n) == b
  {
    StartsEmpty(a + b, n);
    HoldsLastLoads(a + b, n);
    assert Suffix(a + b, n) == b;
  }

  lemma SecondRound(n: nat, m: nat, a: seq<Page>, b: seq<Page>, t: seq<Page>, c: seq<Page>)
    requires 1 <= n < m && m + 2 <= 2 * n && a == Pages(1, m) && b == Pages(1, n - 1) + [0] && c == Pages(n, m)
    requires Loads(t, n) == a + b
    ensures FifoHits(t + c, n) == FifoHits(t, n) && 0 in FifoAfter(t + c, n)
  {
    var w := a + b;
    var v := w + c;
    forall j, l | |w| <= j < |v| && 0 <= l < j <= l + n ensures v[l] != v[j] {
    }
    AllMiss(t, c, n);
    HoldsLastLoads(t + c, n);
    RecentHeld(v, n, m + n - 1);
  }

  lemma FewFrames(n: nat, m: nat)
    requires 1 <= n < m && m + 2 <= 2 * n
    ensures FifoHits(Belady(n, m), n) == n
  {
    var a, b, c, x := Pages(1, m), Pages(1, n - 1) + [0], Pages(n, m), Pages(1, n - 1);
    FirstRound(n, m, a, b);
    AllHit(a + b, x, n);
    var t := a + b + x;
    SecondRound(n, m, a, b, t, c);
    AllHit(t + c, [0], n);
    SameTrace(n, m, a, b, c, x);
  }

  lemma SameTrace(n: nat, m: nat, a: seq<Page>, b: seq<Page>, c: seq<Page>, x: seq<Page>)
    requires 1 <= n < m && a == Pages(1, m) && x == Pages(1, n - 1) && b == x + [0] && c == Pages(n, m)
    ensures a + b + x + c + [0] == Belady(n, m)
  {
    assert x + c == a;
    assert a + b + x + c == a + b + (x + c);
    assert a + b == a + x + [0];
  }

  lemma ManyFrames(n: nat, m: nat)
    requires 1 <= n <= m
    ensures FifoHits(Belady(n, m), m) == n - 1
  {
    var a, b, c := Pages(1, m), Pages(1, n - 1), [0] + Pages(1, m) + [0];
    Opening(n, m, a, b);
    AllHit(a, b, m);
    NothingRepeats(m, a, c);
    AllMiss(a + b, c, m);
    OneTrace(n, m, a, b, c);
  }

  lemma OneTrace(n: nat, m: nat, a: seq<Page>, b: seq<Page>, c: seq<Page>)
    requires 1 <= n <= m && a == Pages(1, m) && b == Pages(1, n - 1) && c == [0] + Pages(1, m) + [0]
    ensures a + b + c == Belady(n, m)
  {
  }

  lemma Opening(n: nat, m: nat, a: seq<Page>, b: seq<Page>)
    requires 1 <= n <= m && a == Pages(1, m) && b == Pages(1, n - 1)
    ensures Loads(a, m) == a && FifoHits(a, m) == 0 && FifoAfter(a, m) == a && forall p :: p in b ==> p in a
  {
    StartsEmpty(a, m);
    HoldsLastLoads(a, m);
    forall p | p in b ensures p in a {
      assert a[p - 1] == p;
    }
  }

  lemma NothingRepeats(m: nat, a: seq<Page>, c: seq<Page>)
    requires 1 <= m && a == Pages(1, m) && c == [0] + Pages(1, m) + [0]
    ensures Spread(a + c, m, |a|)
  {
  }

  /** With more than n but fewer than 2n - 1 frames there is a trace that hits once less. */
  lemma FifoAnomaly(n: nat, m: nat)
    requires n < m < 2 * n - 1
    ensures FifoHits(Belady(n, m), m) == FifoHits(Belady(n, m), n) - 1
  {
    FewFrames(n, m);
    ManyFrames(n, m);
  }

  /** When more frames never cost a hit: exactly if they are not more, or at least 2n - 1. */
  lemma FifoMonotoneExactly(n: nat, m: nat)
    requires 1 <= n <= m
    ensures (forall t :: FifoHits(t, n) <= FifoHits(t, m)) <==> m == n || m >= 2 * n - 1
  {
    if m == n {
    } else if m >= 2 * n - 1 {
      forall t ensures FifoHits(t, n) <= FifoHits(t, m) {
        var g := CreditBound(t, n, m);
      }
    } else {
      FifoAnomaly(n, m);
    }
  }

  // ---------------------------------------------------------------- a trace that fits

  lemma DistinctSnoc(q: seq<Page>, p: Page)
    requires Distinct(q) && p !in q
    ensures Distinct(q + [p])
  {
  }

  lemma RoomLeft(t: seq<Page>, q: seq<Page>, p: Page)
    requires Distinct(q) && (forall x :: x in q ==> x in t) && p in t && p !in q
    ensures |q| < |Recency(t)|
  {
    RecencyMembers(t);
    forall x | x in q + [p] ensures x in Recency(t) {
      assert x in q || x == p;
    }
    DistinctSnoc(q, p);
    DistinctFits(q + [p], Recency(t));
  }

  lemma KeepsAll(t: seq<Page>, init: seq<Page>, p: Page, q: seq<Page>, cap: nat)
    requires 1 <= cap && |Recency(t)| <= cap && p in t && Distinct(q)
    requires (forall x :: x in q ==> x in init) && (forall x :: x in init ==> x in q && x in t)
    ensures forall x :: x in init + [p] ==> x in FifoStep(q, cap, p)
  {
    if p !in q {
      RoomLeft(t, q, p);
    }
  }

  lemma {:induction false} NeverEvicts(t: seq<Page>, cap: nat, k: nat)
    requires 1 <= cap && |Recency(t)| <= cap && k <= |t|
    ensures forall p :: p in t[..k] ==> p in FifoAfter(t[..k], cap)
  {
    if k > 0 {
      NeverEvicts(t, cap, k - 1);
      var init, p := t[..k - 1], t[k - 1];
      FifoSound(init, cap);
      KeepsAll(t, init, p, FifoAfter(init, cap), cap);
      assert t[..k] == init + [p];
      AfterOne(init, p, cap);
    }
  }

  lemma AfterOne(t: seq<Page>, p: Page, cap: nat)
    ensures FifoAfter(t + [p], cap) == FifoStep(FifoAfter(t, cap), cap, p)
  {
    assert (t + [p])[..|t|] == t;
  }

  lemma {:induction false} NoMoreHits(t: seq<Page>, n: nat, m: nat, k: nat)
    requires 1 <= n && 1 <= m && |Recency(t)| <= m && k <= |t|
    ensures FifoHits(t[..k], n) <= FifoHits(t[..k], m)
  {
    if k > 0 {
      NoMoreHits(t, n, m, k - 1);
      assert t[..k][..k - 1] == t[..k - 1];
      FifoSound(t[..k - 1], n);
      NeverEvicts(t, m, k - 1);
    }
  }

  /** A cache with room for every page of the trace hits at least as often as any other. */
  lemma FifoFits(t: seq<Page>, n: nat, m: nat)
    requires 1 <= n && 1 <= m && |Recency(t)| <= m
    ensures FifoHits(t, n) <= FifoHits(t, m)
  {
    NoMoreHits(t, n, m, |t|);
    assert t[..|t|] == t;
  }
}
