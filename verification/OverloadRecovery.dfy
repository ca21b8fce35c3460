/** The other side of the hidden-capacity line: when every request with all its retries is
    worth no more than one arrival interval of service, a backlog left by the outage drains,
    and once the server has been idle no attempt ever times out again, whatever the policy. */
module OverloadRecovery {
  import opened Common
  import opened Overload

  /** How many tries of the same request came before this one. */
  function Generation(cfg: Config, e: Event): int {
    cfg.maxRetries - e.retriesLeft
  }

  ghost predicate Apart(cfg: Config, earlier: Event, later: Event)
    requires cfg.Valid()
  {
    Generation(cfg, earlier) == Generation(cfg, later) ==> earlier.arrival + cfg.Interval() <= later.arrival
  }

  ghost predicate HasParent(cfg: Config, log: seq<Attempt>, e: Event) {
    Generation(cfg, e) > 0 ==>
      exists p <- log :: Generation(cfg, p.ev) == Generation(cfg, e) - 1 && p.ev.arrival + cfg.timeoutNs == e.arrival
  }

  ghost predicate LogApart(cfg: Config, log: seq<Attempt>)
    requires cfg.Valid()
  {
    forall i, j :: 0 <= i < j < |log| ==> Apart(cfg, log[i].ev, log[j].ev)
  }

  /** Tries of the same generation are at least an interval apart: those already made, those
      pending, and any made one against any pending one. */
  ghost predicate Spaced(cfg: Config, s: State)
    requires cfg.Valid()
  {
    && LogApart(cfg, s.log)
    && (forall i, e :: 0 <= i < |s.log| && e in s.heap ==> Apart(cfg, s.log[i].ev, e))
    && HeapApart(cfg, s.heap)
  }

  ghost predicate Descended(cfg: Config, s: State) {
    && (forall e <- s.heap :: e.retriesLeft <= cfg.maxRetries && HasParent(cfg, s.log, e))
    && (forall a <- s.log :: a.ev.retriesLeft <= cfg.maxRetries && HasParent(cfg, s.log, a.ev))
  }

  ghost predicate Orderly(cfg: Config, s: State)
    requires cfg.Valid()
  {
    Ordered(cfg, s) && OneAtATime(cfg, s) && Spaced(cfg, s) && Descended(cfg, s)
  }

  lemma OrderlyAtFirst(cfg: Config)
    requires cfg.Valid()
    ensures Orderly(cfg, Initial(cfg))
  {
    var s := Initial(cfg);
    forall i, j | 0 <= i < j < |s.heap| ensures Apart(cfg, s.heap[i], s.heap[j]) {
      assert s.heap[i] == Original(cfg, i) && s.heap[j] == Original(cfg, j);
      MulMonotone(i + 1, j, cfg.Interval());
    }
  }

  /** The part of the next state that is not the new retry. */
  lemma HeapAfterPop(cfg: Config, policy: Policy, s: State)
    requires s.heap != []
    ensures var e, t := s.heap[MinIndex(s.heap)], Pop(cfg, policy, s);
            var rest := Without(s.heap, MinIndex(s.heap));
            && (t.heap == rest
                || (e.retriesLeft > 0
                    && t.heap == rest + [Event(e.arrival + cfg.timeoutNs, s.nextSeq, e.retriesLeft - 1, e.prio)]))
            && |t.log| == |s.log| + 1 && t.log == s.log + [t.log[|s.log|]] && t.log[|s.log|].ev == e
  {
  }

  lemma RestApart(cfg: Config, s: State, m: nat, x: nat)
    requires cfg.Valid() && Spaced(cfg, s) && m < |s.heap| && x < |s.heap| && x != m
    requires s.heap[m].arrival <= s.heap[x].arrival
    ensures Apart(cfg, s.heap[m], s.heap[x])
  {
  }

  lemma ParentKept(cfg: Config, log: seq<Attempt>, a: Attempt, e: Event)
    requires HasParent(cfg, log, e)
    ensures HasParent(cfg, log + [a], e)
  {
    if Generation(cfg, e) > 0 {
      var p :| p in log && Generation(cfg, p.ev) == Generation(cfg, e) - 1 && p.ev.arrival + cfg.timeoutNs == e.arrival;
      assert p in log + [a];
    }
  }

  lemma PopKeepsDescent(cfg: Config, policy: Policy, s: State)
    requires s.heap != [] && Descended(cfg, s)
    ensures Descended(cfg, Pop(cfg, policy, s))
  {
    var e, t, n := s.heap[MinIndex(s.heap)], Pop(cfg, policy, s), |s.log|;
    HeapAfterPop(cfg, policy, s);
    var made := t.log[n];
    assert e in s.heap && made in t.log;
    forall x | x in t.heap ensures x.retriesLeft <= cfg.maxRetries && HasParent(cfg, t.log, x) {
      if x in s.heap {
        ParentKept(cfg, s.log, made, x);
      } else {
        assert x.retriesLeft == e.retriesLeft - 1 && x.arrival == e.arrival + cfg.timeoutNs;
      }
    }
    forall a | a in t.log ensures a.ev.retriesLeft <= cfg.maxRetries && HasParent(cfg, t.log, a.ev) {
      ParentKept(cfg, s.log, made, a.ev);
    }
  }

  /** The min event is spaced from everything that stays in the heap. */
  lemma PopApart(cfg: Config, s: State, e: Event)
    requires cfg.Valid() && s.heap != [] && Spaced(cfg, s)
    requires e in Without(s.heap, MinIndex(s.heap))
    ensures Apart(cfg, s.heap[MinIndex(s.heap)], e)
    ensures e in s.heap
  {
    var m := MinIndex(s.heap);
    var i :| 0 <= i < |s.heap| - 1 && Without(s.heap, m)[i] == e;
    var x := if i < m then i else i + 1;
    assert s.heap[x] == e;
    MinIndexIsLeast(s.heap, e);
    RestApart(cfg, s, m, x);
  }

  /** A try of generation g + 1 is a timeout later than a made try of generation g, so the
      spacing of one generation carries over to the next. */
  lemma RetryApart(cfg: Config, s: State, e: Event, x: Event, retry: Event)
    requires cfg.Valid() && Spaced(cfg, s) && e in s.heap
    requires HasParent(cfg, s.log, x)
    requires retry.arrival == e.arrival + cfg.timeoutNs && Generation(cfg, retry) == Generation(cfg, e) + 1
    requires 0 <= Generation(cfg, e)
    ensures Apart(cfg, x, retry)
  {
    if Generation(cfg, x) == Generation(cfg, retry) {
      var p :| p in s.log && Generation(cfg, p.ev) == Generation(cfg, x) - 1
        && p.ev.arrival + cfg.timeoutNs == x.arrival;
      var i :| 0 <= i < |s.log| && s.log[i] == p;
      assert Apart(cfg, s.log[i].ev, e);
    }
  }

  lemma PopKeepsLogSpacing(cfg: Config, policy: Policy, s: State)
    requires cfg.Valid() && s.heap != [] && Spaced(cfg, s) && Descended(cfg, s) && Ordered(cfg, s)
    ensures LogApart(cfg, Pop(cfg, policy, s).log)
    ensures var t := Pop(cfg, policy, s); forall i, e :: 0 <= i < |t.log| && e in t.heap ==> Apart(cfg, t.log[i].ev, e)
  {
    var m, t := MinIndex(s.heap), Pop(cfg, policy, s);
    var e, n, rest := s.heap[m], |s.log|, Without(s.heap, m);
    HeapAfterPop(cfg, policy, s);
    assert e in s.heap;
    forall i, x | 0 <= i < |t.log| && x in t.heap ensures Apart(cfg, t.log[i].ev, x) {
      if x in rest {
        PopApart(cfg, s, x);
        assert i < n ==> Apart(cfg, s.log[i].ev, x);
      } else if i < n {
        assert s.log[i] in s.log;
        RetryApart(cfg, s, e, s.log[i].ev, x);
      }
    }
  }

  ghost predicate HeapApart(cfg: Config, h: seq<Event>)
    requires cfg.Valid()
  {
    forall i, j :: 0 <= i < j < |h| ==> Apart(cfg, h[i], h[j]) || Apart(cfg, h[j], h[i])
  }

  lemma WithoutApart(cfg: Config, h: seq<Event>, m: nat)
    requires cfg.Valid() && HeapApart(cfg, h) && m < |h|
    ensures HeapApart(cfg, Without(h, m))
  {
    var rest := Without(h, m);
    forall i, j | 0 <= i < j < |rest| ensures Apart(cfg, rest[i], rest[j]) || Apart(cfg, rest[j], rest[i]) {
      var i', j' := if i < m then i else i + 1, if j < m then j else j + 1;
      assert rest[i] == h[i'] && rest[j] == h[j'];
    }
  }

  lemma PopKeepsHeapSpacing(cfg: Config, policy: Policy, s: State)
    requires cfg.Valid() && s.heap != [] && Spaced(cfg, s) && Descended(cfg, s)
    ensures HeapApart(cfg, Pop(cfg, policy, s).heap)
  {
    var m, t := MinIndex(s.heap), Pop(cfg, policy, s);
    var e, rest := s.heap[m], Without(s.heap, m);
    HeapAfterPop(cfg, policy, s);
    WithoutApart(cfg, s.heap, m);
    if t.heap != rest {
      var retry := t.heap[|rest|];
      assert e in s.heap;
      forall i | 0 <= i < |rest| ensures Apart(cfg, rest[i], retry) {
        assert rest[i] in rest;
        PopApart(cfg, s, rest[i]);
        RetryApart(cfg, s, e, rest[i], retry);
      }
    }
  }

  lemma PopKeepsOrderly(cfg: Config, policy: Policy, s: State)
    requires cfg.Valid() && s.heap != [] && Orderly(cfg, s)
    ensures Orderly(cfg, Pop(cfg, policy, s))
  {
    PopKeepsOrder(cfg, policy, s);
    PopKeepsCapacity(cfg, policy, s);
    PopKeepsDescent(cfg, policy, s);
    PopKeepsLogSpacing(cfg, policy, s);
    PopKeepsHeapSpacing(cfg, policy, s);
  }

  // ---------------------------------------------------------------- counting attempts

  ghost function CountGen(cfg: Config, log: seq<Attempt>, g: int): nat {
    if log == [] then 0 else
      CountGen(cfg, log[..|log| - 1], g) + (if Generation(cfg, log[|log| - 1].ev) == g then 1 else 0)
  }

  ghost function CountBelow(cfg: Config, log: seq<Attempt>, g: nat): nat {
    if g == 0 then 0 else CountBelow(cfg, log, g - 1) + CountGen(cfg, log, g - 1)
  }

  lemma {:induction false} CountBelowAppend(cfg: Config, log: seq<Attempt>, a: Attempt, g: nat)
    requires 0 <= Generation(cfg, a.ev)
    ensures CountBelow(cfg, log + [a], g) == CountBelow(cfg, log, g) + (if Generation(cfg, a.ev) < g then 1 else 0)
  {
    if g > 0 {
      CountBelowAppend(cfg, log, a, g - 1);
      assert (log + [a])[..|log|] == log;
    }
  }

  lemma {:induction false} EveryAttemptCounted(cfg: Config, log: seq<Attempt>, g: nat)
    requires forall a <- log :: 0 <= Generation(cfg, a.ev) < g
    ensures CountBelow(cfg, log, g) == |log|
  {
    if log == [] {
      if g > 0 {
        EveryAttemptCounted(cfg, log, g - 1);
      }
    } else {
      var n := |log| - 1;
      assert log == log[..n] + [log[n]];
      EveryAttemptCounted(cfg, log[..n], g);
      CountBelowAppend(cfg, log[..n], log[n], g);
    }
  }

  /** One generation cannot be popped more often than once an interval. */
  lemma {:induction false} GenerationRate(cfg: Config, log: seq<Attempt>, g: int) returns (last: int)
    requires cfg.Valid() && LogApart(cfg, log)
    requires forall i, j :: 0 <= i < j < |log| ==> log[i].ev.arrival <= log[j].ev.arrival
    ensures CountGen(cfg, log, g) == 0 || (0 <= last < |log| && Generation(cfg, log[last].ev) == g)
    ensures CountGen(cfg, log, g) > 0 ==>
              (CountGen(cfg, log, g) - 1) * cfg.Interval() <= log[last].ev.arrival - log[0].ev.arrival
  {
    last := -1;
    if log != [] {
      var n := |log| - 1;
      last := GenerationRate(cfg, log[..n], g);
      if Generation(cfg, log[n].ev) == g {
        if CountGen(cfg, log[..n], g) > 0 {
          assert Apart(cfg, log[last].ev, log[n].ev);
          OneMoreInterval(CountGen(cfg, log[..n], g), cfg.Interval());
        }
        last := n;
      }
    }
  }

  lemma OneMoreInterval(count: int, interval: int)
    ensures count * interval == (count - 1) * interval + interval
  {
  }

  lemma RateSum(interval: nat, span: nat, g: nat, below: nat, own: nat)
    requires below * interval <= g * span && (own == 0 || (own - 1) * interval <= span - interval)
    ensures (below + own) * interval <= (g + 1) * span
  {
    assert own * interval <= span;
  }

  lemma {:induction false} GenerationsRate(cfg: Config, log: seq<Attempt>, g: nat, span: nat)
    requires cfg.Valid() && log != [] && LogApart(cfg, log)
    requires forall i, j :: 0 <= i < j < |log| ==> log[i].ev.arrival <= log[j].ev.arrival
    requires span == log[|log| - 1].ev.arrival - log[0].ev.arrival + cfg.Interval()
    ensures CountBelow(cfg, log, g) * cfg.Interval() <= g * span
  {
    if g > 0 {
      GenerationsRate(cfg, log, g - 1, span);
      var last := GenerationRate(cfg, log, g - 1);
      RateSum(cfg.Interval(), span, g - 1, CountBelow(cfg, log, g - 1), CountGen(cfg, log, g - 1));
    }
  }

  lemma SuffixOrderly(cfg: Config, s: State, m: nat)
    requires cfg.Valid() && Orderly(cfg, s) && m <= |s.log|
    ensures var w := s.log[m..];
            && LogApart(cfg, w)
            && (forall i, j :: 0 <= i < j < |w| ==> w[i].ev.arrival <= w[j].ev.arrival)
            && (forall a <- w :: 0 <= Generation(cfg, a.ev) < cfg.maxRetries + 1)
  {
    var w := s.log[m..];
    assert forall i :: 0 <= i < |w| ==> w[i] == s.log[m + i] && w[i] in s.log;
  }

  /** From the attempt at a to the one at b, all tries together arrive at most tries to an interval. */
  ghost predicate Rated(a: int, b: int, count: int, interval: int, tries: int) {
    a <= b && count * interval <= tries * (b - a + interval)
  }

  ghost predicate RatedFrom(log: seq<Attempt>, m: nat, interval: int, tries: int)
    requires m < |log|
  {
    Rated(log[m].ev.arrival, log[|log| - 1].ev.arrival, |log| - m, interval, tries)
  }

  ghost predicate AllRated(log: seq<Attempt>, interval: int, tries: int) {
    forall m: nat :: m < |log| ==> RatedFrom(log, m, interval, tries)
  }

  lemma AttemptRate(cfg: Config, s: State)
    requires cfg.Valid() && Orderly(cfg, s)
    ensures AllRated(s.log, cfg.Interval(), cfg.maxRetries + 1)
  {
    var log, interval, tries := s.log, cfg.Interval(), cfg.maxRetries + 1;
    forall m: nat | m < |log| ensures RatedFrom(log, m, interval, tries) {
      SuffixOrderly(cfg, s, m);
      LogRate(cfg, log[m..], tries);
    }
  }

  lemma LogRate(cfg: Config, w: seq<Attempt>, tries: nat)
    requires cfg.Valid() && w != [] && LogApart(cfg, w)
    requires forall i, j :: 0 <= i < j < |w| ==> w[i].ev.arrival <= w[j].ev.arrival
    requires forall a <- w :: 0 <= Generation(cfg, a.ev) < tries
    ensures Rated(w[0].ev.arrival, w[|w| - 1].ev.arrival, |w|, cfg.Interval(), tries)
  {
    EveryAttemptCounted(cfg, w, tries);
    GenerationsRate(cfg, w, tries, w[|w| - 1].ev.arrival - w[0].ev.arrival + cfg.Interval());
  }

  lemma OrderlyAfter(cfg: Config, policy: Policy, n: nat)
    requires cfg.Valid()
    ensures Orderly(cfg, After(cfg, policy, Initial(cfg), n))
  {
    var inv := (s: State, _: nat) => Orderly(cfg, s);
    OrderlyAtFirst(cfg);
    forall s, k: nat | inv(s, k) ensures inv(Next(cfg, policy, s), k + 1) {
      if s.heap != [] {
        PopKeepsOrderly(cfg, policy, s);
      }
    }
    RunInduction(cfg, policy, Initial(cfg), n, inv);
  }

  lemma PrefixOrderly(cfg: Config, w: seq<Attempt>, v: seq<Attempt>)
    requires cfg.Valid() && v <= w && LogApart(cfg, w)
    requires forall i, j :: 0 <= i < j < |w| ==> w[i].ev.arrival <= w[j].ev.arrival
    ensures LogApart(cfg, v) && forall i, j :: 0 <= i < j < |v| ==> v[i].ev.arrival <= v[j].ev.arrival
  {
  }

  /** In every run under any policy and any load, the tries from one pop to another arrive at
      most maxRetries + 1 to an interval. */
  lemma RunRated(cfg: Config, policy: Policy, n: nat, i: nat, j: nat)
    requires cfg.Valid() && i <= j < |LogAfter(cfg, policy, n)|
    ensures var log := LogAfter(cfg, policy, n);
            Rated(log[i].ev.arrival, log[j].ev.arrival, j - i + 1, cfg.Interval(), cfg.maxRetries + 1)
  {
    OrderlyAfter(cfg, policy, n);
    var s := After(cfg, policy, Initial(cfg), n);
    SuffixOrderly(cfg, s, i);
    var w, v := s.log[i..], s.log[i..j + 1];
    assert v == w[..j - i + 1];
    PrefixOrderly(cfg, w, v);
    forall a | a in v ensures a in w {
    }
    LogRate(cfg, v, cfg.maxRetries + 1);
  }

  // ---------------------------------------------------------------- draining

  /** One request with all its retries costs no more service than an arrival interval. */
  ghost predicate BelowHiddenCapacity(cfg: Config)
    requires cfg.Valid()
  {
    (cfg.maxRetries + 1) * cfg.serviceNs <= cfg.Interval()
  }

  /** Attempt i is served once the outage is over. */
  ghost predicate PastOutage(cfg: Config, log: seq<Attempt>, i: nat) {
    i < |log| && log[i].Served? && cfg.outageStart + cfg.outageNs <= log[i].start
  }

  /** Since attempt i the server either worked without a break, or was idle when attempt m
      came and has worked without a break since. */
  ghost predicate Busy(cfg: Config, s: State, i: nat, m: nat) {
    && PastOutage(cfg, s.log, i) && i <= m < |s.log| && s.log[i].done <= s.serverFree
    && s.serverFree <= (if m == i then s.log[i].start else s.log[m].ev.arrival) + cfg.serviceNs * (|s.log| - m)
  }

  ghost predicate Draining(cfg: Config, s: State, i: nat) {
    exists m :: Busy(cfg, s, i, m)
  }

  lemma WorkGrows(service: nat, pops: nat, pops': nat)
    requires pops' <= pops + 1
    ensures service * pops' <= service * pops + service
  {
    MulMonotone(pops', pops + 1, service);
  }

  lemma PopKeepsDraining(cfg: Config, policy: Policy, s: State, i: nat)
    requires s.heap != [] && OneAtATime(cfg, s)
    requires PastOutage(cfg, s.log, i) ==> Draining(cfg, s, i)
    requires PastOutage(cfg, Pop(cfg, policy, s).log, i)
    ensures Draining(cfg, Pop(cfg, policy, s), i)
  {
    HeapAfterPop(cfg, policy, s);
    var t, n := Pop(cfg, policy, s), |s.log|;
    var a := t.log[n];
    if i == n {
      assert Busy(cfg, t, i, i);
    } else {
      var m :| Busy(cfg, s, i, m);
      WorkGrows(cfg.serviceNs, n + 1 - m, n - m);
      assert cfg.serviceNs * (n + 1 - m) == cfg.serviceNs * (n - m) + cfg.serviceNs;
      if a.Served? && s.serverFree < a.ev.arrival {
        assert Busy(cfg, t, i, n);
      } else {
        assert Busy(cfg, t, i, m);
      }
    }
  }

  ghost function SpareTime(cfg: Config): int
    requires cfg.Valid()
  {
    cfg.Interval() - (cfg.maxRetries + 1) * cfg.serviceNs
  }

  /** Spare time from a to b outweighs the wait from a to start. */
  ghost predicate Covered(interval: int, spare: int, a: int, start: int, b: int) {
    (b - a) * spare >= interval * (start - a)
  }

  /** By the time b arrives, spare capacity has worked off what a had to wait. */
  ghost predicate WorkedOff(cfg: Config, a: Attempt, b: Attempt)
    requires cfg.Valid() && a.Served?
  {
    Covered(cfg.Interval(), SpareTime(cfg), a.ev.arrival, a.start, b.ev.arrival)
  }

  /** service * (count * interval) is within what the tries allow. */
  lemma ServiceBound(interval: nat, service: nat, tries: nat, x: nat, count: nat, ts: nat)
    requires ts == tries * service && count * interval <= tries * (x + interval)
    ensures (service * count) * interval <= ts * x + ts * interval
  {
    MulMonotone(count * interval, tries * (x + interval), service);
    assert (service * count) * interval == service * (count * interval);
    assert service * (tries * (x + interval)) == ts * (x + interval) == ts * x + ts * interval;
  }

  lemma SpareBound(interval: int, ts: int, a: int, start: int, b: int)
    requires Covered(interval, interval - ts, a, start, b)
    ensures start * interval + ts * (b - a) <= b * interval
  {
    var x := b - a;
    assert x * (interval - ts) == x * interval - ts * x;
    assert interval * (start - a) == start * interval - a * interval;
    assert x * interval == b * interval - a * interval;
  }

  lemma CancelInterval(interval: nat, done: int, b: int, ts: int)
    requires 1 <= interval && done * interval <= b * interval + ts * interval
    ensures done <= b + ts
  {
    assert (b + ts) * interval == b * interval + ts * interval;
    if done > b + ts {
      MulMonotone(b + ts + 1, done, interval);
    }
  }

  lemma DrainArithmetic(interval: nat, service: nat, tries: nat, start: int, a: int, b: int, count: nat, done: int,
                        ts: nat)
    requires 1 <= interval && ts == tries * service <= interval && a <= b
    requires count * interval <= tries * (b - a + interval)
    requires done <= start + service * count
    requires Covered(interval, interval - ts, a, start, b)
    ensures done <= b + ts
  {
    ServiceBound(interval, service, tries, b - a, count, ts);
    SpareBound(interval, ts, a, start, b);
    var sc := service * count;
    MulMonotone(done, start + sc, interval);
    assert (start + sc) * interval == start * interval + sc * interval;
    CancelInterval(interval, done, b, ts);
  }

  /** What a start of work on attempt m, and no break since, leaves of backlog: tries of one
      request cost ts. */
  lemma BacklogFrom(s: State, m: nat, service: nat, start: int, interval: nat, tries: nat, ts: nat)
    requires m < |s.log| && AllRated(s.log, interval, tries)
    requires 1 <= interval && ts == tries * service <= interval
    requires s.serverFree <= start + service * (|s.log| - m)
    requires Covered(interval, interval - ts, s.log[m].ev.arrival, start, s.log[|s.log| - 1].ev.arrival)
    ensures s.serverFree <= s.log[|s.log| - 1].ev.arrival + ts
  {
    assert RatedFrom(s.log, m, interval, tries);
    DrainArithmetic(interval, service, tries, start, s.log[m].ev.arrival, s.log[|s.log| - 1].ev.arrival, |s.log| - m,
      s.serverFree, ts);
  }

  lemma NoWait(interval: int, spare: nat, a: int, b: int)
    requires a <= b
    ensures Covered(interval, spare, a, a, b)
  {
    NonNegative(b - a, spare);
  }

  lemma BacklogFromIdle(s: State, m: nat, service: nat, interval: nat, tries: nat, ts: nat)
    requires m < |s.log| && AllRated(s.log, interval, tries)
    requires 1 <= interval && ts == tries * service <= interval
    requires s.serverFree <= s.log[m].ev.arrival + service * (|s.log| - m)
    ensures s.serverFree <= s.log[|s.log| - 1].ev.arrival + ts
  {
    assert RatedFrom(s.log, m, interval, tries);
    NoWait(interval, interval - ts, s.log[m].ev.arrival, s.log[|s.log| - 1].ev.arrival);
    BacklogFrom(s, m, service, s.log[m].ev.arrival, interval, tries, ts);
  }

  lemma BacklogWorkedOff(cfg: Config, s: State, i: nat, interval: nat, tries: nat, ts: nat)
    requires Draining(cfg, s, i) && AllRated(s.log, interval, tries)
    requires 1 <= interval && ts == tries * cfg.serviceNs <= interval
    requires Covered(interval, interval - ts, s.log[i].ev.arrival, s.log[i].start, s.log[|s.log| - 1].ev.arrival)
    ensures s.serverFree <= s.log[|s.log| - 1].ev.arrival + ts
  {
    var m :| Busy(cfg, s, i, m);
    if m == i {
      BacklogFrom(s, i, cfg.serviceNs, s.log[i].start, interval, tries, ts);
    } else {
      BacklogFromIdle(s, m, cfg.serviceNs, interval, tries, ts);
    }
  }

  lemma LastDone(cfg: Config, s: State)
    requires OneAtATime(cfg, s) && s.log != [] && s.log[|s.log| - 1].Served?
    ensures s.log[|s.log| - 1].done <= s.serverFree
  {
  }

  lemma LastWithin(cfg: Config, s: State, i: nat, interval: nat, tries: nat, ts: nat)
    requires cfg.Valid() && OneAtATime(cfg, s) && Draining(cfg, s, i) && AllRated(s.log, interval, tries)
    requires interval == cfg.Interval() && tries == cfg.maxRetries + 1 && ts == tries * cfg.serviceNs <= interval
    requires ts <= cfg.timeoutNs
    requires s.log[|s.log| - 1].Served? && WorkedOff(cfg, s.log[i], s.log[|s.log| - 1])
    ensures Succeeded(cfg, s.log[|s.log| - 1])
  {
    WorkedOffCovers(cfg, s.log[i], s.log[|s.log| - 1], interval, ts);
    BacklogWorkedOff(cfg, s, i, interval, tries, ts);
    LastDone(cfg, s);
  }

  lemma WorkedOffCovers(cfg: Config, a: Attempt, b: Attempt, interval: nat, ts: nat)
    requires cfg.Valid() && a.Served? && WorkedOff(cfg, a, b)
    requires interval == cfg.Interval() && ts == (cfg.maxRetries + 1) * cfg.serviceNs
    ensures Covered(interval, interval - ts, a.ev.arrival, a.start, b.ev.arrival)
  {
  }

  /** Draining bounds the last attempt's latency: the server is free again when it is done. */
  lemma LastIsInTime(cfg: Config, s: State, i: nat)
    requires cfg.Valid() && BelowHiddenCapacity(cfg) && (cfg.maxRetries + 1) * cfg.serviceNs <= cfg.timeoutNs
    requires Orderly(cfg, s) && Draining(cfg, s, i)
    requires s.log[|s.log| - 1].Served? && WorkedOff(cfg, s.log[i], s.log[|s.log| - 1])
    ensures Succeeded(cfg, s.log[|s.log| - 1])
  {
    AttemptRate(cfg, s);
    NonNegative(cfg.maxRetries + 1, cfg.serviceNs);
    LastWithin(cfg, s, i, cfg.Interval(), cfg.maxRetries + 1, (cfg.maxRetries + 1) * cfg.serviceNs);
  }

  ghost predicate InTimeSince(cfg: Config, log: seq<Attempt>, i: nat)
    requires cfg.Valid() && PastOutage(cfg, log, i)
  {
    forall j :: i <= j < |log| && log[j].Served? && WorkedOff(cfg, log[i], log[j]) ==> Succeeded(cfg, log[j])
  }

  ghost predicate Recovering(cfg: Config, s: State, i: nat)
    requires cfg.Valid()
  {
    && Orderly(cfg, s)
    && (PastOutage(cfg, s.log, i) ==> Draining(cfg, s, i) && InTimeSince(cfg, s.log, i))
  }

  lemma PopKeepsRecovering(cfg: Config, policy: Policy, s: State, i: nat)
    requires cfg.Valid() && BelowHiddenCapacity(cfg) && (cfg.maxRetries + 1) * cfg.serviceNs <= cfg.timeoutNs
    requires s.heap != [] && Recovering(cfg, s, i)
    ensures Recovering(cfg, Pop(cfg, policy, s), i)
  {
    var t, n := Pop(cfg, policy, s), |s.log|;
    HeapAfterPop(cfg, policy, s);
    PopKeepsOrderly(cfg, policy, s);
    if PastOutage(cfg, t.log, i) {
      PopKeepsDraining(cfg, policy, s, i);
      if t.log[n].Served? && WorkedOff(cfg, t.log[i], t.log[n]) {
        LastIsInTime(cfg, t, i);
      }
    }
  }

  lemma RecoveringAfter(cfg: Config, policy: Policy, s0: State, n: nat, i: nat)
    requires cfg.Valid() && BelowHiddenCapacity(cfg) && (cfg.maxRetries + 1) * cfg.serviceNs <= cfg.timeoutNs
    requires Recovering(cfg, s0, i)
    ensures Recovering(cfg, After(cfg, policy, s0, n), i)
  {
    var inv := (s: State, _: nat) => Recovering(cfg, s, i);
    forall s, k: nat | inv(s, k) ensures inv(Next(cfg, policy, s), k + 1) {
      if s.heap != [] {
        PopKeepsRecovering(cfg, policy, s, i);
      }
    }
    RunInduction(cfg, policy, s0, n, inv);
  }

  /** Below hidden capacity the same trigger heals: let attempt i start once the outage is
      over. Every later served attempt that comes after spare capacity has worked off i's wait
      is answered in time, under any policy; if i did not wait at all, that is every one. */
  lemma HealsBelowHiddenCapacity(cfg: Config, policy: Policy, n: nat, i: nat, j: nat)
    requires cfg.Valid() && BelowHiddenCapacity(cfg) && (cfg.maxRetries + 1) * cfg.serviceNs <= cfg.timeoutNs
    requires PastOutage(cfg, LogAfter(cfg, policy, n), i)
    requires i <= j < |LogAfter(cfg, policy, n)| && LogAfter(cfg, policy, n)[j].Served?
    requires WorkedOff(cfg, LogAfter(cfg, policy, n)[i], LogAfter(cfg, policy, n)[j])
    ensures Succeeded(cfg, LogAfter(cfg, policy, n)[j])
  {
    OrderlyAtFirst(cfg);
    RecoveringAfter(cfg, policy, Initial(cfg), n, i);
  }
}
