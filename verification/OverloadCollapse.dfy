module OverloadCollapse {
  // Metastable collapse: at or above hidden capacity, once the backlog is large enough no later
  // attempt ever succeeds while load is offered, although the trigger is long gone.

  import opened Common
  import opened Overload

  /** Loaded at or above hidden capacity, counting g retries of each request: its g + 1 tries are
      worth an arrival interval of service or more. */
  ghost predicate Overloaded(cfg: Config, g: nat)
    requires cfg.Valid()
  {
    g <= cfg.maxRetries && 1 <= cfg.serviceNs && cfg.Interval() <= (g + 1) * cfg.serviceNs
  }

  /** Attempt i of the run found the server g / 2 + 1 timeouts and an interval behind. */
  ghost predicate Triggered(cfg: Config, log: seq<Attempt>, i: nat, g: nat)
    requires cfg.Valid()
  {
    i < |log| && log[i].Served? && 2 * log[i].freeBefore >= 2 * log[i].ev.arrival + (g + 2) * cfg.timeoutNs
      + 2 * cfg.Interval()
  }

  // ---------------------------------------------------------------- pending tries

  /** The d-th retry of some request, or the request itself for d = 0, is pending at time t. */
  ghost predicate TryAt(cfg: Config, heap: seq<Event>, d: nat, t: nat) {
    exists e :: e in heap && e.arrival == t && cfg.maxRetries - e.retriesLeft == d
  }

  /** When the d-th try of request k arrives, if all before it miss. */
  ghost function Due(interval: nat, timeout: nat, d: nat, k: nat): nat {
    k * interval + d * timeout
  }

  /** Cursor d has passed the requests whose d-th try was popped; those up to the cursor before are
      pending. */
  ghost function Bound(originals: nat, c: seq<nat>, d: nat): nat
    requires d < |c|
  {
    if d == 0 then originals else c[d - 1]
  }

  ghost predicate Descending(originals: nat, c: seq<nat>) {
    forall d: nat :: d < |c| ==> c[d] <= Bound(originals, c, d)
  }

  ghost predicate PendingTries(cfg: Config, heap: seq<Event>, c: seq<nat>, d: nat)
    requires cfg.Valid() && d < |c|
  {
    forall k: nat :: c[d] <= k < Bound(cfg.Originals(), c, d) ==>
      TryAt(cfg, heap, d, Due(cfg.Interval(), cfg.timeoutNs, d, k))
  }

  ghost predicate AllPending(cfg: Config, heap: seq<Event>, c: seq<nat>)
    requires cfg.Valid()
  {
    forall d: nat :: d < |c| ==> PendingTries(cfg, heap, c, d)
  }

  /** The sum of the first n cursors. */
  ghost function Popped(c: seq<nat>, n: nat): nat
    requires n <= |c|
  {
    if n == 0 then 0 else Popped(c, n - 1) + c[n - 1]
  }

  // ---------------------------------------------------------------- the backlog

  /** Work done since the trigger at a0: the tries from request k1 on that were popped each cost a
      full service. */
  ghost predicate Backlogged(cfg: Config, free: nat, g: nat, a0: nat, k1: nat, popped: nat)
    requires cfg.Valid()
  {
    && (g + 1) * k1 <= popped && k1 * cfg.Interval() <= a0 + cfg.Interval()
    && 2 * free >= 2 * a0 + (g + 2) * cfg.timeoutNs + 2 * cfg.Interval() + 2 * (cfg.serviceNs * (popped - (g + 1) * k1))
  }

  /** The state after a trigger at time a0. */
  ghost predicate Collapsed(cfg: Config, s: State, g: nat, a0: nat, k1: nat, c: seq<nat>)
    requires cfg.Valid()
  {
    && |c| == g + 1 && Descending(cfg.Originals(), c) && AllPending(cfg, s.heap, c)
    && Backlogged(cfg, s.serverFree, g, a0, k1, Popped(c, g + 1))
  }

  /** The next event arrives no later than any cursor's try is due. */
  lemma {:induction false} NextIsDue(cfg: Config, heap: seq<Event>, c: seq<nat>, a: nat, d: nat)
    requires cfg.Valid() && d < |c| && Descending(cfg.Originals(), c) && AllPending(cfg, heap, c)
    requires heap != [] && a == heap[MinIndex(heap)].arrival < cfg.duration
    ensures a <= Due(cfg.Interval(), cfg.timeoutNs, d, c[d])
  {
    if d > 0 {
      NextIsDue(cfg, heap, c, a, d - 1);
    }
    assert PendingTries(cfg, heap, c, d) && c[d] <= Bound(cfg.Originals(), c, d);
    if c[d] < Bound(cfg.Originals(), c, d) {
      var due := Due(cfg.Interval(), cfg.timeoutNs, d, c[d]);
      assert TryAt(cfg, heap, d, due);
      var e :| e in heap && e.arrival == due && cfg.maxRetries - e.retriesLeft == d;
      MinIndexIsLeast(heap, e);
    } else if d == 0 {
      NoneLeftAfterDuration(cfg);
    } else {
      LaterTry(cfg.Interval(), cfg.timeoutNs, d, c[d]);
    }
  }

  lemma LaterTry(interval: nat, timeout: nat, d: nat, k: nat)
    requires d > 0
    ensures Due(interval, timeout, d - 1, k) <= Due(interval, timeout, d, k)
  {
    MulMonotone(d - 1, d, timeout);
  }

  /** Summing over the tries: 2 n a is within what the cursors allow. */
  lemma {:induction false} DueSum(interval: nat, timeout: nat, c: seq<nat>, a: nat, n: nat)
    requires n <= |c| && forall d: nat :: d < |c| ==> a <= Due(interval, timeout, d, c[d])
    ensures 2 * (n * a) + n * timeout <= 2 * (interval * Popped(c, n)) + n * n * timeout
  {
    if n > 0 {
      DueSum(interval, timeout, c, a, n - 1);
      assert a <= Due(interval, timeout, n - 1, c[n - 1]);
      OneMoreDue(interval, timeout, a, n, Popped(c, n - 1), c[n - 1]);
    }
  }

  lemma OneMoreDue(interval: nat, timeout: nat, a: nat, n: nat, popped: nat, k: nat)
    requires n > 0 && a <= k * interval + (n - 1) * timeout
    requires 2 * ((n - 1) * a) + (n - 1) * timeout <= 2 * (interval * popped) + (n - 1) * (n - 1) * timeout
    ensures 2 * (n * a) + n * timeout <= 2 * (interval * (popped + k)) + n * n * timeout
  {
    assert n * a == (n - 1) * a + a && interval * (popped + k) == interval * popped + k * interval;
    assert n * n * timeout == (n - 1) * (n - 1) * timeout + 2 * ((n - 1) * timeout) + timeout;
    assert n * timeout == (n - 1) * timeout + timeout;
  }

  /** So the backlog stays above one timeout. */
  lemma BacklogStays(interval: nat, service: nat, timeout: nat, g: nat, a0: nat, a: nat, k1: nat, popped: nat,
                     free: nat)
    requires interval <= (g + 1) * service && (g + 1) * k1 <= popped && k1 * interval <= a0 + interval
    requires 2 * ((g + 1) * a) + (g + 1) * timeout <= 2 * (interval * popped) + (g + 1) * (g + 1) * timeout
    requires 2 * free >= 2 * a0 + (g + 2) * timeout + 2 * interval + 2 * (service * (popped - (g + 1) * k1))
    ensures free >= a + timeout
  {
    var n, w := g + 1, popped - (g + 1) * k1;
    MulMonotone(interval, n * service, w);
    MulMonotone(k1 * interval, a0 + interval, n);
    PerTry(n, 2 * a + timeout, 2 * (service * w) + 2 * (a0 + interval) + n * timeout, interval, service, timeout, a0,
      a, k1, popped, w);
  }

  lemma PerTry(n: nat, x: int, y: int, interval: nat, service: nat, timeout: nat, a0: nat, a: nat, k1: nat,
               popped: nat, w: nat)
    requires n >= 1 && x == 2 * a + timeout && y == 2 * (service * w) + 2 * (a0 + interval) + n * timeout
    requires popped == w + n * k1 && interval * w <= n * service * w && k1 * interval * n <= (a0 + interval) * n
    requires 2 * (n * a) + n * timeout <= 2 * (interval * popped) + n * n * timeout
    ensures x <= y
  {
    SplitWork(interval, w, n, k1);
    TimesX(n, a, timeout);
    Reorder(n, service, w);
    TimesY(n, service * w, a0 + interval, timeout, n * service * w);
    Cancel(n, x, y);
  }

  lemma SplitWork(interval: int, w: int, n: int, k1: int)
    ensures interval * (w + n * k1) == interval * w + k1 * interval * n
  {
  }

  lemma TimesX(n: int, a: int, timeout: int)
    ensures n * (2 * a + timeout) == 2 * (n * a) + n * timeout
  {
  }

  lemma TimesY(n: int, work: int, base: int, timeout: int, all: int)
    requires all == n * work
    ensures n * (2 * work + 2 * base + n * timeout) == 2 * all + 2 * (base * n) + n * n * timeout
  {
  }

  lemma Reorder(n: int, service: int, w: int)
    ensures n * service * w == n * (service * w)
  {
  }

  lemma Cancel(n: nat, x: int, y: int)
    requires n >= 1 && n * x <= n * y
    ensures x <= y
  {
    if x > y {
      MulMonotone(y + 1, x, n);
    }
  }

  lemma BacklogHigh(cfg: Config, s: State, g: nat, a0: nat, k1: nat, c: seq<nat>, a: nat)
    requires cfg.Valid() && Overloaded(cfg, g) && Collapsed(cfg, s, g, a0, k1, c)
    requires s.heap != [] && a == s.heap[MinIndex(s.heap)].arrival < cfg.duration
    ensures s.serverFree >= a + cfg.timeoutNs
  {
    forall d: nat | d < |c| ensures a <= Due(cfg.Interval(), cfg.timeoutNs, d, c[d]) {
      NextIsDue(cfg, s.heap, c, a, d);
    }
    DueSum(cfg.Interval(), cfg.timeoutNs, c, a, g + 1);
    BacklogStays(cfg.Interval(), cfg.serviceNs, cfg.timeoutNs, g, a0, a, k1, Popped(c, g + 1), s.serverFree);
  }

  // ---------------------------------------------------------------- one turn

  /** The popped try moves its cursor when it is the next one there. */
  ghost predicate Moves(cfg: Config, e: Event, c: seq<nat>, d: nat)
    requires cfg.Valid() && d < |c|
  {
    && cfg.maxRetries - e.retriesLeft == d && c[d] < Bound(cfg.Originals(), c, d)
    && e.arrival == Due(cfg.Interval(), cfg.timeoutNs, d, c[d])
  }

  ghost function Moved(cfg: Config, e: Event, c: seq<nat>): (c': seq<nat>)
    requires cfg.Valid()
    ensures |c'| == |c|
  {
    var d := cfg.maxRetries - e.retriesLeft;
    if 0 <= d < |c| && Moves(cfg, e, c, d) then c[d := c[d] + 1] else c
  }

  lemma {:induction false} PoppedOnce(c: seq<nat>, d: nat, n: nat)
    requires d < |c| && n <= |c|
    ensures Popped(c[d := c[d] + 1], n) == Popped(c, n) + if d < n then 1 else 0
  {
    if n > 0 {
      PoppedOnce(c, d, n - 1);
    }
  }

  lemma StaysDescending(originals: nat, c: seq<nat>, d: nat, c': seq<nat>)
    requires d < |c| && Descending(originals, c) && c[d] < Bound(originals, c, d) && c' == c[d := c[d] + 1]
    ensures Descending(originals, c')
  {
    forall x: nat | x < |c| ensures c'[x] <= Bound(originals, c', x) {
      assert c[x] <= Bound(originals, c, x);
    }
  }

  lemma MovedDescends(cfg: Config, e: Event, c: seq<nat>)
    requires cfg.Valid() && Descending(cfg.Originals(), c)
    ensures Descending(cfg.Originals(), Moved(cfg, e, c))
  {
    var d := cfg.maxRetries - e.retriesLeft;
    if 0 <= d < |c| && Moves(cfg, e, c, d) {
      StaysDescending(cfg.Originals(), c, d, c[d := c[d] + 1]);
    }
  }

  lemma MovedOnce(cfg: Config, e: Event, c: seq<nat>, n: nat)
    requires cfg.Valid() && n == |c|
    ensures Popped(c, n) <= Popped(Moved(cfg, e, c), n) <= Popped(c, n) + 1
  {
    var d := cfg.maxRetries - e.retriesLeft;
    if 0 <= d < |c| && Moves(cfg, e, c, d) {
      PoppedOnce(c, d, n);
    }
  }

  /** A popped try that misses leaves the next one behind. */
  lemma MissLeavesNext(cfg: Config, s: State, e: Event, d: nat, t: nat)
    requires s.heap != [] && e == s.heap[MinIndex(s.heap)] && s.serverFree >= e.arrival + cfg.timeoutNs
             && cfg.serviceNs >= 1
    requires cfg.maxRetries - e.retriesLeft == d < cfg.maxRetries && t == e.arrival + cfg.timeoutNs
    ensures TryAt(cfg, Pop(cfg, NoPolicy, s).heap, d + 1, t)
  {
    var retry := Event(t, s.nextSeq, e.retriesLeft - 1, e.prio);
    assert Pop(cfg, NoPolicy, s).heap == Without(s.heap, MinIndex(s.heap)) + [retry];
    assert retry in Pop(cfg, NoPolicy, s).heap;
  }

  /** A pending try that is not the popped one stays. */
  lemma TryStays(cfg: Config, s: State, d: nat, t: nat)
    requires s.heap != [] && TryAt(cfg, s.heap, d, t)
    requires var e := s.heap[MinIndex(s.heap)]; e.arrival != t || cfg.maxRetries - e.retriesLeft != d
    ensures TryAt(cfg, Pop(cfg, NoPolicy, s).heap, d, t)
  {
    var x :| x in s.heap && x.arrival == t && cfg.maxRetries - x.retriesLeft == d;
    StillThere(s.heap, MinIndex(s.heap), x);
    assert x in Pop(cfg, NoPolicy, s).heap;
  }

  lemma DueLater(interval: nat, timeout: nat, d: nat, k: nat, k': nat)
    requires interval >= 1 && k < k'
    ensures Due(interval, timeout, d, k) < Due(interval, timeout, d, k')
  {
    MulMonotone(k + 1, k', interval);
  }

  lemma NextTryDue(interval: nat, timeout: nat, d: nat, k: nat)
    ensures Due(interval, timeout, d, k) + timeout == Due(interval, timeout, d + 1, k)
  {
  }

  lemma TryAfterPop(cfg: Config, s: State, c: seq<nat>, c': seq<nat>, e: Event, d: nat, k: nat)
    requires cfg.Valid() && s.heap != [] && e == s.heap[MinIndex(s.heap)] && cfg.serviceNs >= 1
    requires Descending(cfg.Originals(), c) && AllPending(cfg, s.heap, c) && c' == Moved(cfg, e, c)
    requires e.arrival < cfg.duration && s.serverFree >= e.arrival + cfg.timeoutNs && |c| <= cfg.maxRetries + 1
    requires d < |c| && c'[d] <= k < Bound(cfg.Originals(), c', d)
    ensures TryAt(cfg, Pop(cfg, NoPolicy, s).heap, d, Due(cfg.Interval(), cfg.timeoutNs, d, k))
  {
    var interval, timeout := cfg.Interval(), cfg.timeoutNs;
    var due := Due(interval, timeout, d, k);
    if k < Bound(cfg.Originals(), c, d) {
      assert PendingTries(cfg, s.heap, c, d);
      assert TryAt(cfg, s.heap, d, due);
      if e.arrival == due && cfg.maxRetries - e.retriesLeft == d {
        NextIsDue(cfg, s.heap, c, e.arrival, d);
        if c[d] < k {
          DueLater(interval, timeout, d, c[d], k);
        }
        assert false;
      }
      TryStays(cfg, s, d, due);
    } else {
      NextTryDue(interval, timeout, d - 1, c[d - 1]);
      MissLeavesNext(cfg, s, e, d - 1, due);
    }
  }

  lemma BacklogGrows(cfg: Config, free: nat, free': nat, g: nat, a0: nat, k1: nat, popped: nat, popped': nat)
    requires cfg.Valid() && Backlogged(cfg, free, g, a0, k1, popped)
    requires free' >= free + cfg.serviceNs && popped <= popped' <= popped + 1
    ensures Backlogged(cfg, free', g, a0, k1, popped')
  {
    var w, w' := popped - (g + 1) * k1, popped' - (g + 1) * k1;
    MulMonotone(w', w + 1, cfg.serviceNs);
    assert cfg.serviceNs * (w + 1) == cfg.serviceNs * w + cfg.serviceNs;
  }

  /** While requests keep arriving, one more turn of a collapsed run is one more miss, and the run
      stays collapsed. */
  lemma CollapseStep(cfg: Config, s: State, g: nat, a0: nat, k1: nat, c: seq<nat>, e: Event)
    requires cfg.Valid() && Overloaded(cfg, g) && Collapsed(cfg, s, g, a0, k1, c)
    requires s.heap != [] && e == s.heap[MinIndex(s.heap)] && e.arrival < cfg.duration
    ensures Collapsed(cfg, Pop(cfg, NoPolicy, s), g, a0, k1, Moved(cfg, e, c))
    ensures TimedOut(cfg, Pop(cfg, NoPolicy, s).log[|s.log|])
  {
    var t, c' := Pop(cfg, NoPolicy, s), Moved(cfg, e, c);
    BacklogHigh(cfg, s, g, a0, k1, c, e.arrival);
    MovedDescends(cfg, e, c);
    MovedOnce(cfg, e, c, g + 1);
    BacklogGrows(cfg, s.serverFree, t.serverFree, g, a0, k1, Popped(c, g + 1), Popped(c', g + 1));
    forall d: nat | d < |c'| ensures PendingTries(cfg, t.heap, c', d) {
      forall k: nat | c'[d] <= k < Bound(cfg.Originals(), c', d)
        ensures TryAt(cfg, t.heap, d, Due(cfg.Interval(), cfg.timeoutNs, d, k))
      {
        TryAfterPop(cfg, s, c, c', e, d, k);
      }
    }
  }

  // ---------------------------------------------------------------- the run

  /** Attempt i triggered the collapse, everything since has timed out, and it will go on. */
  ghost predicate Sunk(cfg: Config, s: State, i: nat, g: nat, k1: nat, c: seq<nat>)
    requires cfg.Valid()
  {
    && Triggered(cfg, s.log, i, g)
    && (forall j :: i <= j < |s.log| && s.log[j].ev.arrival < cfg.duration ==> TimedOut(cfg, s.log[j]))
    && (s.log[|s.log| - 1].ev.arrival < cfg.duration ==> Collapsed(cfg, s, g, s.log[i].ev.arrival, k1, c))
  }

  ghost predicate Sinking(cfg: Config, s: State, i: nat, g: nat)
    requires cfg.Valid()
  {
    exists k1, c :: Sunk(cfg, s, i, g, k1, c)
  }

  /** Every cursor starts at the first original still pending. */
  lemma SinkingStarts(cfg: Config, s: State, i: nat, g: nat, o: nat)
    requires cfg.Valid() && Overloaded(cfg, g)
    requires Triggered(cfg, s.log, i, g) && |s.log| == i + 1 && s.serverFree == s.log[i].done
    requires OneAtATime(cfg, s) && InStep(cfg, s, o)
    ensures Sinking(cfg, s, i, g)
  {
    var c := seq(g + 1, d => o);
    CollapseStarts(cfg, s, g, s.log[i].freeBefore, s.log[i].ev.arrival, o, c);
    LastMisses(cfg, s.log[i], g);
    assert Sunk(cfg, s, i, g, o, c);
  }

  lemma CollapseStarts(cfg: Config, s: State, g: nat, before: nat, a0: nat, o: nat, c: seq<nat>)
    requires cfg.Valid() && before <= s.serverFree && PendingFrom(cfg, s.heap, o)
    requires 2 * before >= 2 * a0 + (g + 2) * cfg.timeoutNs + 2 * cfg.Interval()
    requires (o > 0 ==> (o - 1) * cfg.Interval() <= a0) && c == seq(g + 1, d => o)
    ensures Collapsed(cfg, s, g, a0, o, c)
  {
    CursorsAt(c, o, g + 1);
    OriginalsPending(cfg, s.heap, c, o);
    StartsBacklogged(cfg, s.serverFree, g, before, a0, o);
  }

  lemma LastMisses(cfg: Config, a: Attempt, g: nat)
    requires cfg.Valid() && a.Served? && cfg.serviceNs >= 1 && a.freeBefore <= a.start
             && a.done == a.start + cfg.serviceNs
    requires 2 * a.freeBefore >= 2 * a.ev.arrival + (g + 2) * cfg.timeoutNs + 2 * cfg.Interval()
    ensures TimedOut(cfg, a)
  {
    MulMonotone(2, g + 2, cfg.timeoutNs);
  }

  lemma OriginalsPending(cfg: Config, heap: seq<Event>, c: seq<nat>, o: nat)
    requires cfg.Valid() && PendingFrom(cfg, heap, o) && forall d :: 0 <= d < |c| ==> c[d] == o
    ensures Descending(cfg.Originals(), c) && AllPending(cfg, heap, c)
  {
    forall k: nat | o <= k < cfg.Originals() ensures TryAt(cfg, heap, 0, Due(cfg.Interval(), cfg.timeoutNs, 0, k)) {
      assert Original(cfg, k) in heap;
    }
  }

  lemma {:induction false} CursorsAt(c: seq<nat>, o: nat, n: nat)
    requires n <= |c| && forall d :: 0 <= d < |c| ==> c[d] == o
    ensures Popped(c, n) == n * o
  {
    if n > 0 {
      CursorsAt(c, o, n - 1);
      assert n * o == (n - 1) * o + o;
    }
  }

  lemma StartsBacklogged(cfg: Config, free: nat, g: nat, before: nat, a0: nat, o: nat)
    requires cfg.Valid() && before <= free
    requires 2 * before >= 2 * a0 + (g + 2) * cfg.timeoutNs + 2 * cfg.Interval()
    requires o > 0 ==> (o - 1) * cfg.Interval() <= a0
    ensures Backlogged(cfg, free, g, a0, o, (g + 1) * o)
  {
    var i := cfg.Interval();
    assert o * i == (o - 1) * i + i;
  }

  lemma SinkingStep(cfg: Config, s: State, i: nat, g: nat, k1: nat, c: seq<nat>)
    requires cfg.Valid() && Overloaded(cfg, g)
    requires s.heap != [] && Sunk(cfg, s, i, g, k1, c) && Ordered(cfg, s)
    ensures Sinking(cfg, Pop(cfg, NoPolicy, s), i, g)
  {
    var e, t, n := s.heap[MinIndex(s.heap)], Pop(cfg, NoPolicy, s), |s.log|;
    assert e in s.heap;
    assert t.log == s.log + [t.log[n]] && t.log[n].ev == e;
    if e.arrival < cfg.duration {
      CollapseStep(cfg, s, g, s.log[i].ev.arrival, k1, c, e);
    }
    assert Sunk(cfg, t, i, g, k1, Moved(cfg, e, c));
  }

  ghost predicate InSequence(cfg: Config, s: State)
    requires cfg.Valid()
  {
    exists o :: InStep(cfg, s, o)
  }

  /** All the invariants of a run without overload control. */
  ghost predicate Healthy(cfg: Config, s: State, i: nat, g: nat)
    requires cfg.Valid()
  {
    && Ordered(cfg, s) && OneAtATime(cfg, s) && InSequence(cfg, s)
    && (Triggered(cfg, s.log, i, g) ==> Sinking(cfg, s, i, g))
  }

  lemma HealthyAtFirst(cfg: Config, i: nat, g: nat)
    requires cfg.Valid()
    ensures Healthy(cfg, Initial(cfg), i, g)
  {
    var h := Initial(cfg).heap;
    assert forall k :: 0 <= k < cfg.Originals() ==> h[k] == Original(cfg, k);
    assert InStep(cfg, Initial(cfg), 0);
  }

  lemma PopKeepsInvariants(cfg: Config, s: State, i: nat, g: nat)
    requires cfg.Valid() && Overloaded(cfg, g) && s.heap != [] && Healthy(cfg, s, i, g)
    ensures Healthy(cfg, Pop(cfg, NoPolicy, s), i, g)
  {
    var t := Pop(cfg, NoPolicy, s);
    var o :| InStep(cfg, s, o);
    PopKeepsOrder(cfg, NoPolicy, s);
    PopKeepsCapacity(cfg, NoPolicy, s);
    InStepStep(cfg, NoPolicy, s, o);
    if Triggered(cfg, t.log, i, g) {
      if i < |s.log| {
        assert t.log[i] == s.log[i];
        var k1, c :| Sunk(cfg, s, i, g, k1, c);
        SinkingStep(cfg, s, i, g, k1, c);
      } else {
        SinkingStarts(cfg, t, i, g, NextPending(cfg, s, o));
      }
    }
  }

  lemma InvariantsHold(cfg: Config, n: nat, i: nat, g: nat)
    requires cfg.Valid() && Overloaded(cfg, g)
    ensures Healthy(cfg, After(cfg, NoPolicy, Initial(cfg), n), i, g)
  {
    var inv := (s: State, _: nat) => Healthy(cfg, s, i, g);
    HealthyAtFirst(cfg, i, g);
    forall s, k: nat | inv(s, k) ensures inv(Next(cfg, NoPolicy, s), k + 1) {
      if s.heap != [] {
        PopKeepsInvariants(cfg, s, i, g);
      }
    }
    RunInduction(cfg, NoPolicy, Initial(cfg), n, inv);
  }

  /** The header's claim, for any number g of retries counted, all of them included. Once an
      attempt has found the server that far behind, it and every later attempt that arrives while
      load is still offered times out: no outage is needed any more. */
  lemma MetastableCollapse(cfg: Config, g: nat, n: nat, i: nat, j: nat)
    requires cfg.Valid() && Overloaded(cfg, g) && Triggered(cfg, LogAfter(cfg, NoPolicy, n), i, g)
    requires i <= j < |LogAfter(cfg, NoPolicy, n)| && LogAfter(cfg, NoPolicy, n)[j].ev.arrival < cfg.duration
    ensures TimedOut(cfg, LogAfter(cfg, NoPolicy, n)[j])
  {
    InvariantsHold(cfg, n, i, g);
  }

  /** Counting one retry, two timeouts are far enough if a timeout is worth two arrivals. */
  lemma TwoTimeoutsTrigger(cfg: Config, log: seq<Attempt>, i: nat)
    requires cfg.Valid() && 2 * cfg.Interval() <= cfg.timeoutNs
    requires i < |log| && log[i].Served? && log[i].freeBefore >= log[i].ev.arrival + 2 * cfg.timeoutNs
    ensures Triggered(cfg, log, i, 1)
  {
  }

  lemma {:induction false} TallyZero(cfg: Config, c: Counter, log: seq<Attempt>)
    requires forall a <- log :: !Counts(cfg, c, a)
    ensures Tally(cfg, c, log) == 0
  {
    if log != [] {
      TallyZero(cfg, c, log[..|log| - 1]);
    }
  }

  /** What an operator sees: every reported second after the one in which that attempt
      finished shows no goodput at all, to the end of the run. */
  lemma GoodputStaysZero(cfg: Config, g: nat, n: nat, i: nat, w: nat)
    requires cfg.Valid() && Overloaded(cfg, g) && Triggered(cfg, LogAfter(cfg, NoPolicy, n), i, g)
    requires LogAfter(cfg, NoPolicy, n)[i].done / SECOND < w < cfg.NWindows()
    ensures Tally(cfg, Goodput(w), LogAfter(cfg, NoPolicy, n)) == 0
  {
    var log := LogAfter(cfg, NoPolicy, n);
    EventsInOrder(cfg, NoPolicy, Initial(cfg), n);
    forall j | 0 <= j < |log| ensures !Counts(cfg, Goodput(w), log[j]) {
      if j >= i && log[j].ev.arrival < cfg.duration {
        MetastableCollapse(cfg, g, n, i, j);
      } else {
        LateFinish(cfg, log, i, j, w);
      }
    }
    TallyZero(cfg, Goodput(w), log);
  }

  lemma LateFinish(cfg: Config, log: seq<Attempt>, i: nat, j: nat, w: nat)
    requires i < |log| && j < |log| && log[i].Served? && w < cfg.NWindows()
    requires log[i].done / SECOND < w
    requires log[j].Served? && j < i ==> log[j].done <= log[i].done
    requires log[j].Served? && j >= i ==> cfg.duration <= log[j].done
    ensures !Counts(cfg, Goodput(w), log[j])
  {
  }
}
