module OverloadRuns {
  // What a whole run of the simulator amounts to, stated on the record of its attempts alone: who
  // is tried when, who is turned away, when the server works, who is tried again, and what the
  // report counts.

  import opened Common
  import opened Overload

  // ---------------------------------------------------------------- one attempt after another

  /** When the server is free after these attempts. */
  function FreeAfter(log: seq<Attempt>): nat {
    if log == [] then 0
    else if log[|log| - 1].Served? then log[|log| - 1].done else FreeAfter(log[..|log| - 1])
  }

  /** What became of an attempt, from the attempts before it: it is turned away exactly if the policy
      says so; otherwise the server starts on it as soon as it is there and the server free, or when
      the outage is over if that falls into the outage. */
  ghost predicate Judged(cfg: Config, policy: Policy, before: seq<Attempt>, a: Attempt) {
    var arrival, free := a.ev.arrival, FreeAfter(before);
    var ready := if arrival < free then free else arrival;
    && (a.Rejected? <==> !policy.admit(before, arrival, a.ev.prio))
    && (a.Served? ==>
          && a.freeBefore == free && a.done == a.start + cfg.serviceNs
          && (if cfg.outageStart <= ready < cfg.outageStart + cfg.outageNs
              then a.start == cfg.outageStart + cfg.outageNs else a.start == ready))
  }

  ghost predicate AllJudged(cfg: Config, policy: Policy, log: seq<Attempt>) {
    forall j :: 0 <= j < |log| ==> Judged(cfg, policy, log[..j], log[j])
  }

  ghost predicate Later(a: Event, b: Event) {
    a.arrival < b.arrival || (a.arrival == b.arrival && a.seqNo < b.seqNo)
  }

  /** The client gave up on an attempt that has tries left, and the policy lets it try again. */
  predicate TriesAgain(cfg: Config, policy: Policy, log: seq<Attempt>, a: Attempt) {
    a.Served? && a.done - a.ev.arrival > cfg.timeoutNs && a.ev.retriesLeft > 0
    && policy.allowRetry(log, a.ev.arrival + cfg.timeoutNs)
  }

  /** The retries the attempts lead to, numbered on from n. */
  function Retries(cfg: Config, policy: Policy, log: seq<Attempt>, n: nat): seq<Event> {
    if log == [] then [] else
      var a, earlier := log[|log| - 1], Retries(cfg, policy, log[..|log| - 1], n);
      if TriesAgain(cfg, policy, log, a)
      then earlier + [Event(a.ev.arrival + cfg.timeoutNs, n + |earlier|, a.ev.retriesLeft - 1, a.ev.prio)]
      else earlier
  }

  function Tries(log: seq<Attempt>): (evs: seq<Event>)
    ensures |evs| == |log|
  {
    seq(|log|, j requires 0 <= j < |log| => log[j].ev)
  }

  /** The requests themselves: one an interval while load is offered, levels in turn. */
  ghost predicate Offers(cfg: Config, evs: seq<Event>, interval: nat, levels: nat) {
    && (forall k: nat :: k < |evs| <==> k * interval < cfg.duration)
    && forall k :: 0 <= k < |evs| ==> levels > 0 && evs[k] == Event(k * interval, k, cfg.maxRetries, k % levels)
  }

  /** A complete run: the tries are the requests and the retries, each once, in order of arrival and
      then of number, and each is judged by those before it. */
  ghost predicate Explained(cfg: Config, policy: Policy, log: seq<Attempt>, offered: seq<Event>)
    requires cfg.Valid()
  {
    && Offers(cfg, offered, 1_000_000_000 / cfg.loadQps, if cfg.priorityLevels == 0 then 1 else cfg.priorityLevels)
    && multiset(Tries(log)) == multiset(offered + Retries(cfg, policy, log, |offered|))
    && (forall i, j :: 0 <= i < j < |log| ==> Later(log[i].ev, log[j].ev))
    && AllJudged(cfg, policy, log)
  }

  // ---------------------------------------------------------------- every run is one

  lemma PopSequenced(cfg: Config, policy: Policy, s: State, n: nat)
    requires s.heap != [] && s.nextSeq == n + |Retries(cfg, policy, s.log, n)|
             && Sequenced(Tries(s.log), s.heap, s.nextSeq)
    requires forall i :: 0 <= i < |s.log| ==> s.log[i].ev.seqNo < s.nextSeq
    ensures var t := Pop(cfg, policy, s);
            Sequenced(Tries(t.log), t.heap, t.nextSeq) && forall i :: 0 <= i < |t.log| ==> t.log[i].ev.seqNo < t.nextSeq
  {
    var m, t := MinIndex(s.heap), Pop(cfg, policy, s);
    var rest := Without(s.heap, m);
    var more := PopAdds(cfg, policy, s, n);
    RestSequenced(Tries(s.log), s.heap, s.nextSeq, m, rest);
    NumbersBelow(s.log, t.log, s.heap[m], s.nextSeq, t.nextSeq);
    if more != [] {
      LaterThanAll(Tries(t.log), more[0], s.nextSeq);
      OneMoreSequenced(Tries(t.log), rest, s.nextSeq, more[0]);
      assert more == [more[0]];
    } else {
      assert rest + more == rest;
    }
  }

  lemma NumbersBelow(log: seq<Attempt>, log': seq<Attempt>, e: Event, n: nat, n': nat)
    requires Tries(log') == Tries(log) + [e] && n <= n' && e.seqNo < n
    requires forall i :: 0 <= i < |log| ==> log[i].ev.seqNo < n
    ensures forall i :: 0 <= i < |log'| ==> log'[i].ev.seqNo < n'
    ensures forall i :: 0 <= i < |log'| ==> Tries(log')[i].seqNo < n
  {
    forall i | 0 <= i < |log'| ensures Tries(log')[i].seqNo < n && log'[i].ev == Tries(log')[i] {
      assert Tries(log')[i] == if i < |log| then Tries(log)[i] else e;
    }
  }

  /** Made tries come in order, so what arrives no earlier than the last, with a new number, is later. */
  lemma LaterThanAll(made: seq<Event>, x: Event, n: nat)
    requires made != [] && made[|made| - 1].arrival <= x.arrival && x.seqNo == n
    requires forall i, j :: 0 <= i < j < |made| ==> Later(made[i], made[j])
    requires forall i :: 0 <= i < |made| ==> made[i].seqNo < n
    ensures forall i :: 0 <= i < |made| ==> Later(made[i], x)
  {
  }

  /** Part of the way through a run: some tries are still pending. */
  ghost predicate UnderWay(cfg: Config, policy: Policy, offered: seq<Event>, s: State) {
    && multiset(Tries(s.log)) + multiset(s.heap) == multiset(offered + Retries(cfg, policy, s.log, |offered|))
    && s.nextSeq == |offered| + |Retries(cfg, policy, s.log, |offered|)|
    && s.serverFree == FreeAfter(s.log) && AllJudged(cfg, policy, s.log)
  }

  /** Tries made and then those pending, by arrival and number; numbers from n on are unused. */
  ghost predicate Sequenced(made: seq<Event>, heap: seq<Event>, n: nat) {
    && (forall i, j :: 0 <= i < j < |made| ==> Later(made[i], made[j]))
    && (forall i, j :: 0 <= i < |made| && 0 <= j < |heap| ==> Later(made[i], heap[j]))
    && (forall i, j :: 0 <= i < j < |heap| ==> heap[i].seqNo != heap[j].seqNo)
    && (forall i :: 0 <= i < |heap| ==> heap[i].seqNo < n)
  }

  lemma LeastIsNext(heap: seq<Event>, m: nat, y: nat)
    requires heap != [] && m == MinIndex(heap) && y < |heap| && heap[m].seqNo != heap[y].seqNo
    ensures Later(heap[m], heap[y])
  {
    MinIndexIsLeast(heap, heap[y]);
  }

  /** Position j of the heap without its m-th entry. */
  function Skip(m: nat, j: nat): nat {
    if j < m then j else j + 1
  }

  lemma WithoutSkips(heap: seq<Event>, m: nat, rest: seq<Event>)
    requires m < |heap| && rest == Without(heap, m)
    ensures |rest| == |heap| - 1 && forall j: nat :: j < |rest| ==> rest[j] == heap[Skip(m, j)]
  {
  }

  lemma RestSequenced(made: seq<Event>, heap: seq<Event>, n: nat, m: nat, rest: seq<Event>)
    requires heap != [] && m == MinIndex(heap) && rest == Without(heap, m) && Sequenced(made, heap, n)
    ensures Sequenced(made + [heap[m]], rest, n)
  {
    WithoutSkips(heap, m, rest);
    forall j: nat | j < |rest|
      ensures Later(heap[m], rest[j]) && rest[j].seqNo < n && forall i :: 0 <= i < |made| ==> Later(made[i], rest[j])
    {
      assert rest[j] == heap[Skip(m, j)];
      LeastIsNext(heap, m, Skip(m, j));
    }
    forall i: nat, j: nat | i < j < |rest| ensures rest[i].seqNo != rest[j].seqNo {
      assert rest[i] == heap[Skip(m, i)] && rest[j] == heap[Skip(m, j)];
    }
  }

  lemma OneMoreSequenced(made: seq<Event>, rest: seq<Event>, n: nat, x: Event)
    requires Sequenced(made, rest, n) && x.seqNo == n
    requires forall i :: 0 <= i < |made| ==> Later(made[i], x)
    ensures Sequenced(made, rest + [x], n + 1)
  {
  }

  /** The next state from its parts. */
  lemma AfterPop(cfg: Config, policy: Policy, s: State)
    requires s.heap != []
    ensures var m, t := MinIndex(s.heap), Pop(cfg, policy, s);
            var e, rest := s.heap[m], Without(s.heap, m);
            && |t.log| == |s.log| + 1 && t.log == s.log + [t.log[|s.log|]] && t.log[|s.log|].ev == e
            && (if TriesAgain(cfg, policy, t.log, t.log[|s.log|])
                then t.heap == rest + [Event(e.arrival + cfg.timeoutNs, s.nextSeq, e.retriesLeft - 1, e.prio)]
                     && t.nextSeq == s.nextSeq + 1
                else t.heap == rest && t.nextSeq == s.nextSeq)
  {
  }

  lemma FreeOn(log: seq<Attempt>, a: Attempt)
    ensures FreeAfter(log + [a]) == if a.Served? then a.done else FreeAfter(log)
  {
    assert (log + [a])[..|log|] == log;
  }

  lemma JudgedOn(cfg: Config, policy: Policy, log: seq<Attempt>, a: Attempt)
    requires AllJudged(cfg, policy, log) && Judged(cfg, policy, log, a)
    ensures AllJudged(cfg, policy, log + [a])
  {
    var w := log + [a];
    forall j | 0 <= j < |w| ensures Judged(cfg, policy, w[..j], w[j]) {
      assert w[..j] == if j < |log| then log[..j] else log;
    }
  }

  lemma LastJudged(cfg: Config, policy: Policy, s: State, a: Attempt)
    requires s.heap != [] && s.serverFree == FreeAfter(s.log) && a == Pop(cfg, policy, s).log[|s.log|]
    ensures Judged(cfg, policy, s.log, a)
    ensures Pop(cfg, policy, s).serverFree == if a.Served? then a.done else s.serverFree
  {
  }

  lemma PopJudged(cfg: Config, policy: Policy, s: State)
    requires s.heap != [] && s.serverFree == FreeAfter(s.log) && AllJudged(cfg, policy, s.log)
    ensures var t := Pop(cfg, policy, s); t.serverFree == FreeAfter(t.log) && AllJudged(cfg, policy, t.log)
  {
    var a := Pop(cfg, policy, s).log[|s.log|];
    AfterPop(cfg, policy, s);
    LastJudged(cfg, policy, s, a);
    FreeOn(s.log, a);
    JudgedOn(cfg, policy, s.log, a);
  }

  lemma TakeOut(h: seq<Event>, m: nat)
    requires m < |h|
    ensures multiset(h) == multiset(Without(h, m)) + multiset{h[m]}
  {
    assert h == h[..m] + [h[m]] + h[m + 1..];
  }

  lemma TriesOn(log: seq<Attempt>, a: Attempt)
    ensures Tries(log + [a]) == Tries(log) + [a.ev]
  {
  }

  lemma RetriesOn(cfg: Config, policy: Policy, log: seq<Attempt>, a: Attempt, n: nat)
    ensures var earlier := Retries(cfg, policy, log, n);
            Retries(cfg, policy, log + [a], n) == if TriesAgain(cfg, policy, log + [a], a)
              then earlier + [Event(a.ev.arrival + cfg.timeoutNs, n + |earlier|, a.ev.retriesLeft - 1, a.ev.prio)]
                else earlier
  {
    assert (log + [a])[..|log|] == log;
  }

  lemma PopAdds(cfg: Config, policy: Policy, s: State, n: nat) returns (more: seq<Event>)
    requires s.heap != [] && s.nextSeq == n + |Retries(cfg, policy, s.log, n)|
    ensures var m, t := MinIndex(s.heap), Pop(cfg, policy, s);
            && t.heap == Without(s.heap, m) + more && t.nextSeq == s.nextSeq + |more|
            && Tries(t.log) == Tries(s.log) + [s.heap[m]]
            && Retries(cfg, policy, t.log, n) == Retries(cfg, policy, s.log, n) + more
    ensures |more| <= 1
    ensures more != [] ==> more[0].seqNo == s.nextSeq && more[0].arrival >= s.heap[MinIndex(s.heap)].arrival
  {
    var m, t := MinIndex(s.heap), Pop(cfg, policy, s);
    var a := t.log[|s.log|];
    AfterPop(cfg, policy, s);
    TriesOn(s.log, a);
    RetriesOn(cfg, policy, s.log, a, n);
    more := t.heap[|Without(s.heap, m)|..];
  }

  lemma PopConserves(cfg: Config, policy: Policy, offered: seq<Event>, s: State)
    requires s.heap != [] && UnderWay(cfg, policy, offered, s)
    ensures UnderWay(cfg, policy, offered, Pop(cfg, policy, s))
  {
    var m, n := MinIndex(s.heap), |offered|;
    PopJudged(cfg, policy, s);
    TakeOut(s.heap, m);
    var more := PopAdds(cfg, policy, s, n);
    var owed := offered + Retries(cfg, policy, s.log, n);
    Conserved(Tries(s.log), s.heap[m], s.heap, Without(s.heap, m), owed, more);
    assert owed + more == offered + (Retries(cfg, policy, s.log, n) + more);
  }

  /** One try moves from pending to made; `more` are the retries it adds to both sides. */
  lemma Conserved(made: seq<Event>, e: Event, heap: seq<Event>, rest: seq<Event>, owed: seq<Event>, more: seq<Event>)
    requires multiset(heap) == multiset(rest) + multiset{e}
    requires multiset(made) + multiset(heap) == multiset(owed)
    ensures multiset(made + [e]) + multiset(rest + more) == multiset(owed + more)
  {
  }

  ghost predicate InSequence(s: State) {
    Sequenced(Tries(s.log), s.heap, s.nextSeq) && forall i :: 0 <= i < |s.log| ==> s.log[i].ev.seqNo < s.nextSeq
  }

  lemma StartsUnderWay(cfg: Config, policy: Policy)
    requires cfg.Valid()
    ensures UnderWay(cfg, policy, Initial(cfg).heap, Initial(cfg)) && InSequence(Initial(cfg))
  {
    var h := Initial(cfg).heap;
    assert h + [] == h;
  }

  lemma InitialOffers(cfg: Config)
    requires cfg.Valid()
    ensures Offers(cfg, Initial(cfg).heap, 1_000_000_000 / cfg.loadQps, if cfg.priorityLevels == 0 then 1
            else cfg.priorityLevels)
  {
    var interval, n := cfg.Interval(), cfg.Originals();
    NoneLeftAfterDuration(cfg);
    forall k: nat ensures k < n <==> k * interval < cfg.duration {
      if k >= n {
        MulMonotone(n, k, interval);
      }
    }
  }

  /** Every run that has ended is explained. */
  lemma RunExplained(cfg: Config, policy: Policy, n: nat)
    requires cfg.Valid() && After(cfg, policy, Initial(cfg), n).heap == []
    ensures Explained(cfg, policy, LogAfter(cfg, policy, n), Initial(cfg).heap)
  {
    var s0 := Initial(cfg);
    var inv := (s: State, _: nat) => UnderWay(cfg, policy, s0.heap, s) && InSequence(s);
    StartsUnderWay(cfg, policy);
    forall s, k: nat | inv(s, k) ensures inv(Next(cfg, policy, s), k + 1) {
      if s.heap != [] {
        PopConserves(cfg, policy, s0.heap, s);
        PopSequenced(cfg, policy, s, |s0.heap|);
      }
    }
    RunInduction(cfg, policy, s0, n, inv);
    InitialOffers(cfg);
    var log := LogAfter(cfg, policy, n);
    forall i, j | 0 <= i < j < |log| ensures Later(log[i].ev, log[j].ev) {
      assert Later(Tries(log)[i], Tries(log)[j]);
    }
  }

  // ---------------------------------------------------------------- how many of each level

  /** Requests of level p among the tries: their numbers are below n. */
  ghost function OfLevel(evs: seq<Event>, n: nat, p: nat): nat {
    if evs == [] then 0 else
      var e := evs[|evs| - 1];
      OfLevel(evs[..|evs| - 1], n, p) + (if e.seqNo < n && e.prio == p then 1 else 0)
  }

  lemma {:induction false} OfLevelConcat(a: seq<Event>, b: seq<Event>, n: nat, p: nat)
    ensures OfLevel(a + b, n, p) == OfLevel(a, n, p) + OfLevel(b, n, p)
  {
    if b == [] {
      assert a + b == a;
    } else {
      assert (a + b)[..|a + b| - 1] == a + b[..|b| - 1];
      OfLevelConcat(a, b[..|b| - 1], n, p);
    }
  }

  lemma OfLevelWithout(b: seq<Event>, k: nat, n: nat, p: nat)
    requires k < |b|
    ensures OfLevel(b, n, p) == OfLevel(Without(b, k), n, p) + OfLevel([b[k]], n, p)
  {
    OfLevelConcat(b[..k], b[k + 1..], n, p);
    OfLevelConcat(b[..k], [b[k]], n, p);
    OfLevelConcat(b[..k] + [b[k]], b[k + 1..], n, p);
    assert b == b[..k] + [b[k]] + b[k + 1..];
  }

  lemma SameWithout(a: seq<Event>, b: seq<Event>, k: nat)
    requires multiset(a) == multiset(b) && a != [] && k < |b| && b[k] == a[|a| - 1]
    ensures multiset(a[..|a| - 1]) == multiset(Without(b, k))
  {
    TakeOut(b, k);
    TakeOut(a, |a| - 1);
    assert Without(a, |a| - 1) == a[..|a| - 1];
    assert multiset(Without(b, k)) == multiset(b) - multiset{b[k]};
    assert multiset(a[..|a| - 1]) == multiset(a) - multiset{b[k]};
  }

  lemma {:induction false} OfLevelPermuted(a: seq<Event>, b: seq<Event>, n: nat, p: nat)
    requires multiset(a) == multiset(b)
    ensures OfLevel(a, n, p) == OfLevel(b, n, p)
  {
    if a == [] {
      assert |multiset(b)| == 0;
    } else {
      var m, e := |a| - 1, a[|a| - 1];
      assert e in multiset(a);
      var k :| 0 <= k < |b| && b[k] == e;
      SameWithout(a, b, k);
      OfLevelPermuted(a[..m], Without(b, k), n, p);
      OfLevelWithout(b, k, n, p);
      OneOfLevel(e, n, p);
    }
  }

  lemma OneOfLevel(e: Event, n: nat, p: nat)
    ensures OfLevel([e], n, p) == if e.seqNo < n && e.prio == p then 1 else 0
  {
    assert [e][..0] == [];
  }

  lemma {:induction false} RetriesNumbered(cfg: Config, policy: Policy, log: seq<Attempt>, n: nat, p: nat)
    ensures OfLevel(Retries(cfg, policy, log, n), n, p) == 0
  {
    if log != [] {
      var earlier := Retries(cfg, policy, log[..|log| - 1], n);
      RetriesNumbered(cfg, policy, log[..|log| - 1], n, p);
      var all := Retries(cfg, policy, log, n);
      if all != earlier {
        OfLevelConcat(earlier, [all[|earlier|]], n, p);
        OneOfLevel(all[|earlier|], n, p);
        assert all == earlier + [all[|earlier|]];
      }
    }
  }

  /** The levels take turns. */
  lemma {:induction false} LevelsTakeTurns(offered: seq<Event>, k: nat, n: nat, levels: nat, p: nat)
    requires k <= |offered| <= n && p < levels
    requires forall i :: 0 <= i < |offered| ==> offered[i].seqNo == i && offered[i].prio == i % levels
    ensures OfLevel(offered[..k], n, p) == (k + levels - 1 - p) / levels
  {
    if k == 0 {
      TurnStep(0, levels, p, 0);
    } else {
      LevelsTakeTurns(offered, k - 1, n, levels, p);
      assert offered[..k][..k - 1] == offered[..k - 1];
      TurnStep(k - 1, levels, p, k);
    }
  }

  lemma TurnStep(k: nat, levels: nat, p: nat, next: nat)
    requires p < levels
    ensures (levels - 1 - p) / levels == 0
    ensures next == k + 1 ==>
            (next + levels - 1 - p) / levels == (k + levels - 1 - p) / levels + if k % levels == p then 1 else 0
  {
    SmallQuotient(levels - 1 - p, levels);
    var q, r := k / levels, k % levels;
    DivMod(k, levels, q, r);
    if r <= p {
      QuotientIs(k + levels - 1 - p, levels, q, r + levels - 1 - p);
    } else {
      QuotientIs(k + levels - 1 - p, levels, q + 1, r - 1 - p);
    }
    if r < p {
      QuotientIs(k + levels - p, levels, q, r + levels - p);
    } else {
      QuotientIs(k + levels - p, levels, q + 1, r - p);
    }
  }

  lemma SmallQuotient(x: nat, m: nat)
    requires x < m
    ensures x / m == 0
  {
  }

  lemma DivMod(x: nat, m: nat, q: nat, r: nat)
    requires m > 0 && q == x / m && r == x % m
    ensures x == q * m + r && r < m
  {
  }

  lemma QuotientIs(x: nat, m: nat, q: nat, r: nat)
    requires r < m && x == q * m + r
    ensures x / m == q
  {
    var q' := x / m;
    DivMod(x, m, q', x % m);
    if q < q' {
      MulMonotone(q + 1, q', m);
    } else if q' < q {
      MulMonotone(q' + 1, q, m);
    }
  }

  /** A complete run tries the requests of each level once, and the levels take turns. */
  lemma LevelsTried(cfg: Config, policy: Policy, log: seq<Attempt>, offered: seq<Event>, levels: nat, p: nat)
    requires cfg.Valid() && Explained(cfg, policy, log, offered)
    requires levels == (if cfg.priorityLevels == 0 then 1 else cfg.priorityLevels) && p < levels
    ensures OfLevel(Tries(log), |offered|, p) == (|offered| + levels - 1 - p) / levels
  {
    var n := |offered|;
    OfLevelPermuted(Tries(log), offered + Retries(cfg, policy, log, n), n, p);
    OfLevelConcat(offered, Retries(cfg, policy, log, n), n, p);
    RetriesNumbered(cfg, policy, log, n, p);
    LevelsTakeTurns(offered, n, n, levels, p);
    assert offered[..n] == offered;
  }

  // ---------------------------------------------------------------- what the report counts

  predicate InTime(cfg: Config, a: Attempt) {
    a.Served? && a.done - a.ev.arrival <= cfg.timeoutNs
  }

  ghost function ArrivedIn(log: seq<Attempt>, w: nat): set<nat> {
    set j: nat | j < |log| && log[j].ev.arrival / 1_000_000_000 == w
  }

  ghost function TurnedAwayIn(log: seq<Attempt>, w: nat): set<nat> {
    set j: nat | j < |log| && log[j].Rejected? && log[j].ev.arrival / 1_000_000_000 == w
  }

  ghost function AnsweredIn(cfg: Config, log: seq<Attempt>, w: nat): set<nat> {
    set j: nat | j < |log| && InTime(cfg, log[j]) && log[j].done / 1_000_000_000 == w
  }

  ghost function OfPriority(log: seq<Attempt>, p: nat): set<nat> {
    set j: nat | j < |log| && log[j].ev.prio == p
  }

  ghost function AnsweredOf(cfg: Config, log: seq<Attempt>, p: nat): set<nat> {
    set j: nat | j < |log| && InTime(cfg, log[j]) && log[j].ev.prio == p
  }

  ghost function Answered(cfg: Config, log: seq<Attempt>, n: nat): set<nat>
    requires n <= |log|
  {
    set j: nat | j < n && InTime(cfg, log[j])
  }

  /** The report counts the attempts: per second of load what arrived, what was turned away and what
      was answered in time, per level what was answered in time of what was tried, and the latencies
      of what was answered in time, in order. */
  ghost predicate Reports(cfg: Config, r: Report, log: seq<Attempt>) {
    && |r.windows| == cfg.duration / 1_000_000_000
    && (forall w: nat :: w < |r.windows| ==>
          r.windows[w] == Window(|ArrivedIn(log, w)|, |TurnedAwayIn(log, w)|, |AnsweredIn(cfg, log, w)|))
    && |r.perPriority| == (if cfg.priorityLevels == 0 then 1 else cfg.priorityLevels)
    && (forall p: nat :: p < |r.perPriority| ==> r.perPriority[p] == (|AnsweredOf(cfg, log, p)|, |OfPriority(log, p)|))
    && |r.successLatencies| == |Answered(cfg, log, |log|)|
    && forall j: nat :: j < |log| && InTime(cfg, log[j]) ==> LatencyAt(cfg, r.successLatencies, log, j)
  }

  ghost predicate LatencyAt(cfg: Config, latencies: seq<int>, log: seq<Attempt>, j: nat)
    requires j < |log| && log[j].Served?
  {
    var k := |Answered(cfg, log, j)|;
    k < |latencies| && latencies[k] == log[j].done - log[j].ev.arrival
  }

  ghost function Those(cfg: Config, c: Counter, log: seq<Attempt>): set<nat> {
    set j: nat | j < |log| && Counts(cfg, c, log[j])
  }

  lemma {:induction false} TallyIsSize(cfg: Config, c: Counter, log: seq<Attempt>)
    ensures Tally(cfg, c, log) == |Those(cfg, c, log)|
  {
    if log != [] {
      var n := |log| - 1;
      TallyIsSize(cfg, c, log[..n]);
      assert Those(cfg, c, log) == Those(cfg, c, log[..n]) + (if Counts(cfg, c, log[n]) then {n} else {});
    }
  }

  lemma AnsweredPrefix(cfg: Config, log: seq<Attempt>, n: nat, j: nat)
    requires j <= n <= |log|
    ensures Answered(cfg, log[..n], j) == Answered(cfg, log, j)
  {
  }

  lemma AnsweredNext(cfg: Config, log: seq<Attempt>, n: nat)
    requires n < |log|
    ensures |Answered(cfg, log, n + 1)| == |Answered(cfg, log, n)| + if InTime(cfg, log[n]) then 1 else 0
  {
    assert Answered(cfg, log, n + 1) == Answered(cfg, log, n) + (if InTime(cfg, log[n]) then {n} else {});
  }

  lemma LatencyKept(cfg: Config, latencies: seq<int>, more: seq<int>, log: seq<Attempt>, n: nat, j: nat)
    requires j < n <= |log| && InTime(cfg, log[j]) && LatencyAt(cfg, latencies, log[..n], j)
    ensures LatencyAt(cfg, latencies + more, log, j)
  {
    AnsweredPrefix(cfg, log, n, j);
  }

  lemma {:induction false} LatenciesAre(cfg: Config, log: seq<Attempt>)
    ensures |Latencies(cfg, log)| == |Answered(cfg, log, |log|)|
    ensures forall j: nat :: j < |log| && InTime(cfg, log[j]) ==> LatencyAt(cfg, Latencies(cfg, log), log, j)
  {
    if log != [] {
      var n := |log| - 1;
      var latencies := Latencies(cfg, log[..n]);
      var more := Latencies(cfg, log)[|latencies|..];
      LatenciesAre(cfg, log[..n]);
      AnsweredPrefix(cfg, log, n, n);
      AnsweredNext(cfg, log, n);
      assert Latencies(cfg, log) == latencies + more;
      forall j: nat | j < n && InTime(cfg, log[j]) ensures LatencyAt(cfg, Latencies(cfg, log), log, j) {
        assert log[..n][j] == log[j];
        LatencyKept(cfg, latencies, more, log, n, j);
      }
    }
  }

  lemma WindowCounts(cfg: Config, log: seq<Attempt>, w: nat)
    ensures Tally(cfg, Offered(w), log) == |ArrivedIn(log, w)|
    ensures Tally(cfg, RejectedIn(w), log) == |TurnedAwayIn(log, w)|
    ensures Tally(cfg, Goodput(w), log) == |AnsweredIn(cfg, log, w)|
  {
    TallyIsSize(cfg, Offered(w), log);
    TallyIsSize(cfg, RejectedIn(w), log);
    TallyIsSize(cfg, Goodput(w), log);
    assert Those(cfg, Offered(w), log) == ArrivedIn(log, w);
    assert Those(cfg, RejectedIn(w), log) == TurnedAwayIn(log, w);
    assert Those(cfg, Goodput(w), log) == AnsweredIn(cfg, log, w);
  }

  lemma PriorityCounts(cfg: Config, log: seq<Attempt>, p: nat)
    ensures Tally(cfg, Attempts(p), log) == |OfPriority(log, p)|
    ensures Tally(cfg, Successes(p), log) == |AnsweredOf(cfg, log, p)|
  {
    TallyIsSize(cfg, Attempts(p), log);
    TallyIsSize(cfg, Successes(p), log);
    assert Those(cfg, Attempts(p), log) == OfPriority(log, p);
    assert Those(cfg, Successes(p), log) == AnsweredOf(cfg, log, p);
  }

  lemma SummaryReports(cfg: Config, r: Report, log: seq<Attempt>)
    requires Summarises(cfg, r, log)
    ensures Reports(cfg, r, log)
  {
    forall w: nat | w < |r.windows|
      ensures r.windows[w] == Window(|ArrivedIn(log, w)|, |TurnedAwayIn(log, w)|, |AnsweredIn(cfg, log, w)|)
    {
      WindowCounts(cfg, log, w);
    }
    forall p: nat | p < |r.perPriority| ensures r.perPriority[p] == (|AnsweredOf(cfg, log, p)|, |OfPriority(log, p)|) {
      PriorityCounts(cfg, log, p);
    }
    LatenciesAre(cfg, log);
  }

  /** The whole simulation: it ends, after a complete run, and reports on it. */
  method Run(cfg: Config, policy: Policy) returns (report: Report)
    requires cfg.Valid()
    ensures exists n: nat, offered ::
            && After(cfg, policy, Initial(cfg), n).heap == []
            && Explained(cfg, policy, LogAfter(cfg, policy, n), offered)
              && Reports(cfg, report, LogAfter(cfg, policy, n))
  {
    var windows := new Window[cfg.NWindows()](_ => Window(0, 0, 0));
    var perPriority := new (nat, nat)[cfg.Levels()](_ => (0, 0));
    var heap, seqNo := Generate(cfg);
    var s, latencies := Play(cfg, policy, State(heap, seqNo, 0, []), windows, perPriority);
    report := Report(windows[..], perPriority[..], latencies);
    SummaryReports(cfg, report, s.log);
    RunExplained(cfg, policy, |s.log|);
  }
}
