module Overload {
  // The overload simulator: one FIFO server, open-loop arrivals, client timeouts, retries
  // and a one-shot outage. The state machine `Pop` is one turn of the event loop, `After`
  // runs it, and `Play` is the loop itself over a mutable heap and mutable counters.

  import opened Common

  const SECOND: nat := 1_000_000_000

  datatype Config = Config(
    serviceNs: nat,
    loadQps: nat,
    timeoutNs: nat,
    maxRetries: nat,
    outageStart: nat,
    outageNs: nat,
    duration: nat,
    priorityLevels: nat)
  {
    /** Outside this range the arrival generator divides by zero or never ends. */
    predicate Valid() {
      0 < loadQps <= SECOND
    }

    function Interval(): (i: nat)
      requires Valid()
      ensures 1 <= i
    {
      SECOND / loadQps
    }

    function Levels(): (l: nat)
      ensures 1 <= l
    {
      if priorityLevels == 0 then 1 else priorityLevels
    }

    function NWindows(): nat {
      duration / SECOND
    }

    /** How many original requests arrive before `duration`. */
    function Originals(): nat
      requires Valid()
    {
      (duration + Interval() - 1) / Interval()
    }
  }

  /** A heap entry. The heap is ordered by the tuple, so by arrival and then by seqNo. */
  datatype Event = Event(arrival: nat, seqNo: nat, retriesLeft: nat, prio: nat)

  predicate Before(a: Event, b: Event) {
    a.arrival < b.arrival
    || (a.arrival == b.arrival
        && (a.seqNo < b.seqNo
            || (a.seqNo == b.seqNo
                && (a.retriesLeft < b.retriesLeft
                    || (a.retriesLeft == b.retriesLeft && a.prio < b.prio)))))
  }

  /** What happened to one popped event; `freeBefore` is when the server would next be free. */
  datatype Attempt =
    | Rejected(ev: Event)
    | Served(ev: Event, freeBefore: nat, start: nat, done: nat)

  predicate Succeeded(cfg: Config, a: Attempt) {
    a.Served? && a.done <= a.ev.arrival + cfg.timeoutNs
  }

  /** A policy may decide from everything that happened so far, so its hooks are functions of
      the attempts log. `observe_queuing` only lets a policy see the log, so it needs no field. */
  datatype Policy = Policy(
    admit: (seq<Attempt>, nat, nat) -> bool,
    allowRetry: (seq<Attempt>, nat) -> bool)

  const NoPolicy: Policy := Policy((log, now, prio) => true, (log, now) => true)

  datatype State = State(heap: seq<Event>, nextSeq: nat, serverFree: nat, log: seq<Attempt>)

  function Original(cfg: Config, k: nat): Event
    requires cfg.Valid()
  {
    Event(k * cfg.Interval(), k, cfg.maxRetries, k % cfg.Levels())
  }

  function Initial(cfg: Config): State
    requires cfg.Valid()
  {
    var n := cfg.Originals();
    State(seq(n, (k: nat) => Original(cfg, k)), n, 0, [])
  }

  function MinIndex(h: seq<Event>): (m: nat)
    requires h != []
    ensures m < |h|
  {
    if |h| == 1 then 0 else
      var last := |h| - 1;
      var m := MinIndex(h[..last]);
      if Before(h[last], h[m]) then last else m
  }

  lemma {:induction false} MinIndexIsLeast(h: seq<Event>, e: Event)
    requires e in h
    ensures !Before(e, h[MinIndex(h)])
    ensures h[MinIndex(h)].arrival <= e.arrival
  {
    var last := |h| - 1;
    if |h| > 1 {
      assert forall x <- h :: x in h[..last] || x == h[last];
      if e in h[..last] {
        MinIndexIsLeast(h[..last], e);
      } else {
        MinIndexIsLeast(h[..last], h[MinIndex(h[..last])]);
      }
    }
  }

  function Without(h: seq<Event>, i: nat): seq<Event>
    requires i < |h|
  {
    h[..i] + h[i + 1..]
  }

  function StartTime(cfg: Config, arrival: nat, serverFree: nat): nat {
    var start := if arrival < serverFree then serverFree else arrival;
    if cfg.outageStart <= start < cfg.outageStart + cfg.outageNs
    then cfg.outageStart + cfg.outageNs
    else start
  }

  /** One turn of the event loop. */
  function Pop(cfg: Config, policy: Policy, s: State): State
    requires s.heap != []
  {
    var i := MinIndex(s.heap);
    var e := s.heap[i];
    var rest := Without(s.heap, i);
    if !policy.admit(s.log, e.arrival, e.prio) then
      State(rest, s.nextSeq, s.serverFree, s.log + [Rejected(e)])
    else
      var start := StartTime(cfg, e.arrival, s.serverFree);
      var done := start + cfg.serviceNs;
      var log := s.log + [Served(e, s.serverFree, start, done)];
      if done - e.arrival > cfg.timeoutNs && e.retriesLeft > 0
         && policy.allowRetry(log, e.arrival + cfg.timeoutNs)
      then
        var retry := Event(e.arrival + cfg.timeoutNs, s.nextSeq, e.retriesLeft - 1, e.prio);
        State(rest + [retry], s.nextSeq + 1, done, log)
      else
        State(rest, s.nextSeq, done, log)
  }

  /** The state after n turns, or after the heap ran empty. */
  function After(cfg: Config, policy: Policy, s0: State, n: nat): State {
    if n == 0 then s0 else
      var s := After(cfg, policy, s0, n - 1);
      if s.heap == [] then s else Pop(cfg, policy, s)
  }

  /** What one turn does, or nothing once the heap is empty. */
  function Next(cfg: Config, policy: Policy, s: State): State {
    if s.heap == [] then s else Pop(cfg, policy, s)
  }

  /** Induction over a run. */
  lemma {:induction false} RunInduction(cfg: Config, policy: Policy, s0: State, n: nat, inv: (State, nat) -> bool)
    requires inv(s0, 0)
    requires forall s, k: nat :: inv(s, k) ==> inv(Next(cfg, policy, s), k + 1)
    ensures inv(After(cfg, policy, s0, n), n)
  {
    if n > 0 {
      RunInduction(cfg, policy, s0, n - 1, inv);
      assert inv(Next(cfg, policy, After(cfg, policy, s0, n - 1)), n - 1 + 1);
    }
  }

  // ---------------------------------------------------------------- what a run reports

  datatype Window = Window(offered: nat, rejected: nat, goodput: nat)

  datatype Report = Report(
    windows: seq<Window>,
    perPriority: seq<(nat, nat)>,
    successLatencies: seq<int>)

  /** The counters of a report: per window of a second, or per priority level. */
  datatype Counter = Offered(w: nat) | RejectedIn(w: nat) | Goodput(w: nat) | Attempts(p: nat) | Successes(p: nat)

  ghost predicate Counts(cfg: Config, c: Counter, a: Attempt) {
    match c
    case Offered(w) => a.ev.arrival / SECOND == w
    case RejectedIn(w) => a.Rejected? && a.ev.arrival / SECOND == w
    case Goodput(w) => Succeeded(cfg, a) && a.done / SECOND == w
    case Attempts(p) => a.ev.prio == p
    case Successes(p) => Succeeded(cfg, a) && a.ev.prio == p
  }

  ghost function Tally(cfg: Config, c: Counter, log: seq<Attempt>): nat {
    if log == [] then 0 else
      Tally(cfg, c, log[..|log| - 1]) + (if Counts(cfg, c, log[|log| - 1]) then 1 else 0)
  }

  ghost function Latencies(cfg: Config, log: seq<Attempt>): seq<int> {
    if log == [] then [] else
      var a := log[|log| - 1];
      Latencies(cfg, log[..|log| - 1]) + (if Succeeded(cfg, a) then [a.done - a.ev.arrival] else [])
  }

  ghost predicate Summarises(cfg: Config, r: Report, log: seq<Attempt>) {
    && |r.windows| == cfg.NWindows() && WindowsMatch(cfg, r.windows, log)
    && |r.perPriority| == cfg.Levels() && PrioritiesMatch(cfg, r.perPriority, log)
    && r.successLatencies == Latencies(cfg, log)
  }

  ghost predicate WindowsMatch(cfg: Config, windows: seq<Window>, log: seq<Attempt>) {
    forall w :: 0 <= w < |windows| ==>
      windows[w] == Window(Tally(cfg, Offered(w), log), Tally(cfg, RejectedIn(w), log), Tally(cfg, Goodput(w), log))
  }

  ghost predicate PrioritiesMatch(cfg: Config, perPriority: seq<(nat, nat)>, log: seq<Attempt>) {
    forall p :: 0 <= p < |perPriority| ==>
      perPriority[p] == (Tally(cfg, Successes(p), log), Tally(cfg, Attempts(p), log))
  }

  // ---------------------------------------------------------------- termination

  /** Attempts the entries of a heap can still cause. */
  ghost function Budget(h: seq<Event>): nat {
    if h == [] then 0 else h[0].retriesLeft + 1 + Budget(h[1..])
  }

  lemma {:induction false} BudgetConcat(g: seq<Event>, h: seq<Event>)
    ensures Budget(g + h) == Budget(g) + Budget(h)
  {
    if g == [] {
      assert g + h == h;
    } else {
      assert (g + h)[1..] == g[1..] + h;
      BudgetConcat(g[1..], h);
    }
  }

  lemma SplitAround(h: seq<Event>, i: nat)
    requires i < |h|
    ensures h == h[..i] + ([h[i]] + h[i + 1..])
  {
  }

  lemma BudgetWithout(h: seq<Event>, i: nat)
    requires i < |h|
    ensures Budget(h) == Budget(Without(h, i)) + h[i].retriesLeft + 1
  {
    SplitAround(h, i);
    BudgetConcat(h[..i], [h[i]] + h[i + 1..]);
    BudgetConcat(h[..i], h[i + 1..]);
    assert ([h[i]] + h[i + 1..])[1..] == h[i + 1..];
  }

  /** Every turn uses up budget: a run ends, whatever the policy decides. */
  lemma BudgetDrops(cfg: Config, policy: Policy, s: State)
    requires s.heap != []
    ensures Budget(Pop(cfg, policy, s).heap) < Budget(s.heap)
  {
    var i := MinIndex(s.heap);
    BudgetWithout(s.heap, i);
    var e := s.heap[i];
    if e.retriesLeft > 0 {
      var retry := Event(e.arrival + cfg.timeoutNs, s.nextSeq, e.retriesLeft - 1, e.prio);
      BudgetConcat(Without(s.heap, i), [retry]);
      assert [retry][1..] == [];
    }
  }

  // ---------------------------------------------------------------- the event loop

  method PopMin(heap: seq<Event>) returns (e: Event, rest: seq<Event>)
    requires heap != []
    ensures e == heap[MinIndex(heap)]
    ensures rest == Without(heap, MinIndex(heap))
  {
    var m := 0;
    for i := 1 to |heap|
      invariant m < i
      invariant m == MinIndex(heap[..i])
    {
      assert heap[..i + 1][..i] == heap[..i];
      if Before(heap[i], heap[m]) {
        m := i;
      }
    }
    assert heap[..|heap|] == heap;
    e, rest := heap[m], heap[..m] + heap[m + 1..];
  }

  lemma TallyAppend(cfg: Config, log: seq<Attempt>, a: Attempt)
    ensures forall c :: Tally(cfg, c, log + [a]) == Tally(cfg, c, log) + (if Counts(cfg, c, a) then 1 else 0)
    ensures Latencies(cfg, log + [a]) == Latencies(cfg, log)
            + (if Succeeded(cfg, a) then [a.done - a.ev.arrival] else [])
  {
    assert (log + [a])[..|log|] == log;
  }

  method Generate(cfg: Config) returns (heap: seq<Event>, seqNo: nat)
    requires cfg.Valid()
    ensures heap == Initial(cfg).heap && seqNo == Initial(cfg).nextSeq
  {
    heap, seqNo := [], 0;
    var t := 0;
    var interval := cfg.Interval();
    while t < cfg.duration
      invariant t == seqNo * interval
      invariant seqNo > 0 ==> (seqNo - 1) * interval < cfg.duration
      invariant heap == seq(seqNo, (k: nat) => Original(cfg, k))
      decreases cfg.duration - t
    {
      heap := heap + [Event(t, seqNo, cfg.maxRetries, seqNo % cfg.Levels())];
      seqNo := seqNo + 1;
      t := t + interval;
    }
    CeilingIsLeast(cfg.duration, interval, seqNo);
  }

  lemma CeilingIsLeast(d: nat, i: nat, k: nat)
    requires 1 <= i
    requires d <= k * i
    requires k > 0 ==> (k - 1) * i < d
    ensures k == (d + i - 1) / i
  {
    var q := (d + i - 1) / i;
    assert (q - 1) * i < d <= q * i;
    if k < q {
      MulMonotone(k, q - 1, i);
    } else {
      MulMonotone(q, k - 1, i);
    }
  }

  /** The mutable counters agree with the attempts so far. */
  ghost predicate Metered(cfg: Config, windows: array<Window>, perPriority: array<(nat, nat)>, latencies: seq<int>,
                          log: seq<Attempt>)
    reads windows, perPriority
  {
    WindowsMetered(cfg, windows, log) && PrioritiesMetered(cfg, perPriority, log) && latencies == Latencies(cfg, log)
  }

  ghost predicate WindowsMetered(cfg: Config, windows: array<Window>, log: seq<Attempt>)
    reads windows
  {
    && (forall w :: 0 <= w < windows.Length ==> windows[w].offered == Tally(cfg, Offered(w), log))
    && (forall w :: 0 <= w < windows.Length ==> windows[w].rejected == Tally(cfg, RejectedIn(w), log))
    && (forall w :: 0 <= w < windows.Length ==> windows[w].goodput == Tally(cfg, Goodput(w), log))
  }

  ghost predicate PrioritiesMetered(cfg: Config, perPriority: array<(nat, nat)>, log: seq<Attempt>)
    reads perPriority
  {
    && (forall p :: 0 <= p < perPriority.Length ==> perPriority[p].0 == Tally(cfg, Successes(p), log))
    && (forall p :: 0 <= p < perPriority.Length ==> perPriority[p].1 == Tally(cfg, Attempts(p), log))
  }

  method RecordWindows(cfg: Config, a: Attempt, windows: array<Window>, ghost log: seq<Attempt>)
    requires WindowsMetered(cfg, windows, log)
    modifies windows
    ensures WindowsMetered(cfg, windows, log + [a])
  {
    TallyAppend(cfg, log, a);
    var w := a.ev.arrival / SECOND;
    if w < windows.Length {
      windows[w] := windows[w].(offered := windows[w].offered + 1);
    }
    match a {
      case Rejected(_) =>
        if w < windows.Length {
          windows[w] := windows[w].(rejected := windows[w].rejected + 1);
        }
      case Served(_, _, _, done) =>
        var v := done / SECOND;
        if done - a.ev.arrival <= cfg.timeoutNs && v < windows.Length {
          windows[v] := windows[v].(goodput := windows[v].goodput + 1);
        }
    }
  }

  method RecordPriority(cfg: Config, a: Attempt, perPriority: array<(nat, nat)>, ghost log: seq<Attempt>)
    requires a.ev.prio < perPriority.Length && PrioritiesMetered(cfg, perPriority, log)
    modifies perPriority
    ensures PrioritiesMetered(cfg, perPriority, log + [a])
  {
    TallyAppend(cfg, log, a);
    var p := a.ev.prio;
    perPriority[p] := (perPriority[p].0, perPriority[p].1 + 1);
    if a.Served? && a.done - a.ev.arrival <= cfg.timeoutNs {
      perPriority[p] := (perPriority[p].0 + 1, perPriority[p].1);
    }
  }

  /** The counters that one attempt moves. */
  method Record(cfg: Config, a: Attempt, windows: array<Window>, perPriority: array<(nat, nat)>, latencies: seq<int>,
                ghost log: seq<Attempt>)
    returns (latencies': seq<int>)
    requires a.ev.prio < perPriority.Length
    requires Metered(cfg, windows, perPriority, latencies, log)
    modifies windows, perPriority
    ensures Metered(cfg, windows, perPriority, latencies', log + [a])
  {
    TallyAppend(cfg, log, a);
    RecordWindows(cfg, a, windows, log);
    RecordPriority(cfg, a, perPriority, log);
    latencies' := latencies;
    if a.Served? && a.done - a.ev.arrival <= cfg.timeoutNs {
      latencies' := latencies' + [a.done - a.ev.arrival];
    }
  }

  method Turn(cfg: Config, policy: Policy, s: State) returns (t: State, a: Attempt)
    requires s.heap != []
    ensures t == Pop(cfg, policy, s)
    ensures t.log == s.log + [a] && a.ev in s.heap
  {
    var e, rest := PopMin(s.heap);
    if !policy.admit(s.log, e.arrival, e.prio) {
      a := Rejected(e);
      t := State(rest, s.nextSeq, s.serverFree, s.log + [a]);
      return;
    }
    var start := if e.arrival < s.serverFree then s.serverFree else e.arrival;
    if cfg.outageStart <= start < cfg.outageStart + cfg.outageNs {
      start := cfg.outageStart + cfg.outageNs;
    }
    var done := start + cfg.serviceNs;
    a := Served(e, s.serverFree, start, done);
    t := State(rest, s.nextSeq, done, s.log + [a]);
    var latency := done - e.arrival;
    if latency > cfg.timeoutNs && e.retriesLeft > 0 && policy.allowRetry(t.log, e.arrival + cfg.timeoutNs) {
      var retry := Event(e.arrival + cfg.timeoutNs, t.nextSeq, e.retriesLeft - 1, e.prio);
      t := t.(heap := t.heap + [retry], nextSeq := t.nextSeq + 1);
    }
  }

  ghost predicate PrioritiesBelow(h: seq<Event>, levels: nat) {
    forall e <- h :: e.prio < levels
  }

  lemma PopKeepsPriorities(cfg: Config, policy: Policy, s: State, levels: nat)
    requires s.heap != [] && PrioritiesBelow(s.heap, levels)
    ensures PrioritiesBelow(Pop(cfg, policy, s).heap, levels)
  {
  }

  /** The loop goes through the turns of the state machine until the heap is empty. */
  method Play(cfg: Config, policy: Policy, s0: State, windows: array<Window>, perPriority: array<(nat, nat)>)
    returns (s: State, latencies: seq<int>)
    requires s0.log == [] && PrioritiesBelow(s0.heap, perPriority.Length)
    requires Metered(cfg, windows, perPriority, [], [])
    modifies windows, perPriority
    ensures s == After(cfg, policy, s0, |s.log|) && s.heap == []
    ensures Metered(cfg, windows, perPriority, latencies, s.log)
  {
    s, latencies := s0, [];
    while s.heap != []
      invariant s == After(cfg, policy, s0, |s.log|)
      invariant PrioritiesBelow(s.heap, perPriority.Length)
      invariant Metered(cfg, windows, perPriority, latencies, s.log)
      decreases Budget(s.heap)
    {
      BudgetDrops(cfg, policy, s);
      PopKeepsPriorities(cfg, policy, s, perPriority.Length);
      var t, a := Turn(cfg, policy, s);
      latencies := Record(cfg, a, windows, perPriority, latencies, s.log);
      s := t;
    }
  }

  // ---------------------------------------------------------------- every policy: order and capacity

  /** Pending events lie at or after the last popped one; nothing is popped out of order. */
  ghost predicate Ordered(cfg: Config, s: State) {
    && (forall i, j :: 0 <= i < j < |s.log| ==> s.log[i].ev.arrival <= s.log[j].ev.arrival)
    && (forall i, e :: 0 <= i < |s.log| && e in s.heap ==> s.log[i].ev.arrival <= e.arrival)
  }

  /** The server does one thing at a time and starts nothing during the outage. */
  ghost predicate OneAtATime(cfg: Config, s: State) {
    && (forall i, j :: 0 <= i < j < |s.log| && s.log[i].Served? && s.log[j].Served? ==>
          s.log[i].done <= s.log[j].freeBefore)
    && (forall i :: 0 <= i < |s.log| && s.log[i].Served? ==>
          && s.log[i].ev.arrival <= s.log[i].start && s.log[i].freeBefore <= s.log[i].start
          && s.log[i].done == s.log[i].start + cfg.serviceNs <= s.serverFree
          && !(cfg.outageStart <= s.log[i].start < cfg.outageStart + cfg.outageNs))
  }

  lemma PopKeepsOrder(cfg: Config, policy: Policy, s: State)
    requires s.heap != [] && Ordered(cfg, s)
    ensures Ordered(cfg, Pop(cfg, policy, s))
  {
    var e := s.heap[MinIndex(s.heap)];
    var t := Pop(cfg, policy, s);
    assert e in s.heap;
    forall x | x in s.heap ensures e.arrival <= x.arrival {
      MinIndexIsLeast(s.heap, x);
    }
    assert forall x <- t.heap :: x in s.heap || x.arrival == e.arrival + cfg.timeoutNs;
    assert forall x <- t.heap :: e.arrival <= x.arrival;
    assert |t.log| == |s.log| + 1 && t.log[..|s.log|] == s.log && t.log[|s.log|].ev == e;
  }

  lemma PopKeepsCapacity(cfg: Config, policy: Policy, s: State)
    requires s.heap != [] && OneAtATime(cfg, s)
    ensures OneAtATime(cfg, Pop(cfg, policy, s))
  {
    var t, n := Pop(cfg, policy, s), |s.log|;
    var a := t.log[n];
    assert t.log == s.log + [a];
    assert s.serverFree <= t.serverFree;
    if a.Served? {
      assert s.serverFree == a.freeBefore <= a.start && a.done == a.start + cfg.serviceNs == t.serverFree;
    }
    forall i, j | 0 <= i < j < |t.log| && t.log[i].Served? && t.log[j].Served?
      ensures t.log[i].done <= t.log[j].freeBefore
    {
      assert t.log[i] == s.log[i] && s.log[i].done <= s.serverFree;
    }
  }

  lemma {:induction false} EventsInOrder(cfg: Config, policy: Policy, s0: State, n: nat)
    requires s0.log == []
    ensures Ordered(cfg, After(cfg, policy, s0, n))
    ensures OneAtATime(cfg, After(cfg, policy, s0, n))
  {
    if n > 0 {
      EventsInOrder(cfg, policy, s0, n - 1);
      var s := After(cfg, policy, s0, n - 1);
      if s.heap != [] {
        PopKeepsOrder(cfg, policy, s);
        PopKeepsCapacity(cfg, policy, s);
      }
    }
  }

  // ---------------------------------------------------------------- originals leave in order

  /** Originals o, o+1, ... are still pending. */
  ghost predicate PendingFrom(cfg: Config, heap: seq<Event>, o: nat)
    requires cfg.Valid()
  {
    o <= cfg.Originals() && forall k :: o <= k < cfg.Originals() ==> Original(cfg, k) in heap
  }

  lemma NoneLeftAfterDuration(cfg: Config)
    requires cfg.Valid()
    ensures cfg.duration <= cfg.Originals() * cfg.Interval()
    ensures forall k :: 0 <= k < cfg.Originals() ==> k * cfg.Interval() < cfg.duration
  {
    var i, n := cfg.Interval(), cfg.Originals();
    RoundedUp(cfg.duration, i, n);
    forall k | 0 <= k < n ensures k * i < cfg.duration {
      MulMonotone(k, n - 1, i);
    }
  }

  lemma RoundedUp(d: nat, i: nat, n: nat)
    requires i >= 1 && n == (d + i - 1) / i
    ensures d <= n * i && (n > 0 ==> (n - 1) * i < d)
  {
    assert (n - 1) * i == n * i - i;
  }

  lemma StillThere(h: seq<Event>, i: nat, x: Event)
    requires i < |h| && x in h && x != h[i]
    ensures x in Without(h, i)
  {
    var j :| 0 <= j < |h| && h[j] == x;
    assert Without(h, i)[if j < i then j else j - 1] == x;
  }

  ghost function NextPending(cfg: Config, s: State, o: nat): nat
    requires cfg.Valid() && s.heap != []
  {
    if o < cfg.Originals() && s.heap[MinIndex(s.heap)] == Original(cfg, o) then o + 1 else o
  }

  /** An original that is not popped stays. */
  lemma OriginalStays(cfg: Config, policy: Policy, s: State, k: nat)
    requires cfg.Valid() && s.heap != [] && Original(cfg, k) in s.heap && s.heap[MinIndex(s.heap)] != Original(cfg, k)
    ensures Original(cfg, k) in Pop(cfg, policy, s).heap
  {
    StillThere(s.heap, MinIndex(s.heap), Original(cfg, k));
  }

  /** The k-th original comes before none that is earlier. */
  lemma OriginalsInOrder(cfg: Config, s: State, o: nat, k: nat)
    requires cfg.Valid() && s.heap != [] && o < k && Original(cfg, o) in s.heap
    ensures s.heap[MinIndex(s.heap)] != Original(cfg, k)
  {
    MinIndexIsLeast(s.heap, Original(cfg, o));
    MulMonotone(o + 1, k, cfg.Interval());
  }

  /** Originals leave the heap in order. */
  lemma PendingStep(cfg: Config, policy: Policy, s: State, o: nat)
    requires cfg.Valid() && s.heap != [] && PendingFrom(cfg, s.heap, o)
    ensures PendingFrom(cfg, Pop(cfg, policy, s).heap, NextPending(cfg, s, o))
    ensures o < cfg.Originals() ==> s.heap[MinIndex(s.heap)].arrival <= o * cfg.Interval()
  {
    if o < cfg.Originals() {
      MinIndexIsLeast(s.heap, Original(cfg, o));
    }
    forall k | NextPending(cfg, s, o) <= k < cfg.Originals()
      ensures Original(cfg, k) in Pop(cfg, policy, s).heap
    {
      if o < k {
        OriginalsInOrder(cfg, s, o, k);
      }
      OriginalStays(cfg, policy, s, k);
    }
  }

  /** Exactly the originals before o have left the heap, the last of them no later than the
      latest pop. */
  ghost predicate InStep(cfg: Config, s: State, o: nat)
    requires cfg.Valid()
  {
    && PendingFrom(cfg, s.heap, o)
    && (o > 0 ==> s.log != [] && (o - 1) * cfg.Interval() <= s.log[|s.log| - 1].ev.arrival)
  }

  lemma InStepStep(cfg: Config, policy: Policy, s: State, o: nat)
    requires cfg.Valid() && s.heap != [] && Ordered(cfg, s) && InStep(cfg, s, o)
    ensures InStep(cfg, Pop(cfg, policy, s), NextPending(cfg, s, o))
  {
    PendingStep(cfg, policy, s, o);
    var e, t := s.heap[MinIndex(s.heap)], Pop(cfg, policy, s);
    assert e in s.heap;
    assert t.log[|t.log| - 1].ev == e;
  }

  ghost predicate TimedOut(cfg: Config, a: Attempt) {
    a.Served? && a.done > a.ev.arrival + cfg.timeoutNs
  }

  /** The attempts a run has made after n turns. */
  ghost function LogAfter(cfg: Config, policy: Policy, n: nat): seq<Attempt>
    requires cfg.Valid()
  {
    After(cfg, policy, Initial(cfg), n).log
  }
}
