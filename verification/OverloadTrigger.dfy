module OverloadTrigger {
  // The other half of the metastability claim: a long enough outage tips the system, so
  // that the collapse follows from the configuration alone.

  import opened Overload
  import opened OverloadCollapse

  // ---------------------------------------------------------------- the run ends

  lemma BudgetAfter(cfg: Config, policy: Policy, s0: State, n: nat)
    ensures var s := After(cfg, policy, s0, n); s.heap == [] || Budget(s.heap) + n <= Budget(s0.heap)
  {
    var b := Budget(s0.heap);
    var inv := (s: State, k: nat) => s.heap == [] || Budget(s.heap) + k <= b;
    forall s, k: nat | inv(s, k) ensures inv(Next(cfg, policy, s), k + 1) {
      if s.heap != [] {
        BudgetDrops(cfg, policy, s);
      }
    }
    RunInduction(cfg, policy, s0, n, inv);
  }

  // ---------------------------------------------------------------- every original is tried

  ghost predicate Tried(log: seq<Attempt>, e: Event) {
    exists i :: 0 <= i < |log| && log[i].ev == e
  }

  /** Nothing leaves the heap without being tried, and without a policy nothing is rejected. */
  ghost predicate Kept(cfg: Config, s: State, e: Event) {
    && (e in s.heap || Tried(s.log, e))
    && forall i :: 0 <= i < |s.log| ==> s.log[i].Served?
  }

  lemma PopKeeps(cfg: Config, s: State, e: Event)
    requires s.heap != [] && Kept(cfg, s, e)
    ensures Kept(cfg, Pop(cfg, NoPolicy, s), e)
  {
    var m, t, n := MinIndex(s.heap), Pop(cfg, NoPolicy, s), |s.log|;
    assert t.log == s.log + [t.log[n]] && t.log[n].ev == s.heap[m];
    if Tried(s.log, e) {
      var i :| 0 <= i < n && s.log[i].ev == e;
      assert t.log[i].ev == e;
    } else if e == s.heap[m] {
      assert t.log[n].ev == e;
    } else {
      var i :| 0 <= i < |s.heap| && s.heap[i] == e;
      assert Without(s.heap, m)[if i < m then i else i - 1] == e;
    }
  }

  lemma KeptAfter(cfg: Config, k: nat, n: nat)
    requires cfg.Valid() && k < cfg.Originals()
    ensures Kept(cfg, After(cfg, NoPolicy, Initial(cfg), n), Original(cfg, k))
  {
    var e := Original(cfg, k);
    var inv := (s: State, _: nat) => Kept(cfg, s, e);
    assert Initial(cfg).heap[k] == e;
    forall s, i: nat | inv(s, i) ensures inv(Next(cfg, NoPolicy, s), i + 1) {
      if s.heap != [] {
        PopKeeps(cfg, s, e);
      }
    }
    RunInduction(cfg, NoPolicy, Initial(cfg), n, inv);
  }

  // ---------------------------------------------------------------- the trigger

  /** The outage lasts g / 2 + 1 timeouts and three arrival intervals, k is the first request to
      arrive in it, and at least one more arrives. */
  ghost predicate LargeTrigger(cfg: Config, g: nat, k: nat)
    requires cfg.Valid()
  {
    && cfg.outageStart <= k * cfg.Interval() < cfg.outageStart + cfg.Interval()
    && 2 * cfg.outageNs >= (g + 2) * cfg.timeoutNs + 6 * cfg.Interval()
    && k + 1 < cfg.Originals()
  }

  /** Request k is not started before the outage is over, and the next one is behind it. */
  lemma Behind(cfg: Config, log: seq<Attempt>, s: State, g: nat, k: nat, i: nat, j: nat)
    requires cfg.Valid() && LargeTrigger(cfg, g, k) && s.log == log && Ordered(cfg, s) && OneAtATime(cfg, s)
    requires i < |log| && j < |log| && log[i].Served? && log[j].Served?
    requires log[i].ev.arrival == k * cfg.Interval() && log[j].ev.arrival == k * cfg.Interval() + cfg.Interval()
    ensures Triggered(cfg, log, j, g)
  {
    assert i < j;
    assert log[i].done <= log[j].freeBefore;
  }

  lemma NextArrival(cfg: Config, k: nat)
    requires cfg.Valid()
    ensures Original(cfg, k).arrival == k * cfg.Interval()
    ensures Original(cfg, k + 1).arrival == k * cfg.Interval() + cfg.Interval()
  {
  }

  /** A large enough trigger tips the run, whatever the load: request k + 1 finds the server that
      far behind. */
  lemma LargeTriggerTips(cfg: Config, g: nat, k: nat) returns (n: nat, i: nat)
    requires cfg.Valid() && LargeTrigger(cfg, g, k)
    ensures After(cfg, NoPolicy, Initial(cfg), n).heap == []
    ensures Triggered(cfg, LogAfter(cfg, NoPolicy, n), i, g) && LogAfter(cfg, NoPolicy, n)[i].ev == Original(cfg, k + 1)
  {
    n := Budget(Initial(cfg).heap) + 1;
    BudgetAfter(cfg, NoPolicy, Initial(cfg), n);
    var s := After(cfg, NoPolicy, Initial(cfg), n);
    KeptAfter(cfg, k, n);
    KeptAfter(cfg, k + 1, n);
    EventsInOrder(cfg, NoPolicy, Initial(cfg), n);
    NextArrival(cfg, k);
    var j :| 0 <= j < |s.log| && s.log[j].ev == Original(cfg, k);
    i :| 0 <= i < |s.log| && s.log[i].ev == Original(cfg, k + 1);
    Behind(cfg, s.log, s, g, k, j, i);
  }

  /** The claim from the configuration alone: at or above hidden capacity and with a large trigger,
      request k + 1 and everything tried after it while load is offered times out, to the end of
      the run. */
  lemma LargeTriggerCollapses(cfg: Config, g: nat, k: nat) returns (n: nat, i: nat)
    requires cfg.Valid() && Overloaded(cfg, g) && LargeTrigger(cfg, g, k)
    ensures After(cfg, NoPolicy, Initial(cfg), n).heap == []
    ensures var log := LogAfter(cfg, NoPolicy, n);
            && i < |log| && log[i].ev == Original(cfg, k + 1)
            && forall j :: i <= j < |log| && log[j].ev.arrival < cfg.duration ==> TimedOut(cfg, log[j])
  {
    n, i := LargeTriggerTips(cfg, g, k);
    var log := LogAfter(cfg, NoPolicy, n);
    forall j | i <= j < |log| && log[j].ev.arrival < cfg.duration ensures TimedOut(cfg, log[j]) {
      MetastableCollapse(cfg, g, n, i, j);
    }
  }
}
