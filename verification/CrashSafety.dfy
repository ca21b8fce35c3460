module CrashSafety {
  // What recovery guarantees over every run and every tear.

  import opened Common
  import opened SimFs
  import opened Kv
  import opened KvModel

  // ---------------------------------------------------------------- encoded logs

  function Encode(log: seq<Rec>): (b: seq<Byte>)
    ensures |b| == 10 * |log|
  {
    if log == [] then [] else Record(log[0]) + Encode(log[1..])
  }

  lemma {:induction false} EncodeConcat(a: seq<Rec>, b: seq<Rec>)
    ensures Encode(a + b) == Encode(a) + Encode(b)
  {
    if a == [] {
      assert a + b == b;
    } else {
      assert (a + b)[1..] == a[1..] + b;
      EncodeConcat(a[1..], b);
    }
  }

  lemma EncodeOne(r: Rec)
    ensures Encode([r]) == Record(r)
  {
    assert [r][1..] == [];
  }

  /** Reading back a log that ends in less than one record. */
  lemma {:induction false} ParseEncoded(log: seq<Rec>, tail: seq<Byte>)
    requires |tail| < 10
    ensures Parse(Encode(log) + tail) == log
  {
    if log != [] {
      var bytes := Encode(log) + tail;
      RecordRoundTrip(log[0]);
      assert bytes[..10] == Record(log[0]);
      assert bytes[10..] == Encode(log[1..]) + tail;
      ParseEncoded(log[1..], tail);
    } else {
      assert Encode(log) + tail == tail;
    }
  }

  /** The records that survive a tear whole. */
  function Whole(b: seq<Rec>, torn: nat): (q: nat)
    ensures q <= |b|
  {
    if torn <= 10 * |b| then torn / 10 else |b|
  }

  /** A torn buffer is its whole records and less than one more. */
  lemma TornPrefix(b: seq<Rec>, torn: nat, q: nat) returns (tail: seq<Byte>)
    requires q == Whole(b, torn)
    ensures |tail| < 10 && Prefix(Encode(b), torn) == Encode(b[..q]) + tail
  {
    var t := if torn <= 10 * |b| then torn else 10 * |b|;
    assert b == b[..q] + b[q..];
    EncodeConcat(b[..q], b[q..]);
    tail := Encode(b[q..])[..t - 10 * q];
  }

  /** A torn log reads as the records that survived whole. */
  lemma ParseTorn(d: seq<Rec>, b: seq<Rec>, torn: nat) returns (q: nat)
    ensures q == Whole(b, torn)
    ensures Parse(Encode(d) + Prefix(Encode(b), torn)) == d + b[..q]
    ensures Prefix(Encode(d) + Prefix(Encode(b), torn), 10 * (|d| + q)) == Encode(d + b[..q])
  {
    q := Whole(b, torn);
    var tail := TornPrefix(b, torn, q);
    EncodeConcat(d, b[..q]);
    assert Encode(d) + Prefix(Encode(b), torn) == Encode(d + b[..q]) + tail;
    ParseEncoded(d + b[..q], tail);
  }

  // ---------------------------------------------------------------- batches

  /** A log with nothing after its last commit marker. */
  ghost predicate Closed(log: seq<Rec>) {
    Scan(log).batch == [] && Scan(log).good == |log|
  }

  /** The committed batches of a log, and the records of the batch still open. */
  function Batches(log: seq<Rec>): seq<seq<Rec>> {
    if log == [] then [] else
      var n := |log| - 1;
      if log[n].ty == 3 then Batches(log[..n]) + [OpenBatch(log[..n])] else Batches(log[..n])
  }

  function OpenBatch(log: seq<Rec>): seq<Rec> {
    if log == [] then [] else
      var n := |log| - 1;
      if log[n].ty == 3 then [] else OpenBatch(log[..n]) + [log[n]]
  }

  function ApplyBatches(m: Mem, bs: seq<seq<Rec>>): Mem {
    if bs == [] then m else ApplyAll(ApplyBatches(m, bs[..|bs| - 1]), bs[|bs| - 1])
  }

  /** Replaying a closed log followed by more records applies the batches of the rest. */
  lemma {:induction false} ScanAppends(d: seq<Rec>, b: seq<Rec>)
    requires Closed(d)
    ensures Scan(d + b).mem == ApplyBatches(Scan(d).mem, Batches(b))
    ensures Scan(d + b).batch == OpenBatch(b)
    ensures |d| <= Scan(d + b).good <= |d| + |b|
    ensures Batches(b) == [] ==> Scan(d + b).good == |d|
  {
    if b == [] {
      assert d + b == d;
    } else {
      var n := |b| - 1;
      assert (d + b)[..|d + b| - 1] == d + b[..n];
      ScanAppends(d, b[..n]);
      if b[n].ty == 3 {
        var bs := Batches(b);
        assert bs[..|bs| - 1] == Batches(b[..n]);
      }
    }
  }

  /** The good part of a log is closed and replays to the same map. */
  lemma {:induction false} GoodPartIsClosed(log: seq<Rec>)
    ensures var s := Scan(log); Closed(log[..s.good]) && Scan(log[..s.good]).mem == s.mem
  {
    if log != [] {
      var n := |log| - 1;
      GoodPartIsClosed(log[..n]);
      if log[n].ty == 3 {
        assert log[..|log|] == log;
      } else {
        assert log[..n][..Scan(log).good] == log[..Scan(log).good];
      }
    } else {
      assert log[..0] == [];
    }
  }

  lemma {:induction false} BatchesOfPrefix(b: seq<Rec>, q: nat)
    requires q <= |b|
    ensures Batches(b[..q]) <= Batches(b)
  {
    if q < |b| {
      BatchesOfPrefix(b[..|b| - 1], q);
      assert b[..|b| - 1][..q] == b[..q];
    } else {
      assert b[..q] == b;
    }
  }

  lemma PrefixEncoded(log: seq<Rec>, n: nat)
    requires n <= |log|
    ensures Prefix(Encode(log), 10 * n) == Encode(log[..n])
  {
    assert log == log[..n] + log[n..];
    EncodeConcat(log[..n], log[n..]);
  }

  ghost predicate Holds(s: Store, d: seq<Rec>, b: seq<Rec>) {
    s.disk == Disk(Encode(d), Encode(b)) && Closed(d)
  }

  /** What is left of a closed log d once the first q records of b came after it. */
  function Kept(d: seq<Rec>, b: seq<Rec>, q: nat): seq<Rec>
    requires q <= |b|
  {
    (d + b[..q])[..Scan(d + b[..q]).good]
  }

  lemma KeptIsClosed(d: seq<Rec>, b: seq<Rec>, q: nat)
    requires q <= |b| && Closed(d)
    ensures Closed(Kept(d, b, q)) && d <= Kept(d, b, q)
    ensures Scan(Kept(d, b, q)).mem == ApplyBatches(Scan(d).mem, Batches(b[..q]))
    ensures Batches(b[..q]) == [] ==> Kept(d, b, q) == d
  {
    ScanAppends(d, b[..q]);
    GoodPartIsClosed(d + b[..q]);
  }

  lemma TornBytes(d: seq<Rec>, b: seq<Rec>, torn: nat) returns (q: nat)
    ensures q <= |b| && q == (if torn <= 10 * |b| then torn / 10 else |b|)
    ensures var bytes := Encode(d) + Prefix(Encode(b), torn);
            Parse(bytes) == d + b[..q] && Prefix(bytes, 10 * Scan(d + b[..q]).good) == Encode(Kept(d, b, q))
  {
    q := ParseTorn(d, b, torn);
    var good := Scan(d + b[..q]).good;
    var bytes := Encode(d) + Prefix(Encode(b), torn);
    PrefixEncoded(d + b[..q], good);
    assert Prefix(bytes, 10 * good) == Prefix(Prefix(bytes, 10 * (|d| + q)), 10 * good);
  }

  /** Recovery after a crash that kept `torn` bytes of the buffered records b behind the
      closed log d: the q records that survived whole count as far as they form batches. */
  lemma RecoverTorn(bug: Bug, s: Store, d: seq<Rec>, b: seq<Rec>, torn: nat) returns (q: nat)
    requires (bug.NoBug? || bug.NoSyncOnCommit?) && Holds(s, d, b)
    ensures q <= |b| && q == (if torn <= 10 * |b| then torn / 10 else |b|)
    ensures var after := Step(bug, s, Crash, torn);
            after.disk == Disk(Encode(Kept(d, b, q)), []) && after.mem == ApplyBatches(Scan(d).mem, Batches(b[..q]))
  {
    q := TornBytes(d, b, torn);
    ScanAppends(d, b[..q]);
    CrashReads(bug, s, torn, Encode(d) + Prefix(Encode(b), torn), d + b[..q]);
  }

  /** What a crash makes of the bytes that survive and the log they parse to. */
  lemma CrashReads(bug: Bug, s: Store, torn: nat, bytes: seq<Byte>, log: seq<Rec>)
    requires bug.NoBug? || bug.NoSyncOnCommit?
    requires bytes == s.disk.synced + Prefix(s.disk.buffered, torn) && Parse(bytes) == log
    ensures Step(bug, s, Crash, torn) == Store(Scan(log).mem, Disk(Prefix(bytes, 10 * Scan(log).good), []))
  {
  }

  // ---------------------------------------------------------------- runs

  function RunStore(bug: Bug, ops: seq<Op>, torn: seq<nat>): Store
    requires |torn| == |ops|
  {
    RunFrom(bug, Store(map[], Disk([], [])), ops, torn)
  }

  function RunFrom(bug: Bug, s: Store, ops: seq<Op>, torn: seq<nat>): Store
    requires |torn| == |ops|
  {
    if ops == [] then s else
      var n := |ops| - 1;
      Step(bug, RunFrom(bug, s, ops[..n], torn[..n]), ops[n], torn[n])
  }

  function RunModel(ops: seq<Op>): Oracle {
    if ops == [] then Oracle(map[], []) else OracleStep(RunModel(ops[..|ops| - 1]), ops[|ops| - 1])
  }

  /** The records an operation writes. */
  function RecordOf(op: Op): Rec
    requires !op.Crash?
  {
    match op
    case Put(k, v) => Rec(1, k, v)
    case Delete(k) => Rec(2, k, 0)
    case Commit => Marker
  }

  /** The committed batches with their markers, and the records of the open batch. */
  datatype History = History(committed: seq<Rec>, open: seq<Rec>)

  function HistoryOf(ops: seq<Op>): History {
    if ops == [] then History([], []) else
      var n := |ops| - 1;
      var h := HistoryOf(ops[..n]);
      match ops[n]
      case Put(_, _) => h.(open := h.open + [RecordOf(ops[n])])
      case Delete(_) => h.(open := h.open + [RecordOf(ops[n])])
      case Commit => History(h.committed + h.open + [Marker], [])
      case Crash => h.(open := [])
  }

  function RecordOfChange(c: Change): Rec {
    match c.v
    case Some(v) => Rec(1, c.k, v)
    case None => Rec(2, c.k, 0)
  }

  ghost predicate SameBatch(cs: seq<Change>, batch: seq<Rec>) {
    |cs| == |batch| && forall i :: 0 <= i < |cs| ==> batch[i] == RecordOfChange(cs[i])
  }

  lemma {:induction false} NoMarker(cs: seq<Change>, batch: seq<Rec>)
    requires SameBatch(cs, batch)
    ensures Batches(batch) == [] && OpenBatch(batch) == batch
  {
    if cs != [] {
      NoMarker(cs[..|cs| - 1], batch[..|cs| - 1]);
      assert batch == batch[..|cs| - 1] + [batch[|cs| - 1]];
    }
  }

  lemma {:induction false} SameMap(m: Mem, cs: seq<Change>, batch: seq<Rec>)
    requires SameBatch(cs, batch)
    ensures ApplyChanges(m, cs) == ApplyAll(m, batch)
  {
    if cs != [] {
      SameMap(m, cs[..|cs| - 1], batch[..|cs| - 1]);
    }
  }

  lemma SameEffect(m: Mem, cs: seq<Change>, batch: seq<Rec>)
    requires SameBatch(cs, batch)
    ensures ApplyChanges(m, cs) == ApplyAll(m, batch)
    ensures Batches(batch) == [] && OpenBatch(batch) == batch
  {
    NoMarker(cs, batch);
    SameMap(m, cs, batch);
  }

  // ---------------------------------------------------------------- the correct store

  /** The disk holds exactly the committed batches, the write buffer exactly the open one. */
  ghost predicate OnDisk(d: Disk, h: History) {
    d == Disk(Encode(h.committed), Encode(h.open))
  }

  ghost predicate Expects(m: Oracle, h: History) {
    Closed(h.committed) && Scan(h.committed).mem == m.committed && SameBatch(m.pending, h.open)
  }

  ghost predicate Agrees(s: Store, m: Oracle, h: History) {
    OnDisk(s.disk, h) && Expects(m, h) && s.mem == ApplyChanges(m.committed, m.pending)
  }

  lemma AppendedOnDisk(d: Disk, h: History, r: Rec)
    requires OnDisk(d, h)
    ensures OnDisk(Appended(d, r), h.(open := h.open + [r]))
  {
    EncodeConcat(h.open, [r]);
    EncodeOne(r);
  }

  lemma SyncedOnDisk(d: Disk, h: History)
    requires OnDisk(d, h)
    ensures OnDisk(Disk(d.synced + d.buffered, []), History(h.committed + h.open, []))
  {
    EncodeConcat(h.committed, h.open);
  }

  lemma ChangesAppend(m: Mem, cs: seq<Change>, c: Change)
    ensures ApplyChanges(m, cs + [c]) == ApplyChange(ApplyChanges(m, cs), c)
  {
    assert (cs + [c])[..|cs|] == cs;
  }

  lemma PutAgrees(s: Store, m: Oracle, h: History, k: U32, v: U32, torn: nat)
    requires Agrees(s, m, h)
    ensures Agrees(Step(NoBug, s, Put(k, v), torn), OracleStep(m, Put(k, v)), h.(open := h.open + [Rec(1, k, v)]))
  {
    AppendedOnDisk(s.disk, h, Rec(1, k, v));
    ChangesAppend(m.committed, m.pending, Change(k, Some(v)));
  }

  lemma DeleteAgrees(s: Store, m: Oracle, h: History, k: U32, torn: nat)
    requires Agrees(s, m, h)
    ensures Agrees(Step(NoBug, s, Delete(k), torn), OracleStep(m, Delete(k)), h.(open := h.open + [Rec(2, k, 0)]))
  {
    AppendedOnDisk(s.disk, h, Rec(2, k, 0));
    ChangesAppend(m.committed, m.pending, Change(k, None));
  }

  lemma CommitExpects(m: Oracle, h: History)
    requires Expects(m, h)
    ensures Expects(OracleStep(m, Commit), History(h.committed + h.open + [Marker], []))
  {
    SameEffect(m.committed, m.pending, h.open);
    ScanAppends(h.committed, h.open);
    ScanNext(h.committed + h.open, Marker);
  }

  lemma CommitAgrees(s: Store, m: Oracle, h: History, torn: nat)
    requires Agrees(s, m, h)
    ensures Agrees(Step(NoBug, s, Commit, torn), OracleStep(m, Commit), History(h.committed + h.open + [Marker], []))
  {
    CommitExpects(m, h);
    AppendedOnDisk(s.disk, h, Marker);
    SyncedOnDisk(Appended(s.disk, Marker), h.(open := h.open + [Marker]));
    assert h.committed + (h.open + [Marker]) == h.committed + h.open + [Marker];
  }

  lemma OpenBatchIsDropped(m: Oracle, h: History, q: nat)
    requires Expects(m, h) && q <= |h.open|
    ensures Batches(h.open[..q]) == [] && Kept(h.committed, h.open, q) == h.committed
  {
    SameEffect(m.committed, m.pending[..q], h.open[..q]);
    KeptIsClosed(h.committed, h.open, q);
  }

  lemma CrashAgrees(s: Store, m: Oracle, h: History, torn: nat)
    requires Agrees(s, m, h)
    ensures Agrees(Step(NoBug, s, Crash, torn), OracleStep(m, Crash), h.(open := []))
    ensures Step(NoBug, s, Crash, torn).mem == m.committed
  {
    var q := RecoverTorn(NoBug, s, h.committed, h.open, torn);
    OpenBatchIsDropped(m, h, q);
  }

  lemma {:induction false} AgreesAlways(ops: seq<Op>, torn: seq<nat>)
    requires |torn| == |ops|
    ensures Agrees(RunStore(NoBug, ops, torn), RunModel(ops), HistoryOf(ops))
  {
    if ops != [] {
      var n := |ops| - 1;
      AgreesAlways(ops[..n], torn[..n]);
      var s, m, h := RunStore(NoBug, ops[..n], torn[..n]), RunModel(ops[..n]), HistoryOf(ops[..n]);
      match ops[n] {
        case Put(k, v) => PutAgrees(s, m, h, k, v, torn[n]);
        case Delete(k) => DeleteAgrees(s, m, h, k, torn[n]);
        case Commit => CommitAgrees(s, m, h, torn[n]);
        case Crash => CrashAgrees(s, m, h, torn[n]);
      }
    }
  }

  /** Crash refinement: for every sequence of operations and every tear, the store shows the
      committed state with the open batch on top, right after a crash exactly the oracle's
      expected state, and the disk holds exactly the encoded committed batches. */
  lemma CrashRefinement(ops: seq<Op>, torn: seq<nat>)
    requires |torn| == |ops|
    ensures var s, m := RunStore(NoBug, ops, torn), RunModel(ops);
            && s.mem == ApplyChanges(m.committed, m.pending)
            && (ops != [] && ops[|ops| - 1].Crash? ==> s.mem == m.committed)
            && s.disk.synced == Encode(HistoryOf(ops).committed)
            && s.disk.buffered == Encode(HistoryOf(ops).open)
  {
    AgreesAlways(ops, torn);
  }

  // ---------------------------------------------------------------- commit without sync

  ghost predicate NoCrash(ops: seq<Op>) {
    forall op <- ops :: !op.Crash?
  }

  /** The records written by operations that contain no crash. */
  function Written(ops: seq<Op>): seq<Rec>
    requires NoCrash(ops)
  {
    if ops == [] then [] else Written(ops[..|ops| - 1]) + [RecordOf(ops[|ops| - 1])]
  }

  /** A closed log that replays to `known` is on disk; b is what is buffered. */
  ghost predicate Recoverable(s: Store, known: Mem, b: seq<Rec>) {
    exists d :: Holds(s, d, b) && Scan(d).mem == known
  }

  lemma CrashIsAtomic(s: Store, known: Mem, b: seq<Rec>, torn: nat) returns (q: nat)
    requires Recoverable(s, known, b)
    ensures q <= |b| && q == (if torn <= 10 * |b| then torn / 10 else |b|)
    ensures var t := Step(NoSyncOnCommit, s, Crash, torn);
            t.mem == ApplyBatches(known, Batches(b[..q])) && Recoverable(t, t.mem, [])
  {
    var d :| Holds(s, d, b) && Scan(d).mem == known;
    q := RecoverTorn(NoSyncOnCommit, s, d, b, torn);
    KeptIsClosed(d, b, q);
  }

  lemma WriteIsBuffered(s: Store, known: Mem, b: seq<Rec>, op: Op, torn: nat)
    requires !op.Crash? && Recoverable(s, known, b)
    ensures Recoverable(Step(NoSyncOnCommit, s, op, torn), known, b + [RecordOf(op)])
  {
    var d :| Holds(s, d, b) && Scan(d).mem == known;
    EncodeConcat(b, [RecordOf(op)]);
    EncodeOne(RecordOf(op));
    assert Holds(Step(NoSyncOnCommit, s, op, torn), d, b + [RecordOf(op)]);
  }

  /** A store that has just started or just recovered. */
  ghost predicate AtRest(s: Store) {
    Recoverable(s, s.mem, [])
  }

  lemma StartsAtRest()
    ensures AtRest(Store(map[], Disk([], [])))
  {
    assert Holds(Store(map[], Disk([], [])), [], []);
  }

  /** Where the operations since the last crash start. */
  function Since(ops: seq<Op>): (k: nat)
    ensures k <= |ops| && NoCrash(ops[k..]) && (k > 0 ==> ops[k - 1].Crash?)
  {
    if ops == [] then 0 else
      var n := |ops| - 1;
      if ops[n].Crash? then |ops| else
        assert ops[Since(ops[..n])..] == ops[..n][Since(ops[..n])..] + [ops[n]];
        Since(ops[..n])
  }

  /** The store was at rest after the last crash, and b, written since, is buffered. */
  ghost predicate SinceCrash(last: Store, now: Store, b: seq<Rec>) {
    AtRest(last) && Recoverable(now, last.mem, b)
  }

  lemma CrashRests(last: Store, s: Store, b: seq<Rec>, torn: nat, t: Store)
    requires SinceCrash(last, s, b) && t == Step(NoSyncOnCommit, s, Crash, torn)
    ensures SinceCrash(t, t, [])
  {
    var q := CrashIsAtomic(s, last.mem, b, torn);
  }

  lemma WriteGoesOn(last: Store, s: Store, b: seq<Rec>, op: Op, torn: nat, t: Store)
    requires SinceCrash(last, s, b) && !op.Crash? && t == Step(NoSyncOnCommit, s, op, torn)
    ensures SinceCrash(last, t, b + [RecordOf(op)])
  {
    WriteIsBuffered(s, last.mem, b, op, torn);
  }

  lemma WrittenOn(ops: seq<Op>, n: nat, k: nat)
    requires |ops| == n + 1 && !ops[n].Crash? && k <= n && NoCrash(ops[k..]) && NoCrash(ops[..n][k..])
    ensures Written(ops[k..]) == Written(ops[..n][k..]) + [RecordOf(ops[n])]
  {
    assert ops[k..][..n - k] == ops[..n][k..];
  }

  lemma RunStep(s0: Store, ops: seq<Op>, torn: seq<nat>, n: nat)
    requires |torn| == |ops| == n + 1
    ensures RunFrom(NoSyncOnCommit, s0, ops, torn)
            == Step(NoSyncOnCommit, RunFrom(NoSyncOnCommit, s0, ops[..n], torn[..n]), ops[n], torn[n])
  {
  }

  lemma SincePrefix(ops: seq<Op>, torn: seq<nat>, n: nat)
    requires |torn| == |ops| == n + 1
    ensures ops[n].Crash? ==> Since(ops) == n + 1 && ops[..n + 1] == ops && torn[..n + 1] == torn && ops[n + 1..] == []
    ensures !ops[n].Crash? ==>
              var k := Since(ops); k == Since(ops[..n]) && ops[..n][..k] == ops[..k] && torn[..n][..k] == torn[..k]
  {
  }

  lemma {:induction false} RunsSinceCrash(s0: Store, ops: seq<Op>, torn: seq<nat>, k: nat)
    requires |torn| == |ops| && AtRest(s0) && k == Since(ops)
    ensures SinceCrash(RunFrom(NoSyncOnCommit, s0, ops[..k], torn[..k]), RunFrom(NoSyncOnCommit, s0, ops, torn),
                       Written(ops[k..]))
  {
    if ops != [] {
      var n := |ops| - 1;
      var was := Since(ops[..n]);
      var last := RunFrom(NoSyncOnCommit, s0, ops[..n][..was], torn[..n][..was]);
      var s, t := RunFrom(NoSyncOnCommit, s0, ops[..n], torn[..n]), RunFrom(NoSyncOnCommit, s0, ops, torn);
      RunsSinceCrash(s0, ops[..n], torn[..n], was);
      SincePrefix(ops, torn, n);
      RunStep(s0, ops, torn, n);
      if ops[n].Crash? {
        CrashRests(last, s, Written(ops[..n][was..]), torn[n], t);
      } else {
        WriteGoesOn(last, s, Written(ops[..n][was..]), ops[n], torn[n], t);
        WrittenOn(ops, n, k);
      }
    }
  }

  /** One crash: the store comes to rest with the first j batches of what was buffered. */
  lemma CrashKeepsPrefix(s: Store, known: Mem, b: seq<Rec>, torn: nat) returns (j: nat)
    requires Recoverable(s, known, b)
    ensures var after := Step(NoSyncOnCommit, s, Crash, torn);
            && AtRest(after) && j == |Batches(b[..Whole(b, torn)])| <= |Batches(b)|
            && after.mem == ApplyBatches(known, Batches(b)[..j])
  {
    var q := CrashIsAtomic(s, known, b, torn);
    BatchesOfPrefix(b, q);
    j := |Batches(b[..q])|;
    assert Batches(b)[..j] == Batches(b[..q]);
  }

  /** Every recovery of a run from a store at rest leads to a store at rest that shows the state
      after the previous recovery plus the first j of the batches committed since. */
  lemma AtomicFromRest(s0: Store, ops: seq<Op>, torn: seq<nat>, t: nat, k: nat, b: seq<Rec>, last: Store, after: Store)
    returns (j: nat)
    requires |torn| == |ops| && AtRest(s0) && k == Since(ops) && b == Written(ops[k..])
    requires last == RunFrom(NoSyncOnCommit, s0, ops[..k], torn[..k])
    requires after == Step(NoSyncOnCommit, RunFrom(NoSyncOnCommit, s0, ops, torn), Crash, t)
    ensures AtRest(last) && AtRest(after)
    ensures j == |Batches(b[..Whole(b, t)])| <= |Batches(b)|
    ensures after.mem == ApplyBatches(last.mem, Batches(b)[..j])
  {
    RunsSinceCrash(s0, ops, torn, k);
    j := CrashKeepsPrefix(RunFrom(NoSyncOnCommit, s0, ops, torn), last.mem, b, t);
  }

  lemma RunThenCrash(s0: Store, ops: seq<Op>, torn: seq<nat>, t: nat)
    requires |torn| == |ops|
    ensures RunFrom(NoSyncOnCommit, s0, ops + [Crash], torn + [t])
            == Step(NoSyncOnCommit, RunFrom(NoSyncOnCommit, s0, ops, torn), Crash, t)
  {
    assert (ops + [Crash])[..|ops|] == ops && (torn + [t])[..|torn|] == torn;
  }

  /** Without sync on commit, for every run and every tear: each recovery leads to a store at rest
      that shows the state after the previous recovery, or the empty start, plus the first j of
      the batches b committed since, j as many as survived whole. No batch is split, nothing
      uncommitted shows, and what was cut off cannot join a later batch. */
  lemma AtomicWithoutDurability(ops: seq<Op>, torn: seq<nat>, t: nat, k: nat, b: seq<Rec>) returns (j: nat)
    requires |torn| == |ops| && k == Since(ops) && b == Written(ops[k..])
    ensures var last := RunStore(NoSyncOnCommit, ops[..k], torn[..k]);
            var after := RunStore(NoSyncOnCommit, ops + [Crash], torn + [t]);
            && AtRest(last) && AtRest(after)
            && j == |Batches(b[..Whole(b, t)])| <= |Batches(b)|
            && after.mem == ApplyBatches(last.mem, Batches(b)[..j])
  {
    var s0 := Store(map[], Disk([], []));
    StartsAtRest();
    RunThenCrash(s0, ops, torn, t);
    j := AtomicFromRest(s0, ops, torn, t, k, b, RunStore(NoSyncOnCommit, ops[..k], torn[..k]),
                        RunStore(NoSyncOnCommit, ops + [Crash], torn + [t]));
  }

  /** Conversely every j can happen, zero included: commits are not durable at all. */
  lemma {:induction false} EveryPrefixPossible(b: seq<Rec>, j: nat) returns (t: nat)
    requires j <= |Batches(b)|
    ensures t <= 10 * |b| && |Batches(b[..t / 10])| == j
  {
    if j == |Batches(b)| {
      t := 10 * |b|;
      assert b[..|b|] == b;
    } else {
      t := EveryPrefixPossible(b[..|b| - 1], j);
      assert b[..|b| - 1][..t / 10] == b[..t / 10];
    }
  }
}
