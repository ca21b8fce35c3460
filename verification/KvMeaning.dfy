module KvMeaning {
  // What the log's bytes say, and what the state after a run is, both told without the functions
  // that write the one and compute the other.

  import opened Common
  import opened SimFs
  import opened Kv
  import opened KvModel
  import opened CrashSafety

  // ---------------------------------------------------------------- bytes

  /** Four bytes from position `at`, the low digit of x to the base 256 first. */
  predicate Digits(b: seq<Byte>, at: nat, x: U32)
    requires at + 4 <= |b|
  {
    && b[at] as U32 == x % 256 && b[at + 1] as U32 == x / 256 % 256
    && b[at + 2] as U32 == x / 65536 % 256 && b[at + 3] as U32 == x / 16777216
  }

  /** The exclusive or of all the bytes. */
  function Parity(b: seq<Byte>): Byte {
    if b == [] then 0 else b[0] ^ Parity(b[1..])
  }

  predicate Sealed(b: seq<Byte>) {
    |b| == 10 && Parity(b) == 0xA5
  }

  /** The record of an operation of type ty on key k with value v. */
  predicate Says(b: seq<Byte>, ty: Byte, k: U32, v: U32) {
    Sealed(b) && b[0] == ty && Digits(b, 1, k) && Digits(b, 5, v)
  }

  lemma DigitsOf(x: U32)
    ensures Digits(ToLe(x), 0, x)
  {
  }

  lemma Associates(x: Byte, y: Byte, z: Byte)
    ensures x ^ (y ^ z) == (x ^ y) ^ z
  {
  }

  lemma {:induction false} ParityLast(b: seq<Byte>, x: Byte)
    ensures Parity(b + [x]) == Parity(b) ^ x
  {
    if b == [] {
      assert [x][1..] == [];
    } else {
      assert (b + [x])[1..] == b[1..] + [x];
      ParityLast(b[1..], x);
      Associates(b[0], Parity(b[1..]), x);
    }
  }

  lemma {:induction false} XorIsParity(b: seq<Byte>)
    ensures Xor(b) == Parity(b)
  {
    if b != [] {
      var n := |b| - 1;
      XorIsParity(b[..n]);
      ParityLast(b[..n], b[n]);
      assert b == b[..n] + [b[n]];
    }
  }

  lemma SealMoves(x: Byte, y: Byte)
    ensures x ^ y == 0xA5 <==> y == x ^ 0xA5
  {
  }

  /** A chunk passes the check of its reader exactly if it is sealed. */
  lemma IntactIsSealed(b: seq<Byte>)
    ensures Intact(b) <==> Sealed(b)
  {
    if |b| == 10 {
      XorIsParity(b[..9]);
      ParityLast(b[..9], b[9]);
      assert b == b[..9] + [b[9]];
      SealMoves(Parity(b[..9]), b[9]);
    }
  }

  /** What is written for an operation says so. */
  lemma RecordSays(r: Rec)
    ensures Says(Record(r), r.ty, r.k, r.v)
  {
    RecordRoundTrip(r);
    IntactIsSealed(Record(r));
    DigitsOf(r.k);
    DigitsOf(r.v);
    var b, k, v := Record(r), ToLe(r.k), ToLe(r.v);
    assert b[1] == k[0] && b[2] == k[1] && b[3] == k[2] && b[4] == k[3];
    assert b[5] == v[0] && b[6] == v[1] && b[7] == v[2] && b[8] == v[3];
  }

  /** Ten bytes that say so join the write buffer. */
  ghost predicate Buffers(d: Disk, d': Disk, ty: Byte, k: U32, v: U32) {
    exists b :: Says(b, ty, k, v) && d' == Disk(d.synced, d.buffered + b)
  }

  /** Ten bytes that say so join what was buffered, and all of it becomes durable. */
  ghost predicate Flushes(d: Disk, d': Disk, ty: Byte, k: U32, v: U32) {
    exists b :: Says(b, ty, k, v) && d' == Disk(d.synced + d.buffered + b, [])
  }

  lemma Regroup(a: seq<Byte>, b: seq<Byte>, c: seq<Byte>)
    ensures a + (b + c) == a + b + c
  {
  }

  /** What each operation writes, in each bug setting. */
  lemma StepWrites(bug: Bug, s: Store, op: Op, torn: nat)
    ensures var d, d' := s.disk, Step(bug, s, op, torn).disk;
            match op
            case Put(k, v) => Buffers(d, d', 1, k, v)
            case Delete(k) => if bug == LostDelete then d' == d else Buffers(d, d', 2, k, 0)
            case Commit => if bug == NoSyncOnCommit then Buffers(d, d', 3, 0, 0) else Flushes(d, d', 3, 0, 0)
            case Crash => d'.buffered == [] && d'.synced <= d.synced + d.buffered
  {
    match op {
      case Put(k, v) => RecordSays(Rec(1, k, v));
      case Delete(k) => RecordSays(Rec(2, k, 0));
      case Commit =>
        RecordSays(Marker);
        Regroup(s.disk.synced, s.disk.buffered, Record(Marker));
      case Crash =>
    }
  }

  // ---------------------------------------------------------------- what becomes of a write

  datatype Fate = Open | Durable | Lost

  /** The first commit after a write makes it durable, the first crash loses it. */
  function Fated(after: seq<Op>): Fate {
    if after == [] then Open
    else if after[0].Commit? then Durable
    else if after[0].Crash? then Lost
    else Fated(after[1..])
  }

  function FateOf(ops: seq<Op>, i: nat): Fate
    requires i < |ops|
  {
    Fated(ops[i + 1..])
  }

  /** Is the i-th operation a write of k? */
  predicate Writes(ops: seq<Op>, i: nat, k: U32) {
    i < |ops| && ((ops[i].Put? || ops[i].Delete?) && ops[i].k == k)
  }

  /** Does it count? */
  predicate Counts(ops: seq<Op>, i: nat, k: U32, open: bool) {
    Writes(ops, i, k) && (FateOf(ops, i) == Durable || (open && FateOf(ops, i) == Open))
  }

  ghost predicate LastCounts(ops: seq<Op>, i: nat, k: U32, open: bool) {
    Counts(ops, i, k, open) && forall j: nat :: j > i ==> !Counts(ops, j, k, open)
  }

  /** m maps k to v, or has no k. */
  ghost predicate Holds(m: Mem, k: U32, v: Option<U32>) {
    match v
    case Some(x) => (k, x) in m.Items
    case None => k !in m
  }

  function Written(op: Op): Option<U32> {
    if op.Put? then Some(op.v) else None
  }

  /** m holds under k what the last write that counts wrote: nothing if that is a delete, or if there
      is none. */
  ghost predicate Reads(m: Mem, ops: seq<Op>, k: U32, open: bool) {
    || (exists i: nat :: LastCounts(ops, i, k, open) && Holds(m, k, Written(ops[i])))
    || (Holds(m, k, None) && forall i: nat :: !Counts(ops, i, k, open))
  }

  function Then(f: Fate, op: Op): Fate {
    if !f.Open? then f else if op.Commit? then Durable else if op.Crash? then Lost else Open
  }

  lemma {:induction false} FatedThen(after: seq<Op>, op: Op)
    ensures Fated(after + [op]) == Then(Fated(after), op)
  {
    if after == [] {
      assert [op][1..] == [];
    } else {
      assert (after + [op])[1..] == after[1..] + [op];
      FatedThen(after[1..], op);
    }
  }

  lemma FateNext(ops: seq<Op>, op: Op, i: nat)
    requires i <= |ops|
    ensures FateOf(ops + [op], i) == if i < |ops| then Then(FateOf(ops, i), op) else Open
  {
    if i < |ops| {
      FatedThen(ops[i + 1..], op);
      assert (ops + [op])[i + 1..] == ops[i + 1..] + [op];
    }
  }

  /** Which writes count after one more operation. */
  lemma CountsNext(ops: seq<Op>, op: Op, i: nat, k: U32, open: bool)
    ensures Counts(ops + [op], i, k, open)
         == if i == |ops| then Writes(ops + [op], i, k) && open
            else Counts(ops, i, k, if op.Commit? then true else if op.Crash? then false else open)
  {
    if i <= |ops| {
      FateNext(ops, op, i);
    }
  }

  ghost predicate SameAt(m: Mem, m': Mem, k: U32) {
    forall v :: Holds(m, k, v) ==> Holds(m', k, v)
  }

  /** An operation that does not write k changes what counts only as a commit or a crash does. */
  lemma SameReads(m: Mem, m': Mem, ops: seq<Op>, op: Op, k: U32, open: bool, before: bool)
    requires Reads(m, ops, k, before) && SameAt(m, m', k)
    requires before == if op.Commit? then true else if op.Crash? then false else open
    requires !open || !Writes(ops + [op], |ops|, k)
    ensures Reads(m', ops + [op], k, open)
  {
    forall i: nat ensures Counts(ops + [op], i, k, open) == Counts(ops, i, k, before) {
      CountsNext(ops, op, i, k, open);
    }
    if i: nat :| LastCounts(ops, i, k, before) && Holds(m, k, Written(ops[i])) {
      assert (ops + [op])[i] == ops[i];
      assert LastCounts(ops + [op], i, k, open);
    }
  }

  lemma NewReads(m: Mem, ops: seq<Op>, op: Op, k: U32)
    requires Writes(ops + [op], |ops|, k) && Holds(m, k, Written(op))
    ensures Reads(m, ops + [op], k, true)
  {
    CountsNext(ops, op, |ops|, k, true);
    assert LastCounts(ops + [op], |ops|, k, true) && (ops + [op])[|ops|] == op;
  }

  /** The oracle's expected state holds what the last durable writes wrote; with the pending changes on
      top, what the last writes not lost wrote. */
  lemma {:induction false} OracleReads(ops: seq<Op>, k: U32)
    ensures Reads(RunModel(ops).committed, ops, k, false)
    ensures Reads(ApplyChanges(RunModel(ops).committed, RunModel(ops).pending), ops, k, true)
  {
    if ops != [] {
      var n := |ops| - 1;
      var before, op := ops[..n], ops[n];
      OracleReads(before, k);
      assert ops == before + [op];
      OracleReadsNext(before, op, k);
      var m := RunModel(ops);
      assert m == OracleStep(RunModel(before), op);
      assert Reads(m.committed, ops, k, false) && Reads(ApplyChanges(m.committed, m.pending), ops, k, true);
    } else {
      assert RunModel(ops) == Oracle(map[], []);
      assert ApplyChanges(map[], RunModel(ops).pending) == map[];
      assert Reads(map[], ops, k, false) && Reads(map[], ops, k, true);
    }
  }

  lemma ChangeHolds(m: Mem, c: Change, k: U32)
    ensures if c.k == k then Holds(ApplyChange(m, c), k, c.v) else SameAt(m, ApplyChange(m, c), k)
  {
    match c.v
    case Some(v) =>
    case None =>
  }

  lemma OracleReadsNext(ops: seq<Op>, op: Op, k: U32)
    requires Reads(RunModel(ops).committed, ops, k, false)
    requires Reads(ApplyChanges(RunModel(ops).committed, RunModel(ops).pending), ops, k, true)
    ensures var m := OracleStep(RunModel(ops), op);
            Reads(m.committed, ops + [op], k, false) && Reads(ApplyChanges(m.committed, m.pending), ops + [op], k, true)
  {
    var m, m' := RunModel(ops), OracleStep(RunModel(ops), op);
    var full, full' := ApplyChanges(m.committed, m.pending), ApplyChanges(m'.committed, m'.pending);
    SameReads(if op.Commit? then full else m.committed, m'.committed, ops, op, k, false, op.Commit?);
    if op.Put? || op.Delete? {
      var c := Change(op.k, Written(op));
      ChangesAppend(m.committed, m.pending, c);
      ChangeHolds(full, c, k);
      assert m'.pending == m.pending + [c] && (ops + [op])[|ops|] == op;
      if op.k == k {
        NewReads(full', ops, op, k);
      } else {
        SameReads(full, full', ops, op, k, true, true);
      }
    } else {
      SameReads(if op.Commit? then full else m.committed, full', ops, op, k, true, op.Commit?);
    }
  }

  /** Whatever is torn off by its crashes, the store without a bug reads under every key what the last
      write of it that no crash lost wrote; after a crash, what the last durable one wrote. */
  lemma StoreReads(ops: seq<Op>, torn: seq<nat>, k: U32)
    requires |torn| == |ops|
    ensures Reads(RunStore(NoBug, ops, torn).mem, ops, k, true)
    ensures ops != [] && ops[|ops| - 1].Crash? ==> Reads(RunStore(NoBug, ops, torn).mem, ops, k, false)
  {
    CrashRefinement(ops, torn);
    OracleReads(ops, k);
  }
}
