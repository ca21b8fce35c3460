/** The WAL format and the WAL-backed store: ten-byte records `[type][key][value][checksum]`,
    a batch counts once its commit marker is readable, recovery replays whole batches and
    cuts the rest of the log off. */
module Kv {
  import opened SimFs

  type U32 = bv32

  datatype Op = Put(k: U32, v: U32) | Delete(k: U32) | Commit | Crash

  datatype Bug = NoBug | LostDelete | NoSyncOnCommit | TornWriteAccepted | StaleRead

  // ---------------------------------------------------------------- records

  datatype Rec = Rec(ty: Byte, k: U32, v: U32)

  const Marker: Rec := Rec(3, 0, 0)

  function ToLe(x: U32): (b: seq<Byte>)
    ensures |b| == 4
  {
    [(x & 0xFF) as Byte, ((x >> 8) & 0xFF) as Byte, ((x >> 16) & 0xFF) as Byte, ((x >> 24) & 0xFF) as Byte]
  }

  function FromLe(b: seq<Byte>): U32
    requires |b| == 4
  {
    (b[0] as U32) | ((b[1] as U32) << 8) | ((b[2] as U32) << 16) | ((b[3] as U32) << 24)
  }

  lemma LeRoundTrip(x: U32)
    ensures FromLe(ToLe(x)) == x
  {
  }

  function Xor(bytes: seq<Byte>): Byte {
    if bytes == [] then 0 else Xor(bytes[..|bytes| - 1]) ^ bytes[|bytes| - 1]
  }

  function Checksum(body: seq<Byte>): Byte {
    Xor(body) ^ 0xA5
  }

  function Record(r: Rec): (b: seq<Byte>)
    ensures |b| == 10
  {
    var body := [r.ty] + ToLe(r.k) + ToLe(r.v);
    body + [Checksum(body)]
  }

  predicate Intact(chunk: seq<Byte>) {
    |chunk| == 10 && chunk[9] == Checksum(chunk[..9])
  }

  function Decode(chunk: seq<Byte>): Rec
    requires |chunk| == 10
  {
    Rec(chunk[0], FromLe(chunk[1..5]), FromLe(chunk[5..9]))
  }

  lemma RecordRoundTrip(r: Rec)
    ensures Intact(Record(r)) && Decode(Record(r)) == r
  {
    var b := Record(r);
    var body := [r.ty] + ToLe(r.k) + ToLe(r.v);
    assert b[..9] == body && b[1..5] == ToLe(r.k) && b[5..9] == ToLe(r.v);
    LeRoundTrip(r.k);
    LeRoundTrip(r.v);
  }

  /** The records a reader gets before the first torn or corrupt chunk. */
  function Parse(bytes: seq<Byte>): seq<Rec> {
    if |bytes| < 10 || !Intact(bytes[..10]) then [] else [Decode(bytes[..10])] + Parse(bytes[10..])
  }

  // ---------------------------------------------------------------- replay

  type Mem = map<U32, U32>

  function ApplyOne(m: Mem, r: Rec): Mem {
    if r.ty == 1 then m[r.k := r.v] else m - {r.k}
  }

  function ApplyAll(m: Mem, batch: seq<Rec>): Mem {
    if batch == [] then m else ApplyOne(ApplyAll(m, batch[..|batch| - 1]), batch[|batch| - 1])
  }

  /** The replay state: the map so far, the open batch, and how many records are good. */
  datatype Scanned = Scanned(mem: Mem, batch: seq<Rec>, good: nat)

  function Scan(log: seq<Rec>): (s: Scanned)
    ensures s.good <= |log|
  {
    if log == [] then Scanned(map[], [], 0) else
      var s := Scan(log[..|log| - 1]);
      var r := log[|log| - 1];
      if r.ty == 3 then Scanned(ApplyAll(s.mem, s.batch), [], |log|)
      else s.(batch := s.batch + [r])
  }

  // ---------------------------------------------------------------- the store as a state machine

  datatype Store = Store(mem: Mem, disk: Disk)

  function Recovered(bug: Bug, s: Store): Store {
    if bug.StaleRead? then s else
      var r := Scan(Parse(s.disk.synced));
      Store(if bug.TornWriteAccepted? then ApplyAll(r.mem, r.batch) else r.mem,
            Disk(Prefix(s.disk.synced, 10 * r.good), s.disk.buffered))
  }

  function Appended(d: Disk, r: Rec): Disk {
    Disk(d.synced, d.buffered + Record(r))
  }

  function Step(bug: Bug, s: Store, op: Op, torn: nat): Store {
    match op
    case Put(k, v) => Store(s.mem[k := v], Appended(s.disk, Rec(1, k, v)))
    case Delete(k) => Store(s.mem - {k}, if bug.LostDelete? then s.disk else Appended(s.disk, Rec(2, k, 0)))
    case Commit =>
      var d := Appended(s.disk, Marker);
      Store(s.mem, if bug.NoSyncOnCommit? then d else Disk(d.synced + d.buffered, []))
    case Crash => Recovered(bug, Store(s.mem, Disk(s.disk.synced + Prefix(s.disk.buffered, torn), [])))
  }

  class KvStore {
    const bug: Bug
    const wal: SimFile
    var mem: Mem

    function View(): Store
      reads this, wal
    {
      Store(mem, wal.View())
    }

    constructor (bug: Bug)
      ensures View() == Store(map[], Disk([], [])) && this.bug == bug && fresh(wal)
    {
      this.bug := bug;
      wal := new SimFile();
      mem := map[];
    }

    method Apply(op: Op, torn: nat)
      modifies this, wal
      ensures View() == Step(bug, old(View()), op, torn)
    {
      match op {
        case Put(k, v) =>
          wal.Append(Record(Rec(1, k, v)));
          mem := mem[k := v];
        case Delete(k) =>
          if bug != LostDelete {
            wal.Append(Record(Rec(2, k, 0)));
          }
          mem := mem - {k};
        case Commit =>
          wal.Append(Record(Marker));
          if bug != NoSyncOnCommit {
            wal.Sync();
          }
        case Crash =>
          wal.Crash(torn);
          Recover();
      }
    }

    method Replay(batch: seq<Rec>)
      modifies this
      ensures mem == ApplyAll(old(mem), batch)
    {
      for i := 0 to |batch|
        invariant mem == ApplyAll(old(mem), batch[..i])
      {
        assert batch[..i + 1][..i] == batch[..i];
        if batch[i].ty == 1 {
          mem := mem[batch[i].k := batch[i].v];
        } else {
          mem := mem - {batch[i].k};
        }
      }
      assert batch[..|batch|] == batch;
    }

    /** Rebuilds `mem` from the readable records; the open batch and the length of the log up
        to the last commit marker are handed back. */
    method ReplayLog(durable: seq<Byte>) returns (batch: seq<Rec>, lastGood: nat)
      modifies this
      ensures Scan(Parse(durable)) == Scanned(mem, batch, lastGood / 10) && lastGood % 10 == 0
    {
      mem := map[];
      batch, lastGood := [], 0;
      var i: nat := 0;
      ghost var log: seq<Rec> := [];
      while 10 * i < |durable|
        invariant 10 * i <= |durable|
        invariant |log| == i && Parse(durable) == log + Parse(durable[10 * i..])
        invariant Scan(log) == Scanned(mem, batch, lastGood / 10) && lastGood % 10 == 0
        decreases |durable| - 10 * i
      {
        var chunk := Prefix(durable[10 * i..], 10);
        ParseNext(durable, i, log);
        if |chunk| < 10 || chunk[9] != Checksum(chunk[..9]) {
          return;
        }
        var r := Decode(chunk);
        ScanNext(log, r);
        log := log + [r];
        if r.ty == 3 {
          Replay(batch);
          batch := [];
          lastGood := (i + 1) * 10;
        } else {
          batch := batch + [r];
        }
        i := i + 1;
      }
      assert durable[10 * i..] == [] && log + [] == log;
    }

    method Recover()
      modifies this, wal
      ensures View() == Recovered(bug, old(View()))
    {
      if bug == StaleRead {
        return;
      }
      var batch, lastGood := ReplayLog(wal.synced);
      wal.Truncate(lastGood);
      if bug == TornWriteAccepted {
        Replay(batch);
      }
    }
  }

  lemma ScanNext(log: seq<Rec>, r: Rec)
    ensures var s := Scan(log);
            Scan(log + [r]) == if r.ty == 3 then Scanned(ApplyAll(s.mem, s.batch), [], |log| + 1)
              else s.(batch := s.batch + [r])
  {
    assert (log + [r])[..|log|] == log;
  }

  lemma ParseNext(bytes: seq<Byte>, i: nat, log: seq<Rec>)
    requires 10 * i < |bytes| && Parse(bytes) == log + Parse(bytes[10 * i..])
    ensures var chunk := Prefix(bytes[10 * i..], 10);
            if Intact(chunk) then 10 * i + 10 <= |bytes|
              && Parse(bytes) == (log + [Decode(chunk)]) + Parse(bytes[10 * (i + 1)..])
            else Parse(bytes) == log
  {
    var rest := bytes[10 * i..];
    if Intact(Prefix(rest, 10)) {
      assert rest[10..] == bytes[10 * (i + 1)..];
      assert rest[..10] == Prefix(rest, 10);
    }
  }
}
