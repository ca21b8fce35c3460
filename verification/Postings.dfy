/** Posting-list compression: varints, and full blocks of 128 postings bit-packed at the width
    of their largest value. */
module Postings {
  import opened Common
  import opened BitMath

  const BLOCK: nat := 128

  datatype Posting = Posting(doc: nat, tf: nat)

  // ---------------------------------------------------------------- varints

  function Varint(v: nat): (b: seq<Byte>)
    ensures b != []
  {
    if v < 0x80 then [v] else [v % 0x80 + 0x80] + Varint(v / 0x80)
  }

  lemma TopBit(x: nat, h: nat, b: nat)
    requires x < 0x80 && h <= 1 && b == x + h * 0x80
    ensures BitOr(b, 0x80) == x + 0x80
  {
    Pow2Byte();
    OrAbove(x, h, 1, 7);
    assert BitOr(0, 1) == 1 && BitOr(1, 1) == 1;
  }

  lemma LowByteParts(v: nat)
    ensures v % 256 == v % 0x80 + (v / 0x80 % 2) * 0x80
  {
  }

  /** Setting the top bit of the low byte. */
  lemma ContinuationByte(v: nat)
    ensures BitOr(v % 256, 0x80) == v % 0x80 + 0x80
  {
    LowByteParts(v);
    TopBit(v % 0x80, v / 0x80 % 2, v % 256);
  }

  method PutVarint(out: seq<Byte>, v: nat) returns (out': seq<Byte>)
    ensures out' == out + Varint(v)
  {
    var x := v;
    out' := out;
    while x >= 0x80
      invariant out' + Varint(x) == out + Varint(v)
      decreases x
    {
      ContinuationByte(x);
      out' := out' + [BitOr(x % 256, 0x80)];
      x := x / 0x80;
    }
    out' := out' + [x];
  }

  /** The number encoded at the head of a buffer and where it ends, if its last byte is
      there; further bytes each add seven bits. */
  function ReadVarint(buf: seq<Byte>): (r: (nat, nat))
    requires Terminated(buf)
    ensures 1 <= r.1 <= |buf|
  {
    assert buf == [buf[0]] + buf[1..];
    if buf[0] < 0x80 then (buf[0], 1) else
      var r := ReadVarint(buf[1..]);
      (buf[0] - 0x80 + 0x80 * r.0, r.1 + 1)
  }

  lemma {:induction false} ReadVarintBack(v: nat, rest: seq<Byte>)
    ensures Terminated(Varint(v) + rest)
    ensures ReadVarint(Varint(v) + rest) == (v, |Varint(v)|)
  {
    var buf := Varint(v) + rest;
    if v >= 0x80 {
      ReadVarintBack(v / 0x80, rest);
      assert buf[1..] == Varint(v / 0x80) + rest;
      var b :| b in buf[1..] && b < 0x80;
      assert b in buf;
    } else {
      assert buf[0] == v && buf[0] in buf;
    }
  }

  predicate Terminated(buf: seq<Byte>) {
    exists b <- buf :: b < 0x80
  }

  /** `x << s` on 32-bit and 64-bit words: bits shifted past the top are lost. */
  function Shl32(x: nat, s: nat): nat {
    x * Pow2(s) % Pow2(32)
  }

  function Shl64(x: nat, s: nat): nat {
    x * Pow2(s) % Pow2(64)
  }

  lemma MaskSeven(b: Byte, p: nat, m: nat)
    requires p == Pow2(7) == 0x80 && m == p - 1
    ensures BitAnd(b, m) == (if b < 0x80 then b else b - 0x80)
  {
    AndMask(b, 7);
  }

  lemma SevenBits(b: Byte)
    ensures BitAnd(b, 0x7F) == (if b < 0x80 then b else b - 0x80)
  {
    Pow2Byte();
    MaskSeven(b, 0x80, 0x7F);
  }

  /** Shifting x by a factor p in a word of p * m keeps x modulo m. */
  lemma WordShift(x: nat, p: nat, m: nat, w: nat, q: nat, r: nat, v: nat)
    requires w == p * m && x == q * m + r && r < m && v < p
    ensures x * p % w == r * p && (v + p * x) % w == v + r * p
  {
    FieldBelow(p, m, v, r);
    FieldBelow(p, m, 0, r);
    NonNegative(p, r);
    assert x * p == q * w + r * p;
    ModUnique(x * p, w, q, r * p);
    ModUnique(v + p * x, w, q, v + r * p);
  }

  /** Or-ing x in above the `shift` bits read so far adds it, modulo the word. */
  lemma OrIntoWord(v: nat, x: nat, shift: nat, word: nat)
    requires v < Pow2(shift) && shift <= word
    ensures BitOr(v, x * Pow2(shift) % Pow2(word)) == (v + Pow2(shift) * x) % Pow2(word)
  {
    var p, m, w := Pow2(shift), Pow2(word - shift), Pow2(word);
    Pow2Sum(shift, word - shift, word);
    var q, r := DivMod(x, m);
    WordShift(x, p, m, w, q, r, v);
    OrDisjoint(v, r, shift);
  }

  lemma DivMod(x: nat, m: nat) returns (q: nat, r: nat)
    requires m >= 1
    ensures x == q * m + r && r < m
  {
    q, r := x / m, x % m;
  }

  /** The first four groups of seven bits fit. */
  lemma NextSeven(v: nat, x: nat, rest: nat, shift: nat, total: nat)
    requires v < Pow2(shift) && x < 0x80 && shift <= 21
    requires v + Pow2(shift) * (x + 0x80 * rest) == total
    ensures 0 <= v + Pow2(shift) * x < Pow2(shift + 7) <= Pow2(32)
    ensures v + Pow2(shift) * x + Pow2(shift + 7) * rest == total
  {
    var p := Pow2(shift);
    Pow2Values();
    Pow2Sum(shift, 7, shift + 7);
    Pow2Monotone(shift + 7, 32);
    Distribute(p, 0x80, x, rest);
    FieldBelow(p, 0x80, v, x);
    NonNegative(p, x);
  }

  /** The number being read is v plus what the rest of the buffer still encodes above it. */
  ghost predicate Reading(rest: seq<Byte>, pos: nat, shift: nat, v: nat, total: nat, end: nat) {
    && Terminated(rest) && v < Pow2(shift)
    && v + Scaled(ReadVarint(rest).0, shift) == total && pos + ReadVarint(rest).1 == end
  }

  /** The first byte of a number, and the rest. */
  lemma ReadHead(rest: seq<Byte>, b: Byte)
    requires Terminated(rest) && rest != [] && b == rest[0]
    ensures b < 0x80 ==> ReadVarint(rest) == (b, 1)
    ensures b >= 0x80 ==>
            Terminated(rest[1..]) && ReadVarint(rest) == (b - 0x80 + 0x80 * ReadVarint(rest[1..]).0,
              ReadVarint(rest[1..]).1 + 1)
  {
    if b >= 0x80 {
      var t :| t in rest && t < 0x80;
      assert rest == [b] + rest[1..];
    }
  }

  lemma NotEmpty(rest: seq<Byte>)
    requires Terminated(rest)
    ensures rest != []
  {
  }

  /** What is left to read above the first byte: its seven bits and the rest. */
  ghost function Above(rest: seq<Byte>): nat
    requires Terminated(rest) && rest != []
  {
    ReadHead(rest, rest[0]);
    if rest[0] < 0x80 then 0 else ReadVarint(rest[1..]).0
  }

  lemma AboveIs(rest: seq<Byte>, x: nat)
    requires Terminated(rest) && rest != [] && x == (if rest[0] < 0x80 then rest[0] else rest[0] - 0x80)
    ensures x < 0x80 && ReadVarint(rest).0 == x + 0x80 * Above(rest)
  {
    ReadHead(rest, rest[0]);
  }

  /** Seven bits have been added: the number is complete, or the rest follows. */
  lemma ReadOn(rest: seq<Byte>, pos: nat, shift: nat, v: nat, total: nat, end: nat, v': nat)
    requires Reading(rest, pos, shift, v, total, end) && rest != []
    requires v' < Pow2(shift + 7) && v' + Scaled(Above(rest), shift + 7) == total
    ensures rest[0] < 0x80 ==> v' == total && pos + 1 == end
    ensures rest[0] >= 0x80 ==> Reading(rest[1..], pos + 1, shift + 7, v', total, end)
  {
    ReadHead(rest, rest[0]);
    ScaledIs(Above(rest), shift + 7);
  }

  /** Or-ing in the seven bits of the next byte adds them, modulo the word. */
  method OrSeven(v: nat, b: Byte, shift: nat, ghost x: nat) returns (v': nat)
    requires v < Pow2(shift) && x == (if b < 0x80 then b else b - 0x80) && shift <= 28
    ensures v' == (v + Scaled(x, shift)) % WORD32
  {
    Word32Is();
    ScaledIs(x, shift);
    SevenBits(b);
    OrIntoWord(v, x, shift, 32);
    v' := BitOr(v, Shl32(BitAnd(b, 0x7F), shift));
  }

  /** While they fit, nothing is lost. */
  lemma SevenFit(v: nat, x: nat, rest: nat, left: nat, shift: nat, total: nat, v': nat)
    requires v < Pow2(shift) && x < 0x80 && shift <= 21 && left == x + 0x80 * rest
    requires v + Scaled(left, shift) == total && v' == (v + Scaled(x, shift)) % WORD32
    ensures v' < Pow2(shift + 7) && v' + Scaled(rest, shift + 7) == total
  {
    Word32Is();
    ScaledIs(left, shift);
    ScaledIs(x, shift);
    ScaledIs(rest, shift + 7);
    NextSeven(v, x, rest, shift, total);
    SmallMod(v + Scaled(x, shift), WORD32);
  }

  /** The last byte completes the number. */
  lemma LastSeven(rest: seq<Byte>, pos: nat, shift: nat, v: nat, total: nat, end: nat, b: Byte)
    requires Reading(rest, pos, shift, v, total, end) && rest != [] && b == rest[0] < 0x80
    ensures v + Scaled(b, shift) == total && pos + 1 == end
  {
    ReadHead(rest, b);
  }

  /** Any other byte leaves more to read. */
  lemma MoreSeven(rest: seq<Byte>, pos: nat, shift: nat, v: nat, total: nat, end: nat, b: Byte, x: nat, v': nat)
    requires Reading(rest, pos, shift, v, total, end) && rest != [] && b == rest[0] >= 0x80 && x == b - 0x80
    requires v' == (v + Scaled(x, shift)) % WORD32 && end <= pos + 5 - shift / 7 && shift % 7 == 0
    ensures Reading(rest[1..], pos + 1, shift + 7, v', total, end)
  {
    AboveIs(rest, x);
    ReadHead(rest, b);
    SevenFit(v, x, Above(rest), ReadVarint(rest).0, shift, total, v');
    ReadOn(rest, pos, shift, v, total, end, v');
  }

  /** Reads one number of at most five bytes; bits past the 32nd are lost. */
  method GetVarint(buf: seq<Byte>, pos: nat) returns (v: nat, pos': nat)
    requires pos <= |buf| && Terminated(buf[pos..]) && ReadVarint(buf[pos..]).1 <= 5
    ensures v == ReadVarint(buf[pos..]).0 % WORD32 && pos' == pos + ReadVarint(buf[pos..]).1
  {
    var shift: nat := 0;
    v, pos' := 0, pos;
    ghost var rest, total, end := buf[pos..], ReadVarint(buf[pos..]).0, pos + ReadVarint(buf[pos..]).1;
    while true
      invariant pos' <= |buf| && rest == buf[pos'..] && Reading(rest, pos', shift, v, total, end)
      invariant shift == 7 * (pos' - pos)
      decreases |buf| - pos'
    {
      NotEmpty(rest);
      var b := buf[pos'];
      ghost var x: nat := if b < 0x80 then b else b - 0x80;
      var v' := OrSeven(v, b, shift, x);
      if b < 0x80 {
        LastSeven(rest, pos', shift, v, total, end, b);
        return v', pos' + 1;
      }
      MoreSeven(rest, pos', shift, v, total, end, b, x, v');
      v, pos', rest := v', pos' + 1, rest[1..];
      shift := shift + 7;
    }
  }

  lemma {:induction false} VarintLength(v: nat, n: nat)
    requires v < Pow2(7 * n) && 1 <= n
    ensures |Varint(v)| <= n
  {
    Pow2Byte();
    if v >= 0x80 {
      Pow2Add(7, 7 * (n - 1));
      VarintLength(v / 0x80, n - 1);
    }
  }

  // ---------------------------------------------------------------- bit packing

  /** Bytes that n fields of w bits take. */
  function PackedLength(w: nat, n: nat): nat {
    (w * n + 7) / 8
  }

  /** The packed form of values of w bits each: their fields as one little-endian number. */
  function Packed(vals: seq<nat>, w: nat): (b: seq<Byte>)
    ensures |b| == PackedLength(w, |vals|)
  {
    ToBytes(Fields(vals, w), PackedLength(w, |vals|))
  }

  /** Adding a field above the pending bits: nothing is lost to the 64-bit accumulator. */
  lemma Accumulate(acc: nat, v: nat, bits: nat, w: nat)
    requires acc < Pow2(bits) && v < Pow2(w) && bits < 8 && w <= 32
    ensures BitOr(acc, Shl64(v, bits)) == acc + Pow2(bits) * v < Pow2(bits + w)
  {
    Pow2Add(bits, w);
    Pow2Monotone(bits + w, 64);
    NonNegative(Pow2(bits), v);
    FieldBelow(Pow2(bits), Pow2(w), acc, v);
    OrShifted(acc, v, bits, 64);
  }

  lemma LowByte(acc: nat, bits: nat)
    requires acc < Pow2(bits) && 8 <= bits
    ensures acc / 256 < Pow2(bits - 8)
  {
    Pow2Byte();
    Pow2Add(8, bits - 8);
  }

  /** What `Pack` has written and still holds is the number it has read. */
  ghost predicate Flowing(done: seq<Byte>, acc: nat, bits: nat, total: nat, size: nat) {
    && acc < Pow2(bits) && size == 8 * |done| + bits
    && FromBytes(done) + Pow2(8 * |done|) * acc == total
  }

  lemma Emit(done: seq<Byte>, acc: nat, bits: nat, total: nat, size: nat)
    requires Flowing(done, acc, bits, total, size) && 8 <= bits
    ensures Flowing(done + [acc % 256], acc / 256, bits - 8, total, size)
  {
    FromBytesConcat(done, [acc % 256]);
    assert FromBytes([acc % 256]) == acc % 256;
    LowByte(acc, bits);
    Pow2Byte();
    Pow2Add(8 * |done|, 8);
    var p := Pow2(8 * |done|);
    assert p * acc == p * (acc % 256) + (p * 256) * (acc / 256) by {
      Distribute(p, 256, acc % 256, acc / 256);
    }
  }

  lemma TakeBits(done: seq<Byte>, acc: nat, bits: nat, total: nat, size: nat, v: nat, w: nat)
    requires Flowing(done, acc, bits, total, size)
    requires v < Pow2(w) && bits < 8 && w <= 32
    ensures 0 <= Pow2(size) * v
    ensures Flowing(done, BitOr(acc, Shl64(v, bits)), bits + w, total + Pow2(size) * v, size + w)
  {
    Accumulate(acc, v, bits, w);
    Pow2Sum(8 * |done|, bits, size);
    NonNegative(Pow2(size), v);
    Lift(FromBytes(done), Pow2(8 * |done|), Pow2(bits), Pow2(size), acc, BitOr(acc, Shl64(v, bits)), v, total);
  }

  ghost predicate Packing(done: seq<Byte>, acc: nat, bits: nat, vals: seq<nat>, w: nat) {
    0 <= w * |vals| && Flowing(done, acc, bits, Fields(vals, w), w * |vals|)
  }

  lemma Take(done: seq<Byte>, acc: nat, bits: nat, vals: seq<nat>, w: nat, v: nat)
    requires Packing(done, acc, bits, vals, w)
    requires v < Pow2(w) && bits < 8 && w <= 32
    ensures Packing(done, BitOr(acc, Shl64(v, bits)), bits + w, vals + [v], w)
  {
    TakeBits(done, acc, bits, Fields(vals, w), w * |vals|, v, w);
    FieldsAppend(vals, w, v);
    MulOneMore(w, |vals| + 1);
  }

  lemma EmitByte(done: seq<Byte>, acc: nat, bits: nat, vals: seq<nat>, w: nat)
    requires Packing(done, acc, bits, vals, w) && 8 <= bits
    ensures Packing(done + [acc % 256], acc / 256, bits - 8, vals, w)
  {
    Emit(done, acc, bits, Fields(vals, w), w * |vals|);
  }

  lemma Flushed(done: seq<Byte>, acc: nat, bits: nat, vals: seq<nat>, w: nat)
    requires Packing(done, acc, bits, vals, w) && bits < 8
    ensures bits == 0 ==> done == Packed(vals, w)
    ensures bits > 0 ==> acc < 256 && done + [acc] == Packed(vals, w)
  {
    Pow2Byte();
    Pow2Monotone(bits, 8);
    if bits == 0 {
      ToFromBytes(done);
    } else {
      FromBytesConcat(done, [acc]);
      assert FromBytes([acc]) == acc;
      ToFromBytes(done + [acc]);
    }
  }

  method Pack(vals: seq<nat>, w: nat, out: seq<Byte>) returns (out': seq<Byte>)
    requires w <= 32 && Fit(vals, w)
    ensures out' == out + Packed(vals, w)
  {
    var acc: nat, bits: nat := 0, 0;
    ghost var done: seq<Byte> := [];
    out' := out;
    for i := 0 to |vals|
      invariant out' == out + done && bits < 8
      invariant Packing(done, acc, bits, vals[..i], w)
    {
      assert vals[i] in vals;
      assert vals[..i + 1] == vals[..i] + [vals[i]];
      Take(done, acc, bits, vals[..i], w, vals[i]);
      acc := BitOr(acc, Shl64(vals[i], bits));
      bits := bits + w;
      out', acc, bits, done := Drain(vals[..i + 1], w, acc, bits, done, out, out');
    }
    assert vals[..|vals|] == vals;
    out' := Finish(vals, w, acc, bits, done, out, out');
  }

  /** Writes out the whole bytes pending. */
  method Drain(ghost vals: seq<nat>, ghost w: nat, acc0: nat, bits0: nat, ghost done0: seq<Byte>,
               ghost out: seq<Byte>, so: seq<Byte>)
    returns (out': seq<Byte>, acc: nat, bits: nat, ghost done: seq<Byte>)
    requires so == out + done0 && Packing(done0, acc0, bits0, vals, w)
    ensures out' == out + done && bits < 8 && Packing(done, acc, bits, vals, w)
  {
    out', acc, bits, done := so, acc0, bits0, done0;
    while bits >= 8
      invariant out' == out + done && Packing(done, acc, bits, vals, w)
    {
      EmitByte(done, acc, bits, vals, w);
      done := done + [acc % 256];
      out' := out' + [acc % 256];
      acc := acc / 256;
      bits := bits - 8;
    }
  }

  /** Writes out the bits still pending. */
  method Finish(ghost vals: seq<nat>, ghost w: nat, acc: nat, bits: nat, ghost done: seq<Byte>, ghost out: seq<Byte>,
                so: seq<Byte>)
    returns (out': seq<Byte>)
    requires so == out + done && bits < 8 && Packing(done, acc, bits, vals, w)
    ensures out' == out + Packed(vals, w)
  {
    Flushed(done, acc, bits, vals, w);
    out' := so;
    if bits > 0 {
      out' := out' + [acc % 256];
    }
  }

  // ---------------------------------------------------------------- unpacking

  /** What `Unpack` has produced, still holds and has not read yet is the packed number. */
  ghost predicate Unpacking(buf: seq<Byte>, w: nat, vals: seq<nat>, acc: nat, bits: nat, pos: nat) {
    && pos <= |buf| && Fit(vals, w) && acc < Pow2(bits)
    && 0 <= w * |vals| && 8 * pos == w * |vals| + bits
    && FromBytes(buf) == Fields(vals, w) + Pow2(w * |vals|) * (acc + Pow2(bits) * FromBytes(buf[pos..]))
  }

  lemma LoadNumber(acc: nat, b: Byte, bits: nat, rest: nat)
    requires acc < Pow2(bits) && bits < 32
    ensures BitOr(acc, Shl64(b, bits)) == acc + Pow2(bits) * b < Pow2(bits + 8)
    ensures acc + Pow2(bits) * (b + 256 * rest) == BitOr(acc, Shl64(b, bits)) + Pow2(bits + 8) * rest
  {
    Pow2Values();
    Pow2Sum(bits, 8, bits + 8);
    Pow2Monotone(bits + 8, 64);
    NonNegative(Pow2(bits), b);
    FieldBelow(Pow2(bits), 256, acc, b);
    OrShifted(acc, b, bits, 64);
    Distribute(Pow2(bits), 256, b, rest);
  }

  lemma Load(buf: seq<Byte>, w: nat, vals: seq<nat>, acc: nat, bits: nat, pos: nat)
    requires Unpacking(buf, w, vals, acc, bits, pos) && pos < |buf| && bits < 32
    ensures Unpacking(buf, w, vals, BitOr(acc, Shl64(buf[pos], bits)), bits + 8, pos + 1)
  {
    assert buf[pos..][1..] == buf[pos + 1..];
    LoadNumber(acc, buf[pos], bits, FromBytes(buf[pos + 1..]));
  }

  lemma ExtractNumber(f: nat, p: nat, q: nat, b: nat, acc: nat, rest: nat)
    requires 1 <= q
    ensures f + p * (acc + (q * b) * rest) == (f + p * (acc % q)) + (p * q) * (acc / q + b * rest)
  {
    var lo, hi := acc % q, acc / q;
    assert acc == lo + q * hi;
    assert (q * b) * rest == q * (b * rest);
    Distribute(p, q, lo, hi + b * rest);
    assert q * (hi + b * rest) == q * hi + q * (b * rest);
  }

  lemma QuotientBelow(acc: nat, q: nat, b: nat)
    requires 1 <= q && acc < q * b
    ensures 0 <= acc / q < b
  {
    if acc / q >= b {
      MulMonotone(b, acc / q, q);
    }
  }

  lemma ExtractFields(buf: seq<Byte>, w: nat, vals: seq<nat>, acc: nat, bits: nat, pos: nat, v: nat)
    requires Unpacking(buf, w, vals, acc, bits, pos) && w <= bits && v == acc % Pow2(w)
    ensures 0 <= acc / Pow2(w) < Pow2(bits - w)
    ensures 0 <= w * |vals + [v]| == w * |vals| + w
    ensures FromBytes(buf) == Fields(vals + [v], w)
              + Pow2(w * |vals + [v]|) * (acc / Pow2(w) + Pow2(bits - w) * FromBytes(buf[pos..]))
  {
    FieldsAppend(vals, w, v);
    MulOneMore(w, |vals| + 1);
    Pow2Sum(w * |vals|, w, w * (|vals| + 1));
    Pow2Sum(w, bits - w, bits);
    QuotientBelow(acc, Pow2(w), Pow2(bits - w));
    ExtractNumber(Fields(vals, w), Pow2(w * |vals|), Pow2(w), Pow2(bits - w), acc, FromBytes(buf[pos..]));
  }

  lemma Extract(buf: seq<Byte>, w: nat, vals: seq<nat>, acc: nat, bits: nat, pos: nat)
    requires Unpacking(buf, w, vals, acc, bits, pos) && w <= bits
    ensures BitAnd(acc, Pow2(w) - 1) < Pow2(w) && 0 <= acc / Pow2(w)
    ensures Unpacking(buf, w, vals + [BitAnd(acc, Pow2(w) - 1)], acc / Pow2(w), bits - w, pos)
  {
    AndMask(acc, w);
    ExtractFields(buf, w, vals, acc, bits, pos, BitAnd(acc, Pow2(w) - 1));
  }

  lemma InBuffer(w: nat, i: nat, n: nat, bits: nat, pos: nat, size: nat)
    requires i < n && bits < w && 8 * pos == w * i + bits && PackedLength(w, n) <= size
    ensures pos < size
  {
    MulOneMore(w, i + 1);
    MulMonotone(i + 1, n, w);
  }

  lemma LowPart(low: nat, m: nat, high: nat)
    requires low < m
    ensures (low + m * high) % m == low
  {
    ModUnique(low + m * high, m, high, low);
  }

  lemma Unpacked(buf: seq<Byte>, w: nat, vals: seq<nat>, acc: nat, bits: nat, pos: nat)
    requires Unpacking(buf, w, vals, acc, bits, pos)
    ensures Fit(vals, w) && 0 <= w * |vals| && FromBytes(buf) % Pow2(w * |vals|) == Fields(vals, w)
  {
    FieldsBound(vals, w);
    NonNegative(Pow2(bits), FromBytes(buf[pos..]));
    LowPart(Fields(vals, w), Pow2(w * |vals|), acc + Pow2(bits) * FromBytes(buf[pos..]));
  }

  /** Loads bytes until a whole field is there. */
  method Refill(buf: seq<Byte>, w: nat, n: nat, ghost vals: seq<nat>, acc: nat, bits: nat, pos: nat)
    returns (acc': nat, bits': nat, pos': nat)
    requires w <= 32 && PackedLength(w, n) <= |buf| && |vals| < n && bits < 8
    requires Unpacking(buf, w, vals, acc, bits, pos)
    ensures Unpacking(buf, w, vals, acc', bits', pos') && w <= bits' < w + 8
  {
    acc', bits', pos' := acc, bits, pos;
    while bits' < w
      invariant bits' < w + 8
      invariant Unpacking(buf, w, vals, acc', bits', pos')
      decreases w - bits'
    {
      InBuffer(w, |vals|, n, bits', pos', |buf|);
      Load(buf, w, vals, acc', bits', pos');
      acc' := BitOr(acc', Shl64(buf[pos'], bits'));
      pos' := pos' + 1;
      bits' := bits' + 8;
    }
  }

  lemma Unread(buf: seq<Byte>, w: nat)
    ensures Unpacking(buf, w, [], 0, 0, 0)
  {
    assert buf[0..] == buf;
  }

  /** Reads n fields of w bits: they make up the low w * n bits of the buffer's number. */
  method Unpack(buf: seq<Byte>, w: nat, n: nat) returns (vals: seq<nat>, used: nat)
    requires w <= 32 && PackedLength(w, n) <= |buf|
    ensures |vals| == n && used == PackedLength(w, n)
    ensures Fit(vals, w) && 0 <= w * |vals| && FromBytes(buf) % Pow2(w * |vals|) == Fields(vals, w)
  {
    used := PackedLength(w, n);
    var acc: nat, bits: nat, pos: nat := 0, 0, 0;
    var mask := if w == 0 then 0 else Pow2(w) - 1;
    vals := [];
    Unread(buf, w);
    for i := 0 to n
      invariant |vals| == i && bits < 8
      invariant Unpacking(buf, w, vals, acc, bits, pos)
    {
      acc, bits, pos := Refill(buf, w, n, vals, acc, bits, pos);
      Extract(buf, w, vals, acc, bits, pos);
      vals := vals + [BitAnd(acc, mask)];
      acc := acc / Pow2(w);
      bits := bits - w;
    }
    Unpacked(buf, w, vals, acc, bits, pos);
  }

  lemma PackedLow(vals: seq<nat>, w: nat, rest: seq<Byte>)
    requires Fit(vals, w)
    ensures 0 <= w * |vals| && FromBytes(Packed(vals, w) + rest) % Pow2(w * |vals|) == Fields(vals, w)
  {
    NonNegative(w, |vals|);
    var bits: nat, len := w * |vals|, PackedLength(w, |vals|);
    FieldsBound(vals, w);
    Pow2Monotone(bits, 8 * len);
    FromToBytes(Fields(vals, w), len);
    FromBytesConcat(Packed(vals, w), rest);
    Pow2Sum(bits, 8 * len - bits, 8 * len);
    NonNegative(Pow2(8 * len - bits), FromBytes(rest));
    Reassociate(Pow2(bits), Pow2(8 * len - bits), FromBytes(rest));
    LowPart(Fields(vals, w), Pow2(bits), Pow2(8 * len - bits) * FromBytes(rest));
  }

  /** Unpacking what was packed gives it back, whatever follows in the buffer. */
  lemma UnpackPacked(vals: seq<nat>, w: nat, rest: seq<Byte>, got: seq<nat>)
    requires Fit(vals, w) && Fit(got, w) && |got| == |vals|
    requires 0 <= w * |got| && FromBytes(Packed(vals, w) + rest) % Pow2(w * |got|) == Fields(got, w)
    ensures got == vals
  {
    PackedLow(vals, w, rest);
    FieldsInjective(vals, got, w);
  }
}
