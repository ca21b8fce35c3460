/** ALP: a vector of doubles as decimals. The float arithmetic stays opaque: `enc` and `dec`
    are arbitrary functions on bit patterns, and whatever they do, values they do not bring
    back bit for bit are patched, so the codec is lossless. */
module Alp {
  import opened Common
  import opened BitMath

  const VECTOR: nat := 1024
  const SAMPLES: nat := 32
  const MAX_E: nat := 18
  const HEADER_BYTES: nat := 13
  const EXCEPTION_BYTES: nat := 10

  const TWO63: int := 0x8000_0000_0000_0000
  const TWO64: int := 0x1_0000_0000_0000_0000
  const U16: nat := 0x1_0000

  /** A double as its bit pattern, and a signed 64-bit integer. */
  type F64 = x: int | 0 <= x < 0x1_0000_0000_0000_0000
  type I64 = x: int | -0x8000_0000_0000_0000 <= x < 0x8000_0000_0000_0000

  datatype Arith = Arith(enc: (F64, nat, nat) -> I64, dec: (I64, nat, nat) -> F64)

  /** Does (e, f) bring v back? */
  predicate Exact(a: Arith, v: F64, e: nat, f: nat) {
    a.dec(a.enc(v, e, f), e, f) == v
  }

  /** `x.wrapping_sub(y) as u64` and `x.wrapping_add(y as i64)` */
  function Diff(x: int, y: int): (d: nat)
    ensures d < TWO64
  {
    (x - y) % TWO64
  }

  function WrapAdd(x: I64, y: nat): I64 {
    (x + y + TWO63) % TWO64 - TWO63
  }

  lemma WrapBack(d: I64, base: I64)
    ensures WrapAdd(base, Diff(d, base)) == d
  {
    var k := (d - base) / TWO64;
    assert Diff(d, base) == d - base - k * TWO64;
  }

  datatype Vector =
    | Packed(e: nat, f: nat, bitWidth: nat, base: I64, n: nat, packed: seq<Byte>, excVals: seq<F64>, excPos: seq<nat>)
    | Raw(vals: seq<F64>)
  {
    /** Stored size: packed integers, exceptions and header; or a sentinel and the raw values. */
    function Bytes(): nat {
      match this
      case Packed(_, _, bitWidth, _, n, _, excVals, _) =>
        (n * bitWidth + 7) / 8 + |excVals| * EXCEPTION_BYTES + HEADER_BYTES
      case Raw(vals) => 1 + 8 * |vals|
    }
  }

  // ---------------------------------------------------------------- choosing (e, f)

  /** Every step-th value. */
  function StepBy(vs: seq<F64>, step: nat): (s: seq<F64>)
    requires step >= 1
    decreases |vs|
  {
    if vs == [] then [] else [vs[0]] + (if step < |vs| then StepBy(vs[step..], step) else [])
  }

  function Sample(vs: seq<F64>): seq<F64> {
    StepBy(vs, if |vs| / SAMPLES < 1 then 1 else |vs| / SAMPLES)
  }

  /** The exactly encoded values among the sample, as integers. */
  function Hits(a: Arith, s: seq<F64>, e: nat, f: nat): seq<I64> {
    if s == [] then [] else
      var v := s[|s| - 1];
      Hits(a, s[..|s| - 1], e, f) + (if Exact(a, v, e, f) then [a.enc(v, e, f)] else [])
  }

  function Lowest(ds: seq<I64>): I64 {
    if ds == [] then 0x7FFF_FFFF_FFFF_FFFF else
      var l := Lowest(ds[..|ds| - 1]);
      if ds[|ds| - 1] < l then ds[|ds| - 1] else l
  }

  function Highest(ds: seq<I64>): I64 {
    if ds == [] then -0x8000_0000_0000_0000 else
      var h := Highest(ds[..|ds| - 1]);
      if h < ds[|ds| - 1] then ds[|ds| - 1] else h
  }

  predicate Eligible(a: Arith, s: seq<F64>, e: nat, f: nat) {
    |Hits(a, s, e, f)| >= 2
  }

  function Cost(a: Arith, s: seq<F64>, e: nat, f: nat): int {
    var hits := Hits(a, s, e, f);
    |s| * BitLength(Diff(Highest(hits), Lowest(hits))) + (|s| - |hits|) * 80
  }

  ghost function EligibleIn(a: Arith, s: seq<F64>): (nat, nat) -> bool {
    (e: nat, f: nat) => Eligible(a, s, e, f)
  }

  ghost function CostIn(a: Arith, s: seq<F64>): (nat, nat) -> int {
    (e: nat, f: nat) => Cost(a, s, e, f)
  }

  /** Pairs are tried from large to small; a later pair must be strictly cheaper. */
  predicate Tried(e: nat, f: nat, e': nat, f': nat) {
    e > e' || (e == e' && f > f')
  }

  method TryPair(a: Arith, sample: seq<F64>, e: nat, f: nat) returns (eligible: bool, cost: int)
    ensures eligible == EligibleIn(a, sample)(e, f) && cost == CostIn(a, sample)(e, f)
  {
    var lo: I64, hi: I64 := 0x7FFF_FFFF_FFFF_FFFF, -0x8000_0000_0000_0000;
    var ok, exc := 0, 0;
    ghost var hits: seq<I64> := [];
    for i := 0 to |sample|
      invariant hits == Hits(a, sample[..i], e, f)
      invariant ok == |hits| && ok + exc == i
      invariant lo == Lowest(hits) && hi == Highest(hits)
    {
      var v := sample[i];
      assert sample[..i + 1][..i] == sample[..i];
      var d := a.enc(v, e, f);
      if a.dec(d, e, f) == v {
        ok := ok + 1;
        lo := if d < lo then d else lo;
        hi := if hi < d then d else hi;
        assert (hits + [d])[..|hits|] == hits;
        hits := hits + [d];
      } else {
        exc := exc + 1;
      }
    }
    assert sample[..|sample|] == sample;
    eligible := ok >= 2;
    cost := |sample| * BitLength(Diff(hi, lo)) + exc * 80;
  }

  /** What the search promises about its answer, for any notion of eligibility and cost. */
  ghost predicate Chosen(el: (nat, nat) -> bool, cost: (nat, nat) -> int, e: nat, f: nat) {
    && f <= e <= MAX_E
    && (forall e', f' :: 0 <= f' <= e' <= MAX_E && el(e', f') ==>
          && el(e, f) && cost(e, f) <= cost(e', f')
          && (Tried(e', f', e, f) ==> cost(e, f) < cost(e', f')))
    && ((forall e', f' :: 0 <= f' <= e' <= MAX_E ==> !el(e', f')) ==> e == 0 && f == 0)
  }

  /** The best of the pairs tried so far, those at or above (i, j). */
  ghost predicate Best(el: (nat, nat) -> bool, cost: (nat, nat) -> int, found: bool, e: nat, f: nat, best: int,
                       i: nat, j: nat) {
    && f <= e <= MAX_E
    && (found ==> el(e, f) && best == cost(e, f) && (e > i || (e == i && f >= j)))
    && (!found ==> e == 0 && f == 0)
    && (forall e', f' :: 0 <= f' <= e' <= MAX_E && (e' > i || (e' == i && f' >= j)) && el(e', f') ==>
          found && best <= cost(e', f') && (Tried(e', f', e, f) ==> best < cost(e', f')))
  }

  lemma BestStep(el: (nat, nat) -> bool, cost: (nat, nat) -> int, found: bool, e: nat, f: nat, best: int, i: nat,
                 j: nat)
    requires j <= i <= MAX_E && Best(el, cost, found, e, f, best, i, j + 1)
    ensures if el(i, j) && (!found || cost(i, j) < best) then Best(el, cost, true, i, j, cost(i, j), i, j)
            else Best(el, cost, found, e, f, best, i, j)
  {
  }

  lemma NextRow(el: (nat, nat) -> bool, cost: (nat, nat) -> int, found: bool, e: nat, f: nat, best: int, i: nat)
    requires Best(el, cost, found, e, f, best, i + 1, 0)
    ensures Best(el, cost, found, e, f, best, i, i + 1)
  {
  }

  /** The search keeps the cheapest eligible pair; among equals the one tried first, that is
      the larger exponent and then the larger factor. */
  method SearchEf(a: Arith, vs: seq<F64>) returns (e: nat, f: nat)
    ensures Chosen(EligibleIn(a, Sample(vs)), CostIn(a, Sample(vs)), e, f)
  {
    var sample := Sample(vs);
    ghost var el, cst := EligibleIn(a, sample), CostIn(a, sample);
    e, f := 0, 0;
    var found, best := false, 0;
    for i := MAX_E + 1 downto 0
      invariant Best(el, cst, found, e, f, best, i, 0)
    {
      NextRow(el, cst, found, e, f, best, i);
      for j := i + 1 downto 0
        invariant Best(el, cst, found, e, f, best, i, j)
      {
        var eligible, cost := TryPair(a, sample, i, j);
        BestStep(el, cst, found, e, f, best, i, j);
        if eligible && (!found || cost < best) {
          found, best, e, f := true, cost, i, j;
        }
      }
    }
  }

  // ---------------------------------------------------------------- what a pair costs

  /** The places whose values (e, f) does not bring back. */
  ghost function Misses(a: Arith, s: seq<F64>, e: nat, f: nat): (places: set<nat>)
    ensures |places| <= |s|
  {
    SubsetSize(set i: nat | i < |s| && !Exact(a, s[i], e, f), |s|);
    set i: nat | i < |s| && !Exact(a, s[i], e, f)
  }

  /** d is the integer of a value that (e, f) brings back. */
  ghost predicate Kept(a: Arith, s: seq<F64>, e: nat, f: nat, d: int) {
    exists i :: 0 <= i < |s| && Exact(a, s[i], e, f) && a.enc(s[i], e, f) == d
  }

  /** lo and hi are the least and the greatest integer kept, both 0 if there is none. */
  ghost predicate Spans(a: Arith, s: seq<F64>, e: nat, f: nat, lo: int, hi: int) {
    && lo <= hi
    && (forall d: int :: Kept(a, s, e, f, d) ==> lo <= d <= hi)
    && ((Kept(a, s, e, f, lo) && Kept(a, s, e, f, hi))
        || (lo == hi == 0 && forall d: int :: !Kept(a, s, e, f, d)))
  }

  lemma {:induction false} HitsCounted(a: Arith, s: seq<F64>, e: nat, f: nat)
    ensures |Hits(a, s, e, f)| + |Misses(a, s, e, f)| == |s|
  {
    if s != [] {
      var last := |s| - 1;
      HitsCounted(a, s[..last], e, f);
      var missed := if Exact(a, s[last], e, f) then {} else {last};
      assert Misses(a, s, e, f) == Misses(a, s[..last], e, f) + missed;
    }
  }

  lemma KeptLast(a: Arith, s: seq<F64>, e: nat, f: nat, d: int)
    requires s != []
    ensures var last := |s| - 1;
            Kept(a, s, e, f, d) <==>
              Kept(a, s[..last], e, f, d) || (Exact(a, s[last], e, f) && a.enc(s[last], e, f) == d)
  {
    var last := |s| - 1;
    var before := s[..last];
    if Kept(a, before, e, f, d) {
      var i :| 0 <= i < last && Exact(a, before[i], e, f) && a.enc(before[i], e, f) == d;
      assert s[i] == before[i];
    }
    if Kept(a, s, e, f, d) {
      var i :| 0 <= i < |s| && Exact(a, s[i], e, f) && a.enc(s[i], e, f) == d;
      assert i < last ==> before[i] == s[i];
    }
  }

  lemma {:induction false} HitsAre(a: Arith, s: seq<F64>, e: nat, f: nat, d: int)
    ensures d in Hits(a, s, e, f) <==> Kept(a, s, e, f, d)
  {
    if s != [] {
      KeptLast(a, s, e, f, d);
      HitsAre(a, s[..|s| - 1], e, f, d);
    }
  }

  lemma {:induction false} ExtremesAre(ds: seq<I64>)
    ensures forall i :: 0 <= i < |ds| ==> Lowest(ds) <= ds[i] <= Highest(ds)
    ensures ds != [] ==> Lowest(ds) in ds && Highest(ds) in ds
  {
    if ds != [] {
      var front, last := ds[..|ds| - 1], ds[|ds| - 1];
      ExtremesAre(front);
      forall i | 0 <= i < |ds| ensures Lowest(ds) <= ds[i] <= Highest(ds) {
        assert i < |front| ==> front[i] == ds[i];
      }
      assert ds == front + [last];
      assert front == [] ==> Lowest(ds) == last && Highest(ds) == last;
    }
  }

  /** A pair is eligible when it brings back two of the sampled values. It then costs the bits of the
      range of their integers for every sample, and eighty for each value missed. */
  lemma CostIs(a: Arith, s: seq<F64>, e: nat, f: nat)
    ensures EligibleIn(a, s)(e, f) <==> |s| - |Misses(a, s, e, f)| >= 2
    ensures EligibleIn(a, s)(e, f) ==>
              exists lo: int, hi: int ::
                && Spans(a, s, e, f, lo, hi)
                && CostIn(a, s)(e, f) == |s| * BitLength(hi - lo) + 80 * |Misses(a, s, e, f)|
  {
    HitsCounted(a, s, e, f);
    forall d: int ensures d in Hits(a, s, e, f) <==> Kept(a, s, e, f, d) {
      HitsAre(a, s, e, f, d);
    }
    var hits := Hits(a, s, e, f);
    if |hits| >= 2 {
      ExtremesAre(hits);
      assert hits[0] in hits;
      var lo: int, hi: int := Lowest(hits), Highest(hits);
      assert Diff(hi, lo) == hi - lo;
      assert Spans(a, s, e, f, lo, hi);
    }
  }

  lemma {:induction false} StepByLength(vs: seq<F64>, step: nat)
    requires step >= 1
    ensures |StepBy(vs, step)| == (|vs| + step - 1) / step
    decreases |vs|
  {
    if vs != [] && step < |vs| {
      StepByLength(vs[step..], step);
      QuotientDrops(|vs|, step);
    } else if vs != [] {
      ModUnique(|vs| + step - 1, step, 1, |vs| - 1);
    }
  }

  lemma OneStepLess(i: nat, step: nat)
    requires i > 0
    ensures (i - 1) * step == i * step - step >= 0
  {
    NonNegative(i - 1, step);
  }

  lemma {:induction false} StepByAt(vs: seq<F64>, step: nat, i: nat, place: nat)
    requires step >= 1 && i < |StepBy(vs, step)| && place == i * step
    ensures place < |vs| && StepBy(vs, step)[i] == vs[place]
  {
    if i > 0 {
      OneStepLess(i, step);
      var before := place - step;
      StepByAt(vs[step..], step, i - 1, before);
      assert vs[step..][before] == vs[place];
    }
  }

  lemma QuotientDrops(n: nat, step: nat)
    requires 1 <= step <= n
    ensures (n - step + step - 1) / step + 1 == (n + step - 1) / step
  {
    var q, r := (n - 1) / step, (n - 1) % step;
    assert n + step - 1 == step * (q + 1) + r;
    ModUnique(n + step - 1, step, q + 1, r);
  }

  /** The sample: of a vector of 64 values or more about 32 at equal distances, of a shorter one
      every value. */
  lemma SampleIs(vs: seq<F64>)
    ensures var step := if |vs| < 64 then 1 else |vs| / 32;
            && |Sample(vs)| == (|vs| + step - 1) / step
            && forall i :: 0 <= i < |Sample(vs)| ==> 0 <= i * step < |vs| && Sample(vs)[i] == vs[i * step]
  {
    var step := if |vs| / SAMPLES < 1 then 1 else |vs| / SAMPLES;
    StepByLength(vs, step);
    forall i | 0 <= i < |Sample(vs)| ensures 0 <= i * step < |vs| && Sample(vs)[i] == vs[i * step] {
      NonNegative(i, step);
      StepByAt(vs, step, i, i * step);
    }
  }

  // ---------------------------------------------------------------- sixteen-byte windows

  const WINDOW: nat := 16

  function Window(b: seq<Byte>, byte: nat): nat
    requires byte + WINDOW <= |b|
  {
    FromBytes(b[byte..byte + WINDOW])
  }

  /** Splitting a buffer's number around a window. */
  lemma AroundWindow(a: seq<Byte>, win: seq<Byte>, c: seq<Byte>, byte: nat)
    requires |a| == byte && |win| == WINDOW
    ensures FromBytes(a + win + c) == FromBytes(a) + Pow2(8 * byte) * (FromBytes(win) + Pow2(8 * WINDOW) * FromBytes(c))
  {
    FromBytesConcat(win, c);
    FromBytesConcat(a, win + c);
    SameProduct(Pow2(8 * byte), FromBytes(win + c), FromBytes(win) + Pow2(8 * WINDOW) * FromBytes(c));
    assert a + win + c == a + (win + c);
  }

  lemma SameProduct(p: int, x: int, y: int)
    requires x == y
    ensures p * x == p * y
  {
  }

  lemma SplitWindow(b: seq<Byte>, byte: nat)
    requires byte + WINDOW <= |b|
    ensures FromBytes(b) == FromBytes(b[..byte])
              + Pow2(8 * byte) * (Window(b, byte) + Pow2(8 * WINDOW) * FromBytes(b[byte + WINDOW..]))
  {
    var a, win, c := b[..byte], b[byte..byte + WINDOW], b[byte + WINDOW..];
    assert a + win + c == b;
    AroundWindow(a, win, c, byte);
  }

  lemma BytesBound(a: seq<Byte>)
    ensures FromBytes(a) < Pow2(8 * |a|)
  {
    ToFromBytes(a);
  }

  /** The bytes at and above a position hold nothing if the number is small. */
  lemma WindowIsLow(b: seq<Byte>, byte: nat, sh: nat)
    requires byte + WINDOW <= |b| && FromBytes(b) < Pow2(8 * byte + sh)
    ensures Window(b, byte) + Pow2(8 * WINDOW) * FromBytes(b[byte + WINDOW..]) < Pow2(sh)
    ensures Window(b, byte) < Pow2(sh)
  {
    NonNegative(Pow2(8 * WINDOW), FromBytes(b[byte + WINDOW..]));
    var high: nat := Pow2(8 * WINDOW) * FromBytes(b[byte + WINDOW..]);
    SplitAt(b, byte, FromBytes(b[..byte]), high);
    Pow2Sum(8 * byte, sh, 8 * byte + sh);
    SmallFactor(Pow2(8 * byte), Window(b, byte) + high, Pow2(sh), FromBytes(b));
  }

  lemma SmallFactor(p: nat, x: nat, s: nat, total: nat)
    requires total < p * s && p * x <= total
    ensures x < s
  {
    if x >= s {
      MulMonotone(s, x, p);
    }
  }

  /** One read-modify-write: x is added at bit 8 * byte + sh, in a 128-bit word. */
  function Stored(b: seq<Byte>, byte: nat, x: nat, sh: nat): (b': seq<Byte>)
    requires byte + WINDOW <= |b|
    ensures |b'| == |b|
  {
    var v := BitOr(Window(b, byte), x * Pow2(sh) % Pow2(8 * WINDOW));
    b[..byte] + ToBytes(v, WINDOW) + b[byte + WINDOW..]
  }

  lemma StoredBytes(b: seq<Byte>, byte: nat, x: nat, sh: nat, w: nat, low: nat, high: nat, word: int)
    requires byte + WINDOW <= |b| && FromBytes(b) < Pow2(8 * byte + sh)
    requires x < Pow2(w) && w <= 64 && sh < 8
    requires low == FromBytes(b[..byte]) && high == Pow2(8 * WINDOW) * FromBytes(b[byte + WINDOW..])
    requires word == Window(b, byte) + Pow2(sh) * x
    ensures FromBytes(Stored(b, byte, x, sh)) == low + Pow2(8 * byte) * (word + high)
  {
    StoredWord(b, byte, x, sh, w, word);
    StoredAs(b, byte, x, sh, word);
    Rewritten(b[..byte], word, b[byte + WINDOW..], byte, low, high);
  }

  lemma StoredAs(b: seq<Byte>, byte: nat, x: nat, sh: nat, word: nat)
    requires byte + WINDOW <= |b| && word == BitOr(Window(b, byte), x * Pow2(sh) % Pow2(8 * WINDOW))
    ensures Stored(b, byte, x, sh) == b[..byte] + ToBytes(word, WINDOW) + b[byte + WINDOW..]
  {
  }

  lemma StoredNumber(b: seq<Byte>, byte: nat, x: nat, sh: nat, w: nat)
    requires byte + WINDOW <= |b| && FromBytes(b) < Pow2(8 * byte + sh)
    requires x < Pow2(w) && w <= 64 && sh < 8
    ensures FromBytes(Stored(b, byte, x, sh)) == FromBytes(b) + Pow2(8 * byte + sh) * x
  {
    NonNegative(Pow2(8 * WINDOW), FromBytes(b[byte + WINDOW..]));
    var low, high: nat := FromBytes(b[..byte]), Pow2(8 * WINDOW) * FromBytes(b[byte + WINDOW..]);
    var word := Window(b, byte) + Pow2(sh) * x;
    StoredBytes(b, byte, x, sh, w, low, high, word);
    SplitAt(b, byte, low, high);
    Pow2Sum(8 * byte, sh, 8 * byte + sh);
    AddInside(FromBytes(Stored(b, byte, x, sh)), FromBytes(b), low, Pow2(8 * byte), Window(b, byte), word, high,
      Pow2(sh), x,
              Pow2(8 * byte + sh));
  }

  lemma SplitAt(b: seq<Byte>, byte: nat, low: nat, high: nat)
    requires byte + WINDOW <= |b| && low == FromBytes(b[..byte])
             && high == Pow2(8 * WINDOW) * FromBytes(b[byte + WINDOW..])
    ensures FromBytes(b) == low + Pow2(8 * byte) * (Window(b, byte) + high)
  {
    SplitWindow(b, byte);
  }

  lemma Rewritten(a: seq<Byte>, word: nat, c: seq<Byte>, byte: nat, low: nat, high: nat)
    requires |a| == byte && FromBytes(ToBytes(word, WINDOW)) == word
    requires low == FromBytes(a) && high == Pow2(8 * WINDOW) * FromBytes(c)
    ensures FromBytes(a + ToBytes(word, WINDOW) + c) == low + Pow2(8 * byte) * (word + high)
  {
    AroundWindow(a, ToBytes(word, WINDOW), c, byte);
  }

  /** The word that goes back: nothing overlaps and nothing is shifted out. */
  lemma StoredWord(b: seq<Byte>, byte: nat, x: nat, sh: nat, w: nat, word: int)
    requires byte + WINDOW <= |b| && FromBytes(b) < Pow2(8 * byte + sh)
    requires x < Pow2(w) && w <= 64 && sh < 8
    requires word == Window(b, byte) + Pow2(sh) * x
    ensures 0 <= word && BitOr(Window(b, byte), x * Pow2(sh) % Pow2(8 * WINDOW)) == word
    ensures FromBytes(ToBytes(word, WINDOW)) == word
  {
    WindowIsLow(b, byte, sh);
    NonNegative(Pow2(sh), x);
    FieldBelow(Pow2(sh), Pow2(w), Window(b, byte), x);
    Pow2Add(sh, w);
    Pow2Monotone(sh + w, 8 * WINDOW);
    OrShifted(Window(b, byte), x, sh, 8 * WINDOW);
    FromToBytes(Window(b, byte) + Pow2(sh) * x, WINDOW);
  }

  lemma AddInside(now: int, was: int, low: int, p: int, win: int, word: int, high: int, s: int, x: int, ps: int)
    requires word == win + s * x && now == low + p * (word + high) && was == low + p * (win + high) && ps == p * s
    ensures now == was + ps * x
  {
    Distribute(p, s, win + high, x);
  }

  /** Reading w bits at bit 8 * byte + sh of the buffer's number. */
  function Loaded(b: seq<Byte>, byte: nat, sh: nat, w: nat): nat
    requires byte + WINDOW <= |b|
  {
    Window(b, byte) / Pow2(sh) % Pow2(w)
  }

  /** What a load sees when the number is low + 2^(8 byte + sh) * (x + 2^w * high). */
  lemma LoadedField(b: seq<Byte>, byte: nat, sh: nat, w: nat, low: nat, x: nat, high: nat)
    requires byte + WINDOW <= |b| && sh < 8 && w <= 64
    requires low < Pow2(8 * byte + sh) && x < Pow2(w)
    requires FromBytes(b) == low + Pow2(8 * byte + sh) * (x + Pow2(w) * high)
    ensures Loaded(b, byte, sh, w) == x
  {
    var c := b[byte + WINDOW..];
    var y, f := Window(b, byte) + Pow2(8 * WINDOW) * FromBytes(c), x + Pow2(w) * high;
    NonNegative(Pow2(8 * WINDOW), FromBytes(c));
    NonNegative(Pow2(w), high);
    SplitWindow(b, byte);
    BytesBound(b[..byte]);
    Pow2Sum(8 * byte, sh, 8 * byte + sh);
    QuotientOfSum(FromBytes(b[..byte]), Pow2(8 * byte), y, low, Pow2(sh), f);
    FieldInWindow(Window(b, byte), FromBytes(c), sh, w, low / Pow2(8 * byte), x, high,
                  Pow2(8 * WINDOW), Pow2(sh), Pow2(w), y);
  }

  lemma QuotientOfSum(a: nat, p: nat, y: nat, low: nat, s: nat, f: int)
    requires a < p && low < p * s && a + p * y == low + (p * s) * f
    ensures 0 <= low / p < s && y == low / p + s * f
  {
    var l, r := low / p, low % p;
    assert low == p * l + r;
    Reassociate(p, s, f);
    assert a + p * y == r + p * (l + s * f) by {
      Distribute(p, s, l, f);
    }
    ModUnique(a + p * y, p, y, a);
    ModUnique(a + p * y, p, l + s * f, r);
    if l >= s {
      MulMonotone(s, l, p);
    }
  }

  lemma FieldInWindow(win: nat, above: nat, sh: nat, w: nat, l: nat, x: nat, high: nat, q: nat, s: nat, m: nat,
                      total: int)
    requires sh < 8 && w <= 64 && l < s && x < m && q == Pow2(8 * WINDOW) && s == Pow2(sh) && m == Pow2(w)
    requires win + q * above == total && total == l + s * (x + m * high)
    ensures win / s % m == x
  {
    var t := Pow2(8 * WINDOW - sh - w);
    Pow2Sum(sh, w, sh + w);
    Pow2Sum(sh + w, 8 * WINDOW - sh - w, 8 * WINDOW);
    FieldOfRest(win, above, s, m, t, Pow2(sh + w), q, l, x, high, total);
  }

  lemma FieldOfRest(win: nat, above: nat, s: nat, m: nat, t: nat, sm: nat, q: nat, l: nat, x: nat, high: nat,
                    total: int)
    requires l < s && x < m && sm == s * m && q == sm * t
    requires win + q * above == total && total == l + s * (x + m * high)
    ensures win / s % m == x
  {
    var k := high - t * above;
    Reassociate(sm, t, above);
    Reassociate(s, m, t * above);
    Difference(s, m, x, high, t * above);
    assert win == l + s * (x + m * k);
    ModUnique(win, s, x + m * k, l);
    ModUnique(x + m * k, m, k, x);
  }

  lemma Difference(s: int, m: int, x: int, high: int, u: int)
    ensures s * (x + m * high) - s * (m * u) == s * (x + m * (high - u))
  {
    assert m * (high - u) == m * high - m * u;
    assert s * (x + m * high - m * u) == s * (x + m * high) - s * (m * u);
  }
}
