/** Vectors and columns of the ALP codec, on top of the window arithmetic. */
module AlpCodec {
  import opened Common
  import opened BitMath
  import opened BitFields
  import opened Alp

  /** Distances from the frame of reference. */
  function Offsets(ints: seq<I64>, base: I64): (xs: seq<nat>)
    ensures |xs| == |ints| && forall i :: 0 <= i < |ints| ==> xs[i] == Diff(ints[i], base)
  {
    if ints == [] then [] else Offsets(ints[..|ints| - 1], base) + [Diff(ints[|ints| - 1], base)]
  }

  function PackedSize(n: nat, w: nat): nat {
    (n * w + 7) / 8 + WINDOW
  }

  lemma WindowInBounds(i: nat, n: nat, w: nat)
    requires i < n
    ensures 0 <= i * w && i * w / 8 + WINDOW <= PackedSize(n, w)
    ensures i * w == 8 * (i * w / 8) + i * w % 8
  {
    MulMonotone(i, n, w);
    NonNegative(i, w);
  }

  lemma {:induction false} ZeroBytes(b: seq<Byte>)
    requires forall x <- b :: x == 0
    ensures FromBytes(b) == 0
  {
    if b != [] {
      assert b[0] in b && forall x <- b[1..] :: x in b;
      ZeroBytes(b[1..]);
    }
  }

  lemma {:induction false} ZeroFields(xs: seq<nat>)
    requires Fit(xs, 0)
    ensures Fields(xs, 0) == 0
  {
    if xs != [] {
      FitTail(xs, 0);
      ZeroFields(xs[1..]);
    }
  }

  lemma Commutes(x: int, y: int)
    ensures x * y == y * x
  {
  }

  /** After i values the buffer's number is made of the first i offsets. */
  lemma PackStep(b: seq<Byte>, xs: seq<nat>, w: nat, i: nat)
    requires i < |xs| && w <= 64 && Fit(xs, w) && |b| == PackedSize(|xs|, w)
    requires FromBytes(b) == Fields(xs[..i], w)
    ensures 0 <= i * w && i * w / 8 + WINDOW <= |b|
    ensures FromBytes(Stored(b, i * w / 8, xs[i], i * w % 8)) == Fields(xs[..i + 1], w)
  {
    WindowInBounds(i, |xs|, w);
    assert xs[i] in xs;
    assert forall x <- xs[..i] :: x in xs;
    FieldsBound(xs[..i], w);
    Commutes(w, i);
    StoredNumber(b, i * w / 8, xs[i], i * w % 8, w);
    FieldsAppend(xs[..i], w, xs[i]);
    assert xs[..i + 1] == xs[..i] + [xs[i]];
  }

  method PackInts(ints: seq<I64>, base: I64, w: nat) returns (packed: seq<Byte>)
    requires w <= 64 && Fit(Offsets(ints, base), w)
    ensures |packed| == PackedSize(|ints|, w)
    ensures FromBytes(packed) == Fields(Offsets(ints, base), w)
  {
    var out := new Byte[PackedSize(|ints|, w)](_ => 0);
    ghost var xs := Offsets(ints, base);
    ZeroBytes(out[..]);
    if w == 0 {
      ZeroFields(xs);
      return out[..];
    }
    for i := 0 to |ints|
      invariant FromBytes(out[..]) == Fields(xs[..i], w)
    {
      ghost var was := out[..];
      PackStep(was, xs, w, i);
      var x := Diff(ints[i], base);
      var bit := i * w;
      var byte, sh := bit / 8, bit % 8;
      StoreWindow(out, byte, x, sh);
    }
    assert xs[..|ints|] == xs;
    packed := out[..];
  }

  method StoreWindow(out: array<Byte>, byte: nat, x: nat, sh: nat)
    requires byte + WINDOW <= out.Length
    modifies out
    ensures out[..] == Stored(old(out[..]), byte, x, sh)
  {
    var v := BitOr(FromBytes(out[byte..byte + WINDOW]), x * Pow2(sh) % Pow2(8 * WINDOW));
    var le := ToBytes(v, WINDOW);
    forall k | 0 <= k < WINDOW {
      out[byte + k] := le[k];
    }
  }

  // ---------------------------------------------------------------- decoding

  predicate Within(pos: seq<nat>, n: nat) {
    forall k :: 0 <= k < |pos| ==> pos[k] < n
  }

  ghost predicate WellFormed(v: Vector) {
    match v
    case Raw(_) => true
    case Packed(_, _, w, _, n, packed, excVals, excPos) =>
      w <= 64 && |packed| == PackedSize(n, w) && |excVals| == |excPos| && Within(excPos, n)
  }

  function IntAt(base: I64, packed: seq<Byte>, n: nat, w: nat, i: nat): I64
    requires i < n && |packed| == PackedSize(n, w)
  {
    if w == 0 then base else WrapAdd(base, FieldOf(packed, n, w, i))
  }

  function FieldOf(packed: seq<Byte>, n: nat, w: nat, i: nat): nat
    requires i < n && |packed| == PackedSize(n, w)
  {
    WindowInBounds(i, n, w);
    Loaded(packed, i * w / 8, i * w % 8, w)
  }

  function Patched(s: seq<F64>, vals: seq<F64>, pos: seq<nat>): (r: seq<F64>)
    requires |vals| == |pos| && Within(pos, |s|)
    ensures |r| == |s|
  {
    if vals == [] then s else
      var n := |vals| - 1;
      Patched(s, vals[..n], pos[..n])[pos[n] := vals[n]]
  }

  /** The values before patching. */
  ghost function Plain(a: Arith, e: nat, f: nat, base: I64, packed: seq<Byte>, n: nat, w: nat): (s: seq<F64>)
    requires |packed| == PackedSize(n, w)
    ensures |s| == n && forall i :: 0 <= i < n ==> s[i] == a.dec(IntAt(base, packed, n, w, i), e, f)
  {
    seq<F64>(n, i requires 0 <= i < n => a.dec(IntAt(base, packed, n, w, i), e, f))
  }

  ghost function Decoded(a: Arith, v: Vector): seq<F64>
    requires WellFormed(v)
  {
    match v
    case Raw(vals) => vals
    case Packed(e, f, w, base, n, packed, excVals, excPos) =>
      Patched(Plain(a, e, f, base, packed, n, w), excVals, excPos)
  }

  method UnpackInt(base: I64, packed: seq<Byte>, n: nat, w: nat, mask: nat, i: nat) returns (d: I64)
    requires i < n && |packed| == PackedSize(n, w) && mask == Pow2(w) - 1
    ensures d == IntAt(base, packed, n, w, i)
  {
    if w == 0 {
      return base;
    }
    WindowInBounds(i, n, w);
    var bit := i * w;
    var byte, sh := bit / 8, bit % 8;
    var word := FromBytes(packed[byte..byte + WINDOW]) / Pow2(sh);
    AndMask(word, w);
    d := WrapAdd(base, BitAnd(word, mask));
  }

  method Patch(buf: array<F64>, excVals: seq<F64>, excPos: seq<nat>)
    requires |excVals| == |excPos| && Within(excPos, buf.Length)
    modifies buf
    ensures buf[..] == Patched(old(buf[..]), excVals, excPos)
  {
    for j := 0 to |excVals|
      invariant buf[..] == Patched(old(buf[..]), excVals[..j], excPos[..j])
    {
      assert excVals[..j + 1][..j] == excVals[..j] && excPos[..j + 1][..j] == excPos[..j];
      buf[excPos[j]] := excVals[j];
    }
    assert excVals[..|excVals|] == excVals && excPos[..|excPos|] == excPos;
  }

  method DecodeVector(a: Arith, v: Vector, out: seq<F64>) returns (out': seq<F64>)
    requires WellFormed(v)
    ensures out' == out + Decoded(a, v)
  {
    match v {
      case Raw(vals) => out' := out + vals;
      case Packed(e, f, w, base, n, packed, excVals, excPos) =>
        var buf := new F64[n](_ => 0);
        var mask := if w == 64 then Pow2(64) - 1 else Pow2(w) - 1;
        for i := 0 to n
          invariant forall k :: 0 <= k < i ==> buf[k] == a.dec(IntAt(base, packed, n, w, k), e, f)
        {
          var d := UnpackInt(base, packed, n, w, mask, i);
          buf[i] := a.dec(d, e, f);
        }
        assert buf[..] == Plain(a, e, f, base, packed, n, w);
        Patch(buf, excVals, excPos);
        out' := out + buf[..];
    }
  }

  // ---------------------------------------------------------------- encoding

  /** The positions, in order, of the values (e, f) does not bring back. */
  ghost predicate Exceptions(a: Arith, vs: seq<F64>, e: nat, f: nat, pos: seq<nat>) {
    && Within(pos, |vs|)
    && (forall i, j :: 0 <= i < j < |pos| ==> pos[i] < pos[j])
    && (forall i :: 0 <= i < |vs| ==> (i in pos <==> !Exact(a, vs[i], e, f)))
  }

  method EncodeInts(a: Arith, vs: seq<F64>, e: nat, f: nat, ints: array<I64>) returns (excPos: seq<nat>)
    requires |vs| == ints.Length <= U16
    modifies ints
    ensures Exceptions(a, vs, e, f, excPos)
    ensures forall i :: 0 <= i < |vs| ==> ints[i] == a.enc(vs[i], e, f)
  {
    excPos := [];
    for i := 0 to |vs|
      invariant forall k :: 0 <= k < i ==> ints[k] == a.enc(vs[k], e, f)
      invariant Exceptions(a, vs[..i], e, f, excPos)
    {
      var d := a.enc(vs[i], e, f);
      ints[i] := d;
      if a.dec(d, e, f) != vs[i] {
        excPos := excPos + [i % U16];
      }
    }
    assert vs[..|vs|] == vs;
  }

  /** p is the integer at k, the first that is no exception. */
  ghost predicate FirstKept(ints: seq<I64>, excPos: seq<nat>, p: I64, k: nat) {
    k < |ints| && k !in excPos && p == ints[k] && forall i :: 0 <= i < k ==> i in excPos
  }

  /** The first exactly encoded integer, 0 if there is none. */
  method Placeholder(ints: seq<I64>, excPos: seq<nat>) returns (p: I64)
    requires |ints| <= U16
    ensures (exists k :: FirstKept(ints, excPos, p, k)) || (p == 0 && forall i :: 0 <= i < |ints| ==> i in excPos)
  {
    for i := 0 to |ints|
      invariant forall k :: 0 <= k < i ==> k in excPos
    {
      if i % U16 !in excPos {
        assert FirstKept(ints, excPos, ints[i], i);
        return ints[i];
      }
    }
    p := 0;
  }

  method FillExceptions(ints: array<I64>, excPos: seq<nat>, placeholder: I64)
    requires Within(excPos, ints.Length)
    modifies ints
    ensures forall i :: 0 <= i < ints.Length ==> ints[i] == if i in excPos then placeholder else old(ints[i])
  {
    for j := 0 to |excPos|
      invariant forall i :: 0 <= i < ints.Length ==> ints[i] == if i in excPos[..j] then placeholder else old(ints[i])
    {
      assert excPos[..j + 1] == excPos[..j] + [excPos[j]];
      ints[excPos[j]] := placeholder;
    }
    assert excPos[..|excPos|] == excPos;
  }

  method Bounds(ints: seq<I64>) returns (lo: I64, hi: I64)
    ensures forall i :: 0 <= i < |ints| ==> lo <= ints[i] <= hi
    ensures ints != [] ==> lo in ints && hi in ints
    ensures ints == [] ==> lo == hi == 0
  {
    lo, hi := 0x7FFF_FFFF_FFFF_FFFF, -0x8000_0000_0000_0000;
    for i := 0 to |ints|
      invariant forall k :: 0 <= k < i ==> lo <= ints[k] <= hi
      invariant i > 0 ==> lo in ints && hi in ints
      invariant i == 0 ==> lo == 0x7FFF_FFFF_FFFF_FFFF && hi == -0x8000_0000_0000_0000
    {
      lo := if ints[i] < lo then ints[i] else lo;
      hi := if hi < ints[i] then ints[i] else hi;
    }
    if |ints| == 0 {
      lo, hi := 0, 0;
    }
  }

  /** Distances within [lo, hi] fit the width of the whole range, without wrap-around. */
  lemma OffsetsFit(ints: seq<I64>, lo: I64, hi: I64)
    requires lo <= hi && forall i :: 0 <= i < |ints| ==> lo <= ints[i] <= hi
    ensures BitLength(Diff(hi, lo)) <= 64 && Fit(Offsets(ints, lo), BitLength(Diff(hi, lo)))
  {
    WidthOfRange(Diff(hi, lo));
    PlainDifference(lo, hi);
    var xs := Offsets(ints, lo);
    forall i | 0 <= i < |xs| ensures xs[i] < Pow2(BitLength(Diff(hi, lo))) {
      PlainDifference(lo, ints[i]);
    }
  }

  lemma PlainDifference(lo: I64, d: I64)
    requires lo <= d
    ensures Diff(d, lo) == d - lo
  {
  }

  lemma WidthIs(lo: I64, hi: I64, w: nat)
    requires lo <= hi && w == BitLength(Diff(hi, lo))
    ensures w == BitLength(hi - lo)
  {
    PlainDifference(lo, hi);
  }

  lemma WidthOfRange(r: nat)
    requires r < TWO64
    ensures BitLength(r) <= 64
  {
    Pow2Values();
    BitLengthBound(r, 64);
  }

  lemma LoadedAt(packed: seq<Byte>, xs: seq<nat>, w: nat, i: nat, byte: nat, sh: nat)
    requires i < |xs| && w <= 64 && Fit(xs, w) && byte + WINDOW <= |packed| && sh < 8
    requires w * i == 8 * byte + sh && FromBytes(packed) == Fields(xs, w)
    ensures Loaded(packed, byte, sh, w) == xs[i]
  {
    FieldsSplit(xs, w, i, 8 * byte + sh);
    LoadedField(packed, byte, sh, w, Fields(xs[..i], w), xs[i], Fields(xs[i + 1..], w));
  }

  lemma LoadedBack(packed: seq<Byte>, xs: seq<nat>, w: nat, i: nat)
    requires i < |xs| && w <= 64 && Fit(xs, w)
    requires |packed| == PackedSize(|xs|, w) && FromBytes(packed) == Fields(xs, w)
    ensures FieldOf(packed, |xs|, w, i) == xs[i]
  {
    WindowInBounds(i, |xs|, w);
    var bit: nat := i * w;
    assert w * i == bit;
    LoadedAt(packed, xs, w, i, bit / 8, bit % 8);
  }

  lemma NoDifference(d: I64, base: I64)
    requires Diff(d, base) == 0
    ensures d == base
  {
    var k := (d - base) / TWO64;
    assert d - base == k * TWO64;
  }

  lemma ZeroWidth(xs: seq<nat>, i: nat)
    requires i < |xs| && Fit(xs, 0)
    ensures xs[i] == 0
  {
    assert xs[i] in xs;
  }

  /** Unpacking position i of a packed vector returns the integer that went in. */
  lemma IntBack(ints: seq<I64>, lo: I64, packed: seq<Byte>, w: nat, i: nat)
    requires i < |ints| && w <= 64 && Fit(Offsets(ints, lo), w)
    requires |packed| == PackedSize(|ints|, w) && FromBytes(packed) == Fields(Offsets(ints, lo), w)
    ensures IntAt(lo, packed, |ints|, w, i) == ints[i]
  {
    if w == 0 {
      ZeroWidth(Offsets(ints, lo), i);
      NoDifference(ints[i], lo);
    } else {
      WrapBack(ints[i], lo);
      LoadedBack(packed, Offsets(ints, lo), w, i);
    }
  }

  lemma {:induction false} PatchedBack(s: seq<F64>, vs: seq<F64>, vals: seq<F64>, pos: seq<nat>)
    requires |s| == |vs| && |vals| == |pos| && Within(pos, |vs|)
    requires forall k :: 0 <= k < |pos| ==> vals[k] == vs[pos[k]]
    ensures forall i :: 0 <= i < |vs| && (i in pos || s[i] == vs[i]) ==> Patched(s, vals, pos)[i] == vs[i]
  {
    if vals != [] {
      var n := |vals| - 1;
      PatchedBack(s, vs, vals[..n], pos[..n]);
      assert pos == pos[..n] + [pos[n]];
    }
  }

  /** Whatever the float arithmetic does: a vector with the right exceptions decodes exactly. */
  lemma VectorLossless(a: Arith, vs: seq<F64>, e: nat, f: nat, ints: seq<I64>, lo: I64, w: nat, packed: seq<Byte>,
                       excVals: seq<F64>, excPos: seq<nat>)
    requires Exceptions(a, vs, e, f, excPos) && |excVals| == |excPos| && |ints| == |vs|
    requires forall k :: 0 <= k < |excPos| ==> excVals[k] == vs[excPos[k]]
    requires forall i :: 0 <= i < |vs| && i !in excPos ==> ints[i] == a.enc(vs[i], e, f)
    requires w <= 64 && Fit(Offsets(ints, lo), w)
    requires |packed| == PackedSize(|ints|, w) && FromBytes(packed) == Fields(Offsets(ints, lo), w)
    ensures Decoded(a, Vector.Packed(e, f, w, lo, |vs|, packed, excVals, excPos)) == vs
  {
    var plain := Plain(a, e, f, lo, packed, |vs|, w);
    forall i | 0 <= i < |vs| && i !in excPos ensures plain[i] == vs[i] {
      IntBack(ints, lo, packed, w, i);
      assert Exact(a, vs[i], e, f);
    }
    PatchedBack(plain, vs, excVals, excPos);
  }

  /** The integers of a vector, placeholders at the exceptions, and the exceptions. */
  method PrepareInts(a: Arith, vs: seq<F64>, e: nat, f: nat)
    returns (ints: seq<I64>, excVals: seq<F64>, excPos: seq<nat>)
    requires |vs| <= U16
    ensures Exceptions(a, vs, e, f, excPos) && |excVals| == |excPos| && |ints| == |vs|
    ensures forall k :: 0 <= k < |excPos| ==> excVals[k] == vs[excPos[k]]
    ensures forall i :: 0 <= i < |vs| && i !in excPos ==> ints[i] == a.enc(vs[i], e, f)
    ensures exists p: I64 :: FillsExceptions(ints, excPos, p)
  {
    var arr := new I64[|vs|](_ => 0);
    excPos := EncodeInts(a, vs, e, f, arr);
    var placeholder := Placeholder(arr[..], excPos);
    excVals := Pick(vs, excPos);
    ghost var was := arr[..];
    FillExceptions(arr, excPos, placeholder);
    ints := arr[..];
    Filled(was, ints, excPos, placeholder);
  }

  lemma Filled(was: seq<I64>, ints: seq<I64>, excPos: seq<nat>, p: I64)
    requires |ints| == |was| && forall i :: 0 <= i < |ints| ==> ints[i] == if i in excPos then p else was[i]
    requires (exists k :: FirstKept(was, excPos, p, k)) || (p == 0 && forall i :: 0 <= i < |was| ==> i in excPos)
    ensures FillsExceptions(ints, excPos, p)
  {
    if k: nat :| FirstKept(was, excPos, p, k) {
      assert FirstKept(ints, excPos, p, k);
    }
  }

  /** p stands at the exceptions; it is the first integer kept, or 0 if none is. */
  ghost predicate FillsExceptions(ints: seq<I64>, excPos: seq<nat>, p: I64) {
    && (forall i :: 0 <= i < |ints| && i in excPos ==> ints[i] == p)
    && ((exists k :: FirstKept(ints, excPos, p, k)) || (p == 0 && forall i :: 0 <= i < |ints| ==> i in excPos))
  }

  /** The bounds of the integers are those of the integers kept: placeholders do not widen them. */
  lemma BoundsSpan(a: Arith, vs: seq<F64>, e: nat, f: nat, ints: seq<I64>, excPos: seq<nat>, p: I64, lo: I64, hi: I64)
    requires Exceptions(a, vs, e, f, excPos) && |ints| == |vs| && FillsExceptions(ints, excPos, p)
    requires forall i :: 0 <= i < |vs| && i !in excPos ==> ints[i] == a.enc(vs[i], e, f)
    requires forall i :: 0 <= i < |ints| ==> lo <= ints[i] <= hi
    requires if ints == [] then lo == hi == 0 else lo in ints && hi in ints
    ensures Spans(a, vs, e, f, lo, hi)
  {
    forall i | 0 <= i < |ints| ensures Kept(a, vs, e, f, ints[i]) || (ints[i] == 0 && AllIn(excPos, |vs|)) {
      if i !in excPos {
        assert Exact(a, vs[i], e, f) && a.enc(vs[i], e, f) == ints[i];
      } else if k: nat :| FirstKept(ints, excPos, p, k) {
        assert Exact(a, vs[k], e, f) && a.enc(vs[k], e, f) == ints[i];
      }
    }
    forall d: int | Kept(a, vs, e, f, d) ensures lo <= d <= hi && !AllIn(excPos, |vs|) {
      var k :| 0 <= k < |vs| && Exact(a, vs[k], e, f) && a.enc(vs[k], e, f) == d;
      assert k !in excPos && ints[k] == d;
    }
  }

  ghost predicate AllIn(pos: seq<nat>, n: nat) {
    forall k :: 0 <= k < n ==> k in pos
  }

  /** There are as many exceptions as values missed. */
  lemma ExceptionCount(a: Arith, vs: seq<F64>, e: nat, f: nat, excPos: seq<nat>)
    requires Exceptions(a, vs, e, f, excPos)
    ensures |excPos| == |Misses(a, vs, e, f)|
  {
    DistinctSize(excPos, Misses(a, vs, e, f));
  }

  /** The decimal form of a vector. */
  method Compress(a: Arith, vs: seq<F64>) returns (v: Vector)
    requires |vs| <= U16
    ensures WellFormed(v) && Decoded(a, v) == vs
    ensures v.Packed? && Chosen(EligibleIn(a, Sample(vs)), CostIn(a, Sample(vs)), v.e, v.f)
    ensures Contents(a, vs, v) && exists hi: I64 :: Decimal(a, vs, v, v.e, v.f, v.base, hi, v.Bytes())
  {
    var e, f := SearchEf(a, vs);
    v := CompressWith(a, vs, e, f);
  }

  /** The integers to pack and the range of the integers kept. */
  method Framed(a: Arith, vs: seq<F64>, e: nat, f: nat)
    returns (ints: seq<I64>, excVals: seq<F64>, excPos: seq<nat>, lo: I64, hi: I64)
    requires |vs| <= U16
    ensures Exceptions(a, vs, e, f, excPos) && |excVals| == |excPos| && |ints| == |vs|
    ensures forall k :: 0 <= k < |excPos| ==> excVals[k] == vs[excPos[k]]
    ensures forall i :: 0 <= i < |vs| && i !in excPos ==> ints[i] == a.enc(vs[i], e, f)
    ensures forall i :: 0 <= i < |ints| ==> lo <= ints[i] <= hi
    ensures (exists p: I64 :: FillsExceptions(ints, excPos, p)) && Spans(a, vs, e, f, lo, hi)
  {
    ints, excVals, excPos := PrepareInts(a, vs, e, f);
    lo, hi := Bounds(ints);
    ghost var p :| FillsExceptions(ints, excPos, p);
    BoundsSpan(a, vs, e, f, ints, excPos, p, lo, hi);
  }

  method CompressWith(a: Arith, vs: seq<F64>, e: nat, f: nat) returns (v: Vector)
    requires |vs| <= U16
    ensures WellFormed(v) && Decoded(a, v) == vs
    ensures v.Packed? && v.e == e && v.f == f
    ensures Contents(a, vs, v) && exists hi: I64 :: Decimal(a, vs, v, e, f, v.base, hi, v.Bytes())
  {
    var ints, excVals, excPos, lo, hi := Framed(a, vs, e, f);
    var w := BitLength(Diff(hi, lo));
    WidthIs(lo, hi, w);
    OffsetsFit(ints, lo, hi);
    var packed := PackInts(ints, lo, w);
    VectorLossless(a, vs, e, f, ints, lo, w, packed, excVals, excPos);
    v := Vector.Packed(e, f, w, lo, |vs|, packed, excVals, excPos);
    ExceptionCount(a, vs, e, f, excPos);
    DecimalIs(a, vs, v, lo, hi, w, |excPos|);
    assert Packs(a, vs, v, ints);
  }

  /** What v holds: the exceptions with their places, and of every other value the distance of its
      integer from the base, in as many bits as v says; at the exceptions the first integer kept. */
  ghost predicate Contents(a: Arith, vs: seq<F64>, v: Vector) {
    && v.Packed? && Exceptions(a, vs, v.e, v.f, v.excPos) && |v.excVals| == |v.excPos|
    && (forall k :: 0 <= k < |v.excPos| ==> v.excVals[k] == vs[v.excPos[k]])
    && exists ints: seq<I64> :: Packs(a, vs, v, ints)
  }

  ghost predicate Packs(a: Arith, vs: seq<F64>, v: Vector, ints: seq<I64>)
    requires v.Packed?
  {
    && |ints| == |vs| && (forall i :: 0 <= i < |vs| && i !in v.excPos ==> ints[i] == a.enc(vs[i], v.e, v.f))
    && (exists p: I64 :: FillsExceptions(ints, v.excPos, p))
    && (forall i :: 0 <= i < |ints| ==> v.base <= ints[i])
    && Fit(Offsets(ints, v.base), v.bitWidth) && FromBytes(v.packed) == Fields(Offsets(ints, v.base), v.bitWidth)
  }

  /** The i-th field is the distance of the i-th value's integer from the base, where the value is brought
      back; where it is not, the value stands among the exceptions. */
  lemma PackedField(a: Arith, vs: seq<F64>, v: Vector, i: nat)
    requires Contents(a, vs, v) && i < |vs|
    ensures Exact(a, vs[i], v.e, v.f) ==> Field(v.packed, v.bitWidth, i) == a.enc(vs[i], v.e, v.f) - v.base
    ensures !Exact(a, vs[i], v.e, v.f) ==> exists k :: 0 <= k < |v.excPos| && v.excPos[k] == i && v.excVals[k] == vs[i]
  {
    var ints :| Packs(a, vs, v, ints);
    if Exact(a, vs[i], v.e, v.f) {
      NonNegative(v.bitWidth, i);
      FieldIs(Offsets(ints, v.base), v.bitWidth, i, v.bitWidth * i);
      PlainDifference(v.base, ints[i]);
    }
  }

  /** v is vs in decimals under (e, f), its integers between lo and hi, in size bytes: its width is that
      of the range of the integers kept, and every other value costs ten bytes. */
  ghost predicate Decimal(a: Arith, vs: seq<F64>, v: Vector, e: nat, f: nat, lo: I64, hi: I64, size: nat) {
    && DecimalSize(a, vs, e, f, lo, hi, size)
    && v.Packed? && v.e == e && v.f == f && v.base == lo && v.n == |vs| && v.bitWidth == BitLength(hi - lo)
    && |v.excPos| == |Misses(a, vs, e, f)| && v.Bytes() == size
  }

  ghost predicate DecimalSize(a: Arith, vs: seq<F64>, e: nat, f: nat, lo: int, hi: int, size: nat) {
    && Spans(a, vs, e, f, lo, hi)
    && size == DecimalBytes(|vs|, BitLength(hi - lo), |Misses(a, vs, e, f)|)
  }

  /** n integers of w bits, ten bytes for each of x exceptions, and a header. */
  function DecimalBytes(n: nat, w: nat, x: nat): nat {
    (n * w + 7) / 8 + 10 * x + 13
  }

  lemma DecimalIs(a: Arith, vs: seq<F64>, v: Vector, lo: I64, hi: I64, w: nat, x: nat)
    requires v.Packed? && Spans(a, vs, v.e, v.f, lo, hi)
    requires w == BitLength(hi - lo) && x == |Misses(a, vs, v.e, v.f)|
    requires v.base == lo && v.n == |vs| && v.bitWidth == w && |v.excVals| == |v.excPos| == x
    ensures Decimal(a, vs, v, v.e, v.f, lo, hi, v.Bytes())
  {
    BytesOf(v, |vs|, w, x);
  }

  lemma BytesOf(v: Vector, n: nat, w: nat, x: nat)
    requires v.Packed? && v.n == n && v.bitWidth == w && |v.excVals| == x
    ensures v.Bytes() == DecimalBytes(n, w, x)
  {
  }

  /** v is vs under the pair searched for when that is smaller than raw, and otherwise raw. */
  ghost predicate Encoded(a: Arith, vs: seq<F64>, v: Vector) {
    exists e: nat, f: nat, lo: I64, hi: I64, size: nat ::
      && Chosen(EligibleIn(a, Sample(vs)), CostIn(a, Sample(vs)), e, f)
      && DecimalSize(a, vs, e, f, lo, hi, size)
      && if size < 1 + 8 * |vs| then Decimal(a, vs, v, e, f, lo, hi, size) && Contents(a, vs, v)
         else v == Raw(vs)
  }

  /** A vector is stored in decimals under the pair searched for exactly when that is smaller than
      raw, and decodes to itself. */
  method EncodeVector(a: Arith, vs: seq<F64>) returns (v: Vector)
    requires |vs| <= U16
    ensures WellFormed(v) && Decoded(a, v) == vs
    ensures Encoded(a, vs, v)
    ensures v.Bytes() <= 1 + 8 * |vs| && (v.Packed? ==> v.Bytes() < 1 + 8 * |vs|)
  {
    v := Compress(a, vs);
    if v.Bytes() >= 1 + 8 * |vs| {
      v := Raw(vs);
    }
  }

  method Pick(vs: seq<F64>, pos: seq<nat>) returns (vals: seq<F64>)
    requires Within(pos, |vs|)
    ensures |vals| == |pos| && forall k :: 0 <= k < |pos| ==> vals[k] == vs[pos[k]]
  {
    vals := [];
    for j := 0 to |pos|
      invariant |vals| == j && forall k :: 0 <= k < j ==> vals[k] == vs[pos[k]]
    {
      vals := vals + [vs[pos[j]]];
    }
  }

  // ---------------------------------------------------------------- columns

  function ColumnBytes(vectors: seq<Vector>): nat {
    if vectors == [] then 0 else ColumnBytes(vectors[..|vectors| - 1]) + vectors[|vectors| - 1].Bytes()
  }

  ghost predicate AllWellFormed(vectors: seq<Vector>) {
    forall i :: 0 <= i < |vectors| ==> WellFormed(vectors[i])
  }

  ghost function DecodedColumn(a: Arith, vectors: seq<Vector>): seq<F64>
    requires AllWellFormed(vectors)
  {
    if vectors == [] then [] else DecodedColumn(a, vectors[..|vectors| - 1]) + Decoded(a, vectors[|vectors| - 1])
  }

  /** Where the k-th 1024 values of n start, the last of which may be fewer. */
  function Cut(n: nat, k: nat): (i: nat)
    ensures i <= n
  {
    if 1024 * k <= n then 1024 * k else n
  }

  function Chunk(vs: seq<F64>, k: nat): seq<F64>
    ensures Cut(|vs|, k) <= Cut(|vs|, k + 1)
  {
    vs[Cut(|vs|, k)..Cut(|vs|, k + 1)]
  }

  lemma ChunkFollows(vs: seq<F64>, k: nat)
    ensures Cut(|vs|, k) + |Chunk(vs, k)| == Cut(|vs|, k + 1)
    ensures |Chunk(vs, k)| <= 1024 && vs[..Cut(|vs|, k)] + Chunk(vs, k) == vs[..Cut(|vs|, k + 1)]
  {
  }

  lemma LastCut(n: nat)
    ensures Cut(n, (n + 1023) / 1024) == n
  {
  }

  ghost predicate AllEncoded(a: Arith, vs: seq<F64>, vectors: seq<Vector>) {
    forall k :: 0 <= k < |vectors| ==> Encoded(a, Chunk(vs, k), vectors[k])
  }

  /** The vectors hold the first chunks. */
  ghost predicate SoFar(a: Arith, vs: seq<F64>, vectors: seq<Vector>) {
    && AllWellFormed(vectors) && DecodedColumn(a, vectors) == vs[..Cut(|vs|, |vectors|)]
    && ColumnBytes(vectors) <= 8 * Cut(|vs|, |vectors|) + |vectors|
  }

  lemma OneMore(a: Arith, vs: seq<F64>, vectors: seq<Vector>, v: Vector, chunk: seq<F64>)
    requires SoFar(a, vs, vectors) && chunk == Chunk(vs, |vectors|)
    requires WellFormed(v) && Decoded(a, v) == chunk && v.Bytes() <= 1 + 8 * |chunk|
    ensures SoFar(a, vs, vectors + [v])
  {
    OneMoreDecoded(a, vectors, v);
    ChunkFollows(vs, |vectors|);
  }

  lemma Whole(a: Arith, vs: seq<F64>, vectors: seq<Vector>)
    requires SoFar(a, vs, vectors) && |vectors| == (|vs| + 1023) / 1024
    ensures DecodedColumn(a, vectors) == vs && ColumnBytes(vectors) <= 8 * |vs| + |vectors|
  {
    LastCut(|vs|);
    assert vs[..|vs|] == vs;
  }

  lemma OneMoreEncoded(a: Arith, vs: seq<F64>, vectors: seq<Vector>, v: Vector)
    requires AllEncoded(a, vs, vectors) && Encoded(a, Chunk(vs, |vectors|), v)
    ensures AllEncoded(a, vs, vectors + [v])
  {
    var good := (k: nat, v: Vector) => Encoded(a, Chunk(vs, k), v);
    assert forall k :: 0 <= k < |vectors| ==> good(k, vectors[k]);
    AppendHolds(good, vectors, v);
    var more := vectors + [v];
    assert forall k :: 0 <= k < |more| ==> good(k, more[k]);
  }

  lemma AppendHolds(good: (nat, Vector) -> bool, s: seq<Vector>, v: Vector)
    requires (forall k :: 0 <= k < |s| ==> good(k, s[k])) && good(|s|, v)
    ensures forall k :: 0 <= k < |s| + 1 ==> good(k, (s + [v])[k])
  {
  }

  lemma OneMoreDecoded(a: Arith, vectors: seq<Vector>, v: Vector)
    requires AllWellFormed(vectors) && WellFormed(v)
    ensures var more := vectors + [v];
            && AllWellFormed(more) && DecodedColumn(a, more) == DecodedColumn(a, vectors) + Decoded(a, v)
            && ColumnBytes(more) == ColumnBytes(vectors) + v.Bytes()
  {
    var more := vectors + [v];
    assert more[..|more| - 1] == vectors;
  }

  /** The column decodes to the values, is cut every 1024 values, and costs at most eight bytes a
      value and one byte a vector. */
  method AlpEncode(a: Arith, vs: seq<F64>) returns (vectors: seq<Vector>)
    ensures AllWellFormed(vectors) && DecodedColumn(a, vectors) == vs
    ensures |vectors| == (|vs| + 1023) / 1024 && AllEncoded(a, vs, vectors)
    ensures ColumnBytes(vectors) <= 8 * |vs| + |vectors|
  {
    vectors := [];
    for k := 0 to (|vs| + VECTOR - 1) / VECTOR
      invariant |vectors| == k && SoFar(a, vs, vectors) && AllEncoded(a, vs, vectors)
    {
      var chunk := Chunk(vs, k);
      ChunkFollows(vs, k);
      var v := EncodeVector(a, chunk);
      OneMore(a, vs, vectors, v, chunk);
      OneMoreEncoded(a, vs, vectors, v);
      vectors := vectors + [v];
    }
    Whole(a, vs, vectors);
  }

  method AlpDecode(a: Arith, vectors: seq<Vector>) returns (out: seq<F64>)
    requires AllWellFormed(vectors)
    ensures out == DecodedColumn(a, vectors)
  {
    out := [];
    for i := 0 to |vectors|
      invariant out == DecodedColumn(a, vectors[..i])
    {
      assert vectors[..i + 1][..i] == vectors[..i];
      out := DecodeVector(a, vectors[i], out);
    }
    assert vectors[..|vectors|] == vectors;
  }

  /** Bit-exact round trip of any column under any float arithmetic. */
  method RoundTrip(a: Arith, vs: seq<F64>) returns (out: seq<F64>)
    ensures out == vs
  {
    var vectors := AlpEncode(a, vs);
    out := AlpDecode(a, vectors);
  }
}
