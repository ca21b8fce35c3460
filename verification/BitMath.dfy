/** Bit operations on naturals and little-endian numbers, shared by the two packed codecs. */
module BitMath {

  import opened Common

  type Byte = b: int | 0 <= b < 256

  function Pow2(n: nat): (p: nat)
    ensures 1 <= p
  {
    if n == 0 then 1 else 2 * Pow2(n - 1)
  }

  lemma {:induction false} Pow2Add(a: nat, b: nat)
    ensures Pow2(a + b) == Pow2(a) * Pow2(b)
  {
    if a > 0 {
      Pow2Add(a - 1, b);
      assert Pow2(a + b) == 2 * (Pow2(a - 1) * Pow2(b)) == (2 * Pow2(a - 1)) * Pow2(b);
    }
  }

  lemma {:induction false} Pow2Monotone(a: nat, b: nat)
    requires a <= b
    ensures Pow2(a) <= Pow2(b)
  {
    if a < b {
      Pow2Monotone(a, b - 1);
    }
  }

  lemma Pow2Byte()
    ensures Pow2(7) == 128 && Pow2(8) == 256
  {
    assert Pow2(4) == 16;
    Pow2Add(4, 4);
  }

  /** One more than the largest u32. */
  const WORD32: nat := 0x1_0000_0000

  lemma Word32Is()
    ensures Pow2(32) == WORD32
  {
    Pow2Byte();
    Pow2Add(8, 8);
    Pow2Add(16, 16);
  }

  lemma Pow2Values()
    ensures Pow2(7) == 128 && Pow2(8) == 256 && Pow2(32) == 0x1_0000_0000
    ensures Pow2(64) == 0x1_0000_0000_0000_0000
  {
    assert Pow2(4) == 16;
    Pow2Add(4, 4);
    Pow2Add(8, 8);
    Pow2Add(16, 16);
    Pow2Add(32, 32);
  }

  /** `a | b` */
  function BitOr(a: nat, b: nat): nat
    decreases a + b
  {
    if a == 0 then b else if b == 0 then a else
      2 * BitOr(a / 2, b / 2) + (if a % 2 == 1 || b % 2 == 1 then 1 else 0)
  }

  /** `a & b` */
  function BitAnd(a: nat, b: nat): nat
    decreases a + b
  {
    if a == 0 || b == 0 then 0 else
      2 * BitAnd(a / 2, b / 2) + (if a % 2 == 1 && b % 2 == 1 then 1 else 0)
  }

  lemma OrHalves(a: nat, b: nat)
    ensures BitOr(a, b) == 2 * BitOr(a / 2, b / 2) + (if a % 2 == 1 || b % 2 == 1 then 1 else 0)
  {
    if a == 0 || b == 0 {
      assert BitOr(0, b / 2) == b / 2 && BitOr(a / 2, 0) == a / 2;
    }
  }

  lemma OrBits(c: nat, d: nat, i: nat)
    requires i <= 1
    ensures BitOr(2 * c + i, 2 * d) == 2 * BitOr(c, d) + i
  {
    OrHalves(2 * c + i, 2 * d);
  }

  lemma Doubled(h: nat, p: nat, q: nat)
    requires q == 2 * p
    ensures 0 <= h * p && h * q == 2 * (h * p)
  {
  }

  /** One more low bit below an or that adds. */
  lemma OrLowBit(y: nat, i: nat, hp: nat, gp: nat, cp: nat)
    requires i <= 1 && BitOr(y + hp, gp) == y + cp
    ensures BitOr(2 * y + i + 2 * hp, 2 * gp) == 2 * y + i + 2 * cp
  {
    OrBits(y + hp, gp, i);
  }

  /** Or with a multiple of 2^k leaves the low k bits alone. */
  lemma {:induction false} OrAbove(x: nat, h: nat, g: nat, k: nat)
    requires x < Pow2(k)
    ensures BitOr(x + h * Pow2(k), g * Pow2(k)) == x + BitOr(h, g) * Pow2(k)
    decreases k
  {
    if k > 0 {
      var p, c := Pow2(k - 1), BitOr(h, g);
      OrAbove(x / 2, h, g, k - 1);
      Doubled(h, p, Pow2(k));
      Doubled(g, p, Pow2(k));
      Doubled(c, p, Pow2(k));
      OrLowBit(x / 2, x % 2, h * p, g * p, c * p);
    }
  }

  /** Bits that do not overlap add up. */
  lemma OrDisjoint(x: nat, g: nat, k: nat)
    requires x < Pow2(k)
    ensures BitOr(x, g * Pow2(k)) == x + g * Pow2(k)
  {
    OrAbove(x, 0, g, k);
  }

  /** Masking with 2^w - 1 is the remainder. */
  lemma {:induction false} AndMask(x: nat, w: nat)
    ensures BitAnd(x, Pow2(w) - 1) == x % Pow2(w)
    decreases w
  {
    if w > 0 {
      var p := Pow2(w - 1);
      AndMask(x / 2, w - 1);
      HalfMod(x, p);
      AndHalves(x, 2 * p - 1);
    }
  }

  lemma AndHalves(a: nat, b: nat)
    ensures BitAnd(a, b) == 2 * BitAnd(a / 2, b / 2) + (if a % 2 == 1 && b % 2 == 1 then 1 else 0)
  {
    if a == 0 || b == 0 {
      assert BitAnd(0, b / 2) == 0 && BitAnd(a / 2, 0) == 0;
    }
  }

  lemma HalfMod(x: nat, p: nat)
    requires 1 <= p
    ensures x % (2 * p) == 2 * ((x / 2) % p) + x % 2
  {
    var q, r := (x / 2) / p, (x / 2) % p;
    assert x == 2 * (q * p + r) + x % 2;
    ModUnique(x, 2 * p, q, 2 * r + x % 2);
  }

  lemma ModUnique(x: int, m: nat, q: int, r: nat)
    requires r < m && x == q * m + r
    ensures x % m == r && x / m == q
  {
    var q', r' := x / m, x % m;
    assert x == q' * m + r' && 0 <= r' < m;
    if q != q' {
      assert (q - q') * m == r' - r;
      if q < q' {
        MulAtLeast(q' - q, m);
      } else {
        MulAtLeast(q - q', m);
      }
    }
  }

  lemma MulAtLeast(a: nat, m: nat)
    requires 1 <= a
    ensures a * m >= m
  {
  }

  /** The number of significant bits: 0 for 0, otherwise one more than the top bit's index.
      Written with leading_zeros in both codecs. */
  function BitLength(x: nat): (w: nat)
    ensures x < Pow2(w)
    ensures w > 0 ==> Pow2(w - 1) <= x
  {
    if x == 0 then 0 else 1 + BitLength(x / 2)
  }

  lemma {:induction false} BitLengthBound(x: nat, w: nat)
    requires x < Pow2(w)
    ensures BitLength(x) <= w
  {
    if BitLength(x) > w {
      Pow2Monotone(w, BitLength(x) - 1);
    }
  }

  // ---------------------------------------------------------------- little-endian numbers

  /** The number whose base-256 digits are the bytes, lowest first. */
  function FromBytes(b: seq<Byte>): nat {
    if b == [] then 0 else b[0] + 256 * FromBytes(b[1..])
  }

  function ToBytes(x: nat, n: nat): (b: seq<Byte>)
    ensures |b| == n
  {
    if n == 0 then [] else [x % 256] + ToBytes(x / 256, n - 1)
  }

  lemma NextByte(n: nat)
    requires n > 0
    ensures Pow2(8 * n) == 256 * Pow2(8 * (n - 1))
  {
    assert Pow2(8) == 256;
    Pow2Add(8, 8 * (n - 1));
  }

  lemma {:induction false} FromToBytes(x: nat, n: nat)
    requires x < Pow2(8 * n)
    ensures FromBytes(ToBytes(x, n)) == x
  {
    if n > 0 {
      NextByte(n);
      FromToBytes(x / 256, n - 1);
    }
  }

  lemma ByteBelow(d: Byte, f: nat, p: nat)
    requires f < p
    ensures d + 256 * f < 256 * p && (d + 256 * f) % 256 == d && (d + 256 * f) / 256 == f
  {
  }

  lemma {:induction false} ToFromBytes(b: seq<Byte>)
    ensures FromBytes(b) < Pow2(8 * |b|)
    ensures ToBytes(FromBytes(b), |b|) == b
  {
    if b != [] {
      var rest := b[1..];
      ToFromBytes(rest);
      NextByte(|b|);
      ByteBelow(b[0], FromBytes(rest), Pow2(8 * |rest|));
      assert b == [b[0]] + rest;
    }
  }

  lemma ScaledSum(d: int, x: int, p: int, f: int)
    ensures d + 256 * (x + p * f) == (d + 256 * x) + (256 * p) * f
  {
    assert 256 * (p * f) == (256 * p) * f;
  }

  lemma {:induction false} FromBytesConcat(a: seq<Byte>, b: seq<Byte>)
    ensures FromBytes(a + b) == FromBytes(a) + Pow2(8 * |a|) * FromBytes(b)
  {
    if a == [] {
      assert a + b == b;
    } else {
      var rest := a[1..];
      assert (a + b)[1..] == rest + b;
      FromBytesConcat(rest, b);
      NextByte(|a|);
      ScaledSum(a[0], FromBytes(rest), Pow2(8 * |rest|), FromBytes(b));
    }
  }

  /** x * 2^s by doubling. */
  function Scaled(x: nat, s: nat): nat {
    if s == 0 then x else 2 * Scaled(x, s - 1)
  }

  lemma {:induction false} ScaledIs(x: nat, s: nat)
    ensures Scaled(x, s) == Pow2(s) * x
  {
    if s > 0 {
      ScaledIs(x, s - 1);
      assert Pow2(s) * x == 2 * (Pow2(s - 1) * x);
    }
  }

  /** Adding q * v below a factor p. */
  lemma Lift(base: nat, p: nat, q: nat, s: nat, a: nat, a': nat, v: nat, total: nat)
    requires s == p * q && a' == a + q * v && base + p * a == total
    ensures base + p * a' == total + s * v
  {
    Distribute(p, q, a, v);
  }

  /** Fixed-width fields laid end to end, the first in the lowest bits. */
  function Fields(vals: seq<nat>, w: nat): nat {
    if vals == [] then 0 else vals[0] + Pow2(w) * Fields(vals[1..], w)
  }

  /** Every value fits a u32. */
  ghost predicate Fit32(vals: seq<nat>) {
    forall v <- vals :: v < WORD32
  }

  ghost predicate Fit(vals: seq<nat>, w: nat) {
    forall v <- vals :: v < Pow2(w)
  }

  lemma Distribute(p: int, q: int, f: int, v: int)
    ensures p * (f + q * v) == p * f + (p * q) * v
  {
  }

  lemma MulOneMore(w: nat, n: nat)
    requires n > 0
    ensures 0 <= w * (n - 1) && w * n == w + w * (n - 1)
  {
  }

  lemma Pow2Fields(w: nat, n: nat)
    requires n > 0
    ensures 0 <= w * (n - 1) && Pow2(w * n) == Pow2(w) * Pow2(w * (n - 1))
  {
    MulOneMore(w, n);
    var rest: nat, all: nat := w * (n - 1), w * n;
    Pow2Sum(w, rest, all);
  }

  lemma Pow2Sum(a: nat, b: nat, c: nat)
    requires c == a + b
    ensures Pow2(c) == Pow2(a) * Pow2(b)
  {
    Pow2Add(a, b);
  }

  lemma {:induction false} FieldsAppend(vals: seq<nat>, w: nat, v: nat)
    ensures Fields(vals + [v], w) == Fields(vals, w) + Pow2(w * |vals|) * v
  {
    if vals == [] {
      assert [v][1..] == [];
    } else {
      assert (vals + [v])[1..] == vals[1..] + [v];
      FieldsAppend(vals[1..], w, v);
      Pow2Fields(w, |vals|);
      Distribute(Pow2(w), Pow2(w * |vals[1..]|), Fields(vals[1..], w), v);
    }
  }

  lemma FitTail(vals: seq<nat>, w: nat)
    requires Fit(vals, w) && vals != []
    ensures vals[0] < Pow2(w) && Fit(vals[1..], w)
  {
    assert vals[0] in vals;
    assert forall v <- vals[1..] :: v in vals;
  }

  lemma FieldBelow(p: nat, q: nat, v: nat, f: nat)
    requires v < p && f < q
    ensures v + p * f < p * q
  {
    var pf, pq, up := p * f, p * q, p * (f + 1);
    assert up <= pq by {
      MulMonotone(f + 1, q, p);
    }
    assert up == pf + p;
  }

  lemma SmallMod(x: nat, m: nat)
    requires x < m
    ensures x % m == x
  {
  }

  lemma {:induction false} FieldsBound(vals: seq<nat>, w: nat)
    requires Fit(vals, w)
    ensures Fields(vals, w) < Pow2(w * |vals|)
  {
    if vals != [] {
      FitTail(vals, w);
      FieldsBound(vals[1..], w);
      Pow2Fields(w, |vals|);
      FieldBelow(Pow2(w), Pow2(w * |vals[1..]|), vals[0], Fields(vals[1..], w));
    }
  }

  lemma FirstField(vals: seq<nat>, w: nat)
    requires vals != [] && Fit(vals, w)
    ensures Fields(vals, w) % Pow2(w) == vals[0] && Fields(vals, w) / Pow2(w) == Fields(vals[1..], w)
  {
    FitTail(vals, w);
    ModUnique(Fields(vals, w), Pow2(w), Fields(vals[1..], w), vals[0]);
  }

  /** Fields of the same width can be told apart. */
  lemma {:induction false} FieldsInjective(a: seq<nat>, b: seq<nat>, w: nat)
    requires |a| == |b| && Fit(a, w) && Fit(b, w) && Fields(a, w) == Fields(b, w)
    ensures a == b
  {
    if a != [] {
      FirstField(a, w);
      FirstField(b, w);
      FitTail(a, w);
      FitTail(b, w);
      FieldsInjective(a[1..], b[1..], w);
      assert a == [a[0]] + a[1..] && b == [b[0]] + b[1..];
    }
  }

  /** Shifting x into free bits and or-ing adds, unless the word is too small. */
  lemma OrShifted(v: nat, x: nat, shift: nat, word: nat)
    requires v < Pow2(shift) && 0 <= Pow2(shift) * x < Pow2(word)
    ensures BitOr(v, x * Pow2(shift) % Pow2(word)) == v + Pow2(shift) * x
  {
    OrDisjoint(v, x, shift);
    SmallMod(Pow2(shift) * x, Pow2(word));
  }

  lemma Reassociate(a: int, b: int, c: int)
    ensures (a * b) * c == a * (b * c)
  {
  }
}
