/** Fields of equal width laid end to end, and reading one of them. */
module BitFields {
  import opened Common
  import opened BitMath

  /** The i-th field of w bits. */
  function Field(bytes: seq<Byte>, w: nat, i: nat): nat {
    NonNegative(w, i);
    FromBytes(bytes) / Pow2(w * i) % Pow2(w)
  }

  lemma DivDiv(x: nat, a: nat, b: nat)
    requires a >= 1 && b >= 1
    ensures a * b >= 1 && x / (a * b) == x / a / b
  {
    var q, r := x / a, x % a;
    var q', r' := q / b, q % b;
    MulAtLeast(a, b);
    FieldBelow(a, b, r, r');
    assert x == a * (b * q' + r') + r;
    Distribute(a, b, r', q');
    NonNegative(a, r');
    ModUnique(x, a * b, q', r + a * r');
  }

  lemma {:induction false} FieldIs(vals: seq<nat>, w: nat, i: nat, k: nat)
    requires i < |vals| && Fit(vals, w) && k == w * i
    ensures Fields(vals, w) / Pow2(k) % Pow2(w) == vals[i]
  {
    var rest := vals[1..];
    assert vals[0] in vals && forall v <- rest :: v in vals;
    FieldsBelow(vals, w);
    if i > 0 {
      MulOneMore(w, i);
      FieldIs(rest, w, i - 1, k - w);
      Pow2Sum(w, k - w, k);
      DivDiv(Fields(vals, w), Pow2(w), Pow2(k - w));
    }
  }

  lemma FieldsBelow(vals: seq<nat>, w: nat)
    requires vals != [] && vals[0] < Pow2(w)
    ensures Fields(vals, w) % Pow2(w) == vals[0] && Fields(vals, w) / Pow2(w) == Fields(vals[1..], w)
  {
    LowestField(Fields(vals, w), Pow2(w), vals[0], Fields(vals[1..], w));
  }

  lemma LowestField(total: nat, m: nat, x: nat, f: nat)
    requires x < m && total == x + m * f
    ensures total % m == x && total / m == f
  {
    assert total == f * m + x;
    ModUnique(total, m, f, x);
  }

  lemma FitPrefix(xs: seq<nat>, w: nat, i: nat)
    requires i < |xs| && Fit(xs, w)
    ensures Fit(xs[..i], w) && xs[i] < Pow2(w)
  {
    forall x | x in xs[..i] ensures x in xs {
    }
    assert xs[i] in xs;
  }

  lemma PrefixBound(xs: seq<nat>, w: nat, n: nat, k: nat)
    requires Fit(xs, w) && n == |xs| && k == w * n
    ensures Fields(xs, w) < Pow2(k)
  {
    FieldsBound(xs, w);
  }

  lemma FieldsSplit(xs: seq<nat>, w: nat, i: nat, k: nat)
    requires i < |xs| && Fit(xs, w) && k == w * i
    ensures Fields(xs[..i], w) < Pow2(k) && xs[i] < Pow2(w)
    ensures Fields(xs, w) == Fields(xs[..i], w) + Pow2(k) * (xs[i] + Pow2(w) * Fields(xs[i + 1..], w))
  {
    FitPrefix(xs, w, i);
    PrefixBound(xs[..i], w, i, k);
    FieldsCut(xs, w, i, k);
    FieldsHead(xs, w, i);
    PutInside(Fields(xs, w), Fields(xs[..i], w), Pow2(k), Fields(xs[i..], w), xs[i] + Pow2(w) * Fields(xs[i + 1..], w));
  }

  lemma PutInside(total: int, low: int, p: int, x: int, y: int)
    requires total == low + p * x && x == y
    ensures total == low + p * y
  {
  }

  lemma FieldsHead(xs: seq<nat>, w: nat, i: nat)
    requires i < |xs|
    ensures Fields(xs[i..], w) == xs[i] + Pow2(w) * Fields(xs[i + 1..], w)
  {
    assert xs[i..][1..] == xs[i + 1..];
  }

  lemma FieldsCut(xs: seq<nat>, w: nat, i: nat, k: nat)
    requires i <= |xs| && k == w * i
    ensures Fields(xs, w) == Fields(xs[..i], w) + Pow2(k) * Fields(xs[i..], w)
  {
    assert xs == xs[..i] + xs[i..];
    FieldsConcat(xs[..i], xs[i..], w, k);
  }

  lemma {:induction false} FieldsConcat(xs: seq<nat>, ys: seq<nat>, w: nat, k: nat)
    requires k == w * |xs|
    ensures Fields(xs + ys, w) == Fields(xs, w) + Pow2(k) * Fields(ys, w)
  {
    if xs == [] {
      assert xs + ys == ys;
    } else {
      MulOneMore(w, |xs|);
      var rest, less: nat := xs[1..], k - w;
      assert (xs + ys)[1..] == rest + ys;
      FieldsConcat(rest, ys, w, less);
      Pow2Sum(w, less, k);
      ConcatStep(xs[0], Pow2(w), Pow2(less), Pow2(k), Fields(rest, w), Fields(ys, w), Fields(rest + ys, w));
    }
  }

  lemma ConcatStep(v: nat, m: nat, p: nat, q: nat, f: nat, y: nat, both: nat)
    requires q == m * p && both == f + p * y
    ensures v + m * both == (v + m * f) + q * y
  {
    Distribute(m, p, f, y);
  }
}
