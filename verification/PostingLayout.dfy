module PostingLayout {
  // What the bytes of a packed posting list are, read off the bytes: where each block and each
  // number of the tail starts, and which bits hold what.

  import opened Common
  import opened BitMath
  import opened BitFields
  import opened Postings

  /** What a block stores of a document: its distance from the one before less one, the first
      document of the list as it is. */
  function Gap(ps: seq<Posting>, i: nat): int
    requires i < |ps|
  {
    if i == 0 then ps[0].doc else ps[i].doc - ps[i - 1].doc - 1
  }

  /** What the tail stores of a document: its distance from the one before. */
  function Delta(ps: seq<Posting>, i: nat): int
    requires i < |ps|
  {
    if i == 0 then ps[0].doc else ps[i].doc - ps[i - 1].doc
  }

  /** No narrower field holds every value. */
  ghost predicate Narrowest(vals: seq<nat>, w: nat) {
    Fit(vals, w) && (w > 0 ==> exists v <- vals :: Pow2(w - 1) <= v)
  }

  /** A byte w, the bits that the largest value takes, and after it the values in fields of w bits. */
  ghost predicate ColumnAt(out: seq<Byte>, at: nat, end: nat, vals: seq<nat>) {
    && at < |out|
    && var w: nat := out[at];
       && end == at + 1 + 16 * w <= |out| && Narrowest(vals, w)
       && forall i :: 0 <= i < |vals| ==> Field(out[at + 1..end], w, i) == vals[i]
  }

  /** The gaps and counts of 128 postings from `first` on. */
  ghost predicate BlockValues(ps: seq<Posting>, first: nat, gaps: seq<nat>, counts: seq<nat>) {
    && first + 128 <= |ps| && |gaps| == |counts| == 128
    && (forall i :: 0 <= i < 128 ==> gaps[i] == Gap(ps, first + i))
    && (forall i :: 0 <= i < 128 ==> counts[i] == ps[first + i].tf - 1)
  }

  /** A block: first the gaps, then the counts. */
  ghost predicate BlockAt(ps: seq<Posting>, first: nat, out: seq<Byte>, at: nat, end: nat) {
    exists mid: nat, gaps: seq<nat>, counts: seq<nat> ::
      BlockValues(ps, first, gaps, counts) && ColumnAt(out, at, mid, gaps) && ColumnAt(out, mid, end, counts)
  }

  /** The digits of v to the base 128, lowest first, each but the last with 128 added. */
  ghost predicate VarintAt(out: seq<Byte>, at: nat, end: nat, v: int) {
    && at < end <= |out| && 0 <= v < Pow2(7 * (end - at)) && (end - at > 1 ==> Pow2(7 * (end - at - 1)) <= v)
    && forall i :: 0 <= i < end - at ==> out[at + i] == Digit(v, i) + (if i + 1 < end - at then 128 else 0)
  }

  function Digit(v: nat, i: nat): nat {
    v / Pow2(7 * i) % 128
  }

  /** A posting of the tail: first the distance, then the count. */
  ghost predicate PostingAt(ps: seq<Posting>, i: nat, out: seq<Byte>, at: nat, end: nat)
    requires i < |ps|
  {
    exists mid: nat :: VarintAt(out, at, mid, Delta(ps, i)) && VarintAt(out, mid, end, ps[i].tf)
  }

  /** Blocks one after another from the start: where each begins, and where the last ends. */
  ghost predicate Blocks(ps: seq<Posting>, out: seq<Byte>, starts: seq<nat>) {
    && |starts| >= 1 && 128 * (|starts| - 1) <= |ps| && starts[0] == 0
    && forall k :: 0 <= k < |starts| - 1 ==> BlockAt(ps, 128 * k, out, starts[k], starts[k + 1])
  }

  /** Postings one after another, from the i-th on. */
  ghost predicate Others(ps: seq<Posting>, i: nat, out: seq<Byte>, starts: seq<nat>) {
    && |starts| >= 1 && i + |starts| - 1 <= |ps|
    && forall j :: 0 <= j < |starts| - 1 ==> PostingAt(ps, i + j, out, starts[j], starts[j + 1])
  }

  /** The full blocks from the start, and after them the other postings to the end. */
  ghost predicate LaidOut(ps: seq<Posting>, out: seq<Byte>, blocks: seq<nat>, tail: seq<nat>) {
    && |blocks| == |ps| / 128 + 1 && Blocks(ps, out, blocks)
    && |tail| == |ps| % 128 + 1 && Others(ps, |ps| - |ps| % 128, out, tail)
    && tail[0] == blocks[|blocks| - 1] && tail[|tail| - 1] == |out|
  }

  ghost predicate Layout(ps: seq<Posting>, out: seq<Byte>) {
    exists blocks: seq<nat>, tail: seq<nat> :: LaidOut(ps, out, blocks, tail)
  }

  // ---------------------------------------------------------------- digits

  lemma {:induction false} VarintRange(v: nat)
    ensures var n := |Varint(v)|; v < Pow2(7 * n) && (n > 1 ==> Pow2(7 * (n - 1)) <= v)
  {
    Pow2Byte();
    if v >= 128 {
      VarintRange(v / 128);
      var n := |Varint(v / 128)|;
      Pow2Sum(7, 7 * n, 7 * (n + 1));
      Pow2Sum(7, 7 * (n - 1), 7 * n);
    }
  }

  /** The bytes of a number in base 128. */
  lemma {:induction false} VarintDigit(v: nat, i: nat)
    requires i < |Varint(v)|
    ensures Varint(v)[i] == Digit(v, i) + (if i + 1 < |Varint(v)| then 128 else 0)
  {
    if i > 0 {
      VarintDigit(v / 128, i - 1);
      DigitOfRest(v, i);
    } else {
      assert Pow2(0) == 1;
    }
  }

  lemma DigitOfRest(v: nat, i: nat)
    requires i > 0
    ensures Digit(v, i) == Digit(v / 128, i - 1)
  {
    Pow2Byte();
    Pow2Sum(7, 7 * (i - 1), 7 * i);
    DivDiv(v, 128, Pow2(7 * (i - 1)));
  }

  // ---------------------------------------------------------------- from bytes written to bytes placed

  lemma VarintPlaced(out: seq<Byte>, at: nat, v: nat, rest: seq<Byte>)
    requires at <= |out| && out[at..] == Varint(v) + rest
    ensures VarintAt(out, at, at + |Varint(v)|, v) && out[at + |Varint(v)|..] == rest
  {
    VarintRange(v);
    var b := Varint(v);
    assert out[at + |b|..] == out[at..][|b|..];
    forall i | 0 <= i < |b| ensures out[at + i] == Digit(v, i) + (if i + 1 < |b| then 128 else 0) {
      VarintDigit(v, i);
      assert out[at + i] == out[at..][i] == b[i];
    }
  }

  lemma BytesPlaced(out: seq<Byte>, at: nat, first: Byte, body: seq<Byte>, rest: seq<Byte>)
    requires at <= |out| && out[at..] == [first] + body + rest
    ensures var end := at + 1 + |body|;
            && end <= |out| && out[at] == first && out[at + 1..end] == body && out[end..] == rest
  {
    var end := at + 1 + |body|;
    assert out[at] == out[at..][0];
    assert out[end..] == out[at..][1 + |body|..];
    assert out[at + 1..end] == out[at..][1..1 + |body|];
  }

  lemma ColumnPlaced(out: seq<Byte>, at: nat, w: Byte, vals: seq<nat>, rest: seq<Byte>)
    requires at <= |out| && |vals| == 128 && Narrowest(vals, w)
    requires out[at..] == [w] + Packed(vals, w) + rest
    ensures ColumnAt(out, at, at + 1 + 16 * w, vals) && out[at + 1 + 16 * w..] == rest
  {
    var end := at + 1 + 16 * w;
    BytesPlaced(out, at, w, Packed(vals, w), rest);
    PackedNumber(vals, w);
    forall i | 0 <= i < |vals| ensures Field(out[at + 1..end], w, i) == vals[i] {
      NonNegative(w, i);
      FieldIs(vals, w, i, w * i);
    }
  }

  lemma PackedNumber(vals: seq<nat>, w: nat)
    requires Fit(vals, w)
    ensures FromBytes(Packed(vals, w)) == Fields(vals, w)
  {
    NonNegative(w, |vals|);
    FieldsBound(vals, w);
    Pow2Monotone(w * |vals|, 8 * PackedLength(w, |vals|));
    FromToBytes(Fields(vals, w), PackedLength(w, |vals|));
  }

  lemma OneMoreBlock(ps: seq<Posting>, out: seq<Byte>, starts: seq<nat>, end: nat)
    requires Blocks(ps, out, starts) && 128 * |starts| <= |ps|
    requires BlockAt(ps, 128 * (|starts| - 1), out, starts[|starts| - 1], end)
    ensures Blocks(ps, out, starts + [end])
  {
    var more := starts + [end];
    forall k | 0 <= k < |more| - 1 ensures BlockAt(ps, 128 * k, out, more[k], more[k + 1]) {
      if k < |starts| - 1 {
        assert more[k] == starts[k] && more[k + 1] == starts[k + 1];
      }
    }
  }

  lemma OneMorePosting(ps: seq<Posting>, i: nat, out: seq<Byte>, starts: seq<nat>, end: nat)
    requires Others(ps, i, out, starts) && i + |starts| <= |ps|
    requires PostingAt(ps, i + |starts| - 1, out, starts[|starts| - 1], end)
    ensures Others(ps, i, out, starts + [end])
  {
    var more := starts + [end];
    forall j | 0 <= j < |more| - 1 ensures PostingAt(ps, i + j, out, more[j], more[j + 1]) {
      if j < |starts| - 1 {
        assert more[j] == starts[j] && more[j + 1] == starts[j + 1];
      }
    }
  }
}
