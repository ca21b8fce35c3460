/** The block layout over the packer: per full block a width byte, the packed document deltas
    minus one, a width byte and the packed frequencies minus one; then a varint tail. */
module PostingBlocks {
  import opened BitMath
  import opened Postings
  import opened PostingLayout

  /** Strictly increasing u32 documents, every one occurring at least once. */
  ghost predicate Valid(ps: seq<Posting>) {
    && (forall i, j :: 0 <= i < j < |ps| ==> ps[i].doc < ps[j].doc)
    && (forall i :: 0 <= i < |ps| ==> ps[i].doc < WORD32 && 1 <= ps[i].tf < WORD32)
  }

  /** A list that continues after document `base`; -1 at the head of a list. */
  ghost predicate Follows(ps: seq<Posting>, base: int) {
    -1 <= base && (ps == [] || (base < ps[0].doc < WORD32 && 1 <= ps[0].tf < WORD32 && Follows(ps[1..], ps[0].doc)))
  }

  lemma {:induction false} ValidFollows(ps: seq<Posting>, base: int)
    requires Valid(ps) && -1 <= base && (ps != [] ==> base < ps[0].doc)
    ensures Follows(ps, base)
  {
    if ps != [] {
      ValidFollows(ps[1..], ps[0].doc);
    }
  }

  /** The document before position i. */
  function Previous(ps: seq<Posting>, base: int, i: nat): int
    requires i <= |ps|
  {
    if i == 0 then base else ps[i - 1].doc
  }

  function Minus(a: int, b: int): nat {
    if b <= a then a - b else 0
  }

  /** The gaps a block stores: delta minus one, the first document of a list as it is. */
  function Gaps(ps: seq<Posting>, base: int): seq<nat> {
    if ps == [] then [] else [Minus(ps[0].doc, base + 1)] + Gaps(ps[1..], ps[0].doc)
  }

  function Counts(ps: seq<Posting>): seq<nat> {
    if ps == [] then [] else [Minus(ps[0].tf, 1)] + Counts(ps[1..])
  }

  function Max(s: seq<nat>): nat {
    if s == [] then 0 else
      var m := Max(s[..|s| - 1]);
      if m < s[|s| - 1] then s[|s| - 1] else m
  }

  function Width(vals: seq<nat>): Byte {
    BitLength(Max(vals)) % 256
  }

  /** One packed array with its width byte in front. */
  function Column(vals: seq<nat>): seq<Byte> {
    [Width(vals)] + Packed(vals, Width(vals))
  }

  function Block(ps: seq<Posting>, base: int): seq<Byte> {
    Column(Gaps(ps, base)) + Column(Counts(ps))
  }

  function Tail(ps: seq<Posting>, base: int): seq<Byte> {
    if ps == [] then [] else
      Varint(if base == -1 then ps[0].doc else Minus(ps[0].doc, base)) + Varint(ps[0].tf) + Tail(ps[1..], ps[0].doc)
  }

  function Encoding(ps: seq<Posting>, base: int): seq<Byte>
    decreases |ps|
  {
    if |ps| < BLOCK then Tail(ps, base)
    else Block(ps[..BLOCK], base) + Encoding(ps[BLOCK..], ps[BLOCK - 1].doc)
  }

  lemma {:induction false} MaxBounds(s: seq<nat>, n: nat)
    requires forall v <- s :: v < n
    ensures s != [] ==> Max(s) < n
    ensures forall v <- s :: v <= Max(s)
  {
    if s != [] {
      var init := s[..|s| - 1];
      assert s == init + [s[|s| - 1]] && s[|s| - 1] in s;
      assert forall v <- init :: v in s;
      MaxBounds(init, n);
    }
  }

  lemma WidthFits(vals: seq<nat>)
    requires vals != [] && Fit32(vals)
    ensures Width(vals) == BitLength(Max(vals)) <= 32 && Fit(vals, Width(vals))
  {
    MaxBounds(vals, WORD32);
    Word32Is();
    BitLengthBound(Max(vals), 32);
  }

  lemma {:induction false} RestFollows(ps: seq<Posting>, base: int, n: nat)
    requires Follows(ps, base) && n <= |ps|
    ensures Follows(ps[n..], Previous(ps, base, n)) && Follows(ps[..n], base)
  {
    if n > 0 {
      RestFollows(ps[1..], ps[0].doc, n - 1);
      assert ps[1..][n - 1..] == ps[n..] && ps[1..][..n - 1] == ps[..n][1..];
    } else {
      assert ps[0..] == ps;
    }
  }

  /** Every posting is after the one before it, and fits. */
  lemma {:induction false} StepsUp(ps: seq<Posting>, base: int, i: nat)
    requires Follows(ps, base) && i < |ps|
    ensures -1 <= Previous(ps, base, i) < ps[i].doc < WORD32 && 1 <= ps[i].tf < WORD32
  {
    if i > 0 {
      StepsUp(ps[1..], ps[0].doc, i - 1);
    }
  }

  lemma {:induction false} GapsAre(ps: seq<Posting>, base: int, i: nat)
    requires Follows(ps, base) && i < |ps|
    ensures |Gaps(ps, base)| == |Counts(ps)| == |ps|
    ensures Gaps(ps, base)[i] == ps[i].doc - Previous(ps, base, i) - 1 && Counts(ps)[i] == ps[i].tf - 1
    decreases |ps|
  {
    if i > 0 {
      GapsAre(ps[1..], ps[0].doc, i - 1);
    } else if |ps| > 1 {
      GapsAre(ps[1..], ps[0].doc, 0);
    }
  }

  lemma GapsFit(ps: seq<Posting>, base: int)
    requires Follows(ps, base) && ps != []
    ensures |Gaps(ps, base)| == |Counts(ps)| == |ps|
    ensures Fit32(Gaps(ps, base)) && Fit32(Counts(ps))
  {
    GapsAre(ps, base, 0);
    forall i | 0 <= i < |ps| ensures Gaps(ps, base)[i] < WORD32 && Counts(ps)[i] < WORD32 {
      GapsAre(ps, base, i);
      StepsUp(ps, base, i);
    }
  }

  // ---------------------------------------------------------------- encoder

  method PutColumn(vals: seq<nat>, out: seq<Byte>) returns (out': seq<Byte>)
    requires vals != [] && Fit32(vals)
    ensures out' == out + Column(vals)
  {
    WidthFits(vals);
    var m := 0;
    for i := 0 to |vals|
      invariant m == Max(vals[..i])
    {
      assert vals[..i + 1][..i] == vals[..i];
      if m < vals[i] {
        m := vals[i];
      }
    }
    assert vals[..|vals|] == vals;
    var w: Byte := BitLength(m) % 256;
    out' := Pack(vals, w, out + [w]);
  }

  /** The gap and the count of each posting; `first` marks the head of a list. */
  method ToGaps(chunk: seq<Posting>, prev: nat, first: bool, ghost base: int) returns (d: seq<nat>, t: seq<nat>)
    requires Follows(chunk, base) && chunk != []
    requires first == (base == -1) && (!first ==> prev == base)
    ensures d == Gaps(chunk, base) && t == Counts(chunk)
  {
    d, t := [], [];
    var p := prev;
    ghost var gaps, counts := Gaps(chunk, base), Counts(chunk);
    GapsAre(chunk, base, 0);
    for i := 0 to |chunk|
      invariant d == gaps[..i] && t == counts[..i]
      invariant if i > 0 then p == chunk[i - 1].doc else p == prev
    {
      GapsAre(chunk, base, i);
      StepsUp(chunk, base, i);
      assert gaps[..i + 1] == gaps[..i] + [gaps[i]] && counts[..i + 1] == counts[..i] + [counts[i]];
      d := d + [if first && i == 0 then chunk[i].doc else chunk[i].doc - p - 1];
      t := t + [chunk[i].tf - 1];
      p := chunk[i].doc;
    }
  }

  method EncodeBlock(chunk: seq<Posting>, prev: nat, first: bool, out: seq<Byte>, ghost base: int)
    returns (out': seq<Byte>)
    requires Follows(chunk, base) && |chunk| == BLOCK
    requires first == (base == -1) && (!first ==> prev == base)
    ensures out' == out + Block(chunk, base)
  {
    GapsFit(chunk, base);
    var d, t := ToGaps(chunk, prev, first, base);
    var half := PutColumn(d, out);
    out' := PutColumn(t, half);
    Joined(out, Column(d), Column(t), Block(chunk, base));
  }

  lemma Joined(out: seq<Byte>, a: seq<Byte>, b: seq<Byte>, ab: seq<Byte>)
    requires ab == a + b
    ensures (out + a) + b == out + ab
  {
  }

  /** Where a pass over the list stands: `rest` is still to do, after document `base`. */
  ghost predicate At(ps: seq<Posting>, i: nat, rest: seq<Posting>, base: int, prev: nat, first: bool) {
    && i <= |ps| && rest == ps[i..] && Follows(rest, base)
    && first == (i == 0) == (base == -1) && (!first ==> prev == base)
  }

  lemma NextAt(ps: seq<Posting>, i: nat, rest: seq<Posting>, base: int, prev: nat, first: bool, n: nat)
    requires At(ps, i, rest, base, prev, first) && i + n <= |ps| && n > 0
    ensures Follows(rest[..n], base) && rest[..n] == ps[i..i + n] && rest[n - 1] == ps[i + n - 1]
    ensures At(ps, i + n, rest[n..], rest[n - 1].doc, rest[n - 1].doc, false)
  {
    RestFollows(rest, base, n);
  }

  /** What is written so far, followed by the encoding of the rest, encodes the list. */
  ghost predicate Encoded(ps: seq<Posting>, rest: seq<Posting>, base: int, out: seq<Byte>) {
    out + Encoding(rest, base) == Encoding(ps, -1)
  }

  lemma EncodedStep(ps: seq<Posting>, rest: seq<Posting>, base: int, out: seq<Byte>)
    requires Encoded(ps, rest, base, out) && BLOCK <= |rest|
    ensures Encoded(ps, rest[BLOCK..], rest[BLOCK - 1].doc, out + Block(rest[..BLOCK], base))
  {
  }

  lemma EncodedEnd(ps: seq<Posting>, rest: seq<Posting>, base: int, out: seq<Byte>)
    requires Encoded(ps, rest, base, out) && |rest| < BLOCK
    ensures out + Tail(rest, base) == Encoding(ps, -1)
  {
  }

  /** One full block, the k-th. */
  method EncodeNext(ps: seq<Posting>, k: nat, prev: nat, first: bool, so: seq<Byte>, ghost rest: seq<Posting>,
                    ghost base: int)
    returns (out: seq<Byte>, prev': nat, ghost rest': seq<Posting>)
    requires At(ps, k * BLOCK, rest, base, prev, first) && Encoded(ps, rest, base, so) && k * BLOCK + BLOCK <= |ps|
    ensures At(ps, (k + 1) * BLOCK, rest', prev', prev', false) && Encoded(ps, rest', prev', out)
  {
    var i := k * BLOCK;
    NextAt(ps, i, rest, base, prev, first, BLOCK);
    EncodedStep(ps, rest, base, so);
    out := EncodeBlock(ps[i..i + BLOCK], prev, first, so, base);
    prev' := ps[i + BLOCK - 1].doc;
    rest' := rest[BLOCK..];
  }

  method EncodeFull(ps: seq<Posting>, blocks: nat)
    returns (out: seq<Byte>, prev: nat, first: bool, ghost rest: seq<Posting>, ghost base: int)
    requires Follows(ps, -1) && blocks * BLOCK <= |ps|
    ensures At(ps, blocks * BLOCK, rest, base, prev, first) && Encoded(ps, rest, base, out)
  {
    out, prev, first, rest, base := [], 0, true, ps, -1;
    assert ps[0..] == ps;
    for k := 0 to blocks
      invariant At(ps, k * BLOCK, rest, base, prev, first)
      invariant Encoded(ps, rest, base, out)
    {
      out, prev, rest := EncodeNext(ps, k, prev, first, out, rest, base);
      first := false;
      base := prev;
    }
  }

  method BitpackEncode(ps: seq<Posting>) returns (out: seq<Byte>)
    requires Valid(ps)
    ensures out == Encoding(ps, -1) && Layout(ps, out)
  {
    ValidFollows(ps, -1);
    EncodingLaidOut(ps);
    var blocks := |ps| / BLOCK;
    var full := blocks * BLOCK;
    var prev, first;
    ghost var rest, base;
    out, prev, first, rest, base := EncodeFull(ps, blocks);
    EncodedEnd(ps, rest, base, out);
    out := EncodeTail(ps[full..], prev, first, base, out);
  }

  lemma FourParts(before: seq<Byte>, a: seq<Byte>, b: seq<Byte>, c: seq<Byte>)
    ensures before + (a + b + c) == ((before + a) + b) + c
    ensures (a + b + c) + before == a + (b + (c + before))
  {
  }

  lemma TailStep(before: seq<Byte>, ps: seq<Posting>, b: int)
    requires ps != [] && -1 <= b < ps[0].doc
    ensures before + Tail(ps, b)
         == ((before + Varint(if b == -1 then ps[0].doc else ps[0].doc - b)) + Varint(ps[0].tf))
           + Tail(ps[1..], ps[0].doc)
  {
    var d := if b == -1 then ps[0].doc else ps[0].doc - b;
    FourParts(before, Varint(d), Varint(ps[0].tf), Tail(ps[1..], ps[0].doc));
  }

  method EncodeTail(ps: seq<Posting>, prev: nat, first: bool, ghost base: int, out: seq<Byte>) returns (out': seq<Byte>)
    requires Follows(ps, base)
    requires first == (base == -1) && (!first ==> prev == base)
    ensures out' == out + Tail(ps, base)
  {
    out' := out;
    var p: nat := if first then 0 else prev;
    ghost var rest, b := ps, base;
    for i := 0 to |ps|
      invariant rest == ps[i..] && Follows(rest, b)
      invariant out' + Tail(rest, b) == out + Tail(ps, base)
      invariant i > 0 ==> b == p
      invariant i == 0 ==> b == base && p == (if first then 0 else prev)
    {
      RestFollows(rest, b, 1);
      TailStep(out', rest, b);
      var x := ps[i];
      out' := PutVarint(out', if first && i == 0 then x.doc else x.doc - p);
      out' := PutVarint(out', x.tf);
      p := x.doc;
      b := p;
      rest := rest[1..];
    }
  }

  // ---------------------------------------------------------------- decoder

  lemma SplitAt(buf: seq<Byte>, pos: nat, a: seq<Byte>, rest: seq<Byte>)
    requires pos <= |buf| && buf[pos..] == a + rest
    ensures pos + |a| <= |buf| && buf[pos + |a|..] == rest
  {
    assert buf[pos + |a|..] == buf[pos..][|a|..];
  }

  method GetNumber(buf: seq<Byte>, pos: nat, ghost v: nat, ghost rest: seq<Byte>) returns (got: nat, pos': nat)
    requires pos <= |buf| && v < WORD32 && buf[pos..] == Varint(v) + rest
    ensures got == v && pos' <= |buf| && buf[pos'..] == rest
  {
    ReadVarintBack(v, rest);
    Word32Is();
    Pow2Monotone(32, 35);
    VarintLength(v, 5);
    SplitAt(buf, pos, Varint(v), rest);
    got, pos' := GetVarint(buf, pos);
    SmallMod(v, WORD32);
  }

  lemma ColumnHead(buf: seq<Byte>, pos: nat, vals: seq<nat>, rest: seq<Byte>)
    requires pos < |buf| && buf[pos..] == Column(vals) + rest
    ensures buf[pos] == Width(vals) && buf[pos + 1..] == Packed(vals, Width(vals)) + rest
  {
    assert buf[pos] == buf[pos..][0];
    assert buf[pos + 1..] == buf[pos..][1..];
  }

  method GetColumn(buf: seq<Byte>, pos: nat, ghost vals: seq<nat>, ghost rest: seq<Byte>)
    returns (got: seq<nat>, pos': nat)
    requires pos <= |buf| && |vals| == BLOCK && Fit32(vals) && buf[pos..] == Column(vals) + rest
    ensures got == vals && pos' <= |buf| && buf[pos'..] == rest
  {
    WidthFits(vals);
    SplitAt(buf, pos, Column(vals), rest);
    ColumnHead(buf, pos, vals, rest);
    var w := buf[pos];
    var used;
    got, used := Unpack(buf[pos + 1..], w, BLOCK);
    UnpackPacked(vals, w, rest, got);
    pos' := pos + 1 + used;
  }

  /** Undoes ToGaps. */
  method FromGaps(d: seq<nat>, t: seq<nat>, prev: nat, first: bool, ghost base: int, ghost ps: seq<Posting>)
    returns (out: seq<Posting>)
    requires Follows(ps, base) && ps != [] && d == Gaps(ps, base) && t == Counts(ps)
    requires first == (base == -1) && (!first ==> prev == base)
    ensures out == ps
  {
    GapsAre(ps, base, 0);
    out := [];
    var p := prev;
    for i := 0 to |d|
      invariant out == ps[..i]
      invariant if i > 0 then p == ps[i - 1].doc else p == prev
    {
      GapsAre(ps, base, i);
      StepsUp(ps, base, i);
      var doc := if first && i == 0 then d[i] else p + d[i] + 1;
      out := out + [Posting(doc, t[i] + 1)];
      p := doc;
    }
  }

  method DecodeBlock(buf: seq<Byte>, pos: nat, prev: nat, first: bool, ghost ps: seq<Posting>, ghost base: int,
                     ghost rest: seq<Byte>)
    returns (out: seq<Posting>, pos': nat)
    requires pos <= |buf| && Follows(ps, base) && |ps| == BLOCK && buf[pos..] == Block(ps, base) + rest
    requires first == (base == -1) && (!first ==> prev == base)
    ensures out == ps && pos' <= |buf| && buf[pos'..] == rest
  {
    GapsFit(ps, base);
    var d, t;
    assert buf[pos..] == Column(Gaps(ps, base)) + (Column(Counts(ps)) + rest);
    d, pos' := GetColumn(buf, pos, Gaps(ps, base), Column(Counts(ps)) + rest);
    t, pos' := GetColumn(buf, pos', Counts(ps), rest);
    out := FromGaps(d, t, prev, first, base, ps);
  }

  /** What is left of the buffer is the varint tail of what is left to decode. */
  ghost predicate TailLeft(buf: seq<Byte>, pos: nat, todo: seq<Posting>, b: int, rest: seq<Byte>) {
    pos <= |buf| && Follows(todo, b) && buf[pos..] == Tail(todo, b) + rest
  }

  /** One posting of the tail; `start` marks the head of a list. */
  method DecodeOne(buf: seq<Byte>, pos: nat, p: nat, start: bool, ghost ps: seq<Posting>, ghost b: int,
                   ghost rest: seq<Byte>)
    returns (x: Posting, pos': nat)
    requires TailLeft(buf, pos, ps, b, rest) && ps != []
    requires start == (b == -1) && (!start ==> p == b)
    ensures x == ps[0] && TailLeft(buf, pos', ps[1..], x.doc, rest)
  {
    RestFollows(ps, b, 1);
    TailHead(ps, b, rest);
    ghost var more := Tail(ps[1..], ps[0].doc) + rest;
    var dd, tf;
    dd, pos' := GetNumber(buf, pos, if b == -1 then ps[0].doc else ps[0].doc - b, Varint(ps[0].tf) + more);
    tf, pos' := GetNumber(buf, pos', ps[0].tf, more);
    x := Posting(if start then dd else p + dd, tf);
  }

  method DecodeTail(buf: seq<Byte>, pos: nat, prev: nat, first: bool, n: nat, ghost ps: seq<Posting>,
                    ghost base: int, ghost rest: seq<Byte>)
    returns (out: seq<Posting>)
    requires TailLeft(buf, pos, ps, base, rest) && |ps| == n
    requires first == (base == -1) && (!first ==> prev == base)
    ensures out == ps
  {
    out := [];
    var at: nat := pos;
    var p: nat := if first then 0 else prev;
    ghost var todo, b := ps, base;
    for i := 0 to n
      invariant TailLeft(buf, at, todo, b, rest) && |todo| == n - i
      invariant out + todo == ps
      invariant (first && i == 0) == (b == -1) && (b != -1 ==> b == p)
    {
      var x;
      x, at := DecodeOne(buf, at, p, first && i == 0, todo, b, rest);
      out := out + [x];
      p := x.doc;
      todo, b := todo[1..], p;
    }
  }

  lemma TailHead(ps: seq<Posting>, b: int, rest: seq<Byte>)
    requires ps != [] && -1 <= b < ps[0].doc
    ensures Tail(ps, b) + rest
         == Varint(if b == -1 then ps[0].doc else ps[0].doc - b)
           + (Varint(ps[0].tf) + (Tail(ps[1..], ps[0].doc) + rest))
  {
    var d := if b == -1 then ps[0].doc else ps[0].doc - b;
    FourParts(rest, Varint(d), Varint(ps[0].tf), Tail(ps[1..], ps[0].doc));
  }

  /** What is left of the buffer is the encoding of what is left to decode. */
  ghost predicate Left(buf: seq<Byte>, pos: nat, todo: seq<Posting>, base: int, rest: seq<Byte>) {
    pos <= |buf| && buf[pos..] == Encoding(todo, base) + rest
  }

  lemma LeftHead(buf: seq<Byte>, pos: nat, todo: seq<Posting>, base: int, rest: seq<Byte>)
    requires Left(buf, pos, todo, base, rest)
    ensures |todo| < BLOCK ==> buf[pos..] == Tail(todo, base) + rest
    ensures |todo| >= BLOCK ==>
      buf[pos..] == Block(todo[..BLOCK], base) + (Encoding(todo[BLOCK..], todo[BLOCK - 1].doc) + rest)
  {
  }

  ghost predicate Decoded(ps: seq<Posting>, out: seq<Posting>, n: nat) {
    n <= |ps| && out == ps[..n]
  }

  method DecodeNext(buf: seq<Byte>, pos: nat, prev: nat, first: bool, so: seq<Posting>, ghost ps: seq<Posting>,
                    ghost k: nat,
                    ghost todo: seq<Posting>, ghost base: int, ghost rest: seq<Byte>)
    returns (out: seq<Posting>, pos': nat, prev': nat, ghost todo': seq<Posting>)
    requires At(ps, k * BLOCK, todo, base, prev, first) && Left(buf, pos, todo, base, rest) && k * BLOCK + BLOCK <= |ps|
    requires Decoded(ps, so, k * BLOCK)
    ensures At(ps, (k + 1) * BLOCK, todo', prev', prev', false) && Left(buf, pos', todo', prev', rest)
    ensures Decoded(ps, out, (k + 1) * BLOCK)
  {
    ghost var i := k * BLOCK;
    NextAt(ps, i, todo, base, prev, first, BLOCK);
    LeftHead(buf, pos, todo, base, rest);
    var block;
    block, pos' := DecodeBlock(buf, pos, prev, first, todo[..BLOCK], base,
      Encoding(todo[BLOCK..], todo[BLOCK - 1].doc) + rest);
    prev' := block[BLOCK - 1].doc;
    out := so + block;
    todo' := todo[BLOCK..];
    assert ps[..i] + ps[i..i + BLOCK] == ps[..i + BLOCK];
  }

  /** The loop over the full blocks; `todo` is what it leaves to the tail. */
  method DecodeBlocks(buf: seq<Byte>, blocks: nat, ghost ps: seq<Posting>, ghost rest: seq<Byte>)
    returns (out: seq<Posting>, pos: nat, prev: nat, first: bool, ghost todo: seq<Posting>, ghost base: int)
    requires Follows(ps, -1) && blocks * BLOCK <= |ps| && buf == Encoding(ps, -1) + rest
    ensures At(ps, blocks * BLOCK, todo, base, prev, first) && Left(buf, pos, todo, base, rest)
    ensures Decoded(ps, out, blocks * BLOCK)
  {
    out, pos, prev, first, todo, base := [], 0, 0, true, ps, -1;
    assert ps[0..] == ps && buf[0..] == buf;
    for k := 0 to blocks
      invariant At(ps, k * BLOCK, todo, base, prev, first)
      invariant Left(buf, pos, todo, base, rest) && Decoded(ps, out, k * BLOCK)
    {
      out, pos, prev, todo := DecodeNext(buf, pos, prev, first, out, ps, k, todo, base, rest);
      first := false;
      base := prev;
    }
  }

  /** Decoding any buffer that starts with the encoding of n postings yields them. */
  method BitpackDecode(buf: seq<Byte>, n: nat, ghost ps: seq<Posting>, ghost rest: seq<Byte>)
    returns (out: seq<Posting>)
    requires Valid(ps) && |ps| == n && buf == Encoding(ps, -1) + rest
    ensures out == ps
  {
    var blocks := n / BLOCK;
    var full := blocks * BLOCK;
    var pos, prev, first;
    ghost var todo, base;
    ValidFollows(ps, -1);
    out, pos, prev, first, todo, base := DecodeBlocks(buf, blocks, ps, rest);
    LeftHead(buf, pos, todo, base, rest);
    var tail := DecodeTail(buf, pos, prev, first, n - full, todo, base, rest);
    out := out + tail;
  }

  // ---------------------------------------------------------------- where the bytes are

  /** The last `todo` of the list, from position i, are encoded from byte `at` to the end. */
  ghost predicate EncodedFrom(ps: seq<Posting>, i: nat, todo: seq<Posting>, out: seq<Byte>, at: nat) {
    && i <= |ps| && todo == ps[i..] && Follows(todo, Previous(ps, -1, i))
    && at <= |out| && out[at..] == Encoding(todo, Previous(ps, -1, i))
  }

  lemma {:induction false} MaxIn(s: seq<nat>)
    ensures Max(s) > 0 ==> Max(s) in s
  {
    if s != [] {
      var front, last := s[..|s| - 1], s[|s| - 1];
      MaxIn(front);
      assert s == front + [last];
    }
  }

  lemma WidthIsNarrowest(vals: seq<nat>)
    requires vals != [] && Fit32(vals)
    ensures Narrowest(vals, Width(vals))
  {
    WidthFits(vals);
    MaxIn(vals);
    assert BitLength(0) == 0;
  }

  lemma ColumnIsPlaced(out: seq<Byte>, at: nat, vals: seq<nat>, column: seq<Byte>, rest: seq<Byte>) returns (end: nat)
    requires at <= |out| && |vals| == BLOCK && Fit32(vals) && column == Column(vals) && out[at..] == column + rest
    ensures ColumnAt(out, at, end, vals) && end <= |out| && out[end..] == rest
  {
    WidthIsNarrowest(vals);
    ColumnPlaced(out, at, Width(vals), vals, rest);
    end := at + 1 + 16 * Width(vals);
  }

  lemma ValuesOfBlock(ps: seq<Posting>, i: nat, block: seq<Posting>)
    requires i + BLOCK <= |ps| && block == ps[i..i + BLOCK] && Follows(block, Previous(ps, -1, i))
    ensures var base := Previous(ps, -1, i);
            Fit32(Gaps(block, base)) && Fit32(Counts(block)) && BlockValues(ps, i, Gaps(block, base), Counts(block))
  {
    var base := Previous(ps, -1, i);
    GapsFit(block, base);
    forall j | 0 <= j < BLOCK
      ensures Gaps(block, base)[j] == Gap(ps, i + j) && Counts(block)[j] == ps[i + j].tf - 1 {
      GapsAre(block, base, j);
    }
  }

  lemma TwoColumns(ps: seq<Posting>, i: nat, gaps: seq<nat>, counts: seq<nat>, out: seq<Byte>, at: nat,
                   a: seq<Byte>, b: seq<Byte>, rest: seq<Byte>)
    returns (end: nat)
    requires BlockValues(ps, i, gaps, counts) && Fit32(gaps) && Fit32(counts)
    requires a == Column(gaps) && b == Column(counts) && at <= |out| && out[at..] == a + (b + rest)
    ensures BlockAt(ps, i, out, at, end) && end <= |out| && out[end..] == rest
  {
    var mid := ColumnIsPlaced(out, at, gaps, a, b + rest);
    end := ColumnIsPlaced(out, mid, counts, b, rest);
  }

  lemma NextBlock(ps: seq<Posting>, i: nat, todo: seq<Posting>, out: seq<Byte>, at: nat) returns (end: nat)
    requires EncodedFrom(ps, i, todo, out, at) && BLOCK <= |todo|
    ensures BlockAt(ps, i, out, at, end) && EncodedFrom(ps, i + BLOCK, todo[BLOCK..], out, end)
  {
    var base := Previous(ps, -1, i);
    var block, rest := todo[..BLOCK], Encoding(todo[BLOCK..], todo[BLOCK - 1].doc);
    RestFollows(todo, base, BLOCK);
    ValuesOfBlock(ps, i, block);
    var gaps, counts := Gaps(block, base), Counts(block);
    ThreeParts(Column(gaps), Column(counts), rest);
    end := TwoColumns(ps, i, gaps, counts, out, at, Column(gaps), Column(counts), rest);
  }

  lemma ThreeParts(a: seq<Byte>, b: seq<Byte>, c: seq<Byte>)
    ensures (a + b) + c == a + (b + c)
  {
  }

  /** Likewise of the tail. */
  ghost predicate TailFrom(ps: seq<Posting>, i: nat, todo: seq<Posting>, out: seq<Byte>, at: nat) {
    && i <= |ps| && todo == ps[i..] && Follows(todo, Previous(ps, -1, i))
    && at <= |out| && out[at..] == Tail(todo, Previous(ps, -1, i))
  }

  lemma TwoNumbers(ps: seq<Posting>, i: nat, d: nat, tf: nat, out: seq<Byte>, at: nat, rest: seq<Byte>, more: seq<Byte>)
    returns (end: nat)
    requires i < |ps| && d == Delta(ps, i) && tf == ps[i].tf
    requires at <= |out| && out[at..] == Varint(d) + more && more == Varint(tf) + rest
    ensures PostingAt(ps, i, out, at, end) && end <= |out| && out[end..] == rest
  {
    VarintPlaced(out, at, d, more);
    var mid := at + |Varint(d)|;
    VarintPlaced(out, mid, tf, rest);
    end := mid + |Varint(tf)|;
  }

  lemma NextPosting(ps: seq<Posting>, i: nat, todo: seq<Posting>, out: seq<Byte>, at: nat) returns (end: nat)
    requires TailFrom(ps, i, todo, out, at) && todo != []
    ensures PostingAt(ps, i, out, at, end) && TailFrom(ps, i + 1, todo[1..], out, end)
  {
    var base := Previous(ps, -1, i);
    RestFollows(todo, base, 1);
    TailParts(todo, base);
    var rest := Tail(todo[1..], todo[0].doc);
    var d := if base == -1 then todo[0].doc else todo[0].doc - base;
    end := TwoNumbers(ps, i, d, todo[0].tf, out, at, rest, Varint(todo[0].tf) + rest);
  }

  lemma TailParts(ps: seq<Posting>, b: int)
    requires ps != [] && -1 <= b < ps[0].doc
    ensures Tail(ps, b) == Varint(if b == -1 then ps[0].doc else ps[0].doc - b)
                           + (Varint(ps[0].tf) + Tail(ps[1..], ps[0].doc))
  {
    ThreeParts(Varint(if b == -1 then ps[0].doc else ps[0].doc - b), Varint(ps[0].tf), Tail(ps[1..], ps[0].doc));
  }

  lemma RoomForBlock(n: nat, k: nat)
    requires k < n / 128
    ensures 128 * k + 128 <= n
  {
  }

  lemma FullBlocks(n: nat)
    ensures 128 * (n / 128) == n - n % 128
  {
  }

  /** k blocks are laid out up to byte `at`, and the list goes on from position i. */
  ghost predicate Along(ps: seq<Posting>, out: seq<Byte>, k: nat, i: nat, blocks: seq<nat>, at: nat,
                        todo: seq<Posting>) {
    && i == 128 * k && |blocks| == k + 1 && Blocks(ps, out, blocks) && blocks[k] == at
    && EncodedFrom(ps, i, todo, out, at)
  }

  lemma BlockAlong(ps: seq<Posting>, out: seq<Byte>, k: nat, i: nat, blocks: seq<nat>, at: nat, todo: seq<Posting>)
    returns (end: nat)
    requires Along(ps, out, k, i, blocks, at, todo) && i + 128 <= |ps|
    ensures |todo| >= 128 && Along(ps, out, k + 1, i + 128, blocks + [end], end, todo[128..])
  {
    end := NextBlock(ps, i, todo, out, at);
    OneMoreBlock(ps, out, blocks, end);
  }

  lemma BlocksLaidOut(ps: seq<Posting>, out: seq<Byte>, full: nat)
    returns (blocks: seq<nat>, at: nat, todo: seq<Posting>)
    requires Follows(ps, -1) && out == Encoding(ps, -1) && full == |ps| / 128
    ensures Along(ps, out, full, |ps| - |ps| % 128, blocks, at, todo)
  {
    blocks, at, todo := [0], 0, ps;
    var i := 0;
    assert ps[0..] == ps && out[0..] == out;
    for k := 0 to full
      invariant i == 128 * k && Along(ps, out, k, i, blocks, at, todo)
    {
      RoomForBlock(|ps|, k);
      at := BlockAlong(ps, out, k, i, blocks, at, todo);
      blocks, todo, i := blocks + [at], todo[128..], i + 128;
    }
    FullBlocks(|ps|);
  }

  lemma TailLaidOut(ps: seq<Posting>, i: nat, out: seq<Byte>, start: nat, all: seq<Posting>) returns (tail: seq<nat>)
    requires TailFrom(ps, i, all, out, start)
    ensures |tail| == |ps| - i + 1 && Others(ps, i, out, tail) && tail[0] == start && tail[|tail| - 1] == |out|
  {
    var at, todo := start, all;
    tail := [start];
    for j := 0 to |ps| - i
      invariant |tail| == j + 1 && Others(ps, i, out, tail) && tail[0] == start && tail[j] == at
      invariant TailFrom(ps, i + j, todo, out, at)
    {
      at := NextPosting(ps, i + j, todo, out, at);
      OneMorePosting(ps, i, out, tail, at);
      tail, todo := tail + [at], todo[1..];
    }
  }

  /** The encoding is laid out as promised. */
  lemma EncodingLaidOut(ps: seq<Posting>)
    requires Follows(ps, -1)
    ensures Layout(ps, Encoding(ps, -1))
  {
    var out := Encoding(ps, -1);
    var blocks, at, todo := BlocksLaidOut(ps, out, |ps| / 128);
    var tail := TailLaidOut(ps, |ps| - |ps| % 128, out, at, todo);
    assert LaidOut(ps, out, blocks, tail);
  }

  /** The promise of the codec: every posting list comes back, block-packed part and tail. */
  method RoundTrip(ps: seq<Posting>) returns (out: seq<Posting>)
    requires Valid(ps)
    ensures out == ps
  {
    var buf := BitpackEncode(ps);
    assert buf == Encoding(ps, -1) + [];
    out := BitpackDecode(buf, |ps|, ps, []);
  }

  /** A full block takes two width bytes and width * 16 bytes per column, so blocks can be
      skipped by reading widths alone. */
  lemma BlockSize(ps: seq<Posting>, base: int)
    requires Follows(ps, base) && |ps| == BLOCK
    ensures |Column(Gaps(ps, base))| == 1 + 16 * Width(Gaps(ps, base))
    ensures |Column(Counts(ps))| == 1 + 16 * Width(Counts(ps))
    ensures Width(Gaps(ps, base)) <= 32 && Width(Counts(ps)) <= 32
  {
    GapsFit(ps, base);
    WidthFits(Gaps(ps, base));
    WidthFits(Counts(ps));
  }
}
