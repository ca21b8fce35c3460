module Taint {
  // Haircut taint with exact fractions: it never exceeds an output's value, stays among the
  // descendants of the theft, and gains one unit at each payment that splits in exact halves.

  import opened Common
  import opened Reachability
  import opened Ledger

  // ---------------------------------------------------------------- rounding

  /** a / b rounded to the nearest integer, halves up. */
  function Rounded(a: nat, b: nat): nat
    requires b > 0
  {
    (2 * a + b) / (2 * b)
  }

  lemma RoundedNear(a: nat, b: nat)
    requires b > 0
    ensures 2 * b * Rounded(a, b) <= 2 * a + b < 2 * b * Rounded(a, b) + 2 * b
  {
  }

  lemma RoundedBelow(v: nat, d: nat, b: nat, p: nat)
    requires 0 < b && d <= b && p == v * d
    ensures Rounded(p, b) <= v
  {
    var r := Rounded(p, b);
    RoundedNear(p, b);
    ProductBelow(v, d, b);
    if r > v {
      ScaleOver(2 * b, v + 1, r);
    }
  }

  lemma ScaleOver(k: nat, x: int, y: int)
    requires x <= y
    ensures k * x <= k * y
  {
  }

  lemma ProductBelow(v: nat, d: nat, b: nat)
    requires d <= b
    ensures v * d <= v * b
  {
  }

  lemma ScaleDown(k: nat, x: int, y: int)
    requires k * x < k * y
    ensures x < y
  {
    if y <= x {
      ScaleOver(k, y, x);
    }
  }

  lemma HalfOf(b: nat, m: nat, j: int)
    requires m < b && 2 * b * j <= 2 * m + b < 2 * b * j + 2 * b
    ensures 2 * b * j == 2 * m + b <==> 2 * m == b
  {
    assert 2 * b * (j + 1) == 2 * b * j + 2 * b;
    ScaleDown(2 * b, 0, j + 1);
    ScaleDown(2 * b, j, 2);
  }

  /** p / b is rounded up from an exact half when twice the remainder is b. */
  lemma HalfUp(p: nat, b: nat, k: nat, m: nat)
    requires p == b * k + m && m < b
    ensures 2 * b * Rounded(p, b) == 2 * p + b <==> 2 * m == b
  {
    var r := Rounded(p, b);
    RoundedNear(p, b);
    assert 2 * b * (r - k) == 2 * b * r - 2 * (b * k);
    HalfOf(b, m, r - k);
  }

  lemma Distribute(v: nat, w: nat, d: nat)
    ensures v * d + w * d == (v + w) * d
  {
  }

  lemma Divide(p: nat, b: nat)
    requires b > 0
    ensures p == b * (p / b) + p % b && 0 <= p / b
  {
  }

  /** p / b lies exactly between two integers. */
  predicate Half(p: nat, b: nat)
    requires b > 0
  {
    2 * (p % b) == b
  }

  /** Two shares of d by value round to d in all, or to one more when both are exact halves. */
  lemma SharesAddUp(v: nat, w: nat, d: nat, b: nat, p: nat, q: nat)
    requires 0 < b == v + w && p == v * d && q == w * d
    ensures Rounded(p, b) + Rounded(q, b) == if Half(p, b) then d + 1 else d
  {
    Distribute(v, w, d);
    RoundedNear(p, b);
    RoundedNear(q, b);
    Divide(p, b);
    HalfUp(p, b, p / b, p % b);
    SumOfRounded(b, d, p, q, Rounded(p, b), Rounded(q, b));
  }

  lemma SumOfRounded(b: nat, d: nat, p: nat, q: nat, x: nat, y: nat)
    requires b > 0 && p + q == b * d
    requires 2 * b * x <= 2 * p + b < 2 * b * x + 2 * b && 2 * b * y <= 2 * q + b < 2 * b * y + 2 * b
    ensures x + y == if 2 * b * x == 2 * p + b then d + 1 else d
  {
    assert 2 * b * (x + y) == 2 * b * x + 2 * b * y && 2 * b * d == 2 * (b * d);
    assert 2 * b * (d - 1) == 2 * b * d - 2 * b && 2 * b * (d + 1) == 2 * b * d + 2 * b
      && 2 * b * (d + 2) == 2 * b * d + 4 * b;
    ScaleDown(2 * b, d - 1, x + y);
    ScaleDown(2 * b, x + y, d + 2);
  }

  // ---------------------------------------------------------------- descendants

  /** The outputs created where o is spent. */
  function Next(c: Chain, o: nat): seq<nat> {
    if o < |c.spentBy| && c.spentBy[o].Some? && c.spentBy[o].value < |c.txs| then c.txs[c.spentBy[o].value].outputs
      else []
  }

  ghost function Flow(c: Chain): (g: Adjacency)
    ensures |g| == |c.outputs| && forall o :: 0 <= o < |g| ==> g[o] == Next(c, o)
  {
    seq(|c.outputs|, o requires 0 <= o < |c.outputs| => Next(c, o))
  }

  ghost predicate Descends(c: Chain, origin: nat, o: nat) {
    Reaches(Flow(c), origin, o)
  }

  // ---------------------------------------------------------------- one transaction

  function Share(c: Chain, o: nat, dirty: nat, total: nat): nat
    requires total > 0
  {
    if o < |c.outputs| then Rounded(c.outputs[o].value * dirty, total) else 0
  }

  /** The taints of a list of outputs, in order. */
  function Smeared(c: Chain, taint: seq<nat>, outs: seq<nat>, dirty: nat, total: nat): (r: seq<nat>)
    requires total > 0
    ensures |r| == |taint|
  {
    if outs == [] then taint else
      var r := Smeared(c, taint, outs[..|outs| - 1], dirty, total);
      var o := outs[|outs| - 1];
      if o < |r| then r[o := Share(c, o, dirty, total)] else r
  }

  function Total(c: Chain, t: nat): nat
    requires t < |c.txs|
  {
    At(Values(c), c.txs[t].inputs)
  }

  function Skips(c: Chain, taint: seq<nat>, t: nat): bool
    requires t < |c.txs|
  {
    c.txs[t].Coinbase() || At(taint, c.txs[t].inputs) == 0 || Total(c, t) == 0
  }

  function Step(c: Chain, taint: seq<nat>, t: nat): (r: seq<nat>)
    requires t < |c.txs|
    ensures |r| == |taint|
  {
    if Skips(c, taint, t) then taint
    else Smeared(c, taint, c.txs[t].outputs, At(taint, c.txs[t].inputs), Total(c, t))
  }

  /** The payments among the first t transactions. */
  function Payments(c: Chain, t: nat): nat
    requires t <= |c.txs|
  {
    if t == 0 then 0 else Payments(c, t - 1) + (if c.txs[t - 1].Coinbase() then 0 else 1)
  }

  /** The taints before transaction t. */
  function TaintAt(c: Chain, origin: nat, t: nat): (r: seq<nat>)
    requires origin < |c.outputs| && t <= |c.txs|
    ensures |r| == |c.outputs|
  {
    if t == 0 then seq(|c.outputs|, i => 0)[origin := c.outputs[origin].value]
    else Step(c, TaintAt(c, origin, t - 1), t - 1)
  }

  /** Output o's share is an exact half. */
  predicate Halved(c: Chain, o: nat, dirty: nat, total: nat)
    requires total > 0
  {
    o < |c.outputs| && Half(c.outputs[o].value * dirty, total)
  }

  /** Payment t has dirty inputs, and its outputs' shares of them are exact halves. */
  predicate Gains(c: Chain, taint: seq<nat>, t: nat)
    requires t < |c.txs|
  {
    !Skips(c, taint, t) && c.txs[t].outputs != [] && Halved(c, c.txs[t].outputs[0], At(taint, c.txs[t].inputs),
      Total(c, t))
  }

  /** How many of the first t transactions do. */
  function GainsBefore(c: Chain, origin: nat, t: nat): nat
    requires origin < |c.outputs| && t <= |c.txs|
  {
    if t == 0 then 0 else GainsBefore(c, origin, t - 1) + (if Gains(c, TaintAt(c, origin, t - 1), t - 1) then 1 else 0)
  }

  /** Taint on outputs not spent before transaction t. */
  ghost function Live(c: Chain, taint: seq<nat>, t: nat): (w: seq<nat>)
    ensures |w| == |taint|
  {
    seq(|taint|, o requires 0 <= o < |taint| =>
      if o < |c.spentBy| && c.spentBy[o].Some? && c.spentBy[o].value < t then 0 else taint[o])
  }

  /** Before transaction t: taint within value, on closed descendants that exist by then. */
  ghost predicate Tainting(c: Chain, origin: nat, inside: nat -> bool, taint: seq<nat>, t: nat) {
    && |taint| == |c.outputs| && origin < |c.outputs| && t <= |c.txs|
    && (forall o: nat :: o < |taint| ==> taint[o] <= c.outputs[o].value)
    && (forall o: nat :: o < |taint| && taint[o] > 0 ==>
      inside(o) && origin <= o && (o == origin || c.outputs[o].creatingTx < t))
  }

  /** The live taint before t is what was stolen and the gains up to then. */
  ghost predicate Accounted(c: Chain, origin: nat, t: nat)
    requires origin < |c.outputs| && t <= |c.txs|
  {
    Sum(Live(c, TaintAt(c, origin, t), t)) == c.outputs[origin].value + GainsBefore(c, origin, t)
  }

  lemma {:induction false} AtMost(w: seq<nat>, v: seq<nat>, ids: seq<nat>)
    requires |w| == |v| && forall i :: 0 <= i < |w| ==> w[i] <= v[i]
    ensures At(w, ids) <= At(v, ids)
  {
    if ids != [] {
      AtMost(w, v, ids[..|ids| - 1]);
    }
  }

  lemma {:induction false} AtPositive(w: seq<nat>, ids: seq<nat>) returns (i: nat)
    requires At(w, ids) > 0
    ensures i < |ids| && ids[i] < |w| && w[ids[i]] > 0
  {
    var m := |ids| - 1;
    if ids[m] < |w| && w[ids[m]] > 0 {
      i := m;
    } else {
      i := AtPositive(w, ids[..m]);
    }
  }

  /** A payment with dirty inputs: its two outputs are distinct, later than a tainted input that
      flows into them, and clean so far. */
  lemma PaymentFacts(c: Chain, origin: nat, inside: nat -> bool, taint: seq<nat>, t: nat)
    requires Recorded(c) && Tainting(c, origin, inside, taint, t) && ClosedFrom(Flow(c), origin, inside)
    requires t < |c.txs| && !Skips(c, taint, t)
    ensures |c.txs[t].outputs| == 2 && c.txs[t].outputs[0] != c.txs[t].outputs[1]
    ensures forall j :: 0 <= j < 2 ==> var o := c.txs[t].outputs[j];
              o < |taint| && taint[o] == 0 && inside(o) && origin < o && c.outputs[o].creatingTx == t
    ensures At(taint, c.txs[t].inputs) <= Total(c, t)
  {
    var tx := c.txs[t];
    assert Sound(c, t);
    AtMost(taint, Values(c), tx.inputs);
    var i := AtPositive(taint, tx.inputs);
    var o := tx.inputs[i];
    assert SpentBy(c, t, o, EntityOf(c, tx.inputs[0]));
    assert inside(o) && origin <= o && Next(c, o) == tx.outputs;
    forall j | 0 <= j < 2 ensures inside(tx.outputs[j]) {
      assert Edge(Flow(c), o, tx.outputs[j]);
    }
  }

  /** What a smeared transaction writes. */
  lemma TwoSmeared(c: Chain, taint: seq<nat>, x: nat, y: nat, dirty: nat, total: nat)
    requires total > 0 && x < |taint| && y < |taint| && x != y
    ensures Smeared(c, taint, [x, y], dirty, total) == taint[x := Share(c, x, dirty, total)][y := Share(c, y, dirty,
            total)]
  {
    assert [x, y][..1] == [x] && [x][..0] == [];
    assert Smeared(c, taint, [x], dirty, total) == taint[x := Share(c, x, dirty, total)];
  }

  lemma StepTaints(c: Chain, origin: nat, inside: nat -> bool, taint: seq<nat>, t: nat)
    requires Recorded(c) && Tainting(c, origin, inside, taint, t) && ClosedFrom(Flow(c), origin, inside) && t < |c.txs|
    ensures Tainting(c, origin, inside, Step(c, taint, t), t + 1)
  {
    if !Skips(c, taint, t) {
      PaymentFacts(c, origin, inside, taint, t);
      var outs, dirty, total := c.txs[t].outputs, At(taint, c.txs[t].inputs), Total(c, t);
      var x, y := outs[0], outs[1];
      assert outs == [x, y];
      TwoSmeared(c, taint, x, y, dirty, total);
      RoundedBelow(c.outputs[x].value, dirty, total, c.outputs[x].value * dirty);
      RoundedBelow(c.outputs[y].value, dirty, total, c.outputs[y].value * dirty);
    }
  }

  // ---------------------------------------------------------------- the taint that is still alive

  lemma LiveBefore(c: Chain, taint: seq<nat>, t: nat)
    requires Recorded(c) && |taint| == |c.outputs| && t < |c.txs|
    ensures Live(c, taint, t + 1) == Zeroed(Live(c, taint, t), c.txs[t].inputs)
    ensures At(Live(c, taint, t), c.txs[t].inputs) == At(taint, c.txs[t].inputs)
    ensures Distinct(c.txs[t].inputs) && forall i :: 0 <= i < |c.txs[t].inputs| ==> c.txs[t].inputs[i] < |taint|
  {
    var w, ins := Live(c, taint, t), c.txs[t].inputs;
    assert Sound(c, t);
    forall i | 0 <= i < |ins| ensures ins[i] < |taint| && w[ins[i]] == taint[ins[i]] && c.spentBy[ins[i]] == Some(t) {
      assert SpentBy(c, t, ins[i], EntityOf(c, ins[0]));
    }
    AtBound(w, taint, ins);
    forall o: nat | o < |taint| ensures Live(c, taint, t + 1)[o] == Zeroed(w, ins)[o] {
      ZeroedAt(w, ins, o);
      if o in ins {
        var i :| 0 <= i < |ins| && ins[i] == o;
      }
    }
  }

  /** Outputs of t are not spent before t + 1. */
  lemma FreshLive(c: Chain, taint: seq<nat>, t: nat, o: nat, x: nat)
    requires Recorded(c) && |taint| == |c.outputs| && t < |c.txs| && o < |taint| && c.outputs[o].creatingTx == t
    ensures Live(c, taint[o := x], t + 1) == Live(c, taint, t + 1)[o := x]
  {
    if c.spentBy[o].Some? {
      var s := c.spentBy[o].value;
      assert o in c.txs[s].inputs && Sound(c, s);
      var i :| 0 <= i < |c.txs[s].inputs| && c.txs[s].inputs[i] == o;
      assert SpentBy(c, s, o, EntityOf(c, c.txs[s].inputs[0]));
    }
  }

  lemma StepSum(c: Chain, origin: nat, inside: nat -> bool, taint: seq<nat>, t: nat)
    requires Recorded(c) && Tainting(c, origin, inside, taint, t) && ClosedFrom(Flow(c), origin, inside) && t < |c.txs|
    ensures Sum(Live(c, Step(c, taint, t), t + 1)) == Sum(Live(c, taint, t)) + if Gains(c, taint, t) then 1 else 0
  {
    var tx := c.txs[t];
    var dirty := At(taint, tx.inputs);
    LiveBefore(c, taint, t);
    ZeroedSum(Live(c, taint, t), tx.inputs);
    if Skips(c, taint, t) {
      AtMost(taint, Values(c), tx.inputs);
      assert dirty == 0;
    } else {
      PaymentFacts(c, origin, inside, taint, t);
      SmearSum(c, taint, t, tx.outputs[0], tx.outputs[1], dirty, Total(c, t));
    }
  }

  lemma SmearSum(c: Chain, taint: seq<nat>, t: nat, x: nat, y: nat, dirty: nat, total: nat)
    requires Recorded(c) && |taint| == |c.outputs| && t < |c.txs|
    requires !c.txs[t].Coinbase() && c.txs[t].outputs == [x, y] && x != y
    requires x < |taint| && y < |taint| && taint[x] == taint[y] == 0
    requires c.outputs[x].creatingTx == c.outputs[y].creatingTx == t && 0 < total == Total(c, t)
    ensures Sum(Live(c, Smeared(c, taint, [x, y], dirty, total), t + 1))
            == Sum(Live(c, taint, t + 1)) + dirty + if Halved(c, x, dirty, total) then 1 else 0
  {
    var p, q := Share(c, x, dirty, total), Share(c, y, dirty, total);
    var w := Live(c, taint, t + 1);
    TwoSmeared(c, taint, x, y, dirty, total);
    FreshLive(c, taint, t, x, p);
    FreshLive(c, taint[x := p], t, y, q);
    FreshLive(c, taint, t, y, 0);
    assert w[x] == 0 && w[y] == 0;
    SumUpdate(w, x, p);
    SumUpdate(w[x := p], y, q);
    PairBalanced(c, t, x, y);
    PairShares(c, x, y, dirty, total);
  }

  lemma PairShares(c: Chain, x: nat, y: nat, dirty: nat, total: nat)
    requires x < |c.outputs| && y < |c.outputs| && 0 < total == c.outputs[x].value + c.outputs[y].value
    ensures Share(c, x, dirty, total) + Share(c, y, dirty, total) == dirty + if Halved(c, x, dirty, total) then 1 else 0
  {
    var v, u := c.outputs[x].value, c.outputs[y].value;
    SharesAddUp(v, u, dirty, total, v * dirty, u * dirty);
  }

  lemma PairBalanced(c: Chain, t: nat, x: nat, y: nat)
    requires Recorded(c) && t < |c.txs| && !c.txs[t].Coinbase() && c.txs[t].outputs == [x, y] && x < |c.outputs|
             && y < |c.outputs|
    ensures Total(c, t) == c.outputs[x].value + c.outputs[y].value
  {
    assert Sound(c, t);
    assert [x, y][..1] == [x] && [x][..0] == [];
    assert At(Values(c), [x]) == c.outputs[x].value;
  }

  // ---------------------------------------------------------------- the haircut

  /** Half-up rounding of value * dirty / total on every output of a payment with dirty inputs. */
  method Haircut(c: Chain, origin: nat) returns (taint: seq<nat>)
    requires Recorded(c) && origin < |c.outputs|
    ensures |taint| == |c.outputs| && taint == TaintAt(c, origin, |c.txs|)
    ensures forall o: nat :: o < |taint| ==> taint[o] <= c.outputs[o].value
    ensures forall o: nat :: o < |taint| && taint[o] > 0 ==> Descends(c, origin, o)
    ensures Sum(Live(c, taint, |c.txs|)) == c.outputs[origin].value + GainsBefore(c, origin, |c.txs|)
  {
    taint := seq(|c.outputs|, i => 0)[origin := c.outputs[origin].value];
    for t := 0 to |c.txs|
      invariant taint == TaintAt(c, origin, t)
    {
      taint := CutOne(c, taint, t);
    }
    CutAll(c, origin, taint);
  }

  lemma CutAll(c: Chain, origin: nat, taint: seq<nat>)
    requires Recorded(c) && origin < |c.outputs| && taint == TaintAt(c, origin, |c.txs|)
    ensures forall o: nat :: o < |taint| ==> taint[o] <= c.outputs[o].value
    ensures forall o: nat :: o < |taint| && taint[o] > 0 ==> Descends(c, origin, o)
    ensures Sum(Live(c, taint, |c.txs|)) == c.outputs[origin].value + GainsBefore(c, origin, |c.txs|)
  {
    CuttingTo(c, origin, |c.txs|);
  }

  ghost predicate Cutting(c: Chain, origin: nat, t: nat)
    requires origin < |c.outputs| && t <= |c.txs|
  {
    Tainting(c, origin, From(Flow(c), origin), TaintAt(c, origin, t), t) && Accounted(c, origin, t)
  }

  lemma {:induction false} CuttingTo(c: Chain, origin: nat, t: nat)
    requires Recorded(c) && origin < |c.outputs| && t <= |c.txs|
    ensures Cutting(c, origin, t)
  {
    var inside := From(Flow(c), origin);
    FromClosed(Flow(c), origin);
    if t == 0 {
      Seeded(c, origin);
    } else {
      CuttingTo(c, origin, t - 1);
      var taint := TaintAt(c, origin, t - 1);
      StepTaints(c, origin, inside, taint, t - 1);
      StepSum(c, origin, inside, taint, t - 1);
    }
  }

  /** One transaction. */
  method CutOne(c: Chain, taint: seq<nat>, t: nat) returns (r: seq<nat>)
    requires |taint| == |c.outputs| && t < |c.txs|
    ensures r == Step(c, taint, t)
  {
    var tx := c.txs[t];
    if tx.Coinbase() {
      return taint;
    }
    var totalIn, dirtyIn := At(Values(c), tx.inputs), At(taint, tx.inputs);
    if dirtyIn == 0 || totalIn == 0 {
      return taint;
    }
    r := SmearAll(c, taint, tx.outputs, dirtyIn, totalIn);
  }

  method SmearAll(c: Chain, taint: seq<nat>, outs: seq<nat>, dirty: nat, total: nat) returns (r: seq<nat>)
    requires total > 0 && |taint| == |c.outputs|
    ensures r == Smeared(c, taint, outs, dirty, total)
  {
    r := taint;
    for j := 0 to |outs|
      invariant r == Smeared(c, taint, outs[..j], dirty, total)
    {
      assert outs[..j + 1][..j] == outs[..j];
      if outs[j] < |r| {
        r := r[outs[j] := Rounded(c.outputs[outs[j]].value * dirty, total)];
      }
    }
    assert outs[..|outs|] == outs;
  }

  lemma {:induction false} ZeroSum(w: seq<nat>)
    requires forall i :: 0 <= i < |w| ==> w[i] == 0
    ensures Sum(w) == 0
  {
    if w != [] {
      ZeroSum(w[..|w| - 1]);
    }
  }

  lemma Seeded(c: Chain, origin: nat)
    requires origin < |c.outputs|
    ensures Cutting(c, origin, 0)
  {
    FromClosed(Flow(c), origin);
    var zero: seq<nat> := seq(|c.outputs|, i => 0);
    ZeroSum(zero);
    SumUpdate(zero, origin, c.outputs[origin].value);
    assert Live(c, TaintAt(c, origin, 0), 0) == TaintAt(c, origin, 0);
  }

  /** The taint in the UTXO set. */
  method FlaggedValue(c: Chain, taint: seq<nat>) returns (total: nat)
    requires Recorded(c) && |taint| == |c.outputs|
    ensures total == Sum(Live(c, taint, |c.txs|))
  {
    ghost var w := Live(c, taint, |c.txs|);
    total := 0;
    for o := 0 to |c.outputs|
      invariant total == Sum(w[..o])
    {
      assert w[..o + 1] == w[..o] + [w[o]];
      SumSnoc(w[..o], w[o]);
      if c.spentBy[o].None? && taint[o] > 0 {
        total := total + taint[o];
      }
    }
    assert w[..|w|] == w;
  }

  /** Together: the flagged value is the stolen value and one unit for each payment that splits
      in exact halves. */
  method FlaggedAfterHaircut(c: Chain, origin: nat) returns (flagged: nat)
    requires Recorded(c) && origin < |c.outputs|
    ensures flagged == Flagged(c, origin) == c.outputs[origin].value + GainsBefore(c, origin, |c.txs|)
  {
    var taint := Haircut(c, origin);
    flagged := FlaggedValue(c, taint);
  }

  ghost predicate GainsAt(c: Chain, origin: nat, t: nat)
    requires origin < |c.outputs|
  {
    t < |c.txs| && Gains(c, TaintAt(c, origin, t), t)
  }

  lemma {:induction false} NoGains(c: Chain, origin: nat, t: nat)
    requires origin < |c.outputs| && t <= |c.txs|
    ensures GainsBefore(c, origin, t) == 0 <==> forall s: nat :: s < t ==> !GainsAt(c, origin, s)
  {
    if t > 0 {
      NoGains(c, origin, t - 1);
      assert GainsBefore(c, origin, t) == GainsBefore(c, origin, t - 1) + if GainsAt(c, origin, t - 1) then 1 else 0;
    }
  }

  /** What is flagged at the end. */
  ghost function Flagged(c: Chain, origin: nat): nat
    requires origin < |c.outputs|
  {
    Sum(Live(c, TaintAt(c, origin, |c.txs|), |c.txs|))
  }

  /** The stolen value is conserved exactly if no payment splits its dirty inputs in halves. */
  lemma ConservedWhen(c: Chain, origin: nat)
    requires Recorded(c) && origin < |c.outputs|
    ensures Flagged(c, origin) == c.outputs[origin].value <==>
            forall s: nat :: s < |c.txs| ==> !GainsAt(c, origin, s)
  {
    CuttingTo(c, origin, |c.txs|);
    NoGains(c, origin, |c.txs|);
  }

  /** Transaction t spends an output that descends from the origin. */
  ghost predicate SpendsDescendant(c: Chain, origin: nat, t: nat)
    requires t < |c.txs|
  {
    exists i :: 0 <= i < |c.txs[t].inputs| && Descends(c, origin, c.txs[t].inputs[i])
  }

  lemma HalfIsEven(p: nat, b: nat)
    requires b > 0 && Half(p, b)
    ensures b % 2 == 0
  {
  }

  /** A payment that gains spends a descendant and has an even total. */
  lemma GainsNeed(c: Chain, origin: nat, t: nat)
    requires Recorded(c) && origin < |c.outputs| && GainsAt(c, origin, t)
    ensures SpendsDescendant(c, origin, t) && Total(c, t) % 2 == 0
  {
    var taint := TaintAt(c, origin, t);
    CuttingTo(c, origin, t);
    var i := AtPositive(taint, c.txs[t].inputs);
    assert Descends(c, origin, c.txs[t].inputs[i]);
    HalfIsEven(c.outputs[c.txs[t].outputs[0]].value * At(taint, c.txs[t].inputs), Total(c, t));
  }

  /** Seen on the chain alone: if every payment that spends a descendant of the theft moves an odd
      total, what is flagged is what was stolen. */
  lemma OddTotalsConserve(c: Chain, origin: nat)
    requires Recorded(c) && origin < |c.outputs|
    requires forall t :: 0 <= t < |c.txs| && SpendsDescendant(c, origin, t) ==> Total(c, t) % 2 == 1
    ensures Flagged(c, origin) == c.outputs[origin].value
  {
    forall s: nat | s < |c.txs| ensures !GainsAt(c, origin, s) {
      if GainsAt(c, origin, s) {
        GainsNeed(c, origin, s);
        assert false;
      }
    }
    ConservedWhen(c, origin);
  }

  /** The gains are at most one a payment. */
  lemma {:induction false} GainsAreFew(c: Chain, origin: nat, t: nat)
    requires origin < |c.outputs| && t <= |c.txs|
    ensures GainsBefore(c, origin, t) <= Payments(c, t)
  {
    if t > 0 {
      GainsAreFew(c, origin, t - 1);
    }
  }

  // ---------------------------------------------------------------- a theft that grows

  /** Two entities open with 3 each; entity 1 pays 1 to entity 0, which spends it with its own 3,
      the origin, in halves of 2. */
  const HalvingChain: Chain := Chain(
    [Output(3, 0, 0), Output(3, 1, 1), Output(1, 2, 2), Output(2, 3, 2), Output(2, 4, 3), Output(2, 5, 3)],
    [Tx([], [0]), Tx([], [1]), Tx([1], [2, 3]), Tx([0, 2], [4, 5])],
    [Some(3), Some(2), Some(3), None, None, None],
    [0, 1, 0, 1, 1, 0],
    [[0, 2, 5], [1, 3, 4]],
    [[5], [3, 4]])

  lemma OneInput(w: seq<nat>, a: nat)
    requires a < |w|
    ensures At(w, [a]) == w[a]
  {
    assert [a][..0] == [];
  }

  lemma TwoInputs(w: seq<nat>, a: nat, b: nat)
    requires a < |w| && b < |w|
    ensures At(w, [a, b]) == w[a] + w[b]
  {
    assert [a, b][..1] == [a];
    OneInput(w, a);
  }

  lemma HalvingValues()
    ensures Values(HalvingChain) == [3, 3, 1, 2, 2, 2] && UnspentValues(HalvingChain) == [0, 0, 0, 2, 2, 2]
  {
  }

  lemma HalvingUnspent()
    ensures Sum(UnspentValues(HalvingChain)) == 6
  {
    HalvingValues();
    assert [0, 0, 0, 2, 2, 2] == [] + [0] + [0] + [0] + [2] + [2] + [2];
    SumSnoc([] + [0] + [0] + [0] + [2] + [2], 2);
    SumSnoc([] + [0] + [0] + [0] + [2], 2);
    SumSnoc([] + [0] + [0] + [0], 2);
    SumSnoc([] + [0] + [0], 0);
    SumSnoc([] + [0], 0);
    SumSnoc([], 0);
  }

  lemma HalvingTotals()
    ensures At(Values(HalvingChain), [1]) == At(Values(HalvingChain), [2, 3]) == 3
    ensures At(Values(HalvingChain), [0, 2]) == At(Values(HalvingChain), [4, 5]) == 4
  {
    HalvingValues();
    var w := Values(HalvingChain);
    OneInput(w, 1);
    TwoInputs(w, 2, 3);
    TwoInputs(w, 0, 2);
    TwoInputs(w, 4, 5);
  }

  lemma HalvingEntities(c: Chain)
    requires c == HalvingChain
    ensures EntityOf(c, 0) == EntityOf(c, 2) == EntityOf(c, 5) == 0
            && EntityOf(c, 1) == EntityOf(c, 3) == EntityOf(c, 4) == 1
    ensures SpentBy(c, 2, 1, 1) && SpentBy(c, 3, 0, 0) && SpentBy(c, 3, 2, 0)
  {
  }

  lemma HalvingFirst(c: Chain)
    requires c == HalvingChain
    ensures Sound(c, 0) && Sound(c, 1)
  {
  }

  lemma HalvingThird(c: Chain)
    requires c == HalvingChain
    ensures Sound(c, 2)
  {
    HalvingEntities(c);
    HalvingTotals();
    assert c.txs[2] == Tx([1], [2, 3]);
    assert Linked(c, 2, Tx([1], [2, 3]));
  }

  lemma HalvingFourth(c: Chain)
    requires c == HalvingChain
    ensures Sound(c, 3)
  {
    HalvingEntities(c);
    HalvingTotals();
    assert c.txs[3] == Tx([0, 2], [4, 5]);
    assert Linked(c, 3, Tx([0, 2], [4, 5]));
  }

  lemma HalvingSpends(c: Chain)
    requires c == HalvingChain
    ensures |c.txs| == 4 && |c.outputs| == |c.spentBy| == 6
    ensures forall o :: 0 <= o < |c.outputs| && c.spentBy[o].Some? ==>
              c.spentBy[o].value < |c.txs| && o in c.txs[c.spentBy[o].value].inputs
  {
  }

  lemma HalvingCreated(c: Chain)
    requires c == HalvingChain
    ensures forall o :: 0 <= o < |c.outputs| ==> c.outputs[o].creatingTx < |c.txs|
  {
  }

  lemma HalvingRecorded(c: Chain)
    requires c == HalvingChain
    ensures Recorded(c)
  {
    HalvingFirst(c);
    HalvingThird(c);
    HalvingFourth(c);
    FourSound(c);
    HalvingSpends(c);
    HalvingCreated(c);
  }

  lemma FourSound(c: Chain)
    requires |c.txs| == 4 && Sound(c, 0) && Sound(c, 1) && Sound(c, 2) && Sound(c, 3)
    ensures forall t :: 0 <= t < |c.txs| ==> Sound(c, t)
  {
  }

  lemma HalvingTaints()
    ensures TaintAt(HalvingChain, 0, 3) == [3, 0, 0, 0, 0, 0] && GainsBefore(HalvingChain, 0, 3) == 0
  {
    var c := HalvingChain;
    var taint := TaintAt(c, 0, 0);
    assert taint == [3, 0, 0, 0, 0, 0];
    assert Skips(c, taint, 0) && Skips(c, taint, 1);
    assert TaintAt(c, 0, 1) == taint && GainsBefore(c, 0, 1) == 0;
    assert TaintAt(c, 0, 2) == taint && GainsBefore(c, 0, 2) == 0;
    OneInput(taint, 1);
    assert Skips(c, taint, 2);
  }

  /** The generator's invariants hold of it, and what is flagged is 4, not the 3 that were stolen. */
  lemma HaircutGains()
    ensures Valid(HalvingChain, 2, 6)
    ensures HalvingChain.outputs[0].value == 3 && Flagged(HalvingChain, 0) == 4
  {
    var c := HalvingChain;
    HalvingUnspent();
    HalvingRecorded(c);
    HalvingTaints();
    HalvingTotals();
    var taint := TaintAt(c, 0, 3);
    TwoInputs(taint, 0, 2);
    assert Half(2 * 3, 4);
    assert Gains(c, taint, 3);
    assert GainsBefore(c, 0, 4) == 1;
    CuttingTo(c, 0, 4);
    HalvingOwned(c);
    HalvingPartitioned(c);
  }

  lemma HalvingOwned(c: Chain)
    requires c == HalvingChain
    ensures Owned(c, 2)
  {
    assert c.addresses[0] == [0, 2, 5] && c.addresses[1] == [1, 3, 4];
  }

  lemma HalvingLists(c: Chain)
    requires c == HalvingChain
    ensures forall e, i :: 0 <= e < 2 && 0 <= i < |c.unspent[e]| ==>
              c.unspent[e][i] < |c.outputs| && c.spentBy[c.unspent[e][i]] == None && EntityOf(c, c.unspent[e][i]) == e
    ensures forall e :: 0 <= e < 2 ==> Distinct(c.unspent[e])
  {
    HalvingEntities(c);
    assert c.unspent[0] == [5] && c.unspent[1] == [3, 4];
  }

  lemma HalvingPartitioned(c: Chain)
    requires c == HalvingChain
    ensures Partitioned(c, 2)
  {
    HalvingEntities(c);
    HalvingLists(c);
    assert 5 in c.unspent[0] && 3 in c.unspent[1] && 4 in c.unspent[1];
  }

  // ---------------------------------------------------------------- the descendants themselves

  /** Seen outputs are inside; what they flow into is seen, unless they are on the stack, and
      for o up to its j-th successor. */
  ghost predicate Tracing(c: Chain, inside: nat -> bool, seen: set<nat>, stack: seq<nat>, o: nat, j: nat) {
    && (forall x :: x in seen ==> x < |c.outputs| && inside(x))
    && (forall i :: 0 <= i < |stack| ==> stack[i] in seen)
    && (forall x, i :: x in seen && x !in stack && x != o && 0 <= i < |Next(c, x)| ==> Next(c, x)[i] in seen)
    && (o in seen ==> forall i :: 0 <= i < j && i < |Next(c, o)| ==> Next(c, o)[i] in seen)
  }

  ghost predicate InRangeOuts(c: Chain) {
    |c.spentBy| == |c.outputs| && forall t, j :: 0 <= t < |c.txs| && 0 <= j < |c.txs[t].outputs| ==>
      c.txs[t].outputs[j] < |c.outputs|
  }

  lemma TraceNext(c: Chain, origin: nat, inside: nat -> bool, seen: set<nat>, stack: seq<nat>, o: nat, j: nat, x: nat)
    requires InRangeOuts(c) && ClosedFrom(Flow(c), origin, inside) && Tracing(c, inside, seen, stack, o, j)
    requires o in seen && j < |Next(c, o)| && x == Next(c, o)[j]
    ensures x in seen ==> Tracing(c, inside, seen, stack, o, j + 1)
    ensures x !in seen ==> Tracing(c, inside, seen + {x}, stack + [x], o, j + 1)
  {
    assert Edge(Flow(c), o, x);
  }

  lemma TracePop(c: Chain, inside: nat -> bool, seen: set<nat>, stack: seq<nat>)
    requires Tracing(c, inside, seen, stack, |c.outputs|, 0) && stack != []
    ensures stack[|stack| - 1] in seen && Tracing(c, inside, seen, stack[..|stack| - 1], stack[|stack| - 1], 0)
  {
    assert forall x :: x in stack <==> x in stack[..|stack| - 1] || x == stack[|stack| - 1];
  }

  lemma TraceDone(c: Chain, inside: nat -> bool, seen: set<nat>, stack: seq<nat>, o: nat)
    requires Tracing(c, inside, seen, stack, o, |Next(c, o)|)
    ensures Tracing(c, inside, seen, stack, |c.outputs|, 0) && |seen| <= |c.outputs|
  {
    SubsetSize(seen, |c.outputs|);
  }

  /** All outputs reached from origin along the transactions. */
  method Descendants(c: Chain, origin: nat) returns (seen: set<nat>)
    requires InRangeOuts(c) && origin < |c.outputs|
    ensures forall o: nat :: o in seen <==> o < |c.outputs| && Descends(c, origin, o)
  {
    seen := {origin};
    var stack := [origin];
    ghost var inside := From(Flow(c), origin);
    FromClosed(Flow(c), origin);
    while stack != []
      invariant Tracing(c, inside, seen, stack, |c.outputs|, 0) && origin in seen && |seen| <= |c.outputs|
      decreases |c.outputs| - |seen|, |stack|
    {
      var o := stack[|stack| - 1];
      TracePop(c, inside, seen, stack);
      seen, stack := Expand(c, origin, inside, o, seen, stack[..|stack| - 1]);
    }
    TracedAll(c, origin, inside, seen);
  }

  /** Pushes the outputs o flows into that are new. */
  method Expand(c: Chain, ghost origin: nat, ghost inside: nat -> bool, o: nat, seen: set<nat>, stack: seq<nat>)
    returns (seen': set<nat>, stack': seq<nat>)
    requires InRangeOuts(c) && ClosedFrom(Flow(c), origin, inside) && Tracing(c, inside, seen, stack, o, 0) && o in seen
    ensures Tracing(c, inside, seen', stack', |c.outputs|, 0) && seen <= seen' && |seen'| <= |c.outputs|
    ensures |seen'| > |seen| || (|seen'| == |seen| && stack' == stack)
  {
    seen', stack' := seen, stack;
    var next := Next(c, o);
    for j := 0 to |next|
      invariant Tracing(c, inside, seen', stack', o, j) && seen <= seen'
      invariant |seen'| > |seen| || (|seen'| == |seen| && stack' == stack)
    {
      var x := next[j];
      TraceNext(c, origin, inside, seen', stack', o, j, x);
      if x !in seen' {
        seen', stack' := seen' + {x}, stack' + [x];
      }
    }
    TraceDone(c, inside, seen', stack', o);
  }

  lemma TracedAll(c: Chain, origin: nat, within: nat -> bool, seen: set<nat>)
    requires Tracing(c, within, seen, [], |c.outputs|, 0) && origin in seen && within == From(Flow(c), origin)
    ensures forall o: nat :: o in seen <==> o < |c.outputs| && Descends(c, origin, o)
  {
    var inside := (o: nat) => o in seen;
    forall u: nat, v: nat | inside(u) && Edge(Flow(c), u, v) ensures inside(v) {
      var i :| 0 <= i < |Next(c, u)| && Next(c, u)[i] == v;
    }
    forall o: nat | o < |c.outputs| && Descends(c, origin, o) ensures o in seen {
      var k: nat :| Steps(Flow(c), origin, k, o);
      StaysClosed(Flow(c), origin, inside, k, o);
    }
    forall o: nat | o in seen ensures o < |c.outputs| && Descends(c, origin, o) {
      assert within(o);
    }
  }
}
