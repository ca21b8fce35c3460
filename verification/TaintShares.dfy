module TaintShares {
  // What the final taints are, as relations between them alone: the stolen output is tainted in
  // full, and every other output has its share of the taint its transaction spends.

  import opened Common
  import opened Reachability
  import opened Ledger
  import opened Taint

  /** x is p / b rounded to the nearest integer, halves up. */
  predicate Nearest(x: nat, p: nat, b: nat) {
    2 * (b * x) <= 2 * p + b < 2 * (b * x) + 2 * b
  }

  /** The stolen output has its whole value as taint. Another one has its share by value of the taint
      its transaction spends, and none if that spends none. */
  ghost predicate Settled(c: Chain, origin: nat, taint: seq<nat>, o: nat)
    requires o < |c.outputs| == |taint| && c.outputs[o].creatingTx < |c.txs|
  {
    var tx := c.txs[c.outputs[o].creatingTx];
    var dirty, total := At(taint, tx.inputs), At(Values(c), tx.inputs);
    if o == origin then taint[o] == c.outputs[o].value
    else if o in tx.outputs && dirty > 0 && total > 0 then Nearest(taint[o], c.outputs[o].value * dirty, total)
    else taint[o] == 0
  }

  lemma {:induction false} AtSame(w: seq<nat>, v: seq<nat>, ids: seq<nat>)
    requires |w| == |v| && forall i <- ids :: i < |w| ==> w[i] == v[i]
    ensures At(w, ids) == At(v, ids)
  {
    if ids != [] {
      assert ids[|ids| - 1] in ids && forall i <- ids[..|ids| - 1] :: i in ids;
      AtSame(w, v, ids[..|ids| - 1]);
    }
  }

  lemma {:induction false} SmearedAt(c: Chain, taint: seq<nat>, outs: seq<nat>, dirty: nat, total: nat, o: nat)
    requires total > 0 && o < |taint|
    ensures Smeared(c, taint, outs, dirty, total)[o] == if o in outs then Share(c, o, dirty, total) else taint[o]
  {
    if outs != [] {
      SmearedAt(c, taint, outs[..|outs| - 1], dirty, total, o);
      assert outs == outs[..|outs| - 1] + [outs[|outs| - 1]];
    }
  }

  /** A transaction changes the taint of its own outputs alone. */
  lemma StepAt(c: Chain, taint: seq<nat>, t: nat, o: nat)
    requires Recorded(c) && t < |c.txs| && o < |taint| == |c.outputs|
    ensures Step(c, taint, t)[o] == if !Skips(c, taint, t) && o in c.txs[t].outputs
                                    then Share(c, o, At(taint, c.txs[t].inputs), Total(c, t)) else taint[o]
    ensures o in c.txs[t].outputs ==> c.outputs[o].creatingTx == t
  {
    assert Sound(c, t);
    if !Skips(c, taint, t) {
      SmearedAt(c, taint, c.txs[t].outputs, At(taint, c.txs[t].inputs), Total(c, t), o);
    }
  }

  /** It changes nothing that it or an earlier one spends. */
  lemma SpentStays(c: Chain, taint: seq<nat>, t: nat, s: nat)
    requires Recorded(c) && s <= t < |c.txs| && |taint| == |c.outputs|
    ensures At(Step(c, taint, t), c.txs[s].inputs) == At(taint, c.txs[s].inputs)
  {
    var ids := c.txs[s].inputs;
    assert Sound(c, s);
    forall o | o in ids && o < |taint| ensures Step(c, taint, t)[o] == taint[o] {
      var i :| 0 <= i < |ids| && ids[i] == o;
      assert SpentBy(c, s, ids[i], EntityOf(c, ids[0]));
      StepAt(c, taint, t, o);
    }
    AtSame(Step(c, taint, t), taint, ids);
  }

  lemma ShareIsNearest(v: nat, dirty: nat, total: nat)
    requires total > 0
    ensures Nearest(Rounded(v * dirty, total), v * dirty, total)
  {
    RoundedNear(v * dirty, total);
    assert 2 * total * Rounded(v * dirty, total) == 2 * (total * Rounded(v * dirty, total));
  }

  /** Before transaction t: settled if created by then, and clean otherwise. */
  ghost predicate SettledBefore(c: Chain, origin: nat, taint: seq<nat>, t: nat, o: nat)
    requires o < |c.outputs| == |taint| && c.outputs[o].creatingTx < |c.txs|
  {
    if o == origin || c.outputs[o].creatingTx < t then Settled(c, origin, taint, o) else taint[o] == 0
  }

  lemma SettledNext(c: Chain, origin: nat, taint: seq<nat>, t: nat, o: nat)
    requires Recorded(c) && t < |c.txs| && o < |c.outputs| == |taint|
    requires Tainting(c, origin, From(Flow(c), origin), taint, t)
    requires SettledBefore(c, origin, taint, t, o)
    ensures SettledBefore(c, origin, Step(c, taint, t), t + 1, o)
  {
    var s := c.outputs[o].creatingTx;
    StepAt(c, taint, t, o);
    if o == origin {
      if !Skips(c, taint, t) {
        FromClosed(Flow(c), origin);
        PaymentFacts(c, origin, From(Flow(c), origin), taint, t);
      }
    } else if s <= t {
      SpentStays(c, taint, t, s);
      if s == t && !Skips(c, taint, t) {
        ShareIsNearest(c.outputs[o].value, At(taint, c.txs[t].inputs), Total(c, t));
      }
    }
  }

  lemma StepSettles(c: Chain, origin: nat, t: nat, taint: seq<nat>, o: nat)
    requires Recorded(c) && origin < |c.outputs| && t < |c.txs| && o < |c.outputs|
    requires taint == TaintAt(c, origin, t) && SettledBefore(c, origin, taint, t, o)
    ensures SettledBefore(c, origin, Step(c, taint, t), t + 1, o)
  {
    CuttingTo(c, origin, t);
    SettledNext(c, origin, taint, t, o);
  }

  lemma {:induction false} SettledTo(c: Chain, origin: nat, t: nat, o: nat)
    requires Recorded(c) && origin < |c.outputs| && t <= |c.txs| && o < |c.outputs|
    ensures SettledBefore(c, origin, TaintAt(c, origin, t), t, o)
  {
    if t > 0 {
      var taint := TaintAt(c, origin, t - 1);
      SettledTo(c, origin, t - 1, o);
      StepSettles(c, origin, t - 1, taint, o);
      assert TaintAt(c, origin, t) == Step(c, taint, t - 1);
    }
  }

  /** What the haircut leaves is settled everywhere. */
  lemma HaircutSettles(c: Chain, origin: nat)
    requires Recorded(c) && origin < |c.outputs|
    ensures forall o :: 0 <= o < |c.outputs| ==> Settled(c, origin, TaintAt(c, origin, |c.txs|), o)
  {
    forall o | 0 <= o < |c.outputs| ensures Settled(c, origin, TaintAt(c, origin, |c.txs|), o) {
      SettledTo(c, origin, |c.txs|, o);
    }
  }

  lemma NearestIsOne(x: nat, y: nat, p: nat, b: nat)
    requires Nearest(x, p, b) && Nearest(y, p, b)
    ensures x == y
  {
    if x < y {
      ScaleOver(b, x + 1, y);
    } else if y < x {
      ScaleOver(b, y + 1, x);
    }
  }

  /** Equal taints spent make equal taints created. */
  lemma SameOnceSettled(c: Chain, origin: nat, a: seq<nat>, b: seq<nat>, o: nat, dirty: nat)
    requires |a| == |b| == |c.outputs| && o < |a| && c.outputs[o].creatingTx < |c.txs|
    requires Settled(c, origin, a, o) && Settled(c, origin, b, o)
    requires var ids := c.txs[c.outputs[o].creatingTx].inputs; At(a, ids) == dirty && At(b, ids) == dirty
    ensures a[o] == b[o]
  {
    var tx := c.txs[c.outputs[o].creatingTx];
    if o != origin && o in tx.outputs && dirty > 0 && At(Values(c), tx.inputs) > 0 {
      NearestIsOne(a[o], b[o], c.outputs[o].value * dirty, At(Values(c), tx.inputs));
    }
  }

  /** Only one list of taints is settled everywhere. */
  lemma {:induction false} SettledIsOne(c: Chain, origin: nat, a: seq<nat>, b: seq<nat>, o: nat)
    requires Recorded(c) && |a| == |b| == |c.outputs| && o < |a|
    requires forall x :: 0 <= x < |a| ==> Settled(c, origin, a, x) && Settled(c, origin, b, x)
    ensures a[o] == b[o]
    decreases c.outputs[o].creatingTx
  {
    var t := c.outputs[o].creatingTx;
    var tx := c.txs[t];
    assert Sound(c, t);
    forall x | x in tx.inputs && x < |a| ensures a[x] == b[x] {
      var i :| 0 <= i < |tx.inputs| && tx.inputs[i] == x;
      assert SpentBy(c, t, tx.inputs[i], EntityOf(c, tx.inputs[0]));
      SettledIsOne(c, origin, a, b, x);
    }
    AtSame(a, b, tx.inputs);
    SameOnceSettled(c, origin, a, b, o, At(a, tx.inputs));
  }
}
