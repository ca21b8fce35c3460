module Ledger {
  // The synthetic chain of unspent outputs, for every choice the generator can draw: no value is
  // created or lost, the per-entity lists partition the unspent outputs, and every transaction
  // spends the outputs of one entity.

  import opened Common
  import Sorting

  datatype Output = Output(value: nat, address: nat, creatingTx: nat)

  datatype Tx = Tx(inputs: seq<nat>, outputs: seq<nat>) {
    predicate Coinbase() {
      inputs == []
    }
  }

  /** The chain, the ground truth about addresses, and the generator's books per entity. */
  datatype Chain = Chain(outputs: seq<Output>, txs: seq<Tx>, spentBy: seq<Option<nat>>, owner: seq<nat>,
                         addresses: seq<seq<nat>>, unspent: seq<seq<nat>>)

  // ---------------------------------------------------------------- sums

  function Sum(s: seq<nat>): nat {
    if s == [] then 0 else Sum(s[..|s| - 1]) + s[|s| - 1]
  }

  lemma {:induction false} SumUpdate(s: seq<nat>, i: nat, x: nat)
    requires i < |s|
    ensures Sum(s[i := x]) + s[i] == Sum(s) + x
  {
    var m := |s| - 1;
    if i == m {
      assert s[i := x][..m] == s[..m];
    } else {
      SumUpdate(s[..m], i, x);
      assert s[i := x][..m] == s[..m][i := x];
    }
  }

  lemma SumSnoc(s: seq<nat>, x: nat)
    ensures Sum(s + [x]) == Sum(s) + x
  {
    assert (s + [x])[..|s|] == s;
  }

  /** The sum of w over the given positions. */
  function At(w: seq<nat>, ids: seq<nat>): nat {
    if ids == [] then 0 else At(w, ids[..|ids| - 1]) + (if ids[|ids| - 1] < |w| then w[ids[|ids| - 1]] else 0)
  }

  lemma AtSnoc(w: seq<nat>, ids: seq<nat>, o: nat)
    ensures At(w, ids + [o]) == At(w, ids) + if o < |w| then w[o] else 0
  {
    assert (ids + [o])[..|ids|] == ids;
  }

  /** w with zeros at the given positions. */
  function Zeroed(w: seq<nat>, ids: seq<nat>): (r: seq<nat>)
    ensures |r| == |w|
  {
    if ids == [] then w else
      var r := Zeroed(w, ids[..|ids| - 1]);
      if ids[|ids| - 1] < |w| then r[ids[|ids| - 1] := 0] else r
  }

  lemma {:induction false} ZeroedAt(w: seq<nat>, ids: seq<nat>, i: nat)
    requires i < |w|
    ensures Zeroed(w, ids)[i] == if i in ids then 0 else w[i]
  {
    if ids != [] {
      ZeroedAt(w, ids[..|ids| - 1], i);
      assert ids == ids[..|ids| - 1] + [ids[|ids| - 1]];
    }
  }

  lemma {:induction false} ZeroedSum(w: seq<nat>, ids: seq<nat>)
    requires Distinct(ids) && forall i :: 0 <= i < |ids| ==> ids[i] < |w|
    ensures Sum(Zeroed(w, ids)) + At(w, ids) == Sum(w)
  {
    if ids != [] {
      var init, last := ids[..|ids| - 1], ids[|ids| - 1];
      ZeroedSum(w, init);
      ZeroedAt(w, init, last);
      SumUpdate(Zeroed(w, init), last, 0);
    }
  }

  // ---------------------------------------------------------------- the UTXO set

  function Values(c: Chain): (w: seq<nat>)
    ensures |w| == |c.outputs|
  {
    seq(|c.outputs|, o requires 0 <= o < |c.outputs| => c.outputs[o].value)
  }

  /** The values of unspent outputs, zero at spent ones. */
  function UnspentValues(c: Chain): (w: seq<nat>)
    ensures |w| == |c.outputs|
  {
    seq(|c.outputs|, o requires 0 <= o < |c.outputs| => if o < |c.spentBy|
      && c.spentBy[o] == None then c.outputs[o].value else 0)
  }

  /** The unspent outputs below o, in order. */
  function UnspentBelow(c: Chain, o: nat): seq<nat>
    requires o <= |c.spentBy|
  {
    if o == 0 then [] else UnspentBelow(c, o - 1) + (if c.spentBy[o - 1].None? then [o - 1] else [])
  }

  lemma {:induction false} UnspentMembers(c: Chain, o: nat)
    requires o <= |c.spentBy|
    ensures forall x: nat :: x in UnspentBelow(c, o) <==> x < o && c.spentBy[x] == None
  {
    if o > 0 {
      UnspentMembers(c, o - 1);
    }
  }

  lemma {:induction false} UnspentAscends(c: Chain, o: nat)
    requires o <= |c.spentBy|
    ensures forall i, j :: 0 <= i < j < |UnspentBelow(c, o)| ==> UnspentBelow(c, o)[i] < UnspentBelow(c, o)[j]
  {
    if o > 0 {
      var ids := UnspentBelow(c, o - 1);
      UnspentAscends(c, o - 1);
      UnspentMembers(c, o - 1);
      forall i | 0 <= i < |ids| ensures ids[i] < o - 1 {
        assert ids[i] in ids;
      }
    }
  }

  lemma {:induction false} UnspentSum(c: Chain, u: seq<nat>, o: nat)
    requires o <= |c.spentBy| == |c.outputs| && u == UnspentValues(c)
    ensures At(Values(c), UnspentBelow(c, o)) == Sum(u[..o])
  {
    if o > 0 {
      UnspentSum(c, u, o - 1);
      assert u[..o] == u[..o - 1] + [u[o - 1]];
      SumSnoc(u[..o - 1], u[o - 1]);
      AtSnoc(Values(c), UnspentBelow(c, o - 1), o - 1);
      assert UnspentBelow(c, o - 1) + [] == UnspentBelow(c, o - 1);
    }
  }

  /** The unspent outputs, ascending. */
  method UtxoSet(c: Chain) returns (ids: seq<nat>)
    requires |c.spentBy| == |c.outputs|
    ensures forall o: nat :: o in ids <==> o < |c.outputs| && c.spentBy[o] == None
    ensures forall i, j :: 0 <= i < j < |ids| ==> ids[i] < ids[j]
    ensures At(Values(c), ids) == Sum(UnspentValues(c))
  {
    ids := [];
    for o := 0 to |c.outputs|
      invariant ids == UnspentBelow(c, o)
    {
      if c.spentBy[o].None? {
        ids := ids + [o];
      }
    }
    ghost var u := UnspentValues(c);
    UnspentMembers(c, |u|);
    UnspentAscends(c, |u|);
    UnspentSum(c, u, |u|);
    assert u[..|u|] == u;
  }

  /** The value held in the UTXO set. */
  method TotalValue(c: Chain) returns (total: nat)
    requires |c.spentBy| == |c.outputs|
    ensures total == Sum(UnspentValues(c))
  {
    var ids := UtxoSet(c);
    total := 0;
    for i := 0 to |ids|
      invariant total == At(Values(c), ids[..i])
    {
      assert ids[..i + 1][..i] == ids[..i];
      assert ids[i] in ids;
      total := total + c.outputs[ids[i]].value;
    }
    assert ids[..|ids|] == ids;
  }

  // ---------------------------------------------------------------- what every chain satisfies

  function EntityOf(c: Chain, o: nat): nat {
    if o < |c.outputs| && c.outputs[o].address < |c.owner| then c.owner[c.outputs[o].address] else 0
  }

  /** Every address belongs to one entity, which lists its own addresses. */
  ghost predicate Owned(c: Chain, n: nat) {
    && |c.addresses| == n && (forall a :: 0 <= a < |c.owner| ==> c.owner[a] < n)
    && (forall e, i :: 0 <= e < n && 0 <= i < |c.addresses[e]| ==>
      c.addresses[e][i] < |c.owner| && c.owner[c.addresses[e][i]] == e)
    && forall o :: 0 <= o < |c.outputs| ==> c.outputs[o].address < |c.owner|
  }

  /** The unspent lists hold their entity's unspent outputs, each once, and all of them. */
  ghost predicate Partitioned(c: Chain, n: nat) {
    && |c.spentBy| == |c.outputs| && |c.unspent| == n
    && (forall e, i :: 0 <= e < n && 0 <= i < |c.unspent[e]| ==>
          c.unspent[e][i] < |c.outputs| && c.spentBy[c.unspent[e][i]] == None && EntityOf(c, c.unspent[e][i]) == e)
    && (forall e :: 0 <= e < n ==> Distinct(c.unspent[e]))
    && (forall o :: 0 <= o < |c.outputs| && c.spentBy[o] == None ==>
      EntityOf(c, o) < n && o in c.unspent[EntityOf(c, o)])
  }

  /** Output o is spent by t, belongs to e, and was created before. */
  ghost predicate SpentBy(c: Chain, t: nat, o: nat, e: nat) {
    o < |c.outputs| && o < |c.spentBy| && c.spentBy[o] == Some(t) && c.outputs[o].creatingTx < t && EntityOf(c, o) == e
  }

  /** The inputs of t are distinct earlier outputs of one entity, the outputs are its own. */
  ghost predicate Linked(c: Chain, t: nat, tx: Tx) {
    && Distinct(tx.inputs) && Distinct(tx.outputs)
    && (forall i :: 0 <= i < |tx.inputs| ==> SpentBy(c, t, tx.inputs[i], EntityOf(c, tx.inputs[0])))
    && (forall j :: 0 <= j < |tx.outputs| ==> tx.outputs[j] < |c.outputs| && c.outputs[tx.outputs[j]].creatingTx == t)
    && (forall i, j :: 0 <= i < |tx.inputs| && 0 <= j < |tx.outputs| ==> tx.inputs[i] < tx.outputs[j])
  }

  /** A transaction that spends something creates two outputs of the same total value. */
  ghost predicate Balanced(c: Chain, tx: Tx) {
    tx.Coinbase() || (|tx.outputs| == 2 && At(Values(c), tx.inputs) == At(Values(c), tx.outputs))
  }

  ghost predicate Sound(c: Chain, t: nat)
    requires t < |c.txs|
  {
    Linked(c, t, c.txs[t]) && Balanced(c, c.txs[t])
  }

  /** Spent outputs are inputs of the transaction that spent them. */
  ghost predicate Recorded(c: Chain) {
    && |c.spentBy| == |c.outputs|
    && (forall t :: 0 <= t < |c.txs| ==> Sound(c, t))
    && (forall o :: 0 <= o < |c.outputs| && c.spentBy[o].Some? ==>
          c.spentBy[o].value < |c.txs| && o in c.txs[c.spentBy[o].value].inputs)
    && (forall o :: 0 <= o < |c.outputs| ==> c.outputs[o].creatingTx < |c.txs|)
  }

  ghost predicate Valid(c: Chain, n: nat, total: nat) {
    Owned(c, n) && Partitioned(c, n) && Recorded(c) && Sum(UnspentValues(c)) == total
  }

  // ---------------------------------------------------------------- addresses

  function Fresh(c: Chain, e: nat): Chain
    requires e < |c.addresses|
  {
    c.(owner := c.owner + [e], addresses := c.addresses[e := c.addresses[e] + [|c.owner|]])
  }

  lemma {:induction false} AtPrefix(w: seq<nat>, v: seq<nat>, ids: seq<nat>)
    requires |w| <= |v| && (forall i :: 0 <= i < |w| ==> w[i] == v[i]) && forall i :: 0 <= i < |ids| ==> ids[i] < |w|
    ensures At(w, ids) == At(v, ids)
  {
    if ids != [] {
      AtPrefix(w, v, ids[..|ids| - 1]);
    }
  }

  /** Adding outputs and addresses, and spending unspent outputs, keeps a transaction sound. */
  lemma StaysSound(c: Chain, d: Chain, t: nat)
    requires t < |c.txs| && t < |d.txs| && c.txs[t] == d.txs[t] && Sound(c, t)
    requires |c.outputs| <= |d.outputs| && forall o :: 0 <= o < |c.outputs| ==>
             d.outputs[o] == c.outputs[o] && EntityOf(d, o) == EntityOf(c, o)
    requires |c.spentBy| <= |d.spentBy| && forall o :: 0 <= o < |c.spentBy| && c.spentBy[o].Some? ==>
             d.spentBy[o] == c.spentBy[o]
    ensures Sound(d, t)
  {
    var tx := c.txs[t];
    forall i | 0 <= i < |tx.inputs| ensures SpentBy(d, t, tx.inputs[i], EntityOf(d, tx.inputs[0])) {
      assert SpentBy(c, t, tx.inputs[i], EntityOf(c, tx.inputs[0]))
        && SpentBy(c, t, tx.inputs[0], EntityOf(c, tx.inputs[0]));
    }
    if !tx.Coinbase() {
      forall i | 0 <= i < |tx.inputs| ensures tx.inputs[i] < |c.outputs| {
        assert SpentBy(c, t, tx.inputs[i], EntityOf(c, tx.inputs[0]));
      }
      AtPrefix(Values(c), Values(d), tx.inputs);
      AtPrefix(Values(c), Values(d), tx.outputs);
    }
  }

  lemma FreshValid(c: Chain, n: nat, total: nat, e: nat)
    requires Valid(c, n, total) && e < n
    ensures Valid(Fresh(c, e), n, total)
  {
    var d := Fresh(c, e);
    forall o | 0 <= o < |c.outputs| ensures EntityOf(d, o) == EntityOf(c, o) {
    }
    forall t | 0 <= t < |c.txs| ensures Sound(d, t) {
      StaysSound(c, d, t);
    }
    assert UnspentValues(d) == UnspentValues(c);
  }

  /** An address of e: one it has used before, or a fresh one. */
  method PickAddress(c: Chain, ghost n: nat, ghost total: nat, e: nat, reuse: bool) returns (d: Chain, a: nat)
    requires Valid(c, n, total) && e < n
    ensures Valid(d, n, total) && a < |d.owner| && d.owner[a] == e
    ensures d.(owner := c.owner, addresses := c.addresses) == c
    ensures |c.owner| <= |d.owner| && forall x :: 0 <= x < |c.owner| ==> d.owner[x] == c.owner[x]
  {
    if reuse && c.addresses[e] != [] {
      var i :| 0 <= i < |c.addresses[e]|;
      d, a := c, c.addresses[e][i];
    } else {
      FreshValid(c, n, total, e);
      d, a := Fresh(c, e), |c.owner|;
    }
  }

  // ---------------------------------------------------------------- opening balances

  /** A coinbase paying `value` to a new address of e. */
  function Opened(c: Chain, e: nat, value: nat): Chain
    requires e < |c.addresses| && e < |c.unspent|
  {
    var d := Fresh(c, e);
    var o := |c.outputs|;
    d.(outputs := c.outputs + [Output(value, |c.owner|, |c.txs|)], txs := c.txs + [Tx([], [o])],
       spentBy := c.spentBy + [None], unspent := c.unspent[e := c.unspent[e] + [o]])
  }

  lemma OpenedPartition(c: Chain, n: nat, e: nat, value: nat)
    requires Owned(c, n) && Partitioned(c, n) && e < n
    ensures Owned(Opened(c, e, value), n) && Partitioned(Opened(c, e, value), n)
  {
    var d := Opened(c, e, value);
    forall o | 0 <= o < |c.outputs| ensures EntityOf(d, o) == EntityOf(c, o) {
    }
    forall o | 0 <= o < |d.outputs| && d.spentBy[o] == None
      ensures EntityOf(d, o) < n && o in d.unspent[EntityOf(d, o)]
    {
      if o < |c.outputs| {
        assert o in c.unspent[EntityOf(c, o)];
      } else {
        assert d.unspent[e][|c.unspent[e]|] == o;
      }
    }
  }

  lemma OpenedRecorded(c: Chain, n: nat, total: nat, e: nat, value: nat)
    requires Valid(c, n, total) && e < n
    ensures Recorded(Opened(c, e, value)) && Sum(UnspentValues(Opened(c, e, value))) == total + value
  {
    var d := Opened(c, e, value);
    forall o | 0 <= o < |c.outputs| ensures EntityOf(d, o) == EntityOf(c, o) {
    }
    forall t | 0 <= t < |c.txs| ensures Sound(d, t) {
      StaysSound(c, d, t);
    }
    assert Sound(d, |c.txs|);
    assert UnspentValues(d) == UnspentValues(c) + [value];
    SumSnoc(UnspentValues(c), value);
  }

  // ---------------------------------------------------------------- a payment

  /** The given outputs marked as spent by t. */
  function Marked(s: seq<Option<nat>>, ids: seq<nat>, t: nat): (r: seq<Option<nat>>)
    ensures |r| == |s|
  {
    if ids == [] then s else
      var r := Marked(s, ids[..|ids| - 1], t);
      if ids[|ids| - 1] < |s| then r[ids[|ids| - 1] := Some(t)] else r
  }

  lemma {:induction false} MarkedAt(s: seq<Option<nat>>, ids: seq<nat>, t: nat, o: nat)
    requires o < |s|
    ensures Marked(s, ids, t)[o] == if o in ids then Some(t) else s[o]
  {
    if ids != [] {
      MarkedAt(s, ids[..|ids| - 1], t, o);
      assert ids == ids[..|ids| - 1] + [ids[|ids| - 1]];
    }
  }

  /** The parts of a payment. */
  datatype Payment = Payment(sender: nat, recipient: nat, inputs: seq<nat>, rest: seq<nat>,
                             pay: nat, change: nat, payAddr: nat, changeAddr: nat, swap: bool)

  function Outs(c: Chain, p: Payment): seq<nat> {
    if p.swap then [|c.outputs| + 1, |c.outputs|] else [|c.outputs|, |c.outputs| + 1]
  }

  function Lists(c: Chain, p: Payment): (u: seq<seq<nat>>)
    requires p.sender < |c.unspent| && p.recipient < |c.unspent|
    ensures |u| == |c.unspent|
  {
    var u := c.unspent[p.sender := p.rest];
    var v := u[p.recipient := u[p.recipient] + [|c.outputs|]];
    v[p.sender := v[p.sender] + [|c.outputs| + 1]]
  }

  function Paid(c: Chain, p: Payment): Chain
    requires p.sender < |c.unspent| && p.recipient < |c.unspent|
  {
    var t := |c.txs|;
    c.(outputs := c.outputs + [Output(p.pay, p.payAddr, t), Output(p.change, p.changeAddr, t)],
       txs := c.txs + [Tx(p.inputs, Outs(c, p))],
       spentBy := Marked(c.spentBy + [None, None], p.inputs, t),
       unspent := Lists(c, p))
  }

  /** The sender's unspent outputs are divided into inputs and rest, and the values balance. */
  ghost predicate Payable(c: Chain, n: nat, p: Payment) {
    && p.sender < n == |c.unspent| && p.recipient < n
    && p.inputs != [] && multiset(p.inputs + p.rest) == multiset(c.unspent[p.sender])
    && p.payAddr < |c.owner| && c.owner[p.payAddr] == p.recipient
    && p.changeAddr < |c.owner| && c.owner[p.changeAddr] == p.sender
    && p.pay + p.change == At(Values(c), p.inputs)
  }

  /** The inputs are unspent outputs of the sender; inputs and rest are disjoint. */
  lemma InputFacts(c: Chain, n: nat, p: Payment)
    requires Partitioned(c, n) && Payable(c, n, p)
    ensures Distinct(p.inputs) && Distinct(p.rest) && (forall x :: x in p.inputs ==> x !in p.rest)
    ensures forall x :: x in c.unspent[p.sender] <==> x in p.inputs || x in p.rest
    ensures forall x :: x in c.unspent[p.sender] ==>
            x < |c.outputs| && c.spentBy[x] == None && EntityOf(c, x) == p.sender
    ensures forall i :: 0 <= i < |p.inputs| ==> p.inputs[i] < |c.outputs|
    ensures forall x :: x in p.inputs ==> x < |c.spentBy| && c.spentBy[x] == None
  {
    var both := p.inputs + p.rest;
    Sorting.SameMembers(c.unspent[p.sender], both);
    forall i | 0 <= i < |p.inputs| ensures p.inputs[i] in c.unspent[p.sender] {
      assert both[i] == p.inputs[i];
    }
    forall i, j | 0 <= i < j < |p.inputs| ensures p.inputs[i] != p.inputs[j] {
      assert both[i] == p.inputs[i] && both[j] == p.inputs[j];
    }
    forall i, j | 0 <= i < j < |p.rest| ensures p.rest[i] != p.rest[j] {
      assert both[|p.inputs| + i] == p.rest[i] && both[|p.inputs| + j] == p.rest[j];
    }
    forall i, j | 0 <= i < |p.inputs| && 0 <= j < |p.rest| ensures p.inputs[i] != p.rest[j] {
      assert both[i] == p.inputs[i] && both[|p.inputs| + j] == p.rest[j];
    }
  }

  lemma PaidOutputs(c: Chain, n: nat, p: Payment)
    requires Owned(c, n) && Partitioned(c, n) && Payable(c, n, p)
    ensures var d := Paid(c, p);
      && Owned(d, n) && |d.spentBy| == |d.outputs| == |c.outputs| + 2
      && EntityOf(d, |c.outputs|) == p.recipient && EntityOf(d, |c.outputs| + 1) == p.sender
      && d.spentBy[|c.outputs|] == None && d.spentBy[|c.outputs| + 1] == None
    ensures forall o :: 0 <= o < |c.outputs| ==>
      && Paid(c, p).outputs[o] == c.outputs[o] && EntityOf(Paid(c, p), o) == EntityOf(c, o)
      && Paid(c, p).spentBy[o] == (if o in p.inputs then Some(|c.txs|) else c.spentBy[o])
  {
    InputFacts(c, n, p);
    var s := c.spentBy + [None, None];
    forall o: nat | o < |s| ensures Marked(s, p.inputs, |c.txs|)[o] == if o in p.inputs then Some(|c.txs|) else s[o] {
      MarkedAt(s, p.inputs, |c.txs|, o);
    }
  }

  function Tail(c: Chain, p: Payment, e: nat): seq<nat> {
    (if e == p.recipient then [|c.outputs|] else []) + (if e == p.sender then [|c.outputs| + 1] else [])
  }

  lemma ListIs(c: Chain, p: Payment, e: nat)
    requires p.sender < |c.unspent| && p.recipient < |c.unspent| && e < |c.unspent|
    ensures Lists(c, p)[e] == (if e == p.sender then p.rest else c.unspent[e]) + Tail(c, p, e)
  {
  }

  /** Entity e's list after the payment: distinct unspent outputs of e. */
  lemma ListSound(c: Chain, n: nat, p: Payment, e: nat)
    requires Owned(c, n) && Partitioned(c, n) && Payable(c, n, p) && e < n
    ensures Distinct(Paid(c, p).unspent[e])
    ensures var d := Paid(c, p); forall o :: o in d.unspent[e] ==>
            o < |d.outputs| && d.spentBy[o] == None && EntityOf(d, o) == e
  {
    var base, tail := if e == p.sender then p.rest else c.unspent[e], Tail(c, p, e);
    ListIs(c, p, e);
    OldListed(c, n, p, e, base);
    DistinctConcat(base, tail, |c.outputs|);
    OldSound(c, n, p, e, base);
    NewSound(c, n, p, e, tail);
  }

  lemma DistinctConcat(s: seq<nat>, t: seq<nat>, n: nat)
    requires Distinct(s) && Distinct(t) && (forall x :: x in s ==> x < n) && forall x :: x in t ==> n <= x
    ensures Distinct(s + t)
  {
    var u := s + t;
    forall i, j | 0 <= i < j < |u| ensures u[i] != u[j] {
      assert i < |s| ==> u[i] in s;
      assert j >= |s| ==> u[j] in t;
    }
  }

  lemma OldSound(c: Chain, n: nat, p: Payment, e: nat, base: seq<nat>)
    requires Owned(c, n) && Partitioned(c, n) && Payable(c, n, p) && e < n
    requires base == if e == p.sender then p.rest else c.unspent[e]
    ensures var d := Paid(c, p); forall o :: o in base ==>
            o < |d.outputs| && d.spentBy[o] == None && EntityOf(d, o) == e
  {
    PaidOutputs(c, n, p);
    OldListed(c, n, p, e, base);
  }

  lemma NewSound(c: Chain, n: nat, p: Payment, e: nat, tail: seq<nat>)
    requires Owned(c, n) && Partitioned(c, n) && Payable(c, n, p) && e < n && tail == Tail(c, p, e)
    ensures var d := Paid(c, p); forall o :: o in tail ==>
            o < |d.outputs| && d.spentBy[o] == None && EntityOf(d, o) == e
  {
    PaidOutputs(c, n, p);
  }

  /** What entity e keeps: distinct outputs of e that are neither spent nor inputs. */
  lemma OldListed(c: Chain, n: nat, p: Payment, e: nat, base: seq<nat>)
    requires Partitioned(c, n) && Payable(c, n, p) && e < n && base == if e == p.sender then p.rest else c.unspent[e]
    ensures Distinct(base)
    ensures forall o :: o in base ==> o < |c.outputs| && c.spentBy[o] == None && EntityOf(c, o) == e && o !in p.inputs
  {
    InputFacts(c, n, p);
    if e != p.sender {
      forall o | o in base ensures o < |c.outputs| && c.spentBy[o] == None && EntityOf(c, o) == e {
        var i :| 0 <= i < |base| && base[i] == o;
        assert c.unspent[e][i] == o;
      }
    }
  }

  lemma PaidPartition(c: Chain, n: nat, p: Payment)
    requires Owned(c, n) && Partitioned(c, n) && Payable(c, n, p)
    ensures Partitioned(Paid(c, p), n)
  {
    var d := Paid(c, p);
    PaidOutputs(c, n, p);
    InputFacts(c, n, p);
    forall e, i | 0 <= e < n && 0 <= i < |d.unspent[e]|
      ensures d.unspent[e][i] < |d.outputs| && d.spentBy[d.unspent[e][i]] == None && EntityOf(d, d.unspent[e][i]) == e
    {
      ListSound(c, n, p, e);
      assert d.unspent[e][i] in d.unspent[e];
    }
    forall e | 0 <= e < n ensures Distinct(d.unspent[e]) {
      ListSound(c, n, p, e);
    }
    forall o | 0 <= o < |d.outputs| && d.spentBy[o] == None
      ensures EntityOf(d, o) < n && o in d.unspent[EntityOf(d, o)]
    {
      var e := EntityOf(d, o);
      if o < |c.outputs| {
        assert c.spentBy[o] == None && o in c.unspent[EntityOf(c, o)];
      } else if o == |c.outputs| {
        assert o in Tail(c, p, e);
      } else {
        assert o in Tail(c, p, e);
      }
      ListIs(c, p, e);
    }
  }

  lemma {:induction false} AtBound(w: seq<nat>, v: seq<nat>, ids: seq<nat>)
    requires |w| == |v| && forall i :: 0 <= i < |ids| ==> ids[i] < |w| && w[ids[i]] == v[ids[i]]
    ensures At(w, ids) == At(v, ids)
  {
    if ids != [] {
      AtBound(w, v, ids[..|ids| - 1]);
    }
  }

  /** The payment leaves the value of the UTXO set unchanged. */
  lemma PaidSum(c: Chain, n: nat, p: Payment)
    requires Owned(c, n) && Partitioned(c, n) && Payable(c, n, p)
    ensures Sum(UnspentValues(Paid(c, p))) == Sum(UnspentValues(c))
  {
    var d, u := Paid(c, p), UnspentValues(c);
    InputFacts(c, n, p);
    PaidOutputs(c, n, p);
    forall i | 0 <= i < |p.inputs| ensures u[p.inputs[i]] == Values(c)[p.inputs[i]] {
      assert p.inputs[i] in c.unspent[p.sender];
    }
    AtBound(u, Values(c), p.inputs);
    ZeroedSum(u, p.inputs);
    var z := Zeroed(u, p.inputs);
    forall o: nat | o < |u| ensures UnspentValues(d)[o] == z[o] {
      ZeroedAt(u, p.inputs, o);
    }
    TwoMore(UnspentValues(d), z, p.pay, p.change);
  }

  lemma TwoMore(w: seq<nat>, z: seq<nat>, x: nat, y: nat)
    requires |w| == |z| + 2 && (forall o :: 0 <= o < |z| ==> w[o] == z[o]) && w[|z|] == x && w[|z| + 1] == y
    ensures Sum(w) == Sum(z) + x + y
  {
    assert w == z + [x] + [y];
    SumSnoc(z, x);
    SumSnoc(z + [x], y);
  }

  lemma PaidBalanced(c: Chain, n: nat, p: Payment)
    requires Owned(c, n) && Partitioned(c, n) && Payable(c, n, p)
    ensures var d := Paid(c, p); At(Values(d), p.inputs) == At(Values(d), Outs(c, p))
  {
    var d, k := Paid(c, p), |c.outputs|;
    InputFacts(c, n, p);
    AtPrefix(Values(c), Values(d), p.inputs);
    var w := Values(d);
    assert w[k] == p.pay && w[k + 1] == p.change;
    assert At(w, [k]) == p.pay && At(w, [k + 1]) == p.change;
    assert [k, k + 1][..1] == [k] && [k + 1, k][..1] == [k + 1];
  }

  lemma PaidSound(c: Chain, n: nat, p: Payment)
    requires Owned(c, n) && Partitioned(c, n) && Recorded(c) && Payable(c, n, p)
    ensures Sound(Paid(c, p), |c.txs|)
  {
    var d, t := Paid(c, p), |c.txs|;
    PaidOutputs(c, n, p);
    InputFacts(c, n, p);
    PaidBalanced(c, n, p);
    forall i | 0 <= i < |p.inputs| ensures SpentBy(d, t, p.inputs[i], EntityOf(d, p.inputs[0])) {
      assert p.inputs[i] in p.inputs && p.inputs[0] in p.inputs;
      assert p.inputs[i] in c.unspent[p.sender] && p.inputs[0] in c.unspent[p.sender];
      assert c.outputs[p.inputs[i]].creatingTx < t;
    }
  }

  lemma PaidRecorded(c: Chain, n: nat, p: Payment)
    requires Owned(c, n) && Partitioned(c, n) && Recorded(c) && Payable(c, n, p)
    ensures Recorded(Paid(c, p))
  {
    PaidAllSound(c, n, p);
    PaidSpends(c, n, p);
    PaidCreated(c, n, p);
  }

  lemma PaidAllSound(c: Chain, n: nat, p: Payment)
    requires Owned(c, n) && Partitioned(c, n) && Recorded(c) && Payable(c, n, p)
    ensures var d := Paid(c, p); forall x :: 0 <= x < |d.txs| ==> Sound(d, x)
  {
    var d, t := Paid(c, p), |c.txs|;
    forall x | 0 <= x < |d.txs| ensures Sound(d, x) {
      if x < t {
        PaidStays(c, n, p, x);
      } else {
        PaidSound(c, n, p);
      }
    }
  }

  lemma PaidStays(c: Chain, n: nat, p: Payment, x: nat)
    requires Owned(c, n) && Partitioned(c, n) && Recorded(c) && Payable(c, n, p) && x < |c.txs|
    ensures Sound(Paid(c, p), x)
  {
    var d := Paid(c, p);
    PaidOutputs(c, n, p);
    InputFacts(c, n, p);
    forall o | 0 <= o < |c.spentBy| && c.spentBy[o].Some? ensures d.spentBy[o] == c.spentBy[o] {
    }
    StaysSound(c, d, x);
  }

  lemma PaidCreated(c: Chain, n: nat, p: Payment)
    requires Owned(c, n) && Partitioned(c, n) && Recorded(c) && Payable(c, n, p)
    ensures var d := Paid(c, p); |d.spentBy| == |d.outputs|
    ensures var d := Paid(c, p); forall o :: 0 <= o < |d.outputs| ==> d.outputs[o].creatingTx < |d.txs|
  {
    PaidOutputs(c, n, p);
  }

  lemma PaidSpends(c: Chain, n: nat, p: Payment)
    requires Owned(c, n) && Partitioned(c, n) && Recorded(c) && Payable(c, n, p)
    ensures var d := Paid(c, p); forall o :: 0 <= o < |d.outputs| && d.spentBy[o].Some? ==>
              d.spentBy[o].value < |d.txs| && o in d.txs[d.spentBy[o].value].inputs
  {
    var d := Paid(c, p);
    PaidOutputs(c, n, p);
    forall o | 0 <= o < |d.outputs| && d.spentBy[o].Some?
      ensures d.spentBy[o].value < |d.txs| && o in d.txs[d.spentBy[o].value].inputs
    {
      if o !in p.inputs {
        assert d.spentBy[o] == c.spentBy[o];
      }
    }
  }

  lemma RelistedValid(c: Chain, n: nat, total: nat, e: nat, list: seq<nat>)
    requires Valid(c, n, total) && e < n && multiset(list) == multiset(c.unspent[e])
    ensures Valid(c.(unspent := c.unspent[e := list]), n, total)
  {
    var d := c.(unspent := c.unspent[e := list]);
    Sorting.SameMembers(c.unspent[e], list);
    forall o | 0 <= o < |c.outputs| ensures EntityOf(d, o) == EntityOf(c, o) {
    }
    forall t | 0 <= t < |c.txs| ensures Sound(d, t) {
      StaysSound(c, d, t);
    }
    forall i | 0 <= i < |list|
      ensures list[i] < |c.outputs| && c.spentBy[list[i]] == None && EntityOf(c, list[i]) == e
    {
      assert list[i] in list && list[i] in c.unspent[e];
    }
    assert UnspentValues(d) == UnspentValues(c);
  }

  lemma PaidValid(c: Chain, n: nat, total: nat, p: Payment)
    requires Valid(c, n, total) && Payable(c, n, p)
    ensures Valid(Paid(c, p), n, total)
  {
    PaidOutputs(c, n, p);
    PaidPartition(c, n, p);
    PaidRecorded(c, n, p);
    PaidSum(c, n, p);
  }

  lemma SameLength(s: seq<nat>, t: seq<nat>)
    requires multiset(s) == multiset(t)
    ensures |s| == |t|
  {
    assert |multiset(s)| == |s| && |multiset(t)| == |t|;
  }

  lemma OneMore(e: nat, value: nat)
    ensures e * value + value == (e + 1) * value
  {
  }

  lemma NothingYet(c: Chain, n: nat)
    requires c == Chain([], [], [], [], seq(n, e => []), seq(n, e => []))
    ensures Valid(c, n, 0)
  {
    assert UnspentValues(c) == [];
  }

  lemma OpenedValid(c: Chain, n: nat, total: nat, e: nat, value: nat)
    requires Valid(c, n, total) && e < n
    ensures Valid(Opened(c, e, value), n, total + value)
  {
    OpenedPartition(c, n, e, value);
    OpenedRecorded(c, n, total, e, value);
  }

  /** Inputs of one transaction share their owner. */
  lemma CoSpent(c: Chain, n: nat, total: nat, t: nat, i: nat, j: nat)
    requires Valid(c, n, total) && t < |c.txs| && i < |c.txs[t].inputs| && j < |c.txs[t].inputs|
    ensures EntityOf(c, c.txs[t].inputs[i]) == EntityOf(c, c.txs[t].inputs[j])
  {
    assert Sound(c, t);
    var e := EntityOf(c, c.txs[t].inputs[0]);
    assert SpentBy(c, t, c.txs[t].inputs[i], e) && SpentBy(c, t, c.txs[t].inputs[j], e);
  }
}
