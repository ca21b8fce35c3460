module LedgerRuns {
  // The generator of the chain: what one turn does for every choice it can draw, and what a whole
  // run leaves.

  import opened Common
  import opened Ledger

  // ---------------------------------------------------------------- one turn

  /** At most maxInputs of the sender's unspent outputs. */
  ghost predicate Drawn(c: Chain, sender: nat, inputs: seq<nat>, maxInputs: nat)
    requires sender < |c.unspent|
  {
    1 <= |inputs| <= maxInputs && multiset(inputs) <= multiset(c.unspent[sender])
  }

  /** d differs from c in the order of the sender's list alone. */
  ghost predicate Reordered(c: Chain, d: Chain, sender: nat) {
    && sender < |c.unspent| == |d.unspent|
    && d.(unspent := c.unspent) == c
    && multiset(d.unspent[sender]) == multiset(c.unspent[sender])
    && forall e :: 0 <= e < |c.unspent| && e != sender ==> d.unspent[e] == c.unspent[e]
  }

  /** Output o is new and belongs to e. */
  ghost predicate Created(c: Chain, d: Chain, o: nat, value: nat, e: nat) {
    && o < |d.outputs| && o < |d.spentBy| && d.spentBy[o] == None
    && d.outputs[o].value == value >= 1 && d.outputs[o].creatingTx == |c.txs| && EntityOf(d, o) == e
  }

  /** Everything in c is in d as it was, but for `inputs`, now spent by the next transaction. */
  ghost predicate Extends(c: Chain, d: Chain, inputs: seq<nat>) {
    && |c.txs| < |d.txs| && (forall t :: 0 <= t < |c.txs| ==> d.txs[t] == c.txs[t])
    && |c.outputs| <= |d.outputs| && |c.spentBy| <= |d.spentBy|
    && (forall o :: 0 <= o < |c.outputs| ==> d.outputs[o] == c.outputs[o] && EntityOf(d, o) == EntityOf(c, o))
    && (forall o :: 0 <= o < |c.spentBy| ==> d.spentBy[o] == if o in inputs then Some(|c.txs|) else c.spentBy[o])
  }

  /** d is c and one transaction that spends the inputs and creates two outputs of their total value, of
      `pay` to the recipient and the rest to the sender. */
  ghost predicate PaidBy(c: Chain, d: Chain, sender: nat, recipient: nat, inputs: seq<nat>, pay: nat) {
    var a, b, t := |c.outputs|, |c.outputs| + 1, |c.txs|;
    && Extends(c, d, inputs) && |d.txs| == t + 1 && |d.outputs| == |c.outputs| + 2
    && d.txs[t].inputs == inputs && (d.txs[t].outputs == [a, b] || d.txs[t].outputs == [b, a])
    && pay < At(Values(c), inputs)
    && Created(c, d, a, pay, recipient) && Created(c, d, b, At(Values(c), inputs) - pay, sender)
  }

  /** One turn in which this sender and these inputs are drawn. */
  ghost predicate TurnOf(c: Chain, d: Chain, n: nat, maxInputs: nat, sender: nat, inputs: seq<nat>) {
    && sender < n == |c.unspent|
    && if c.unspent[sender] == [] then d == c
       else
         && Drawn(c, sender, inputs, maxInputs)
         && if At(Values(c), inputs) < 2 then Reordered(c, d, sender)
            else PaidOther(c, d, n, sender, inputs)
  }

  /** Someone else is paid, if there is anyone. */
  ghost predicate PaidOther(c: Chain, d: Chain, n: nat, sender: nat, inputs: seq<nat>) {
    exists recipient: nat, pay: nat ::
      recipient < n && (n > 1 ==> recipient != sender) && PaidBy(c, d, sender, recipient, inputs, pay)
  }

  /** No transaction is made only if the sender drawn has nothing to spend or its inputs total less than
      two; otherwise exactly one is made. */
  ghost predicate Turn(c: Chain, d: Chain, n: nat, maxInputs: nat) {
    exists sender: nat, inputs: seq<nat> :: TurnOf(c, d, n, maxInputs, sender, inputs)
  }

  /** Any permutation, by swaps from the end. */
  method Shuffle(s: seq<nat>) returns (r: seq<nat>)
    ensures multiset(r) == multiset(s)
  {
    r := s;
    var i := |s|;
    while i > 1
      invariant |r| == |s| && multiset(r) == multiset(s) && i <= |s|
    {
      i := i - 1;
      var j :| 0 <= j <= i;
      r := r[i := r[j]][j := r[i]];
    }
  }

  /** Any number from lo up to and including hi. */
  method Draw(lo: nat, hi: nat) returns (x: nat)
    requires lo <= hi
    ensures lo <= x <= hi
  {
    x :| lo <= x <= hi;
  }

  /** A sender drawn up to 33 times until it has something to spend. */
  method DrawSender(c: Chain, n: nat) returns (sender: nat)
    requires 0 < n == |c.unspent|
    ensures sender < n
  {
    sender := Draw(0, n - 1);
    var tries := 0;
    while c.unspent[sender] == [] && tries < 32
      invariant sender < n
      decreases 32 - tries
    {
      sender := Draw(0, n - 1);
      tries := tries + 1;
    }
  }

  /** c with more addresses. */
  ghost predicate MoreAddresses(c: Chain, d: Chain) {
    && d.(owner := c.owner, addresses := c.addresses) == c
    && |c.owner| <= |d.owner| && forall a :: 0 <= a < |c.owner| ==> d.owner[a] == c.owner[a]
  }

  /** The payment made over the chain with its new addresses is one over the chain before. */
  lemma PaymentMade(c: Chain, d: Chain, n: nat, p: Payment)
    requires Owned(c, n) && Owned(d, n) && Partitioned(d, n) && MoreAddresses(c, d) && Payable(d, n, p)
    requires 1 <= p.pay && 1 <= p.change
    ensures PaidBy(c, Paid(d, p), p.sender, p.recipient, p.inputs, p.pay)
  {
    PaidOutputs(d, n, p);
    assert Values(d) == Values(c);
    forall o | 0 <= o < |c.outputs| ensures EntityOf(d, o) == EntityOf(c, o) {
    }
  }

  /** The payment proper: addresses, outputs, and the books. */
  method Pay(c: Chain, ghost n: nat, ghost total: nat, sender: nat, recipient: nat, inputs: seq<nat>, rest: seq<nat>,
             totalIn: nat, pay: nat)
    returns (d: Chain)
    requires Valid(c, n, total) && sender < n && recipient < n && inputs != []
             && 1 <= pay < totalIn == At(Values(c), inputs)
    requires multiset(inputs + rest) == multiset(c.unspent[sender])
    ensures Valid(d, n, total) && PaidBy(c, d, sender, recipient, inputs, pay)
  {
    var payReuse, reuse, swap := *, *, *;
    var payAddr, changeAddr;
    d, payAddr := PickAddress(c, n, total, recipient, payReuse);
    d, changeAddr := PickAddress(d, n, total, sender, reuse);
    assert Values(d) == Values(c);
    var p := Payment(sender, recipient, inputs, rest, pay, totalIn - pay, payAddr, changeAddr, swap);
    PaidValid(d, n, total, p);
    PaymentMade(c, d, n, p);
    d := Paid(d, p);
  }

  /** The first k of a permutation are drawn. */
  lemma FirstDrawn(c: Chain, sender: nat, shuffled: seq<nat>, k: nat, maxInputs: nat)
    requires sender < |c.unspent| && multiset(shuffled) == multiset(c.unspent[sender])
    requires 1 <= k <= maxInputs && k <= |shuffled|
    ensures Drawn(c, sender, shuffled[..k], maxInputs)
    ensures multiset(shuffled[..k] + shuffled[k..]) == multiset(c.unspent[sender])
    ensures multiset(shuffled[k..] + shuffled[..k]) == multiset(c.unspent[sender])
  {
    assert shuffled == shuffled[..k] + shuffled[k..];
  }

  /** One turn of the generator. */
  method Transfer(c: Chain, n: nat, ghost total: nat, maxInputs: nat) returns (d: Chain)
    requires Valid(c, n, total) && n > 0 && maxInputs > 0
    ensures Valid(d, n, total) && Turn(c, d, n, maxInputs)
  {
    var sender := DrawSender(c, n);
    if c.unspent[sender] == [] {
      assert TurnOf(c, c, n, maxInputs, sender, []);
      return c;
    }
    ghost var inputs;
    d, inputs := TransferFrom(c, n, total, maxInputs, sender);
    assert TurnOf(c, d, n, maxInputs, sender, inputs);
  }

  method TransferFrom(c: Chain, n: nat, ghost total: nat, maxInputs: nat, sender: nat)
    returns (d: Chain, ghost drawn: seq<nat>)
    requires Valid(c, n, total) && sender < n && maxInputs > 0 && c.unspent[sender] != []
    ensures Valid(d, n, total) && TurnOf(c, d, n, maxInputs, sender, drawn)
  {
    var k := Draw(1, maxInputs);
    k := if k <= |c.unspent[sender]| then k else |c.unspent[sender]|;
    var shuffled := Shuffle(c.unspent[sender]);
    SameLength(shuffled, c.unspent[sender]);
    FirstDrawn(c, sender, shuffled, k, maxInputs);
    var inputs, rest := shuffled[..k], shuffled[k..];
    drawn := inputs;
    var totalIn := At(Values(c), inputs);
    if totalIn < 2 {
      RelistedValid(c, n, total, sender, rest + inputs);
      d := c.(unspent := c.unspent[sender := rest + inputs]);
    } else {
      d := PayOther(c, n, total, sender, inputs, rest, totalIn);
    }
  }

  method PayOther(c: Chain, n: nat, ghost total: nat, sender: nat, inputs: seq<nat>, rest: seq<nat>, totalIn: nat)
    returns (d: Chain)
    requires Valid(c, n, total) && sender < n && inputs != [] && 2 <= totalIn == At(Values(c), inputs)
    requires multiset(inputs + rest) == multiset(c.unspent[sender])
    ensures Valid(d, n, total) && PaidOther(c, d, n, sender, inputs)
  {
    var recipient := Draw(0, n - 1);
    if recipient == sender {
      recipient := (recipient + 1) % n;
      NextIsOther(sender, n);
    }
    var pay := Draw(1, totalIn - 1);
    d := Pay(c, n, total, sender, recipient, inputs, rest, totalIn, pay);
  }

  lemma NextIsOther(e: nat, n: nat)
    requires e < n
    ensures (e + 1) % n < n && (n > 1 ==> (e + 1) % n != e)
  {
  }

  // ---------------------------------------------------------------- whole runs

  /** The opening: one coinbase for each of n entities, unspent, and nothing else. */
  ghost predicate Opening(c: Chain, n: nat, value: nat) {
    && |c.txs| == |c.outputs| == |c.spentBy| == |c.unspent| == n
    && forall e :: 0 <= e < n ==> c.spentBy[e] == None && c.unspent[e] == [e] && Coin(c, e, value)
  }

  /** The e-th transaction is the coinbase of e, worth `value`. */
  ghost predicate Coin(c: Chain, e: nat, value: nat) {
    && e < |c.txs| && e < |c.outputs| && c.txs[e] == Tx([], [e])
    && c.outputs[e].value == value && c.outputs[e].creatingTx == e && EntityOf(c, e) == e
  }

  /** The t-th transaction spends between one and maxInputs outputs and creates two of value at least
      one: one for their owner, and one for another entity if there is one. */
  ghost predicate IsPayment(c: Chain, t: nat, n: nat, maxInputs: nat) {
    && t < |c.txs| && 1 <= |c.txs[t].inputs| <= maxInputs && c.txs[t].inputs[0] < |c.outputs|
    && |c.txs[t].outputs| == 2
    && var a, b, sender := c.txs[t].outputs[0], c.txs[t].outputs[1], EntityOf(c, c.txs[t].inputs[0]);
       && a < |c.outputs| && c.outputs[a].value >= 1 && b < |c.outputs| && c.outputs[b].value >= 1
       && (EntityOf(c, a) == sender || EntityOf(c, b) == sender)
       && (n > 1 ==> EntityOf(c, a) != EntityOf(c, b))
  }

  /** n coinbases, and payments after them: at most nTxs, two outputs each. */
  ghost predicate Shaped(c: Chain, n: nat, nTxs: nat, value: nat, maxInputs: nat) {
    && n <= |c.txs| <= n + nTxs && |c.outputs| == n + 2 * (|c.txs| - n)
    && (forall e :: 0 <= e < n ==> Coin(c, e, value))
    && (forall t :: n <= t < |c.txs| ==> IsPayment(c, t, n, maxInputs))
  }

  /** A run: the opening, and nTxs turns. */
  ghost predicate IsRun(run: seq<Chain>, n: nat, value: nat, maxInputs: nat) {
    && run != [] && Opening(run[0], n, value)
    && forall i :: 0 <= i < |run| - 1 ==> Turn(run[i], run[i + 1], n, maxInputs)
  }

  lemma StaysPayment(c: Chain, d: Chain, t: nat, n: nat, maxInputs: nat, inputs: seq<nat>)
    requires Extends(c, d, inputs) && IsPayment(c, t, n, maxInputs)
    ensures IsPayment(d, t, n, maxInputs)
  {
  }

  lemma NewPayment(c: Chain, d: Chain, n: nat, total: nat, maxInputs: nat, sender: nat, recipient: nat,
                   inputs: seq<nat>,
                   pay: nat)
    requires Valid(c, n, total) && sender < n && Drawn(c, sender, inputs, maxInputs)
    requires (n > 1 ==> recipient != sender) && PaidBy(c, d, sender, recipient, inputs, pay)
    ensures IsPayment(d, |c.txs|, n, maxInputs)
  {
    var o := inputs[0];
    assert o in multiset(inputs);
    assert o in c.unspent[sender];
    assert EntityOf(d, o) == EntityOf(c, o) == sender;
  }

  lemma PaidShaped(c: Chain, d: Chain, n: nat, total: nat, nTxs: nat, value: nat, maxInputs: nat, sender: nat,
                   inputs: seq<nat>)
    requires Valid(c, n, total) && Shaped(c, n, nTxs, value, maxInputs) && sender < n
    requires Drawn(c, sender, inputs, maxInputs) && PaidOther(c, d, n, sender, inputs)
    ensures Shaped(d, n, nTxs + 1, value, maxInputs)
  {
    var recipient: nat, pay: nat :|
      recipient < n && (n > 1 ==> recipient != sender) && PaidBy(c, d, sender, recipient, inputs, pay);
    NewPayment(c, d, n, total, maxInputs, sender, recipient, inputs, pay);
    forall t | n <= t < |d.txs| ensures IsPayment(d, t, n, maxInputs) {
      if t < |c.txs| {
        StaysPayment(c, d, t, n, maxInputs, inputs);
      }
    }
    forall e | 0 <= e < n ensures Coin(d, e, value) {
      StaysCoin(c, d, e, value, inputs);
    }
  }

  lemma StaysCoin(c: Chain, d: Chain, e: nat, value: nat, inputs: seq<nat>)
    requires Extends(c, d, inputs) && Coin(c, e, value)
    ensures Coin(d, e, value)
  {
  }

  lemma MoreTurns(c: Chain, n: nat, nTxs: nat, value: nat, maxInputs: nat)
    requires Shaped(c, n, nTxs, value, maxInputs)
    ensures Shaped(c, n, nTxs + 1, value, maxInputs)
  {
  }

  lemma TurnShaped(c: Chain, d: Chain, n: nat, total: nat, nTxs: nat, value: nat, maxInputs: nat)
    requires Valid(c, n, total) && Shaped(c, n, nTxs, value, maxInputs) && Turn(c, d, n, maxInputs)
    ensures Shaped(d, n, nTxs + 1, value, maxInputs)
  {
    var sender: nat, inputs: seq<nat> :| TurnOf(c, d, n, maxInputs, sender, inputs);
    if c.unspent[sender] == [] {
      MoreTurns(c, n, nTxs, value, maxInputs);
    } else if At(Values(c), inputs) < 2 {
      ReorderedShaped(c, d, n, nTxs, value, maxInputs, sender);
      MoreTurns(d, n, nTxs, value, maxInputs);
    } else {
      PaidShaped(c, d, n, total, nTxs, value, maxInputs, sender, inputs);
    }
  }

  lemma ReorderedShaped(c: Chain, d: Chain, n: nat, nTxs: nat, value: nat, maxInputs: nat, sender: nat)
    requires Shaped(c, n, nTxs, value, maxInputs) && Reordered(c, d, sender)
    ensures Shaped(d, n, nTxs, value, maxInputs)
  {
    assert d.txs == c.txs && d.outputs == c.outputs && d.owner == c.owner;
    forall e | 0 <= e < n ensures Coin(d, e, value) {
      assert Coin(c, e, value);
    }
    forall t | n <= t < |d.txs| ensures IsPayment(d, t, n, maxInputs) {
      assert IsPayment(c, t, n, maxInputs);
    }
  }

  /** What the opening loop has built after e entities. */
  ghost predicate Opens(c: Chain, n: nat, e: nat, value: nat) {
    && e <= n == |c.unspent| == |c.addresses| && |c.txs| == |c.outputs| == |c.spentBy| == |c.owner| == e
    && (forall x :: 0 <= x < e ==> c.outputs[x].address == x && Coin(c, x, value))
    && (forall x :: 0 <= x < e ==> c.spentBy[x] == None && c.unspent[x] == [x])
    && forall x :: e <= x < n ==> c.unspent[x] == []
  }

  lemma OpensNext(c: Chain, n: nat, e: nat, value: nat)
    requires Opens(c, n, e, value) && e < n
    ensures Opens(Opened(c, e, value), n, e + 1, value)
  {
    var d := Opened(c, e, value);
    forall x | 0 <= x < e + 1
      ensures d.spentBy[x] == None && d.unspent[x] == [x] && Coin(d, x, value) && d.outputs[x].address == x {
      if x < e {
        assert Coin(c, x, value);
      }
    }
  }

  /** The opening loop after e entities. */
  ghost predicate OpenedSoFar(c: Chain, n: nat, e: nat, value: nat, total: nat) {
    total == e * value && Valid(c, n, total) && Opens(c, n, e, value)
  }

  lemma OpenNext(c: Chain, n: nat, e: nat, value: nat, total: nat)
    requires OpenedSoFar(c, n, e, value, total) && e < n
    ensures OpenedSoFar(Opened(c, e, value), n, e + 1, value, total + value)
  {
    OpenedValid(c, n, total, e, value);
    OpensNext(c, n, e, value);
    OneMore(e, value);
  }

  lemma NothingOpened(c: Chain, n: nat, value: nat)
    requires c == Chain([], [], [], [], seq(n, e => []), seq(n, e => []))
    ensures OpenedSoFar(c, n, 0, value, 0)
  {
    NothingYet(c, n);
  }

  lemma AllOpened(c: Chain, n: nat, value: nat, total: nat)
    requires OpenedSoFar(c, n, n, value, total)
    ensures Valid(c, n, n * value) && Opening(c, n, value)
  {
  }

  method Open(n: nat, value: nat) returns (c: Chain)
    ensures Valid(c, n, n * value) && Opening(c, n, value)
  {
    c := Chain([], [], [], [], seq(n, e => []), seq(n, e => []));
    NothingOpened(c, n, value);
    ghost var total: nat := 0;
    for e := 0 to n
      invariant OpenedSoFar(c, n, e, value, total)
    {
      OpenNext(c, n, e, value, total);
      c, total := Opened(c, e, value), total + value;
    }
    AllOpened(c, n, value, total);
  }

  lemma OpeningShaped(c: Chain, n: nat, value: nat, maxInputs: nat)
    requires Opening(c, n, value)
    ensures Shaped(c, n, 0, value, maxInputs)
  {
  }

  lemma RunOn(run: seq<Chain>, d: Chain, n: nat, value: nat, maxInputs: nat)
    requires IsRun(run, n, value, maxInputs) && Turn(run[|run| - 1], d, n, maxInputs)
    ensures IsRun(run + [d], n, value, maxInputs)
  {
    var more := run + [d];
    forall i | 0 <= i < |more| - 1 ensures Turn(more[i], more[i + 1], n, maxInputs) {
      if i < |run| - 1 {
        assert more[i] == run[i] && more[i + 1] == run[i + 1];
      }
    }
  }

  /** Whatever is drawn, the chain comes from the coinbases by nTxs turns, and holds exactly the opening
      balances. */
  method ChainInstance(nEntities: nat, nTxs: nat, initialValue: nat, maxInputs: nat) returns (c: Chain)
    requires nTxs > 0 ==> nEntities > 0 && maxInputs > 0
    ensures Valid(c, nEntities, nEntities * initialValue)
    ensures exists run :: |run| == nTxs + 1 && IsRun(run, nEntities, initialValue, maxInputs) && run[nTxs] == c
    ensures Shaped(c, nEntities, nTxs, initialValue, maxInputs)
  {
    c := Open(nEntities, initialValue);
    OpeningShaped(c, nEntities, initialValue, maxInputs);
    ghost var total: nat, run := nEntities * initialValue, [c];
    for i := 0 to nTxs
      invariant Valid(c, nEntities, total) && Shaped(c, nEntities, i, initialValue, maxInputs)
      invariant |run| == i + 1 && IsRun(run, nEntities, initialValue, maxInputs) && run[i] == c
    {
      var d := Transfer(c, nEntities, total, maxInputs);
      TurnShaped(c, d, nEntities, total, i, initialValue, maxInputs);
      RunOn(run, d, nEntities, initialValue, maxInputs);
      c, run := d, run + [d];
    }
  }
}
