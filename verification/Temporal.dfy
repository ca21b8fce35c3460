module Temporal {
  // Temporal reachability: earliest arrival over time-respecting contacts by a fixpoint, against
  // static reachability with the timestamps forgotten.

  import opened Graphs
  import opened Reachability

  /** u64::MAX, the arrival of nodes not reached. */
  const INF: nat := 0xFFFF_FFFF_FFFF_FFFF

  datatype Contact = Contact(u: nat, v: nat, t: nat, lambda: nat)

  /** Nodes in range, and arrival times that do not overflow. */
  predicate Fits(cs: seq<Contact>, n: nat) {
    forall k :: 0 <= k < |cs| ==> cs[k].u < n && cs[k].v < n && cs[k].t + cs[k].lambda <= INF
  }

  /** The contact can be taken from time b on, and arrives at v at a. */
  ghost predicate Taken(c: Contact, v: nat, a: nat, b: nat) {
    c.v == v && a == c.t + c.lambda && b <= c.t
  }

  ghost predicate Hop(cs: seq<Contact>, i: nat, v: nat, a: nat, b: nat) {
    i < |cs| && Taken(cs[i], v, a, b)
  }

  /** After k contacts, each leaving no earlier than the one before arrives, v is reached at a. */
  ghost predicate Trip(cs: seq<Contact>, src: nat, start: nat, k: nat, v: nat, a: nat) {
    if k == 0 then v == src && a == start
    else exists i: nat, b: nat :: Hop(cs, i, v, a, b) && Trip(cs, src, start, k - 1, cs[i].u, b)
  }

  ghost predicate Arrives(cs: seq<Contact>, src: nat, start: nat, v: nat, a: nat) {
    exists k: nat :: Trip(cs, src, start, k, v, a)
  }

  /** Every entry is the least arrival, or INF if none is earlier. */
  ghost predicate Earliest(cs: seq<Contact>, src: nat, start: nat, arr: seq<nat>) {
    && (forall v: nat :: v < |arr| ==> arr[v] == INF || Arrives(cs, src, start, v, arr[v]))
    && (forall v: nat, a: nat :: v < |arr| && Arrives(cs, src, start, v, a) ==> arr[v] <= a)
  }

  // ---------------------------------------------------------------- one sweep

  /** Relaxing a contact. */
  function Relax(c: Contact, arr: seq<nat>): (r: seq<nat>)
    ensures |r| == |arr|
  {
    if c.u < |arr| && c.v < |arr| && arr[c.u] <= c.t && c.t + c.lambda < arr[c.v] then arr[c.v := c.t + c.lambda]
      else arr
  }

  /** Relaxing the first k contacts in order. */
  function Sweep(cs: seq<Contact>, arr: seq<nat>, k: nat): (r: seq<nat>)
    requires k <= |cs|
    ensures |r| == |arr|
  {
    if k == 0 then arr else Relax(cs[k - 1], Sweep(cs, arr, k - 1))
  }

  predicate Settled(c: Contact, arr: seq<nat>) {
    Relax(c, arr) == arr
  }

  predicate AllSettled(cs: seq<Contact>, arr: seq<nat>, k: nat)
    requires k <= |cs|
  {
    forall i :: 0 <= i < k ==> Settled(cs[i], arr)
  }

  function Total(arr: seq<nat>): nat {
    if arr == [] then 0 else arr[0] + Total(arr[1..])
  }

  lemma {:induction false} TotalDrops(arr: seq<nat>, v: nat, a: nat)
    requires v < |arr| && a < arr[v]
    ensures Total(arr[v := a]) < Total(arr)
  {
    if v == 0 {
      assert arr[v := a][1..] == arr[1..];
    } else {
      TotalDrops(arr[1..], v - 1, a);
      assert arr[v := a][1..] == arr[1..][v - 1 := a];
    }
  }

  lemma RelaxDrops(c: Contact, arr: seq<nat>)
    ensures Relax(c, arr) == arr || Total(Relax(c, arr)) < Total(arr)
  {
    if Relax(c, arr) != arr {
      TotalDrops(arr, c.v, c.t + c.lambda);
    }
  }

  /** A sweep that changes nothing finds every contact settled, and any other lowers the total. */
  lemma {:induction false} SweepDrops(cs: seq<Contact>, arr: seq<nat>, k: nat)
    requires k <= |cs|
    ensures if Sweep(cs, arr, k) == arr then AllSettled(cs, arr, k) else Total(Sweep(cs, arr, k)) < Total(arr)
  {
    if k > 0 {
      SweepDrops(cs, arr, k - 1);
      RelaxDrops(cs[k - 1], Sweep(cs, arr, k - 1));
    }
  }

  // ---------------------------------------------------------------- sorted contacts

  ghost predicate Sorted(cs: seq<Contact>) {
    forall i, j :: 0 <= i < j < |cs| ==> cs[i].t <= cs[j].t
  }

  /** No instantaneous contact leads back to where an earlier listed one leaves at the same time. */
  ghost predicate NoReturn(cs: seq<Contact>) {
    forall i, j :: 0 <= i < j < |cs| && cs[i].t == cs[j].t && cs[j].lambda == 0 ==> cs[j].v != cs[i].u
  }

  /** A contact that does not reach c's departure in time does not unsettle c. */
  lemma StaysSettled(c: Contact, d: Contact, arr: seq<nat>)
    requires Settled(c, arr) && (d.v != c.u || c.t < d.t + d.lambda)
    ensures Settled(c, Relax(d, arr))
  {
    if c.v < |arr| {
      var a := arr[c.v := c.t + c.lambda];
      assert a[c.v] == c.t + c.lambda;
    }
  }

  /** With contacts sorted by departure and no such return one sweep reaches the fixpoint. */
  lemma {:induction false} OneSweepSuffices(cs: seq<Contact>, arr: seq<nat>, k: nat)
    requires Sorted(cs) && NoReturn(cs) && k <= |cs|
    ensures AllSettled(cs, Sweep(cs, arr, k), k)
  {
    if k > 0 {
      OneSweepSuffices(cs, arr, k - 1);
      var mid := Sweep(cs, arr, k - 1);
      forall i | 0 <= i < k - 1 ensures Settled(cs[i], Relax(cs[k - 1], mid)) {
        StaysSettled(cs[i], cs[k - 1], mid);
      }
      RelaxTwice(cs[k - 1], mid);
    }
  }

  lemma RelaxTwice(c: Contact, arr: seq<nat>)
    ensures Settled(c, Relax(c, arr))
  {
  }

  lemma {:induction false} SettledSweep(cs: seq<Contact>, arr: seq<nat>, k: nat)
    requires k <= |cs| && AllSettled(cs, arr, k)
    ensures Sweep(cs, arr, k) == arr
  {
    if k > 0 {
      SettledSweep(cs, arr, k - 1);
    }
  }

  // ---------------------------------------------------------------- arrivals

  type Relation = (nat, nat) -> bool

  /** A relation between nodes and times that follows the contacts from the source. */
  ghost predicate Follows(cs: seq<Contact>, src: nat, start: nat, r: Relation) {
    && r(src, start)
    && forall i: nat, b: nat :: i < |cs| && r(cs[i].u, b) && b <= cs[i].t ==> r(cs[i].v, cs[i].t + cs[i].lambda)
  }

  ghost predicate Sound(n: nat, src: nat, start: nat, r: Relation, arr: seq<nat>) {
    && |arr| == n && src < n && arr[src] <= start
    && forall v: nat :: v < n ==> arr[v] <= INF && (arr[v] == INF || r(v, arr[v]))
  }

  lemma RelaxSound(cs: seq<Contact>, n: nat, src: nat, start: nat, r: Relation, arr: seq<nat>, i: nat)
    requires Follows(cs, src, start, r) && Sound(n, src, start, r, arr) && i < |cs|
    ensures Sound(n, src, start, r, Relax(cs[i], arr))
  {
    var c := cs[i];
    if Relax(c, arr) != arr {
      assert c.t < INF && r(c.u, arr[c.u]);
    }
  }

  lemma {:induction false} SweepSound(cs: seq<Contact>, n: nat, src: nat, start: nat, r: Relation, arr: seq<nat>,
                                      k: nat)
    requires Follows(cs, src, start, r) && Sound(n, src, start, r, arr) && k <= |cs|
    ensures Sound(n, src, start, r, Sweep(cs, arr, k))
  {
    if k > 0 {
      SweepSound(cs, n, src, start, r, arr, k - 1);
      RelaxSound(cs, n, src, start, r, Sweep(cs, arr, k - 1), k - 1);
    }
  }

  ghost function Arrivals(cs: seq<Contact>, src: nat, start: nat): Relation {
    (v: nat, a: nat) => Arrives(cs, src, start, v, a)
  }

  lemma ArrivalsFollow(cs: seq<Contact>, src: nat, start: nat)
    ensures Follows(cs, src, start, Arrivals(cs, src, start))
  {
    assert Trip(cs, src, start, 0, src, start);
    var r := Arrivals(cs, src, start);
    forall i: nat, b: nat | i < |cs| && r(cs[i].u, b) && b <= cs[i].t ensures r(cs[i].v, cs[i].t + cs[i].lambda) {
      var k: nat :| Trip(cs, src, start, k, cs[i].u, b);
      assert Hop(cs, i, cs[i].v, cs[i].t + cs[i].lambda, b);
      assert Trip(cs, src, start, k + 1, cs[i].v, cs[i].t + cs[i].lambda);
    }
  }

  lemma {:induction false} NoEarlierTrip(cs: seq<Contact>, src: nat, start: nat, arr: seq<nat>, k: nat, v: nat, a: nat)
    requires Fits(cs, |arr|) && src < |arr| && arr[src] <= start && AllSettled(cs, arr, |cs|)
    requires Trip(cs, src, start, k, v, a)
    ensures v < |arr| && arr[v] <= a
  {
    if k > 0 {
      var i: nat, b: nat :| Hop(cs, i, v, a, b) && Trip(cs, src, start, k - 1, cs[i].u, b);
      NoEarlierTrip(cs, src, start, arr, k - 1, cs[i].u, b);
      assert Settled(cs[i], arr);
      assert arr[v := a][v] == a;
    }
  }

  /** A sound and settled labelling is the answer. */
  lemma SettledIsEarliest(cs: seq<Contact>, src: nat, start: nat, arr: seq<nat>)
    requires Fits(cs, |arr|) && Sound(|arr|, src, start, Arrivals(cs, src, start), arr) && AllSettled(cs, arr, |cs|)
    ensures Earliest(cs, src, start, arr)
  {
    forall v: nat, a: nat | v < |arr| && Arrives(cs, src, start, v, a) ensures arr[v] <= a {
      var k: nat :| Trip(cs, src, start, k, v, a);
      NoEarlierTrip(cs, src, start, arr, k, v, a);
    }
    forall v: nat | v < |arr| ensures arr[v] == INF || Arrives(cs, src, start, v, arr[v]) {
      assert arr[v] == INF || Arrivals(cs, src, start)(v, arr[v]);
    }
  }

  method SweepOnce(cs: seq<Contact>, arr: array<nat>) returns (changed: bool)
    requires Fits(cs, arr.Length)
    modifies arr
    ensures arr[..] == Sweep(cs, old(arr[..]), |cs|) && (changed <==> arr[..] != old(arr[..]))
  {
    changed := false;
    ghost var was := arr[..];
    SweepDrops(cs, was, 0);
    for k := 0 to |cs|
      invariant arr[..] == Sweep(cs, was, k)
      invariant if changed then Total(arr[..]) < Total(was) else arr[..] == was
    {
      var c := cs[k];
      RelaxDrops(c, arr[..]);
      if arr[c.u] <= c.t && c.t + c.lambda < arr[c.v] {
        arr[c.v] := c.t + c.lambda;
        changed := true;
      }
    }
  }

  // ---------------------------------------------------------------- each sweep finishes a node

  /** Where sweeping ends. */
  ghost function Fixpoint(cs: seq<Contact>, arr: seq<nat>): (fin: seq<nat>)
    ensures |fin| == |arr|
    decreases Total(arr)
  {
    SweepDrops(cs, arr, |cs|);
    var next := Sweep(cs, arr, |cs|);
    if next == arr then arr else Fixpoint(cs, next)
  }

  lemma {:induction false} SweepLowers(cs: seq<Contact>, arr: seq<nat>, k: nat, v: nat)
    requires k <= |cs| && v < |arr|
    ensures Sweep(cs, arr, k)[v] <= arr[v]
  {
    if k > 0 {
      SweepLowers(cs, arr, k - 1, v);
    }
  }

  lemma {:induction false} FixpointFacts(cs: seq<Contact>, n: nat, src: nat, start: nat, r: Relation, arr: seq<nat>)
    requires Follows(cs, src, start, r) && Sound(n, src, start, r, arr)
    ensures var fin := Fixpoint(cs, arr);
            Sound(n, src, start, r, fin) && AllSettled(cs, fin, |cs|) && forall v :: 0 <= v < n ==> fin[v] <= arr[v]
    decreases Total(arr)
  {
    var next := Sweep(cs, arr, |cs|);
    SweepDrops(cs, arr, |cs|);
    if next != arr {
      SweepSound(cs, n, src, start, r, arr, |cs|);
      FixpointFacts(cs, n, src, start, r, next);
      forall v | 0 <= v < n ensures Fixpoint(cs, arr)[v] <= arr[v] {
        SweepLowers(cs, arr, |cs|, v);
      }
    }
  }

  /** A sweep that goes past contact i takes it. */
  lemma {:induction false} SweepTakes(cs: seq<Contact>, arr: seq<nat>, i: nat, k: nat)
    requires Fits(cs, |arr|) && i < k <= |cs| && arr[cs[i].u] <= cs[i].t
    ensures Sweep(cs, arr, k)[cs[i].v] <= cs[i].t + cs[i].lambda
  {
    if i == k - 1 {
      SweepLowers(cs, arr, i, cs[i].u);
    } else {
      SweepTakes(cs, arr, i, k - 1);
    }
  }

  lemma {:induction false} NoTripIsEarly(cs: seq<Contact>, src: nat, start: nat, k: nat, v: nat, a: nat)
    requires Trip(cs, src, start, k, v, a)
    ensures start <= a
  {
    if k > 0 {
      var i: nat, b: nat :| Hop(cs, i, v, a, b) && Trip(cs, src, start, k - 1, cs[i].u, b);
      NoTripIsEarly(cs, src, start, k - 1, cs[i].u, b);
    }
  }

  /** Labels between the start and the answer. */
  ghost predicate Between(cs: seq<Contact>, src: nat, start: nat, arr: seq<nat>, fin: seq<nat>) {
    && Fits(cs, |arr|) && src < |arr| == |fin| && arr[src] <= start && Earliest(cs, src, start, fin)
    && (forall v :: 0 <= v < |arr| ==> fin[v] <= Sweep(cs, arr, |cs|)[v] && arr[v] <= INF)
  }

  /** Along a trip to an open node of least arrival, the first open node is finished by a sweep. */
  lemma {:induction false} FinishesOne(cs: seq<Contact>, src: nat, start: nat, arr: seq<nat>, fin: seq<nat>, k: nat,
                                       v: nat, a: nat)
    returns (w: nat)
    requires Between(cs, src, start, arr, fin) && Trip(cs, src, start, k, v, a)
    requires v < |arr| && arr[v] != fin[v] == a
    requires forall x :: 0 <= x < |arr| && arr[x] != fin[x] ==> a <= fin[x]
    ensures w < |arr| && arr[w] != fin[w] == Sweep(cs, arr, |cs|)[w]
  {
    if k == 0 {
      SweepLowers(cs, arr, |cs|, v);
      assert false;
    } else {
      var i: nat, b: nat :| Hop(cs, i, v, a, b) && Trip(cs, src, start, k - 1, cs[i].u, b);
      var u := cs[i].u;
      assert Arrives(cs, src, start, u, b);
      if arr[u] != fin[u] {
        w := FinishesOne(cs, src, start, arr, fin, k - 1, u, a);
      } else {
        SweepTakes(cs, arr, i, |cs|);
        w := v;
      }
    }
  }

  /** An open node of least arrival. */
  lemma {:induction false} LeastOpen(arr: seq<nat>, fin: seq<nat>, n: nat) returns (v: nat)
    requires n <= |arr| == |fin| && exists x :: 0 <= x < n && arr[x] != fin[x]
    ensures v < n && arr[v] != fin[v] && forall x :: 0 <= x < n && arr[x] != fin[x] ==> fin[v] <= fin[x]
  {
    if forall x :: 0 <= x < n - 1 ==> arr[x] == fin[x] {
      v := n - 1;
    } else {
      v := LeastOpen(arr, fin, n - 1);
      if arr[n - 1] != fin[n - 1] && fin[n - 1] < fin[v] {
        v := n - 1;
      }
    }
  }

  lemma SweepFinishes(cs: seq<Contact>, src: nat, start: nat, arr: seq<nat>, fin: seq<nat>) returns (w: nat)
    requires Between(cs, src, start, arr, fin) && arr != fin
    ensures w < |arr| && arr[w] != fin[w] == Sweep(cs, arr, |cs|)[w]
  {
    assert exists x :: 0 <= x < |arr| && arr[x] != fin[x];
    var v := LeastOpen(arr, fin, |arr|);
    SweepLowers(cs, arr, |cs|, v);
    var k: nat :| Trip(cs, src, start, k, v, fin[v]);
    w := FinishesOne(cs, src, start, arr, fin, k, v, fin[v]);
  }

  /** How many of the first n nodes have their final label. */
  ghost function Finished(arr: seq<nat>, fin: seq<nat>, n: nat): (m: nat)
    requires n <= |arr| && n <= |fin|
    ensures m <= n
  {
    if n == 0 then 0 else Finished(arr, fin, n - 1) + (if arr[n - 1] == fin[n - 1] then 1 else 0)
  }

  lemma {:induction false} FinishedGrows(arr: seq<nat>, next: seq<nat>, fin: seq<nat>, n: nat, w: nat)
    requires n <= |arr| == |next| == |fin| && forall v :: 0 <= v < |arr| && arr[v] == fin[v] ==> next[v] == fin[v]
    requires w < |arr| && arr[w] != fin[w] == next[w]
    ensures Finished(next, fin, n) >= Finished(arr, fin, n) + if w < n then 1 else 0
  {
    if n > 0 {
      FinishedGrows(arr, next, fin, n - 1, w);
    }
  }

  lemma {:induction false} AllFinished(arr: seq<nat>, fin: seq<nat>, n: nat)
    requires n <= |arr| == |fin|
    ensures Finished(arr, fin, n) == n <==> forall v :: 0 <= v < n ==> arr[v] == fin[v]
  {
    if n > 0 {
      AllFinished(arr, fin, n - 1);
    }
  }

  lemma {:induction false} OneFinished(arr: seq<nat>, fin: seq<nat>, n: nat, v: nat)
    requires v < n <= |arr| == |fin| && arr[v] == fin[v]
    ensures Finished(arr, fin, n) >= 1
  {
    if v < n - 1 {
      OneFinished(arr, fin, n - 1, v);
    }
  }

  /** After so many sweeps all labels are final, or one more node's than there were sweeps. */
  ghost predicate Advancing(cs: seq<Contact>, arr: seq<nat>, fin: seq<nat>, sweeps: nat) {
    && |arr| == |fin| && Fixpoint(cs, arr) == fin
    && (arr == fin || Finished(arr, fin, |arr|) > sweeps)
  }

  lemma SweepAdvances(cs: seq<Contact>, n: nat, src: nat, start: nat, arr: seq<nat>, fin: seq<nat>, sweeps: nat)
    requires Fits(cs, n) && Sound(n, src, start, Arrivals(cs, src, start), arr) && Advancing(cs, arr, fin, sweeps)
    ensures Advancing(cs, Sweep(cs, arr, |cs|), fin, sweeps + 1)
    ensures sweeps + 1 >= n ==> Sweep(cs, arr, |cs|) == arr
  {
    var next, rel := Sweep(cs, arr, |cs|), Arrivals(cs, src, start);
    ArrivalsFollow(cs, src, start);
    FixpointFacts(cs, n, src, start, rel, arr);
    AllFinished(arr, fin, n);
    if arr == fin {
      SettledSweep(cs, arr, |cs|);
    } else {
      SettledIsEarliest(cs, src, start, fin);
      SweepSound(cs, n, src, start, rel, arr, |cs|);
      FixpointFacts(cs, n, src, start, rel, next);
      FixpointOn(cs, arr, next, fin);
      var w := SweepFinishes(cs, src, start, arr, fin);
      forall v | 0 <= v < n && arr[v] == fin[v] ensures next[v] == fin[v] {
        SweepLowers(cs, arr, |cs|, v);
      }
      FinishedGrows(arr, next, fin, n, w);
    }
  }

  lemma FixpointOn(cs: seq<Contact>, arr: seq<nat>, next: seq<nat>, fin: seq<nat>)
    requires next == Sweep(cs, arr, |cs|) && fin == Fixpoint(cs, arr)
    ensures Fixpoint(cs, next) == fin
  {
  }

  lemma StartAdvances(cs: seq<Contact>, n: nat, src: nat, start: nat, arr: seq<nat>)
    requires Fits(cs, n) && Sound(n, src, start, Arrivals(cs, src, start), arr)
    ensures Advancing(cs, arr, Fixpoint(cs, arr), 0)
  {
    var fin := Fixpoint(cs, arr);
    ArrivalsFollow(cs, src, start);
    FixpointFacts(cs, n, src, start, Arrivals(cs, src, start), arr);
    SettledIsEarliest(cs, src, start, fin);
    if fin[src] != INF {
      var k: nat :| Trip(cs, src, start, k, src, fin[src]);
      NoTripIsEarly(cs, src, start, k, src, fin[src]);
    }
    OneFinished(arr, fin, n, src);
  }

  /** The fixpoint loop ends with the earliest arrivals after at most n sweeps; on sorted contacts
      without returns the first sweep finds them and a second one at most confirms it. */
  method EarliestArrival(cs: seq<Contact>, n: nat, src: nat, start: nat) returns (r: seq<nat>, ghost sweeps: nat)
    requires Fits(cs, n) && src < n && start <= INF
    ensures |r| == n && Earliest(cs, src, start, r)
    ensures sweeps <= n && (Sorted(cs) && NoReturn(cs) ==> sweeps <= 2)
  {
    var arr := new nat[n](_ => INF);
    arr[src] := start;
    ghost var rel := Arrivals(cs, src, start);
    ArrivalsFollow(cs, src, start);
    StartAdvances(cs, n, src, start, arr[..]);
    ghost var fin := Fixpoint(cs, arr[..]);
    sweeps := 0;
    var changed := true;
    while changed
      invariant Sound(n, src, start, rel, arr[..])
      invariant !changed ==> AllSettled(cs, arr[..], |cs|)
      invariant Advancing(cs, arr[..], fin, sweeps) && sweeps <= n && (sweeps == n ==> !changed)
      invariant Sorted(cs) && NoReturn(cs) ==>
                  sweeps <= 2 && (sweeps >= 1 ==> AllSettled(cs, arr[..], |cs|)) && (sweeps == 2 ==> !changed)
      decreases Total(arr[..]), changed
    {
      ghost var was := arr[..];
      SweepSound(cs, n, src, start, rel, was, |cs|);
      SweepDrops(cs, was, |cs|);
      SweepAdvances(cs, n, src, start, was, fin, sweeps);
      Quick(cs, was, sweeps);
      changed := SweepOnce(cs, arr);
      sweeps := sweeps + 1;
    }
    SettledIsEarliest(cs, src, start, arr[..]);
    r := arr[..];
  }

  lemma Quick(cs: seq<Contact>, arr: seq<nat>, sweeps: nat)
    ensures Sorted(cs) && NoReturn(cs) ==> AllSettled(cs, Sweep(cs, arr, |cs|), |cs|)
    ensures AllSettled(cs, arr, |cs|) ==> Sweep(cs, arr, |cs|) == arr
  {
    if Sorted(cs) && NoReturn(cs) {
      OneSweepSuffices(cs, arr, |cs|);
    }
    if AllSettled(cs, arr, |cs|) {
      SettledSweep(cs, arr, |cs|);
    }
  }

  // ---------------------------------------------------------------- what one sweep finds

  /** The labels the loop starts from. */
  function AtStart(n: nat, src: nat, start: nat): seq<nat>
    requires src < n
  {
    seq(n, i => INF)[src := start]
  }

  /** v is reached at a by some of the first k contacts, taken in list order. */
  ghost predicate InOrder(cs: seq<Contact>, src: nat, start: nat, k: nat, v: nat, a: nat)
    requires k <= |cs|
  {
    if k == 0 then v == src && a == start else
      var c := cs[k - 1];
      || InOrder(cs, src, start, k - 1, v, a)
      || exists b: nat :: Taken(c, v, a, b) && InOrder(cs, src, start, k - 1, c.u, b)
  }

  /** A sweep finds the earliest of the arrivals in list order. */
  ghost predicate EarliestInOrder(cs: seq<Contact>, src: nat, start: nat, k: nat, arr: seq<nat>)
    requires k <= |cs|
  {
    && (forall v: nat :: v < |arr| ==> arr[v] == INF || InOrder(cs, src, start, k, v, arr[v]))
    && (forall v: nat, a: nat :: v < |arr| && InOrder(cs, src, start, k, v, a) ==> arr[v] <= a)
  }

  lemma {:induction false} SweepInOrder(cs: seq<Contact>, n: nat, src: nat, start: nat, k: nat)
    requires Fits(cs, n) && src < n && start <= INF && k <= |cs|
    ensures EarliestInOrder(cs, src, start, k, Sweep(cs, AtStart(n, src, start), k))
  {
    if k > 0 {
      SweepInOrder(cs, n, src, start, k - 1);
      RelaxInOrder(cs, src, start, k, Sweep(cs, AtStart(n, src, start), k - 1));
    }
  }

  lemma RelaxInOrder(cs: seq<Contact>, src: nat, start: nat, k: nat, arr: seq<nat>)
    requires Fits(cs, |arr|) && 0 < k <= |cs| && EarliestInOrder(cs, src, start, k - 1, arr)
    ensures EarliestInOrder(cs, src, start, k, Relax(cs[k - 1], arr))
  {
    var c, next := cs[k - 1], Relax(cs[k - 1], arr);
    forall v: nat, a: nat | v < |arr| && InOrder(cs, src, start, k, v, a) ensures next[v] <= a {
      if !InOrder(cs, src, start, k - 1, v, a) {
        var b: nat :| Taken(c, v, a, b) && InOrder(cs, src, start, k - 1, c.u, b);
        assert arr[c.u] <= b;
      }
    }
    forall v: nat | v < |arr| ensures next[v] == INF || InOrder(cs, src, start, k, v, next[v]) {
      if next[v] != arr[v] {
        assert Taken(c, v, next[v], arr[c.u]);
      }
    }
  }

  lemma {:induction false} InOrderArrives(cs: seq<Contact>, src: nat, start: nat, k: nat, v: nat, a: nat)
    requires k <= |cs| && InOrder(cs, src, start, k, v, a)
    ensures Arrives(cs, src, start, v, a)
  {
    if k == 0 {
      assert Trip(cs, src, start, 0, v, a);
    } else if InOrder(cs, src, start, k - 1, v, a) {
      InOrderArrives(cs, src, start, k - 1, v, a);
    } else {
      var c := cs[k - 1];
      var b: nat :| Taken(c, v, a, b) && InOrder(cs, src, start, k - 1, c.u, b);
      InOrderArrives(cs, src, start, k - 1, c.u, b);
      var m: nat :| Trip(cs, src, start, m, c.u, b);
      assert Hop(cs, k - 1, v, a, b);
      assert Trip(cs, src, start, m + 1, v, a);
    }
  }

  /** Some trip in list order is no later. */
  ghost predicate Matched(cs: seq<Contact>, src: nat, start: nat, v: nat, a: nat) {
    exists b: nat :: b <= a && InOrder(cs, src, start, |cs|, v, b)
  }

  /** The first sweep finds the answer exactly if every trip that arrives before the end of time
      has one in list order that is no later. */
  lemma OneSweepExactly(cs: seq<Contact>, n: nat, src: nat, start: nat)
    requires Fits(cs, n) && src < n && start <= INF
    ensures Earliest(cs, src, start, Sweep(cs, AtStart(n, src, start), |cs|))
            <==> forall v: nat, a: nat :: v < n && a < INF && Arrives(cs, src, start, v, a) ==>
              Matched(cs, src, start, v, a)
  {
    var arr := Sweep(cs, AtStart(n, src, start), |cs|);
    SweepInOrder(cs, n, src, start, |cs|);
    forall v: nat | v < n && arr[v] != INF ensures Arrives(cs, src, start, v, arr[v]) {
      InOrderArrives(cs, src, start, |cs|, v, arr[v]);
    }
    forall v: nat, a: nat | v < n && a < INF && arr[v] <= a ensures Matched(cs, src, start, v, a) {
      assert InOrder(cs, src, start, |cs|, v, arr[v]);
    }
    forall v: nat | v < n ensures arr[v] <= INF {
      assert arr[v] == INF || InOrder(cs, src, start, |cs|, v, arr[v]);
    }
  }

  /** Sorting alone does not make it so: a return at the same instant is missed. */
  const Return: seq<Contact> := [Contact(1, 2, 5, 0), Contact(0, 1, 5, 0)]

  lemma ReturnTrip()
    ensures Arrives(Return, 0, 0, 2, 5)
  {
    ArrivalsFollow(Return, 0, 0);
    TwoTaken(Return, Arrivals(Return, 0, 0));
  }

  lemma TwoTaken(cs: seq<Contact>, r: Relation)
    requires cs == Return && Follows(cs, 0, 0, r)
    ensures r(2, 5)
  {
    var first, second := cs[1], cs[0];
    assert r(first.u, 0) && first.v == 1;
    assert r(second.u, 5);
  }

  lemma ReturnSweep()
    ensures Sweep(Return, AtStart(3, 0, 0), 2) == [0, 5, INF]
  {
    var cs, arr := Return, AtStart(3, 0, 0);
    assert arr == [0, INF, INF];
    assert Sweep(cs, arr, 1) == arr;
  }

  lemma InstantNeedsMore()
    ensures Sorted(Return) && Fits(Return, 3) && Arrives(Return, 0, 0, 2, 5)
    ensures Sweep(Return, AtStart(3, 0, 0), 2) == [0, 5, INF]
    ensures !Earliest(Return, 0, 0, Sweep(Return, AtStart(3, 0, 0), 2))
  {
    ReturnTrip();
    ReturnSweep();
  }

  // ---------------------------------------------------------------- static reachability

  /** adj holds the contacts without their times. */
  ghost predicate Condensed(cs: seq<Contact>, adj: Adjacency) {
    forall u: nat, v: nat :: u < |adj| ==> (v in adj[u] <==> exists k :: 0 <= k < |cs| && cs[k].u == u && cs[k].v == v)
  }

  /** Contact i leads to v. */
  ghost predicate Into(cs: seq<Contact>, i: nat, v: nat) {
    i < |cs| && cs[i].v == v
  }

  /** v is k contacts away from src, at whatever times. */
  ghost predicate Chained(cs: seq<Contact>, src: nat, k: nat, v: nat) {
    if k == 0 then v == src else exists i: nat :: Into(cs, i, v) && Chained(cs, src, k - 1, cs[i].u)
  }

  ghost predicate Connected(cs: seq<Contact>, src: nat, v: nat) {
    exists k: nat :: Chained(cs, src, k, v)
  }

  lemma {:induction false} StepsAreChained(cs: seq<Contact>, adj: Adjacency, src: nat, k: nat, v: nat)
    requires Fits(cs, |adj|) && Condensed(cs, adj)
    ensures Steps(adj, src, k, v) <==> Chained(cs, src, k, v)
  {
    if k > 0 {
      if Steps(adj, src, k, v) {
        var u: nat :| Edge(adj, u, v) && Steps(adj, src, k - 1, u);
        StepsAreChained(cs, adj, src, k - 1, u);
        var i :| 0 <= i < |cs| && cs[i].u == u && cs[i].v == v;
        assert Into(cs, i, v);
      }
      if Chained(cs, src, k, v) {
        var i: nat :| Into(cs, i, v) && Chained(cs, src, k - 1, cs[i].u);
        StepsAreChained(cs, adj, src, k - 1, cs[i].u);
        assert Edge(adj, cs[i].u, v);
      }
    }
  }

  /** The nodes reached when the timestamps are forgotten. */
  method StaticReachable(cs: seq<Contact>, n: nat, src: nat) returns (seen: seq<bool>)
    requires Fits(cs, n) && src < n
    ensures |seen| == n && forall v: nat :: v < n ==> (seen[v] <==> Connected(cs, src, v))
  {
    var lists := new seq<nat>[n](_ => []);
    for i := 0 to |cs|
      invariant forall u: nat, v: nat :: u < n ==>
                  (v in lists[u] <==> exists k :: 0 <= k < i && cs[k].u == u && cs[k].v == v)
    {
      var c := cs[i];
      lists[c.u] := lists[c.u] + [c.v];
    }
    ghost var adj := lists[..];
    forall u, i | 0 <= u < n && 0 <= i < |adj[u]| ensures adj[u][i] < n {
      assert adj[u][i] in adj[u];
    }
    seen := Search(lists[..], src);
    ReachesIsConnected(cs, adj, src);
  }

  lemma ReachesIsConnected(cs: seq<Contact>, adj: Adjacency, src: nat)
    requires Fits(cs, |adj|) && Condensed(cs, adj)
    ensures forall v: nat :: Reaches(adj, src, v) <==> Connected(cs, src, v)
  {
    forall k: nat, v: nat ensures Steps(adj, src, k, v) <==> Chained(cs, src, k, v) {
      StepsAreChained(cs, adj, src, k, v);
    }
  }

  lemma {:induction false} TripIsChained(cs: seq<Contact>, src: nat, start: nat, k: nat, v: nat, a: nat)
    requires Trip(cs, src, start, k, v, a)
    ensures Chained(cs, src, k, v)
  {
    if k > 0 {
      var i: nat, b: nat :| Hop(cs, i, v, a, b) && Trip(cs, src, start, k - 1, cs[i].u, b);
      TripIsChained(cs, src, start, k - 1, cs[i].u, b);
      assert Into(cs, i, v);
    }
  }

  /** A node with a finite arrival is statically reachable. */
  lemma FiniteIsStatic(cs: seq<Contact>, src: nat, start: nat, arr: seq<nat>, v: nat)
    requires Earliest(cs, src, start, arr) && v < |arr| && arr[v] != INF
    ensures Connected(cs, src, v)
  {
    var k: nat :| Trip(cs, src, start, k, v, arr[v]);
    TripIsChained(cs, src, start, k, v, arr[v]);
  }
}
