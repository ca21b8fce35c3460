module Dijkstra {
  // Single-source shortest paths with a binary heap and lazy deletion: exact distances, every
  // vertex scanned at most once, and bounds on the number of heap pops.

  import opened Common
  import opened Graphs

  /** u64::MAX, the distance of vertices not reached. */
  const INF: nat := 0xFFFF_FFFF_FFFF_FFFF

  /** Vertex ids and weights are 32 bits wide. */
  const MAX_WEIGHT: nat := 0xFFFF_FFFF

  /** Targets in range, weights within 32 bits. */
  ghost predicate Narrow(rows: WeightedRows) {
    && |rows| <= MAX_WEIGHT + 1
    && forall u, i :: 0 <= u < |rows| && 0 <= i < |rows[u]| ==> rows[u][i].0 < |rows| && rows[u][i].1 <= MAX_WEIGHT
  }

  // ---------------------------------------------------------------- walks

  ghost predicate Edge(rows: WeightedRows, u: nat, v: nat, x: nat) {
    u < |rows| && (v, x) in rows[u]
  }

  /** A walk of k edges from s to v has total weight w. */
  ghost predicate Walk(rows: WeightedRows, s: nat, k: nat, v: nat, w: nat) {
    if k == 0 then v == s && w == 0
    else exists u: nat, x: nat :: x <= w && Edge(rows, u, v, x) && Walk(rows, s, k - 1, u, w - x)
  }

  ghost predicate Reached(rows: WeightedRows, s: nat, v: nat, w: nat) {
    exists k: nat :: Walk(rows, s, k, v, w)
  }

  lemma ReachOn(rows: WeightedRows, s: nat, u: nat, d: nat, v: nat, x: nat)
    requires Reached(rows, s, u, d) && Edge(rows, u, v, x)
    ensures Reached(rows, s, v, d + x)
  {
    var k: nat :| Walk(rows, s, k, u, d);
    assert Walk(rows, s, k + 1, v, d + x) by {
      assert Walk(rows, s, k, u, d + x - x);
    }
  }

  /** The answer: the least walk weight, or INF when there is no walk. */
  ghost predicate Exact(rows: WeightedRows, s: nat, dist: seq<nat>) {
    && |dist| == |rows|
    && forall v :: 0 <= v < |rows| ==>
         && (dist[v] == INF <==> forall w: nat :: !Reached(rows, s, v, w))
         && (dist[v] != INF ==> Reached(rows, s, v, dist[v]) && forall w: nat :: Reached(rows, s, v, w) ==>
           dist[v] <= w)
  }

  // ---------------------------------------------------------------- the heap

  type Heap = multiset<(nat, nat)>

  predicate Less(a: (nat, nat), b: (nat, nat)) {
    a.0 < b.0 || (a.0 == b.0 && a.1 < b.1)
  }

  ghost predicate IsLeast(heap: Heap, x: (nat, nat)) {
    x in heap && forall y :: y in heap ==> !Less(y, x)
  }

  lemma {:induction false} LeastExists(heap: Heap)
    requires |heap| > 0
    ensures exists x :: IsLeast(heap, x)
    decreases |heap|
  {
    var x :| x in heap;
    var rest := heap - multiset{x};
    if |rest| == 0 {
      forall y | y in heap ensures y == x {
        assert y != x ==> y in rest;
      }
      assert IsLeast(heap, x);
    } else {
      LeastExists(rest);
      var m :| IsLeast(rest, m);
      forall y | y in heap ensures y == x || y in rest {
      }
      if Less(x, m) {
        assert IsLeast(heap, x);
      } else {
        assert IsLeast(heap, m);
      }
    }
  }

  method PopMin(heap: Heap) returns (x: (nat, nat), rest: Heap)
    requires |heap| > 0
    ensures IsLeast(heap, x) && heap == rest + multiset{x}
  {
    LeastExists(heap);
    x :| x in heap && forall y :: y in heap ==> !Less(y, x);
    rest := heap - multiset{x};
  }

  // ---------------------------------------------------------------- the invariant

  /** A relation between vertices and weights that follows the edges from s. */
  type Relation = (nat, nat) -> bool

  ghost predicate Follows(rows: WeightedRows, s: nat, reach: Relation) {
    && reach(s, 0)
    && forall u: nat, d: nat, v: nat, x: nat :: reach(u, d) && Edge(rows, u, v, x) ==> reach(v, d + x)
  }

  /** Labels are INF or related to their vertex, within a bound. */
  ghost predicate Sound(rows: WeightedRows, s: nat, reach: Relation, dist: seq<nat>, bound: nat) {
    && |dist| == |rows| && s < |rows| && dist[s] == 0 && bound < INF
    && forall v :: 0 <= v < |rows| ==> dist[v] == INF || (dist[v] <= bound && reach(v, dist[v]))
  }

  /** Every labelled vertex not scanned is queued once under its label; scanned ones are not;
      other queue entries are stale, and nothing queued is below a scanned label. */
  ghost predicate Queued(dist: seq<nat>, heap: Heap, done: set<nat>) {
    && (forall e :: e in heap ==> e.1 < |dist| && dist[e.1] <= e.0 < INF)
    && (forall v :: 0 <= v < |dist| && v !in done && dist[v] != INF ==> heap[(dist[v], v)] == 1)
    && (forall v :: v in done ==> v < |dist| && dist[v] != INF && (dist[v], v) !in heap)
    && (forall v, e :: v in done && e in heap ==> dist[v] <= e.0)
  }

  /** The first j edges of u do not improve any label. */
  ghost predicate Settled(rows: WeightedRows, dist: seq<nat>, u: nat, j: nat)
    requires |dist| == |rows| && u < |rows| && j <= |rows[u]|
  {
    forall i :: 0 <= i < j ==> rows[u][i].0 < |dist| && dist[rows[u][i].0] <= dist[u] + rows[u][i].1
  }

  // ---------------------------------------------------------------- relaxing one edge

  function Dist'(dist: seq<nat>, v: nat, nd: nat): (r: seq<nat>)
    requires v < |dist|
    ensures |r| == |dist|
  {
    if nd < dist[v] then dist[v := nd] else dist
  }

  function Heap'(dist: seq<nat>, heap: Heap, v: nat, nd: nat): Heap
    requires v < |dist|
  {
    if nd < dist[v] then heap + multiset{(nd, v)} else heap
  }

  lemma RelaxSound(rows: WeightedRows, s: nat, reach: Relation, dist: seq<nat>, u: nat, v: nat, x: nat, bound: nat)
    requires Follows(rows, s, reach) && Sound(rows, s, reach, dist, bound) && v < |rows| && Edge(rows, u, v, x)
    requires dist[u] != INF && dist[u] + x <= bound
    ensures Sound(rows, s, reach, Dist'(dist, v, dist[u] + x), bound)
  {
    assert reach(v, dist[u] + x);
  }

  lemma RelaxQueued(dist: seq<nat>, heap: Heap, done: set<nat>, u: nat, v: nat, nd: nat)
    requires Queued(dist, heap, done) && u in done && v < |dist| && dist[u] <= nd < INF
    requires forall w :: w in done ==> dist[w] <= dist[u]
    ensures Queued(Dist'(dist, v, nd), Heap'(dist, heap, v, nd), done)
    ensures nd < dist[v] ==> v !in done
  {
    if nd < dist[v] {
      assert (nd, v) !in heap;
    }
  }

  // ---------------------------------------------------------------- scanning one vertex

  /** The degrees of the vertices of `done` below k. */
  ghost function Degrees(rows: WeightedRows, done: set<nat>, k: nat): nat
    requires k <= |rows|
  {
    if k == 0 then 0 else Degrees(rows, done, k - 1) + (if k - 1 in done then |rows[k - 1]| else 0)
  }

  /** Every other scanned vertex than u is settled, and u up to its j-th edge; u's label is the
      largest of them. */
  ghost predicate Scanned(rows: WeightedRows, dist: seq<nat>, done: set<nat>, u: nat, j: nat) {
    && |dist| == |rows| && u in done && u < |rows| && j <= |rows[u]|
    && (forall w :: w in done ==> w < |rows| && dist[w] <= dist[u])
    && (forall w :: w in done && w != u ==> Settled(rows, dist, w, |rows[w]|))
    && Settled(rows, dist, u, j)
  }

  ghost predicate Scanning(rows: WeightedRows, s: nat, reach: Relation, dist: seq<nat>, heap: Heap, done: set<nat>,
                           u: nat, j: nat, bound: nat) {
    && Sound(rows, s, reach, dist, bound) && Queued(dist, heap, done) && Scanned(rows, dist, done, u, j)
    && dist[u] + MAX_WEIGHT <= bound
  }

  lemma SettledStays(rows: WeightedRows, dist: seq<nat>, w: nat, j: nat, v: nat, nd: nat)
    requires |dist| == |rows| && w < |rows| && j <= |rows[w]| && v < |dist| && Settled(rows, dist, w, j)
    requires v == w ==> dist[v] <= nd
    ensures Settled(rows, Dist'(dist, v, nd), w, j)
  {
  }

  lemma RelaxScanned(rows: WeightedRows, dist: seq<nat>, done: set<nat>, u: nat, j: nat, v: nat, x: nat, nd: nat)
    requires Scanned(rows, dist, done, u, j) && j < |rows[u]| && rows[u][j] == (v, x) && v < |rows| && nd == dist[u] + x
    ensures Scanned(rows, Dist'(dist, v, nd), done, u, j + 1)
    ensures Dist'(dist, v, nd)[u] <= dist[u]
  {
    forall w | w in done && w != u ensures Settled(rows, Dist'(dist, v, nd), w, |rows[w]|) {
      SettledStays(rows, dist, w, |rows[w]|, v, nd);
    }
    SettledStays(rows, dist, u, j, v, nd);
  }

  lemma RelaxStep(rows: WeightedRows, s: nat, reach: Relation, dist: seq<nat>, heap: Heap, done: set<nat>,
                  u: nat, j: nat, bound: nat, v: nat, x: nat, nd: nat)
    requires Narrow(rows) && Follows(rows, s, reach) && Scanning(rows, s, reach, dist, heap, done, u, j, bound)
    requires j < |rows[u]| && rows[u][j] == (v, x) && nd == dist[u] + x
    ensures v < |dist| && Scanning(rows, s, reach, Dist'(dist, v, nd), Heap'(dist, heap, v, nd), done, u, j + 1, bound)
  {
    assert rows[u][j].0 < |rows| && rows[u][j].1 <= MAX_WEIGHT;
    assert Edge(rows, u, v, x);
    RelaxSound(rows, s, reach, dist, u, v, x, bound);
    RelaxQueued(dist, heap, done, u, v, nd);
    RelaxScanned(rows, dist, done, u, j, v, x, nd);
  }

  /** Relaxes one edge. */
  method Relax(v: nat, nd: nat, dist: array<nat>, heap: Heap) returns (heap': Heap)
    requires v < dist.Length
    modifies dist
    ensures dist[..] == Dist'(old(dist[..]), v, nd) && heap' == Heap'(old(dist[..]), heap, v, nd)
    ensures |heap'| <= |heap| + 1
  {
    heap' := heap;
    if nd < dist[v] {
      dist[v] := nd;
      heap' := heap' + multiset{(nd, v)};
    }
  }

  /** Targets and weights side by side. */
  function Zip(p: (seq<nat>, seq<nat>)): (row: seq<(nat, nat)>)
    requires |p.0| == |p.1|
    ensures |row| == |p.0|
  {
    seq(|p.0|, i requires 0 <= i < |p.0| => (p.0[i], p.1[i]))
  }

  /** Relaxes the edges of u. */
  method ScanVertex(ghost rows: WeightedRows, ghost s: nat, ghost reach: Relation, row: seq<(nat, nat)>,
                    dist: array<nat>, heap: Heap, ghost done: set<nat>, u: nat, d: nat, ghost bound: nat)
    returns (heap': Heap)
    requires Narrow(rows) && Follows(rows, s, reach) && u < |rows| && row == rows[u]
    requires Scanning(rows, s, reach, dist[..], heap, done, u, 0, bound) && d == dist[u]
    modifies dist
    ensures Scanning(rows, s, reach, dist[..], heap', done, u, |rows[u]|, bound)
    ensures |heap'| <= |heap| + |rows[u]|
  {
    heap' := heap;
    for j := 0 to |row|
      invariant Scanning(rows, s, reach, dist[..], heap', done, u, j, bound)
      invariant dist[u] == d && |heap'| <= |heap| + j
    {
      heap' := ScanEdge(rows, s, reach, row[j].0, row[j].1, dist, heap', done, u, j, d, bound);
    }
  }

  method ScanEdge(ghost rows: WeightedRows, ghost s: nat, ghost reach: Relation, v: nat, w: nat, dist: array<nat>,
                  heap: Heap,
                  ghost done: set<nat>, ghost u: nat, ghost j: nat, d: nat, ghost bound: nat)
    returns (heap': Heap)
    requires Narrow(rows) && Follows(rows, s, reach) && u < |rows| && j < |rows[u]| && rows[u][j] == (v, w)
    requires Scanning(rows, s, reach, dist[..], heap, done, u, j, bound) && d == dist[u]
    modifies dist
    ensures Scanning(rows, s, reach, dist[..], heap', done, u, j + 1, bound) && d == dist[u] && |heap'| <= |heap| + 1
  {
    var nd := d + w;
    RelaxStep(rows, s, reach, dist[..], heap, done, u, j, bound, v, w, nd);
    heap' := Relax(v, nd, dist, heap);
  }

  // ---------------------------------------------------------------- between two pops

  ghost predicate AllSettled(rows: WeightedRows, dist: seq<nat>, done: set<nat>, bound: nat) {
    |dist| == |rows| && forall w :: w in done ==>
      w < |rows| && dist[w] + MAX_WEIGHT <= bound && Settled(rows, dist, w, |rows[w]|)
  }

  ghost predicate Searching(rows: WeightedRows, s: nat, reach: Relation, dist: seq<nat>, heap: Heap, done: set<nat>,
                            bound: nat) {
    Sound(rows, s, reach, dist, bound) && Queued(dist, heap, done) && AllSettled(rows, dist, done, bound)
  }

  lemma PopStale(dist: seq<nat>, heap: Heap, done: set<nat>, x: (nat, nat), rest: Heap)
    requires Queued(dist, heap, done) && IsLeast(heap, x) && heap == rest + multiset{x}
    ensures x.1 < |dist| && dist[x.1] <= x.0
    ensures dist[x.1] < x.0 ==> Queued(dist, rest, done)
    ensures x.1 in done ==> dist[x.1] < x.0
  {
    assert (dist[x.1], x.1) == x <==> dist[x.1] == x.0;
    assert forall e :: e in rest ==> e in heap;
    forall v | 0 <= v < |dist| && v !in done && dist[v] != INF && (dist[v], v) != x ensures rest[(dist[v], v)] == 1 {
      assert heap[(dist[v], v)] == 1;
    }
  }

  lemma PopFresh(dist: seq<nat>, heap: Heap, done: set<nat>, d: nat, u: nat, rest: Heap)
    requires Queued(dist, heap, done) && IsLeast(heap, (d, u)) && heap == rest + multiset{(d, u)}
    requires u < |dist| && dist[u] == d != INF && u !in done
    ensures Queued(dist, rest, done + {u}) && forall w :: w in done ==> dist[w] <= d
  {
    var x := (d, u);
    assert x in heap;
    assert forall e :: e in rest ==> e in heap;
    assert heap[(dist[u], u)] == 1;
    forall e | e in rest ensures d <= e.0 {
      assert !Less(e, x);
    }
    forall v | 0 <= v < |dist| && v !in done + {u} && dist[v] != INF ensures rest[(dist[v], v)] == 1 {
      assert heap[(dist[v], v)] == 1;
    }
  }

  /** Once the heap is empty every walk is at least as heavy as its label. */
  lemma {:induction false} NoLighterWalk(rows: WeightedRows, s: nat, reach: Relation, dist: seq<nat>, done: set<nat>,
                                         bound: nat,
                                         k: nat, v: nat, w: nat)
    requires Narrow(rows) && Searching(rows, s, reach, dist, multiset{}, done, bound) && Walk(rows, s, k, v, w)
    ensures v in done && dist[v] <= w
  {
    if k > 0 {
      var u: nat, x: nat :| x <= w && Edge(rows, u, v, x) && Walk(rows, s, k - 1, u, w - x);
      NoLighterWalk(rows, s, reach, dist, done, bound, k - 1, u, w - x);
      var i :| 0 <= i < |rows[u]| && rows[u][i] == (v, x);
      assert rows[u][i].0 < |rows| && rows[u][i].1 <= MAX_WEIGHT;
      assert dist[v] <= dist[u] + x;
    }
  }

  ghost function Weights(rows: WeightedRows, s: nat): Relation {
    (v: nat, w: nat) => Reached(rows, s, v, w)
  }

  lemma WeightsFollow(rows: WeightedRows, s: nat)
    ensures Follows(rows, s, Weights(rows, s))
  {
    assert Walk(rows, s, 0, s, 0);
    var reach := Weights(rows, s);
    forall u: nat, d: nat, v: nat, x: nat | reach(u, d) && Edge(rows, u, v, x) ensures reach(v, d + x) {
      ReachOn(rows, s, u, d, v, x);
    }
  }

  lemma Finished(rows: WeightedRows, s: nat, dist: seq<nat>, done: set<nat>, bound: nat)
    requires Narrow(rows) && Searching(rows, s, Weights(rows, s), dist, multiset{}, done, bound)
    ensures Exact(rows, s, dist) && forall v: nat :: v in done <==> v < |rows| && dist[v] != INF
  {
    forall v: nat, w: nat | v < |rows| && Reached(rows, s, v, w) ensures v in done && dist[v] <= w {
      var k: nat :| Walk(rows, s, k, v, w);
      NoLighterWalk(rows, s, Weights(rows, s), dist, done, bound, k, v, w);
    }
  }

  lemma StartScan(rows: WeightedRows, s: nat, reach: Relation, dist: seq<nat>, heap: Heap, done: set<nat>, d: nat,
                  u: nat, rest: Heap)
    requires Searching(rows, s, reach, dist, heap, done, |done| * MAX_WEIGHT) && |rows| <= MAX_WEIGHT + 1
    requires IsLeast(heap, (d, u)) && heap == rest + multiset{(d, u)} && u < |dist| && dist[u] == d && u !in done
    ensures Scanning(rows, s, reach, dist, rest, done + {u}, u, 0, |done + {u}| * MAX_WEIGHT)
    ensures |done| + 1 == |done + {u}| <= |rows|
  {
    assert (d, u) in heap;
    SubsetSize(done + {u}, |rows|);
    BoundGrows(|done|, |rows|);
    EntryFinite(dist, heap, done, d, u);
    PopFresh(dist, heap, done, d, u, rest);
  }

  lemma BoundGrows(k: nat, n: nat)
    requires k + 1 <= n <= MAX_WEIGHT + 1
    ensures k * MAX_WEIGHT + MAX_WEIGHT == (k + 1) * MAX_WEIGHT < INF
  {
  }

  lemma EntryFinite(dist: seq<nat>, heap: Heap, done: set<nat>, d: nat, u: nat)
    requires Queued(dist, heap, done) && (d, u) in heap && u < |dist| && dist[u] == d
    ensures d != INF
  {
  }

  lemma EndScan(rows: WeightedRows, s: nat, reach: Relation, dist: seq<nat>, heap: Heap, done: set<nat>, u: nat,
                bound: nat)
    requires u < |rows| && Scanning(rows, s, reach, dist, heap, done, u, |rows[u]|, bound)
    ensures Searching(rows, s, reach, dist, heap, done, bound)
  {
  }

  lemma SearchStarts(rows: WeightedRows, s: nat, reach: Relation, dist: seq<nat>)
    requires Follows(rows, s, reach) && s < |rows| == |dist|
    requires forall v :: 0 <= v < |dist| ==> dist[v] == if v == s then 0 else INF
    ensures Searching(rows, s, reach, dist, multiset{(0, s)}, {}, 0)
  {
  }

  // ---------------------------------------------------------------- the work

  lemma {:induction false} DegreesGrow(rows: WeightedRows, done: set<nat>, u: nat, k: nat)
    requires k <= |rows| && u !in done
    ensures Degrees(rows, done + {u}, k) == Degrees(rows, done, k) + (if u < k then |rows[u]| else 0)
  {
    if k > 0 {
      DegreesGrow(rows, done, u, k - 1);
    }
  }

  lemma {:induction false} DegreesBound(g: Csr, done: set<nat>, k: nat)
    requires g.Shaped() && k <= g.n
    ensures Degrees(Weighted(g), done, k) <= g.offsets[k]
  {
    if k > 0 {
      DegreesBound(g, done, k - 1);
    }
  }

  lemma NarrowRows(g: Csr)
    requires g.WellFormed() && g.n <= MAX_WEIGHT + 1 && forall e :: 0 <= e < |g.weights| ==> g.weights[e] <= MAX_WEIGHT
    ensures Narrow(Weighted(g))
  {
    var rows: WeightedRows := Weighted(g);
    forall u: nat, i: nat | 0 <= u < g.n && 0 <= i < |rows[u]|
      ensures rows[u][i].0 < g.n && rows[u][i].1 <= MAX_WEIGHT
    {
      assert rows[u][i] == (g.targets[g.offsets[u] + i], g.weights[g.offsets[u] + i]);
    }
  }

  /** One turn of the loop: a stale entry is skipped, a fresh one scanned. */
  method Turn(g: Csr, ghost rows: WeightedRows, ghost s: nat, ghost reach: Relation, dist: array<nat>, heap: Heap,
              ghost done: set<nat>)
    returns (heap': Heap, ghost done': set<nat>)
    requires g.Shaped() && rows == Weighted(g) && Narrow(rows) && Follows(rows, s, reach) && |heap| > 0 && |done| <= g.n
    requires Searching(rows, s, reach, dist[..], heap, done, |done| * MAX_WEIGHT)
    modifies dist
    ensures Searching(rows, s, reach, dist[..], heap', done', |done'| * MAX_WEIGHT)
    ensures |done| <= |done'| <= g.n
    ensures (done' == done && |heap'| + 1 == |heap|) || exists u: nat :: Visited(rows, heap, heap', done, done', u)
  {
    var x, rest := PopMin(heap);
    PopStale(dist[..], heap, done, x, rest);
    var (d, u) := x;
    if d > dist[u] {
      return rest, done;
    }
    done' := done + {u};
    heap' := Visit(g, rows, s, reach, dist, heap, done, d, u, rest);
    assert Visited(rows, heap, heap', done, done', u);
  }

  /** Vertex u was scanned, and its edges added at most one entry each. */
  ghost predicate Visited(rows: WeightedRows, heap: Heap, heap': Heap, done: set<nat>, done': set<nat>, u: nat) {
    u < |rows| && u !in done && done' == done + {u} && |heap'| + 1 <= |heap| + |rows[u]|
  }

  /** Scans the vertex just popped. */
  method Visit(g: Csr, ghost rows: WeightedRows, ghost s: nat, ghost reach: Relation, dist: array<nat>,
               ghost heap: Heap,
               ghost done: set<nat>, d: nat, u: nat, rest: Heap)
    returns (heap': Heap)
    requires g.Shaped() && rows == Weighted(g) && Narrow(rows) && Follows(rows, s, reach)
    requires Searching(rows, s, reach, dist[..], heap, done, |done| * MAX_WEIGHT)
    requires IsLeast(heap, (d, u)) && heap == rest + multiset{(d, u)} && u < |dist[..]| && dist[u] == d && u !in done
    modifies dist
    ensures Searching(rows, s, reach, dist[..], heap', done + {u}, |done + {u}| * MAX_WEIGHT)
    ensures |heap'| <= |rest| + |rows[u]| && |done| < |done + {u}| <= g.n
  {
    StartScan(rows, s, reach, dist[..], heap, done, d, u, rest);
    var row := Zip(g.NeighW(u));
    assert row == rows[u];
    heap' := ScanVertex(rows, s, reach, row, dist, rest, done + {u}, u, d, |done + {u}| * MAX_WEIGHT);
    EndScan(rows, s, reach, dist[..], heap', done + {u}, u, |done + {u}| * MAX_WEIGHT);
  }

  /** Exact distances; the scanned vertices are the reached ones, each once, and
      reached <= pops <= edges + 1. */
  method Run(g: Csr, s: nat) returns (distances: seq<nat>, pops: nat, ghost scanned: seq<nat>)
    requires g.WellFormed() && s < g.n
    requires g.n <= MAX_WEIGHT + 1 && forall e :: 0 <= e < |g.weights| ==> g.weights[e] <= MAX_WEIGHT
    ensures Exact(Weighted(g), s, distances)
    ensures forall i, j :: 0 <= i < j < |scanned| ==> scanned[i] != scanned[j]
    ensures forall v: nat :: v in scanned <==> v < g.n && distances[v] != INF
    ensures |scanned| <= pops <= |g.targets| + 1
  {
    var dist := new nat[g.n](_ => INF);
    dist[s] := 0;
    var heap: Heap := multiset{(0, s)};
    ghost var rows, done: set<nat>, reach := Weighted(g), {}, Weights(Weighted(g), s);
    pops := 0;
    scanned := [];
    NarrowRows(g);
    WeightsFollow(rows, s);
    SearchStarts(rows, s, reach, dist[..]);
    NoDegrees(rows, g.n);
    while |heap| > 0
      invariant Searching(rows, s, reach, dist[..], heap, done, |done| * MAX_WEIGHT)
      invariant Worked(rows, heap, done, scanned, pops) && |done| <= g.n
      decreases g.n - |done|, |heap|
    {
      ghost var heap0, done0 := heap, done;
      heap, done := Turn(g, rows, s, reach, dist, heap, done);
      scanned := WorkStep(rows, heap0, heap, done0, done, scanned, pops);
      pops := pops + 1;
    }
    Finished(rows, s, dist[..], done, |done| * MAX_WEIGHT);
    DegreesBound(g, done, g.n);
    distances := dist[..];
  }

  lemma {:induction false} Covering(s: seq<nat>, n: nat)
    requires forall v: nat :: v < n ==> v in s
    ensures n <= |s|
  {
    if n > 0 {
      assert n - 1 in s;
      var k :| 0 <= k < |s| && s[k] == n - 1;
      var rest := s[..k] + s[k + 1..];
      forall v: nat | v < n - 1 ensures v in rest {
        assert v in s;
        var i :| 0 <= i < |s| && s[i] == v;
        assert rest[if i < k then i else i - 1] == v;
      }
      Covering(rest, n - 1);
    }
  }

  lemma ReachesItself(rows: WeightedRows, s: nat)
    ensures Reached(rows, s, s, 0)
  {
    assert Walk(rows, s, 0, s, 0);
  }

  /** A run that reaches every vertex pops at least as often as there are vertices. */
  lemma ReachedAllPops(n: nat, distances: seq<nat>, scanned: seq<nat>, pops: nat)
    requires |distances| == n && (forall v: nat :: v in scanned <==> v < n && distances[v] != INF) && |scanned| <= pops
    requires forall v :: 0 <= v < n ==> distances[v] != INF
    ensures n <= pops
  {
    Covering(scanned, n);
  }

  /** With a vertex that is not reached there can be fewer pops than vertices: two vertices and
      no edge take one. */
  method TwoIslands() returns (pops: nat)
    ensures pops == 1
  {
    var g := Csr(2, [0, 0, 0], [], []);
    var distances, n, scanned := Run(g, 0);
    pops := n;
    ReachesItself(Weighted(g), 0);
    assert 0 in scanned;
  }

  /** The scanned vertices, and the pops they and their edges account for. */
  ghost predicate Worked(rows: WeightedRows, heap: Heap, done: set<nat>, scanned: seq<nat>, pops: nat) {
    && (forall i, j :: 0 <= i < j < |scanned| ==> scanned[i] != scanned[j])
    && (forall v: nat :: v in scanned <==> v in done)
    && |scanned| <= pops && pops + |heap| <= Degrees(rows, done, |rows|) + 1
  }

  lemma {:induction false} NoDegrees(rows: WeightedRows, k: nat)
    requires k <= |rows|
    ensures Degrees(rows, {}, k) == 0
  {
    if k > 0 {
      NoDegrees(rows, k - 1);
    }
  }

  lemma WorkStep(rows: WeightedRows, heap: Heap, heap': Heap, done: set<nat>, done': set<nat>, scanned: seq<nat>,
                 pops: nat)
    returns (scanned': seq<nat>)
    requires Worked(rows, heap, done, scanned, pops)
    requires (done' == done && |heap'| + 1 == |heap|) || exists u: nat :: Visited(rows, heap, heap', done, done', u)
    ensures Worked(rows, heap', done', scanned', pops + 1)
    ensures |done'| > |done| || (|done'| == |done| && |heap'| < |heap|)
  {
    if done' == done && |heap'| + 1 == |heap| {
      scanned' := scanned;
    } else {
      var u: nat :| Visited(rows, heap, heap', done, done', u);
      scanned' := scanned + [u];
      DegreesGrow(rows, done, u, |rows|);
    }
  }
}
