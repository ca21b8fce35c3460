module BfsSigma {
  // Breadth-first search that counts shortest paths.

  import opened Common
  import opened Graphs
  import opened PathCounts

  /** The walks of k edges from s to v whose last but one vertex is in `done`. */
  ghost function Via(g: Adjacency, s: nat, k: nat, v: nat, done: set<nat>): set<Path>
    requires k > 0
  {
    set u, p | u in done && Edge(g, u, v) && p in Paths(g, s, k - 1, u) :: p + [v]
  }

  /** Depth and count labels of a search from s; `done` has been scanned, q is the queue. */
  ghost predicate Labelled(g: Adjacency, s: nat, depth: seq<int>, done: set<nat>) {
    && s < |g| == |depth| && depth[s] == 0
    && (forall v <- done :: v < |g| && depth[v] >= 0)
    && (forall v :: 0 <= v < |g| && depth[v] >= 0 ==> IsDist(g, s, v, depth[v]))
    && (forall u: nat, v: nat :: u in done && Edge(g, u, v) ==> 0 <= depth[v] <= depth[u] + 1)
  }

  ghost predicate Counted(g: Adjacency, s: nat, depth: seq<int>, sigma: seq<nat>, done: set<nat>, u: nat,
                          seen: seq<nat>) {
    && |depth| == |sigma| == |g| && s < |g| && sigma[s] == 1 && u < |g|
    && (forall v :: 0 <= v < |g| && depth[v] > 0 ==>
          sigma[v] == |Via(g, s, depth[v], v, done)| + (if v in seen && depth[v] == depth[u] + 1 then sigma[u] else 0))
    && (forall v :: 0 <= v < |g| && depth[v] < 0 ==> sigma[v] == 0)
  }

  /** The queue: labelled, not scanned, by depth, within one level of depth d. */
  ghost predicate Queued(depth: seq<int>, q: seq<nat>, done: set<nat>, d: int) {
    && (forall i :: 0 <= i < |q| ==> q[i] < |depth| && q[i] !in done && d <= depth[q[i]] <= d + 1)
    && (forall i, j :: 0 <= i < j < |q| ==> q[i] != q[j] && depth[q[i]] <= depth[q[j]])
    && (forall v <- done :: v < |depth| && depth[v] <= d)
  }

  ghost predicate Known(depth: seq<int>) {
    forall v :: 0 <= v < |depth| ==> depth[v] >= -1
  }

  /** Every walk shorter than d leads to a scanned vertex. */
  lemma {:induction false} Settled(g: Adjacency, s: nat, depth: seq<int>, done: set<nat>, d: int, k: nat, w: nat)
    requires Labelled(g, s, depth, done)
    requires forall v :: 0 <= v < |g| && depth[v] >= 0 && v !in done ==> d <= depth[v]
    requires k < d && Paths(g, s, k, w) != {}
    ensures w in done && depth[w] <= k
  {
    var p :| p in Paths(g, s, k, w);
    PathsAreWalks(g, s, k, w, p);
    if k > 0 {
      ShortenWalk(g, s, k - 1, w, p);
      PathsAreWalks(g, s, k - 1, p[k - 1], p[..k]);
      Settled(g, s, depth, done, d, k - 1, p[k - 1]);
    }
  }

  lemma LastStep(g: Adjacency, s: nat, k: nat, u: nat, p: Path) returns (x: nat, q: Path)
    requires k > 0 && p in Paths(g, s, k, u)
    ensures Edge(g, x, u) && q in Paths(g, s, k - 1, x) && p == q + [u]
  {
    x, q :| 0 <= x < |g| && Edge(g, x, u) && q in Paths(g, s, k - 1, x) && p == q + [u];
  }

  lemma CountedPath(g: Adjacency, s: nat, depth: seq<int>, done: set<nat>, d: int, k: nat, u: nat, p: Path)
    requires Labelled(g, s, depth, done)
    requires forall v :: 0 <= v < |g| && depth[v] >= 0 && v !in done ==> d <= depth[v]
    requires 0 < k <= d && p in Paths(g, s, k, u)
    ensures p in Via(g, s, k, u, done)
  {
    var x, q := LastStep(g, s, k, u, p);
    Settled(g, s, depth, done, d, k - 1, x);
  }

  /** When u is next, all of its shortest paths have been counted. */
  lemma CountComplete(g: Adjacency, s: nat, depth: seq<int>, done: set<nat>, d: int, u: nat)
    requires Labelled(g, s, depth, done)
    requires forall v :: 0 <= v < |g| && depth[v] >= 0 && v !in done ==> d <= depth[v]
    requires u < |g| && 0 < depth[u] <= d
    ensures Via(g, s, depth[u], u, done) == Paths(g, s, depth[u], u)
  {
    var k: nat := depth[u];
    var via, all := Via(g, s, k, u, done), Paths(g, s, k, u);
    forall p | p in all ensures p in via {
      CountedPath(g, s, depth, done, d, k, u, p);
    }
    forall p | p in via ensures p in all {
      ViaIsPath(g, s, k, u, done, p);
    }
  }

  lemma ViaIsPath(g: Adjacency, s: nat, k: nat, v: nat, done: set<nat>, p: Path)
    requires k > 0 && p in Via(g, s, k, v, done)
    ensures p in Paths(g, s, k, v)
  {
  }

  lemma SourcePaths(g: Adjacency, s: nat)
    requires s < |g|
    ensures |Paths(g, s, 0, s)| == 1 && IsDist(g, s, s, 0)
  {
    assert Paths(g, s, 0, s) == {[s]};
    assert [s] in Paths(g, s, 0, s);
  }

  /** A newly met vertex is one level below u, and no counted path leads to it yet. */
  lemma Discovered(g: Adjacency, s: nat, depth: seq<int>, done: set<nat>, u: nat, v: nat)
    requires Labelled(g, s, depth, done) && u < |g| && depth[u] >= 0 && Edge(g, u, v) && depth[v] < 0
    requires forall v :: 0 <= v < |g| && depth[v] >= 0 && v !in done ==> depth[u] <= depth[v]
    ensures IsDist(g, s, v, depth[u] + 1) && Via(g, s, depth[u] + 1, v, done) == {}
  {
    var d := depth[u];
    var p :| p in Paths(g, s, d, u);
    assert p + [v] in Paths(g, s, d + 1, v);
    forall k: nat | k < d + 1 ensures Paths(g, s, k, v) == {} {
      if Paths(g, s, k, v) != {} && k > 0 {
        var q :| q in Paths(g, s, k, v);
        var x, r :| 0 <= x < |g| && Edge(g, x, v) && r in Paths(g, s, k - 1, x) && q == r + [v];
        Settled(g, s, depth, done, d, k - 1, x);
      }
    }
    assert forall x <- done :: !Edge(g, x, v);
  }

  // ---------------------------------------------------------------- scanning one vertex

  /** Scanning u: its first j neighbours have been met. */
  ghost predicate Scanning(g: Adjacency, s: nat, depth: seq<int>, sigma: seq<nat>, q: seq<nat>, done: set<nat>,
                           u: nat, j: nat) {
    && Labelled(g, s, depth, done)
    && u < |g| && u !in done && u !in q && depth[u] >= 0 && j <= |g[u]|
    && Queued(depth, q, done, depth[u])
    && (forall v :: 0 <= v < |g| && depth[v] >= 0 ==> v in done || v in q || v == u)
    && (forall i :: 0 <= i < j ==> g[u][i] < |g| && 0 <= depth[g[u][i]] <= depth[u] + 1)
    && Counted(g, s, depth, sigma, done, u, g[u][..j])
    && sigma[u] == |Paths(g, s, depth[u], u)|
  }

  /** What scanning the next neighbour v of u does to the labels, counts and queue. */
  function Depth'(depth: seq<int>, u: nat, v: nat): (r: seq<int>)
    requires u < |depth| && v < |depth|
    ensures |r| == |depth|
  {
    if depth[v] == -1 then depth[v := depth[u] + 1] else depth
  }

  function Sigma'(depth: seq<int>, sigma: seq<nat>, u: nat, v: nat): (r: seq<nat>)
    requires u < |depth| == |sigma| && v < |depth|
    ensures |r| == |sigma|
  {
    if Depth'(depth, u, v)[v] == depth[u] + 1 then sigma[v := sigma[v] + sigma[u]] else sigma
  }

  function Queue'(depth: seq<int>, q: seq<nat>, v: nat): seq<nat>
    requires v < |depth|
  {
    if depth[v] == -1 then q + [v] else q
  }

  lemma NotTooDeep(g: Adjacency, s: nat, u: nat, v: nat, du: nat, dv: nat)
    requires IsDist(g, s, u, du) && IsDist(g, s, v, dv) && Edge(g, u, v)
    ensures dv <= du + 1
  {
    var p :| p in Paths(g, s, du, u);
    assert p + [v] in Paths(g, s, du + 1, v);
  }

  lemma ScanLabels(g: Adjacency, s: nat, depth: seq<int>, done: set<nat>, u: nat, v: nat)
    requires Labelled(g, s, depth, done) && Edge(g, u, v) && u !in done && depth[u] >= 0 && depth[v] >= -1
    requires forall x :: 0 <= x < |g| && depth[x] >= 0 && x !in done ==> depth[u] <= depth[x]
    ensures Labelled(g, s, Depth'(depth, u, v), done)
    ensures depth[v] == -1 ==> Via(g, s, depth[u] + 1, v, done) == {}
    ensures depth[v] >= 0 ==> depth[v] <= depth[u] + 1
  {
    if depth[v] == -1 {
      Discovered(g, s, depth, done, u, v);
    } else {
      NotTooDeep(g, s, u, v, depth[u], depth[v]);
    }
  }

  lemma ScanQueue(depth: seq<int>, q: seq<nat>, done: set<nat>, u: nat, v: nat)
    requires u < |depth| && v < |depth| && depth[u] >= 0
    requires Queued(depth, q, done, depth[u])
    requires depth[v] == -1 ==> v !in done && v !in q
    ensures Queued(Depth'(depth, u, v), Queue'(depth, q, v), done, depth[u])
  {
  }

  lemma ScanCounts(g: Adjacency, s: nat, depth: seq<int>, sigma: seq<nat>, done: set<nat>, u: nat, j: nat, v: nat)
    requires u < |g| && j < |g[u]| && v == g[u][j] < |g| && Simple(g)
    requires Counted(g, s, depth, sigma, done, u, g[u][..j]) && depth[v] >= -1 && depth[u] >= 0 && depth[s] == 0
    requires depth[v] == -1 ==> Via(g, s, depth[u] + 1, v, done) == {}
    ensures Counted(g, s, Depth'(depth, u, v), Sigma'(depth, sigma, u, v), done, u, g[u][..j + 1])
  {
    assert g[u][..j + 1] == g[u][..j] + [v];
    assert v !in g[u][..j];
  }

  lemma ScanStep(g: Adjacency, s: nat, depth: seq<int>, sigma: seq<nat>, q: seq<nat>, done: set<nat>, u: nat, j: nat,
                 v: nat)
    requires InRange(g) && Simple(g) && Scanning(g, s, depth, sigma, q, done, u, j) && j < |g[u]| && v == g[u][j]
    requires Known(depth)
    ensures Scanning(g, s, Depth'(depth, u, v), Sigma'(depth, sigma, u, v), Queue'(depth, q, v), done, u, j + 1)
    ensures Known(Depth'(depth, u, v))
  {
    assert v < |g|;
    ScanLabels(g, s, depth, done, u, v);
    ScanQueue(depth, q, done, u, v);
    ScanCounts(g, s, depth, sigma, done, u, j, v);
  }

  // ---------------------------------------------------------------- finishing a vertex

  function Appended(ps: set<Path>, v: nat): set<Path> {
    set p | p in ps :: p + [v]
  }

  lemma {:induction false} AppendedSize(ps: set<Path>, v: nat)
    ensures |Appended(ps, v)| == |ps|
  {
    if ps == {} {
      assert Appended(ps, v) == {};
    } else {
      var p :| p in ps;
      AppendedSize(ps - {p}, v);
      assert Appended(ps, v) == Appended(ps - {p}, v) + {p + [v]};
      forall q | q in ps - {p} ensures q + [v] != p + [v] {
        assert (q + [v])[..|q|] == q && (p + [v])[..|p|] == p;
      }
    }
  }

  lemma ViaEnds(g: Adjacency, s: nat, k: nat, v: nat, done: set<nat>, x: Path)
    requires k > 0 && x in Via(g, s, k, v, done)
    ensures |x| == k + 1 && x[k - 1] in done
  {
    var u, p :| u in done && Edge(g, u, v) && p in Paths(g, s, k - 1, u) && x == p + [v];
    PathsAreWalks(g, s, k - 1, u, p);
  }

  lemma ViaApart(g: Adjacency, s: nat, k: nat, v: nat, done: set<nat>, u: nat)
    requires k > 0 && u !in done
    ensures Via(g, s, k, v, done) !! Via(g, s, k, v, {u})
  {
    var a, b := Via(g, s, k, v, done), Via(g, s, k, v, {u});
    forall x | x in a && x in b ensures false {
      ViaEnds(g, s, k, v, done, x);
      ViaEnds(g, s, k, v, {u}, x);
    }
  }

  lemma ViaOne(g: Adjacency, s: nat, k: nat, v: nat, u: nat)
    requires k > 0
    ensures |Via(g, s, k, v, {u})| == (if Edge(g, u, v) then |Paths(g, s, k - 1, u)| else 0)
  {
    if Edge(g, u, v) {
      assert Via(g, s, k, v, {u}) == Appended(Paths(g, s, k - 1, u), v);
      AppendedSize(Paths(g, s, k - 1, u), v);
    } else {
      assert Via(g, s, k, v, {u}) == {};
    }
  }

  lemma ViaGrows(g: Adjacency, s: nat, k: nat, v: nat, done: set<nat>, u: nat)
    requires k > 0 && u !in done
    ensures |Via(g, s, k, v, done + {u})| == |Via(g, s, k, v, done)|
            + (if Edge(g, u, v) then |Paths(g, s, k - 1, u)| else 0)
  {
    ViaApart(g, s, k, v, done, u);
    ViaOne(g, s, k, v, u);
    assert Via(g, s, k, v, done + {u}) == Via(g, s, k, v, done) + Via(g, s, k, v, {u});
  }

  lemma FinishCounts(g: Adjacency, s: nat, depth: seq<int>, sigma: seq<nat>, done: set<nat>, u: nat)
    requires u < |g| == |depth| && u !in done && depth[u] >= 0 && InRange(g)
    requires Counted(g, s, depth, sigma, done, u, g[u])
    requires IsDist(g, s, u, depth[u]) && sigma[u] == |Paths(g, s, depth[u], u)|
    requires forall i :: 0 <= i < |g[u]| ==> g[u][i] < |g| && depth[g[u][i]] <= depth[u] + 1
    ensures Counted(g, s, depth, sigma, done + {u}, s, [])
  {
    forall v | 0 <= v < |g| && depth[v] > 0 ensures sigma[v] == |Via(g, s, depth[v], v, done + {u})| {
      ViaGrows(g, s, depth[v], v, done, u);
      assert Edge(g, u, v) <==> v in g[u];
    }
  }

  /** Between two vertices. */
  ghost predicate Searching(g: Adjacency, s: nat, depth: seq<int>, sigma: seq<nat>, q: seq<nat>, done: set<nat>) {
    && Labelled(g, s, depth, done)
    && (q != [] ==> q[0] < |depth| && depth[q[0]] >= 0 && Queued(depth, q, done, depth[q[0]]))
    && (forall v :: 0 <= v < |g| && depth[v] >= 0 ==> v in done || v in q)
    && Counted(g, s, depth, sigma, done, s, [])
  }

  lemma StartQueue(depth: seq<int>, q: seq<nat>, done: set<nat>)
    requires q != [] && q[0] < |depth| && Queued(depth, q, done, depth[q[0]])
    ensures Queued(depth, q[1..], done, depth[q[0]]) && q[0] !in done && q[0] !in q[1..]
    ensures forall v :: v in q ==> v in q[1..] || v == q[0]
  {
    assert q == [q[0]] + q[1..];
  }

  lemma StartCounts(g: Adjacency, s: nat, depth: seq<int>, sigma: seq<nat>, done: set<nat>, u: nat)
    requires u < |g| && Counted(g, s, depth, sigma, done, s, [])
    ensures Counted(g, s, depth, sigma, done, u, g[u][..0])
  {
  }

  lemma HeadLeast(depth: seq<int>, q: seq<nat>, done: set<nat>)
    requires q != [] && q[0] < |depth| && Queued(depth, q, done, depth[q[0]])
    requires forall v :: 0 <= v < |depth| && depth[v] >= 0 ==> v in done || v in q
    ensures forall v :: 0 <= v < |depth| && depth[v] >= 0 && v !in done ==> depth[q[0]] <= depth[v]
  {
  }

  /** The head of the queue has its final count. */
  lemma HeadCount(g: Adjacency, s: nat, depth: seq<int>, sigma: seq<nat>, done: set<nat>, u: nat)
    requires Labelled(g, s, depth, done) && Counted(g, s, depth, sigma, done, s, []) && u < |g| && depth[u] >= 0
    requires forall v :: 0 <= v < |g| && depth[v] >= 0 && v !in done ==> depth[u] <= depth[v]
    ensures sigma[u] == |Paths(g, s, depth[u], u)|
  {
    SourcePaths(g, s);
    if depth[u] > 0 {
      CountComplete(g, s, depth, done, depth[u], u);
    } else {
      AtSource(g, s, u);
    }
  }

  lemma AtSource(g: Adjacency, s: nat, u: nat)
    requires IsDist(g, s, u, 0)
    ensures u == s
  {
  }

  lemma StartScan(g: Adjacency, s: nat, depth: seq<int>, sigma: seq<nat>, q: seq<nat>, done: set<nat>)
    requires Searching(g, s, depth, sigma, q, done) && q != []
    ensures Scanning(g, s, depth, sigma, q[1..], done, q[0], 0) && q[0] !in done
  {
    HeadLeast(depth, q, done);
    HeadCount(g, s, depth, sigma, done, q[0]);
    StartQueue(depth, q, done);
    StartCounts(g, s, depth, sigma, done, q[0]);
  }

  lemma EndScan(g: Adjacency, s: nat, depth: seq<int>, sigma: seq<nat>, q: seq<nat>, done: set<nat>, u: nat)
    requires u < |g| && InRange(g) && Scanning(g, s, depth, sigma, q, done, u, |g[u]|)
    ensures Searching(g, s, depth, sigma, q, done + {u})
  {
    assert g[u][..|g[u]|] == g[u];
    FinishCounts(g, s, depth, sigma, done, u);
  }

  /** The answer: hop distances, and exact numbers of shortest paths. */
  ghost predicate Answer(g: Adjacency, s: nat, depth: seq<int>, sigma: seq<nat>) {
    && |depth| == |sigma| == |g|
    && forall v :: 0 <= v < |g| ==>
         && (depth[v] == -1 <==> Unreachable(g, s, v))
         && (depth[v] != -1 ==> depth[v] >= 0 && IsDist(g, s, v, depth[v]) && sigma[v] == |Paths(g, s, depth[v], v)|)
  }

  lemma Finished(g: Adjacency, s: nat, depth: seq<int>, sigma: seq<nat>, done: set<nat>)
    requires Searching(g, s, depth, sigma, [], done)
    requires Known(depth)
    ensures Answer(g, s, depth, sigma)
  {
    SourcePaths(g, s);
    forall v | 0 <= v < |g| && depth[v] == -1 ensures Unreachable(g, s, v) {
      forall k: nat ensures Paths(g, s, k, v) == {} {
        if Paths(g, s, k, v) != {} {
          Settled(g, s, depth, done, k + 1, k, v);
        }
      }
    }
    forall v | 0 <= v < |g| && depth[v] >= 0 ensures sigma[v] == |Paths(g, s, depth[v], v)| {
      if depth[v] > 0 {
        CountComplete(g, s, depth, done, depth[v], v);
      } else {
        assert v == s;
      }
    }
  }

  /** One turn of the inner loop. */
  method Touch(u: nat, v: nat, depth: array<int>, sigma: array<nat>, q: seq<nat>) returns (q': seq<nat>)
    requires u < depth.Length == sigma.Length && v < depth.Length && depth[u] >= 0
    modifies depth, sigma
    ensures depth[..] == Depth'(old(depth[..]), u, v)
    ensures sigma[..] == Sigma'(old(depth[..]), old(sigma[..]), u, v)
    ensures q' == Queue'(old(depth[..]), q, v)
  {
    q' := q;
    if depth[v] == -1 {
      depth[v] := depth[u] + 1;
      q' := q' + [v];
    }
    if depth[v] == depth[u] + 1 {
      sigma[v] := sigma[v] + sigma[u];
    }
  }

  method ScanNeighbours(neigh: seq<nat>, ghost g: Adjacency, ghost s: nat, u: nat, depth: array<int>, sigma: array<nat>,
                        q: seq<nat>, ghost done: set<nat>)
    returns (q': seq<nat>)
    requires InRange(g) && Simple(g) && u < |g| && neigh == g[u]
    requires Scanning(g, s, depth[..], sigma[..], q, done, u, 0) && Known(depth[..])
    modifies depth, sigma
    ensures Scanning(g, s, depth[..], sigma[..], q', done, u, |g[u]|) && Known(depth[..])
  {
    q' := q;
    for j := 0 to |neigh|
      invariant Scanning(g, s, depth[..], sigma[..], q', done, u, j) && Known(depth[..])
    {
      ScanStep(g, s, depth[..], sigma[..], q', done, u, j, neigh[j]);
      q' := Touch(u, neigh[j], depth, sigma, q');
    }
  }

  lemma SearchStarts(g: Adjacency, s: nat, depth: seq<int>, sigma: seq<nat>)
    requires s < |g| == |depth| == |sigma|
    requires forall v :: 0 <= v < |g| ==>
             depth[v] == (if v == s then 0 else -1) && sigma[v] == (if v == s then 1 else 0)
    ensures Searching(g, s, depth, sigma, [s], {}) && Known(depth)
  {
    SourcePaths(g, s);
  }

  /** Scans the vertex at the head of the queue. */
  method ScanNext(g: Csr, ghost rows: Adjacency, ghost s: nat, depth: array<int>, sigma: array<nat>, q: seq<nat>,
                  ghost done: set<nat>)
    returns (q': seq<nat>)
    requires g.WellFormed() && rows == g.Rows() && InRange(rows) && Simple(rows) && q != []
    requires Searching(rows, s, depth[..], sigma[..], q, done) && Known(depth[..])
    modifies depth, sigma
    ensures Searching(rows, s, depth[..], sigma[..], q', done + {q[0]}) && Known(depth[..])
    ensures |done| < |done + {q[0]}| <= g.n
  {
    var u := q[0];
    StartScan(rows, s, depth[..], sigma[..], q, done);
    q' := ScanNeighbours(g.Neigh(u), rows, s, u, depth, sigma, q[1..], done);
    EndScan(rows, s, depth[..], sigma[..], q', done, u);
    OneMore(done, u, g.n);
  }

  lemma OneMore(done: set<nat>, u: nat, n: nat)
    requires u !in done && u < n && forall v <- done :: v < n
    ensures |done| < |done + {u}| <= n
  {
    SubsetSize(done + {u}, n);
  }

  /** Depths and shortest-path counts from s. */
  method Bfs(g: Csr, s: nat) returns (depth: seq<int>, sigma: seq<nat>)
    requires g.WellFormed() && s < g.n
    ensures Answer(g.Rows(), s, depth, sigma)
  {
    var dep := new int[g.n](_ => -1);
    var sig := new nat[g.n](_ => 0);
    dep[s] := 0;
    sig[s] := 1;
    var q := [s];
    ghost var done: set<nat>, rows := {}, g.Rows();
    RowsAreSimple(g);
    SearchStarts(rows, s, dep[..], sig[..]);
    while q != []
      invariant Searching(rows, s, dep[..], sig[..], q, done) && Known(dep[..])
      invariant |done| <= g.n
      decreases g.n - |done|
    {
      var u := q[0];
      q := ScanNext(g, rows, s, dep, sig, q, done);
      done := done + {u};
    }
    Finished(rows, s, dep[..], sig[..], done);
    depth, sigma := dep[..], sig[..];
  }
}
