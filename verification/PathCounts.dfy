module PathCounts {
  // Shortest paths as sets of vertex sequences, and how they split at a vertex.

  type Path = seq<nat>

  /** Adjacency lists: the targets of every vertex. */
  type Adjacency = seq<seq<nat>>

  ghost predicate Edge(g: Adjacency, u: nat, v: nat) {
    u < |g| && v < |g| && v in g[u]
  }

  /** All walks of k edges from s to v. */
  ghost function Paths(g: Adjacency, s: nat, k: nat, v: nat): set<Path>
  {
    if k == 0 then (if v == s && s < |g| then {[s]} else {})
    else set u, p | 0 <= u < |g| && Edge(g, u, v) && p in Paths(g, s, k - 1, u) :: p + [v]
  }

  ghost predicate IsPath(g: Adjacency, p: Path)
  {
    p != [] && (forall i :: 0 <= i < |p| ==> p[i] < |g|) && (forall i :: 0 <= i < |p| - 1 ==> Edge(g, p[i], p[i + 1]))
  }

  ghost predicate IsWalk(g: Adjacency, s: nat, k: nat, v: nat, p: Path) {
    |p| == k + 1 && IsPath(g, p) && p[0] == s && p[k] == v
  }

  lemma ExtendWalk(g: Adjacency, s: nat, k: nat, u: nat, v: nat, q: Path)
    requires IsWalk(g, s, k, u, q) && Edge(g, u, v)
    ensures IsWalk(g, s, k + 1, v, q + [v])
  {
    var p := q + [v];
    forall i | 0 <= i < |p| - 1 ensures Edge(g, p[i], p[i + 1]) {
      if i < k {
        assert Edge(g, q[i], q[i + 1]);
      }
    }
  }

  lemma ShortenWalk(g: Adjacency, s: nat, k: nat, v: nat, p: Path)
    requires IsWalk(g, s, k + 1, v, p)
    ensures IsWalk(g, s, k, p[k], p[..k + 1]) && Edge(g, p[k], v) && p == p[..k + 1] + [v]
  {
    assert Edge(g, p[k], p[k + 1]);
    var q := p[..k + 1];
    forall i | 0 <= i < k ensures Edge(g, q[i], q[i + 1]) {
      assert Edge(g, p[i], p[i + 1]);
    }
  }

  /** The set holds exactly the vertex sequences along edges, of the right length and ends. */
  lemma {:induction false} PathsAreWalks(g: Adjacency, s: nat, k: nat, v: nat, p: Path)
    ensures p in Paths(g, s, k, v) <==> IsWalk(g, s, k, v, p)
  {
    if k == 0 {
      assert p == [s] <==> |p| == 1 && p[0] == s;
    } else {
      if p in Paths(g, s, k, v) {
        var u, q :| 0 <= u < |g| && Edge(g, u, v) && q in Paths(g, s, k - 1, u) && p == q + [v];
        PathsAreWalks(g, s, k - 1, u, q);
        ExtendWalk(g, s, k - 1, u, v, q);
      }
      if IsWalk(g, s, k, v, p) {
        ShortenWalk(g, s, k - 1, v, p);
        PathsAreWalks(g, s, k - 1, p[k - 1], p[..k]);
      }
    }
  }

  /** d is the hop distance from s to v. */
  ghost predicate IsDist(g: Adjacency, s: nat, v: nat, d: nat)
  {
    Paths(g, s, d, v) != {} && forall k: nat :: k < d ==> Paths(g, s, k, v) == {}
  }

  ghost predicate Unreachable(g: Adjacency, s: nat, v: nat)
  {
    forall k: nat :: Paths(g, s, k, v) == {}
  }

  // ---------------------------------------------------------------- splitting at a vertex

  /** The shortest s-t paths that pass through v. */
  ghost function Through(g: Adjacency, s: nat, t: nat, d: nat, v: nat): set<Path>
  {
    set p | p in Paths(g, s, d, t) && v in p
  }

  ghost function Join(p: Path, q: Path): Path
    requires q != []
  {
    p + q[1..]
  }

  ghost function Joined(a: set<Path>, b: set<Path>): set<Path>
    requires forall q <- b :: q != []
  {
    set p, q | p in a && q in b :: Join(p, q)
  }

  lemma OneMoreTimes(n: nat, m: nat, k: nat)
    requires n == m + 1
    ensures n * k == m * k + k
  {
  }

  /** Distinct pairs join to distinct paths when all first parts have the same length. */
  lemma {:induction false} JoinedSize(a: set<Path>, b: set<Path>, i: nat, v: nat)
    requires forall p <- a :: |p| == i
    requires forall q <- b :: q != [] && q[0] == v
    ensures |Joined(a, b)| == |a| * |b|
  {
    if a == {} {
      assert Joined(a, b) == {};
    } else {
      var p :| p in a;
      JoinedSize(a - {p}, b, i, v);
      JoinedSplit(p, a - {p}, a, b, i, v);
      OneMoreTimes(|a|, |a - {p}|, |b|);
    }
  }

  lemma JoinedSplit(p: Path, rest: set<Path>, a: set<Path>, b: set<Path>, i: nat, v: nat)
    requires p !in rest && a == rest + {p} && (forall p <- a :: |p| == i) && forall q <- b :: q != [] && q[0] == v
    ensures |a| == |rest| + 1 && |Joined(a, b)| == |Joined(rest, b)| + |b|
  {
    OneJoinedSize(p, b, v);
    JoinedApart(p, rest, b, i);
    assert Joined(a, b) == Joined(rest, b) + Joined({p}, b);
  }

  lemma JoinedApart(p: Path, rest: set<Path>, b: set<Path>, i: nat)
    requires |p| == i && p !in rest && (forall p' <- rest :: |p'| == i) && forall q <- b :: q != []
    ensures Joined(rest, b) !! Joined({p}, b)
  {
    forall x | x in Joined({p}, b) ensures x !in Joined(rest, b) {
      var q :| q in b && x == Join(p, q);
      assert x[..i] == p;
      forall p', q' | p' in rest && q' in b ensures x != Join(p', q') {
        assert Join(p', q')[..i] == p';
      }
    }
  }

  lemma {:induction false} OneJoinedSize(p: Path, b: set<Path>, v: nat)
    requires forall q <- b :: q != [] && q[0] == v
    ensures |Joined({p}, b)| == |b|
  {
    if b == {} {
      assert Joined({p}, b) == {};
    } else {
      var q :| q in b;
      OneJoinedSize(p, b - {q}, v);
      assert Joined({p}, b) == Joined({p}, b - {q}) + {Join(p, q)};
      forall q' | q' in b && q' != q ensures Join(p, q') != Join(p, q) {
        JoinInjective(p, q, q');
      }
    }
  }

  lemma JoinInjective(p: Path, q: Path, q': Path)
    requires q != [] && q' != [] && q[0] == q'[0] && q != q'
    ensures Join(p, q) != Join(p, q')
  {
    assert q == [q[0]] + q[1..] && q' == [q'[0]] + q'[1..];
    assert Join(p, q)[|p|..] == q[1..] && Join(p, q')[|p|..] == q'[1..];
  }

  lemma JoinWalks(g: Adjacency, s: nat, i: nat, v: nat, j: nat, t: nat, p: Path, q: Path)
    requires IsWalk(g, s, i, v, p) && IsWalk(g, v, j, t, q)
    ensures IsWalk(g, s, i + j, t, Join(p, q)) && v in Join(p, q)
  {
    var x := Join(p, q);
    forall m | 0 <= m < |x| - 1 ensures Edge(g, x[m], x[m + 1]) {
      if m < i {
        assert Edge(g, p[m], p[m + 1]);
      } else {
        assert x[m] == q[m - i] && x[m + 1] == q[m - i + 1];
        assert Edge(g, q[m - i], q[m - i + 1]);
      }
    }
    assert x[i] == v;
  }

  lemma JoinIsPath(g: Adjacency, s: nat, i: nat, v: nat, j: nat, t: nat, p: Path, q: Path)
    requires p in Paths(g, s, i, v) && q in Paths(g, v, j, t)
    ensures q != [] && Join(p, q) in Paths(g, s, i + j, t) && v in Join(p, q)
  {
    PathsAreWalks(g, s, i, v, p);
    PathsAreWalks(g, v, j, t, q);
    JoinWalks(g, s, i, v, j, t, p, q);
    PathsAreWalks(g, s, i + j, t, Join(p, q));
  }

  lemma SplitWalk(g: Adjacency, s: nat, d: nat, t: nat, p: Path, m: nat)
    requires IsWalk(g, s, d, t, p) && m <= d
    ensures IsWalk(g, s, m, p[m], p[..m + 1]) && IsWalk(g, p[m], d - m, t, p[m..])
    ensures p == Join(p[..m + 1], p[m..])
  {
    var q, r := p[..m + 1], p[m..];
    forall i | 0 <= i < m ensures Edge(g, q[i], q[i + 1]) {
      assert Edge(g, p[i], p[i + 1]);
    }
    forall i | 0 <= i < d - m ensures Edge(g, r[i], r[i + 1]) {
      assert Edge(g, p[m + i], p[m + i + 1]);
    }
  }

  lemma SplitPath(g: Adjacency, s: nat, d: nat, t: nat, p: Path, m: nat)
    requires p in Paths(g, s, d, t) && m < |p|
    ensures m <= d && p[..m + 1] in Paths(g, s, m, p[m]) && p[m..] in Paths(g, p[m], d - m, t)
    ensures p == Join(p[..m + 1], p[m..])
  {
    PathsAreWalks(g, s, d, t, p);
    SplitWalk(g, s, d, t, p, m);
    PathsAreWalks(g, s, m, p[m], p[..m + 1]);
    PathsAreWalks(g, p[m], d - m, t, p[m..]);
  }

  /** A shortest path meets v only as far from s as v is, and then goes on shortest. */
  lemma ThroughAt(g: Adjacency, s: nat, t: nat, d: nat, v: nat, i: nat, j: nat, p: Path)
    requires IsDist(g, s, t, d) && IsDist(g, s, v, i) && IsDist(g, v, t, j)
    requires p in Through(g, s, t, d, v)
    ensures i + j == d && i < |p| && p[i] == v
  {
    var m :| 0 <= m < |p| && p[m] == v;
    SplitPath(g, s, d, t, p, m);
    assert i <= m && j <= d - m;
    var a :| a in Paths(g, s, i, v);
    var b :| b in Paths(g, v, j, t);
    JoinIsPath(g, s, i, v, j, t, a, b);
    assert Paths(g, s, i + j, t) != {};
  }

  lemma ThroughIsJoined(g: Adjacency, s: nat, t: nat, d: nat, v: nat, i: nat, j: nat)
    requires IsDist(g, s, t, d) && IsDist(g, s, v, i) && IsDist(g, v, t, j) && i + j == d
    requires forall q <- Paths(g, v, j, t) :: q != []
    ensures Through(g, s, t, d, v) == Joined(Paths(g, s, i, v), Paths(g, v, j, t))
  {
    var a, b := Paths(g, s, i, v), Paths(g, v, j, t);
    forall p | p in Through(g, s, t, d, v) ensures p in Joined(a, b) {
      ThroughAt(g, s, t, d, v, i, j, p);
      SplitPath(g, s, d, t, p, i);
    }
    forall x | x in Joined(a, b) ensures x in Through(g, s, t, d, v) {
      var p, q :| p in a && q in b && x == Join(p, q);
      JoinIsPath(g, s, i, v, j, t, p, q);
    }
  }

  /** The number of shortest s-t paths through v is the product of the two counts exactly when
      v lies on a shortest path, and zero otherwise. */
  lemma SplitAtVertex(g: Adjacency, s: nat, t: nat, d: nat, v: nat, i: nat, j: nat)
    requires IsDist(g, s, t, d) && IsDist(g, s, v, i) && IsDist(g, v, t, j)
    ensures |Through(g, s, t, d, v)| == if i + j == d then |Paths(g, s, i, v)| * |Paths(g, v, j, t)| else 0
  {
    if i + j == d {
      var a, b := Paths(g, s, i, v), Paths(g, v, j, t);
      forall p | p in a ensures |p| == i + 1 {
        PathsAreWalks(g, s, i, v, p);
      }
      forall q | q in b ensures q != [] && q[0] == v {
        PathsAreWalks(g, v, j, t, q);
      }
      ThroughIsJoined(g, s, t, d, v, i, j);
      JoinedSize(a, b, i + 1, v);
    } else {
      forall p | p in Through(g, s, t, d, v) ensures false {
        ThroughAt(g, s, t, d, v, i, j, p);
      }
      assert Through(g, s, t, d, v) == {};
    }
  }

  /** A vertex that cannot be reached from s, or cannot reach t, is on no s-t path. */
  lemma NotThrough(g: Adjacency, s: nat, t: nat, d: nat, v: nat)
    requires Unreachable(g, s, v) || Unreachable(g, v, t)
    ensures Through(g, s, t, d, v) == {}
  {
    forall p | p in Through(g, s, t, d, v) ensures false {
      var m :| 0 <= m < |p| && p[m] == v;
      SplitPath(g, s, d, t, p, m);
    }
  }
}
