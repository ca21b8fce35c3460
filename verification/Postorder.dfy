/** Reverse postorder by an iterative depth-first search with an explicit stack. */
module Postorder {
  import opened Graphs
  import opened Reachability

  /** usize::MAX, the index of vertices not reached. */
  const ABSENT: nat := 0xFFFF_FFFF_FFFF_FFFF

  /** A stack frame: a vertex and how many of its successors have been looked at. */
  type Frame = (nat, nat)

  /** Where the search has put a vertex. */
  datatype Place = White | Gray(m: nat) | Black(k: nat)

  type Relation = (nat, nat) -> bool

  /** A reflexive relation that follows edges. */
  ghost predicate Follows(g: Adjacency, r: Relation) {
    (forall u: nat :: r(u, u)) && forall u: nat, v: nat, w: nat :: r(u, v) && Edge(g, v, w) ==> r(u, w)
  }

  // ---------------------------------------------------------------- the invariant

  /** Frames are gray, finished vertices black, each at its place; visited means not white. */
  ghost predicate Placed(n: nat, stack: seq<Frame>, visited: seq<bool>, post: seq<nat>, place: seq<Place>) {
    && |visited| == |place| == n
    && (forall v :: 0 <= v < n ==> (visited[v] <==> place[v] != White))
    && (forall m :: 0 <= m < |stack| ==> stack[m].0 < n && place[stack[m].0] == Gray(m))
    && (forall v :: 0 <= v < n && place[v].Gray? ==> place[v].m < |stack| && stack[place[v].m].0 == v)
    && (forall k :: 0 <= k < |post| ==> post[k] < n && place[post[k]] == Black(k))
    && (forall v :: 0 <= v < n && place[v].Black? ==> place[v].k < |post| && post[place[v].k] == v)
  }

  /** The stack is a path from the root, whose passed successors are not white. */
  ghost predicate Stacked(g: Adjacency, root: nat, stack: seq<Frame>, post: seq<nat>, place: seq<Place>) {
    && |place| == |g| && root < |g|
    && (forall m :: 0 <= m < |stack| ==> stack[m].0 < |g| && stack[m].1 <= |g[stack[m].0]|)
    && (if stack != [] then stack[0].0 == root else place[root].Black? && place[root].k == |post| - 1)
    && (forall m :: 0 < m < |stack| ==> Edge(g, stack[m - 1].0, stack[m].0))
    && (forall m, i :: 0 <= m < |stack| && 0 <= i < stack[m].1 ==>
      g[stack[m].0][i] < |g| && place[g[stack[m].0][i]] != White)
  }

  /** w finished before position k, or leads back to v. */
  ghost predicate Earlier(r: Relation, place: seq<Place>, k: nat, v: nat, w: nat) {
    w < |place| && place[w] != White && ((place[w].Black? && place[w].k < k) || r(w, v))
  }

  /** A successor of a finished vertex finished before it, or leads back to it. */
  ghost predicate Ordered(g: Adjacency, r: Relation, post: seq<nat>, place: seq<Place>) {
    && |place| == |g|
    && forall k, i :: 0 <= k < |post| && post[k] < |g| && 0 <= i < |g[post[k]]| ==>
      Earlier(r, place, k, post[k], g[post[k]][i])
  }

  /** Every finished vertex but the root has a predecessor that is gray or finished later. */
  ghost predicate Parented(g: Adjacency, root: nat, place: seq<Place>, parent: seq<nat>) {
    |place| == |parent| == |g| && forall v: nat :: v < |g| && place[v].Black? && v != root ==>
      && Edge(g, parent[v], v)
      && (place[parent[v]].Gray? || (place[parent[v]].Black? && place[parent[v]].k > place[v].k))
  }

  ghost predicate Reached(root: nat, r: Relation, place: seq<Place>) {
    forall v: nat :: v < |place| && place[v] != White ==> r(root, v)
  }

  ghost predicate Exploring(g: Adjacency, root: nat, r: Relation, stack: seq<Frame>, visited: seq<bool>, post: seq<nat>,
                            place: seq<Place>, parent: seq<nat>) {
    && Placed(|g|, stack, visited, post, place) && Stacked(g, root, stack, post, place)
    && Ordered(g, r, post, place) && Parented(g, root, place, parent) && Reached(root, r, place)
  }

  // ---------------------------------------------------------------- the three moves

  function Advanced(stack: seq<Frame>): (t: seq<Frame>)
    requires stack != []
    ensures |t| == |stack|
  {
    stack[|stack| - 1 := (stack[|stack| - 1].0, stack[|stack| - 1].1 + 1)]
  }

  lemma Skip(g: Adjacency, root: nat, r: Relation, stack: seq<Frame>, visited: seq<bool>, post: seq<nat>,
             place: seq<Place>, parent: seq<nat>, v: nat, i: nat, w: nat)
    requires Exploring(g, root, r, stack, visited, post, place, parent) && stack != [] && stack[|stack| - 1] == (v, i)
    requires v < |g| && i < |g[v]| && g[v][i] == w && w < |g| && visited[w]
    ensures Exploring(g, root, r, Advanced(stack), visited, post, place, parent)
  {
  }

  lemma PushPlaced(n: nat, stack: seq<Frame>, visited: seq<bool>, post: seq<nat>, place: seq<Place>, w: nat)
    requires Placed(n, stack, visited, post, place) && stack != [] && w < n && !visited[w]
    ensures Placed(n, Advanced(stack) + [(w, 0)], visited[w := true], post, place[w := Gray(|stack|)])
  {
  }

  lemma PushStacked(g: Adjacency, root: nat, stack: seq<Frame>, post: seq<nat>, place: seq<Place>, v: nat, i: nat,
                    w: nat)
    requires Stacked(g, root, stack, post, place) && stack != [] && stack[|stack| - 1] == (v, i)
    requires v < |g| && i < |g[v]| && g[v][i] == w && w < |g|
    ensures Stacked(g, root, Advanced(stack) + [(w, 0)], post, place[w := Gray(|stack|)])
  {
    assert Edge(g, v, w);
  }

  lemma PushOrdered(g: Adjacency, root: nat, r: Relation, post: seq<nat>, place: seq<Place>, parent: seq<nat>,
                    m: nat, w: nat)
    requires Ordered(g, r, post, place) && Parented(g, root, place, parent) && w < |g| && place[w] == White
    ensures Ordered(g, r, post, place[w := Gray(m)]) && Parented(g, root, place[w := Gray(m)], parent)
  {
  }

  lemma Push(g: Adjacency, root: nat, r: Relation, stack: seq<Frame>, visited: seq<bool>, post: seq<nat>,
             place: seq<Place>, parent: seq<nat>, v: nat, i: nat, w: nat)
    requires Exploring(g, root, r, stack, visited, post, place, parent) && stack != [] && stack[|stack| - 1] == (v, i)
    requires Follows(g, r) && v < |g| && i < |g[v]| && g[v][i] == w && w < |g| && !visited[w]
    ensures Exploring(g, root, r, Advanced(stack) + [(w, 0)], visited[w := true], post, place[w := Gray(|stack|)],
            parent)
  {
    assert Edge(g, v, w) && place[v] == Gray(|stack| - 1) && r(root, v);
    PushPlaced(|g|, stack, visited, post, place, w);
    PushStacked(g, root, stack, post, place, v, i, w);
    PushOrdered(g, root, r, post, place, parent, |stack|, w);
  }

  /** Lower frames lead to the top one. */
  lemma {:induction false} StackPath(g: Adjacency, r: Relation, stack: seq<Frame>, m: nat, n: nat)
    requires Follows(g, r) && m <= n < |stack|
    requires forall m :: 0 < m < |stack| ==> Edge(g, stack[m - 1].0, stack[m].0)
    ensures r(stack[m].0, stack[n].0)
  {
    if m < n {
      StackPath(g, r, stack, m, n - 1);
    }
  }

  lemma PopOrdered(g: Adjacency, root: nat, r: Relation, stack: seq<Frame>, visited: seq<bool>, post: seq<nat>,
                   place: seq<Place>, parent: seq<nat>, v: nat)
    requires Exploring(g, root, r, stack, visited, post, place, parent) && stack != [] && Follows(g, r)
    requires v < |g| && stack[|stack| - 1] == (v, |g[v]|)
    ensures Ordered(g, r, post + [v], place[v := Black(|post|)])
  {
    var m, place' := |stack| - 1, place[v := Black(|post|)];
    assert place[v] == Gray(m);
    forall i | 0 <= i < |g[v]| ensures Earlier(r, place', |post|, v, g[v][i]) {
      var w := g[v][i];
      assert g[stack[m].0][i] == w;
      if place[w].Gray? {
        StackPath(g, r, stack, place[w].m, m);
      }
    }
  }

  lemma PopPlaced(n: nat, stack: seq<Frame>, visited: seq<bool>, post: seq<nat>, place: seq<Place>, v: nat)
    requires Placed(n, stack, visited, post, place) && stack != [] && stack[|stack| - 1].0 == v && v < n
    ensures Placed(n, stack[..|stack| - 1], visited, post + [v], place[v := Black(|post|)])
  {
    var t, place' := stack[..|stack| - 1], place[v := Black(|post|)];
    assert place[v] == Gray(|stack| - 1);
    forall x | 0 <= x < n && place'[x].Gray? ensures place'[x].m < |t| && t[place'[x].m].0 == x {
      assert stack[place[x].m].0 == x;
    }
  }

  lemma PopStacked(g: Adjacency, root: nat, stack: seq<Frame>, post: seq<nat>, place: seq<Place>, v: nat)
    requires Stacked(g, root, stack, post, place) && stack != [] && stack[|stack| - 1].0 == v && v < |g|
    ensures Stacked(g, root, stack[..|stack| - 1], post + [v], place[v := Black(|post|)])
  {
  }

  lemma PopParented(g: Adjacency, root: nat, stack: seq<Frame>, visited: seq<bool>, post: seq<nat>,
                    place: seq<Place>, parent: seq<nat>, v: nat)
    returns (parent': seq<nat>)
    requires Parented(g, root, place, parent) && Placed(|g|, stack, visited, post, place)
             && Stacked(g, root, stack, post, place)
    requires stack != [] && stack[|stack| - 1].0 == v && v < |g|
    ensures Parented(g, root, place[v := Black(|post|)], parent')
  {
    var m := |stack| - 1;
    parent' := if m > 0 then parent[v := stack[m - 1].0] else parent;
    assert place[v] == Gray(m);
    if m > 0 {
      assert place[stack[m - 1].0] == Gray(m - 1) && Edge(g, stack[m - 1].0, stack[m].0);
    }
  }

  lemma Pop(g: Adjacency, root: nat, r: Relation, stack: seq<Frame>, visited: seq<bool>, post: seq<nat>,
            place: seq<Place>, parent: seq<nat>, v: nat)
    returns (parent': seq<nat>)
    requires Exploring(g, root, r, stack, visited, post, place, parent) && stack != [] && Follows(g, r)
    requires v < |g| && stack[|stack| - 1] == (v, |g[v]|)
    ensures Exploring(g, root, r, stack[..|stack| - 1], visited, post + [v], place[v := Black(|post|)], parent')
  {
    PopPlaced(|g|, stack, visited, post, place, v);
    PopStacked(g, root, stack, post, place, v);
    PopOrdered(g, root, r, stack, visited, post, place, parent, v);
    parent' := PopParented(g, root, stack, visited, post, place, parent, v);
    assert r(root, v) by {
      assert place[v] == Gray(|stack| - 1);
    }
  }

  // ---------------------------------------------------------------- the search

  ghost function Pairs(g: Adjacency): Relation {
    (u: nat, v: nat) => Reaches(g, u, v)
  }

  lemma PairsFollow(g: Adjacency)
    ensures Follows(g, Pairs(g))
  {
    forall u: nat ensures Reaches(g, u, u) {
      ReachesSelf(g, u);
    }
    forall u: nat, v: nat, w: nat | Reaches(g, u, v) && Edge(g, v, w) ensures Reaches(g, u, w) {
      ReachesOn(g, u, v, w);
    }
  }

  /** Successors of the frames still to be looked at. */
  ghost function Pending(g: Adjacency, stack: seq<Frame>): int {
    if stack == [] then 0 else
      var (v, i) := stack[|stack| - 1];
      Pending(g, stack[..|stack| - 1]) + (if v < |g| then |g[v]| - i else 0)
  }

  lemma PendingTop(g: Adjacency, stack: seq<Frame>)
    requires stack != []
    ensures var (v, i) := stack[|stack| - 1];
            Pending(g, Advanced(stack)) == Pending(g, stack) - (if v < |g| then 1 else 0)
  {
    assert Advanced(stack)[..|stack| - 1] == stack[..|stack| - 1];
  }

  lemma {:induction false} PendingNat(g: Adjacency, stack: seq<Frame>)
    requires forall m :: 0 <= m < |stack| ==> stack[m].0 < |g| && stack[m].1 <= |g[stack[m].0]|
    ensures Pending(g, stack) >= 0
  {
    if stack != [] {
      PendingNat(g, stack[..|stack| - 1]);
    }
  }

  lemma Starts(g: Adjacency, root: nat, r: Relation, visited: seq<bool>)
    requires root < |g| == |visited| && Follows(g, r)
    requires forall v :: 0 <= v < |g| ==> visited[v] == (v == root)
    ensures var place := seq(|g|, v => if v == root then Gray(0) else White);
            Exploring(g, root, r, [(root, 0)], visited, [], place, seq(|g|, v => 0))
  {
  }

  ghost predicate Settling(g: Adjacency, root: nat, stack: seq<Frame>, visited: seq<bool>, post: seq<nat>,
                           place: seq<Place>, parent: seq<nat>) {
    Exploring(g, root, Pairs(g), stack, visited, post, place, parent)
  }

  /** What every turn of the loop decreases. */
  ghost predicate Progress(g: Adjacency, stack: seq<Frame>, visited: seq<bool>, stack': seq<Frame>,
                           visited': seq<bool>) {
    || Unseen(visited') < Unseen(visited)
    || (visited' == visited && 0 <= Pending(g, stack') < Pending(g, stack))
    || (visited' == visited && Pending(g, stack') == Pending(g, stack) && |stack'| < |stack|)
  }

  /** One turn: look at the next successor of the top frame, or finish it. */
  method Turn(g: Adjacency, ghost root: nat, visited: array<bool>, stack: seq<Frame>, post: seq<nat>,
              ghost place: seq<Place>, ghost parent: seq<nat>)
    returns (stack': seq<Frame>, post': seq<nat>, ghost place': seq<Place>, ghost parent': seq<nat>)
    requires InRange(g) && stack != [] && Settling(g, root, stack, visited[..], post, place, parent)
    modifies visited
    ensures Settling(g, root, stack', visited[..], post', place', parent')
    ensures Progress(g, stack, old(visited[..]), stack', visited[..])
  {
    ghost var r := Pairs(g);
    PairsFollow(g);
    var (v, i) := stack[|stack| - 1];
    PendingTop(g, stack);
    stack', post', place', parent' := stack[|stack| - 1 := (v, i + 1)], post, place, parent;
    if i < |g[v]| {
      var w := g[v][i];
      if !visited[w] {
        Push(g, root, r, stack, visited[..], post, place, parent, v, i, w);
        SeeOne(visited[..], w);
        ghost var was := visited[..];
        visited[w] := true;
        assert visited[..] == was[w := true];
        stack', place' := stack' + [(w, 0)], place[w := Gray(|stack|)];
      } else {
        Skip(g, root, r, stack, visited[..], post, place, parent, v, i, w);
        PendingNat(g, stack');
      }
    } else {
      parent' := Pop(g, root, r, stack, visited[..], post, place, parent, v);
      stack', post', place' := stack[..|stack| - 1], post + [v], place[v := Black(|post|)];
    }
  }

  /** The depth-first search; the list is in order of finishing. */
  method Finish(g: Adjacency, root: nat)
    returns (post: seq<nat>, ghost place: seq<Place>, ghost parent: seq<nat>, ghost seen: seq<bool>)
    requires InRange(g) && root < |g|
    ensures Settling(g, root, [], seen, post, place, parent)
  {
    var visited := new bool[|g|](_ => false);
    post := [];
    var stack: seq<Frame> := [(root, 0)];
    visited[root] := true;
    PairsFollow(g);
    Starts(g, root, Pairs(g), visited[..]);
    place := seq(|g|, v => if v == root then Gray(0) else White);
    parent := seq(|g|, v => 0);
    while stack != []
      invariant Settling(g, root, stack, visited[..], post, place, parent)
      decreases Unseen(visited[..]), Pending(g, stack), |stack|
    {
      stack, post, place, parent := Turn(g, root, visited, stack, post, place, parent);
    }
    seen := visited[..];
  }

  // ---------------------------------------------------------------- what the order says

  /** order lists the vertices reached from root, root first, and idx inverts it. */
  ghost predicate Lists(g: Adjacency, root: nat, order: seq<nat>, idx: seq<nat>) {
    && |idx| == |g| && order != [] && order[0] == root
    && (forall v: nat :: v in order <==> v < |g| && Reaches(g, root, v))
    && (forall i :: 0 <= i < |order| ==> order[i] < |g| && idx[order[i]] == i)
    && (forall v: nat :: v < |g| && v !in order ==> idx[v] == ABSENT)
  }

  ghost predicate Preceded(g: Adjacency, order: seq<nat>, i: nat)
    requires i < |order|
  {
    exists j :: 0 <= j < i && order[j] < |g| && order[i] in g[order[j]]
  }

  /** Every vertex but the root comes after one of its predecessors. */
  ghost predicate Rooted(g: Adjacency, order: seq<nat>) {
    forall i :: 0 < i < |order| ==> Preceded(g, order, i)
  }

  /** An edge between reached vertices goes forward unless it closes a cycle. */
  ghost predicate Forward(g: Adjacency, root: nat, idx: seq<nat>) {
    |idx| == |g| && forall u: nat, w: nat ::
      u < |g| && w < |g| && w in g[u] && Reaches(g, root, u) && !Reaches(g, w, u) ==>
      idx[u] < idx[w]
  }

  function Reverse(s: seq<nat>): (r: seq<nat>)
    ensures |r| == |s| && forall i :: 0 <= i < |s| ==> r[i] == s[|s| - 1 - i]
  {
    if s == [] then [] else [s[|s| - 1]] + Reverse(s[..|s| - 1])
  }

  lemma AllFinished(g: Adjacency, root: nat, visited: seq<bool>, post: seq<nat>, place: seq<Place>, parent: seq<nat>)
    requires InRange(g) && Settling(g, root, [], visited, post, place, parent)
    ensures forall v: nat :: v < |g| ==> (place[v].Black? <==> Reaches(g, root, v)) && place[v] != White ==>
            place[v].Black?
    ensures forall v: nat :: v in post <==> v < |g| && Reaches(g, root, v)
  {
    var c := (v: nat) => v < |g| && place[v].Black?;
    forall u: nat, v: nat | c(u) && Edge(g, u, v) ensures c(v) {
      var i :| 0 <= i < |g[u]| && g[u][i] == v;
      assert post[place[u].k] == u;
      assert Earlier(Pairs(g), place, place[u].k, u, g[u][i]);
    }
    forall v: nat ensures v in post <==> v < |g| && Reaches(g, root, v) {
      if v < |g| && Reaches(g, root, v) {
        var k: nat :| Steps(g, root, k, v);
        StaysClosed(g, root, c, k, v);
        assert post[place[v].k] == v;
      }
      if v in post {
        assert place[v] != White;
        assert Pairs(g)(root, v);
      }
    }
  }

  lemma ReverseMembers(s: seq<nat>, v: nat)
    ensures v in Reverse(s) <==> v in s
  {
    var r, n := Reverse(s), |s|;
    if v in r {
      var i :| 0 <= i < n && r[i] == v;
      assert s[n - 1 - i] == v;
    }
    if v in s {
      var k :| 0 <= k < n && s[k] == v;
      assert r[n - 1 - k] == v;
    }
  }

  lemma OrderFacts(g: Adjacency, root: nat, visited: seq<bool>, post: seq<nat>, place: seq<Place>, parent: seq<nat>,
                   order: seq<nat>, idx: seq<nat>)
    requires InRange(g) && Settling(g, root, [], visited, post, place, parent) && order == Reverse(post)
    requires |idx| == |g| && (forall i :: 0 <= i < |order| ==> order[i] < |g| && idx[order[i]] == i)
    requires forall v: nat :: v < |g| && v !in order ==> idx[v] == ABSENT
    ensures Lists(g, root, order, idx)
  {
    AllFinished(g, root, visited, post, place, parent);
    forall v: nat ensures v in order <==> v < |g| && Reaches(g, root, v) {
      ReverseMembers(post, v);
    }
    assert post[place[root].k] == root;
  }

  /** What the reversed list is, in terms of the finishing places. */
  ghost predicate Reversed(n: nat, post: seq<nat>, place: seq<Place>, order: seq<nat>) {
    && |place| == n && |order| == |post|
    && (forall i :: 0 <= i < |order| ==> order[i] < n && place[order[i]] == Black(|post| - 1 - i))
    && (forall v :: 0 <= v < n && place[v].Black? ==> place[v].k < |post| && order[|post| - 1 - place[v].k] == v)
  }

  lemma ReversedPlaces(g: Adjacency, root: nat, visited: seq<bool>, post: seq<nat>, place: seq<Place>, parent: seq<nat>)
    requires Settling(g, root, [], visited, post, place, parent)
    ensures Reversed(|g|, post, place, Reverse(post)) && Parented(g, root, place, parent)
    ensures root < |g| && place[root].Black? && place[root].k == |post| - 1
    ensures forall v :: 0 <= v < |g| ==> !place[v].Gray?
  {
    assert Placed(|g|, [], visited, post, place);
  }

  lemma ParentBefore(g: Adjacency, root: nat, post: seq<nat>, place: seq<Place>, parent: seq<nat>, order: seq<nat>,
                     i: nat)
    requires Reversed(|g|, post, place, order) && Parented(g, root, place, parent) && 0 < i < |order|
    requires root < |g| && place[root].Black? && place[root].k == |post| - 1
    requires forall v :: 0 <= v < |g| ==> !place[v].Gray?
    ensures Preceded(g, order, i)
  {
    var v := order[i];
    assert place[v] == Black(|post| - 1 - i);
    var p := parent[v];
    var j := |post| - 1 - place[p].k;
    assert order[j] == p && j < i;
  }

  lemma OrderRooted(g: Adjacency, root: nat, visited: seq<bool>, post: seq<nat>, place: seq<Place>, parent: seq<nat>,
                    order: seq<nat>)
    requires Settling(g, root, [], visited, post, place, parent) && order == Reverse(post)
    ensures Rooted(g, order)
  {
    ReversedPlaces(g, root, visited, post, place, parent);
    forall i | 0 < i < |order| ensures Preceded(g, order, i) {
      ParentBefore(g, root, post, place, parent, order, i);
    }
  }

  lemma EdgeForward(g: Adjacency, r: Relation, post: seq<nat>, place: seq<Place>, order: seq<nat>, idx: seq<nat>,
                    k: nat, i: nat)
    requires Reversed(|g|, post, place, order) && Ordered(g, r, post, place) && k < |post| && post[k] < |g|
             && i < |g[post[k]]|
    requires place[post[k]] == Black(k)
    requires |idx| == |g| && forall i :: 0 <= i < |order| ==> order[i] < |g| && idx[order[i]] == i
    requires (forall v :: 0 <= v < |g| ==> !place[v].Gray?) && !r(g[post[k]][i], post[k])
    ensures g[post[k]][i] < |g| && idx[post[k]] < idx[g[post[k]][i]]
  {
    var u, w, n := post[k], g[post[k]][i], |post|;
    assert Earlier(r, place, k, u, w);
    assert order[n - 1 - k] == u && order[n - 1 - place[w].k] == w;
  }

  lemma OrderForward(g: Adjacency, root: nat, visited: seq<bool>, post: seq<nat>, place: seq<Place>, parent: seq<nat>,
                     order: seq<nat>, idx: seq<nat>)
    requires InRange(g) && Settling(g, root, [], visited, post, place, parent) && order == Reverse(post)
    requires |idx| == |g| && forall i :: 0 <= i < |order| ==> order[i] < |g| && idx[order[i]] == i
    ensures Forward(g, root, idx)
  {
    AllFinished(g, root, visited, post, place, parent);
    ReversedPlaces(g, root, visited, post, place, parent);
    var r := Pairs(g);
    assert Ordered(g, r, post, place) && Placed(|g|, [], visited, post, place);
    forall u: nat, w: nat | u < |g| && w < |g| && w in g[u] && Reaches(g, root, u) && !Reaches(g, w, u)
      ensures idx[u] < idx[w]
    {
      var i :| 0 <= i < |g[u]| && g[u][i] == w;
      EdgeForward(g, r, post, place, order, idx, place[u].k, i);
    }
  }

  /** The positions in a list without repetitions. */
  method Index(order: seq<nat>, n: nat) returns (idx: seq<nat>)
    requires (forall i :: 0 <= i < |order| ==> order[i] < n) && forall i, j :: 0 <= i < j < |order| ==>
             order[i] != order[j]
    ensures |idx| == n && forall i :: 0 <= i < |order| ==> idx[order[i]] == i
    ensures forall v: nat :: v < n && v !in order ==> idx[v] == ABSENT
  {
    var index := new nat[n](_ => ABSENT);
    for i := 0 to |order|
      invariant forall k :: 0 <= k < i ==> index[order[k]] == k
      invariant forall v: nat :: v < n && v !in order ==> index[v] == ABSENT
    {
      index[order[i]] := i;
    }
    idx := index[..];
  }

  /** Reverse postorder of the vertices reached from root. */
  method ReversePostorder(g: Adjacency, root: nat) returns (order: seq<nat>, idx: seq<nat>)
    requires InRange(g) && root < |g|
    ensures Lists(g, root, order, idx) && Rooted(g, order) && Forward(g, root, idx)
  {
    var post, place, parent, seen := Finish(g, root);
    order := Reverse(post);
    OrderDistinct(g, root, seen, post, place, parent, order);
    idx := Index(order, |g|);
    OrderFacts(g, root, seen, post, place, parent, order, idx);
    OrderRooted(g, root, seen, post, place, parent, order);
    OrderForward(g, root, seen, post, place, parent, order, idx);
  }

  lemma OrderDistinct(g: Adjacency, root: nat, visited: seq<bool>, post: seq<nat>, place: seq<Place>,
                      parent: seq<nat>, order: seq<nat>)
    requires Settling(g, root, [], visited, post, place, parent) && order == Reverse(post)
    ensures (forall i :: 0 <= i < |order| ==> order[i] < |g|) && forall i, j :: 0 <= i < j < |order| ==>
            order[i] != order[j]
  {
    forall i | 0 <= i < |order| ensures order[i] < |g| && place[order[i]] == Black(|post| - 1 - i) {
    }
  }

  /** On an acyclic reached part every edge goes forward: a topological order. */
  lemma Topological(g: Adjacency, root: nat, order: seq<nat>, idx: seq<nat>, u: nat, w: nat)
    requires InRange(g) && Lists(g, root, order, idx) && Forward(g, root, idx)
    requires forall x: nat, y: nat :: Reaches(g, root, x) && Edge(g, x, y) ==> !Reaches(g, y, x)
    requires u in order && Edge(g, u, w)
    ensures w in order && idx[u] < idx[w]
  {
    ReachesOn(g, root, u, w);
    var i :| 0 <= i < |g[u]| && g[u][i] == w;
    assert !Reaches(g, w, u);
  }
}
