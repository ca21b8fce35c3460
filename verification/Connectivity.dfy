/** Being connected by a set of undirected links, and partitions that represent it. */
module Connectivity {
  type Links = set<(nat, nat)>

  predicate Joined(e: Links, u: nat, v: nat) {
    (u, v) in e || (v, u) in e
  }

  /** k links lead from u to v. */
  ghost predicate Chain(e: Links, u: nat, k: nat, v: nat) {
    if k == 0 then u == v else exists w: nat :: Joined(e, w, v) && Chain(e, u, k - 1, w)
  }

  ghost predicate Linked(e: Links, u: nat, v: nat) {
    exists k: nat :: Chain(e, u, k, v)
  }

  lemma LinkedSelf(e: Links, u: nat)
    ensures Linked(e, u, u)
  {
    assert Chain(e, u, 0, u);
  }

  lemma LinkedOn(e: Links, u: nat, v: nat, w: nat)
    requires Linked(e, u, v) && Joined(e, v, w)
    ensures Linked(e, u, w)
  {
    var k: nat :| Chain(e, u, k, v);
    assert Chain(e, u, k + 1, w);
  }

  lemma {:induction false} LinkedChain(e: Links, u: nat, v: nat, k: nat, w: nat)
    requires Linked(e, u, v) && Chain(e, v, k, w)
    ensures Linked(e, u, w)
  {
    if k > 0 {
      var x: nat :| Joined(e, x, w) && Chain(e, v, k - 1, x);
      LinkedChain(e, u, v, k - 1, x);
      LinkedOn(e, u, x, w);
    }
  }

  lemma LinkedTransitive(e: Links, u: nat, v: nat, w: nat)
    requires Linked(e, u, v) && Linked(e, v, w)
    ensures Linked(e, u, w)
  {
    var k: nat :| Chain(e, v, k, w);
    LinkedChain(e, u, v, k, w);
  }

  lemma {:induction false} ChainGrows(e: Links, f: Links, u: nat, k: nat, v: nat)
    requires e <= f && Chain(e, u, k, v)
    ensures Linked(f, u, v)
  {
    if k == 0 {
      LinkedSelf(f, u);
    } else {
      var w: nat :| Joined(e, w, v) && Chain(e, u, k - 1, w);
      ChainGrows(e, f, u, k - 1, w);
      LinkedOn(f, u, w, v);
    }
  }

  lemma LinkedGrows(e: Links, f: Links, u: nat, v: nat)
    requires e <= f && Linked(e, u, v)
    ensures Linked(f, u, v)
  {
    var k: nat :| Chain(e, u, k, v);
    ChainGrows(e, f, u, k, v);
  }

  /** Connected already, or through the new link one way or the other. */
  ghost predicate Bridged(e: Links, a: nat, b: nat, u: nat, v: nat) {
    Linked(e, u, v) || (Linked(e, u, a) && Linked(e, b, v)) || (Linked(e, u, b) && Linked(e, a, v))
  }

  lemma {:induction false} ChainBridged(e: Links, a: nat, b: nat, u: nat, k: nat, v: nat)
    requires Chain(e + {(a, b)}, u, k, v)
    ensures Bridged(e, a, b, u, v)
  {
    if k == 0 {
      LinkedSelf(e, u);
    } else {
      var w: nat :| Joined(e + {(a, b)}, w, v) && Chain(e + {(a, b)}, u, k - 1, w);
      ChainBridged(e, a, b, u, k - 1, w);
      BridgeOn(e, a, b, u, w, v);
    }
  }

  lemma BridgeOn(e: Links, a: nat, b: nat, u: nat, w: nat, v: nat)
    requires Bridged(e, a, b, u, w) && Joined(e + {(a, b)}, w, v)
    ensures Bridged(e, a, b, u, v)
  {
    LinkedSelf(e, a);
    LinkedSelf(e, b);
    if Joined(e, w, v) {
      if Linked(e, u, w) {
        LinkedOn(e, u, w, v);
      } else if Linked(e, u, a) && Linked(e, b, w) {
        LinkedOn(e, b, w, v);
      } else {
        LinkedOn(e, a, w, v);
      }
    } else {
      assert (w == a && v == b) || (w == b && v == a);
    }
  }

  /** What one more link connects. */
  lemma AddLink(e: Links, a: nat, b: nat, u: nat, v: nat)
    ensures Linked(e + {(a, b)}, u, v) <==> Bridged(e, a, b, u, v)
  {
    var f := e + {(a, b)};
    if Linked(f, u, v) {
      var k: nat :| Chain(f, u, k, v);
      ChainBridged(e, a, b, u, k, v);
    }
    if Bridged(e, a, b, u, v) {
      if Linked(e, u, v) {
        LinkedGrows(e, f, u, v);
      } else if Linked(e, u, a) && Linked(e, b, v) {
        LinkedGrows(e, f, u, a);
        LinkedGrows(e, f, b, v);
        assert Joined(f, a, b);
        LinkedOn(f, u, a, b);
        LinkedTransitive(f, u, b, v);
      } else {
        LinkedGrows(e, f, u, b);
        LinkedGrows(e, f, a, v);
        assert Joined(f, b, a);
        LinkedOn(f, u, b, a);
        LinkedTransitive(f, u, a, v);
      }
    }
  }

  // ---------------------------------------------------------------- partitions

  /** Equal entries mean connected. */
  ghost predicate Represents(root: seq<nat>, e: Links) {
    forall u: nat, v: nat :: u < |root| && v < |root| ==> (root[u] == root[v] <==> Linked(e, u, v))
  }

  /** root with one representative replaced by another. */
  ghost function Moved(root: seq<nat>, from: nat, to: nat): (r: seq<nat>)
    ensures |r| == |root| && forall x :: 0 <= x < |root| ==> r[x] == if root[x] == from then to else root[x]
  {
    seq(|root|, x requires 0 <= x < |root| => if root[x] == from then to else root[x])
  }

  /** root with the class of b moved into the class of a. */
  ghost predicate Merged(root: seq<nat>, root': seq<nat>, a: nat, b: nat)
    requires a < |root| && b < |root|
  {
    && |root'| == |root|
    && forall x :: 0 <= x < |root| ==> root'[x] == if root[x] == root[b] then root[a] else root[x]
  }

  lemma MergeRepresents(root: seq<nat>, root': seq<nat>, e: Links, a: nat, b: nat)
    requires a < |root| && b < |root| && Represents(root, e)
    requires Merged(root, root', a, b) || Merged(root, root', b, a)
    ensures Represents(root', e + {(a, b)})
  {
    forall u: nat, v: nat | u < |root| && v < |root| ensures root'[u] == root'[v] <==> Linked(e + {(a, b)}, u, v) {
      AddLink(e, a, b, u, v);
      assert Linked(e, u, v) <==> root[u] == root[v];
      assert Linked(e, u, a) <==> root[u] == root[a];
      assert Linked(e, u, b) <==> root[u] == root[b];
      assert Linked(e, a, v) <==> root[a] == root[v];
      assert Linked(e, b, v) <==> root[b] == root[v];
    }
  }

  lemma NothingLinked(u: nat, v: nat)
    ensures Linked({}, u, v) <==> u == v
  {
    if u == v {
      LinkedSelf({}, u);
    }
    if Linked({}, u, v) {
      var k: nat :| Chain({}, u, k, v);
    }
  }

  lemma IdentityRepresents(root: seq<nat>)
    requires forall x :: 0 <= x < |root| ==> root[x] == x
    ensures Represents(root, {})
  {
    forall u: nat, v: nat | u < |root| && v < |root| ensures root[u] == root[v] <==> Linked({}, u, v) {
      NothingLinked(u, v);
    }
  }

  // ---------------------------------------------------------------- contiguous labels

  /** One more than the largest label. */
  function Fresh(l: seq<nat>): nat {
    if l == [] then 0 else
      var f := Fresh(l[..|l| - 1]);
      if l[|l| - 1] >= f then l[|l| - 1] + 1 else f
  }

  /** Every label is an earlier one or the next unused number. */
  ghost predicate Numbered(l: seq<nat>) {
    forall x :: 0 <= x < |l| ==> l[x] <= Fresh(l[..x])
  }

  /** No number is skipped. */
  lemma {:induction false} FreshUsed(l: seq<nat>, a: nat)
    requires Numbered(l) && a < Fresh(l)
    ensures a in l
  {
    var init := l[..|l| - 1];
    forall x | 0 <= x < |init| ensures init[x] <= Fresh(init[..x]) {
      assert init[..x] == l[..x];
    }
    if a < Fresh(init) {
      FreshUsed(init, a);
    } else {
      assert l[|l| - 1] == a;
    }
  }

  /** A partition has only one contiguous labelling in order of first appearance. */
  lemma {:induction false} LabelsUnique(l: seq<nat>, m: seq<nat>, e: Links, k: nat)
    requires |l| == |m| && Numbered(l) && Numbered(m) && Represents(l, e) && Represents(m, e) && k <= |l|
    ensures l[..k] == m[..k]
  {
    if k > 0 {
      LabelsUnique(l, m, e, k - 1);
      SameNext(l, m, e, k - 1);
      SamePrefix(l, m, k - 1);
    }
  }

  lemma SamePrefix(l: seq<nat>, m: seq<nat>, k: nat)
    requires k < |l| && k < |m| && l[..k] == m[..k] && l[k] == m[k]
    ensures l[..k + 1] == m[..k + 1]
  {
    assert l[..k + 1] == l[..k] + [l[k]] && m[..k + 1] == m[..k] + [m[k]];
  }

  lemma SameNext(l: seq<nat>, m: seq<nat>, e: Links, k: nat)
    requires |l| == |m| && Numbered(l) && Numbered(m) && Represents(l, e) && Represents(m, e) && k < |l|
             && l[..k] == m[..k]
    ensures l[k] == m[k]
  {
    if l[k] < Fresh(l[..k]) {
      Repeats(l, m, e, k);
    } else if m[k] < Fresh(m[..k]) {
      Repeats(m, l, e, k);
    }
  }

  lemma Repeats(l: seq<nat>, m: seq<nat>, e: Links, k: nat)
    requires |l| == |m| && Numbered(l) && Represents(l, e) && Represents(m, e) && k < |l| && l[..k] == m[..k]
    requires l[k] < Fresh(l[..k])
    ensures l[k] == m[k]
  {
    var p := l[..k];
    forall x | 0 <= x < |p| ensures p[x] <= Fresh(p[..x]) {
      assert p[..x] == l[..x];
    }
    FreshUsed(p, l[k]);
    var y: nat :| y < k && p[y] == l[k];
    assert l[y] == l[k] <==> Linked(e, y, k);
    assert m[y] == m[k] <==> Linked(e, y, k);
    assert m[y] == m[..k][y];
  }
}
