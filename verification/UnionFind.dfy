module UnionFinds {
  // Union by size with path halving: the classes are the connected components of the requested
  // unions, finds are logarithmic, and the labels do not depend on the order of the unions.

  import opened Common
  import opened Connectivity
  import opened BitMath

  /** x leads to its representative, and every link at least doubles the size. */
  ghost predicate Placed(parent: seq<nat>, size: seq<nat>, root: seq<nat>, x: nat) {
    && x < |parent| == |size| == |root| && parent[x] < |parent| && root[x] < |parent|
    && root[parent[x]] == root[x] && parent[root[x]] == root[x]
    && (parent[x] == x ==> root[x] == x)
    && (parent[x] != x ==> size[parent[x]] >= 2 * size[x])
    && 1 <= size[x] <= size[root[x]]
  }

  ghost predicate Forest(parent: seq<nat>, size: seq<nat>, root: seq<nat>) {
    && |parent| == |size| == |root|
    && forall x: nat {:trigger Placed(parent, size, root, x)} :: x < |parent| ==> Placed(parent, size, root, x)
  }

  ghost function Class(root: seq<nat>, r: nat): set<nat> {
    set y | 0 <= y < |root| && root[y] == r
  }

  /** A representative's size is the number of its members. */
  ghost predicate Sized(parent: seq<nat>, size: seq<nat>, root: seq<nat>) {
    |parent| == |size| && forall r :: 0 <= r < |parent| && parent[r] == r ==> size[r] == |Class(root, r)|
  }

  lemma SizeBound(parent: seq<nat>, size: seq<nat>, root: seq<nat>, x: nat)
    requires Forest(parent, size, root) && Sized(parent, size, root) && x < |parent|
    ensures Placed(parent, size, root, x) && size[x] <= |parent|
  {
    assert Placed(parent, size, root, x);
    SubsetSize(Class(root, root[x]), |parent|);
  }

  /** Pointing x at its grandparent keeps the forest and the representatives. */
  lemma Halve(parent: seq<nat>, size: seq<nat>, root: seq<nat>, x: nat, g: nat)
    requires Forest(parent, size, root) && x < |parent| && parent[x] != x
    requires parent[x] < |parent| && g == parent[parent[x]]
    ensures Forest(parent[x := g], size, root)
    ensures g < |parent| && root[g] == root[x] && size[g] >= 2 * size[x]
  {
    assert Placed(parent, size, root, x) && Placed(parent, size, root, parent[x]);
    var parent' := parent[x := g];
    forall y: nat | y < |parent| ensures Placed(parent', size, root, y) {
      assert Placed(parent, size, root, y);
    }
  }

  lemma LinkForest(parent: seq<nat>, size: seq<nat>, root: seq<nat>, ra: nat, rb: nat, root': seq<nat>)
    requires Forest(parent, size, root) && ra < |parent| && rb < |parent| && ra != rb
    requires parent[ra] == ra && parent[rb] == rb && size[ra] >= size[rb] && Merged(root, root', ra, rb)
    ensures Forest(parent[rb := ra], size[ra := size[ra] + size[rb]], root')
  {
    assert Placed(parent, size, root, ra) && Placed(parent, size, root, rb);
    var parent', size' := parent[rb := ra], size[ra := size[ra] + size[rb]];
    forall y: nat | y < |parent| ensures Placed(parent', size', root', y) {
      assert Placed(parent, size, root, y);
    }
  }

  lemma LinkSized(parent: seq<nat>, size: seq<nat>, root: seq<nat>, ra: nat, rb: nat, root': seq<nat>)
    requires |root| == |parent| && Sized(parent, size, root) && ra < |parent| && rb < |parent| && ra != rb
    requires parent[ra] == ra && parent[rb] == rb && root[ra] == ra && root[rb] == rb && Merged(root, root', ra, rb)
    ensures Sized(parent[rb := ra], size[ra := size[ra] + size[rb]], root')
  {
    assert Class(root', ra) == Class(root, ra) + Class(root, rb);
    forall r | 0 <= r < |parent| && parent[r] == r && r != ra && r != rb ensures Class(root', r) == Class(root, r) {
    }
  }

  /** Hanging the smaller representative under the larger one. */
  lemma LinkAll(parent: seq<nat>, size: seq<nat>, root: seq<nat>, joined: Links, a: nat, b: nat, ra: nat, rb: nat)
    requires Forest(parent, size, root) && Sized(parent, size, root) && Represents(root, joined)
    requires a < |parent| && b < |parent| && ra < |parent| && rb < |parent| && ra != rb && size[ra] >= size[rb]
    requires parent[ra] == ra && parent[rb] == rb && root[ra] == ra && root[rb] == rb
    requires (root[a] == ra && root[b] == rb) || (root[a] == rb && root[b] == ra)
    ensures Forest(parent[rb := ra], size[ra := size[ra] + size[rb]], Moved(root, rb, ra))
    ensures Sized(parent[rb := ra], size[ra := size[ra] + size[rb]], Moved(root, rb, ra))
    ensures Represents(Moved(root, rb, ra), joined + {(a, b)})
  {
    var root' := Moved(root, rb, ra);
    assert Merged(root, root', ra, rb);
    LinkForest(parent, size, root, ra, rb, root');
    LinkSized(parent, size, root, ra, rb, root');
    assert Merged(root, root', a, b) || Merged(root, root', b, a);
    MergeRepresents(root, root', joined, a, b);
  }

  class UnionFind {
    var parent: seq<nat>
    var size: seq<nat>
    ghost var root: seq<nat>
    ghost var joined: Links

    ghost predicate Valid()
      reads this
    {
      Forest(parent, size, root) && Sized(parent, size, root) && Represents(root, joined)
    }

    constructor (n: nat)
      ensures Valid() && |parent| == n && joined == {}
    {
      var ids := seq(n, i => i);
      parent, size, root, joined := ids, seq(n, i => 1), ids, {};
      new;
      IdentityRepresents(root);
      forall r | 0 <= r < n ensures Class(root, r) == {r} {
      }
      forall x: nat | x < n ensures Placed(parent, size, root, x) {
      }
    }

    /** The representative of x, in at most log2 of the number of addresses steps. */
    method Find(x: nat) returns (r: nat, ghost steps: nat)
      requires Valid() && x < |parent|
      modifies this`parent
      ensures Valid() && |parent| == old(|parent|)
      ensures r < |parent| == |root| == |size| && r == root[x] && parent[r] == r && Pow2(steps) <= |parent|
      ensures forall y :: 0 <= y < |parent| && old(parent[y]) == y ==> parent[y] == y
    {
      r := x;
      steps := 0;
      SizeBound(parent, size, root, x);
      while parent[r] != r
        invariant Forest(parent, size, root) && Sized(parent, size, root) && |parent| == old(|parent|)
        invariant r < |parent| && root[r] == root[x] && Pow2(steps) <= size[r]
        invariant forall y :: 0 <= y < |parent| && old(parent[y]) == y ==> parent[y] == y
        decreases |parent| - size[r]
      {
        SizeBound(parent, size, root, r);
        var g := parent[parent[r]];
        Halve(parent, size, root, r, g);
        SizeBound(parent, size, root, g);
        parent := parent[r := g];
        r := g;
        steps := steps + 1;
      }
      SizeBound(parent, size, root, r);
    }

    /** Connects a and b. */
    method Union(a: nat, b: nat)
      requires Valid() && a < |parent| && b < |parent|
      modifies this
      ensures Valid() && |parent| == old(|parent|) && joined == old(joined) + {(a, b)}
    {
      var ra, _ := Find(a);
      var rb, _ := Find(b);
      if ra == rb {
        MergeRepresents(root, root, joined, a, b);
        joined := joined + {(a, b)};
        return;
      }
      Link(a, b, ra, rb);
    }

    method Link(ghost a: nat, ghost b: nat, x: nat, y: nat)
      requires Valid() && a < |parent| && b < |parent| && x < |parent| && y < |parent| && x != y
      requires |root| == |size| == |parent| && root[a] == x && root[b] == y && parent[x] == x && parent[y] == y
      modifies this
      ensures Valid() && |parent| == old(|parent|) && joined == old(joined) + {(a, b)}
    {
      var ra, rb := x, y;
      if size[ra] < size[rb] {
        ra, rb := rb, ra;
      }
      SizeBound(parent, size, root, ra);
      SizeBound(parent, size, root, rb);
      LinkAll(parent, size, root, joined, a, b, ra, rb);
      parent := parent[rb := ra];
      size := size[ra := size[ra] + size[rb]];
      root, joined := Moved(root, rb, ra), joined + {(a, b)};
    }

    /** Contiguous ids by order of first appearance: equal exactly for connected addresses, and
        the only such vector, whatever the order of the unions. */
    method Labels() returns (labels: seq<nat>)
      requires Valid()
      modifies this`parent
      ensures Valid() && |parent| == old(|parent|) == |labels|
      ensures Represents(labels, joined) && Numbered(labels)
    {
      var n := |parent|;
      var remap: map<nat, nat> := map[];
      labels := [];
      for a := 0 to n
        invariant Valid() && |parent| == n == |root|
        invariant Relabelled(root, a, remap, labels)
      {
        var r, _ := Find(a);
        var next := |remap|;
        ghost var before := remap;
        if r !in remap {
          remap := remap[r := next];
        }
        RelabelStep(root, a, before, labels, remap);
        labels := labels + [remap[r]];
      }
      RelabelledAll(root, joined, remap, labels);
    }
  }

  /** remap gives the representatives of the labelled addresses different labels. */
  ghost predicate Remapped(root: seq<nat>, a: nat, remap: map<nat, nat>, labels: seq<nat>) {
    && |labels| == a <= |root|
    && (forall x :: 0 <= x < a ==> root[x] in remap && remap[root[x]] == labels[x])
    && (forall r, s :: r in remap && s in remap && remap[r] == remap[s] ==> r == s)
    && (forall r :: r in remap ==> remap[r] < |remap|)
  }

  /** The first a addresses are labelled by their representatives. */
  ghost predicate Relabelled(root: seq<nat>, a: nat, remap: map<nat, nat>, labels: seq<nat>) {
    Remapped(root, a, remap, labels) && |remap| == Fresh(labels) && Numbered(labels)
  }

  lemma NumberNext(labels: seq<nat>, l: nat)
    requires Numbered(labels) && l <= Fresh(labels)
    ensures Numbered(labels + [l]) && Fresh(labels + [l]) == if l == Fresh(labels) then l + 1 else Fresh(labels)
  {
    var more := labels + [l];
    assert more[..|labels|] == labels;
    forall x | 0 <= x < |more| ensures more[x] <= Fresh(more[..x]) {
      if x < |labels| {
        assert more[..x] == labels[..x];
      }
    }
  }

  lemma RemapNext(root: seq<nat>, a: nat, remap: map<nat, nat>, labels: seq<nat>, remap': map<nat, nat>)
    requires Remapped(root, a, remap, labels) && a < |root|
    requires remap' == if root[a] in remap then remap else remap[root[a] := |remap|]
    ensures Remapped(root, a + 1, remap', labels + [remap'[root[a]]])
    ensures remap'[root[a]] <= |remap| && |remap'| == (if remap'[root[a]] == |remap| then |remap| + 1 else |remap|)
  {
  }

  lemma RelabelStep(root: seq<nat>, a: nat, remap: map<nat, nat>, labels: seq<nat>, remap': map<nat, nat>)
    requires Relabelled(root, a, remap, labels) && a < |root|
    requires remap' == if root[a] in remap then remap else remap[root[a] := |remap|]
    ensures Relabelled(root, a + 1, remap', labels + [remap'[root[a]]])
  {
    RemapNext(root, a, remap, labels, remap');
    NumberNext(labels, remap'[root[a]]);
  }

  lemma RelabelledAll(root: seq<nat>, joined: Links, remap: map<nat, nat>, labels: seq<nat>)
    requires Relabelled(root, |root|, remap, labels) && Represents(root, joined)
    ensures Represents(labels, joined)
  {
    forall u: nat, v: nat | u < |labels| && v < |labels| ensures labels[u] == labels[v] <==> Linked(joined, u, v) {
      assert root[u] == root[v] <==> Linked(joined, u, v);
      assert labels[u] == remap[root[u]] && labels[v] == remap[root[v]];
    }
  }

  /** The links of a list of unions, in whatever order. */
  ghost function LinksOf(us: seq<(nat, nat)>): Links {
    set u | u in us
  }

  /** Makes the given unions in order. */
  method Cluster(n: nat, us: seq<(nat, nat)>) returns (labels: seq<nat>)
    requires forall k :: 0 <= k < |us| ==> us[k].0 < n && us[k].1 < n
    ensures |labels| == n && Represents(labels, LinksOf(us)) && Numbered(labels)
  {
    var uf := new UnionFind(n);
    for k := 0 to |us|
      invariant fresh(uf) && uf.Valid() && |uf.parent| == n && uf.joined == LinksOf(us[..k])
    {
      assert LinksOf(us[..k + 1]) == LinksOf(us[..k]) + {(us[k].0, us[k].1)};
      uf.Union(us[k].0, us[k].1);
    }
    assert us[..|us|] == us;
    labels := uf.Labels();
  }

  /** Label vectors of the same unions in any order are identical. */
  lemma OrderIndependent(us: seq<(nat, nat)>, vs: seq<(nat, nat)>, l: seq<nat>, m: seq<nat>)
    requires multiset(us) == multiset(vs) && |l| == |m|
    requires Represents(l, LinksOf(us)) && Numbered(l) && Represents(m, LinksOf(vs)) && Numbered(m)
    ensures l == m
  {
    forall u ensures u in us <==> u in vs {
      assert u in multiset(us) <==> u in multiset(vs);
    }
    assert LinksOf(us) == LinksOf(vs);
    LabelsUnique(l, m, LinksOf(us), |l|);
    assert l[..|l|] == l && m[..|m|] == m;
  }
}
