/** The standard library's sorts by key, as insertion from the left. */
module Sorting {

  /** Keys are compared lexicographically. */
  type Key = (int, int, int)

  predicate Below(a: Key, b: Key) {
    a.0 < b.0 || (a.0 == b.0 && (a.1 < b.1 || (a.1 == b.1 && a.2 < b.2)))
  }

  ghost predicate SortedBy<T>(s: seq<T>, key: T -> Key) {
    forall i, j :: 0 <= i < j < |s| ==> !Below(key(s[j]), key(s[i]))
  }

  function Place<T>(s: seq<T>, x: T, key: T -> Key): seq<T> {
    if s == [] || !Below(key(x), key(s[|s| - 1])) then s + [x]
    else Place(s[..|s| - 1], x, key) + [s[|s| - 1]]
  }

  lemma {:induction false} PlaceKeeps<T>(s: seq<T>, x: T, key: T -> Key)
    ensures multiset(Place(s, x, key)) == multiset(s) + multiset{x}
  {
    if s == [] || !Below(key(x), key(s[|s| - 1])) {
    } else {
      PlaceKeeps(s[..|s| - 1], x, key);
      assert s == s[..|s| - 1] + [s[|s| - 1]];
    }
  }

  /** Sorted, with nothing above the last key. */
  ghost predicate SortedUpTo<T>(s: seq<T>, key: T -> Key, top: Key) {
    SortedBy(s, key) && forall i :: 0 <= i < |s| ==> !Below(top, key(s[i]))
  }

  lemma SortedSnoc<T>(s: seq<T>, last: T, key: T -> Key)
    requires SortedUpTo(s, key, key(last))
    ensures SortedBy(s + [last], key)
  {
  }

  lemma {:induction false} PlaceSorts<T>(s: seq<T>, x: T, key: T -> Key, top: Key)
    requires SortedUpTo(s, key, top) && !Below(top, key(x))
    ensures SortedUpTo(Place(s, x, key), key, top)
  {
    if s == [] {
    } else if !Below(key(x), key(s[|s| - 1])) {
      SortedSnoc(s, x, key);
    } else {
      var init, last := s[..|s| - 1], s[|s| - 1];
      PlaceSorts(init, x, key, key(last));
      SortedSnoc(Place(init, x, key), last, key);
      PlacedBelow(init, x, key, top);
    }
  }

  lemma {:induction false} PlacedBelow<T>(s: seq<T>, x: T, key: T -> Key, top: Key)
    requires !Below(top, key(x)) && forall i :: 0 <= i < |s| ==> !Below(top, key(s[i]))
    ensures forall i :: 0 <= i < |Place(s, x, key)| ==> !Below(top, key(Place(s, x, key)[i]))
  {
    if s == [] || !Below(key(x), key(s[|s| - 1])) {
    } else {
      PlacedBelow(s[..|s| - 1], x, key, top);
    }
  }

  /** The largest of the keys. */
  function Top<T>(s: seq<T>, x: T, key: T -> Key): Key {
    if s != [] && Below(key(x), key(s[|s| - 1])) then key(s[|s| - 1]) else key(x)
  }

  method SortBy<T>(s: seq<T>, key: T -> Key) returns (r: seq<T>)
    ensures SortedBy(r, key) && multiset(r) == multiset(s)
  {
    r := [];
    for i := 0 to |s|
      invariant SortedBy(r, key) && multiset(r) == multiset(s[..i])
    {
      PlaceKeeps(r, s[i], key);
      PlaceSorts(r, s[i], key, Top(r, s[i], key));
      assert s[..i + 1] == s[..i] + [s[i]];
      r := Place(r, s[i], key);
    }
    assert s[..|s|] == s;
  }

  /** Two lists with the same elements have the same members, and repeat alike. */
  lemma SameMembers<T>(a: seq<T>, b: seq<T>)
    requires multiset(a) == multiset(b)
    ensures |a| == |b| && forall x :: x in a <==> x in b
    ensures (forall i, j :: 0 <= i < j < |a| ==> a[i] != a[j]) ==> forall i, j :: 0 <= i < j < |b| ==> b[i] != b[j]
  {
    assert |multiset(a)| == |a| && |multiset(b)| == |b|;
    forall x ensures x in a <==> x in b {
      assert x in multiset(a) <==> x in multiset(b);
    }
    if (forall i, j :: 0 <= i < j < |a| ==> a[i] != a[j]) {
      forall i, j | 0 <= i < j < |b| ensures b[i] != b[j] {
        if b[i] == b[j] {
          Twice(b, i, j);
          OnceEach(a, b[i]);
          assert false;
        }
      }
    }
  }

  lemma Twice<T>(s: seq<T>, i: nat, j: nat)
    requires i < j < |s| && s[i] == s[j]
    ensures multiset(s)[s[i]] >= 2
  {
    assert s == s[..j] + [s[j]] + s[j + 1..];
    assert s[..j][i] == s[i] && s[i] in multiset(s[..j]);
  }

  lemma {:induction false} OnceEach<T>(s: seq<T>, x: T)
    requires forall i, j :: 0 <= i < j < |s| ==> s[i] != s[j]
    ensures multiset(s)[x] <= 1
  {
    if s != [] {
      var init := s[..|s| - 1];
      OnceEach(init, x);
      assert s == init + [s[|s| - 1]];
      if x == s[|s| - 1] {
        assert x !in init;
        assert x !in multiset(init);
      }
    }
  }
}
