/** Small notions that several models share. */
module Common {
  datatype Option<T> = None | Some(value: T)

  /** No element occurs twice. */
  ghost predicate Distinct(s: seq<nat>) {
    forall i, j :: 0 <= i < j < |s| ==> s[i] != s[j]
  }

  lemma MulMonotone(a: int, b: int, m: nat)
    ensures a <= b ==> a * m <= b * m
  {
  }

  lemma NonNegative(a: nat, b: nat)
    ensures 0 <= a * b
  {
  }

  lemma {:induction false} SubsetSize(a: set<nat>, n: nat)
    requires forall v <- a :: v < n
    ensures |a| <= n
  {
    if n > 0 {
      SubsetSize(a - {n - 1}, n - 1);
    }
  }

  /** A sequence without repetition has as many elements as places. */
  lemma {:induction false} DistinctSize(s: seq<nat>, elements: set<nat>)
    requires Distinct(s) && forall v :: v in elements <==> v in s
    ensures |elements| == |s|
  {
    if s == [] {
      assert elements == {};
    } else {
      var n := |s| - 1;
      var last := s[n];
      assert s == s[..n] + [last] && last !in s[..n];
      DistinctSize(s[..n], elements - {last});
    }
  }
}
