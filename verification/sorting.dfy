/**
  `ORDER BY key DESC`: a sort on a real-valued key, largest first. SQL leaves the order
  of ties unspecified, so the contract says only that the result is a permutation of the
  input in non-increasing key order; insertion sort is one such order.
 */
module Sorting {

  ghost predicate SortedDesc<T>(xs: seq<T>, key: T -> real)
  {
    forall i, j :: 0 <= i < j < |xs| ==> key(xs[i]) >= key(xs[j])
  }

  /** A sorted sequence stays sorted under a new head no smaller than its first key. */
  lemma SortedCons<T>(h: T, xs: seq<T>, key: T -> real)
    requires SortedDesc(xs, key)
    requires |xs| > 0 ==> key(h) >= key(xs[0])
    ensures SortedDesc([h] + xs, key)
  {
    var r := [h] + xs;
    forall i, j | 0 <= i < j < |r|
      ensures key(r[i]) >= key(r[j])
    {
      if i == 0 {
        assert r[j] == xs[j - 1];
        assert key(xs[0]) >= key(xs[j - 1]);
      } else {
        assert r[i] == xs[i - 1] && r[j] == xs[j - 1];
      }
    }
  }

  lemma SortedTail<T>(xs: seq<T>, key: T -> real)
    requires |xs| > 0 && SortedDesc(xs, key)
    ensures SortedDesc(xs[1..], key)
  {
    var tail := xs[1..];
    forall i, j | 0 <= i < j < |tail|
      ensures key(tail[i]) >= key(tail[j])
    {
      assert tail[i] == xs[i + 1] && tail[j] == xs[j + 1];
    }
  }

  lemma ConsMultiset<T>(xs: seq<T>)
    requires |xs| > 0
    ensures multiset(xs) == multiset([xs[0]]) + multiset(xs[1..])
  {
    assert xs == [xs[0]] + xs[1..];
  }

  function InsertDesc<T>(x: T, xs: seq<T>, key: T -> real): (r: seq<T>)
    requires SortedDesc(xs, key)
    ensures |r| == |xs| + 1
    ensures multiset(r) == multiset(xs) + multiset{x}
    ensures SortedDesc(r, key)
    ensures r[0] == x || (|xs| > 0 && r[0] == xs[0])
  {
    if |xs| == 0 || key(x) >= key(xs[0]) then
      SortedCons(x, xs, key);
      [x] + xs
    else
      var tail := xs[1..];
      SortedTail(xs, key);
      var rest := InsertDesc(x, tail, key);
      assert key(xs[0]) >= key(rest[0]) by {
        if rest[0] != x {
          assert rest[0] == xs[1];
        }
      }
      SortedCons(xs[0], rest, key);
      ConsMultiset(xs);
      [xs[0]] + rest
  }

  function SortDesc<T>(xs: seq<T>, key: T -> real): (r: seq<T>)
    ensures |r| == |xs|
    ensures multiset(r) == multiset(xs)
    ensures SortedDesc(r, key)
  {
    if |xs| == 0 then
      []
    else
      ConsMultiset(xs);
      InsertDesc(xs[0], SortDesc(xs[1..], key), key)
  }
}
