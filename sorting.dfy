// The sorts of symbols/spglsl-symbol-usage.cpp (`std::sort` with a
// comparator) and the walk over a hash container in whatever order it
// yields its elements.

module Sorting {

  /** What a comparator handed to a sort must be: irreflexive and transitive. */
  ghost predicate StrictOrder<T(!new)>(before: (T, T) -> bool) {
    (forall a :: !before(a, a)) &&
    (forall a, b, c :: before(a, b) && before(b, c) ==> before(a, c))
  }

  /** No element comes before one that precedes it. */
  ghost predicate SortedBy<T>(s: seq<T>, before: (T, T) -> bool) {
    forall i, j :: 0 <= i < j < |s| ==> !before(s[j], s[i])
  }

  /** Inserts `x` before the first element it comes before. */
  method Insert<T(!new)>(s: seq<T>, x: T, before: (T, T) -> bool) returns (r: seq<T>)
    requires StrictOrder(before) && SortedBy(s, before)
    ensures multiset(r) == multiset(s) + multiset{x}
    ensures SortedBy(r, before)
  {
    var k := 0;
    while k < |s| && !before(x, s[k])
      invariant 0 <= k <= |s|
      invariant forall m :: 0 <= m < k ==> !before(x, s[m])
    {
      k := k + 1;
    }
    r := s[..k] + [x] + s[k..];
    assert s == s[..k] + s[k..];
    InsertedSorted(s, k, x, before);
  }

  /** Putting `x` after the elements it does not precede and before one it does keeps the order. */
  lemma InsertedSorted<T(!new)>(s: seq<T>, k: nat, x: T, before: (T, T) -> bool)
    requires StrictOrder(before) && SortedBy(s, before) && k <= |s|
    requires forall m :: 0 <= m < k ==> !before(x, s[m])
    requires k < |s| ==> before(x, s[k])
    ensures SortedBy(s[..k] + [x] + s[k..], before)
  {
    var r := s[..k] + [x] + s[k..];
    forall i, j | 0 <= i < j < |r|
      ensures !before(r[j], r[i])
    {
      if j < k {
        assert r[i] == s[i] && r[j] == s[j];
      } else if j == k {
        assert r[i] == s[i] && r[j] == x;
      } else if i < k {
        assert r[i] == s[i] && r[j] == s[j - 1];
      } else if i == k {
        assert r[i] == x && r[j] == s[j - 1];
      } else {
        assert r[i] == s[i - 1] && r[j] == s[j - 1];
      }
    }
  }

  /** `std::sort` with the comparator `before`: a sorted permutation of `xs`. */
  method InsertionSort<T(!new)>(xs: seq<T>, before: (T, T) -> bool) returns (r: seq<T>)
    requires StrictOrder(before)
    ensures multiset(r) == multiset(xs)
    ensures SortedBy(r, before)
  {
    r := [];
    var i := 0;
    while i < |xs|
      invariant 0 <= i <= |xs|
      invariant multiset(r) == multiset(xs[..i])
      invariant SortedBy(r, before)
    {
      r := Insert(r, xs[i], before);
      assert xs[..i + 1] == xs[..i] + [xs[i]];
      i := i + 1;
    }
    assert xs[..i] == xs;
  }

  /** The elements of a hash container, once each, in an order the model leaves open. */
  method SetToSeq<T>(s: set<T>) returns (r: seq<T>)
    ensures multiset(r) == multiset(s)
  {
    r := [];
    var rest := s;
    while rest != {}
      invariant rest <= s
      invariant multiset(r) + multiset(rest) == multiset(s)
      decreases |rest|
    {
      var x :| x in rest;
      r := r + [x];
      rest := rest - {x};
      assert multiset(rest) + multiset{x} == multiset(rest + {x});
    }
  }

  /** Elements listed once each: what a sequence with the multiset of a set has. */
  lemma DistinctFromSet<T>(r: seq<T>, s: set<T>)
    requires multiset(r) == multiset(s)
    ensures forall x :: x in r <==> x in s
    ensures forall i, j :: 0 <= i < j < |r| ==> r[i] != r[j]
    ensures |r| == |s|
  {
    forall x
      ensures x in r <==> x in s
    {
      assert x in r <==> x in multiset(r);
    }
    forall i, j | 0 <= i < j < |r|
      ensures r[i] != r[j]
    {
      var x := r[i];
      assert r == r[..i] + [x] + r[i + 1..];
      assert r[i + 1..] == r[i + 1..j] + [r[j]] + r[j + 1..];
      assert multiset(r)[x] <= 1;
    }
    assert |multiset(r)| == |multiset(s)|;
  }

  /** The entries of a hash map copied out into a vector and sorted with `before`. */
  method SortedItems<K(!new)>(m: map<K, nat>, before: ((K, nat), (K, nat)) -> bool) returns (r: seq<(K, nat)>)
    requires StrictOrder(before)
    ensures multiset(r) == multiset(m.Items)
    ensures SortedBy(r, before)
  {
    var entries := SetToSeq(m.Items);
    r := InsertionSort(entries, before);
  }

  /** A listing of a map's entries holds every key once, with its value. */
  lemma ItemsListed<K>(m: map<K, nat>, r: seq<(K, nat)>)
    requires multiset(r) == multiset(m.Items)
    ensures forall i :: 0 <= i < |r| ==> r[i].0 in m && m[r[i].0] == r[i].1
    ensures forall k :: k in m ==> exists i :: 0 <= i < |r| && r[i].0 == k
    ensures forall i, j :: 0 <= i < j < |r| ==> r[i].0 != r[j].0
  {
    DistinctFromSet(r, m.Items);
    forall i | 0 <= i < |r|
      ensures r[i].0 in m && m[r[i].0] == r[i].1
    {
      assert r[i] in m.Items;
    }
    forall k | k in m
      ensures exists i :: 0 <= i < |r| && r[i].0 == k
    {
      assert (k, m[k]) in m.Items;
      var i :| 0 <= i < |r| && r[i] == (k, m[k]);
    }
    forall i, j | 0 <= i < j < |r|
      ensures r[i].0 != r[j].0
    {
      assert r[i] in m.Items && r[j] in m.Items;
      assert r[i] != r[j];
    }
  }
}
