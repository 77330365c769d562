/** List helpers shared by the listings: a stable insertion sort by a
    descending integer key (`.sort({ field: -1 })` on the server,
    `list.sort((a, b) => key(b) - key(a))` in the browser), the enumeration
    of a finite set as a sequence, and `Array.prototype.filter`. */
module Sorting {

  /** Non-increasing in `key` from left to right. */
  predicate SortedDesc<T>(xs: seq<T>, key: T -> int) {
    forall i, j :: 0 <= i < j < |xs| ==> key(xs[i]) >= key(xs[j])
  }

  /** Puts `x` in front of the first element whose key it is not below, so that
      among equal keys `x` comes first. */
  function InsertDesc<T>(x: T, xs: seq<T>, key: T -> int): (r: seq<T>)
    requires SortedDesc(xs, key)
    ensures SortedDesc(r, key)
    ensures multiset(r) == multiset(xs) + multiset{x}
    ensures |r| == |xs| + 1
    ensures r[0] == x || (|xs| > 0 && r[0] == xs[0])
    decreases |xs|
  {
    if xs == [] then [x]
    else if key(xs[0]) > key(x) then
      var tail := xs[1..];
      var rest := InsertDesc(x, tail, key);
      assert xs == [xs[0]] + tail;
      assert key(xs[0]) >= key(rest[0]) by {
        if rest[0] != x {
          assert rest[0] == xs[1];
        }
      }
      SortedCons(xs[0], rest, key);
      [xs[0]] + rest
    else
      SortedCons(x, xs, key);
      [x] + xs
  }

  /** An element no lower than the head of a sorted list may go in front. */
  lemma SortedCons<T>(h: T, xs: seq<T>, key: T -> int)
    requires SortedDesc(xs, key) && (xs == [] || key(h) >= key(xs[0]))
    ensures SortedDesc([h] + xs, key)
  {
    var r := [h] + xs;
    forall i, j | 0 <= i < j < |r| ensures key(r[i]) >= key(r[j]) {
      if i == 0 {
        assert r[j] == xs[j - 1];
        if j > 1 {
          assert key(xs[0]) >= key(xs[j - 1]);
        }
      } else {
        assert r[i] == xs[i - 1] && r[j] == xs[j - 1];
      }
    }
  }

  /** The elements of `xs` reordered by non-increasing key. */
  function SortDesc<T>(xs: seq<T>, key: T -> int): (r: seq<T>)
    ensures SortedDesc(r, key)
    ensures multiset(r) == multiset(xs)
    ensures |r| == |xs|
    decreases |xs|
  {
    if xs == [] then []
    else
      assert xs == [xs[0]] + xs[1..];
      InsertDesc(xs[0], SortDesc(xs[1..], key), key)
  }

  /** Lists every element of `s` exactly once, in an unspecified order (the
      order a database returns documents in before sorting). */
  method SetToSeq<T>(s: set<T>) returns (r: seq<T>)
    ensures multiset(r) == multiset(s)
  {
    r := [];
    var rest := s;
    while rest != {}
      invariant rest <= s
      invariant multiset(r) + multiset(rest) == multiset(s)
      decreases |rest|
    {
      var x :| x in rest;
      assert multiset(rest) == multiset(rest - {x}) + multiset{x} by {
        assert rest == (rest - {x}) + {x};
      }
      r := r + [x];
      rest := rest - {x};
    }
  }

  /** A sequence listing a set exactly once has no repeated element. */
  lemma ListedOnceDistinct<T>(r: seq<T>, s: set<T>)
    requires multiset(r) == multiset(s)
    ensures forall i, j :: 0 <= i < j < |r| ==> r[i] != r[j]
    ensures forall x :: x in r <==> x in s
  {
    forall i, j | 0 <= i < j < |r|
      ensures r[i] != r[j]
    {
      var x := r[i];
      assert r == r[..j] + [r[j]] + r[j + 1..];
      assert x in r[..j];
      assert multiset(r)[x] == multiset(r[..j])[x] + multiset([r[j]])[x] + multiset(r[j + 1..])[x];
      assert multiset(s)[x] <= 1;
    }
    forall x
      ensures x in r <==> x in s
    {
      assert x in r <==> x in multiset(r);
    }
  }

  /** `xs.filter(p)`: the elements that pass, in their order. */
  function Filter<T>(xs: seq<T>, p: T -> bool): (r: seq<T>)
    ensures |r| <= |xs|
    ensures forall k :: 0 <= k < |r| ==> p(r[k])
    decreases |xs|
  {
    if xs == [] then [] else (if p(xs[0]) then [xs[0]] else []) + Filter(xs[1..], p)
  }

  /** Filtering keeps every passing element as often as it occurs and drops
      every other one. */
  lemma {:induction false} FilterCounts<T>(xs: seq<T>, p: T -> bool)
    ensures forall x :: multiset(Filter(xs, p))[x] == if p(x) then multiset(xs)[x] else 0
    decreases |xs|
  {
    if xs != [] {
      FilterCounts(xs[1..], p);
      assert xs == [xs[0]] + xs[1..];
    }
  }

  /** How many elements of `xs` pass `p`. */
  function Count<T>(xs: seq<T>, p: T -> bool): (n: nat)
    ensures n <= |xs|
    decreases |xs|
  {
    if xs == [] then 0 else (if p(xs[0]) then 1 else 0) + Count(xs[1..], p)
  }

  /** The filtered list is as long as the count of passing elements. */
  lemma {:induction false} FilterLength<T>(xs: seq<T>, p: T -> bool)
    ensures |Filter(xs, p)| == Count(xs, p)
    decreases |xs|
  {
    if xs != [] {
      FilterLength(xs[1..], p);
    }
  }
}
