/** The collection operations the routes are built from: filter, sort by a
    numeric key in descending order (MongoDB's `.sort({key: -1})`), limit, and
    sums over a sequence. */
module Seqs {

  /** Non-increasing in `key`: the order a `{key: -1}` sort produces. */
  predicate SortedDesc<T(!new)>(s: seq<T>, key: T -> int) {
    forall i, j :: 0 <= i < j < |s| ==> key(s[i]) >= key(s[j])
  }

  /** The elements of `s` that satisfy `p`, in their stored order (a `find(filter)`). */
  function Filter<T(!new)>(s: seq<T>, p: T -> bool): (r: seq<T>)
    ensures |r| <= |s|
    ensures forall x :: x in r <==> x in s && p(x)
    ensures forall x :: multiset(r)[x] == if p(x) then multiset(s)[x] else 0
  {
    assert s != [] ==> s == [s[0]] + s[1..];
    if s == [] then []
    else if p(s[0]) then [s[0]] + Filter(s[1..], p)
    else Filter(s[1..], p)
  }

  /** The first `n` elements of `s`, or all of them when there are fewer (`.limit(n)`). */
  function Take<T(!new)>(s: seq<T>, n: nat): (r: seq<T>)
    ensures |r| == if |s| <= n then |s| else n
    ensures r == s[..|r|]
    ensures multiset(r) <= multiset(s)
  {
    if |s| <= n then s
    else
      assert s == s[..n] + s[n..];
      s[..n]
  }

  /** A larger-or-equal head keeps a sorted sequence sorted. */
  lemma SortedCons<T(!new)>(h: T, s: seq<T>, key: T -> int)
    requires SortedDesc(s, key)
    requires forall j :: 0 <= j < |s| ==> key(h) >= key(s[j])
    ensures SortedDesc([h] + s, key)
  {
    var r := [h] + s;
    forall i, j | 0 <= i < j < |r| ensures key(r[i]) >= key(r[j]) {
      assert r[j] == s[j - 1];
      if i > 0 { assert r[i] == s[i - 1]; }
    }
  }

  /** Every element of a rearrangement of `t` plus `x` is bounded by `h` when `x`
      and all of `t` are. */
  lemma BoundedByHead<T(!new)>(h: T, x: T, t: seq<T>, rest: seq<T>, key: T -> int)
    requires multiset(rest) == multiset(t) + multiset{x}
    requires key(h) >= key(x) && forall j :: 0 <= j < |t| ==> key(h) >= key(t[j])
    ensures forall j :: 0 <= j < |rest| ==> key(h) >= key(rest[j])
  {
    forall j | 0 <= j < |rest| ensures key(h) >= key(rest[j]) {
      assert rest[j] in multiset(rest);
      if rest[j] != x {
        assert rest[j] in multiset(t);
        var k :| 0 <= k < |t| && t[k] == rest[j];
      }
    }
  }

  /** Places `x` into a sorted sequence, before the elements whose key equals its own. */
  function Insert<T(!new)>(x: T, s: seq<T>, key: T -> int): (r: seq<T>)
    requires SortedDesc(s, key)
    ensures SortedDesc(r, key)
    ensures multiset(r) == multiset(s) + multiset{x}
  {
    if s == [] || key(x) >= key(s[0]) then
      SortedCons(x, s, key);
      [x] + s
    else
      var rest := Insert(x, s[1..], key);
      BoundedByHead(s[0], x, s[1..], rest, key);
      SortedCons(s[0], rest, key);
      assert s == [s[0]] + s[1..];
      [s[0]] + rest
  }

  /** `s` ordered by `key`, largest first (a stable insertion sort; MongoDB leaves
      the order of equal keys unspecified, so contracts do not rely on it). */
  function SortDesc<T(!new)>(s: seq<T>, key: T -> int): (r: seq<T>)
    ensures SortedDesc(r, key)
    ensures multiset(r) == multiset(s)
    ensures |r| == |s|
  {
    if s == [] then []
    else
      assert s == [s[0]] + s[1..];
      Insert(s[0], SortDesc(s[1..], key), key)
  }

  /** In a sorted sequence, an element left out by `Take` ranks no higher than
      anything kept. */
  lemma {:induction false} TakeKeepsTop<T(!new)>(s: seq<T>, key: T -> int, n: nat, x: T)
    requires SortedDesc(s, key)
    requires x in s && x !in Take(s, n)
    ensures forall y :: y in Take(s, n) ==> key(y) >= key(x)
  {
    var t := Take(s, n);
    var j :| 0 <= j < |s| && s[j] == x;
    forall y | y in t ensures key(y) >= key(x) {
      var i :| 0 <= i < |t| && t[i] == y;
      assert s[i] == y;
    }
  }

  /** The sum of `f` over the elements of `s`. */
  function SumOf<T(!new)>(s: seq<T>, f: T -> int): int {
    if s == [] then 0 else f(s[0]) + SumOf(s[1..], f)
  }

  lemma {:induction false} InsertSum<T(!new)>(x: T, s: seq<T>, key: T -> int, f: T -> int)
    requires SortedDesc(s, key)
    ensures SumOf(Insert(x, s, key), f) == f(x) + SumOf(s, f)
  {
    var r := Insert(x, s, key);
    if s == [] || key(x) >= key(s[0]) {
      assert r[1..] == s;
    } else {
      InsertSum(x, s[1..], key, f);
      assert r[1..] == Insert(x, s[1..], key);
      assert s == [s[0]] + s[1..];
    }
  }

  /** Sorting does not change a sum over the elements. */
  lemma {:induction false} SortKeepsSum<T(!new)>(s: seq<T>, key: T -> int, f: T -> int)
    ensures SumOf(SortDesc(s, key), f) == SumOf(s, f)
  {
    if s != [] {
      SortKeepsSum(s[1..], key, f);
      InsertSum(s[0], SortDesc(s[1..], key), key, f);
    }
  }

  /** No two elements of `s` carry the same tag. */
  ghost predicate DistinctBy<T(!new), K>(s: seq<T>, tag: T -> K) {
    forall i, j :: 0 <= i < j < |s| ==> tag(s[i]) != tag(s[j])
  }

  lemma {:induction false} InsertKeepsDistinct<T(!new), K>(x: T, s: seq<T>, key: T -> int, tag: T -> K)
    requires SortedDesc(s, key) && DistinctBy(s, tag)
    requires forall y :: y in s ==> tag(y) != tag(x)
    ensures DistinctBy(Insert(x, s, key), tag)
  {
    var r := Insert(x, s, key);
    if s == [] || key(x) >= key(s[0]) {
      assert r == [x] + s;
    } else {
      var rest := Insert(x, s[1..], key);
      InsertKeepsDistinct(x, s[1..], key, tag);
      assert r == [s[0]] + rest;
      forall y | y in rest ensures tag(y) != tag(s[0]) {
        assert y in multiset(rest);
        if y != x {
          var k :| 1 <= k < |s| && s[k] == y;
        }
      }
    }
  }

  /** Sorting keeps tags distinct. */
  lemma {:induction false} SortKeepsDistinct<T(!new), K>(s: seq<T>, key: T -> int, tag: T -> K)
    requires DistinctBy(s, tag)
    ensures DistinctBy(SortDesc(s, key), tag)
  {
    if s != [] {
      var tail := s[1..];
      assert DistinctBy(tail, tag) by {
        forall i, j | 0 <= i < j < |tail| ensures tag(tail[i]) != tag(tail[j]) {
          assert tail[i] == s[i + 1] && tail[j] == s[j + 1];
        }
      }
      SortKeepsDistinct(tail, key, tag);
      var sorted := SortDesc(tail, key);
      forall y | y in sorted ensures tag(y) != tag(s[0]) {
        assert y in multiset(sorted);
        var k :| 0 <= k < |tail| && tail[k] == y;
        assert s[k + 1] == y;
      }
      InsertKeepsDistinct(s[0], sorted, key, tag);
    }
  }
}
