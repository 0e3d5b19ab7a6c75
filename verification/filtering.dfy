/**
 * `Array.prototype.filter`, and what it means: the result is the
 * order-preserving selection of exactly the elements that pass the test.
 */
module Filtering {

  /** The elements of `s` for which `p` holds, in the order of `s`. */
  function Filter<T>(s: seq<T>, p: T -> bool): (r: seq<T>)
    ensures |r| <= |s|
    ensures forall k :: 0 <= k < |r| ==> p(r[k])
  {
    if s == [] then []
    else if p(s[0]) then [s[0]] + Filter(s[1..], p)
    else Filter(s[1..], p)
  }

  /** `r` can be obtained from `s` by deleting elements: storage order is kept. */
  ghost predicate IsSubsequence<T>(r: seq<T>, s: seq<T>)
    decreases |s|
  {
    r == [] ||
    (s != [] && ((r[0] == s[0] && IsSubsequence(r[1..], s[1..])) || IsSubsequence(r, s[1..])))
  }

  /**
   * The reference meaning of a filter: a subsequence of `s` that holds each
   * element passing `p` exactly as often as `s` does, and nothing else.
   */
  ghost predicate SelectsExactly<T(!new)>(r: seq<T>, s: seq<T>, p: T -> bool)
  {
    IsSubsequence(r, s) &&
    forall x :: multiset(r)[x] == if p(x) then multiset(s)[x] else 0
  }

  lemma {:induction false} SubsequenceCounts<T>(r: seq<T>, s: seq<T>)
    requires IsSubsequence(r, s)
    ensures multiset(r) <= multiset(s)
    decreases |s|
  {
    if r == [] {
    } else {
      assert s == [s[0]] + s[1..];
      if r[0] == s[0] && IsSubsequence(r[1..], s[1..]) {
        SubsequenceCounts(r[1..], s[1..]);
        assert r == [r[0]] + r[1..];
      } else {
        SubsequenceCounts(r, s[1..]);
      }
    }
  }

  /** `Filter` meets the reference meaning. */
  lemma {:induction false} FilterSelectsExactly<T(!new)>(s: seq<T>, p: T -> bool)
    ensures SelectsExactly(Filter(s, p), s, p)
    ensures forall x :: x in Filter(s, p) <==> x in s && p(x)
  {
    var r := Filter(s, p);
    if s != [] {
      FilterSelectsExactly(s[1..], p);
      assert s == [s[0]] + s[1..];
      if p(s[0]) {
        assert r[0] == s[0] && r[1..] == Filter(s[1..], p);
      } else {
        assert IsSubsequence(r, s[1..]);
      }
    }
    forall x ensures x in r <==> x in s && p(x) {
      assert x in r <==> multiset(r)[x] > 0;
      assert x in s <==> multiset(s)[x] > 0;
    }
  }

  /** Only `Filter` meets the reference meaning: the selection is unique. */
  lemma {:induction false} SelectionIsFilter<T(!new)>(r: seq<T>, s: seq<T>, p: T -> bool)
    requires SelectsExactly(r, s, p)
    ensures r == Filter(s, p)
    decreases |s|
  {
    if s == [] {
    } else {
      var x0 := s[0];
      assert s == [x0] + s[1..];
      if r == [] {
        SelectionIsFilter(r, s[1..], p);
        assert !p(x0) by { assert multiset(s)[x0] > 0; }
      } else if r[0] == x0 && IsSubsequence(r[1..], s[1..]) {
        assert r == [x0] + r[1..];
        assert p(x0) by { assert multiset(r)[x0] > 0; }
        SelectionIsFilter(r[1..], s[1..], p);
      } else {
        assert IsSubsequence(r, s[1..]);
        SubsequenceCounts(r, s[1..]);
        assert !p(x0);
        SelectionIsFilter(r, s[1..], p);
      }
    }
  }

  /** Filtering a concatenation filters each part. */
  lemma {:induction false} FilterConcat<T>(a: seq<T>, b: seq<T>, p: T -> bool)
    ensures Filter(a + b, p) == Filter(a, p) + Filter(b, p)
  {
    if a == [] {
      assert a + b == b;
    } else {
      assert (a + b)[0] == a[0] && (a + b)[1..] == a[1..] + b;
      FilterConcat(a[1..], b, p);
    }
  }
}
