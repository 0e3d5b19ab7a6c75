/**
 * The descending sort by score behind the top-rated route (server.js:57):
 * larger scores first. JavaScript's sort is stable, so books with equal
 * scores keep their storage order. `SortByScore` is that stable order on
 * exact scores, and `SortKeepsTiesInOrder` proves it; scores that are equal
 * as decimals but differ as doubles are not ties in JavaScript.
 */
module Ranking {
  import opened Catalogue
  import opened Filtering

  /** Scores never increase along `s`. */
  predicate ScoresDescending(s: seq<ScoredBook>)
  {
    forall i, j :: 0 <= i < j < |s| ==> s[i].score >= s[j].score
  }

  /** Puts `x` into the descending sequence `s` before the first smaller score. */
  function Insert(x: ScoredBook, s: seq<ScoredBook>): (r: seq<ScoredBook>)
    requires ScoresDescending(s)
    ensures ScoresDescending(r)
    ensures multiset(r) == multiset(s) + multiset{x}
  {
    if s == [] || x.score >= s[0].score then
      [x] + s
    else
      var rest := Insert(x, s[1..]);
      assert s == [s[0]] + s[1..];
      assert forall k :: 0 <= k < |rest| ==> rest[k].score <= s[0].score by {
        forall k | 0 <= k < |rest| ensures rest[k].score <= s[0].score {
          assert rest[k] in multiset(rest);
        }
      }
      [s[0]] + rest
  }

  /** The scored books in descending order of score. */
  function SortByScore(s: seq<ScoredBook>): (r: seq<ScoredBook>)
    ensures ScoresDescending(r)
    ensures multiset(r) == multiset(s)
  {
    if s == [] then []
    else
      assert s == [s[0]] + s[1..];
      Insert(s[0], SortByScore(s[1..]))
  }

  /**
   * Cutting a descending sequence after `n` elements keeps a part of it, and
   * everything cut off scores no more than anything kept.
   */
  lemma {:induction false} PrefixKeepsBest(t: seq<ScoredBook>, n: nat)
    requires ScoresDescending(t) && n <= |t|
    ensures multiset(t[..n]) <= multiset(t)
    ensures forall x, y :: x in multiset(t) - multiset(t[..n]) && y in t[..n] ==> x.score <= y.score
  {
    assert t == t[..n] + t[n..];
    assert multiset(t) - multiset(t[..n]) == multiset(t[n..]);
    forall x, y | x in multiset(t) - multiset(t[..n]) && y in t[..n] ensures x.score <= y.score {
      assert x in t[n..];
      var j :| n <= j < |t| && t[j] == x;
      var i :| 0 <= i < n && t[i] == y;
    }
  }

  /** The test "this entry scores exactly `v`". */
  function ScoreIs(v: int): ScoredBook -> bool
  {
    (x: ScoredBook) => x.score == v
  }

  /** Inserting `x` puts it before every entry of equal score, and moves no other entry of that score. */
  lemma {:induction false} InsertTies(x: ScoredBook, t: seq<ScoredBook>, v: int)
    requires ScoresDescending(t)
    ensures Filter(Insert(x, t), ScoreIs(v)) ==
      if x.score == v then [x] + Filter(t, ScoreIs(v)) else Filter(t, ScoreIs(v))
  {
    var r := Insert(x, t);
    if t == [] || x.score >= t[0].score {
      assert r[0] == x && r[1..] == t;
    } else {
      assert r[0] == t[0] && r[1..] == Insert(x, t[1..]);
      InsertTies(x, t[1..], v);
    }
  }

  /** Stability: the entries of any one score appear in the sorted result in their input order. */
  lemma {:induction false} SortKeepsTiesInOrder(s: seq<ScoredBook>, v: int)
    ensures Filter(SortByScore(s), ScoreIs(v)) == Filter(s, ScoreIs(v))
  {
    if s != [] {
      SortKeepsTiesInOrder(s[1..], v);
      InsertTies(s[0], SortByScore(s[1..]), v);
    }
  }
}
