/**
  Ranking of one row of similarity scores: `sorted(enumerate(row),
  key=lambda x: x[1], reverse=True)` keeps only the positions. Python's sort
  is stable and `reverse=True` keeps it stable, so the order is by score,
  highest first, and among equal scores by ascending position. That order is
  the strict total order `Before`; the ranking is the one arrangement of all
  positions that follows it, built here by insertion.
 */
module Ranking {

  /** Position `i` is listed before position `j`. */
  predicate Before(row: seq<real>, i: nat, j: nat)
    requires i < |row| && j < |row|
  {
    row[i] > row[j] || (row[i] == row[j] && i < j)
  }

  ghost predicate InRange(row: seq<real>, s: seq<nat>)
  {
    forall k :: 0 <= k < |s| ==> s[k] < |row|
  }

  ghost predicate Ordered(row: seq<real>, s: seq<nat>)
    requires InRange(row, s)
  {
    forall k, l :: 0 <= k < l < |s| ==> Before(row, s[k], s[l])
  }

  /** `r` is a ranking of `row`: every position exactly once, in `Before` order. */
  ghost predicate IsRanking(row: seq<real>, r: seq<nat>)
  {
    && |r| == |row|
    && InRange(row, r)
    && Ordered(row, r)
    && (forall i :: 0 <= i < |row| ==> i in r)
  }

  /** Inserts position `x` into an ordered list that does not hold it yet. */
  function Insert(row: seq<real>, x: nat, s: seq<nat>): (r: seq<nat>)
    requires x < |row| && InRange(row, s) && Ordered(row, s) && x !in s
    ensures |r| == |s| + 1
    ensures InRange(row, r) && Ordered(row, r)
    ensures forall y :: y in r <==> y == x || y in s
  {
    if |s| == 0 then [x]
    else if Before(row, x, s[0]) then [x] + s
    else
      var t := Insert(row, x, s[1..]);
      assert forall y :: y in t ==> Before(row, s[0], y) by {
        forall y | y in t
          ensures Before(row, s[0], y)
        {
          if y != x {
            var k :| 0 <= k < |s[1..]| && s[1..][k] == y;
            assert s[k + 1] == y;
          }
        }
      }
      [s[0]] + t
  }

  /** The ranking of the first `m` positions, inserting them in catalog order. */
  function RankPrefix(row: seq<real>, m: nat): (r: seq<nat>)
    requires m <= |row|
    ensures |r| == m
    ensures InRange(row, r) && Ordered(row, r)
    ensures forall i :: i in r <==> 0 <= i < m
  {
    if m == 0 then [] else Insert(row, m - 1, RankPrefix(row, m - 1))
  }

  /** The sorted, enumerated row, positions only: a permutation of the
      positions, scores never increasing, equal scores in ascending position. */
  function Rank(row: seq<real>): (r: seq<nat>)
    ensures |r| == |row|
    ensures forall k :: 0 <= k < |r| ==> r[k] < |row|
    ensures forall i :: 0 <= i < |row| ==> i in r
    ensures forall k, l :: 0 <= k < l < |r| ==> row[r[k]] >= row[r[l]]
    ensures forall k, l :: 0 <= k < l < |r| && row[r[k]] == row[r[l]] ==> r[k] < r[l]
    ensures IsRanking(row, r)
  {
    RankPrefix(row, |row|)
  }

  /** Two `Before`-ordered lists of the same positions are equal. */
  lemma {:induction false} OrderedUnique(row: seq<real>, a: seq<nat>, b: seq<nat>)
    requires InRange(row, a) && Ordered(row, a)
    requires InRange(row, b) && Ordered(row, b)
    requires forall y :: y in a <==> y in b
    ensures a == b
    decreases |a|
  {
    assert forall k :: 0 <= k < |a| ==> a[k] in b;
    assert forall k :: 0 <= k < |b| ==> b[k] in a;
    if a != [] && b != [] {
      var k :| 0 <= k < |a| && a[k] == b[0];
      var l :| 0 <= l < |b| && b[l] == a[0];
      if k > 0 && l > 0 {
        assert false;
      }
      assert a[0] == b[0];
      forall y
        ensures y in a[1..] <==> y in b[1..]
      {
        if y in a[1..] {
          var i :| 0 <= i < |a[1..]| && a[1..][i] == y;
          assert Before(row, a[0], a[i + 1]);
        }
        if y in b[1..] {
          var i :| 0 <= i < |b[1..]| && b[1..][i] == y;
          assert Before(row, b[0], b[i + 1]);
        }
        assert y in a <==> y == a[0] || y in a[1..];
        assert y in b <==> y == b[0] || y in b[1..];
      }
      OrderedUnique(row, a[1..], b[1..]);
      assert a == [a[0]] + a[1..];
      assert b == [b[0]] + b[1..];
    }
  }

  /** Any arrangement that satisfies the stable descending-sort contract is
      exactly `Rank(row)`: the contract pins the result down, so the model
      agrees with Python's `sorted` whatever algorithm that uses. */
  lemma RankUnique(row: seq<real>, r: seq<nat>)
    requires IsRanking(row, r)
    ensures r == Rank(row)
  {
    var q := Rank(row);
    forall y
      ensures y in r <==> y in q
    {
      if y in r {
        var k :| 0 <= k < |r| && r[k] == y;
      }
      if y in q {
        var k :| 0 <= k < |q| && q[k] == y;
      }
    }
    OrderedUnique(row, r, q);
  }
}
