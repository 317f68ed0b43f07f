/**
  `get_recommendations` of the Flask service: find the first row whose title
  equals the query, rank that row of the similarity matrix, drop the first
  ranked position and return the titles at the next ten.
 */
module Recommender {
  import opened PySeq
  import opened Ranking

  /** What the service keeps in memory: the titles in row order and the
      pairwise similarity matrix computed from the rows' tags. */
  datatype Catalog = Catalog(titles: seq<string>, cos: seq<seq<real>>)

  /** The matrix is square and has one row per title, as it is built. */
  ghost predicate WellFormed(c: Catalog)
  {
    && |c.cos| == |c.titles|
    && forall i :: 0 <= i < |c.cos| ==> |c.cos[i]| == |c.titles|
  }

  /** `movs[movs["title"] == movie].index[0]`: the lowest row whose title is
      exactly (case-sensitively) the query, or nothing. */
  function FirstMatch(titles: seq<string>, movie: string): (r: Option<nat>)
    ensures r.None? <==> movie !in titles
    ensures r.Some? ==> r.value < |titles| && titles[r.value] == movie
    ensures r.Some? ==> forall j :: 0 <= j < r.value ==> titles[j] != movie
  {
    if |titles| == 0 then None
    else if titles[0] == movie then Some(0)
    else
      match FirstMatch(titles[1..], movie)
      case None => None
      case Some(i) => Some(i + 1)
  }

  /** `sim_scores[1:11]`, positions only: ranks two to eleven of the row. */
  function RecommendedPositions(row: seq<real>): (r: seq<nat>)
    ensures |r| == if |row| == 0 then 0 else Min(10, |row| - 1)
    ensures forall k :: 0 <= k < |r| ==> r[k] == Rank(row)[k + 1]
  {
    Slice(Rank(row), 1, 11)
  }

  /** `movs['title'].iloc[positions].tolist()`. */
  function TitlesAt(titles: seq<string>, positions: seq<nat>): (r: seq<string>)
    requires forall k :: 0 <= k < |positions| ==> positions[k] < |titles|
    ensures |r| == |positions|
    ensures forall k :: 0 <= k < |r| ==> r[k] == titles[positions[k]]
  {
    if |positions| == 0 then []
    else [titles[positions[0]]] + TitlesAt(titles, positions[1..])
  }

  /** `get_recommendations(movie, movs, cos)`: `None` exactly when no title
      equals the query; otherwise the titles ranked two to eleven in the
      similarity row of the first matching title. */
  function GetRecommendations(c: Catalog, movie: string): (r: Option<seq<string>>)
    requires WellFormed(c)
    ensures r.None? <==> movie !in c.titles
    ensures r.Some? ==> |r.value| == Min(10, |c.titles| - 1)
    ensures r.Some? ==>
      var i := FirstMatch(c.titles, movie).value;
      forall k :: 0 <= k < |r.value| ==> r.value[k] == c.titles[Rank(c.cos[i])[k + 1]]
  {
    match FirstMatch(c.titles, movie)
    case None => None
    case Some(i) =>
      Some(TitlesAt(c.titles, RecommendedPositions(c.cos[i])))
  }

  /** The recommended positions are distinct, in non-increasing score order
      with ties in ascending position, and they are the best ones: every
      position left out, other than the top-ranked one, scores no higher
      than any recommended position (and on a tie sits after it). */
  lemma TopTen(row: seq<real>)
    requires |row| >= 1
    ensures var r := RecommendedPositions(row);
      && (forall k, l :: 0 <= k < l < |r| ==> r[k] != r[l] && row[r[k]] >= row[r[l]])
      && (forall k, l :: 0 <= k < l < |r| && row[r[k]] == row[r[l]] ==> r[k] < r[l])
      && (forall k, j :: 0 <= k < |r| && 0 <= j < |row| && j !in r && j != Rank(row)[0] ==>
            Before(row, r[k], j))
  {
    var q := Rank(row);
    var r := RecommendedPositions(row);
    forall k, j | 0 <= k < |r| && 0 <= j < |row| && j !in r && j != q[0]
      ensures Before(row, r[k], j)
    {
      assert j in q;
      var p :| 0 <= p < |q| && q[p] == j;
      if p < |r| + 1 {
        assert false;
      }
    }
  }

  /** The top-ranked position scores at least as high as every position. */
  lemma RankFirstIsBest(row: seq<real>)
    requires |row| >= 1
    ensures forall j :: 0 <= j < |row| ==> row[Rank(row)[0]] >= row[j]
  {
    var q := Rank(row);
    forall j | 0 <= j < |row|
      ensures row[q[0]] >= row[j]
    {
      assert j in q;
      var p :| 0 <= p < |q| && q[p] == j;
      if p > 0 {
        assert row[q[0]] >= row[q[p]];
      }
    }
  }

  /** When the queried row scores itself strictly above every other title,
      as a unit diagonal does, the queried title is not recommended. */
  lemma SelfExcluded(row: seq<real>, i: nat)
    requires i < |row|
    requires forall j :: 0 <= j < |row| && j != i ==> row[j] < row[i]
    ensures i !in RecommendedPositions(row)
  {
    var q := Rank(row);
    RankFirstIsBest(row);
    assert q[0] == i;
    var r := RecommendedPositions(row);
    assert forall k :: 0 <= k < |r| ==> r[k] == q[k + 1] && q[k + 1] != q[0];
  }

  /** On a catalog of at most eleven titles every position is recommended
      except the one ranked first, whichever that is. */
  lemma DroppedIsRankFirst(row: seq<real>, i: nat)
    requires i < |row| <= 11
    ensures i !in RecommendedPositions(row) <==> i == Rank(row)[0]
  {
    var q := Rank(row);
    var r := RecommendedPositions(row);
    assert |r| == |row| - 1;
    assert forall k :: 0 <= k < |r| ==> r[k] == q[k + 1] && Before(row, q[0], q[k + 1]);
    if i != q[0] {
      assert i in q;
      var p :| 0 <= p < |q| && q[p] == i;
      assert r[p - 1] == i;
    }
  }

  /** A subset has no more elements than its superset. */
  lemma {:induction false} SubsetCard(a: set<nat>, b: set<nat>)
    requires a <= b
    ensures |a| <= |b|
    decreases |a|
  {
    if a != {} {
      var x :| x in a;
      SubsetCard(a - {x}, b - {x});
    }
  }

  /** The first `p` entries of a list without repeats are `p` different
      positions. */
  lemma {:induction false} PrefixCard(q: seq<nat>, p: nat)
    requires p <= |q|
    requires forall k, l :: 0 <= k < l < |q| ==> q[k] != q[l]
    ensures |set t | 0 <= t < p :: q[t]| == p
  {
    if p > 0 {
      PrefixCard(q, p - 1);
      var front := set t | 0 <= t < p - 1 :: q[t];
      assert (set t | 0 <= t < p :: q[t]) == front + {q[p - 1]};
      assert q[p - 1] !in front;
    }
  }

  /** The query is recommended to itself whenever it ties the top score of
      its own row, it does not rank first, and at most ten earlier titles
      share that score: only those can rank above it. */
  lemma TiedQueryRecommended(row: seq<real>, i: nat)
    requires i < |row|
    requires forall l :: 0 <= l < |row| ==> row[l] <= row[i]
    requires |set l | 0 <= l < i && row[l] == row[i]| <= 10
    requires i != Rank(row)[0]
    ensures i in RecommendedPositions(row)
  {
    var q := Rank(row);
    var r := RecommendedPositions(row);
    var ties := set l | 0 <= l < i && row[l] == row[i];
    assert i in q;
    var p :| 0 <= p < |q| && q[p] == i;
    var above := set t | 0 <= t < p :: q[t];
    forall x | x in above
      ensures x in ties
    {
      var t :| 0 <= t < p && q[t] == x;
      assert row[q[t]] >= row[q[p]];
    }
    assert forall k, l :: 0 <= k < l < |q| ==> q[k] != q[l];
    PrefixCard(q, p);
    SubsetCard(above, ties);
    assert r[p - 1] == i;
  }

  /** When the query ties its top score with an earlier title that is the
      first to reach that score, the earlier title ranks first and is
      dropped; the query is then recommended to itself unless more than
      ten earlier titles share the score. */
  lemma EarlierTieDisplacesQuery(row: seq<real>, i: nat, j: nat)
    requires j < i < |row|
    requires row[j] == row[i]
    requires forall l :: 0 <= l < |row| ==> row[l] <= row[i]
    requires forall l :: 0 <= l < j ==> row[l] < row[i]
    ensures Rank(row)[0] == j
    ensures j !in RecommendedPositions(row)
    ensures |set l | 0 <= l < i && row[l] == row[i]| <= 10 ==> i in RecommendedPositions(row)
  {
    var q := Rank(row);
    var r := RecommendedPositions(row);
    RankFirstIsBest(row);
    assert j in q;
    var p :| 0 <= p < |q| && q[p] == j;
    assert q[0] == j;
    assert forall k :: 0 <= k < |r| ==> r[k] == q[k + 1] && q[k + 1] != q[0];
    if |set l | 0 <= l < i && row[l] == row[i]| <= 10 {
      TiedQueryRecommended(row, i);
    }
  }

  /** As written, dropping rank one removes whatever ranks first, not the
      query: when an earlier title ties with the query's own score, that
      title is dropped and the query recommends itself. */
  lemma SelfRecommendedOnTie()
    ensures GetRecommendations(Catalog(["Alpha", "Beta"], [[1.0, 1.0], [1.0, 1.0]]), "Beta")
            == Some(["Beta"])
  {
    var c := Catalog(["Alpha", "Beta"], [[1.0, 1.0], [1.0, 1.0]]);
    var row: seq<real> := [1.0, 1.0];
    assert FirstMatch(c.titles, "Beta") == Some(1);
    assert c.cos[1] == row;
    assert IsRanking(row, [0, 1]);
    RankUnique(row, [0, 1]);
    assert RecommendedPositions(row) == [1];
    assert TitlesAt(c.titles, [1]) == ["Beta"];
  }

  /** Three titles tagged "action", "action" and "romance": recommending
      from the first ranks the second above the third. */
  lemma EqualTagsRankFirst()
    ensures GetRecommendations(
              Catalog(["A", "B", "C"], [[1.0, 1.0, 0.0], [1.0, 1.0, 0.0], [0.0, 0.0, 1.0]]), "A")
            == Some(["B", "C"])
  {
    var c := Catalog(["A", "B", "C"], [[1.0, 1.0, 0.0], [1.0, 1.0, 0.0], [0.0, 0.0, 1.0]]);
    var row: seq<real> := [1.0, 1.0, 0.0];
    assert FirstMatch(c.titles, "A") == Some(0);
    assert c.cos[0] == row;
    assert IsRanking(row, [0, 1, 2]);
    RankUnique(row, [0, 1, 2]);
    assert RecommendedPositions(row) == [1, 2];
    assert TitlesAt(c.titles, [1, 2]) == ["B", "C"];
  }
}
