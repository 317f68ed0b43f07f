/**
  The notebook export's `getrecommend`. It builds tags with the same
  helpers as the service (module `Tags`), but its lookup has no not-found
  branch, it ignores its `sim` argument in favour of the module-level matrix,
  and it returns a pandas Series: titles labelled with their row positions.
 */
module Notebook {
  import opened PySeq
  import opened Recommender

  /** The positions as a Series: each position paired with its title. */
  function Labelled(titles: seq<string>, positions: seq<nat>): (r: seq<(nat, string)>)
    requires forall k :: 0 <= k < |positions| ==> positions[k] < |titles|
    ensures |r| == |positions|
    ensures forall k :: 0 <= k < |r| ==> r[k] == (positions[k], titles[positions[k]])
    ensures seq(|r|, k requires 0 <= k < |r| => r[k].1) == TitlesAt(titles, positions)
  {
    seq(|positions|, k requires 0 <= k < |positions| => (positions[k], titles[positions[k]]))
  }

  /** `getrecommend(movie, sim)`: the caller must pass a title the catalog
      holds (otherwise `.index[0]` raises); `sim` plays no part. The titles
      are those `get_recommendations` returns, each labelled by its row. */
  function GetRecommend(c: Catalog, movie: string, sim: seq<seq<real>>): (r: seq<(nat, string)>)
    requires WellFormed(c) && movie in c.titles
    ensures |r| <= 10
    ensures |r| == |RecommendedPositions(c.cos[FirstMatch(c.titles, movie).value])|
    ensures forall k :: 0 <= k < |r| ==>
      r[k].0 == RecommendedPositions(c.cos[FirstMatch(c.titles, movie).value])[k]
    ensures forall k :: 0 <= k < |r| ==> r[k].0 < |c.titles| && r[k].1 == c.titles[r[k].0]
    ensures forall k, l :: 0 <= k < l < |r| ==> r[k].0 != r[l].0
    ensures var row := c.cos[FirstMatch(c.titles, movie).value];
      forall k, l :: 0 <= k < l < |r| ==> row[r[k].0] >= row[r[l].0]
    ensures GetRecommendations(c, movie) == Some(seq(|r|, k requires 0 <= k < |r| => r[k].1))
  {
    var i := FirstMatch(c.titles, movie).value;
    var positions := RecommendedPositions(c.cos[i]);
    TopTen(c.cos[i]);
    Labelled(c.titles, positions)
  }
}
