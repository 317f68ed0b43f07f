/**
  The two Flask endpoints that carry logic: `/recommend`, which guards
  against a missing title before looking anything up, and `/movies`, which
  returns one page of titles by slice arithmetic. Routing, JSON encoding and
  the parsing of query parameters stay outside the model; the parameters
  arrive already parsed, absent ones as `None`.
 */
module Service {
  import opened PySeq
  import opened Recommender

  /** The three answers of `/recommend`. */
  datatype RecommendResponse =
    | MissingTitle                                            // 400
    | NotInDatabase                                           // 404
    | Recommended(movie: string, recommendations: seq<string>)

  /** `recommend()`: a missing or empty title is refused whatever the
      catalog holds; a title no row carries is reported as not found;
      otherwise the recommendations of the first row with that title. */
  function Recommend(c: Catalog, title: Option<string>): (r: RecommendResponse)
    requires WellFormed(c)
    ensures r.MissingTitle? <==> title.None? || title.value == ""
    ensures r.NotInDatabase? <==> title.Some? && title.value != "" && title.value !in c.titles
    ensures r.Recommended? ==>
      && r.movie == title.value
      && GetRecommendations(c, title.value) == Some(r.recommendations)
  {
    if title.None? || title.value == "" then MissingTitle
    else
      match GetRecommendations(c, title.value)
      case None => NotInDatabase
      case Some(recs) => Recommended(title.value, recs)
  }

  /** The body of a `/movies` answer. */
  datatype MoviesPage = MoviesPage(page: int, perPage: int, movies: seq<string>, total: nat)

  const DefaultPage: int := 1
  const DefaultPerPage: int := 20

  /** The slice bounds of page `p` of size `n`: consecutive, non-negative
      and `n` apart. */
  lemma PageBounds(p: int, n: int)
    requires 1 <= p && 0 <= n
    ensures 0 <= (p - 1) * n <= p * n
    ensures (p - 1) * n + n == p * n
  {
  }

  /** Page `p` of size `n`, taken under slice rules, is the plain window
      from `(p - 1) * n` to `p * n`, clipped to the catalog. */
  lemma PageWindow(titles: seq<string>, p: int, n: int)
    requires 1 <= p && 0 <= n
    ensures var start := (p - 1) * n;
      && Slice(titles, start, start + n) == titles[Min(|titles|, start)..Min(|titles|, p * n)]
      && |Slice(titles, start, start + n)| <= n
  {
    PageBounds(p, n);
  }

  /** The titles of page `p` of size `n`:
      `titles[(p - 1) * n : (p - 1) * n + n]` under Python's slice rules. */
  function PageOf(titles: seq<string>, p: int, n: int): (movies: seq<string>)
    ensures 1 <= p && 0 <= n ==>
      movies == titles[Min(|titles|, (p - 1) * n)..Min(|titles|, p * n)]
    ensures 1 <= p && 0 <= n ==> |movies| <= n
  {
    var start := (p - 1) * n;
    // Both branches take the same slice; the test only decides whether the
    // closed form of `PageWindow` applies.
    if 1 <= p && 0 <= n then
      PageWindow(titles, p, n);
      Slice(titles, start, start + n)
    else Slice(titles, start, start + n)
  }

  /** `list_movies()`: the requested page (by default page 1 of 20 titles),
      echoed with its parameters and the catalog size. */
  function ListMovies(titles: seq<string>, page: Option<int>, perPage: Option<int>): (r: MoviesPage)
    ensures r.page == (if page.Some? then page.value else DefaultPage)
    ensures r.perPage == (if perPage.Some? then perPage.value else DefaultPerPage)
    ensures r.total == |titles|
    ensures r.movies == PageOf(titles, r.page, r.perPage)
  {
    var p := if page.Some? then page.value else DefaultPage;
    var n := if perPage.Some? then perPage.value else DefaultPerPage;
    MoviesPage(p, n, PageOf(titles, p, n), |titles|)
  }

  /** Pages one to `k` of size `perPage`, one after the other. */
  function PagesUpTo(titles: seq<string>, perPage: nat, k: nat): (r: seq<string>)
  {
    if k == 0 then [] else PagesUpTo(titles, perPage, k - 1) + PageOf(titles, k, perPage)
  }

  /** Paging walks the catalog without gaps or overlaps: pages one to `k`
      together are exactly the first `k * perPage` titles (or all of them). */
  lemma {:induction false} PagesTile(titles: seq<string>, perPage: nat, k: nat)
    ensures PagesUpTo(titles, perPage, k) == titles[..Min(|titles|, k * perPage)]
  {
    if k > 0 {
      PagesTile(titles, perPage, k - 1);
      PageBounds(k, perPage);
      var a := Min(|titles|, (k - 1) * perPage);
      var b := Min(|titles|, k * perPage);
      assert PageOf(titles, k, perPage) == titles[a..b];
      assert titles[..b] == titles[..a] + titles[a..b];
    }
  }

  /** With the defaults, the first page holds the first twenty titles. */
  lemma DefaultListing(titles: seq<string>)
    ensures ListMovies(titles, None, None).movies == titles[..Min(|titles|, 20)]
  {
  }

  /** Page 2 of 20 on a 45-title catalog holds rows 20 to 39, the last
      page holds the remaining five and page 4 is empty. */
  lemma PageExamples(titles: seq<string>)
    requires |titles| == 45
    ensures ListMovies(titles, Some(2), Some(20)).movies == titles[20..40]
    ensures |ListMovies(titles, Some(3), Some(20)).movies| == 5
    ensures ListMovies(titles, Some(4), Some(20)).movies == []
    ensures ListMovies(titles, Some(2), Some(20)).total == 45
  {
  }

  /** Python's negative slice bounds: page 0 is empty, but page -1 of 20 on
      a 45-title catalog counts from the end and yields rows 5 to 24. */
  lemma NonPositivePages(titles: seq<string>)
    requires |titles| == 45
    ensures ListMovies(titles, Some(0), Some(20)).movies == []
    ensures ListMovies(titles, Some(-1), Some(20)).movies == titles[5..25]
  {
  }
}
