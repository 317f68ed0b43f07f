# sastaTomatoes recommender core in Dafny

sastaTomatoes is a content-based movie recommender. Every movie of the TMDB
catalog gets a *tag*: its genre names, keyword names, the names of its first
three cast members and the names of its directors, joined by spaces. The
tags are vectorised with TF-IDF, and a cosine-similarity matrix is computed
over all pairs. To recommend, the service looks up the row of the first
movie whose title equals the query exactly. It numbers the similarity scores
in that row, sorts them highest first and returns the titles ranked two to
eleven. The Flask service (`app.py`) also lists the catalog page by page.
The notebook export (`sastaTomatoes.py`) holds the same tag building and a
recommendation function without the not-found branch.

The model covers the deterministic, sequence-level part of both files:

- `pyseq.dfy`, module `PySeq`: `Option`, `Min`, and Python slicing
  `s[start:stop]` with negative and out-of-range bounds. pandas
  `iloc[start:stop]` follows the same rules.
- `tags.dfy`, module `Tags`: the parsed metadata records, `convert`,
  `topcast` and `director`, the four-group word list and `" ".join`. The two
  source files hold identical copies of these helpers. They are defined once
  here, and the table cites each copy against a member that states one of
  its properties.
- `ranking.dfy`, module `Ranking`: the stable descending sort of an
  enumerated score row, as insertion into a list ordered by the strict
  total order `Before`. Higher score comes first; on equal scores, the
  lower position comes first. `RankUnique` shows that any arrangement
  meeting that contract is the same list, so the model agrees with
  Python's `sorted`.
- `recommender.dfy`, module `Recommender`: the catalog (titles plus the
  similarity matrix as an opaque `seq<seq<real>>`), the first exact match,
  the `[1:11]` window and `get_recommendations`.
- `service.dfy`, module `Service`: the `/recommend` empty-title guard and
  its three outcomes, and the `/movies` slice arithmetic.
- `notebook.dfy`, module `Notebook`: the notebook's `getrecommend`.

Two behaviours of the code are easy to misread, and the model follows the
code in both:

- The browser script expects more of the service than the service offers.
  It fetches a `/search` endpoint (prpr.js:44) and reads a `suggestions`
  field from failed lookups (prpr.js:109). app.py defines neither, so there
  is no fuzzy matching and no suggestion list. The lookup (app.py:79) is a
  case-sensitive equality test that takes the first hit, and `FirstMatch`
  models exactly that.
- `sim_scores[1:11]` (app.py:85) drops whatever ranks first, which is not
  always the queried movie. The stable sort puts the lowest position first
  among equal top scores. So when an earlier title ties the query's own top
  score, that earlier title is dropped and the query is recommended to
  itself. `EarlierTieDisplacesQuery` and `TiedQueryRecommended` state this
  for rows of any length. `DroppedIsRankFirst` gives the exact rule for
  catalogs of at most eleven titles. `SelfRecommendedOnTie` shows it on a
  two-title catalog. `SelfExcluded` gives a sufficient condition under
  which the query is excluded.

## Model

| member | source | states |
|---|---|---|
| `Tags.Convert` | app.py:29-33 | one name per record: the output has the input's length, and position i holds record i's `name` |
| `Tags.ConvertAppend` | sastaTomatoes.py:26-30 | records are converted independently: converting a concatenation concatenates the conversions, so names keep their order and count |
| `Tags.TopCast` | app.py:35-39 | exactly `min(3, n)` names, and they are a prefix of `convert` of the same cast list |
| `Tags.TopCastIgnoresLater` | sastaTomatoes.py:32-36 | cast records after the third never change the result |
| `Tags.DirectorsExact` | app.py:41-46 | for any increasing list of exactly the positions whose job is "Director", the result has that many names, and name k is the record's at the k-th such position; no other record contributes |
| `Tags.DirectorsAppend` | sastaTomatoes.py:38-43 | the filter works record by record: directors of a concatenation are the concatenated directors, order kept |
| `Tags.TagWords` | app.py:48-53 | the word list is the genre names in order, then the keyword names, then the names of the first min(3, len(cast)) cast members, then the name of every crew record whose job is "Director", in crew order; its length is the sum of those four counts |
| `Tags.JoinFlatten` | app.py:54 | joining the concatenation of word groups gives the same string as joining, with single spaces, one joined string per non-empty group |
| `Tags.Tag` | sastaTomatoes.py:50-51 | the tag is the joins of the non-empty groups among genres, keywords, top cast and directors, in that order, separated by single spaces |
| `Tags.JoinAppend` | app.py:54 | joining two groups puts one space between them when both are non-empty; an empty group adds neither words nor spaces |
| `Tags.JoinSplit` | app.py:54 | splitting any string on single spaces and joining again gives the string back |
| `Tags.SplitJoin` | app.py:54 | splitting a join of one or more space-free words gives back exactly those words |
| `Tags.TagRoundTrip` | sastaTomatoes.py:50-51 | the tag splits back into genres ++ keywords ++ cast ++ directors in that order, when there is at least one word and no word holds a space |
| `Ranking.Insert` | app.py:84 | inserting a new position into a `Before`-ordered list keeps it ordered, adds exactly that position and loses none |
| `Ranking.Rank` | app.py:83-84 | the sorted enumeration is a permutation of the row's positions, with scores non-increasing and equal scores in ascending position (a stable descending sort) |
| `Ranking.OrderedUnique` | sastaTomatoes.py:65 | two `Before`-ordered lists with the same positions are equal |
| `Ranking.RankUnique` | app.py:84 | any list satisfying the stable descending-sort contract equals `Rank`, so the contract determines the sort result |
| `Recommender.FirstMatch` | app.py:78-81 | `None` exactly when no title equals the query; otherwise the lowest row whose title equals it |
| `Recommender.RecommendedPositions` | app.py:85-86 | `min(10, n - 1)` positions (none for an empty row), namely ranks two to eleven of the sorted row |
| `Recommender.TitlesAt` | app.py:87 | one title per position, the title stored at that row |
| `Recommender.GetRecommendations` | app.py:77-87 | `None` exactly when the title is absent; otherwise `min(10, n - 1)` titles, title k being the one ranked k + 2 in the first match's similarity row |
| `Recommender.TopTen` | sastaTomatoes.py:65-70 | the recommended positions are distinct and in non-increasing score order, equal scores in ascending position; every position left out, except the top-ranked one, comes after each recommended one |
| `Recommender.RankFirstIsBest` | app.py:84 | the position ranked first scores at least as high as every position of the row |
| `Recommender.SelfExcluded` | app.py:85 | if the query's own score is strictly above every other score in its row, the query is not recommended |
| `Recommender.DroppedIsRankFirst` | app.py:85 | on a row of at most eleven scores, a position is left out of the recommendations if and only if it is the one ranked first |
| `Recommender.TiedQueryRecommended` | app.py:84-85 | for a row of any length: if the query ties the top score, does not rank first, and at most ten earlier positions share that score, the query is among its own recommendations |
| `Recommender.EarlierTieDisplacesQuery` | app.py:84-85 | for a row of any length: when an earlier position j ties the query's top score and no position before j reaches it, j ranks first and is dropped; the query is then recommended unless more than ten earlier positions share the score |
| `Recommender.SelfRecommendedOnTie` | app.py:85 | when an earlier title ties the query's own top score, the query is recommended to itself (two-title example) |
| `Recommender.EqualTagsRankFirst` | app.py:83-87 | with scores [1, 1, 0], recommending from the first title gives the second title and then the third |
| `Service.Recommend` | app.py:90-103 | a missing or empty title is refused whatever the catalog holds; an unknown title is not found; otherwise the answer carries the query and `get_recommendations`' list |
| `Service.PageOf` | app.py:110-113 | for page >= 1 and per_page >= 0, the page is `titles[(page-1)*per_page .. min(n, page*per_page))`, at most per_page titles in catalog order |
| `Service.ListMovies` | app.py:105-119 | page and per_page default to 1 and 20 and are echoed back; the movies are that page; the total is always the catalog size |
| `Service.PagesTile` | app.py:110-113 | pages 1..k of one size, concatenated, are exactly the first `min(n, k * per_page)` titles, with no gaps or overlaps |
| `Service.DefaultListing` | app.py:107-108 | with no parameters, the first 20 titles (or all of them) are listed |
| `Service.PageExamples` | app.py:110-118 | on 45 titles with 20 per page: page 2 is rows 20..39, page 3 has 5 rows, page 4 is empty, and the total is 45 |
| `Service.NonPositivePages` | app.py:110-113 | on 45 titles with 20 per page: page 0 is empty, and page -1 counts from the end, giving rows 5..24 |
| `Notebook.GetRecommend` | sastaTomatoes.py:63-70 | for a title the catalog holds, at most 10 row-labelled titles with distinct labels, in non-increasing score order of the first match's row; the label at k is the k-th recommended position (ranks two to eleven of the stable sort, ties in row order), so the result is determined by the catalog and the title and the `sim` argument has no influence; the titles equal `get_recommendations`' list |
| `PySeq.Slice` | app.py:113 | never fails; both bounds are normalised (negative ones count from the end, then clipped to 0..n), the length is the gap between them or 0, element k is the one at the normalised start plus k, and for 0 <= start <= stop it is `s[min(start, n)..min(stop, n)]` |

## Left out

- TF-IDF vectorisation and cosine similarity (app.py:59-63, sastaTomatoes.py:57-61) are floating-point library calls. The matrix is an input of the model: one `real` row per title, with nothing assumed about symmetry or the diagonal.
- CSV reading, the merge on title, `ast.literal_eval` of the stringified lists, and the `exit(1)` on a missing file are parsing and process I/O. Records arrive already parsed as `Named` and `Crew` values.
- A record without a `name` or `job` key raises `KeyError` in the source. The parsed record types always carry both keys, so that error path is not modelled.
- The pickle cache and the startup branch (app.py:66-74), `print` and `app.run` are process start-up and I/O.
- Flask routing, JSON encoding and HTTP status codes are left out. The three `/recommend` outcomes are kept as a datatype.
- `int()` parsing of `page` and `per_page` is left out. It raises on non-numeric text; the model receives parsed integers, or `None` when a parameter is absent.
- The pandas row labels are assumed to equal row positions. The merged frame gets a fresh 0..n-1 index, so `.index[0]` can be used as a matrix row.
- prpr.js (browser UI) is left out. Its `/search` autocomplete (prpr.js:44) and the `suggestions` it reads (prpr.js:109) have no counterpart in app.py.
- Floating-point NaN scores are not modelled: `real` scores are totally ordered, as cosine similarities of finite vectors are.
- Notebook.GetRecommend: when the title is absent, the source raises `IndexError`. The model makes presence a precondition instead of modelling the exception.
- Tags.TagRoundTrip: holds only when no word contains a space, and only when there is at least one word: a movie with no genres, keywords, cast or directors has the empty tag, which splits into one empty word, as Python's `"".split(" ")` gives `['']`. Names like "Science Fiction" do contain spaces, so in general the tag cannot be split back into its words. `Tags.TagWords` gives the exact word list and `Tags.Tag` the exact string for every movie.
- Service.PageOf: the closed form holds for page >= 1 and per_page >= 0. Other values go through the same Python slice rules (`PySeq.Slice`), and `Service.NonPositivePages` pins down two of them, but no closed form is stated.
