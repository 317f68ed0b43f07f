/**
  Tag building. Every movie of the catalog carries four lists of already
  parsed metadata records (genres, keywords, cast, crew); its tag is the
  space-joined list of the genre names, the keyword names, the names of the
  first three cast members and the names of the crew members whose job is
  "Director". The Flask service and the notebook export hold identical
  copies of these helpers; they are defined once here.
 */
module Tags {
  import opened PySeq

  /** A parsed metadata record of which only the `name` key is read
      (genres, keywords, cast). */
  datatype Named = Named(name: string)

  /** A parsed crew record: its `name` and its `job`. */
  datatype Crew = Crew(name: string, job: string)

  /** One catalog row after the merge of the movies and credits tables. */
  datatype Movie = Movie(
    title: string,
    genres: seq<Named>,
    keywords: seq<Named>,
    cast: seq<Named>,
    crew: seq<Crew>)

  const DirectorJob: string := "Director"

  /** `convert`: the name of every record, appended in input order. */
  function Convert(recs: seq<Named>): (r: seq<string>)
    ensures |r| == |recs|
    ensures forall i :: 0 <= i < |recs| ==> r[i] == recs[i].name
  {
    if |recs| == 0 then []
    else Convert(recs[..|recs| - 1]) + [recs[|recs| - 1].name]
  }

  /** `topcast`: the names of the first (at most) three cast records. */
  function TopCast(cast: seq<Named>): (r: seq<string>)
    ensures |r| == Min(3, |cast|)
    ensures r == Convert(cast)[..|r|]
  {
    Convert(cast[..Min(3, |cast|)])
  }

  /** Records are independent: converting a concatenation concatenates
      the conversions, so no record's name moves or disappears. */
  lemma ConvertAppend(a: seq<Named>, b: seq<Named>)
    ensures Convert(a + b) == Convert(a) + Convert(b)
  {
  }

  /** Only the first three cast records matter: anything billed later
      never reaches the tag. */
  lemma TopCastIgnoresLater(a: seq<Named>, b: seq<Named>)
    requires |a| >= 3
    ensures TopCast(a + b) == TopCast(a)
  {
  }

  /** `director`: the names of the crew records whose job is exactly
      "Director", appended in input order. */
  function Directors(crew: seq<Crew>): (r: seq<string>)
    ensures |r| <= |crew|
  {
    if |crew| == 0 then []
    else
      var front := Directors(crew[..|crew| - 1]);
      if crew[|crew| - 1].job == DirectorJob then front + [crew[|crew| - 1].name] else front
  }

  /** `ix` lists, in increasing order, exactly the positions of `crew`
      that hold a director. */
  ghost predicate DirectorIndexList(crew: seq<Crew>, ix: seq<nat>)
  {
    && (forall k :: 0 <= k < |ix| ==> ix[k] < |crew|)
    && (forall k, l :: 0 <= k < l < |ix| ==> ix[k] < ix[l])
    && (forall i :: 0 <= i < |crew| ==> (i in ix <==> crew[i].job == DirectorJob))
  }

  /** Reference definition: the director positions, found one by one. */
  ghost function DirectorPositions(crew: seq<Crew>): (ix: seq<nat>)
    ensures DirectorIndexList(crew, ix)
  {
    if |crew| == 0 then []
    else
      var front := DirectorPositions(crew[..|crew| - 1]);
      if crew[|crew| - 1].job == DirectorJob then front + [|crew| - 1] else front
  }

  /** Dropping the last director position of a list leaves the list of the
      crew before that position, and no director follows it. */
  lemma DropLastDirector(crew: seq<Crew>, a: seq<nat>)
    requires DirectorIndexList(crew, a) && |a| > 0
    ensures a[|a| - 1] < |crew| && crew[a[|a| - 1]].job == DirectorJob
    ensures forall i :: a[|a| - 1] < i < |crew| ==> crew[i].job != DirectorJob
    ensures DirectorIndexList(crew[..a[|a| - 1]], a[..|a| - 1])
  {
  }

  /** A list of director positions is empty exactly when no crew record
      is a director. */
  lemma DirectorListEmpty(crew: seq<Crew>, a: seq<nat>)
    requires DirectorIndexList(crew, a)
    ensures a == [] <==> forall i :: 0 <= i < |crew| ==> crew[i].job != DirectorJob
  {
    if a != [] {
      assert a[0] in a;
    }
  }

  /** Two lists of director positions end at the same, last, director. */
  lemma LastDirectorAgrees(crew: seq<Crew>, a: seq<nat>, b: seq<nat>)
    requires DirectorIndexList(crew, a) && DirectorIndexList(crew, b)
    requires |a| > 0 && |b| > 0
    ensures a[|a| - 1] == b[|b| - 1]
  {
    DropLastDirector(crew, a);
    DropLastDirector(crew, b);
  }

  /** A non-empty list is its front followed by its last element. */
  lemma SplitLast(s: seq<nat>)
    requires |s| > 0
    ensures s == s[..|s| - 1] + [s[|s| - 1]]
  {
  }

  /** A list of director positions is determined by the crew. */
  lemma {:induction false} DirectorIndexListUnique(crew: seq<Crew>, a: seq<nat>, b: seq<nat>)
    requires DirectorIndexList(crew, a) && DirectorIndexList(crew, b)
    ensures a == b
    decreases |a|
  {
    DirectorListEmpty(crew, a);
    DirectorListEmpty(crew, b);
    if a != [] {
      LastDirectorAgrees(crew, a, b);
      DropLastDirector(crew, a);
      DropLastDirector(crew, b);
      var m := a[|a| - 1];
      var a', b' := a[..|a| - 1], b[..|b| - 1];
      DirectorIndexListUnique(crew[..m], a', b');
      SplitLast(a);
      SplitLast(b);
    }
  }

  /** `director` returns exactly the names at the director positions, in
      crew order: every director contributes once and nothing else does. */
  lemma {:induction false} DirectorsExact(crew: seq<Crew>, ix: seq<nat>)
    requires DirectorIndexList(crew, ix)
    ensures |Directors(crew)| == |ix|
    ensures forall k :: 0 <= k < |ix| ==> Directors(crew)[k] == crew[ix[k]].name
  {
    DirectorIndexListUnique(crew, ix, DirectorPositions(crew));
    DirectorsMatchPositions(crew);
  }

  /** `director` and the reference positions agree: name k of the result
      is the name of the record at director position k. */
  lemma {:induction false} DirectorsMatchPositions(crew: seq<Crew>)
    ensures |Directors(crew)| == |DirectorPositions(crew)|
    ensures forall k :: 0 <= k < |Directors(crew)| ==>
      Directors(crew)[k] == crew[DirectorPositions(crew)[k]].name
  {
    if |crew| > 0 {
      var n := |crew| - 1;
      var front := crew[..n];
      var d, ix := Directors(front), DirectorPositions(front);
      DirectorsMatchPositions(front);
      if crew[n].job == DirectorJob {
        assert Directors(crew) == d + [crew[n].name];
        assert DirectorPositions(crew) == ix + [n];
        forall k | 0 <= k < |d| + 1
          ensures (d + [crew[n].name])[k] == crew[(ix + [n])[k]].name
        {
          if k < |d| {
            assert crew[ix[k]] == front[ix[k]];
          }
        }
      } else {
        assert Directors(crew) == d;
        assert DirectorPositions(crew) == ix;
        forall k | 0 <= k < |d|
          ensures d[k] == crew[ix[k]].name
        {
          assert crew[ix[k]] == front[ix[k]];
        }
      }
    }
  }

  /** Crew records are independent: `director` of a concatenation is the
      concatenation of the `director` results. */
  lemma {:induction false} DirectorsAppend(a: seq<Crew>, b: seq<Crew>)
    ensures Directors(a + b) == Directors(a) + Directors(b)
    decreases |b|
  {
    if |b| > 0 {
      var b' := b[..|b| - 1];
      assert (a + b)[..|a + b| - 1] == a + b';
      DirectorsAppend(a, b');
    } else {
      assert a + b == a;
    }
  }

  /** Python's `" ".join(words)`. */
  function Join(words: seq<string>): (r: string)
  {
    if |words| == 0 then ""
    else if |words| == 1 then words[0]
    else words[0] + " " + Join(words[1..])
  }

  /** Python's `s.split(" ")`: cuts at every single space, keeping empty
      pieces; it always yields at least one piece. */
  function Split(s: string): (r: seq<string>)
    ensures |r| >= 1
    decreases |s|
  {
    if ' ' !in s then [s]
    else
      var i := FirstSpace(s);
      [s[..i]] + Split(s[i + 1..])
  }

  function FirstSpace(s: string): (i: nat)
    requires ' ' in s
    ensures i < |s| && s[i] == ' '
    ensures ' ' !in s[..i]
    ensures forall j :: 0 <= j < i ==> s[j] != ' '
  {
    if s[0] == ' ' then 0
    else
      assert ' ' in s[1..] by {
        var j :| 0 <= j < |s| && s[j] == ' ';
        assert s[1..][j - 1] == ' ';
      }
      var j := FirstSpace(s[1..]);
      assert s[..j + 1] == [s[0]] + s[1..][..j];
      j + 1
  }

  /** Joining the pieces of a split gives back the string: no text is lost
      or added by `join` (one direction of the round trip). */
  lemma {:induction false} JoinSplit(s: string)
    ensures Join(Split(s)) == s
    decreases |s|
  {
    if ' ' in s {
      var i := FirstSpace(s);
      var rest := s[i + 1..];
      JoinSplit(rest);
      assert Split(s) == [s[..i]] + Split(rest);
      assert s == s[..i] + " " + rest;
    }
  }

  ghost predicate SpaceFree(words: seq<string>)
  {
    forall k :: 0 <= k < |words| ==> ' ' !in words[k]
  }

  /** In `w + " " + rest` with `w` space-free, the first space is the one
      right after `w`. */
  lemma FirstSpaceAfterWord(w: string, rest: string)
    requires ' ' !in w
    ensures var s := w + " " + rest;
      ' ' in s && FirstSpace(s) == |w| && s[..|w|] == w && s[|w| + 1..] == rest
  {
    var s := w + " " + rest;
    assert s[|w|] == ' ';
    assert forall j :: 0 <= j < |w| ==> s[j] == w[j];
    assert s[|w| + 1..] == rest;
  }

  /** Splitting a join gives back the words, when there is at least one
      word and no word contains a space (the other direction). */
  lemma {:induction false} SplitJoin(words: seq<string>)
    requires |words| >= 1 && SpaceFree(words)
    ensures Split(Join(words)) == words
  {
    if |words| > 1 {
      var w, rest := words[0], Join(words[1..]);
      assert Join(words) == w + " " + rest;
      FirstSpaceAfterWord(w, rest);
      SplitJoin(words[1..]);
      assert Split(Join(words)) == [w] + Split(rest);
    }
  }

  /** Join distributes over concatenation with one separating space, and
      an empty group adds no space at all. */
  lemma {:induction false} JoinAppend(a: seq<string>, b: seq<string>)
    ensures a == [] ==> Join(a + b) == Join(b)
    ensures b == [] ==> Join(a + b) == Join(a)
    ensures a != [] && b != [] ==> Join(a + b) == Join(a) + " " + Join(b)
  {
    if a == [] {
      assert a + b == b;
    } else if b == [] {
      assert a + b == a;
    } else if |a| == 1 {
      assert (a + b)[1..] == b;
    } else {
      assert (a + b)[1..] == a[1..] + b;
      JoinAppend(a[1..], b);
    }
  }

  /** Where the elements of a concatenation come from. */
  lemma ConcatIndex(a: seq<string>, b: seq<string>)
    ensures |a + b| == |a| + |b|
    ensures forall j :: 0 <= j < |a| ==> (a + b)[j] == a[j]
    ensures forall j :: 0 <= j < |b| ==> (a + b)[|a| + j] == b[j]
  {
  }

  /** Where each group's words sit in the concatenation of the four
      groups. */
  lemma TagWordsLayout(m: Movie)
    ensures var g, k, c, d := Convert(m.genres), Convert(m.keywords), TopCast(m.cast), Directors(m.crew);
      var r := g + k + c + d;
      && |r| == |m.genres| + |m.keywords| + Min(3, |m.cast|) + |DirectorPositions(m.crew)|
      && (forall i :: 0 <= i < |m.genres| ==> r[i] == m.genres[i].name)
      && (forall j :: 0 <= j < |m.keywords| ==> r[|m.genres| + j] == m.keywords[j].name)
      && (forall j :: 0 <= j < Min(3, |m.cast|) ==> r[|m.genres| + |m.keywords| + j] == m.cast[j].name)
      && (forall k :: 0 <= k < |DirectorPositions(m.crew)| ==>
            r[|m.genres| + |m.keywords| + Min(3, |m.cast|) + k] == m.crew[DirectorPositions(m.crew)[k]].name)
  {
    var g, k, c, d := Convert(m.genres), Convert(m.keywords), TopCast(m.cast), Directors(m.crew);
    var gk := g + k;
    var gkc := gk + c;
    ConcatIndex(g, k);
    ConcatIndex(gk, c);
    ConcatIndex(gkc, d);
    DirectorsMatchPositions(m.crew);
    var r := gkc + d;
    forall i | 0 <= i < |m.genres|
      ensures r[i] == m.genres[i].name
    {
      assert r[i] == gkc[i] == gk[i] == g[i];
    }
    forall j | 0 <= j < |m.keywords|
      ensures r[|m.genres| + j] == m.keywords[j].name
    {
      assert r[|g| + j] == gkc[|g| + j] == gk[|g| + j] == k[j];
    }
    forall j | 0 <= j < Min(3, |m.cast|)
      ensures r[|m.genres| + |m.keywords| + j] == m.cast[j].name
    {
      assert c[j] == Convert(m.cast)[j];
      assert r[|gk| + j] == gkc[|gk| + j] == c[j];
    }
    var ix := DirectorPositions(m.crew);
    forall j | 0 <= j < |ix|
      ensures r[|m.genres| + |m.keywords| + Min(3, |m.cast|) + j] == m.crew[ix[j]].name
    {
      assert r[|gkc| + j] == d[j];
    }
  }

  /** The word list of a movie's tag: the genre names, then the keyword
      names, then the first three cast names, then the director names, each
      group in input order; its length is the sum of the group sizes. */
  function TagWords(m: Movie): (r: seq<string>)
    ensures |r| == |m.genres| + |m.keywords| + Min(3, |m.cast|) + |DirectorPositions(m.crew)|
    ensures forall i :: 0 <= i < |m.genres| ==> r[i] == m.genres[i].name
    ensures forall j :: 0 <= j < |m.keywords| ==> r[|m.genres| + j] == m.keywords[j].name
    ensures forall j :: 0 <= j < Min(3, |m.cast|) ==>
      r[|m.genres| + |m.keywords| + j] == m.cast[j].name
    ensures forall k :: 0 <= k < |DirectorPositions(m.crew)| ==>
      r[|m.genres| + |m.keywords| + Min(3, |m.cast|) + k] == m.crew[DirectorPositions(m.crew)[k]].name
  {
    TagWordsLayout(m);
    Convert(m.genres) + Convert(m.keywords) + TopCast(m.cast) + Directors(m.crew)
  }

  /** The words of all groups, one group after the other. */
  function Flatten(groups: seq<seq<string>>): (r: seq<string>)
  {
    if |groups| == 0 then [] else groups[0] + Flatten(groups[1..])
  }

  /** The join of every non-empty group, in group order; an empty group
      leaves no entry. */
  function GroupJoins(groups: seq<seq<string>>): (r: seq<string>)
  {
    if |groups| == 0 then []
    else if groups[0] == [] then GroupJoins(groups[1..])
    else [Join(groups[0])] + GroupJoins(groups[1..])
  }

  lemma {:induction false} FlattenEmpty(groups: seq<seq<string>>)
    ensures Flatten(groups) == [] <==> GroupJoins(groups) == []
  {
    if |groups| > 0 {
      FlattenEmpty(groups[1..]);
    }
  }

  /** Joining the words of several groups is joining the joins of the
      non-empty groups: an empty group contributes neither a word nor a
      space, and a non-empty one is separated from its neighbours by one
      space. */
  lemma {:induction false} JoinFlatten(groups: seq<seq<string>>)
    ensures Join(Flatten(groups)) == Join(GroupJoins(groups))
  {
    if |groups| > 0 {
      var g := groups[0];
      var rest := groups[1..];
      JoinFlatten(rest);
      FlattenEmpty(rest);
      JoinAppend(g, Flatten(rest));
      if g != [] {
        var t := GroupJoins(rest);
        assert GroupJoins(groups) == [Join(g)] + t;
        if t != [] {
          assert ([Join(g)] + t)[1..] == t;
        }
      }
    }
  }

  lemma FlattenFour(a: seq<string>, b: seq<string>, c: seq<string>, d: seq<string>)
    ensures Flatten([a, b, c, d]) == a + b + c + d
  {
    var g := [a, b, c, d];
    assert g[1..] == [b, c, d];
    assert [b, c, d][1..] == [c, d];
    assert [c, d][1..] == [d];
    assert [d][1..] == [];
    assert Flatten([d]) == d;
    assert Flatten([c, d]) == c + d;
    assert Flatten([b, c, d]) == b + (c + d);
    assert Flatten(g) == a + (b + (c + d));
  }

  /** The movie's `tags` column: the joined genres, keywords, cast and
      directors, each group present only when non-empty, separated by
      single spaces. */
  function Tag(m: Movie): (r: string)
    ensures r == Join(GroupJoins([Convert(m.genres), Convert(m.keywords),
                                  TopCast(m.cast), Directors(m.crew)]))
  {
    var groups := [Convert(m.genres), Convert(m.keywords), TopCast(m.cast), Directors(m.crew)];
    FlattenFour(Convert(m.genres), Convert(m.keywords), TopCast(m.cast), Directors(m.crew));
    JoinFlatten(groups);
    Join(TagWords(m))
  }

  /** The tag splits back into exactly the four groups' words, in group
      order, when no word contains a space and at least one word exists. */
  lemma TagRoundTrip(m: Movie)
    requires |TagWords(m)| >= 1 && SpaceFree(TagWords(m))
    ensures Split(Tag(m)) == TagWords(m)
  {
    SplitJoin(TagWords(m));
  }
}
