/**
 * The matcher, the classifier and the comparison driver: `findMovieWithTitleAndYear`,
 * `findmovie` and `comparemovies`.
 */
module Matching {
  import opened Wrappers
  import opened Movies

  /** Two records stand for the same film when title and year are equal (exact, case-sensitive). */
  predicate SameFilm(a: Movie, b: Movie) {
    a.title == b.title && a.year == b.year
  }

  /** `a` is `b` with some elements left out, the rest kept in order. */
  ghost predicate Subsequence<T>(a: seq<T>, b: seq<T>)
    decreases |b|
  {
    a == [] || (b != [] && ((a[0] == b[0] && Subsequence(a[1..], b[1..])) || Subsequence(a, b[1..])))
  }

  /**
   * findMovieWithTitleAndYear: the records of `list` that are the same film
   * as `movie`, in the order of `list`.
   */
  function FindMovieWithTitleAndYear(movie: Movie, list: seq<Movie>): (found: seq<Movie>)
    ensures forall m <- found :: SameFilm(movie, m) && m in list
    ensures |found| <= |list|
  {
    if list == [] then []
    else
      var rest := FindMovieWithTitleAndYear(movie, list[1..]);
      if SameFilm(movie, list[0]) then [list[0]] + rest else rest
  }

  /**
   * The filter keeps exactly the matching records: each record of the
   * film as often as `list` holds it, no other record, and in the order of `list`.
   */
  lemma {:induction false} FindIsExactFilter(movie: Movie, list: seq<Movie>)
    ensures forall m :: multiset(FindMovieWithTitleAndYear(movie, list))[m] ==
                        if SameFilm(movie, m) then multiset(list)[m] else 0
    ensures Subsequence(FindMovieWithTitleAndYear(movie, list), list)
  {
    if list != [] {
      var rest := FindMovieWithTitleAndYear(movie, list[1..]);
      FindIsExactFilter(movie, list[1..]);
      assert list == [list[0]] + list[1..];
      if SameFilm(movie, list[0]) {
        assert ([list[0]] + rest)[1..] == rest;
      } else {
        SubsequenceOfSuffix(rest, [list[0]], list[1..]);
      }
    }
  }

  /** No record is found exactly when no record of the list is the same film. */
  lemma {:induction false} FindEmptyIff(movie: Movie, list: seq<Movie>)
    ensures FindMovieWithTitleAndYear(movie, list) == [] <==>
            forall i :: 0 <= i < |list| ==> !SameFilm(movie, list[i])
  {
    if list != [] {
      FindEmptyIff(movie, list[1..]);
      if !SameFilm(movie, list[0]) {
        forall i | 1 <= i < |list| ensures list[i] == list[1..][i - 1] { }
      }
    }
  }

  /** At least two records are found exactly when two positions of the list hold the film. */
  lemma FindAtLeastTwoIff(movie: Movie, list: seq<Movie>)
    ensures |FindMovieWithTitleAndYear(movie, list)| >= 2 <==>
            exists i, j :: 0 <= i < j < |list| && SameFilm(movie, list[i]) && SameFilm(movie, list[j])
  {
    if exists i, j :: 0 <= i < j < |list| && SameFilm(movie, list[i]) && SameFilm(movie, list[j]) {
      var i, j :| 0 <= i < j < |list| && SameFilm(movie, list[i]) && SameFilm(movie, list[j]);
      TwoPositionsAreFound(movie, list, i, j);
    }
    if |FindMovieWithTitleAndYear(movie, list)| >= 2 {
      var i, j := TwoFoundArePositions(movie, list);
    }
  }

  lemma {:induction false} TwoPositionsAreFound(movie: Movie, list: seq<Movie>, i: int, j: int)
    requires 0 <= i < j < |list| && SameFilm(movie, list[i]) && SameFilm(movie, list[j])
    ensures |FindMovieWithTitleAndYear(movie, list)| >= 2
  {
    var tail := list[1..];
    assert list[j] == tail[j - 1];
    if i > 0 {
      assert list[i] == tail[i - 1];
      TwoPositionsAreFound(movie, tail, i - 1, j - 1);
    } else {
      FindEmptyIff(movie, tail);
    }
  }

  lemma {:induction false} TwoFoundArePositions(movie: Movie, list: seq<Movie>) returns (i: int, j: int)
    requires |FindMovieWithTitleAndYear(movie, list)| >= 2
    ensures 0 <= i < j < |list| && SameFilm(movie, list[i]) && SameFilm(movie, list[j])
  {
    var tail := list[1..];
    if SameFilm(movie, list[0]) {
      FindEmptyIff(movie, tail);
      var k :| 0 <= k < |tail| && SameFilm(movie, tail[k]);
      assert tail[k] == list[k + 1];
      i, j := 0, k + 1;
    } else {
      var i', j' := TwoFoundArePositions(movie, tail);
      assert tail[i'] == list[i' + 1] && tail[j'] == list[j' + 1];
      i, j := i' + 1, j' + 1;
    }
  }

  /** Position `i` holds the film and no other position does. */
  predicate OnlyMatchAt(movie: Movie, list: seq<Movie>, i: int) {
    && 0 <= i < |list|
    && SameFilm(movie, list[i])
    && forall j :: 0 <= j < |list| && j != i ==> !SameFilm(movie, list[j])
  }

  /** Exactly one record is found exactly when one position holds the film, and it is that record. */
  lemma FindExactlyOne(movie: Movie, list: seq<Movie>, i: int)
    requires OnlyMatchAt(movie, list, i)
    ensures FindMovieWithTitleAndYear(movie, list) == [list[i]]
  {
    var found := FindMovieWithTitleAndYear(movie, list);
    FindEmptyIff(movie, list);
    FindAtLeastTwoIff(movie, list);
    assert |found| == 1;
    var m := found[0];
    assert multiset(found)[m] > 0;
    assert m in list;
    var k :| 0 <= k < |list| && list[k] == m;
    assert k == i;
  }

  /** The single record found sits at the only position that holds the film. */
  lemma FoundOneIsOnlyMatch(movie: Movie, list: seq<Movie>) returns (i: int)
    requires |FindMovieWithTitleAndYear(movie, list)| == 1
    ensures OnlyMatchAt(movie, list, i)
  {
    var found := FindMovieWithTitleAndYear(movie, list);
    FindAtLeastTwoIff(movie, list);
    assert multiset(found)[found[0]] > 0;
    assert found[0] in list;
    i :| 0 <= i < |list| && list[i] == found[0];
  }

  /**
   * findmovie: NEW when the reference list does not hold the film,
   * DUPLICATE when it holds it at least twice, and for a single match
   * RESOLUTION when the candidate has more pixels, otherwise nothing.
   */
  function FindMovie(movie: Movie, list: seq<Movie>): (r: Option<FindResult>)
    ensures r.Some? ==> r.value.movie == movie
  {
    var found := FindMovieWithTitleAndYear(movie, list);
    if |found| == 0 then Some(FindResult(New, movie))
    else if |found| == 1 then
      if movie.Area() > found[0].Area() then Some(FindResult(Resolution, movie)) else None
    else Some(FindResult(Duplicate, movie))
  }

  /** The decision table of the classifier, stated over positions of the reference list. */
  lemma FindMovieDecisionTable(movie: Movie, list: seq<Movie>)
    ensures FindMovie(movie, list) == Some(FindResult(New, movie)) <==>
            forall i :: 0 <= i < |list| ==> !SameFilm(movie, list[i])
    ensures FindMovie(movie, list) == Some(FindResult(Duplicate, movie)) <==>
            exists i, j :: 0 <= i < j < |list| && SameFilm(movie, list[i]) && SameFilm(movie, list[j])
    ensures FindMovie(movie, list) == Some(FindResult(Resolution, movie)) <==>
            exists i :: OnlyMatchAt(movie, list, i) && movie.Area() > list[i].Area()
    ensures FindMovie(movie, list) == None <==>
            exists i :: OnlyMatchAt(movie, list, i) && movie.Area() <= list[i].Area()
  {
    var found := FindMovieWithTitleAndYear(movie, list);
    FindEmptyIff(movie, list);
    FindAtLeastTwoIff(movie, list);
    if |found| == 1 {
      var i := FoundOneIsOnlyMatch(movie, list);
      FindExactlyOne(movie, list, i);
      forall k | OnlyMatchAt(movie, list, k) ensures k == i { }
    } else {
      forall k | OnlyMatchAt(movie, list, k) ensures false {
        FindExactlyOne(movie, list, k);
      }
    }
  }

  /** The classifier on a one-film reference list: better, worse and equal copies, no copy, two copies, another title. */
  lemma ClassifierExamples(x: Movie)
    requires x.title == "X" && x.year == Some("2000")
    ensures var better := x.(resolutionWidth := 1920, resolutionHeight := 1080);
            FindMovie(better, [x.(resolutionWidth := 1280, resolutionHeight := 720)]) ==
            Some(FindResult(Resolution, better))
    ensures FindMovie(x.(resolutionWidth := 640, resolutionHeight := 480),
                      [x.(resolutionWidth := 1280, resolutionHeight := 720)]) == None
    ensures FindMovie(x, [x]) == None
    ensures FindMovie(x, []) == Some(FindResult(New, x))
    ensures FindMovie(x, [x, x.(filename := "copy")]) == Some(FindResult(Duplicate, x))
    ensures FindMovie(x, [x.(title := "x")]) == Some(FindResult(New, x))
  {
    var other := x.(filename := "copy");
    assert [x, other][1..] == [other] && [other][1..] == [];
    assert FindMovieWithTitleAndYear(x, [other]) == [other];
    assert |FindMovieWithTitleAndYear(x, [x, other])| == 2;
  }

  /** What one movie of the second list contributes: nothing if excluded, else its classification. */
  function Outcome(movies1: seq<Movie>, excludelist: seq<Movie>, movie: Movie): seq<FindResult> {
    if FindMovieWithTitleAndYear(movie, excludelist) != [] then []
    else match FindMovie(movie, movies1)
      case None => []
      case Some(r) => [r]
  }

  /** The results `comparemovies` collects from `movies2`, in its order. */
  function CompareSpec(movies1: seq<Movie>, movies2: seq<Movie>, excludelist: seq<Movie>): seq<FindResult>
    decreases |movies2|
  {
    if movies2 == [] then []
    else CompareSpec(movies1, movies2[..|movies2| - 1], excludelist)
         + Outcome(movies1, excludelist, movies2[|movies2| - 1])
  }

  /**
   * comparemovies: walks `movies2` in order, skips every movie that the
   * exclude list holds, classifies the rest against `movies1` and keeps the
   * outcomes that are not `None`.
   */
  method CompareMovies(movies1: seq<Movie>, movies2: seq<Movie>, excludelist: seq<Movie>)
    returns (results: seq<FindResult>)
    ensures results == CompareSpec(movies1, movies2, excludelist)
    ensures |results| <= |movies2|
    ensures forall r <- results :: r.movie in movies2
    ensures forall r <- results :: FindMovieWithTitleAndYear(r.movie, excludelist) == []
    ensures forall r <- results :: FindMovie(r.movie, movies1) == Some(r)
  {
    results := [];
    for i := 0 to |movies2|
      invariant results == CompareSpec(movies1, movies2[..i], excludelist)
      invariant |results| <= i
      invariant forall r <- results :: r.movie in movies2[..i]
      invariant forall r <- results :: FindMovieWithTitleAndYear(r.movie, excludelist) == []
      invariant forall r <- results :: FindMovie(r.movie, movies1) == Some(r)
    {
      var movie := movies2[i];
      assert movies2[..i + 1][..i] == movies2[..i];
      var foundmovie := FindMovieWithTitleAndYear(movie, excludelist);
      if |foundmovie| > 0 {
        continue;
      }
      var findresult := FindMovie(movie, movies1);
      if findresult.Some? {
        results := results + [findresult.value];
      }
    }
    assert movies2[..|movies2|] == movies2;
  }

  /** The outcomes of two consecutive stretches of `movies2` are concatenated in the same order. */
  lemma {:induction false} CompareSpecAppend(movies1: seq<Movie>, a: seq<Movie>, b: seq<Movie>, excludelist: seq<Movie>)
    ensures CompareSpec(movies1, a + b, excludelist) ==
            CompareSpec(movies1, a, excludelist) + CompareSpec(movies1, b, excludelist)
    decreases |b|
  {
    if b == [] {
      assert a + b == a;
    } else {
      var b' := b[..|b| - 1];
      assert (a + b)[..|a + b| - 1] == a + b';
      assert (a + b)[|a + b| - 1] == b[|b| - 1];
      CompareSpecAppend(movies1, a, b', excludelist);
    }
  }

  /** The movies of a result list, in order. */
  function MoviesOf(results: seq<FindResult>): seq<Movie> {
    seq(|results|, k requires 0 <= k < |results| => results[k].movie)
  }

  lemma {:induction false} SubsequenceAppend<T>(a: seq<T>, b: seq<T>, c: seq<T>, d: seq<T>)
    requires Subsequence(a, b) && Subsequence(c, d)
    ensures Subsequence(a + c, b + d)
    decreases |b|
  {
    if a == [] {
      SubsequenceOfSuffix(c, b, d);
      assert a + c == c;
    } else if a[0] == b[0] && Subsequence(a[1..], b[1..]) {
      SubsequenceAppend(a[1..], b[1..], c, d);
      assert (a + c)[1..] == a[1..] + c && (b + d)[1..] == b[1..] + d;
    } else {
      SubsequenceAppend(a, b[1..], c, d);
      assert (b + d)[1..] == b[1..] + d;
    }
  }

  lemma {:induction false} SubsequenceOfSuffix<T>(c: seq<T>, b: seq<T>, d: seq<T>)
    requires Subsequence(c, d)
    ensures Subsequence(c, b + d)
    decreases |b|
  {
    if b != [] {
      SubsequenceOfSuffix(c, b[1..], d);
      assert (b + d)[1..] == b[1..] + d;
    } else {
      assert b + d == d;
    }
  }

  /**
   * What the comparison promises: it is ordered like `movies2` (its movies
   * form a subsequence of `movies2`), it has at most one entry per movie of
   * `movies2`, every entry is the classification of its movie, and no movie
   * that the exclude list holds appears under any kind.
   */
  lemma {:induction false} CompareSpecProperties(movies1: seq<Movie>, movies2: seq<Movie>, excludelist: seq<Movie>)
    ensures Subsequence(MoviesOf(CompareSpec(movies1, movies2, excludelist)), movies2)
    ensures |CompareSpec(movies1, movies2, excludelist)| <= |movies2|
    ensures forall r <- CompareSpec(movies1, movies2, excludelist) ::
              FindMovie(r.movie, movies1) == Some(r)
    ensures forall r <- CompareSpec(movies1, movies2, excludelist), e <- excludelist ::
              !SameFilm(r.movie, e)
  {
    CompareSpecOrdered(movies1, movies2, excludelist);
    CompareSpecClassified(movies1, movies2, excludelist);
  }

  /** An outcome is at most the one classification of a movie that is not excluded. */
  lemma OutcomeProperties(movies1: seq<Movie>, excludelist: seq<Movie>, movie: Movie)
    ensures |Outcome(movies1, excludelist, movie)| <= 1
    ensures forall r <- Outcome(movies1, excludelist, movie) ::
              r.movie == movie && FindMovie(movie, movies1) == Some(r) && forall e <- excludelist :: !SameFilm(movie, e)
  {
    if Outcome(movies1, excludelist, movie) != [] {
      FindEmptyIff(movie, excludelist);
      forall e <- excludelist ensures !SameFilm(movie, e) {
        var i :| 0 <= i < |excludelist| && excludelist[i] == e;
      }
    }
  }

  lemma {:induction false} CompareSpecOrdered(movies1: seq<Movie>, movies2: seq<Movie>, excludelist: seq<Movie>)
    ensures Subsequence(MoviesOf(CompareSpec(movies1, movies2, excludelist)), movies2)
    ensures |CompareSpec(movies1, movies2, excludelist)| <= |movies2|
    decreases |movies2|
  {
    if movies2 != [] {
      var init := movies2[..|movies2| - 1];
      var last := movies2[|movies2| - 1];
      CompareSpecOrdered(movies1, init, excludelist);
      var out := Outcome(movies1, excludelist, last);
      OutcomeProperties(movies1, excludelist, last);
      var before := CompareSpec(movies1, init, excludelist);
      MoviesOfAppend(before, out);
      OutcomeIsSubsequence(out, last);
      InitAndLast(movies2);
      SubsequenceAppend(MoviesOf(before), init, MoviesOf(out), [last]);
    }
  }

  lemma InitAndLast<T>(s: seq<T>)
    requires s != []
    ensures s[..|s| - 1] + [s[|s| - 1]] == s
  {
  }

  lemma MoviesOfAppend(a: seq<FindResult>, b: seq<FindResult>)
    ensures MoviesOf(a + b) == MoviesOf(a) + MoviesOf(b)
  {
  }

  lemma OutcomeIsSubsequence(out: seq<FindResult>, last: Movie)
    requires |out| <= 1 && forall r <- out :: r.movie == last
    ensures Subsequence(MoviesOf(out), [last])
  {
    if out != [] {
      assert MoviesOf(out) == [last];
      assert [last][1..] == [] && MoviesOf(out)[1..] == [];
    }
  }

  lemma {:induction false} CompareSpecClassified(movies1: seq<Movie>, movies2: seq<Movie>, excludelist: seq<Movie>)
    ensures forall r <- CompareSpec(movies1, movies2, excludelist) ::
              FindMovie(r.movie, movies1) == Some(r)
    ensures forall r <- CompareSpec(movies1, movies2, excludelist), e <- excludelist ::
              !SameFilm(r.movie, e)
    decreases |movies2|
  {
    if movies2 != [] {
      var init := movies2[..|movies2| - 1];
      var last := movies2[|movies2| - 1];
      CompareSpecClassified(movies1, init, excludelist);
      OutcomeProperties(movies1, excludelist, last);
    }
  }

  /** Every movie of `movies2` that is not excluded and classifies to a result has it in the output. */
  lemma CompareSpecComplete(movies1: seq<Movie>, movies2: seq<Movie>, excludelist: seq<Movie>, j: int)
    requires 0 <= j < |movies2|
    requires forall e <- excludelist :: !SameFilm(movies2[j], e)
    requires FindMovie(movies2[j], movies1).Some?
    ensures FindMovie(movies2[j], movies1).value in CompareSpec(movies1, movies2, excludelist)
  {
    var m := movies2[j];
    assert movies2 == (movies2[..j] + [m]) + movies2[j + 1..];
    CompareSpecAppend(movies1, movies2[..j] + [m], movies2[j + 1..], excludelist);
    CompareSpecAppend(movies1, movies2[..j], [m], excludelist);
    FindEmptyIff(m, excludelist);
    assert CompareSpec(movies1, [m], excludelist) == Outcome(movies1, excludelist, m) by {
      assert [m][..0] == [];
    }
  }
}
