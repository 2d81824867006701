/**
 * The title/year string parser `stringToMovie`: it reads "Title (YYYY)"
 * lines of the exclude list and file names.  The pattern is a four-digit
 * number in parentheses, `\(\d{4,4}\)`.
 */
module TitleYear {
  import opened Wrappers
  import opened Text
  import opened Movies

  predicate IsDigit(c: char) {
    '0' <= c <= '9'
  }

  /** The year pattern matches the six characters of `s` starting at `i`. */
  predicate YearAt(s: string, i: int) {
    && 0 <= i && i + 6 <= |s|
    && s[i] == '('
    && IsDigit(s[i + 1]) && IsDigit(s[i + 2]) && IsDigit(s[i + 3]) && IsDigit(s[i + 4])
    && s[i + 5] == ')'
  }

  /** `re.search` from position `i` on: the leftmost match at or after `i`, if any. */
  function SearchYearFrom(s: string, i: nat): (r: Option<nat>)
    requires i <= |s|
    ensures r.Some? ==> i <= r.value && YearAt(s, r.value)
    ensures r.Some? ==> forall j :: i <= j < r.value ==> !YearAt(s, j)
    ensures r.None? ==> forall j :: i <= j ==> !YearAt(s, j)
    decreases |s| - i
  {
    if i + 6 > |s| then None
    else if YearAt(s, i) then Some(i)
    else SearchYearFrom(s, i + 1)
  }

  /** `yearPattern.search(line)`: the start of the first match. */
  function SearchYear(s: string): (r: Option<nat>)
    ensures r.Some? ==> YearAt(s, r.value) && forall j :: 0 <= j < r.value ==> !YearAt(s, j)
    ensures r.None? ==> forall j :: !YearAt(s, j)
  {
    SearchYearFrom(s, 0)
  }

  /**
   * `re.sub(yearPattern, "", line)`: every match removed, scanning from the
   * left.  Matches of this pattern cannot overlap, and the text left behind
   * is not searched again.
   */
  function RemoveYears(s: string): (r: string)
    ensures |r| <= |s|
  {
    if |s| < 6 then s
    else if YearAt(s, 0) then RemoveYears(s[6..])
    else [s[0]] + RemoveYears(s[1..])
  }

  /** The year field `stringToMovie` gives a line: the digits of the first match, or none. */
  function YearOf(line: string): (year: Option<string>)
    ensures year.Some? <==> SearchYear(line).Some?
    ensures year.Some? ==> |year.value| == 4 && AllDigits(year.value)
    ensures year.Some? ==> YearGroup(year.value) == line[SearchYear(line).value..SearchYear(line).value + 6]
  {
    match SearchYear(line)
    case None => None
    case Some(i) => Some(line[i + 1..i + 5])
  }

  /** The text `re.sub` and `re.search` see for a year `digits`. */
  function YearGroup(digits: string): string {
    "(" + digits + ")"
  }

  predicate AllDigits(digits: string) {
    forall k :: 0 <= k < |digits| ==> IsDigit(digits[k])
  }

  /** A match that lies inside the left part of a concatenation. */
  lemma YearAtLeft(p: string, q: string, j: int)
    requires j + 6 <= |p|
    ensures YearAt(p + q, j) <==> YearAt(p, j)
  {
  }

  /** The first match is the one `re.search` reports. */
  lemma SearchYearFinds(s: string, i: nat)
    requires YearAt(s, i)
    requires forall j :: 0 <= j < i ==> !YearAt(s, j)
    ensures SearchYear(s) == Some(i)
  {
  }

  /** A line without an opening parenthesis holds no year. */
  lemma NoParenthesisNoYear(s: string)
    requires '(' !in s
    ensures forall j :: !YearAt(s, j)
  {
  }

  /** Without a match, `re.sub` gives its input back. */
  lemma {:induction false} RemoveYearsWithoutMatch(s: string)
    requires forall j :: !YearAt(s, j)
    ensures RemoveYears(s) == s
  {
    if |s| >= 6 {
      assert !YearAt(s, 0);
      forall j ensures !YearAt(s[1..], j) {
        if YearAt(s[1..], j) {
          assert YearAt(s, j + 1);
        }
      }
      RemoveYearsWithoutMatch(s[1..]);
      assert s == [s[0]] + s[1..];
    }
  }

  /**
   * `re.sub` removes every year group, not only the first: a group anywhere
   * in the line goes, and the text on either side is processed as on its
   * own.
   */
  lemma RemoveYearsAroundGroup(a: string, digits: string, b: string)
    requires |digits| == 4 && AllDigits(digits)
    ensures RemoveYears(a + YearGroup(digits) + b) == RemoveYears(a) + RemoveYears(b)
  {
    var rest := YearGroup(digits) + b;
    GroupMatches([], digits);
    assert [] + YearGroup(digits) == YearGroup(digits);
    YearAtLeft(YearGroup(digits), b, 0);
    assert rest[6..] == b;
    RemoveYearsBeforeMatch(a, rest);
    assert a + YearGroup(digits) + b == a + rest;
  }

  /** No match can straddle the opening parenthesis of a match, so the text before it is processed on its own. */
  lemma {:induction false} RemoveYearsBeforeMatch(a: string, rest: string)
    requires YearAt(rest, 0)
    ensures RemoveYears(a + rest) == RemoveYears(a) + RemoveYears(rest)
    decreases |a|
  {
    var s := a + rest;
    if a == [] {
      assert s == rest;
    } else if YearAt(s, 0) {
      assert |a| >= 6 && YearAt(a, 0) && s[6..] == a[6..] + rest by {
        assert s[|a|] == '(';
        YearAtLeft(a, rest, 0);
      }
      RemoveYearsBeforeMatch(a[6..], rest);
    } else {
      assert s[1..] == a[1..] + rest;
      RemoveYearsBeforeMatch(a[1..], rest);
      assert RemoveYears(a) == [a[0]] + RemoveYears(a[1..]) by {
        if |a| >= 6 {
          YearAtLeft(a, rest, 0);
        } else {
          assert a == [a[0]] + a[1..];
        }
      }
    }
  }

  /** A year group that ends the text is removed, the text before it processed as on its own. */
  lemma RemoveYearsBeforeGroup(a: string, digits: string)
    requires |digits| == 4 && AllDigits(digits)
    ensures RemoveYears(a + YearGroup(digits)) == RemoveYears(a)
  {
    RemoveYearsAroundGroup(a, digits, []);
    assert a + YearGroup(digits) + [] == a + YearGroup(digits);
  }

  /** A line with two years keeps the first year and loses both groups from its title. */
  lemma TwoYearsExample()
    ensures YearOf("A (2001) B (2002)") == Some("2001")
    ensures Strip(RemoveYears("A (2001) B (2002)")) == "A  B"
  {
    TwoYearsLineShape();
    TwoYearsLine("A ", "2001", " B ", "2002", "A (2001) B (2002)");
    TwoYearsTitle();
  }

  lemma TwoYearsLineShape()
    ensures "A (2001) B (2002)" == "A " + YearGroup("2001") + (" B " + YearGroup("2002"))
    ensures '(' !in "A " && AllDigits("2001") && AllDigits("2002")
  {
  }

  lemma TwoYearsTitle()
    ensures Strip("A " + " B ") == "A  B"
  {
    assert "A " + " B " == "A  B" + " ";
    assert Strip("A  B") == "A  B";
    StripTrailingBlank("A  B");
  }

  /** Two year groups behind short texts: the first group gives the year, both are removed. */
  lemma TwoYearsLine(t1: string, d1: string, t2: string, d2: string, line: string)
    requires line == t1 + YearGroup(d1) + (t2 + YearGroup(d2))
    requires '(' !in t1 && |t1| < 6 && |t2| < 6
    requires |d1| == 4 && AllDigits(d1) && |d2| == 4 && AllDigits(d2)
    ensures YearOf(line) == Some(d1)
    ensures RemoveYears(line) == t1 + t2
  {
    var rest := t2 + YearGroup(d2);
    RemoveYearsAroundGroup(t1, d1, rest);
    RemoveYearsBeforeGroup(t2, d2);
    GroupMatches(t1, d1);
    var head := t1 + YearGroup(d1);
    assert line == head + rest;
    YearAtLeft(head, rest, |t1|);
    assert line[|t1| + 1..|t1| + 5] == head[|t1| + 1..|t1| + 5];
    forall j | 0 <= j < |t1| ensures !YearAt(line, j) {
      assert line[j] == t1[j];
    }
    SearchYearFinds(line, |t1|);
  }

  /**
   * stringToMovie: `None` for a line that is blank and has no year;
   * otherwise a fresh record whose year is the first group's digits (or
   * `None`) and whose title is the line with every group removed, stripped.
   */
  method StringToMovie(line: string) returns (movie: Option<Movie>)
    ensures movie.None? <==> SearchYear(line).None? && AllSpace(line)
    ensures movie.Some? ==> movie.value == Blank.(title := Strip(RemoveYears(line)), year := YearOf(line))
  {
    var yearMatch := SearchYear(line);
    var year: Option<string> := None;
    var rest := line;
    if yearMatch.Some? {
      year := Some(line[yearMatch.value + 1..yearMatch.value + 5]);
      rest := RemoveYears(line);
    } else {
      RemoveYearsWithoutMatch(line);
    }
    var title := Strip(rest);
    StripEmptyIff(rest);
    if title == "" && year.None? {
      return None;
    }
    movie := Some(Blank.(title := title, year := year));
  }

  /**
   * Round trip with the "Title (Year)" form the rename step writes: a line
   * made of a stripped, year-free title, a blank and a year group parses back
   * to that title and year.
   */
  lemma TitleYearRoundTrip(title: string, digits: string)
    requires Strip(title) == title
    requires forall j :: !YearAt(title, j)
    requires |digits| == 4 && AllDigits(digits)
    ensures SearchYear(title + " " + YearGroup(digits)) == Some(|title| + 1)
    ensures YearOf(title + " " + YearGroup(digits)) == Some(digits)
    ensures Strip(RemoveYears(title + " " + YearGroup(digits))) == title
  {
    SearchYearOfTitleLine(title, digits);
    TitleOfTitleLine(title, digits);
  }

  lemma TitleOfTitleLine(title: string, digits: string)
    requires Strip(title) == title
    requires forall j :: !YearAt(title, j)
    requires |digits| == 4 && AllDigits(digits)
    ensures Strip(RemoveYears(title + " " + YearGroup(digits))) == title
  {
    StripTrailingBlank(title);
    RemoveYearsOfTitleLine(title, digits);
  }

  lemma SearchYearOfTitleLine(title: string, digits: string)
    requires forall j :: !YearAt(title, j)
    requires |digits| == 4 && AllDigits(digits)
    ensures SearchYear(title + " " + YearGroup(digits)) == Some(|title| + 1)
    ensures YearOf(title + " " + YearGroup(digits)) == Some(digits)
  {
    var a := title + " ";
    var line := a + YearGroup(digits);
    assert title + " " + YearGroup(digits) == line;
    NoYearBeforeGroup(title, digits);
    GroupMatches(a, digits);
    SearchYearFinds(line, |a|);
  }

  /** A year group is a match, and its digits are the year. */
  lemma GroupMatches(a: string, digits: string)
    requires |digits| == 4 && AllDigits(digits)
    ensures YearAt(a + YearGroup(digits), |a|)
    ensures (a + YearGroup(digits))[|a| + 1..|a| + 5] == digits
  {
    var g := YearGroup(digits);
    assert forall k :: 1 <= k < 5 ==> g[k] == digits[k - 1];
    assert (a + g)[|a|..] == g;
  }

  lemma RemoveYearsOfTitleLine(title: string, digits: string)
    requires forall j :: !YearAt(title, j)
    requires |digits| == 4 && AllDigits(digits)
    ensures RemoveYears(title + " " + YearGroup(digits)) == title + " "
  {
    RemoveYearsBeforeGroup(title + " ", digits);
    NoYearBeforeBlank(title);
    RemoveYearsWithoutMatch(title + " ");
  }

  /** A blank after a year-free title does not complete a match. */
  lemma NoYearBeforeBlank(title: string)
    requires forall j :: !YearAt(title, j)
    ensures forall j :: !YearAt(title + " ", j)
  {
    forall j | j + 6 <= |title| ensures !YearAt(title + " ", j) {
      YearAtLeft(title, " ", j);
    }
  }

  lemma NoYearBeforeGroup(title: string, digits: string)
    requires forall j :: !YearAt(title, j)
    requires |digits| == 4 && AllDigits(digits)
    ensures forall j :: 0 <= j <= |title| ==> !YearAt(title + " " + YearGroup(digits), j)
  {
    var a := title + " ";
    var g := YearGroup(digits);
    var line := a + g;
    assert forall k :: 1 <= k < 5 ==> g[k] == digits[k - 1];
    forall j | 0 <= j <= |title| ensures !YearAt(line, j) {
      if j + 6 <= |a| {
        YearAtLeft(a, g, j);
        NoYearBeforeBlank(title);
      } else if j + 6 <= |line| {
        assert line[j + 5] == g[j + 5 - |a|];
      }
    }
  }

  /** The program's own test lines parse as its test expects. */
  lemma StringToMovieTestLines()
    ensures YearOf("Inception (2012)") == Some("2012")
    ensures Strip(RemoveYears("Inception (2012)")) == "Inception"
    ensures YearOf("127 Hours (2010)") == Some("2010")
    ensures Strip(RemoveYears("127 Hours (2010)")) == "127 Hours"
  {
    InceptionLineShape();
    InceptionIsStripped();
    TestLine("Inception", "2012", "Inception (2012)");
    HoursLineShape();
    HoursIsStripped();
    TestLine("127 Hours", "2010", "127 Hours (2010)");
  }

  lemma InceptionLineShape()
    ensures "Inception (2012)" == "Inception" + " " + YearGroup("2012")
    ensures '(' !in "Inception" && AllDigits("2012")
  {
  }

  lemma InceptionIsStripped()
    ensures Strip("Inception") == "Inception"
  {
  }

  lemma HoursLineShape()
    ensures "127 Hours (2010)" == "127 Hours" + " " + YearGroup("2010")
    ensures '(' !in "127 Hours" && AllDigits("2010")
  {
  }

  lemma HoursIsStripped()
    ensures Strip("127 Hours") == "127 Hours"
  {
  }

  lemma TestLine(title: string, digits: string, line: string)
    requires line == title + " " + YearGroup(digits)
    requires '(' !in title && Strip(title) == title
    requires |digits| == 4 && AllDigits(digits)
    ensures YearOf(line) == Some(digits)
    ensures Strip(RemoveYears(line)) == title
  {
    NoParenthesisNoYear(title);
    TitleYearRoundTrip(title, digits);
  }

  /**
   * A line holding only "()" is not blank, so it becomes a record titled
   * "()" without a year: the parser returns `None` only for blank lines.
   */
  lemma EmptyParenthesesAreATitle()
    ensures SearchYear("()").None? && !AllSpace("()")
    ensures Strip(RemoveYears("()")) == "()"
  {
    assert !IsSpace("()"[0]);
  }
}
