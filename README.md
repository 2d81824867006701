# movielist: the comparison core

`movielist.py` compares two movie catalogues exported from a media centre
(XBMC) as XML. It reads every `<movie>` element of both files into a `Movie`
record. The records are matched on title and year. A movie of the second
catalogue is then classified against the first:

- NEW: the first catalogue does not have it.
- DUPLICATE: the first catalogue has it more than once.
- RESOLUTION: the first catalogue has it once, with fewer pixels.

Movies named in an optional exclude list are skipped. Each exclude-list line
has the form `Title (Year)` or just `Title`. The results are written grouped by kind, and
each group is sorted by title.

This project models that core in Dafny. The modules are:

- `Wrappers`: the `Option` type.
- `Text`: Python's `str.strip` and its whitespace set, and the `str`
  ordering that `sorted` uses.
- `Movies`: the `Movie` record, its resolution label, and the `FindResult`
  outcome with its three kinds.
- `TitleYear`: `stringToMovie`, the parser for "Title (Year)" lines. It is
  modelled on top of `re.search` and `re.sub` for the pattern `\(\d{4,4}\)`.
- `Matching`: the following functions:
  - `findMovieWithTitleAndYear`, the filter on (title, year);
  - `findmovie`, the classifier;
  - `comparemovies`, the loop over the second catalogue. It is a method,
    proved against the function `CompareSpec`.
- `Report`: the ordering of `exportdifflist`. This covers:
  - a stable `sorted` on the kind name;
  - `itertools.groupby` on it;
  - a stable `sorted` on the title within every group;
  - the lines written for the groups.
- `Catalog`: the per-element work of `parsexml`. `ExtractMovie` builds one
  record from the children of one `<movie>` element. `ParseXml` is the loop
  over all elements, in document order.

Python objects that are never changed after they are built are datatypes
here (`Movie`, `FindResult`). `parsexml` and `stringToMovie` fill a fresh
record field by field, so they are methods that update a copy of the blank
record. `comparemovies` is a method with a loop. Sorting and grouping are
pure functions.

One might expect a line holding only `()` to yield no movie. The code does
not: `()` is not a year match and is not blank, so `stringToMovie` returns a
movie titled `()`. The model follows the code
(`TitleYear.EmptyParenthesesAreATitle`).

## Model

| member | source | states |
|---|---|---|
| Text.Strip | movielist.py:144 | `str.strip`: its contract is stated by `Text.StripIsMaximalSlice`, `Text.StripEmptyIff` and `Text.StripTrailingBlanks`. |
| Text.StripIsMaximalSlice | movielist.py:144 | `strip` returns a slice of the line. Everything cut away on either side is whitespace, and the result neither starts nor ends with whitespace. |
| Text.StripEmptyIff | movielist.py:144-146 | A line strips to the empty title exactly when it is whitespace throughout. |
| Text.StripTrailingBlanks | movielist.py:144 | Stripping an already stripped text followed by whitespace gives the text back. |
| Text.IsSpace | movielist.py:144 | The characters Python's `str.isspace` accepts, the set `strip` cuts; `Text.StripIsMaximalSlice` states `strip` by it. |
| Text.LexLe | movielist.py:157-161 | Python's `<=` on `str`, by code point with a proper prefix first, as `sorted` compares keys. `Text.LexLeReflexive`, `Text.LexLeTotal`, `Text.LexLeAntisymmetric` and `Text.LexLeTransitive` state that it is a total order. |
| Text.LexLeReflexive | movielist.py:157 | Every key is at most itself. |
| Text.LexLeTotal | movielist.py:157 | Any two `str` sort keys are comparable. |
| Text.LexLeAntisymmetric | movielist.py:157 | Two keys that are each at most the other are equal. |
| Text.LexLeTransitive | movielist.py:157 | The key order is transitive. |
| Movies.Blank | movielist.py:272-279 | `Movie.__init__`: every text empty, the original title and year `""` (lines 274-275), the resolution 0x0. `TitleYear.StringToMovie` and `Catalog.ExtractMovie` state which fields they change from it; `Movies.ResolutionSymbolExamples` gives it the label `?`. |
| Movies.Movie.Area | movielist.py:195-196 | The pixel product width times height that the classifier compares; `Matching.FindMovieDecisionTable` states the comparison. |
| Movies.Kind.Name | movielist.py:190-200 | The `difftype` strings `DUPLICATE`, `NEW`, `RESOLUTION`. `Report.KindNamesAscending` orders them and `Report.NameInjective` keeps them distinct. |
| Movies.FindResult | movielist.py:202-205 | The classification outcome: a `difftype` (as a `Kind`) and the movie. |
| Movies.Movie.ResolutionSymbol | movielist.py:284-293 | The label is `?` when width or height is 0. Otherwise it is `FullHD` from 1920x1080, `HD` from 1280x720, else `SD`. Each label comes with both directions of its condition. |
| Movies.ResolutionSymbolExamples | movielist.py:284-293 | The boundary cases: 0x0 and 1920x0 are `?`; 1920x1080 is `FullHD`; 1280x720 and 1920x1079 are `HD`; 1279x720 is `SD`. |
| Movies.ResolutionSymbolMonotone | movielist.py:284-293 | Among known resolutions, growing both dimensions never lowers the label. |
| TitleYear.SearchYearFrom | movielist.py:135-136 | The search returns the leftmost position at or after the start where `(dddd)` matches, or none when there is no match. |
| TitleYear.SearchYear | movielist.py:136 | `re.search` on the line: a result is a match and no match lies before it; no result means no position of the line matches. |
| TitleYear.YearOf | movielist.py:136-139 | A year exists exactly when the search finds a match. It is four digits, and in parentheses it is exactly the text of the first match (`group()` of line 139). |
| TitleYear.IsDigit | movielist.py:135 | `\d`, taken as the ASCII digits (see "## Left out"). |
| TitleYear.YearAt | movielist.py:135 | The pattern `\(\d{4,4}\)` matching the six characters at a position: `(`, four ASCII digits, `)`. Its properties are stated by `TitleYear.SearchYearFrom`, `TitleYear.NoParenthesisNoYear` and `TitleYear.GroupMatches`. |
| TitleYear.RemoveYears | movielist.py:141 | `re.sub` never lengthens the line. `TitleYear.RemoveYearsWithoutMatch` and `TitleYear.RemoveYearsAroundGroup` state what it removes. |
| TitleYear.RemoveYearsWithoutMatch | movielist.py:141 | `re.sub` leaves a line without a year group unchanged. |
| TitleYear.RemoveYearsAroundGroup | movielist.py:141 | A year group anywhere in the line is removed, and the texts before and after it are processed as on their own. So every group goes, not only the first. |
| TitleYear.RemoveYearsBeforeMatch | movielist.py:141 | Before any match, the text is processed as on its own: no match straddles the match's opening parenthesis. |
| TitleYear.RemoveYearsBeforeGroup | movielist.py:141 | Removing all year groups from a text followed by a year group gives the same result as removing them from the text alone. |
| TitleYear.TwoYearsExample | movielist.py:135-144 | `A (2001) B (2002)` gets the year `2001` and the title `A  B`: both groups are removed. |
| TitleYear.StringToMovie | movielist.py:131-151 | The result is `None` exactly when the line has no year group and is all whitespace. Otherwise it is a fresh record. Its year is the digits of the first group, or `None`. Its title is the line with every group removed, stripped. |
| TitleYear.TitleYearRoundTrip | movielist.py:131-151 | A stripped, year-free title followed by a blank and `(dddd)` parses back to that title and those four digits. This is the `Title (Year)` form of the rename step (line 89). |
| TitleYear.StringToMovieTestLines | movielist.py:15-24 | `Inception (2012)` and `127 Hours (2010)` parse to the titles and years the unit test expects. |
| TitleYear.EmptyParenthesesAreATitle | movielist.py:144-146 | `()` has no year match and is not blank, so its title is `()`. |
| Matching.SameFilm | movielist.py:183 | The filter predicate: equal title and equal year, `None` only equal to `None`. `Matching.FindIsExactFilter` and `Matching.FindEmptyIff` state the filter by it. |
| Matching.FindMovieWithTitleAndYear | movielist.py:182-184 | Every movie found has the title and year of the one looked up and comes from the list. The result is no longer than the list. |
| Matching.FindIsExactFilter | movielist.py:182-184 | The result is the sub-multiset of the list that matches, and it keeps the list's order (a subsequence). |
| Matching.FindEmptyIff | movielist.py:182-184 | Nothing is found exactly when no position of the list matches. |
| Matching.FindAtLeastTwoIff | movielist.py:182-187 | At least two are found exactly when two distinct positions match. |
| Matching.FindExactlyOne | movielist.py:182-194 | When exactly one position matches, the filter returns exactly that movie. |
| Matching.FindMovie | movielist.py:186-200 | A result, when there is one, carries the movie that was classified. |
| Matching.FindMovieDecisionTable | movielist.py:186-200 | Both directions of each case, over positions of the reference list. NEW when no position matches. DUPLICATE when two do. RESOLUTION when exactly one matches and has fewer pixels. `None` when exactly one matches and has at least as many pixels. |
| Matching.ClassifierExamples | movielist.py:186-200 | Proved on concrete records: a higher resolution, a lower one, an equal one, an empty list, two copies, and a title differing in case. |
| Matching.Outcome | movielist.py:168-178 | The loop body for one movie: nothing when the exclude list holds it, else its classification when there is one. `Matching.OutcomeProperties` states it. |
| Matching.CompareSpec | movielist.py:165-180 | The results collected over the second list, in order. `Matching.CompareMovies` is proved equal to it; `Matching.CompareSpecProperties`, `Matching.CompareSpecComplete` and `Matching.CompareSpecAppend` state its properties. |
| Matching.CompareMovies | movielist.py:165-180 | The loop's result equals `CompareSpec`. It has at most one entry per movie of the second list. Every entry's movie is from the second list and not excluded, and the entry is that movie's classification. |
| Matching.CompareSpecProperties | movielist.py:165-180 | The result is ordered like the second list: its movies are a subsequence. It has at most one entry per movie. Every entry is its movie's classification. No entry matches any exclude-list movie. |
| Matching.OutcomeProperties | movielist.py:168-178 | One movie contributes at most one entry. That entry is its own classification, and only when the movie is not excluded. |
| Matching.CompareSpecComplete | movielist.py:165-180 | Every movie of the second list that is not excluded and has a classification has that classification in the result. |
| Matching.CompareSpecAppend | movielist.py:168-178 | The results for two consecutive stretches of the second list are concatenated in that order. |
| Report.KindKey | movielist.py:157-159 | The key `x.difftype`: the kind's name. `Report.OfKindIsFilterKey` relates it to the kind. |
| Report.TitleKey | movielist.py:161 | The key `x.movie.Title`. `Report.DiffReportProperties` states that every group is sorted by it. |
| Report.SortBy | movielist.py:157-161 | `sorted`: the result is a permutation of the input. `Report.SortByProperties` states the order and the stability. |
| Report.SortByProperties | movielist.py:157 | `sorted` returns a permutation sorted by the key. Entries with the same key keep their input order (stability). |
| Report.InsertStable | movielist.py:157 | Inserting into a sorted list keeps, for every key, the input's order of the entries with that key. |
| Report.GroupBy | movielist.py:159 | `itertools.groupby`: its contract is stated by `Report.GroupByProperties` and `Report.GroupByRun`. |
| Report.GroupByProperties | movielist.py:159 | Concatenated, the groups give the input back. No group is empty. Every entry carries its group's key. Adjacent groups have different keys. |
| Report.GroupByRun | movielist.py:159 | A leading run of entries with one key, followed by an entry with another key, becomes exactly one group. |
| Report.OfKindIsFilterKey | movielist.py:157-159 | Selecting the entries of one kind is the same as selecting those whose `difftype` string is that kind's name. |
| Report.NameInjective | movielist.py:190-200 | Different kinds have different `difftype` strings. |
| Report.KindNamesAscending | movielist.py:157 | `DUPLICATE` < `NEW` < `RESOLUTION` in `str` order, so sorting on the name orders groups by kind. |
| Report.SortByKindIsBlocks | movielist.py:157 | Sorting the diff list by kind name lines up the DUPLICATE, NEW and RESOLUTION entries, each block in diff-list order. |
| Report.SortEntries | movielist.py:161 | Each group's entries sorted by title, the groups kept in order. `Report.SortEntriesAppend`, `Report.SortBlock` and `Report.DiffReportProperties` state it. |
| Report.DiffReport | movielist.py:157-161 | The `exportdifflist` ordering: sort by kind, group, sort each group by title. Its contract is stated by `Report.DiffReportIsByKind` and `Report.DiffReportProperties`. |
| Report.DiffReportIsByKind | movielist.py:157-161 | The sort-then-groupby-then-sort pipeline equals an independent reference. At most one group per kind, in the order DUPLICATE, NEW, RESOLUTION. Each group is that kind's entries sorted by title. |
| Report.DiffReportProperties | movielist.py:157-162 | Every diff-list entry appears exactly once, in groups that are not empty. Each group holds only its kind's entries, in title order. Group keys strictly ascend in `str` order, so each kind has one group. |
| Report.ReportGroupingExample | movielist.py:157-161 | NEW(B), DUPLICATE(A), NEW(A), RESOLUTION(C) come out as DUPLICATE[A], NEW[A, B], RESOLUTION[C]. |
| Report.RenderReport | movielist.py:158-162 | The lines written to the diff file. Its contract is stated by `Report.RenderReportLength` and `Report.RenderReportLines`. |
| Report.RenderEntries | movielist.py:161-162 | One line per entry, in entry order: two blanks, the entry's file name and a newline. |
| Report.RenderReportLength | movielist.py:158-162 | The file has one header line per group plus one line per entry. |
| Report.RenderReportLines | movielist.py:158-162 | Each group starts after one line per earlier group and one per earlier entry. Its header is its key, directly followed by one indented file name per entry, in entry order. |
| Report.RenderDiffReportLines | movielist.py:157-162 | In the diff file, each kind's header is directly followed by the file names of exactly that kind's entries, in title order. |
| Catalog.Basename | movielist.py:247 | `os.path.basename` returns a suffix of the path without a `/`. A `/` precedes it whenever it is shorter than the path. |
| Catalog.BasenameOfJoin | movielist.py:247 | The base name of `dir/name` is `name`, for a name without a separator. |
| Catalog.VideoDimensions | movielist.py:251-256 | The resolution the lookups yield: both numbers when width and height are found, else 0x0. `Catalog.ExtractMovie` states that the record gets it. |
| Catalog.ExtractMovie | movielist.py:233-259 | From a readable element, the record gets:<br>- title and original title from the texts of `<title>`/`<originaltitle>` (the original title is `None` for an element without text), or both empty when `<originaltitle>` is absent;<br>- the `<year>` text;<br>- the path and its base name;<br>- width and height when both are found, else 0x0. |
| Catalog.ParseXml | movielist.py:231-264 | One record per `<movie>` element, in document order, each extracted as `ExtractMovie` states. |
| Catalog.ExtractedKeepsPath | movielist.py:247-259 | A read record's file name ends its stored path after a separator, or the name is the whole path. It has no separator. A record without stream details has label `?`. |

## Left out

- `main`, `compareXmlMovieLists` (lines 26-58): argument parsing and wiring. The wiring is `CompareMovies` applied to two `ParseXml` results.
- `renameMovieFiles` (lines 62-98): file-system checks, renaming and the user dialogue. Only the `Title (Year)` format it writes is used, in `TitleYear.TitleYearRoundTrip`.
- `query_yes_no_cancel` (lines 101-119): interactive console input.
- `readexcludelist` (lines 122-129): file reading. It applies `stringToMovie` to each line. It appends `None` for a blank line, which `findMovieWithTitleAndYear` would then fail on (line 183). The model types the exclude list as a list of records, so that crash is not modelled.
- `getoutfilename`, `exportmovielist` (lines 210-221): CSV output that the comparison does not use.
- `printc` (266-268) and the `__str__` methods: console output only; the calls at lines 172, 199 and 238 are not modelled.
- Opening and writing files (`codecs.open`, `outfile.write`): the report is modelled as the list of lines `RenderReport` returns.
- `ET.parse` and `xml.iter('movie')`: the XML document is given as the list of `MovieElement` values the program looks up.
- Catalog.ExtractMovie, Catalog.ParseXml: elements that make `parsexml` raise are excluded by the precondition `Survives`, so their error is not modelled. These are:
  - a missing `<sorttitle>` when `<originaltitle>` is absent;
  - a missing `<title>` when `<originaltitle>` is present (line 243);
  - a missing `<year>` or `<filenameandpath>`, or a path element with no text;
  - a width or height text that `int()` rejects.
- Catalog.ExtractMovie, Catalog.ParseXml: `Survives` also excludes a `<title>` without text, read when `<originaltitle>` is present. Python would then store `None` as the title, which is a string here.
- Catalog.Dimension: `int()` parsing of the width and height text is abstracted to an optional number.
- Catalog.MovieElement: the `fileinfo/streamdetails/video` chain is collapsed into one optional `Video`, because any missing step ends the same way (the `AttributeError` is caught).
- Catalog.Basename: POSIX paths only (`/` as the separator).
- TitleYear.IsDigit: `\d` is taken as the ASCII digits. Python's `re` on `str` also accepts other Unicode decimal digits.
- Printing the skipped and duplicate movies in `comparemovies` and `findmovie` (lines 172 and 199): console output only.
