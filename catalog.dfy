/**
 * Reading the catalog export: `parsexml` turns every `<movie>` element of
 * the media-center XML into a record.  The XML document itself is not
 * modelled; an element is given by the children the program looks up.
 */
module Catalog {
  import opened Wrappers
  import opened Movies

  /** A child element; `text` is `None` for an element without character data. */
  datatype Node = Node(text: Option<string>)

  /**
   * A `<width>` or `<height>` element of the video stream details;
   * `number` is the value `int()` reads from its text, or `None` when the
   * text is missing or not an integer.
   */
  datatype Dimension = Dimension(number: Option<int>)

  /** `fileinfo/streamdetails/video` with its `width` and `height` children, where present. */
  datatype Video = Video(width: Option<Dimension>, height: Option<Dimension>)

  /**
   * One `<movie>` element: each child is `None` when `find` does not find
   * it, and `video` is `None` when any step of the `fileinfo`,
   * `streamdetails`, `video` chain is missing.
   */
  datatype MovieElement = MovieElement(
    originalTitle: Option<Node>,
    title: Option<Node>,
    sortTitle: Option<Node>,
    year: Option<Node>,
    filenameAndPath: Option<Node>,
    video: Option<Video>)

  /**
   * The elements the program reads without raising: a missing
   * `<originaltitle>` needs a `<sorttitle>` for its message, a present one
   * needs a `<title>` (whose text the title field, a string here, must have); `<year>` and `<filenameandpath>` must be there, the
   * path with text; a width that is found must be a number, and so must a
   * height that is found after it.  An `AttributeError` on the resolution
   * lookups is caught, so a missing video, width or height is no crash.
   */
  predicate Survives(e: MovieElement) {
    && (e.originalTitle.None? ==> e.sortTitle.Some?)
    && (e.originalTitle.Some? ==> e.title.Some? && e.title.value.text.Some?)
    && e.year.Some?
    && e.filenameAndPath.Some? && e.filenameAndPath.value.text.Some?
    && (e.video.Some? && e.video.value.width.Some? ==>
          && e.video.value.width.value.number.Some?
          && (e.video.value.height.Some? ==> e.video.value.height.value.number.Some?))
  }

  /**
   * `os.path.basename` on a POSIX path: the longest suffix without a
   * separator.
   */
  function Basename(path: string): (name: string)
    ensures |name| <= |path| && name == path[|path| - |name|..]
    ensures '/' !in name
    ensures |name| < |path| ==> path[|path| - |name| - 1] == '/'
  {
    if path == [] then []
    else if path[|path| - 1] == '/' then []
    else
      var name := Basename(path[..|path| - 1]);
      assert path[|path| - |name| - 1..] == path[..|path| - 1][|path| - 1 - |name|..] + [path[|path| - 1]];
      name + [path[|path| - 1]]
  }

  /** The file name of a file in a directory is the name itself. */
  lemma {:induction false} BasenameOfJoin(dir: string, name: string)
    requires '/' !in name
    ensures Basename(dir + "/" + name) == name
    decreases |name|
  {
    var path := dir + "/" + name;
    if name == [] {
      assert path[|path| - 1] == '/';
    } else {
      var last := name[|name| - 1];
      var init := name[..|name| - 1];
      assert path[..|path| - 1] == dir + "/" + init;
      assert path[|path| - 1] == last;
      assert last in name;
      assert forall c :: c in init ==> c in name;
      BasenameOfJoin(dir, init);
      assert init + [last] == name;
    }
  }

  /** The resolution the lookups yield: both numbers when width and height are found, else 0x0. */
  function VideoDimensions(video: Option<Video>): (int, int) {
    if video.Some? && video.value.width.Some? && video.value.height.Some?
       && video.value.width.value.number.Some? && video.value.height.value.number.Some?
    then (video.value.width.value.number.value, video.value.height.value.number.value)
    else (0, 0)
  }

  /**
   * The record `parsexml` builds from an element: the titles from
   * `<originaltitle>` and `<title>` (both left empty when there is no
   * `<originaltitle>`), the year text, the path and its file name, the
   * resolution, everything else as a fresh record has it.
   */
  ghost predicate Extracted(e: MovieElement, m: Movie)
    requires Survives(e)
  {
    && (e.originalTitle.None? ==> m.title == "" && m.originalTitle == Some(""))
    && (e.originalTitle.Some? ==>
          m.originalTitle == e.originalTitle.value.text && m.title == e.title.value.text.value)
    && m.year == e.year.value.text
    && m.filePath == e.filenameAndPath.value.text.value
    && m.filename == Basename(m.filePath)
    && (m.resolutionWidth, m.resolutionHeight) == VideoDimensions(e.video)
  }

  /** The loop body of `parsexml`: one element read into a fresh record. */
  method ExtractMovie(e: MovieElement) returns (movie: Movie)
    requires Survives(e)
    ensures Extracted(e, movie)
  {
    movie := Blank;
    if e.originalTitle.Some? {
      movie := movie.(originalTitle := e.originalTitle.value.text);
      movie := movie.(title := e.title.value.text.value);
    }
    movie := movie.(year := e.year.value.text);
    var path := e.filenameAndPath.value.text.value;
    movie := movie.(filename := Basename(path));
    movie := movie.(filePath := path);
    if e.video.Some? && e.video.value.width.Some? {
      var width := e.video.value.width.value.number.value;
      if e.video.value.height.Some? {
        var height := e.video.value.height.value.number.value;
        movie := movie.(resolutionHeight := height);
        movie := movie.(resolutionWidth := width);
      }
    }
  }

  /** parsexml: one record per `<movie>` element, in document order. */
  method ParseXml(elements: seq<MovieElement>) returns (movies: seq<Movie>)
    requires forall e <- elements :: Survives(e)
    ensures |movies| == |elements|
    ensures forall i :: 0 <= i < |elements| ==> Extracted(elements[i], movies[i])
  {
    movies := [];
    for n := 0 to |elements|
      invariant |movies| == n
      invariant forall i :: 0 <= i < n ==> Extracted(elements[i], movies[i])
    {
      var movie := ExtractMovie(elements[n]);
      movies := movies + [movie];
    }
  }

  /**
   * What a read record keeps of its element: the file name ends the stored
   * path after a separator (or is the whole path), and a record without
   * stream details has the unknown resolution.
   */
  lemma ExtractedKeepsPath(e: MovieElement, m: Movie)
    requires Survives(e) && Extracted(e, m)
    ensures m.filePath == m.filePath[..|m.filePath| - |m.filename|] + m.filename
    ensures |m.filename| < |m.filePath| ==> m.filePath[|m.filePath| - |m.filename| - 1] == '/'
    ensures '/' !in m.filename
    ensures e.video.None? ==> m.ResolutionSymbol() == "?"
  {
  }
}
