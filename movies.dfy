/**
 * The catalog record and the classification outcome of the comparison core.
 */
module Movies {
  import opened Wrappers

  /**
   * One catalog record. Its identity for matching is the pair (title, year).
   * `year` is `None` where the program stores Python's `None` (a parsed
   * exclude-list line without a year, or an empty `<year/>` element), and
   * so is `originalTitle` for an `<originaltitle/>` without text.
   * Width and height are 0 when unknown.
   */
  datatype Movie = Movie(
    title: string,
    originalTitle: Option<string>,
    year: Option<string>,
    filename: string,
    filePath: string,
    resolutionWidth: int,
    resolutionHeight: int)
  {
    /** The pixel area the classifier compares. */
    function Area(): int {
      resolutionWidth * resolutionHeight
    }

    /**
     * The display label for the resolution, checked in the order
     * unknown, FullHD, HD, SD.
     */
    function ResolutionSymbol(): (symbol: string)
      ensures symbol == "?" <==> resolutionWidth == 0 || resolutionHeight == 0
      ensures symbol == "FullHD" <==>
        resolutionWidth != 0 && resolutionHeight != 0 &&
        resolutionWidth >= 1920 && resolutionHeight >= 1080
      ensures symbol == "HD" <==>
        resolutionWidth != 0 && resolutionHeight != 0 &&
        !(resolutionWidth >= 1920 && resolutionHeight >= 1080) &&
        resolutionWidth >= 1280 && resolutionHeight >= 720
      ensures symbol == "SD" <==>
        resolutionWidth != 0 && resolutionHeight != 0 &&
        !(resolutionWidth >= 1280 && resolutionHeight >= 720)
    {
      if resolutionHeight == 0 || resolutionWidth == 0 then "?"
      else if resolutionWidth >= 1920 && resolutionHeight >= 1080 then "FullHD"
      else if resolutionWidth >= 1280 && resolutionHeight >= 720 then "HD"
      else "SD"
    }
  }

  /** A freshly constructed record: every text empty, the year `""`, the resolution 0x0. */
  const Blank: Movie := Movie("", Some(""), Some(""), "", "", 0, 0)

  /** Rank of a resolution label: unknown, SD, HD, FullHD. */
  function SymbolRank(symbol: string): nat {
    if symbol == "FullHD" then 3 else if symbol == "HD" then 2 else if symbol == "SD" then 1 else 0
  }

  /** The labels of the boundary cases. */
  lemma ResolutionSymbolExamples()
    ensures Blank.ResolutionSymbol() == "?"
    ensures Blank.(resolutionWidth := 1920).ResolutionSymbol() == "?"
    ensures Blank.(resolutionWidth := 1920, resolutionHeight := 1080).ResolutionSymbol() == "FullHD"
    ensures Blank.(resolutionWidth := 1280, resolutionHeight := 720).ResolutionSymbol() == "HD"
    ensures Blank.(resolutionWidth := 1279, resolutionHeight := 720).ResolutionSymbol() == "SD"
    ensures Blank.(resolutionWidth := 1920, resolutionHeight := 1079).ResolutionSymbol() == "HD"
  {
  }

  /** Among known resolutions, growing both dimensions never lowers the label. */
  lemma ResolutionSymbolMonotone(a: Movie, b: Movie)
    requires 0 < a.resolutionWidth <= b.resolutionWidth
    requires 0 < a.resolutionHeight <= b.resolutionHeight
    ensures SymbolRank(a.ResolutionSymbol()) <= SymbolRank(b.ResolutionSymbol())
  {
  }

  /** The three classification outcomes; `Name` is the program's `difftype` string. */
  datatype Kind = Duplicate | New | Resolution {
    function Name(): string {
      match this
      case Duplicate => "DUPLICATE"
      case New => "NEW"
      case Resolution => "RESOLUTION"
    }
  }

  /** The outcome of classifying one movie of the second collection. */
  datatype FindResult = FindResult(kind: Kind, movie: Movie)
}
