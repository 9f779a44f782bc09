/**
 * The splitter's configuration, as `ChineseRecursiveTextSplitter.__init__`
 * sets it up, with its default separator list.
 */
module SplitterConfig {
  import opened Text
  import opened Segmenter

  /**
   * `chunkSize` and `chunkOverlap` are in characters, the measure of the
   * default length function. Whitespace is always stripped from chunks (the
   * constructor fixes `_strip_whitespace` to true), so it is not a field.
   */
  datatype Config = Config(
    separators: seq<Separator>,
    keepSeparator: bool,
    isSeparatorRegex: bool,
    chunkSize: int,
    chunkOverlap: int)

  /** The alternatives of the regex `c\s`: `c` followed by any one whitespace character. */
  function FollowedBySpace(c: char): (r: seq<string>)
    ensures |r| == |Spaces|
    ensures forall i :: 0 <= i < |r| ==> r[i] == [c, Spaces[i]]
  {
    seq(|Spaces|, i requires 0 <= i < |Spaces| => [c, Spaces[i]])
  }

  /** The default separators, highest priority first, as regexes and their alternatives. */
  function DefaultSeparators(): (r: seq<Separator>)
    ensures |r| == 6
    ensures forall i :: 0 <= i < |r| ==> r[i].source != ""
  {
    [ Separator("\n\n", ["\n\n"]),
      Separator("\n", ["\n"]),
      Separator("。|！|？", ["。", "！", "？"]),
      Separator("\\.\\s|\\!\\s|\\?\\s", FollowedBySpace('.') + FollowedBySpace('!') + FollowedBySpace('?')),
      Separator("；|;\\s", ["；"] + FollowedBySpace(';')),
      Separator("，|,\\s", ["，"] + FollowedBySpace(',')) ]
  }

  /**
   * The constructor: an empty (or missing) separator list is replaced by the
   * defaults; everything else is taken as given. Nothing is validated.
   */
  function NewConfig(separators: seq<Separator>, keepSeparator: bool, isSeparatorRegex: bool,
                     chunkSize: int, chunkOverlap: int): (c: Config)
    ensures c.separators != []
    ensures separators != [] ==> c.separators == separators
    ensures separators == [] ==> c.separators == DefaultSeparators()
    ensures c.keepSeparator == keepSeparator && c.isSeparatorRegex == isSeparatorRegex
    ensures c.chunkSize == chunkSize && c.chunkOverlap == chunkOverlap
  {
    Config(if separators != [] then separators else DefaultSeparators(),
           keepSeparator, isSeparatorRegex, chunkSize, chunkOverlap)
  }

  /** `ChineseRecursiveTextSplitter()` with every argument left at its default. */
  function DefaultConfig(): (c: Config)
    ensures c.separators == DefaultSeparators()
    ensures c.keepSeparator && c.isSeparatorRegex
    ensures c.chunkSize == 100 && c.chunkOverlap == 40
  {
    NewConfig([], true, true, 100, 40)
  }

  /** The pattern the splitter searches and splits with: literal unless regexes are enabled. */
  function Pattern(separator: Separator, isSeparatorRegex: bool): (p: Separator)
    ensures p.source == separator.source
    ensures isSeparatorRegex ==> p == separator
    ensures !isSeparatorRegex ==> p.alts == [separator.source]
  {
    if isSeparatorRegex then separator else Literal(separator.source)
  }
}
