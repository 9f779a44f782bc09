/**
 * The recursive splitter `_split_text`: pick the first separator of the list
 * that occurs in the text, cut the text with it, send runs of short pieces
 * through the merger, split long pieces again with the separators that come
 * after the chosen one, and tidy every chunk.
 */
module Splitter {
  import opened Text
  import opened Outcomes
  import opened Segmenter
  import opened SplitterConfig
  import opened Merger

  // ---------------------------------------------------------------------------
  // Choosing the separator (lines 110-120)

  /** The loop of lines 112-120 stops at `s`: it is the empty separator, or its pattern occurs in the text. */
  predicate Selectable(text: string, s: Separator, isSeparatorRegex: bool) {
    s.source == "" || Found(text, Pattern(s, isSeparatorRegex).alts)
  }

  /** A separator is selectable exactly when it is empty or one of its alternatives occurs somewhere in the text. */
  lemma SelectableIff(text: string, s: Separator, isSeparatorRegex: bool)
    ensures Selectable(text, s, isSeparatorRegex) <==>
      s.source == "" || exists j :: 0 <= j < |text| && OccursAt(text, j, Pattern(s, isSeparatorRegex).alts)
  {
    FoundIff(text, Pattern(s, isSeparatorRegex).alts);
  }

  /** The index of the first selectable entry at or after `j`, or the length of the list when there is none. */
  function FirstSelectable(text: string, separators: seq<Separator>, isSeparatorRegex: bool, j: nat): (k: nat)
    requires j <= |separators|
    ensures j <= k <= |separators|
    ensures k < |separators| ==> Selectable(text, separators[k], isSeparatorRegex)
    decreases |separators| - j
  {
    if j == |separators| || Selectable(text, separators[j], isSeparatorRegex) then j
    else FirstSelectable(text, separators, isSeparatorRegex, j + 1)
  }

  /** No entry the search passes over is selectable. */
  lemma {:induction false} FirstSelectableSkips(text: string, separators: seq<Separator>, isSeparatorRegex: bool, j: nat)
    requires j <= |separators|
    ensures forall i :: j <= i < FirstSelectable(text, separators, isSeparatorRegex, j) ==>
      !Selectable(text, separators[i], isSeparatorRegex)
    decreases |separators| - j
  {
    if j < |separators| && !Selectable(text, separators[j], isSeparatorRegex) {
      FirstSelectableSkips(text, separators, isSeparatorRegex, j + 1);
    }
  }

  /**
   * The separator chosen for `text` and the separators left for its pieces:
   * the first selectable entry and the entries after it (none after the empty
   * separator), or the last entry and none when no entry is selectable.
   */
  function Choice(text: string, separators: seq<Separator>, isSeparatorRegex: bool): (r: (Separator, seq<Separator>))
    requires separators != []
    ensures r.0 in separators
    ensures |r.1| < |separators|
  {
    var k := FirstSelectable(text, separators, isSeparatorRegex, 0);
    if k == |separators| then (separators[|separators| - 1], [])
    else (separators[k], if separators[k].source == "" then [] else separators[k + 1..])
  }

  /**
   * The choice is the first selectable entry, at index `k`; the separators
   * left for the pieces are those after it, or none when it is the empty
   * separator. When no entry is selectable (`k` is the length of the list)
   * the choice is the last entry and no separator is left.
   */
  lemma ChoiceIsFirst(text: string, separators: seq<Separator>, isSeparatorRegex: bool)
    requires separators != []
    ensures var k, c := FirstSelectable(text, separators, isSeparatorRegex, 0), Choice(text, separators, isSeparatorRegex);
      && (forall j :: 0 <= j < k ==> !Selectable(text, separators[j], isSeparatorRegex))
      && (k < |separators| ==> Selectable(text, separators[k], isSeparatorRegex) && c.0 == separators[k])
      && (k < |separators| ==> c.1 == if c.0.source == "" then [] else separators[k + 1..])
      && (k == |separators| ==> c.0 == separators[|separators| - 1] && c.1 == [])
  {
    FirstSelectableSkips(text, separators, isSeparatorRegex, 0);
  }

  /** Lines 110-120: the loop over the separators makes the choice `Choice`. */
  method ChooseSeparator(text: string, separators: seq<Separator>, isSeparatorRegex: bool)
    returns (separator: Separator, newSeparators: seq<Separator>)
    requires separators != []
    ensures (separator, newSeparators) == Choice(text, separators, isSeparatorRegex)
  {
    separator, newSeparators := separators[|separators| - 1], [];
    for i := 0 to |separators|
      invariant FirstSelectable(text, separators, isSeparatorRegex, 0) == FirstSelectable(text, separators, isSeparatorRegex, i)
      invariant separator == separators[|separators| - 1] && newSeparators == []
    {
      var s := separators[i];
      var pattern := Pattern(s, isSeparatorRegex);
      if s.source == "" {
        separator := s;
        break;
      }
      if Found(text, pattern.alts) {
        separator, newSeparators := s, separators[i + 1..];
        break;
      }
    }
  }

  /** Some entry of the list is the empty separator. */
  ghost predicate HasEmptySeparator(separators: seq<Separator>) {
    exists j :: 0 <= j < |separators| && separators[j].source == ""
  }

  /**
   * An empty separator in the list is always reached: either it is the choice,
   * or the choice comes before it and it is among the separators left.
   */
  lemma ChoiceBeforeEmpty(text: string, separators: seq<Separator>, isSeparatorRegex: bool,
                          separator: Separator, newSeparators: seq<Separator>, k: nat)
    requires k <= |separators|
    requires forall j :: 0 <= j < k ==> !Selectable(text, separators[j], isSeparatorRegex)
    requires k < |separators| ==> separator == separators[k]
    requires k < |separators| ==> newSeparators == if separator.source == "" then [] else separators[k + 1..]
    requires HasEmptySeparator(separators)
    ensures separator.source == "" || HasEmptySeparator(newSeparators)
  {
    var j :| 0 <= j < |separators| && separators[j].source == "";
    assert Selectable(text, separators[j], isSeparatorRegex);
    if separator.source != "" {
      assert k < j;
      assert newSeparators[j - k - 1] == separators[j];
    }
  }

  /** The same, for the choice itself. */
  lemma ChoiceKeepsEmpty(text: string, separators: seq<Separator>, isSeparatorRegex: bool)
    requires HasEmptySeparator(separators)
    ensures Choice(text, separators, isSeparatorRegex).0.source == ""
         || HasEmptySeparator(Choice(text, separators, isSeparatorRegex).1)
  {
    var k := FirstSelectable(text, separators, isSeparatorRegex, 0);
    FirstSelectableSkips(text, separators, isSeparatorRegex, 0);
    var (separator, newSeparators) := Choice(text, separators, isSeparatorRegex);
    ChoiceBeforeEmpty(text, separators, isSeparatorRegex, separator, newSeparators, k);
  }

  // ---------------------------------------------------------------------------
  // Post-processing (line 145)

  /**
   * Line 145: drop every chunk that is all whitespace, and tidy the others
   * (strip them, then collapse each run of newlines to one).
   */
  function PostProcess(chunks: seq<string>): (r: seq<string>)
    ensures |r| <= |chunks|
    ensures forall i :: 0 <= i < |r| ==> CleanChunk(r[i])
  {
    if chunks == [] then []
    else (if Strip(chunks[0]) != "" then [Tidy(chunks[0])] else []) + PostProcess(chunks[1..])
  }

  /** Every chunk post-processing returns is a chunk of its input, not all whitespace, tidied. */
  lemma {:induction false} PostProcessFrom(chunks: seq<string>, c: string) returns (d: string)
    requires c in PostProcess(chunks)
    ensures d in chunks && !AllSpace(d) && c == Tidy(d)
  {
    var d0, rest := chunks[0], chunks[1..];
    assert PostProcess(chunks) == (if Strip(d0) != "" then [Tidy(d0)] else []) + PostProcess(rest);
    if Strip(d0) != "" && c == Tidy(d0) {
      d := d0;
    } else {
      d := PostProcessFrom(rest, c);
    }
  }

  /** Conversely, every chunk of the input that is not all whitespace is returned, tidied. */
  lemma {:induction false} PostProcessKeeps(chunks: seq<string>, d: string)
    requires d in chunks && !AllSpace(d)
    ensures Tidy(d) in PostProcess(chunks)
  {
    var d0, rest := chunks[0], chunks[1..];
    assert PostProcess(chunks) == (if Strip(d0) != "" then [Tidy(d0)] else []) + PostProcess(rest);
    if d != d0 {
      PostProcessKeeps(rest, d);
    }
  }

  /** Post-processing keeps the order and the number of clean chunks: it leaves a clean list as it is. */
  lemma {:induction false} PostProcessClean(chunks: seq<string>)
    requires forall i :: 0 <= i < |chunks| ==> CleanChunk(chunks[i])
    ensures PostProcess(chunks) == chunks
  {
    if chunks != [] {
      PostProcessClean(chunks[1..]);
      TidyClean(chunks[0]);
      StripStripped(chunks[0]);
    }
  }

  /** Post-processing leaves nothing exactly when every chunk is whitespace only. */
  lemma {:induction false} PostProcessNone(chunks: seq<string>)
    ensures PostProcess(chunks) == [] <==> Blank(chunks)
  {
    if chunks != [] {
      var d, rest := chunks[0], chunks[1..];
      var head := if Strip(d) != "" then [Tidy(d)] else [];
      assert PostProcess(chunks) == head + PostProcess(rest);
      assert head == [] <==> AllSpace(d);
      PostProcessNone(rest);
    }
  }

  /** Post-processing works chunk by chunk, so it distributes over concatenation. */
  lemma {:induction false} PostProcessAppend(xs: seq<string>, ys: seq<string>)
    ensures PostProcess(xs + ys) == PostProcess(xs) + PostProcess(ys)
  {
    if xs == [] {
      assert xs + ys == ys;
    } else {
      var head := if Strip(xs[0]) != "" then [Tidy(xs[0])] else [];
      assert (xs + ys)[0] == xs[0] && (xs + ys)[1..] == xs[1..] + ys;
      PostProcessAppend(xs[1..], ys);
      assert PostProcess(xs + ys) == head + PostProcess(xs[1..] + ys);
    }
  }

  /** So post-processing is idempotent. */
  lemma PostProcessTwice(chunks: seq<string>)
    ensures PostProcess(PostProcess(chunks)) == PostProcess(chunks)
  {
    PostProcessClean(PostProcess(chunks));
  }

  // ---------------------------------------------------------------------------
  // What the chunks are made of

  /** Once tidied, `c` is the tidied text between two positions of `text`. */
  ghost predicate Sourced(c: string, text: string) {
    exists p, q {:trigger Tidy(text[p..q])} :: 0 <= p <= q <= |text| && Tidy(c) == Tidy(text[p..q])
  }

  /** `c` is the tidied text between two positions of `text`: it invents no character. */
  ghost predicate FromText(c: string, text: string) {
    exists p, q {:trigger Tidy(text[p..q])} :: 0 <= p <= q <= |text| && c == Tidy(text[p..q])
  }

  /** A chunk fits in `chunkSize`, or it is (once tidied) one of the oversized pieces kept whole. */
  ghost predicate Bounded(c: string, chunkSize: int, atoms: seq<string>) {
    |c| <= chunkSize || exists a :: a in atoms && Tidy(c) == Tidy(a)
  }

  lemma BoundedMore(c: string, chunkSize: int, atoms: seq<string>, more: seq<string>)
    requires Bounded(c, chunkSize, atoms)
    ensures Bounded(c, chunkSize, atoms + more)
  {
    if |c| > chunkSize {
      var a :| a in atoms && Tidy(c) == Tidy(a);
      assert a in atoms + more;
    }
  }

  /** What is sourced in a slice of `text` is sourced in `text`. */
  lemma SourcedInSlice(c: string, text: string, lo: nat, hi: nat)
    requires lo <= hi <= |text| && FromText(c, text[lo..hi]) && CleanChunk(c)
    ensures Sourced(c, text)
  {
    var p, q :| 0 <= p <= q <= hi - lo && c == Tidy(text[lo..hi][p..q]);
    SliceOfSlice(text, lo, hi, p, q);
    TidyClean(c);
    assert 0 <= lo + p <= lo + q <= |text| && Tidy(c) == Tidy(text[lo + p..lo + q]);
  }

  /**
   * In the pieces of a text that concatenate back to it, a run of consecutive
   * pieces, joined and stripped, is a slice of the text.
   */
  lemma RunIsSlice(splits: seq<string>, text: string, lo: nat, hi: nat) returns (p: nat, q: nat)
    requires lo <= hi <= |splits| && Concat(splits) == text
    ensures p <= q <= |text| && Tidy(Strip(Join(splits[lo..hi], ""))) == Tidy(text[p..q])
  {
    JoinEmpty(splits[lo..hi]);
    ConcatSlice(splits, lo, hi);
    p, q := |Concat(splits[..lo])|, |Concat(splits[..hi])|;
    TidyStrip(text[p..q]);
  }

  /** A chunk the merger makes of a run of the pieces, joined with `""`, is sourced in the text. */
  lemma MergedChunkSourced(goodSplits: seq<string>, splits: seq<string>, text: string, start: nat, idx: nat,
                           windows: seq<Span>, k: nat)
    requires start <= idx <= |splits| && goodSplits == splits[start..idx]
    requires Concat(splits) == text
    requires ValidSpans(goodSplits, windows) && k < |windows|
    ensures Sourced(Strip(Join(goodSplits[windows[k].lo..windows[k].hi], "")), text)
  {
    var lo, hi := windows[k].lo, windows[k].hi;
    var a, b := start + lo, start + hi;
    RunOfRun(goodSplits, splits, start, idx, lo, hi, a, b);
    var p, q := RunIsSlice(splits, text, a, b);
    assert Tidy(Strip(Join(goodSplits[lo..hi], ""))) == Tidy(text[p..q]);
  }

  lemma RunOfRun(goodSplits: seq<string>, splits: seq<string>, start: nat, idx: nat, lo: nat, hi: nat, a: nat, b: nat)
    requires start <= idx <= |splits| && goodSplits == splits[start..idx]
    requires lo <= hi <= |goodSplits| && a == start + lo && b == start + hi
    ensures a <= b <= |splits| && goodSplits[lo..hi] == splits[a..b]
  {
    SliceOfSlice(splits, start, idx, lo, hi);
  }

  // ---------------------------------------------------------------------------
  // The pieces kept whole (line 138)

  /**
   * The pieces, at any depth of the recursion, that `_split_text(text,
   * separators)` keeps whole: at least `chunk_size` long with no separator
   * left to split them. `Atoms` follows the choice of the separator and the
   * cut of the text; `PiecesAtoms` goes through the pieces in order, and
   * `PieceAtoms` looks at one of them.
   */
  ghost function Atoms(text: string, separators: seq<Separator>, cfg: Config): seq<string>
    decreases |separators|, 1, 0
  {
    if separators == [] then []
    else
      var (separator, newSeparators) := Choice(text, separators, cfg.isSeparatorRegex);
      PiecesAtoms(Segment(text, Pattern(separator, cfg.isSeparatorRegex), cfg.keepSeparator), newSeparators, cfg)
  }

  ghost function PiecesAtoms(splits: seq<string>, separators: seq<Separator>, cfg: Config): seq<string>
    decreases |separators| + 1, 0, |splits|
  {
    if splits == [] then []
    else PiecesAtoms(splits[..|splits| - 1], separators, cfg) + PieceAtoms(splits[|splits| - 1], separators, cfg)
  }

  ghost function PieceAtoms(s: string, separators: seq<Separator>, cfg: Config): seq<string>
    decreases |separators| + 1, 0, 0
  {
    if |s| < cfg.chunkSize then []
    else if separators == [] then [s]
    else Atoms(s, separators, cfg)
  }

  /** The pieces kept whole from two lists of pieces, one after the other, are those of each list in turn. */
  lemma {:induction false} PiecesAtomsAppend(xs: seq<string>, ys: seq<string>, separators: seq<Separator>, cfg: Config)
    ensures PiecesAtoms(xs + ys, separators, cfg) == PiecesAtoms(xs, separators, cfg) + PiecesAtoms(ys, separators, cfg)
    decreases |ys|
  {
    if ys == [] {
      assert xs + ys == xs;
    } else {
      var n := |ys| - 1;
      assert (xs + ys)[..|xs + ys| - 1] == xs + ys[..n];
      assert (xs + ys)[|xs + ys| - 1] == ys[n];
      PiecesAtomsAppend(xs, ys[..n], separators, cfg);
    }
  }

  lemma PiecesAtomsSnoc(splits: seq<string>, idx: nat, separators: seq<Separator>, cfg: Config)
    requires idx < |splits|
    ensures PiecesAtoms(splits[..idx + 1], separators, cfg)
      == PiecesAtoms(splits[..idx], separators, cfg) + PieceAtoms(splits[idx], separators, cfg)
  {
    assert splits[..idx + 1][..idx] == splits[..idx];
  }

  /** Every piece kept whole is at least `chunk_size` long. */
  lemma {:induction false} AtomsLong(text: string, separators: seq<Separator>, cfg: Config)
    ensures forall a :: a in Atoms(text, separators, cfg) ==> |a| >= cfg.chunkSize
    decreases |separators|, 1, 0
  {
    if separators != [] {
      var choice := Choice(text, separators, cfg.isSeparatorRegex);
      PiecesAtomsLong(Segment(text, Pattern(choice.0, cfg.isSeparatorRegex), cfg.keepSeparator), choice.1, cfg);
    }
  }

  lemma {:induction false} PiecesAtomsLong(splits: seq<string>, separators: seq<Separator>, cfg: Config)
    ensures forall a :: a in PiecesAtoms(splits, separators, cfg) ==> |a| >= cfg.chunkSize
    decreases |separators| + 1, 0, |splits|
  {
    if splits != [] {
      PiecesAtomsLong(splits[..|splits| - 1], separators, cfg);
      PieceAtomsLong(splits[|splits| - 1], separators, cfg);
    }
  }

  lemma {:induction false} PieceAtomsLong(s: string, separators: seq<Separator>, cfg: Config)
    ensures forall a :: a in PieceAtoms(s, separators, cfg) ==> |a| >= cfg.chunkSize
    decreases |separators| + 1, 0, 0
  {
    if |s| >= cfg.chunkSize && separators != [] {
      AtomsLong(s, separators, cfg);
    }
  }

  /** Every piece kept whole is a slice of the text, in either mode. */
  lemma {:induction false} AtomsInText(text: string, separators: seq<Separator>, cfg: Config)
    ensures forall a :: a in Atoms(text, separators, cfg) ==> InText(a, text)
    decreases |separators|, 1, 0
  {
    if separators != [] {
      var choice := Choice(text, separators, cfg.isSeparatorRegex);
      var pattern := Pattern(choice.0, cfg.isSeparatorRegex);
      SegmentInText(text, pattern, cfg.keepSeparator);
      PiecesAtomsInText(Segment(text, pattern, cfg.keepSeparator), choice.1, cfg, text);
    }
  }

  lemma {:induction false} PiecesAtomsInText(splits: seq<string>, separators: seq<Separator>, cfg: Config, text: string)
    requires forall x :: x in splits ==> InText(x, text)
    ensures forall a :: a in PiecesAtoms(splits, separators, cfg) ==> InText(a, text)
    decreases |separators| + 1, 0, |splits|
  {
    if splits != [] {
      var n := |splits| - 1;
      assert forall x :: x in splits[..n] ==> x in splits;
      assert splits[n] in splits;
      PiecesAtomsInText(splits[..n], separators, cfg, text);
      PieceAtomsInText(splits[n], separators, cfg, text);
    }
  }

  lemma {:induction false} PieceAtomsInText(s: string, separators: seq<Separator>, cfg: Config, text: string)
    requires InText(s, text)
    ensures forall a :: a in PieceAtoms(s, separators, cfg) ==> InText(a, text)
    decreases |separators| + 1, 0, 0
  {
    if |s| >= cfg.chunkSize && separators != [] {
      AtomsInText(s, separators, cfg);
      forall a | a in Atoms(s, separators, cfg) ensures InText(a, text) {
        InTextTrans(a, s, text);
      }
    }
  }

  /** No pattern of the listed separators occurs anywhere in `a`: none of them could cut it. */
  ghost predicate Uncut(a: string, separators: seq<Separator>, isSeparatorRegex: bool) {
    forall j :: 0 <= j < |separators| ==> Clear(a, Pattern(separators[j], isSeparatorRegex).alts)
  }

  lemma UncutInText(a: string, t: string, separators: seq<Separator>, isSeparatorRegex: bool)
    requires InText(a, t) && Uncut(t, separators, isSeparatorRegex)
    ensures Uncut(a, separators, isSeparatorRegex)
  {
    forall j | 0 <= j < |separators| ensures Clear(a, Pattern(separators[j], isSeparatorRegex).alts) {
      ClearInText(a, t, Pattern(separators[j], isSeparatorRegex).alts);
    }
  }

  lemma UncutAppend(a: string, xs: seq<Separator>, ys: seq<Separator>, isSeparatorRegex: bool)
    requires Uncut(a, xs, isSeparatorRegex) && Uncut(a, ys, isSeparatorRegex)
    ensures Uncut(a, xs + ys, isSeparatorRegex)
  {
    forall j | |xs| <= j < |xs + ys| ensures (xs + ys)[j] == ys[j - |xs|] { }
  }

  /**
   * When the separator is dropped and no entry is the empty separator, every
   * piece of the text holds no occurrence of the chosen pattern or of any
   * pattern listed before it (the search found none of those in the text).
   */
  lemma PiecesUncut(text: string, separators: seq<Separator>, cfg: Config, k: nat)
    requires separators != [] && !cfg.keepSeparator && !HasEmptySeparator(separators)
    requires k == FirstSelectable(text, separators, cfg.isSeparatorRegex, 0)
    ensures var pattern := Pattern(Choice(text, separators, cfg.isSeparatorRegex).0, cfg.isSeparatorRegex);
      forall x :: x in Segment(text, pattern, false) ==>
        Uncut(x, if k == |separators| then separators else separators[..k + 1], cfg.isSeparatorRegex)
  {
    var isRegex := cfg.isSeparatorRegex;
    var pattern := Pattern(Choice(text, separators, isRegex).0, isRegex);
    var splits := Segment(text, pattern, false);
    var done := if k == |separators| then separators else separators[..k + 1];
    FirstSelectableSkips(text, separators, isRegex, 0);
    SegmentInText(text, pattern, false);
    if k < |separators| {
      SegmentDrop(text, pattern);
    }
    forall x, j | x in splits && 0 <= j < |done| ensures Clear(x, Pattern(done[j], isRegex).alts) {
      var alts := Pattern(separators[j], isRegex).alts;
      if j < k {
        assert !Selectable(text, separators[j], isRegex);
        NotFoundClear(text, alts);
        ClearInText(x, text, alts);
      } else {
        var i :| 0 <= i < |splits| && splits[i] == x;
      }
    }
  }

  /**
   * When the separator is dropped and no entry is the empty separator, no
   * listed pattern occurs anywhere in a piece kept whole: none of the
   * separators could have cut it.
   */
  lemma {:induction false} AtomsUncut(text: string, separators: seq<Separator>, cfg: Config)
    requires !cfg.keepSeparator && !HasEmptySeparator(separators)
    ensures forall a :: a in Atoms(text, separators, cfg) ==> Uncut(a, separators, cfg.isSeparatorRegex)
    decreases |separators|, 1, 0
  {
    if separators != [] {
      var isRegex := cfg.isSeparatorRegex;
      var k := FirstSelectable(text, separators, isRegex, 0);
      var choice := Choice(text, separators, isRegex);
      var done := if k == |separators| then separators else separators[..k + 1];
      assert done + choice.1 == separators;
      PiecesUncut(text, separators, cfg, k);
      assert !HasEmptySeparator(choice.1) by {
        if k < |separators| {
          forall j | 0 <= j < |choice.1| ensures choice.1[j].source != "" {
            assert choice.1[j] == separators[k + 1 + j];
          }
        }
      }
      PiecesAtomsUncut(Segment(text, Pattern(choice.0, isRegex), false), choice.1, cfg, done);
    }
  }

  lemma {:induction false} PiecesAtomsUncut(splits: seq<string>, separators: seq<Separator>, cfg: Config,
                                            done: seq<Separator>)
    requires !cfg.keepSeparator && !HasEmptySeparator(separators)
    requires forall x :: x in splits ==> Uncut(x, done, cfg.isSeparatorRegex)
    ensures forall a :: a in PiecesAtoms(splits, separators, cfg) ==> Uncut(a, done + separators, cfg.isSeparatorRegex)
    decreases |separators| + 1, 0, |splits|
  {
    if splits != [] {
      var n := |splits| - 1;
      assert forall x :: x in splits[..n] ==> x in splits;
      assert splits[n] in splits;
      PiecesAtomsUncut(splits[..n], separators, cfg, done);
      PieceAtomsUncut(splits[n], separators, cfg, done);
    }
  }

  lemma {:induction false} PieceAtomsUncut(s: string, separators: seq<Separator>, cfg: Config, done: seq<Separator>)
    requires !cfg.keepSeparator && !HasEmptySeparator(separators)
    requires Uncut(s, done, cfg.isSeparatorRegex)
    ensures forall a :: a in PieceAtoms(s, separators, cfg) ==> Uncut(a, done + separators, cfg.isSeparatorRegex)
    decreases |separators| + 1, 0, 0
  {
    if |s| >= cfg.chunkSize {
      if separators == [] {
        assert done + separators == done;
      } else {
        AtomsUncut(s, separators, cfg);
        AtomsInText(s, separators, cfg);
        forall a | a in Atoms(s, separators, cfg) ensures Uncut(a, done + separators, cfg.isSeparatorRegex) {
          UncutInText(a, s, done, cfg.isSeparatorRegex);
          UncutAppend(a, done, separators, cfg.isSeparatorRegex);
        }
      }
    }
  }

  // ---------------------------------------------------------------------------
  // The splitter (lines 106-145)

  /**
   * Lines 133-136 and 142-144: send the run `goodSplits` of short pieces,
   * which are `splits[start..start + |goodSplits|]`, through the merger. The
   * chunks fit in `chunk_size`, since every piece is shorter; the merger only
   * fails on a negative `chunk_overlap`. When the separator is kept the
   * merger joins with `""`, so each chunk is a stripped run of the pieces: a
   * slice of the text; and when the whole run fits in `chunk_size` it is
   * the one chunk, stripped. The chunks are those of the merger's windows
   * (ghost), none of them whitespace only; there are none only when the run
   * is whitespace only, and with the separator kept there are none then.
   */
  method MergeRun(goodSplits: seq<string>, joiner: string, cfg: Config,
                  ghost text: string, ghost splits: seq<string>, ghost start: nat, ghost idx: nat)
    returns (r: Result<seq<string>>, ghost windows: seq<Span>)
    requires forall i :: 0 <= i < |goodSplits| ==> 0 < |goodSplits[i]| < cfg.chunkSize
    requires start <= idx <= |splits| && goodSplits == splits[start..idx]
    requires cfg.keepSeparator ==> joiner == "" && Concat(splits) == text
    ensures r.Err? ==> cfg.chunkOverlap < 0
    ensures r.Ok? ==> Tiling(goodSplits, |joiner|, cfg, windows) && r.value == Emitted(goodSplits, joiner, windows)
    ensures r.Ok? ==> forall c :: c in r.value ==> |c| <= cfg.chunkSize && !AllSpace(c)
    ensures r.Ok? && r.value == [] ==> Blank(goodSplits)
    ensures r.Ok? && cfg.keepSeparator && Blank(goodSplits) ==> r.value == []
    ensures r.Ok? && cfg.keepSeparator ==> forall c :: c in r.value ==> Sourced(c, text)
    ensures r.Ok? && cfg.keepSeparator && |Concat(goodSplits)| <= cfg.chunkSize ==>
      r.value == OneChunk(Concat(goodSplits))
  {
    ghost var warned;
    r, windows, warned := MergeSplits(goodSplits, joiner, cfg);
    if r.Ok? && goodSplits != [] {
      assert SmallPieces(goodSplits, cfg.chunkSize) by {
        assert 0 < |goodSplits[0]| < cfg.chunkSize;
      }
    }
    if r.Ok? && cfg.keepSeparator {
      EmittedChunks(goodSplits, joiner, windows);
      forall c | c in r.value ensures Sourced(c, text) {
        var k :| 0 <= k < |windows| && c == Strip(Join(goodSplits[windows[k].lo..windows[k].hi], joiner));
        MergedChunkSourced(goodSplits, splits, text, start, idx, windows, k);
      }
      if |Concat(goodSplits)| <= cfg.chunkSize {
        JoinEmpty(goodSplits);
        OneWindow(goodSplits, joiner, cfg, windows);
      }
    }
  }

  /**
   * The splitter's state before it looks at piece `idx` (the invariant of the
   * loop of lines 129-141): the pending run `goodSplits` is the short pieces
   * since `start`; the chunks so far fit in `chunk_size` or are pieces kept
   * whole, listed in `atoms`, and, when the separator is kept, come from the
   * text; and there are no such pieces when `noAtoms` says there cannot be.
   */
  ghost predicate Gathered(text: string, splits: seq<string>, cfg: Config, idx: nat, start: nat,
                           goodSplits: seq<string>, finalChunks: seq<string>, atoms: seq<string>, noAtoms: bool) {
    && start <= idx <= |splits|
    && goodSplits == splits[start..idx]
    && (forall i :: 0 <= i < |goodSplits| ==> 0 < |goodSplits[i]| < cfg.chunkSize)
    && (forall a :: a in atoms ==> |a| >= cfg.chunkSize)
    && (noAtoms ==> atoms == [])
    && (forall c :: c in finalChunks ==> Bounded(c, cfg.chunkSize, atoms))
    && (cfg.keepSeparator ==> forall c :: c in finalChunks ==> Sourced(c, text))
  }

  /** Adding merged chunks, which fit and come from the text, keeps the chunks' invariant. */
  lemma AddMerged(text: string, cfg: Config, finalChunks: seq<string>, merged: seq<string>, atoms: seq<string>)
    requires forall c :: c in finalChunks ==> Bounded(c, cfg.chunkSize, atoms)
    requires cfg.keepSeparator ==> forall c :: c in finalChunks ==> Sourced(c, text)
    requires forall c :: c in merged ==> |c| <= cfg.chunkSize
    requires cfg.keepSeparator ==> forall c :: c in merged ==> Sourced(c, text)
    ensures forall c :: c in finalChunks + merged ==> Bounded(c, cfg.chunkSize, atoms)
    ensures cfg.keepSeparator ==> forall c :: c in finalChunks + merged ==> Sourced(c, text)
  {
  }

  /**
   * Lines 132-141: piece `idx` is at least `chunk_size` long. The pending run
   * is merged first, into the chunks `merged`, which fit in `chunk_size`
   * and, when the separator is kept, come from the text; then come the
   * chunks `tail` of the piece: the piece itself if no
   * separator is left (it is then kept whole), or the chunks of the piece
   * split again with the separators left. The merged chunks are those of
   * the merger's windows over the run (ghost); they are empty only when the
   * run is whitespace only, and, with the separator kept, the piece split
   * again gives no chunk exactly when it is whitespace only.
   */
  method LongPiece(text: string, splits: seq<string>, cfg: Config, idx: nat, newSeparators: seq<Separator>,
                   joiner: string, goodSplits: seq<string>, finalChunks: seq<string>,
                   ghost start: nat, ghost atoms: seq<string>, ghost noAtoms: bool)
    returns (ok: bool, finalChunks': seq<string>, ghost atoms': seq<string>,
             merged: seq<string>, tail: seq<string>, ghost windows: seq<Span>)
    requires idx < |splits| && |splits[idx]| >= cfg.chunkSize
    requires Gathered(text, splits, cfg, idx, start, goodSplits, finalChunks, atoms, noAtoms)
    requires cfg.keepSeparator ==> joiner == "" && Concat(splits) == text
    requires noAtoms ==> HasEmptySeparator(newSeparators) && cfg.chunkSize >= 2
    ensures !ok ==> cfg.chunkOverlap < 0
    ensures ok ==> Gathered(text, splits, cfg, idx + 1, idx + 1, [], finalChunks', atoms', noAtoms)
    ensures ok ==> finalChunks' == finalChunks + merged + tail
    ensures ok ==> atoms' == atoms + PieceAtoms(splits[idx], newSeparators, cfg)
    ensures goodSplits == [] ==> merged == []
    ensures ok && goodSplits != [] ==>
      Tiling(goodSplits, |joiner|, cfg, windows) && merged == Emitted(goodSplits, joiner, windows)
    ensures ok && merged == [] ==> Blank(goodSplits)
    ensures forall c :: c in merged ==> |c| <= cfg.chunkSize && !AllSpace(c)
    ensures cfg.keepSeparator ==> forall c :: c in merged ==> Sourced(c, text)
    ensures ok && newSeparators == [] ==> tail == [splits[idx]]
    ensures ok && newSeparators != [] ==> forall i :: 0 <= i < |tail| ==> CleanChunk(tail[i])
    ensures ok && newSeparators != [] ==>
      forall c :: c in tail ==> Bounded(c, cfg.chunkSize, Atoms(splits[idx], newSeparators, cfg))
    ensures ok && newSeparators != [] && cfg.keepSeparator ==> forall c :: c in tail ==> FromText(c, splits[idx])
    ensures ok && newSeparators != [] && cfg.keepSeparator ==> (tail == [] <==> AllSpace(splits[idx]))
    ensures ok && cfg.keepSeparator && Blank(finalChunks') ==> Blank(finalChunks) && Blank(splits[start..idx + 1])
    decreases |newSeparators| + 1, 1
  {
    var s := splits[idx];
    finalChunks', atoms', merged, tail, windows := finalChunks, atoms, [], [], [];
    ok := true;
    if goodSplits != [] {
      var run;
      run, windows := MergeRun(goodSplits, joiner, cfg, text, splits, start, idx);
      ok := run.Ok?;
      if ok {
        merged := run.value;
      }
    }
    if ok {
      ghost var more;
      ok, tail, more := PieceChunks(s, newSeparators, cfg);
      if ok {
        AddPiece(text, splits, cfg, idx, newSeparators, start, goodSplits, finalChunks, atoms, noAtoms,
                 merged, tail, more);
        atoms', finalChunks' := atoms + more, finalChunks + merged + tail;
      }
    }
  }

  /**
   * Appending the merged run and then the chunks of the long piece keeps the
   * gathering invariant one piece further on, with the pieces kept whole of
   * the long piece added to `atoms`; with the separator kept, no chunk at all
   * so far means the text so far is whitespace only.
   */
  lemma AddPiece(text: string, splits: seq<string>, cfg: Config, idx: nat, newSeparators: seq<Separator>,
                 start: nat, goodSplits: seq<string>, finalChunks: seq<string>, atoms: seq<string>, noAtoms: bool,
                 merged: seq<string>, tail: seq<string>, more: seq<string>)
    requires idx < |splits|
    requires Gathered(text, splits, cfg, idx, start, goodSplits, finalChunks, atoms, noAtoms)
    requires cfg.keepSeparator ==> Concat(splits) == text
    requires noAtoms ==> HasEmptySeparator(newSeparators) && cfg.chunkSize >= 2
    requires merged == [] ==> Blank(goodSplits)
    requires forall c :: c in merged ==> |c| <= cfg.chunkSize && !AllSpace(c)
    requires cfg.keepSeparator ==> forall c :: c in merged ==> Sourced(c, text)
    requires forall a :: a in more ==> |a| >= cfg.chunkSize
    requires HasEmptySeparator(newSeparators) && cfg.chunkSize >= 2 ==> more == []
    requires newSeparators == [] ==> tail == [splits[idx]] && more == [splits[idx]]
    requires newSeparators != [] ==> forall i :: 0 <= i < |tail| ==> CleanChunk(tail[i])
    requires newSeparators != [] ==> forall c :: c in tail ==> Bounded(c, cfg.chunkSize, more)
    requires newSeparators != [] && cfg.keepSeparator ==> forall c :: c in tail ==> FromText(c, splits[idx])
    requires newSeparators != [] && cfg.keepSeparator ==> (tail == [] ==> AllSpace(splits[idx]))
    ensures Gathered(text, splits, cfg, idx + 1, idx + 1, [], finalChunks + merged + tail, atoms + more, noAtoms)
    ensures cfg.keepSeparator && Blank(finalChunks + merged + tail) ==>
      Blank(finalChunks) && Blank(splits[start..idx + 1])
  {
    AddMerged(text, cfg, finalChunks, merged, atoms);
    if newSeparators == [] {
      KeepWhole(text, splits, cfg, idx, finalChunks + merged, atoms);
    } else {
      AddSplit(text, splits, cfg, idx, finalChunks + merged, atoms, tail, more);
    }
    if cfg.keepSeparator {
      AddedBlank(splits, idx, start, goodSplits, finalChunks, merged, tail, newSeparators);
    }
  }

  /**
   * Lines 137-141: the chunks of a piece at least `chunk_size` long. With no
   * separator left it is kept whole, as the one chunk and the one piece kept
   * whole (`more`, ghost). Otherwise it is split again with the separators
   * left: its chunks are clean, fit in `chunk_size` unless they are pieces
   * kept whole, which are `Atoms` of the piece, and, with the separator
   * kept, are tidied slices of the piece, none of them when and only when
   * the piece is whitespace only. Only a negative `chunk_overlap` makes it
   * fail.
   */
  method PieceChunks(s: string, newSeparators: seq<Separator>, cfg: Config)
    returns (ok: bool, tail: seq<string>, ghost more: seq<string>)
    requires |s| >= cfg.chunkSize
    ensures !ok ==> newSeparators != [] && cfg.chunkOverlap < 0
    ensures newSeparators != [] && cfg.chunkOverlap >= 0 ==> ok
    ensures ok ==> more == PieceAtoms(s, newSeparators, cfg)
    ensures forall a :: a in more ==> |a| >= cfg.chunkSize
    ensures HasEmptySeparator(newSeparators) && cfg.chunkSize >= 2 ==> more == []
    ensures ok && newSeparators == [] ==> tail == [s]
    ensures ok && newSeparators != [] ==> forall i :: 0 <= i < |tail| ==> CleanChunk(tail[i])
    ensures ok && newSeparators != [] ==> forall c :: c in tail ==> Bounded(c, cfg.chunkSize, more)
    ensures ok && newSeparators != [] && cfg.keepSeparator ==> forall c :: c in tail ==> FromText(c, s)
    ensures ok && newSeparators != [] && cfg.keepSeparator ==> (tail == [] <==> AllSpace(s))
    decreases |newSeparators| + 1, 0
  {
    if newSeparators == [] {
      return true, [s], [s];
    }
    var other;
    other, more := SplitText(s, newSeparators, cfg);
    if other.Err? {
      return false, [], more;
    }
    ok, tail := true, other.value;
  }

  /** Keeping piece `idx` whole, as an atom, keeps the chunks' invariant. */
  lemma KeepWhole(text: string, splits: seq<string>, cfg: Config, idx: nat, finalChunks: seq<string>, atoms: seq<string>)
    requires idx < |splits|
    requires forall c :: c in finalChunks ==> Bounded(c, cfg.chunkSize, atoms)
    requires cfg.keepSeparator ==> Concat(splits) == text && forall c :: c in finalChunks ==> Sourced(c, text)
    ensures forall c :: c in finalChunks + [splits[idx]] ==> Bounded(c, cfg.chunkSize, atoms + [splits[idx]])
    ensures cfg.keepSeparator ==> forall c :: c in finalChunks + [splits[idx]] ==> Sourced(c, text)
  {
    var s := splits[idx];
    forall c | c in finalChunks {
      BoundedMore(c, cfg.chunkSize, atoms, [s]);
    }
    assert s in atoms + [s];
    if cfg.keepSeparator {
      var p, q := PieceAt(splits, text, idx, idx + 1);
      assert Tidy(s) == Tidy(text[p..q]);
    }
  }

  /** Adding the chunks of piece `idx`, split again, keeps the chunks' invariant. */
  lemma AddSplit(text: string, splits: seq<string>, cfg: Config, idx: nat, finalChunks: seq<string>,
                 atoms: seq<string>, other: seq<string>, more: seq<string>)
    requires idx < |splits|
    requires forall c :: c in finalChunks ==> Bounded(c, cfg.chunkSize, atoms)
    requires cfg.keepSeparator ==> Concat(splits) == text && forall c :: c in finalChunks ==> Sourced(c, text)
    requires forall i :: 0 <= i < |other| ==> CleanChunk(other[i])
    requires forall c :: c in other ==> Bounded(c, cfg.chunkSize, more)
    requires cfg.keepSeparator ==> forall c :: c in other ==> FromText(c, splits[idx])
    ensures forall c :: c in finalChunks + other ==> Bounded(c, cfg.chunkSize, atoms + more)
    ensures cfg.keepSeparator ==> forall c :: c in finalChunks + other ==> Sourced(c, text)
  {
    forall c | c in finalChunks {
      BoundedMore(c, cfg.chunkSize, atoms, more);
    }
    forall c | c in other ensures Bounded(c, cfg.chunkSize, atoms + more) {
      if |c| > cfg.chunkSize {
        var a :| a in more && Tidy(c) == Tidy(a);
        assert a in atoms + more;
      }
    }
    if cfg.keepSeparator {
      var p, q := PieceAt(splits, text, idx, idx + 1);
      forall c | c in other ensures Sourced(c, text) {
        var i :| 0 <= i < |other| && other[i] == c;
        SourcedInSlice(c, text, p, q);
      }
    }
  }

  /** Post-processing the gathered chunks gives what the splitter promises. */
  lemma Conclude(text: string, cfg: Config, finalChunks: seq<string>, atoms: seq<string>)
    requires forall c :: c in finalChunks ==> Bounded(c, cfg.chunkSize, atoms)
    requires cfg.keepSeparator ==> forall c :: c in finalChunks ==> Sourced(c, text)
    ensures forall c :: c in PostProcess(finalChunks) ==> Bounded(c, cfg.chunkSize, atoms)
    ensures cfg.keepSeparator ==> forall c :: c in PostProcess(finalChunks) ==> FromText(c, text)
  {
    forall c | c in PostProcess(finalChunks)
      ensures Bounded(c, cfg.chunkSize, atoms)
      ensures cfg.keepSeparator ==> FromText(c, text)
    {
      var d := PostProcessFrom(finalChunks, c);
      TidyClean(c);
      if |d| > cfg.chunkSize {
        var a :| a in atoms && Tidy(d) == Tidy(a);
      }
      if cfg.keepSeparator {
        var p, q :| 0 <= p <= q <= |text| && Tidy(d) == Tidy(text[p..q]);
      }
    }
  }

  /**
   * One turn of the loop of lines 129-141, on piece `idx`: a short piece
   * joins the pending run; a long one goes to `LongStep`, which flushes the
   * run. The pieces kept whole so far are those of the pieces before
   * `idx + 1`; a short piece never fails and makes no chunk; with the
   * separator kept, no chunk so far still means that the pieces before the
   * pending run are whitespace only.
   */
  method GatherStep(text: string, splits: seq<string>, cfg: Config, newSeparators: seq<Separator>,
                    joiner: string, idx: nat, goodSplits: seq<string>, finalChunks: seq<string>,
                    ghost start: nat, ghost atoms: seq<string>, ghost noAtoms: bool)
    returns (ok: bool, goodSplits': seq<string>, finalChunks': seq<string>, ghost start': nat, ghost atoms': seq<string>)
    requires idx < |splits|
    requires cfg.keepSeparator ==> joiner == "" && Concat(splits) == text
    requires noAtoms ==> cfg.chunkSize >= 2
    requires noAtoms ==> HasEmptySeparator(newSeparators) || forall i :: 0 <= i < |splits| ==> |splits[i]| < cfg.chunkSize
    requires Gathered(text, splits, cfg, idx, start, goodSplits, finalChunks, atoms, noAtoms)
    requires atoms == PiecesAtoms(splits[..idx], newSeparators, cfg)
    requires forall i :: 0 <= i < |splits| ==> splits[i] != ""
    requires cfg.keepSeparator && Blank(finalChunks) ==> Blank(splits[..start])
    ensures !ok ==> cfg.chunkOverlap < 0
    ensures forall a :: a in atoms' ==> |a| >= cfg.chunkSize
    ensures noAtoms ==> atoms' == []
    ensures ok ==> Gathered(text, splits, cfg, idx + 1, start', goodSplits', finalChunks', atoms', noAtoms)
    ensures ok ==> atoms' == PiecesAtoms(splits[..idx + 1], newSeparators, cfg)
    ensures |splits[idx]| < cfg.chunkSize ==> ok && start' == start && finalChunks' == finalChunks
    ensures ok && cfg.keepSeparator && Blank(finalChunks') ==> Blank(splits[..start'])
    decreases |newSeparators| + 1, 3
  {
    var s := splits[idx];
    if |s| < cfg.chunkSize {
      ShortPiece(text, splits, cfg, idx, start, goodSplits, finalChunks, atoms, noAtoms);
      ShortPieceAtoms(splits, idx, newSeparators, cfg, atoms);
      ok, goodSplits', finalChunks', start', atoms' := true, goodSplits + [s], finalChunks, start, atoms;
    } else {
      ok, finalChunks', atoms' :=
        LongStep(text, splits, cfg, newSeparators, joiner, idx, goodSplits, finalChunks, start, atoms, noAtoms);
      goodSplits', start' := [], idx + 1;
    }
  }

  /**
   * The turn of the loop of lines 129-141 on a long piece `idx`: `LongPiece`
   * merges the pending run and adds the piece's own chunks, and the loop's
   * invariant moves past the piece with no run pending.
   */
  method LongStep(text: string, splits: seq<string>, cfg: Config, newSeparators: seq<Separator>,
                  joiner: string, idx: nat, goodSplits: seq<string>, finalChunks: seq<string>,
                  ghost start: nat, ghost atoms: seq<string>, ghost noAtoms: bool)
    returns (ok: bool, finalChunks': seq<string>, ghost atoms': seq<string>)
    requires idx < |splits| && |splits[idx]| >= cfg.chunkSize
    requires cfg.keepSeparator ==> joiner == "" && Concat(splits) == text
    requires noAtoms ==> cfg.chunkSize >= 2
    requires noAtoms ==> HasEmptySeparator(newSeparators) || forall i :: 0 <= i < |splits| ==> |splits[i]| < cfg.chunkSize
    requires Gathered(text, splits, cfg, idx, start, goodSplits, finalChunks, atoms, noAtoms)
    requires atoms == PiecesAtoms(splits[..idx], newSeparators, cfg)
    requires cfg.keepSeparator && Blank(finalChunks) ==> Blank(splits[..start])
    ensures !ok ==> cfg.chunkOverlap < 0
    ensures forall a :: a in atoms' ==> |a| >= cfg.chunkSize
    ensures noAtoms ==> atoms' == []
    ensures ok ==> Gathered(text, splits, cfg, idx + 1, idx + 1, [], finalChunks', atoms', noAtoms)
    ensures ok ==> atoms' == PiecesAtoms(splits[..idx + 1], newSeparators, cfg)
    ensures ok && cfg.keepSeparator && Blank(finalChunks') ==> Blank(splits[..idx + 1])
    decreases |newSeparators| + 1, 2
  {
    ghost var more, windows;
    var merged, tail;
    PiecesAtomsSnoc(splits, idx, newSeparators, cfg);
    ok, finalChunks', more, merged, tail, windows :=
      LongPiece(text, splits, cfg, idx, newSeparators, joiner, goodSplits, finalChunks, start, atoms, noAtoms);
    atoms' := atoms;
    if ok {
      atoms' := more;
      BlankPrefix(splits, start, idx + 1);
    }
  }

  /**
   * With the separator kept, the run before a long piece and the piece are
   * whitespace only when the chunks they add are: the merged chunks are
   * never whitespace only, and the piece gives a chunk that is not unless it
   * is whitespace only itself.
   */
  lemma AddedBlank(splits: seq<string>, idx: nat, start: nat, goodSplits: seq<string>,
                   finalChunks: seq<string>, merged: seq<string>, tail: seq<string>, newSeparators: seq<Separator>)
    requires start <= idx < |splits| && goodSplits == splits[start..idx]
    requires merged == [] ==> Blank(goodSplits)
    requires forall c :: c in merged ==> !AllSpace(c)
    requires newSeparators == [] ==> tail == [splits[idx]]
    requires newSeparators != [] ==> forall i :: 0 <= i < |tail| ==> CleanChunk(tail[i])
    requires newSeparators != [] ==> (tail == [] ==> AllSpace(splits[idx]))
    ensures Blank(finalChunks + merged + tail) ==> Blank(finalChunks) && Blank(splits[start..idx + 1])
  {
    BlankAppend(finalChunks + merged, tail);
    BlankAppend(finalChunks, merged);
    NoneBlank(merged);
    if newSeparators != [] {
      forall c | c in tail
        ensures !AllSpace(c)
      {
        CleanNotSpace(c);
      }
      NoneBlank(tail);
    }
    assert splits[start..idx + 1] == goodSplits + [splits[idx]];
    BlankAppend(goodSplits, [splits[idx]]);
  }

  /** A list of chunks none of which is whitespace only is blank only when it is empty. */
  lemma NoneBlank(xs: seq<string>)
    requires forall c :: c in xs ==> !AllSpace(c)
    ensures Blank(xs) <==> xs == []
  {
    if xs != [] {
      assert xs[0] in xs;
    }
  }

  /** A clean chunk is not whitespace only. */
  lemma CleanNotSpace(c: string)
    requires CleanChunk(c)
    ensures !AllSpace(c)
  {
    assert !IsSpace(c[0]);
  }

  /** No piece is longer than the text it was cut from. */
  lemma PiecesWithin(text: string, splits: seq<string>)
    requires Concat(splits) == text
    ensures forall i :: 0 <= i < |splits| ==> |splits[i]| <= |text|
  {
    forall i | 0 <= i < |splits|
      ensures |splits[i]| <= |text|
    {
      var p, q := PieceAt(splits, text, i, i + 1);
    }
  }

  /** A short piece joins the pending run, which keeps the loop invariant. */
  lemma ShortPiece(text: string, splits: seq<string>, cfg: Config, idx: nat, start: nat,
                   goodSplits: seq<string>, finalChunks: seq<string>, atoms: seq<string>, noAtoms: bool)
    requires idx < |splits| && 0 < |splits[idx]| < cfg.chunkSize
    requires Gathered(text, splits, cfg, idx, start, goodSplits, finalChunks, atoms, noAtoms)
    ensures Gathered(text, splits, cfg, idx + 1, start, goodSplits + [splits[idx]], finalChunks, atoms, noAtoms)
  {
    SliceSnoc(splits, start, idx);
  }

  /** A short piece adds no piece kept whole. */
  lemma ShortPieceAtoms(splits: seq<string>, idx: nat, separators: seq<Separator>, cfg: Config, atoms: seq<string>)
    requires idx < |splits| && |splits[idx]| < cfg.chunkSize
    requires atoms == PiecesAtoms(splits[..idx], separators, cfg)
    ensures atoms == PiecesAtoms(splits[..idx + 1], separators, cfg)
  {
    PiecesAtomsSnoc(splits, idx, separators, cfg);
    assert atoms + [] == atoms;
  }

  /**
   * The loop of lines 129-141 over the pieces of the text: short pieces are
   * gathered into runs; each long one ends the current run, which is merged,
   * and is kept whole or split again. What is left is the last run, still
   * pending, and the chunks so far. `noAtoms` (ghost) records that no piece
   * will have to be kept whole: every piece is short, or the separators left
   * hold the empty one.
   */
  method GatherLoop(text: string, splits: seq<string>, cfg: Config, newSeparators: seq<Separator>,
                    joiner: string, ghost noAtoms: bool)
    returns (ok: bool, goodSplits: seq<string>, finalChunks: seq<string>, ghost start: nat, ghost atoms: seq<string>)
    requires forall i :: 0 <= i < |splits| ==> splits[i] != ""
    requires cfg.keepSeparator ==> joiner == "" && Concat(splits) == text
    requires noAtoms ==> cfg.chunkSize >= 2
    requires noAtoms ==> HasEmptySeparator(newSeparators) || forall i :: 0 <= i < |splits| ==> |splits[i]| < cfg.chunkSize
    ensures !ok ==> cfg.chunkOverlap < 0
    ensures forall a :: a in atoms ==> |a| >= cfg.chunkSize
    ensures noAtoms ==> atoms == []
    ensures ok ==> Gathered(text, splits, cfg, |splits|, start, goodSplits, finalChunks, atoms, noAtoms)
    ensures ok ==> atoms == PiecesAtoms(splits, newSeparators, cfg)
    ensures ok && cfg.keepSeparator && |text| < cfg.chunkSize ==> start == 0 && finalChunks == []
    ensures ok && cfg.keepSeparator && Blank(finalChunks) ==> Blank(splits[..start])
    decreases |newSeparators| + 1, 4
  {
    ok, atoms, finalChunks := true, [], [];
    goodSplits := [];
    start := 0;
    var idx := 0;
    if cfg.keepSeparator {
      PiecesWithin(text, splits);
    }
    while ok && idx < |splits|
      invariant idx <= |splits|
      invariant !ok ==> cfg.chunkOverlap < 0
      invariant forall a :: a in atoms ==> |a| >= cfg.chunkSize
      invariant noAtoms ==> atoms == []
      invariant ok ==> Gathered(text, splits, cfg, idx, start, goodSplits, finalChunks, atoms, noAtoms)
      invariant ok ==> atoms == PiecesAtoms(splits[..idx], newSeparators, cfg)
      invariant ok && cfg.keepSeparator && |text| < cfg.chunkSize ==> start == 0 && finalChunks == []
      invariant ok && cfg.keepSeparator && Blank(finalChunks) ==> Blank(splits[..start])
    {
      ok, goodSplits, finalChunks, start, atoms :=
        GatherStep(text, splits, cfg, newSeparators, joiner, idx, goodSplits, finalChunks, start, atoms, noAtoms);
      idx := idx + 1;
    }
    assert splits[..|splits|] == splits;
  }

  /**
   * Lines 129-144: the loop over the pieces, then the last run merged. The
   * chunks fit, or are tidied pieces kept whole, which are exactly
   * `PiecesAtoms` of the pieces; with the separator kept they come from the
   * text, and there are none when and only when the text is whitespace only.
   */
  method GatherChunks(text: string, splits: seq<string>, cfg: Config, newSeparators: seq<Separator>,
                      joiner: string, ghost noAtoms: bool)
    returns (ok: bool, finalChunks: seq<string>, ghost atoms: seq<string>)
    requires forall i :: 0 <= i < |splits| ==> splits[i] != ""
    requires cfg.keepSeparator ==> joiner == "" && Concat(splits) == text
    requires noAtoms ==> cfg.chunkSize >= 2
    requires noAtoms ==> HasEmptySeparator(newSeparators) || forall i :: 0 <= i < |splits| ==> |splits[i]| < cfg.chunkSize
    ensures !ok ==> cfg.chunkOverlap < 0
    ensures forall a :: a in atoms ==> |a| >= cfg.chunkSize
    ensures noAtoms ==> atoms == []
    ensures ok ==> forall c :: c in finalChunks ==> Bounded(c, cfg.chunkSize, atoms)
    ensures ok && cfg.keepSeparator ==> forall c :: c in finalChunks ==> Sourced(c, text)
    ensures ok ==> atoms == PiecesAtoms(splits, newSeparators, cfg)
    ensures ok && cfg.keepSeparator && |text| < cfg.chunkSize ==>
      finalChunks == OneChunk(text)
    ensures ok && cfg.keepSeparator ==> (Blank(finalChunks) <==> AllSpace(text))
    decreases |newSeparators| + 1, 5
  {
    var goodSplits;
    ghost var start;
    ok, goodSplits, finalChunks, start, atoms := GatherLoop(text, splits, cfg, newSeparators, joiner, noAtoms);
    if ok {
      ok, finalChunks := FlushRun(text, splits, cfg, joiner, goodSplits, finalChunks, start, atoms, noAtoms);
      if ok && cfg.keepSeparator {
        BlankPrefix(splits, start, |splits|);
        assert splits[..|splits|] == splits;
        ConcatBlank(splits);
        SourcedBlank(text, finalChunks);
      }
    }
  }

  /** The pieces before `b` are whitespace only if those before `a` and those from `a` to `b` are. */
  lemma BlankPrefix(splits: seq<string>, a: nat, b: nat)
    requires a <= b <= |splits|
    ensures Blank(splits[..a]) && Blank(splits[a..b]) ==> Blank(splits[..b])
  {
    assert splits[..b] == splits[..a] + splits[a..b];
    BlankAppend(splits[..a], splits[a..b]);
  }

  /** Chunks that come from a text that is whitespace only are whitespace only. */
  lemma SourcedBlank(text: string, chunks: seq<string>)
    requires forall c :: c in chunks ==> Sourced(c, text)
    ensures AllSpace(text) ==> Blank(chunks)
  {
    if AllSpace(text) {
      forall i | 0 <= i < |chunks|
        ensures AllSpace(chunks[i])
      {
        SourcedSpace(chunks[i], text);
      }
      BlankEvery(chunks);
    }
  }

  /** A chunk that comes from a text that is whitespace only is whitespace only. */
  lemma SourcedSpace(c: string, text: string)
    requires Sourced(c, text) && AllSpace(text)
    ensures AllSpace(c)
  {
    var p, q :| 0 <= p <= q <= |text| && Tidy(c) == Tidy(text[p..q]);
    AllSpaceSlice(text, p, q);
    assert Tidy(text[p..q]) == [];
  }

  /**
   * Lines 142-144: after the loop the pending run, which reaches the last
   * piece, is merged and its chunks close the list. They fit in
   * `chunk_size` and, with the separator kept, come from the text. When the
   * run is all the pieces of a short text and no chunk was made before it,
   * the separator being kept, the result is the text as one chunk, stripped.
   */
  method FlushRun(text: string, splits: seq<string>, cfg: Config, joiner: string, goodSplits: seq<string>,
                  finalChunks: seq<string>, ghost start: nat, ghost atoms: seq<string>, ghost noAtoms: bool)
    returns (ok: bool, finalChunks': seq<string>)
    requires Gathered(text, splits, cfg, |splits|, start, goodSplits, finalChunks, atoms, noAtoms)
    requires cfg.keepSeparator ==> joiner == "" && Concat(splits) == text
    ensures !ok ==> cfg.chunkOverlap < 0
    ensures goodSplits == [] ==> ok && finalChunks' == finalChunks
    ensures ok ==> forall c :: c in finalChunks' ==> Bounded(c, cfg.chunkSize, atoms)
    ensures ok && cfg.keepSeparator ==> forall c :: c in finalChunks' ==> Sourced(c, text)
    ensures ok && cfg.keepSeparator && |text| < cfg.chunkSize && start == 0 && finalChunks == [] ==>
      finalChunks' == OneChunk(text)
    ensures ok && cfg.keepSeparator && Blank(finalChunks') ==> Blank(finalChunks) && Blank(goodSplits)
  {
    ok, finalChunks' := true, finalChunks;
    FlushedRun(text, splits, cfg, start, goodSplits);
    if goodSplits != [] {
      var merged, windows := MergeRun(goodSplits, joiner, cfg, text, splits, start, |splits|);
      if merged.Err? {
        return false, finalChunks;
      }
      AddMerged(text, cfg, finalChunks, merged.value, atoms);
      finalChunks' := finalChunks + merged.value;
      BlankAppend(finalChunks, merged.value);
      NoneBlank(merged.value);
    }
  }

  /** After the loop the pending run reaches the last piece; it is all of them when the loop made no chunk. */
  lemma FlushedRun(text: string, splits: seq<string>, cfg: Config, start: nat, goodSplits: seq<string>)
    requires start <= |splits| && goodSplits == splits[start..|splits|]
    requires cfg.keepSeparator ==> Concat(splits) == text
    ensures splits[..|splits|] == splits
    ensures start == 0 ==> goodSplits == splits
    ensures goodSplits == [] && start == 0 && cfg.keepSeparator ==> AllSpace(text)
  {
    assert splits[..|splits|] == splits;
  }

  /**
   * Lines 122-144 of `_split_text`: cut the text with the chosen separator
   * and gather the chunks, before the post-processing of line 145. The
   * chunks fit in `chunk_size` or are pieces kept whole, and with the
   * separator kept they are slices of the text, up to tidying. The pieces
   * kept whole are exactly `Atoms`, and there are none when the list holds
   * the empty separator and `chunk_size` is at least 2. With the separator
   * kept a text shorter than `chunk_size` is one chunk, stripped. Only a
   * negative `chunk_overlap` makes it fail.
   */
  method SplitPieces(text: string, separators: seq<Separator>, cfg: Config,
                     separator: Separator, newSeparators: seq<Separator>)
    returns (ok: bool, finalChunks: seq<string>, ghost atoms: seq<string>)
    requires separators != []
    requires (separator, newSeparators) == Choice(text, separators, cfg.isSeparatorRegex)
    ensures !ok ==> cfg.chunkOverlap < 0
    ensures forall a :: a in atoms ==> |a| >= cfg.chunkSize
    ensures HasEmptySeparator(separators) && cfg.chunkSize >= 2 ==> atoms == []
    ensures ok ==> forall c :: c in finalChunks ==> Bounded(c, cfg.chunkSize, atoms)
    ensures ok && cfg.keepSeparator ==> forall c :: c in finalChunks ==> Sourced(c, text)
    ensures ok ==> atoms == Atoms(text, separators, cfg)
    ensures ok && cfg.keepSeparator && |text| < cfg.chunkSize ==> finalChunks == OneChunk(text)
    ensures ok && cfg.keepSeparator ==> (Blank(finalChunks) <==> AllSpace(text))
    decreases |separators|, 6
  {
    var pattern := Pattern(separator, cfg.isSeparatorRegex);
    var splits := Segment(text, pattern, cfg.keepSeparator);
    ghost var noAtoms := HasEmptySeparator(separators) && cfg.chunkSize >= 2;
    if noAtoms {
      ChoiceKeepsEmpty(text, separators, cfg.isSeparatorRegex);
      if separator.source == "" {
        SegmentEmpty(text, pattern, cfg.keepSeparator);
      }
    }
    if cfg.keepSeparator {
      SegmentConcat(text, pattern, true);
    }
    AtomsOfChoice(text, separators, cfg, separator, newSeparators, splits);
    var joiner := if cfg.keepSeparator then "" else separator.source;
    ok, finalChunks, atoms := GatherChunks(text, splits, cfg, newSeparators, joiner, noAtoms);
  }

  /** The pieces kept whole from a text are those of the pieces the chosen separator cuts it into. */
  lemma AtomsOfChoice(text: string, separators: seq<Separator>, cfg: Config,
                      separator: Separator, newSeparators: seq<Separator>, splits: seq<string>)
    requires separators != []
    requires (separator, newSeparators) == Choice(text, separators, cfg.isSeparatorRegex)
    requires splits == Segment(text, Pattern(separator, cfg.isSeparatorRegex), cfg.keepSeparator)
    ensures Atoms(text, separators, cfg) == PiecesAtoms(splits, newSeparators, cfg)
  {
  }

  /**
   * `_split_text(text, separators)`. Besides the chunks, `atoms` (ghost) lists
   * the pieces, at any depth of the recursion, that were at least
   * `chunk_size` long with no separator left to split them, and so were kept
   * whole (line 138).
   *
   * Every chunk is non-empty, stripped and free of double newlines. Every
   * chunk fits in `chunk_size` unless it is such a piece, tidied; and there
   * is no such piece when the list holds the empty separator and `chunk_size`
   * is at least 2. When the separator is kept, every chunk is a tidied slice
   * of the text. The pieces kept whole are exactly `Atoms`. A text shorter
   * than `chunk_size` comes back as one chunk, tidied, when the separator is
   * kept, so a chunk the splitter returned comes back as itself. The splitter
   * fails only where the source raises `IndexError`: always on an empty list
   * (line 110), otherwise only for a negative `chunk_overlap`.
   */
  method SplitText(text: string, separators: seq<Separator>, cfg: Config)
    returns (r: Result<seq<string>>, ghost atoms: seq<string>)
    ensures r.Err? ==> separators == [] || cfg.chunkOverlap < 0
    ensures separators == [] ==> r.Err?
    ensures separators != [] && cfg.chunkOverlap >= 0 ==> r.Ok?
    ensures r.Ok? ==> forall i :: 0 <= i < |r.value| ==> CleanChunk(r.value[i])
    ensures forall a :: a in atoms ==> |a| >= cfg.chunkSize
    ensures r.Ok? ==> forall c :: c in r.value ==> Bounded(c, cfg.chunkSize, atoms)
    ensures HasEmptySeparator(separators) && cfg.chunkSize >= 2 ==> atoms == []
    ensures r.Ok? && cfg.keepSeparator ==> forall c :: c in r.value ==> FromText(c, text)
    ensures r.Ok? ==> atoms == Atoms(text, separators, cfg)
    ensures separators != [] && cfg.keepSeparator && cfg.chunkOverlap >= 0 && |text| < cfg.chunkSize ==>
      r == Ok(Alone(text))
    ensures separators != [] && cfg.keepSeparator && cfg.chunkOverlap >= 0 && |text| < cfg.chunkSize && CleanChunk(text) ==>
      r == Ok([text])
    ensures r.Ok? && cfg.keepSeparator ==> (r.value == [] <==> AllSpace(text))
    decreases |separators|, 7
  {
    if separators == [] {
      return Err(IndexError), [];
    }
    var separator, newSeparators := ChooseSeparator(text, separators, cfg.isSeparatorRegex);
    var ok, finalChunks;
    ok, finalChunks, atoms := SplitPieces(text, separators, cfg, separator, newSeparators);
    if !ok {
      return Err(IndexError), atoms;
    }
    Conclude(text, cfg, finalChunks, atoms);
    PostProcessNone(finalChunks);
    if cfg.keepSeparator && |text| < cfg.chunkSize {
      ShortText(text, finalChunks);
    }
    r := Ok(PostProcess(finalChunks));
  }

  /** The chunks of a text that is one chunk: none if it is all whitespace, else the text tidied. */
  function Alone(text: string): seq<string> {
    if AllSpace(text) then [] else [Tidy(text)]
  }

  /** Post-processing the one chunk of a short text: the text tidied, which is the text itself if it is clean. */
  lemma ShortText(text: string, finalChunks: seq<string>)
    requires finalChunks == OneChunk(text)
    ensures PostProcess(finalChunks) == Alone(text)
    ensures CleanChunk(text) ==> PostProcess(finalChunks) == [text]
  {
    if !AllSpace(text) {
      StripStripped(Strip(text));
      TidyStrip(text);
      assert PostProcess(finalChunks) == [Tidy(Strip(text))] + PostProcess([]);
    }
    if CleanChunk(text) {
      assert !IsSpace(text[0]);
      TidyClean(text);
    }
  }
}
