/**
 * The greedy overlap merger `_merge_splits` and its helper `_join_docs`.
 *
 * The merger keeps a window (`current_doc`) of consecutive pieces and the
 * running `total`, the length the window would have once joined. A window is
 * emitted when the next piece does not fit; the window is then shrunk from the
 * front until what is carried over is within `chunk_overlap` and leaves room
 * for the next piece.
 */
module Merger {
  import opened Text
  import opened Outcomes
  import opened SplitterConfig

  /** `_join_docs`: the stripped join, or nothing when the join is all whitespace. */
  function JoinDocs(docs: seq<string>, separator: string): (r: Option<string>)
    ensures r.None? <==> AllSpace(Join(docs, separator))
    ensures r.Some? ==> r.value != "" && Stripped(r.value) && r.value == Strip(Join(docs, separator))
  {
    var text := Strip(Join(docs, separator));
    if text == "" then None else Some(text)
  }

  /** A window of the merger, as the half-open range of piece indices it holds. */
  datatype Span = Span(lo: nat, hi: nat)

  ghost predicate ValidSpans(splits: seq<string>, windows: seq<Span>) {
    forall k :: 0 <= k < |windows| ==> windows[k].lo <= windows[k].hi <= |splits|
  }

  /**
   * The length of `separator.join(splits[lo:hi])` for a separator of length
   * `sepLen`, counted the way the source's `total` is: each piece, plus one
   * separator after every piece but the last.
   */
  ghost function WindowLength(splits: seq<string>, lo: nat, hi: nat, sepLen: nat): (n: nat)
    requires lo <= hi <= |splits|
    ensures lo < hi ==> n >= |splits[lo]| + (if lo + 1 < hi then sepLen else 0)
    decreases hi - lo
  {
    if lo == hi then 0
    else |splits[lo]| + (if lo + 1 < hi then sepLen else 0) + WindowLength(splits, lo + 1, hi, sepLen)
  }

  /** `WindowLength` is the length of the join of the window. */
  lemma {:induction false} WindowLengthIsJoinLength(splits: seq<string>, lo: nat, hi: nat, separator: string)
    requires lo <= hi <= |splits|
    ensures WindowLength(splits, lo, hi, |separator|) == |Join(splits[lo..hi], separator)|
    decreases hi - lo
  {
    if lo < hi {
      WindowLengthIsJoinLength(splits, lo + 1, hi, separator);
      assert splits[lo..hi][1..] == splits[lo + 1..hi];
    }
  }

  /** So the running total is the pieces' lengths plus one separator per gap (lines 66-99). */
  lemma WindowLengthFormula(splits: seq<string>, lo: nat, hi: nat, separator: string)
    requires lo < hi <= |splits|
    ensures WindowLength(splits, lo, hi, |separator|) == SumLengths(splits[lo..hi]) + |separator| * (hi - lo - 1)
  {
    WindowLengthIsJoinLength(splits, lo, hi, separator);
    JoinLength(splits[lo..hi], separator);
  }

  /** Appending the next piece adds its length and, unless the window was empty, one separator (line 99). */
  lemma {:induction false} WindowLengthSnoc(splits: seq<string>, lo: nat, hi: nat, sepLen: nat)
    requires lo <= hi < |splits|
    ensures WindowLength(splits, lo, hi + 1, sepLen)
      == WindowLength(splits, lo, hi, sepLen) + |splits[hi]| + (if lo < hi then sepLen else 0)
    decreases hi - lo
  {
    if lo < hi {
      WindowLengthSnoc(splits, lo + 1, hi, sepLen);
    }
  }

  /** A window only grows as it takes in more pieces. */
  lemma {:induction false} WindowLengthGrows(splits: seq<string>, lo: nat, hi: nat, hi': nat, sepLen: nat)
    requires lo <= hi <= hi' <= |splits|
    ensures WindowLength(splits, lo, hi, sepLen) <= WindowLength(splits, lo, hi', sepLen)
    decreases hi' - hi
  {
    if hi < hi' {
      WindowLengthGrows(splits, lo, hi, hi' - 1, sepLen);
      WindowLengthSnoc(splits, lo, hi' - 1, sepLen);
    }
  }

  /** A window of non-empty pieces has a positive length. */
  lemma WindowLengthPositive(splits: seq<string>, lo: nat, hi: nat, sepLen: nat)
    requires lo < hi <= |splits| && splits[lo] != ""
    ensures WindowLength(splits, lo, hi, sepLen) > 0
  {
  }

  /**
   * The test of lines 73-76 (and 90-91): adding the pending piece `splits[hi]`
   * to the window `splits[lo:hi]` would take it over `chunk_size`.
   */
  ghost predicate Overflows(splits: seq<string>, lo: nat, hi: nat, sepLen: nat, chunkSize: int)
    requires lo <= hi < |splits|
    ensures Overflows(splits, lo, hi, sepLen, chunkSize) <==> WindowLength(splits, lo, hi + 1, sepLen) > chunkSize
  {
    WindowLengthSnoc(splits, lo, hi, sepLen);
    WindowLength(splits, lo, hi, sepLen) + |splits[hi]| + (if lo < hi then sepLen else 0) > chunkSize
  }

  /** The condition of the popping loop (lines 89-93) on the window `splits[lo:hi]`. */
  ghost predicate KeepPopping(splits: seq<string>, lo: nat, hi: nat, sepLen: nat, cfg: Config)
    requires lo <= hi < |splits|
    ensures KeepPopping(splits, lo, hi, sepLen, cfg) && cfg.chunkOverlap >= 0 ==> lo < hi
  {
    WindowLength(splits, lo, hi, sepLen) > cfg.chunkOverlap
    || (Overflows(splits, lo, hi, sepLen, cfg.chunkSize) && WindowLength(splits, lo, hi, sepLen) > 0)
  }

  /**
   * How many pieces the popping loop drops from the front of the window
   * `splits[lo:hi]`: one at a time, as long as its condition holds.
   */
  ghost function Popped(splits: seq<string>, lo: nat, hi: nat, sepLen: nat, cfg: Config): (n: nat)
    requires lo <= hi < |splits|
    ensures n <= hi - lo
    decreases hi - lo
  {
    if lo < hi && KeepPopping(splits, lo, hi, sepLen, cfg) then 1 + Popped(splits, lo + 1, hi, sepLen, cfg) else 0
  }

  /**
   * How the window `a` was emitted and what was carried into the next one,
   * which starts at `nextLo`: the piece after `a` did not fit, so `a` was
   * emitted; the popping loop then dropped `Popped` pieces from its front and
   * stopped because its condition failed, so the carried part is a suffix of
   * `a` whose length is within `chunk_overlap` and which leaves room for that
   * piece, or is empty.
   */
  ghost predicate Handover(splits: seq<string>, sepLen: nat, cfg: Config, a: Span, nextLo: nat) {
    && a.lo < a.hi < |splits|
    && Overflows(splits, a.lo, a.hi, sepLen, cfg.chunkSize)
    && nextLo == a.lo + Popped(splits, a.lo, a.hi, sepLen, cfg)
    && !KeepPopping(splits, nextLo, a.hi, sepLen, cfg)
  }

  /**
   * Consecutive windows hand over as `Handover` says, and each one ends
   * further on than the one before.
   */
  ghost predicate Chain(splits: seq<string>, sepLen: nat, cfg: Config, windows: seq<Span>) {
    forall k :: 0 <= k < |windows| - 1 ==>
      windows[k].hi < windows[k + 1].hi && Handover(splits, sepLen, cfg, windows[k], windows[k + 1].lo)
  }

  /** Every window is at most `bound` characters long once joined. */
  ghost predicate WindowsFit(splits: seq<string>, sepLen: nat, windows: seq<Span>, bound: int) {
    forall k :: 0 <= k < |windows| ==>
      windows[k].lo <= windows[k].hi <= |splits| && WindowLength(splits, windows[k].lo, windows[k].hi, sepLen) <= bound
  }

  /** Where the window before window `k` ends: 0 for the first window, and for `k == |windows|` the end of the last. */
  ghost function PrevHi(windows: seq<Span>, k: nat): nat
    requires k <= |windows|
  {
    if k == 0 then 0 else windows[k - 1].hi
  }

  /**
   * The window `splits[lo:hi]` was filled from piece `from` on without
   * overflowing: each later piece joined a non-empty window it fitted in, so
   * nothing made the window overflow before piece `hi`. (Piece `from` itself
   * follows the part carried over, which `Handover` describes.)
   */
  ghost predicate FilledFrom(splits: seq<string>, sepLen: nat, chunkSize: int, from: nat, lo: nat, hi: nat)
    requires hi <= |splits|
  {
    forall j :: from < j < hi && lo < j ==> !Overflows(splits, lo, j, sepLen, chunkSize)
  }

  /**
   * Each window took in the pieces after the end of the one before it for as
   * long as they fitted: it ends at the first of them that overflowed it.
   */
  ghost predicate Filled(splits: seq<string>, sepLen: nat, chunkSize: int, windows: seq<Span>) {
    forall k {:trigger PrevHi(windows, k)} :: 0 <= k < |windows| ==>
      windows[k].hi <= |splits| && FilledFrom(splits, sepLen, chunkSize, PrevHi(windows, k), windows[k].lo, windows[k].hi)
  }

  /**
   * What the merger's windows are: they run from the first piece to the last,
   * hand over as `Chain` says, and fill up as `Filled` says.
   */
  ghost predicate Tiling(splits: seq<string>, sepLen: nat, cfg: Config, windows: seq<Span>) {
    && ValidSpans(splits, windows) && |windows| > 0
    && windows[0].lo == 0 && windows[|windows| - 1].hi == |splits|
    && Chain(splits, sepLen, cfg, windows)
    && Filled(splits, sepLen, cfg.chunkSize, windows)
  }

  /** Closing the current window, filled since the end of the last one, keeps the windows filled. */
  lemma FilledSnoc(splits: seq<string>, sepLen: nat, chunkSize: int, windows: seq<Span>, w: Span)
    requires Filled(splits, sepLen, chunkSize, windows) && w.hi <= |splits|
    requires FilledFrom(splits, sepLen, chunkSize, PrevHi(windows, |windows|), w.lo, w.hi)
    ensures Filled(splits, sepLen, chunkSize, windows + [w])
  {
    var ws := windows + [w];
    assert forall k :: 0 <= k < |windows| ==> ws[k] == windows[k] && PrevHi(ws, k) == PrevHi(windows, k);
  }

  /**
   * The windows are determined by the pieces: two lists of windows that both
   * tile them as `Tiling` says are the same list.
   */
  lemma {:induction false} TilingUnique(splits: seq<string>, sepLen: nat, cfg: Config, w1: seq<Span>, w2: seq<Span>)
    requires Tiling(splits, sepLen, cfg, w1) && Tiling(splits, sepLen, cfg, w2)
    ensures w1 == w2
  {
    var n := if |w1| < |w2| then |w1| else |w2|;
    var k := 0;
    while k < n
      invariant k <= n
      invariant forall x :: 0 <= x < k ==> w1[x] == w2[x]
    {
      SameStart(splits, sepLen, cfg, w1, w2, k);
      NotShorter(splits, sepLen, cfg, w1, w2, k);
      NotShorter(splits, sepLen, cfg, w2, w1, k);
      k := k + 1;
    }
    var m := n - 1;
    assert w1[m] == w2[m];
    EndsLast(splits, sepLen, cfg, w1, m);
    EndsLast(splits, sepLen, cfg, w2, m);
  }

  /** Only the last window of a tiling reaches the last piece. */
  lemma EndsLast(splits: seq<string>, sepLen: nat, cfg: Config, w: seq<Span>, m: nat)
    requires Tiling(splits, sepLen, cfg, w) && m < |w|
    ensures w[m].hi == |splits| <==> m == |w| - 1
  {
    if m + 1 < |w| {
      assert w[m].hi < w[m + 1].hi <= |splits|;
    }
  }

  /** Windows that agree before `k` start at the same piece. */
  lemma SameStart(splits: seq<string>, sepLen: nat, cfg: Config, w1: seq<Span>, w2: seq<Span>, k: nat)
    requires Tiling(splits, sepLen, cfg, w1) && Tiling(splits, sepLen, cfg, w2)
    requires k < |w1| && k < |w2| && forall x :: 0 <= x < k ==> w1[x] == w2[x]
    ensures w1[k].lo == w2[k].lo
  {
    if k > 0 {
      assert Handover(splits, sepLen, cfg, w1[k - 1], w1[k].lo);
      assert Handover(splits, sepLen, cfg, w2[k - 1], w2[k].lo);
    }
  }

  /**
   * Of two windows that agree before `k` and start at the same piece,
   * the first cannot end sooner: it would end at a piece that overflows it,
   * and the second window, filled further, took that piece in.
   */
  lemma NotShorter(splits: seq<string>, sepLen: nat, cfg: Config, w1: seq<Span>, w2: seq<Span>, k: nat)
    requires Tiling(splits, sepLen, cfg, w1) && Tiling(splits, sepLen, cfg, w2)
    requires k < |w1| && k < |w2| && forall x :: 0 <= x < k ==> w1[x] == w2[x]
    requires w1[k].lo == w2[k].lo
    ensures w2[k].hi <= w1[k].hi
  {
    if k + 1 < |w1| {
      assert Handover(splits, sepLen, cfg, w1[k], w1[k + 1].lo);
      assert PrevHi(w2, k) == PrevHi(w1, k) < w1[k].hi;
      assert FilledFrom(splits, sepLen, cfg.chunkSize, PrevHi(w2, k), w2[k].lo, w2[k].hi);
    }
  }

  /** Every piece lies in some window of a tiling. */
  lemma TilingCovers(splits: seq<string>, sepLen: nat, cfg: Config, windows: seq<Span>, j: nat) returns (k: nat)
    requires Tiling(splits, sepLen, cfg, windows) && j < |splits|
    ensures k < |windows| && windows[k].lo <= j < windows[k].hi
  {
    k := 0;
    while windows[k].hi <= j
      invariant k < |windows|
      invariant k == 0 || windows[k - 1].hi <= j
      decreases |windows| - k
    {
      k := k + 1;
    }
    if k > 0 {
      assert Handover(splits, sepLen, cfg, windows[k - 1], windows[k].lo);
    }
  }

  /** Window `w` joins to whitespace only, so it makes no chunk. */
  ghost predicate Silent(splits: seq<string>, separator: string, w: Span)
    requires w.lo <= w.hi <= |splits|
  {
    JoinDocs(splits[w.lo..w.hi], separator).None?
  }

  /** No chunk comes out exactly when every window joins to whitespace only. */
  lemma {:induction false} EmittedNone(splits: seq<string>, separator: string, windows: seq<Span>)
    requires ValidSpans(splits, windows)
    ensures Emitted(splits, separator, windows) == [] ==>
      forall k :: 0 <= k < |windows| ==> Silent(splits, separator, windows[k])
    ensures (forall k :: 0 <= k < |windows| ==> Silent(splits, separator, windows[k])) ==>
      Emitted(splits, separator, windows) == []
    decreases |windows|
  {
    if windows != [] {
      var n := |windows| - 1;
      var init, w := windows[..n], windows[n];
      assert windows == init + [w];
      EmittedNone(splits, separator, init);
      var rest := Emitted(splits, separator, init);
      var silent := Silent(splits, separator, w);
      assert Emitted(splits, separator, windows) == if silent then rest else rest + [JoinDocs(splits[w.lo..w.hi], separator).value];
      if Emitted(splits, separator, windows) == [] {
        assert silent && rest == [];
        SilentSnoc(splits, separator, init, w);
      }
    }
  }

  /** Adding a silent window to silent windows leaves them all silent. */
  lemma SilentSnoc(splits: seq<string>, separator: string, init: seq<Span>, w: Span)
    requires ValidSpans(splits, init) && w.lo <= w.hi <= |splits|
    requires forall k :: 0 <= k < |init| ==> Silent(splits, separator, init[k])
    requires Silent(splits, separator, w)
    ensures forall k :: 0 <= k < |init + [w]| ==> Silent(splits, separator, (init + [w])[k])
  {
  }

  /**
   * The windows of a tiling cover every piece, so when no chunk comes out
   * every piece is whitespace only; with a whitespace-only separator the
   * converse holds.
   */
  lemma EmittedBlank(splits: seq<string>, separator: string, cfg: Config, windows: seq<Span>)
    requires Tiling(splits, |separator|, cfg, windows)
    ensures Emitted(splits, separator, windows) == [] ==> Blank(splits)
    ensures Blank(splits) && AllSpace(separator) ==> Emitted(splits, separator, windows) == []
  {
    EmittedNone(splits, separator, windows);
    if Emitted(splits, separator, windows) == [] {
      forall j | 0 <= j < |splits|
        ensures AllSpace(splits[j])
      {
        var k := TilingCovers(splits, |separator|, cfg, windows, j);
        SilentPieces(splits, separator, windows[k]);
      }
      BlankEvery(splits);
    }
    if Blank(splits) && AllSpace(separator) {
      forall k | 0 <= k < |windows|
        ensures Silent(splits, separator, windows[k])
      {
        BlankSilent(splits, separator, windows[k]);
      }
    }
  }

  /** The pieces of a silent window are whitespace only. */
  lemma SilentPieces(splits: seq<string>, separator: string, w: Span)
    requires w.lo <= w.hi <= |splits| && Silent(splits, separator, w)
    ensures forall j :: w.lo <= j < w.hi ==> AllSpace(splits[j])
  {
    var docs := splits[w.lo..w.hi];
    JoinBlank(docs, separator);
    forall j | w.lo <= j < w.hi
      ensures AllSpace(splits[j])
    {
      BlankAt(docs, j - w.lo);
    }
  }

  /** A window of whitespace-only pieces, joined with a whitespace-only separator, is silent. */
  lemma BlankSilent(splits: seq<string>, separator: string, w: Span)
    requires w.lo <= w.hi <= |splits| && AllSpace(separator) && Blank(splits)
    ensures Silent(splits, separator, w)
  {
    var docs := splits[w.lo..w.hi];
    forall x | 0 <= x < |docs|
      ensures AllSpace(docs[x])
    {
      BlankAt(splits, w.lo + x);
    }
    BlankEvery(docs);
    JoinDocsBlank(docs, separator);
  }

  /** Whitespace-only pieces joined with a whitespace-only separator give no chunk. */
  lemma JoinDocsBlank(docs: seq<string>, separator: string)
    requires Blank(docs) && AllSpace(separator)
    ensures JoinDocs(docs, separator).None?
  {
    JoinBlank(docs, separator);
  }

  /**
   * The merger's bookkeeping before it reads piece `i`: the windows emitted so
   * far form a chain from the first piece, and the current window, which starts
   * at `lo`, is what the last of them handed over (or everything, if none).
   */
  ghost predicate Progress(splits: seq<string>, sepLen: nat, cfg: Config, windows: seq<Span>, lo: nat, i: nat) {
    && lo <= i <= |splits|
    && ValidSpans(splits, windows)
    && (forall k :: 0 <= k < |windows| ==> windows[k].hi < i)
    && (windows == [] ==> lo == 0)
    && (windows != [] ==> windows[0].lo == 0 && Handover(splits, sepLen, cfg, windows[|windows| - 1], lo))
    && Chain(splits, sepLen, cfg, windows)
  }

  lemma ProgressAppend(splits: seq<string>, sepLen: nat, cfg: Config, windows: seq<Span>, lo: nat, i: nat)
    requires Progress(splits, sepLen, cfg, windows, lo, i) && i < |splits|
    ensures Progress(splits, sepLen, cfg, windows, lo, i + 1)
  {
  }

  lemma ProgressEmit(splits: seq<string>, sepLen: nat, cfg: Config, windows: seq<Span>, lo0: nat, lo: nat, i: nat)
    requires Progress(splits, sepLen, cfg, windows, lo0, i)
    requires Handover(splits, sepLen, cfg, Span(lo0, i), lo)
    ensures Progress(splits, sepLen, cfg, windows + [Span(lo0, i)], lo, i + 1)
  {
    var ws := windows + [Span(lo0, i)];
    assert forall k :: 0 <= k < |windows| ==> ws[k] == windows[k];
  }

  lemma ProgressFinish(splits: seq<string>, sepLen: nat, cfg: Config, windows: seq<Span>, lo: nat)
    requires Progress(splits, sepLen, cfg, windows, lo, |splits|)
    ensures var ws := windows + [Span(lo, |splits|)];
      ValidSpans(splits, ws) && ws[0].lo == 0 && Chain(splits, sepLen, cfg, ws)
  {
    var ws := windows + [Span(lo, |splits|)];
    assert forall k :: 0 <= k < |windows| ==> ws[k] == windows[k];
  }

  /** The chunks a sequence of windows yields: each one's `_join_docs`, where there is one. */
  ghost function Emitted(splits: seq<string>, separator: string, windows: seq<Span>): (r: seq<string>)
    requires ValidSpans(splits, windows)
    ensures |r| <= |windows|
  {
    if windows == [] then []
    else
      var w := windows[|windows| - 1];
      var rest := Emitted(splits, separator, windows[..|windows| - 1]);
      match JoinDocs(splits[w.lo..w.hi], separator)
      case None => rest
      case Some(doc) => rest + [doc]
  }

  /** The chunks of a text that is a chunk on its own: none if it is all whitespace, else the text stripped. */
  function OneChunk(s: string): seq<string> {
    if AllSpace(s) then [] else [Strip(s)]
  }

  /**
   * When the whole join fits in `chunk_size`, no piece ever overflows, so a
   * chain of windows from the first piece to the last is the single window
   * of all the pieces, and the only chunk is the stripped join, if it is not
   * all whitespace.
   */
  lemma OneWindow(splits: seq<string>, separator: string, cfg: Config, windows: seq<Span>)
    requires Tiling(splits, |separator|, cfg, windows)
    requires |Join(splits, separator)| <= cfg.chunkSize
    ensures windows == [Span(0, |splits|)]
    ensures Emitted(splits, separator, windows) == OneChunk(Join(splits, separator))
  {
    var sepLen, n := |separator|, |splits|;
    WindowLengthIsJoinLength(splits, 0, n, separator);
    assert splits[0..n] == splits;
    if |windows| > 1 {
      var h := windows[0].hi;
      assert Handover(splits, sepLen, cfg, windows[0], windows[1].lo);
      WindowLengthSnoc(splits, 0, h, sepLen);
      WindowLengthGrows(splits, 0, h + 1, n, sepLen);
      assert false;
    }
    assert windows[..0] == [];
  }

  /** The chunk size is positive and every piece is non-empty and fits in a chunk on its own. */
  predicate SmallPieces(splits: seq<string>, chunkSize: int) {
    chunkSize > 0 && forall i :: 0 <= i < |splits| ==> 0 < |splits[i]| <= chunkSize
  }

  /** Each chunk is non-empty, stripped, and the stripped join of one of the windows. */
  lemma {:induction false} EmittedChunks(splits: seq<string>, separator: string, windows: seq<Span>)
    requires ValidSpans(splits, windows)
    ensures forall d :: d in Emitted(splits, separator, windows) ==> d != "" && Stripped(d)
    ensures forall d :: d in Emitted(splits, separator, windows) ==>
      exists k :: 0 <= k < |windows| && d == Strip(Join(splits[windows[k].lo..windows[k].hi], separator))
  {
    if windows != [] {
      var init := windows[..|windows| - 1];
      assert forall k :: 0 <= k < |init| ==> init[k] == windows[k];
      EmittedChunks(splits, separator, init);
    }
  }

  /** Every chunk of windows that fit in `bound` fits in `bound`: stripping only shortens. */
  lemma {:induction false} EmittedFit(splits: seq<string>, separator: string, windows: seq<Span>, bound: int)
    requires ValidSpans(splits, windows) && WindowsFit(splits, |separator|, windows, bound)
    ensures forall d :: d in Emitted(splits, separator, windows) ==> |d| <= bound
  {
    if windows != [] {
      var w := windows[|windows| - 1];
      var init := windows[..|windows| - 1];
      assert forall k :: 0 <= k < |init| ==> init[k] == windows[k];
      EmittedFit(splits, separator, init, bound);
      WindowLengthIsJoinLength(splits, w.lo, w.hi, separator);
    }
  }

  /**
   * The popping loop of lines 89-95, run on the window `splits[lo0:i]` (held
   * as `currentDoc`, of joined length `total`) just emitted before piece `i`.
   * It drops `Popped` pieces from the front and stops because its condition
   * fails, or it fails on `current_doc[0]` of an empty window, which only a
   * negative `chunk_overlap` allows.
   */
  method ShrinkWindow(splits: seq<string>, separator: string, cfg: Config, ghost lo0: nat, i: nat,
                      currentDoc: seq<string>, total: int)
    returns (ok: bool, rest: seq<string>, remaining: int, ghost lo: nat)
    requires lo0 <= i < |splits|
    requires currentDoc == splits[lo0..i] && total == WindowLength(splits, lo0, i, |separator|)
    ensures !ok ==> cfg.chunkOverlap < 0
    ensures ok ==> lo == lo0 + Popped(splits, lo0, i, |separator|, cfg) && lo <= i
    ensures ok ==> !KeepPopping(splits, lo, i, |separator|, cfg)
    ensures ok ==> rest == splits[lo..i] && remaining == WindowLength(splits, lo, i, |separator|)
  {
    var separatorLen := |separator|;
    var len := |splits[i]|;
    rest, remaining, lo := currentDoc, total, lo0;
    while remaining > cfg.chunkOverlap
      || (remaining + len + (if |rest| > 0 then separatorLen else 0) > cfg.chunkSize && remaining > 0)
      invariant lo0 <= lo <= i
      invariant rest == splits[lo..i]
      invariant remaining == WindowLength(splits, lo, i, separatorLen)
      invariant lo0 + Popped(splits, lo0, i, separatorLen, cfg) == lo + Popped(splits, lo, i, separatorLen, cfg)
      decreases |rest|
    {
      if rest == [] {
        return false, rest, remaining, lo;
      }
      remaining := remaining - (|rest[0]| + (if |rest| > 1 then separatorLen else 0));
      rest := rest[1..];
      lo := lo + 1;
    }
    ok := true;
  }

  /**
   * Lines 82-85 and 100-102: emit the window `splits[lo:hi]`, held as
   * `currentDoc`, by appending its `_join_docs` to the chunks, if any.
   */
  method EmitChunk(ghost splits: seq<string>, separator: string, ghost windows: seq<Span>,
                   docs: seq<string>, currentDoc: seq<string>, ghost lo: nat, ghost hi: nat)
    returns (docs': seq<string>)
    requires ValidSpans(splits, windows) && lo <= hi <= |splits| && currentDoc == splits[lo..hi]
    requires docs == Emitted(splits, separator, windows)
    ensures ValidSpans(splits, windows + [Span(lo, hi)])
    ensures docs' == Emitted(splits, separator, windows + [Span(lo, hi)])
  {
    var ws := windows + [Span(lo, hi)];
    assert ws[..|ws| - 1] == windows;
    var doc := JoinDocs(currentDoc, separator);
    docs' := docs;
    if doc.Some? {
      docs' := docs' + [doc.value];
    }
  }

  /** Extending a window by the piece after it. */
  lemma SliceSnoc(splits: seq<string>, lo: nat, hi: nat)
    requires lo <= hi < |splits|
    ensures splits[lo..hi + 1] == splits[lo..hi] + [splits[hi]]
  {
  }

  /**
   * The windows the merger has emitted, and where its current window starts,
   * once it has read the first `i` pieces; `None` once it has failed. Piece
   * `j` closes the current window when the window is not empty and the piece
   * overflows it (lines 73-76 and 82); the window is emitted, and the popping
   * loop drops `Popped` pieces from its front. It fails (line 94) when its
   * condition still holds on the empty window.
   */
  ghost function WindowsAfter(splits: seq<string>, sepLen: nat, cfg: Config, i: nat): (r: Option<(seq<Span>, nat)>)
    requires i <= |splits|
    ensures r.Some? ==> r.value.1 <= i
    decreases i
  {
    if i == 0 then Some(([], 0))
    else
      match WindowsAfter(splits, sepLen, cfg, i - 1)
      case None => None
      case Some((windows, lo)) =>
        var j := i - 1;
        if lo < j && Overflows(splits, lo, j, sepLen, cfg.chunkSize) then
          var next := lo + Popped(splits, lo, j, sepLen, cfg);
          if KeepPopping(splits, next, j, sepLen, cfg) then None else Some((windows + [Span(lo, j)], next))
        else Some((windows, lo))
  }

  /** Piece `i` closes the current window, which hands over to `next`. */
  lemma WindowsAfterEmit(splits: seq<string>, sepLen: nat, cfg: Config, i: nat, windows: seq<Span>, lo: nat, next: nat)
    requires i < |splits| && WindowsAfter(splits, sepLen, cfg, i) == Some((windows, lo))
    requires lo < i && Overflows(splits, lo, i, sepLen, cfg.chunkSize)
    requires next == lo + Popped(splits, lo, i, sepLen, cfg) && !KeepPopping(splits, next, i, sepLen, cfg)
    ensures WindowsAfter(splits, sepLen, cfg, i + 1) == Some((windows + [Span(lo, i)], next))
  {
  }

  /** Piece `i` joins the current window, which is empty or which it does not overflow. */
  lemma WindowsAfterAppend(splits: seq<string>, sepLen: nat, cfg: Config, i: nat, windows: seq<Span>, lo: nat)
    requires i < |splits| && WindowsAfter(splits, sepLen, cfg, i) == Some((windows, lo))
    requires lo < i ==> !Overflows(splits, lo, i, sepLen, cfg.chunkSize)
    ensures WindowsAfter(splits, sepLen, cfg, i + 1) == Some((windows, lo))
  {
  }

  /**
   * The windows after `i` pieces keep the bookkeeping of `Progress`, and with
   * a negative `chunk_overlap` none was emitted, since emptying a window
   * cannot bring it within the overlap.
   */
  lemma {:induction false} WindowsAfterProgress(splits: seq<string>, sepLen: nat, cfg: Config, i: nat,
                                                windows: seq<Span>, lo: nat)
    requires i <= |splits| && WindowsAfter(splits, sepLen, cfg, i) == Some((windows, lo))
    ensures Progress(splits, sepLen, cfg, windows, lo, i)
    ensures cfg.chunkOverlap < 0 ==> windows == []
    decreases i
  {
    if i > 0 {
      var j := i - 1;
      var (ws, lo0) := WindowsAfter(splits, sepLen, cfg, j).value;
      WindowsAfterProgress(splits, sepLen, cfg, j, ws, lo0);
      if lo0 < j && Overflows(splits, lo0, j, sepLen, cfg.chunkSize) {
        ProgressEmit(splits, sepLen, cfg, ws, lo0, lo, j);
      } else {
        ProgressAppend(splits, sepLen, cfg, ws, lo0, j);
      }
    }
  }

  /**
   * The windows after `i` pieces filled up as `Filled` says: each emitted one,
   * and the current one since the end of the last of them, took in every
   * piece that did not overflow it.
   */
  lemma {:induction false} WindowsAfterFilled(splits: seq<string>, sepLen: nat, cfg: Config, i: nat,
                                              windows: seq<Span>, lo: nat)
    requires i <= |splits| && WindowsAfter(splits, sepLen, cfg, i) == Some((windows, lo))
    ensures Filled(splits, sepLen, cfg.chunkSize, windows)
    ensures FilledFrom(splits, sepLen, cfg.chunkSize, PrevHi(windows, |windows|), lo, i)
    decreases i
  {
    if i > 0 {
      var j := i - 1;
      var (ws, lo0) := WindowsAfter(splits, sepLen, cfg, j).value;
      WindowsAfterFilled(splits, sepLen, cfg, j, ws, lo0);
      if lo0 < j && Overflows(splits, lo0, j, sepLen, cfg.chunkSize) {
        FilledSnoc(splits, sepLen, cfg.chunkSize, ws, Span(lo0, j));
      } else {
        FilledFromSnoc(splits, sepLen, cfg.chunkSize, PrevHi(ws, |ws|), lo0, j);
      }
    }
  }

  /**
   * The merger's state before it reads piece `i`, the invariant of the loop
   * of lines 69-99: the windows and the start of the current one are those
   * of `WindowsAfter`; `currentDoc` is the current window and `total` its
   * joined length; the chunks so far are those of the emitted windows; and,
   * when the pieces are small, the current window and every emitted one fit
   * in a chunk and no warning was logged.
   */
  ghost predicate Merging(splits: seq<string>, separator: string, cfg: Config, i: nat,
                          docs: seq<string>, currentDoc: seq<string>, total: int,
                          windows: seq<Span>, lo: nat, warned: bool) {
    && lo <= i <= |splits|
    && WindowsAfter(splits, |separator|, cfg, i) == Some((windows, lo))
    && currentDoc == splits[lo..i]
    && total == WindowLength(splits, lo, i, |separator|)
    && ValidSpans(splits, windows)
    && docs == Emitted(splits, separator, windows)
    && (SmallPieces(splits, cfg.chunkSize) ==>
         && (lo < i ==> total <= cfg.chunkSize)
         && !warned
         && WindowsFit(splits, |separator|, windows, cfg.chunkSize))
  }

  /**
   * Lines 76-95: piece `i` does not fit after the non-empty current window.
   * The window is emitted (with the warning of line 77 when it is itself too
   * long) and shrunk from the front; piece `i` then fits after what is left,
   * or what is left is empty.
   */
  method CloseWindow(splits: seq<string>, separator: string, cfg: Config, i: nat,
                     docs: seq<string>, currentDoc: seq<string>, total: int,
                     ghost windows: seq<Span>, ghost lo: nat, ghost warned: bool)
    returns (ok: bool, docs': seq<string>, currentDoc': seq<string>, total': int,
             ghost windows': seq<Span>, ghost lo': nat, ghost warned': bool)
    requires i < |splits|
    requires Merging(splits, separator, cfg, i, docs, currentDoc, total, windows, lo, warned)
    requires currentDoc != [] && Overflows(splits, lo, i, |separator|, cfg.chunkSize)
    ensures !ok ==> cfg.chunkOverlap < 0
    ensures SmallPieces(splits, cfg.chunkSize) ==> !warned'
    ensures ok ==> && WindowsAfter(splits, |separator|, cfg, i + 1) == Some((windows', lo')) && lo' <= i
                   && ValidSpans(splits, windows')
                   && currentDoc' == splits[lo'..i] && total' == WindowLength(splits, lo', i, |separator|)
                   && docs' == Emitted(splits, separator, windows')
    ensures ok && SmallPieces(splits, cfg.chunkSize) ==>
      && total' + |splits[i]| + (if lo' < i then |separator| else 0) <= cfg.chunkSize
      && WindowsFit(splits, |separator|, windows', cfg.chunkSize)
  {
    var separatorLen := |separator|;
    ghost var small := SmallPieces(splits, cfg.chunkSize);
    warned' := warned || total > cfg.chunkSize;
    docs' := EmitChunk(splits, separator, windows, docs, currentDoc, lo, i);
    windows' := windows + [Span(lo, i)];
    if small {
      WindowsFitSnoc(splits, separatorLen, windows, Span(lo, i), cfg.chunkSize);
    }
    ok, currentDoc', total', lo' := ShrinkWindow(splits, separator, cfg, lo, i, currentDoc, total);
    if ok {
      WindowsAfterEmit(splits, separatorLen, cfg, i, windows, lo, lo');
      ValidSpansSnoc(splits, windows, Span(lo, i));
      if small && lo' < i {
        WindowLengthPositive(splits, lo', i, separatorLen);
      }
    }
  }

  /**
   * One turn of the loop of lines 69-99, on piece `i`: close the window if
   * the piece does not fit (and the window is not empty), then add the piece.
   */
  method MergeStep(splits: seq<string>, separator: string, cfg: Config, i: nat,
                   docs: seq<string>, currentDoc: seq<string>, total: int,
                   ghost windows: seq<Span>, ghost lo: nat, ghost warned: bool)
    returns (ok: bool, docs': seq<string>, currentDoc': seq<string>, total': int,
             ghost windows': seq<Span>, ghost lo': nat, ghost warned': bool)
    requires i < |splits|
    requires Merging(splits, separator, cfg, i, docs, currentDoc, total, windows, lo, warned)
    ensures !ok ==> cfg.chunkOverlap < 0
    ensures SmallPieces(splits, cfg.chunkSize) ==> !warned'
    ensures ok ==> Merging(splits, separator, cfg, i + 1, docs', currentDoc', total', windows', lo', warned')
  {
    var separatorLen := |separator|;
    var d := splits[i];
    var len := |d|;
    ok, docs', currentDoc', total', windows', lo', warned' := true, docs, currentDoc, total, windows, lo, warned;
    if total + len + (if |currentDoc| > 0 then separatorLen else 0) > cfg.chunkSize {
      if |currentDoc| > 0 {
        ok, docs', currentDoc', total', windows', lo', warned' :=
          CloseWindow(splits, separator, cfg, i, docs, currentDoc, total, windows, lo, warned);
        if !ok {
          return;
        }
      } else {
        warned' := warned || total > cfg.chunkSize;
        WindowsAfterAppend(splits, separatorLen, cfg, i, windows, lo);
      }
    } else {
      WindowsAfterAppend(splits, separatorLen, cfg, i, windows, lo);
    }
    WindowLengthSnoc(splits, lo', i, separatorLen);
    SliceSnoc(splits, lo', i);
    currentDoc' := currentDoc' + [d];
    total' := total' + len + (if |currentDoc'| > 1 then separatorLen else 0);
  }

  /** The current window takes in piece `hi` without overflowing, or it is empty, or `hi` is where it was started from. */
  lemma FilledFromSnoc(splits: seq<string>, sepLen: nat, chunkSize: int, from: nat, lo: nat, hi: nat)
    requires hi < |splits| && FilledFrom(splits, sepLen, chunkSize, from, lo, hi)
    requires lo < hi && from < hi ==> !Overflows(splits, lo, hi, sepLen, chunkSize)
    ensures FilledFrom(splits, sepLen, chunkSize, from, lo, hi + 1)
  {
  }

  /** Appending a span inside the pieces keeps every span inside them. */
  lemma ValidSpansSnoc(splits: seq<string>, windows: seq<Span>, w: Span)
    requires ValidSpans(splits, windows) && w.lo <= w.hi <= |splits|
    ensures ValidSpans(splits, windows + [w])
  {
    var ws := windows + [w];
    assert forall k :: 0 <= k < |windows| ==> ws[k] == windows[k];
  }

  /** Appending a window that fits keeps every window fitting. */
  lemma WindowsFitSnoc(splits: seq<string>, sepLen: nat, windows: seq<Span>, w: Span, bound: int)
    requires WindowsFit(splits, sepLen, windows, bound)
    requires w.lo <= w.hi <= |splits| && WindowLength(splits, w.lo, w.hi, sepLen) <= bound
    ensures WindowsFit(splits, sepLen, windows + [w], bound)
  {
    var ws := windows + [w];
    assert forall k :: 0 <= k < |windows| ==> ws[k] == windows[k];
  }

  /**
   * Lines 101-103: after the last piece, emit what is left in the window.
   * The windows then run from the first piece to the last.
   */
  method FinishMerge(splits: seq<string>, separator: string, cfg: Config,
                     docs: seq<string>, currentDoc: seq<string>, total: int,
                     ghost windows: seq<Span>, ghost lo: nat, ghost warned: bool)
    returns (docs': seq<string>, ghost windows': seq<Span>)
    requires Merging(splits, separator, cfg, |splits|, docs, currentDoc, total, windows, lo, warned)
    ensures Tiling(splits, |separator|, cfg, windows')
    ensures cfg.chunkOverlap < 0 ==> |windows'| == 1
    ensures docs' == Emitted(splits, separator, windows')
    ensures forall d :: d in docs' ==> d != "" && Stripped(d)
    ensures SmallPieces(splits, cfg.chunkSize) ==>
      WindowsFit(splits, |separator|, windows', cfg.chunkSize) && forall d :: d in docs' ==> |d| <= cfg.chunkSize
  {
    docs' := EmitChunk(splits, separator, windows, docs, currentDoc, lo, |splits|);
    WindowsAfterProgress(splits, |separator|, cfg, |splits|, windows, lo);
    WindowsAfterFilled(splits, |separator|, cfg, |splits|, windows, lo);
    ProgressFinish(splits, |separator|, cfg, windows, lo);
    windows' := windows + [Span(lo, |splits|)];
    FilledSnoc(splits, |separator|, cfg.chunkSize, windows, Span(lo, |splits|));
    EmittedChunks(splits, separator, windows');
    if SmallPieces(splits, cfg.chunkSize) {
      WindowsFitSnoc(splits, |separator|, windows, Span(lo, |splits|), cfg.chunkSize);
      EmittedFit(splits, separator, windows', cfg.chunkSize);
    }
  }

  /** The loop of lines 69-99, over all the pieces, stopping at the first failure. */
  method MergeLoop(splits: seq<string>, separator: string, cfg: Config)
    returns (ok: bool, docs: seq<string>, currentDoc: seq<string>, total: int,
             ghost windows: seq<Span>, ghost lo: nat, ghost warned: bool)
    ensures !ok ==> cfg.chunkOverlap < 0
    ensures SmallPieces(splits, cfg.chunkSize) ==> !warned
    ensures ok ==> Merging(splits, separator, cfg, |splits|, docs, currentDoc, total, windows, lo, warned)
  {
    docs, currentDoc, total := [], [], 0;
    windows, lo, warned := [], 0, false;
    ok := true;
    var i := 0;
    while ok && i < |splits|
      invariant i <= |splits|
      invariant !ok ==> cfg.chunkOverlap < 0
      invariant SmallPieces(splits, cfg.chunkSize) ==> !warned
      invariant ok ==> Merging(splits, separator, cfg, i, docs, currentDoc, total, windows, lo, warned)
    {
      ok, docs, currentDoc, total, windows, lo, warned :=
        MergeStep(splits, separator, cfg, i, docs, currentDoc, total, windows, lo, warned);
      i := i + 1;
    }
  }

  /**
   * `_merge_splits(splits, separator)`. Besides the chunks it returns the
   * windows it emitted (ghost), and whether the size warning of line 77 fired.
   *
   * The windows tile the pieces in order (`Tiling`): the first starts at the
   * first piece, the last ends at the last one, each ends further on than the
   * one before, each starts inside the one before, at the point `Handover`
   * describes, and each ends at the first piece after the one before that
   * does not fit in it. These facts leave one list of windows
   * (`TilingUnique`). The chunks are the windows' `_join_docs`. The only failure is the
   * `current_doc[0]` of line 94 on an empty window, which needs a negative
   * `chunk_overlap`. When every piece is non-empty and at most `chunk_size`
   * long, every window, hence every chunk, is at most `chunk_size` long and
   * the warning never fires.
   */
  method MergeSplits(splits: seq<string>, separator: string, cfg: Config)
    returns (r: Result<seq<string>>, ghost windows: seq<Span>, ghost warned: bool)
    ensures r.Err? ==> cfg.chunkOverlap < 0
    ensures r.Ok? ==> Tiling(splits, |separator|, cfg, windows)
    ensures r.Ok? && cfg.chunkOverlap < 0 ==> |windows| == 1
    ensures r.Ok? ==> r.value == Emitted(splits, separator, windows)
    ensures r.Ok? ==> forall d :: d in r.value ==> d != "" && Stripped(d)
    ensures r.Ok? && r.value == [] ==> Blank(splits)
    ensures r.Ok? && Blank(splits) && AllSpace(separator) ==> r.value == []
    ensures SmallPieces(splits, cfg.chunkSize) ==> !warned
    ensures SmallPieces(splits, cfg.chunkSize) && r.Ok? ==>
      WindowsFit(splits, |separator|, windows, cfg.chunkSize) && forall d :: d in r.value ==> |d| <= cfg.chunkSize
  {
    var ok, docs, currentDoc, total;
    ghost var lo;
    ok, docs, currentDoc, total, windows, lo, warned := MergeLoop(splits, separator, cfg);
    if !ok {
      return Err(IndexError), windows, warned;
    }
    docs, windows := FinishMerge(splits, separator, cfg, docs, currentDoc, total, windows, lo, warned);
    EmittedBlank(splits, separator, cfg, windows);
    r := Ok(docs);
  }
}
