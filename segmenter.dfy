/**
 * The segmenter `_split_text_with_regex_from_end`: cut a text at every
 * occurrence of a separator pattern, optionally keeping each occurrence at the
 * end of the piece before it, and drop empty pieces.
 *
 * A pattern is modelled by the literal strings it matches. Matching follows
 * `re.split`: the leftmost position where some alternative occurs wins, and at
 * that position the alternatives are tried in the order the pattern lists them.
 */
module Segmenter {
  import opened Text
  import opened Outcomes

  /**
   * A separator of the splitter's list. `source` is the pattern as written;
   * `alts` are the literal strings it matches, in the order its alternation
   * tries them (the pattern `"。|！|？"` has alternatives `["。", "！", "？"]`).
   */
  datatype Separator = Separator(source: string, alts: seq<string>)

  /** `re.escape(source)`: the pattern that matches `source` literally. */
  function Literal(source: string): (r: Separator)
    ensures r.source == source && r.alts == [source]
  {
    Separator(source, [source])
  }

  /** Alternative `a` occurs in `s` at position `i`. An empty alternative never matches. */
  predicate MatchAt(s: string, i: nat, a: string) {
    a != [] && i + |a| <= |s| && s[i..i + |a|] == a
  }

  /** The index of the first alternative, in pattern order, that matches at position `i`. */
  function FirstAlternative(s: string, i: nat, alts: seq<string>): (r: Option<nat>)
    ensures r.Some? ==> r.value < |alts| && MatchAt(s, i, alts[r.value])
    ensures |s| <= i ==> r.None?
  {
    if alts == [] then None
    else if MatchAt(s, i, alts[0]) then Some(0)
    else
      match FirstAlternative(s, i, alts[1..])
      case None => None
      case Some(k) => Some(k + 1)
  }

  /** The alternative chosen is the first that matches; when none is chosen, none matches. */
  lemma {:induction false} FirstAlternativeFirst(s: string, i: nat, alts: seq<string>)
    ensures var r := FirstAlternative(s, i, alts);
      && (r.Some? ==> forall j :: 0 <= j < r.value ==> !MatchAt(s, i, alts[j]))
      && (r.None? ==> forall j :: 0 <= j < |alts| ==> !MatchAt(s, i, alts[j]))
  {
    if alts != [] && !MatchAt(s, i, alts[0]) {
      FirstAlternativeFirst(s, i, alts[1..]);
      forall j | 1 <= j < |alts| ensures alts[j] == alts[1..][j - 1] { }
    }
  }

  /** Some alternative occurs in `s` at position `i`. */
  predicate OccursAt(s: string, i: nat, alts: seq<string>) {
    FirstAlternative(s, i, alts).Some?
  }

  lemma OccursAtIff(s: string, i: nat, alts: seq<string>)
    ensures OccursAt(s, i, alts) <==> exists a :: a in alts && MatchAt(s, i, a)
  {
    FirstAlternativeFirst(s, i, alts);
    if !OccursAt(s, i, alts) {
      forall a | a in alts ensures !MatchAt(s, i, a) {
        var j :| 0 <= j < |alts| && alts[j] == a;
      }
    }
  }

  /** An occurrence inside a slice of `t` is an occurrence in `t`, at the shifted position. */
  lemma OccursInSlice(t: string, lo: nat, hi: nat, i: nat, alts: seq<string>)
    requires lo <= hi <= |t| && i < hi - lo
    ensures OccursAt(t[lo..hi], i, alts) ==> OccursAt(t, lo + i, alts)
  {
    var part := t[lo..hi];
    if OccursAt(part, i, alts) {
      var k := FirstAlternative(part, i, alts).value;
      var a := alts[k];
      SliceOfSlice(t, lo, hi, i, i + |a|);
      assert MatchAt(t, lo + i, a);
      FirstAlternativeFirst(t, lo + i, alts);
    }
  }

  /** A slice of a slice is a slice. */
  lemma SliceOfSlice<T>(t: seq<T>, lo: nat, hi: nat, i: nat, j: nat)
    requires lo <= hi <= |t| && i <= j <= hi - lo
    ensures t[lo..hi][i..j] == t[lo + i..lo + j]
  {
    forall k | 0 <= k < j - i ensures t[lo..hi][i..j][k] == t[lo + i..lo + j][k] {
      assert t[lo..hi][i..j][k] == t[lo + i + k];
    }
  }

  /** No alternative occurs anywhere in `s`. */
  predicate Clear(s: string, alts: seq<string>) {
    forall i :: 0 <= i < |s| ==> !OccursAt(s, i, alts)
  }

  /** No alternative occurs in `q` at a position before `k` (it may run on past `k`). */
  predicate ClearBefore(q: string, k: nat, alts: seq<string>) {
    forall j :: 0 <= j < k ==> !OccursAt(q, j, alts)
  }

  /**
   * `q` ends with an alternative, and nothing occurs in `q` before that
   * alternative starts: the leftmost occurrence in `q` is the one it ends with.
   */
  predicate EndsAtSeparator(q: string, alts: seq<string>) {
    exists k :: 0 <= k < |q| && q[k..] in alts && ClearBefore(q, k, alts)
  }

  /** A match of a pattern: where it starts and how long it is. */
  datatype Match = Match(pos: nat, len: nat)

  /** `re.search(pattern, s[from..])`: the leftmost match at or after `from`. */
  function Search(s: string, alts: seq<string>, from: nat): (r: Option<Match>)
    ensures r.Some? ==> from <= r.value.pos && 0 < r.value.len && r.value.pos + r.value.len <= |s|
    decreases |s| - from
  {
    if from >= |s| then None
    else
      match FirstAlternative(s, from, alts)
      case Some(k) => Some(Match(from, |alts[k]|))
      case None => Search(s, alts, from + 1)
  }

  /** What is found is an occurrence of the first alternative that occurs at its position. */
  lemma {:induction false} SearchMatch(s: string, alts: seq<string>, from: nat)
    ensures var r := Search(s, alts, from);
      r.Some? ==> && s[r.value.pos..r.value.pos + r.value.len] in alts
                  && OccursAt(s, r.value.pos, alts)
                  && r.value.len == |alts[FirstAlternative(s, r.value.pos, alts).value]|
    decreases |s| - from
  {
    if from < |s| {
      match FirstAlternative(s, from, alts)
      case Some(k) =>
        assert s[from..from + |alts[k]|] == alts[k];
      case None =>
        SearchMatch(s, alts, from + 1);
    }
  }

  /** The match found is the leftmost one: nothing occurs before it (or anywhere, when none is found). */
  lemma {:induction false} SearchLeftmost(s: string, alts: seq<string>, from: nat)
    ensures var r := Search(s, alts, from);
      && (r.Some? ==> forall j :: from <= j < r.value.pos ==> !OccursAt(s, j, alts))
      && (r.None? ==> forall j :: from <= j < |s| ==> !OccursAt(s, j, alts))
    decreases |s| - from
  {
    if from < |s| && FirstAlternative(s, from, alts).None? {
      SearchLeftmost(s, alts, from + 1);
      var r := Search(s, alts, from + 1);
      assert Search(s, alts, from) == r;
      var end := if r.Some? then r.value.pos else |s|;
      forall j | from <= j < end ensures !OccursAt(s, j, alts) {
        if j == from {
          assert FirstAlternative(s, from, alts).None?;
        }
      }
    }
  }

  /** `re.search(pattern, s) is not None`. */
  predicate Found(s: string, alts: seq<string>)
  {
    Search(s, alts, 0).Some?
  }

  /** The search succeeds exactly when some alternative occurs somewhere. */
  lemma FoundIff(s: string, alts: seq<string>)
    ensures Found(s, alts) <==> exists j :: 0 <= j < |s| && OccursAt(s, j, alts)
  {
    SearchLeftmost(s, alts, 0);
    SearchMatch(s, alts, 0);
  }

  /**
   * `re.split(pattern, s)` (when `capture` is false) or `re.split(f"({pattern})", s)`
   * (when it is true, so that each match is listed between the text around it).
   */
  function ReSplit(s: string, alts: seq<string>, capture: bool): (r: seq<string>)
    ensures |r| >= 1 && (capture ==> |r| % 2 == 1)
  {
    SplitFrom(s, alts, capture, 0)
  }

  /**
   * What `re.split` returns for `s[from..]` once it has reached position
   * `from`: each search resumes where the previous match ended.
   */
  function SplitFrom(s: string, alts: seq<string>, capture: bool, from: nat): (r: seq<string>)
    requires from <= |s|
    ensures |r| >= 1 && (capture ==> |r| % 2 == 1)
    decreases |s| - from
  {
    match Search(s, alts, from)
    case None => [s[from..]]
    case Some(m) =>
      [s[from..m.pos]] + (if capture then [s[m.pos..m.pos + m.len]] else [])
      + SplitFrom(s, alts, capture, m.pos + m.len)
  }

  /** One step of `SplitFrom` once a match is found. */
  lemma SplitFound(s: string, alts: seq<string>, capture: bool, from: nat, m: Match)
    requires from <= |s| && Search(s, alts, from) == Some(m)
    ensures from <= m.pos <= m.pos + m.len <= |s|
    ensures capture ==>
      SplitFrom(s, alts, capture, from) == [s[from..m.pos], s[m.pos..m.pos + m.len]] + SplitFrom(s, alts, capture, m.pos + m.len)
    ensures !capture ==>
      SplitFrom(s, alts, capture, from) == [s[from..m.pos]] + SplitFrom(s, alts, capture, m.pos + m.len)
  {
    var rest := SplitFrom(s, alts, capture, m.pos + m.len);
    var mid := if capture then [s[m.pos..m.pos + m.len]] else [];
    assert SplitFrom(s, alts, capture, from) == [s[from..m.pos]] + mid + rest;
  }

  /**
   * Lines 18-20: glue each entry at an even position to the entry after it;
   * an odd-length list keeps its last entry on its own.
   */
  function PairUp(xs: seq<string>): (r: seq<string>)
    ensures |r| == (|xs| + 1) / 2
  {
    seq(|xs| / 2, k requires 0 <= k < |xs| / 2 => xs[2 * k] + xs[2 * k + 1])
    + (if |xs| % 2 == 1 then xs[|xs| - 1..] else [])
  }

  /** `[s for s in xs if s != ""]`. */
  function NonEmpty(xs: seq<string>): (r: seq<string>)
    ensures forall i :: 0 <= i < |r| ==> r[i] != ""
    ensures Concat(r) == Concat(xs)
    ensures (forall i :: 0 <= i < |xs| ==> xs[i] != "") ==> r == xs
  {
    if xs == [] then []
    else if xs[0] == "" then NonEmpty(xs[1..])
    else [xs[0]] + NonEmpty(xs[1..])
  }

  /** `list(s)`: one piece per character. */
  function Chars(s: string): (r: seq<string>)
    ensures |r| == |s| && forall i :: 0 <= i < |s| ==> r[i] == [s[i]]
  {
    seq(|s|, i requires 0 <= i < |s| => [s[i]])
  }

  /** `_split_text_with_regex_from_end(text, separator, keep_separator)`. */
  function Segment(text: string, separator: Separator, keepSeparator: bool): (r: seq<string>)
    ensures forall i :: 0 <= i < |r| ==> r[i] != ""
  {
    NonEmpty(
      if separator.source != "" then
        if keepSeparator then PairUp(ReSplit(text, separator.alts, true))
        else ReSplit(text, separator.alts, false)
      else Chars(text))
  }

  // ---------------------------------------------------------------------------
  // What the segmenter guarantees

  /**
   * The shape of the list `re.split` returns with a capture group: odd length,
   * text parts holding no occurrence of the pattern at even positions, and
   * the matches, each one an alternative, at odd positions; and nothing
   * occurs in a text part joined to the match after it before that match
   * starts, so the match is the leftmost occurrence there.
   */
  ghost predicate Alternating(r: seq<string>, alts: seq<string>) {
    && |r| % 2 == 1
    && (forall i :: 0 <= i < |r| && i % 2 == 0 ==> Clear(r[i], alts))
    && (forall i :: 0 <= i < |r| && i % 2 == 1 ==> r[i] in alts && r[i] != "")
    && (forall i :: 0 <= i < |r| - 1 && i % 2 == 0 ==> ClearBefore(r[i] + r[i + 1], |r[i]|, alts))
  }

  lemma AlternatingCons(u: string, m: string, tail: seq<string>, alts: seq<string>)
    requires Clear(u, alts) && m in alts && m != "" && ClearBefore(u + m, |u|, alts)
    requires Alternating(tail, alts)
    ensures Alternating([u, m] + tail, alts)
  {
    var r := [u, m] + tail;
    forall i | 2 <= i < |r| ensures r[i] == tail[i - 2] && (i % 2 == (i - 2) % 2) { }
  }

  /** A captured split concatenates back to the text it splits. */
  lemma {:induction false} CapturedSplitConcat(s: string, alts: seq<string>, from: nat)
    requires from <= |s|
    ensures Concat(SplitFrom(s, alts, true, from)) == s[from..]
    decreases |s| - from
  {
    match Search(s, alts, from)
    case None =>
      assert SplitFrom(s, alts, true, from) == [s[from..]];
      assert Concat([s[from..]]) == s[from..] + Concat([]);
    case Some(m) =>
      var p, q := m.pos, m.pos + m.len;
      var tail := SplitFrom(s, alts, true, q);
      SplitFound(s, alts, true, from, m);
      CapturedSplitConcat(s, alts, q);
      ConcatPiecesAround(s, from, p, q, tail);
  }

  /** A captured split alternates text holding no match and the matches themselves. */
  lemma {:induction false} CapturedSplitAlternates(s: string, alts: seq<string>, from: nat)
    requires from <= |s|
    ensures Alternating(SplitFrom(s, alts, true, from), alts)
    decreases |s| - from
  {
    match Search(s, alts, from)
    case None =>
      assert SplitFrom(s, alts, true, from) == [s[from..]];
      SearchedTextClear(s, alts, from);
      assert s[from..|s|] == s[from..];
    case Some(m) =>
      CapturedSplitAlternates(s, alts, m.pos + m.len);
      AlternatesAfterMatch(s, alts, from, m);
  }

  lemma AlternatesAfterMatch(s: string, alts: seq<string>, from: nat, m: Match)
    requires from <= |s| && Search(s, alts, from) == Some(m)
    requires Alternating(SplitFrom(s, alts, true, m.pos + m.len), alts)
    ensures Alternating(SplitFrom(s, alts, true, from), alts)
  {
    var u, w := CapturedStep(s, alts, from, m);
    AlternatingCons(u, w, SplitFrom(s, alts, true, m.pos + m.len), alts);
  }

  /** One step of a captured split: the text up to the match, which holds none, then the match. */
  lemma CapturedStep(s: string, alts: seq<string>, from: nat, m: Match) returns (u: string, w: string)
    requires from <= |s| && Search(s, alts, from) == Some(m)
    ensures SplitFrom(s, alts, true, from) == [u, w] + SplitFrom(s, alts, true, m.pos + m.len)
    ensures Clear(u, alts) && w in alts && w != ""
    ensures ClearBefore(u + w, |u|, alts)
  {
    var q := m.pos + m.len;
    u, w := s[from..m.pos], s[m.pos..q];
    SplitFound(s, alts, true, from, m);
    SearchMatch(s, alts, from);
    SearchedTextClear(s, alts, from);
    SearchLeftmost(s, alts, from);
    assert u + w == s[from..q];
    forall j | 0 <= j < |u| ensures !OccursAt(u + w, j, alts) {
      OccursInSlice(s, from, q, j, alts);
    }
  }

  /** Both facts about a captured split of the whole text. */
  lemma CapturedSplit(s: string, alts: seq<string>)
    ensures Concat(ReSplit(s, alts, true)) == s
    ensures Alternating(ReSplit(s, alts, true), alts)
  {
    CapturedSplitConcat(s, alts, 0);
    assert s[0..] == s;
    CapturedSplitAlternates(s, alts, 0);
  }

  lemma ConcatPiecesAround(s: string, from: nat, p: nat, q: nat, tail: seq<string>)
    requires from <= p <= q <= |s| && Concat(tail) == s[q..]
    ensures Concat([s[from..p], s[p..q]] + tail) == s[from..]
  {
    var u, w := s[from..p], s[p..q];
    ConcatAppend([u, w], tail);
    assert [u, w][1..] == [w];
    assert Concat([w]) == w + Concat([]);
    assert s[from..] == u + w + s[q..];
  }

  /** A stretch of `s` where no match starts holds no occurrence. */
  lemma ClearBetween(s: string, alts: seq<string>, lo: nat, hi: nat)
    requires lo <= hi <= |s|
    requires forall j :: lo <= j < hi ==> !OccursAt(s, j, alts)
    ensures Clear(s[lo..hi], alts)
  {
    forall i | 0 <= i < hi - lo ensures !OccursAt(s[lo..hi], i, alts) {
      OccursInSlice(s, lo, hi, i, alts);
    }
  }

  /** The text searched before the match found (all of it, when none is found) holds no occurrence. */
  lemma SearchedTextClear(s: string, alts: seq<string>, from: nat)
    requires from <= |s|
    ensures var r := Search(s, alts, from);
      Clear(s[from..if r.Some? then r.value.pos else |s|], alts)
  {
    SearchLeftmost(s, alts, from);
    var r := Search(s, alts, from);
    ClearBetween(s, alts, from, if r.Some? then r.value.pos else |s|);
  }

  /** Without a capture group `re.split` returns only text parts, none holding a match. */
  lemma {:induction false} DroppedSplit(s: string, alts: seq<string>, from: nat)
    requires from <= |s|
    ensures forall x :: x in SplitFrom(s, alts, false, from) ==> Clear(x, alts)
    decreases |s| - from
  {
    SearchedTextClear(s, alts, from);
    match Search(s, alts, from)
    case None =>
      assert SplitFrom(s, alts, false, from) == [s[from..]];
      assert s[from..|s|] == s[from..];
    case Some(m) =>
      var q := m.pos + m.len;
      SplitFound(s, alts, false, from, m);
      DroppedSplit(s, alts, q);
  }

  /** Pairing the entries of a list of odd length: the pairs, then the last entry. */
  lemma PairUpOdd(xs: seq<string>)
    requires |xs| % 2 == 1
    ensures |PairUp(xs)| == |xs| / 2 + 1
    ensures forall k :: 0 <= k < |xs| / 2 ==> PairUp(xs)[k] == xs[2 * k] + xs[2 * k + 1]
    ensures PairUp(xs)[|xs| / 2] == xs[|xs| - 1]
  {
  }

  lemma PairUpCons(a: string, b: string, rest: seq<string>)
    ensures PairUp([a, b] + rest) == [a + b] + PairUp(rest)
  {
    var xs := [a, b] + rest;
    assert |xs| / 2 == |rest| / 2 + 1;
    assert |xs| % 2 == |rest| % 2;
    forall k | 1 <= k < |xs| / 2 ensures xs[2 * k] + xs[2 * k + 1] == rest[2 * (k - 1)] + rest[2 * (k - 1) + 1] {
      assert xs[2 * k] == rest[2 * k - 2];
    }
  }

  /** Pairing neighbours changes nothing about the concatenation. */
  lemma {:induction false} PairUpConcat(xs: seq<string>)
    ensures Concat(PairUp(xs)) == Concat(xs)
    decreases |xs|
  {
    if |xs| == 0 {
    } else if |xs| == 1 {
      assert PairUp(xs) == xs;
    } else {
      var rest := xs[2..];
      assert xs == [xs[0], xs[1]] + rest;
      PairUpCons(xs[0], xs[1], rest);
      PairUpConcat(rest);
      calc {
        Concat(PairUp(xs));
        (xs[0] + xs[1]) + Concat(PairUp(rest));
        xs[0] + (xs[1] + Concat(rest));
        { assert xs[1..][1..] == rest; }
        Concat(xs);
      }
    }
  }

  lemma {:induction false} NonEmptyAppend(xs: seq<string>, ys: seq<string>)
    ensures NonEmpty(xs + ys) == NonEmpty(xs) + NonEmpty(ys)
  {
    if xs == [] {
      assert xs + ys == ys;
    } else {
      assert (xs + ys)[1..] == xs[1..] + ys;
      NonEmptyAppend(xs[1..], ys);
    }
  }

  /**
   * With a non-empty separator and `keep_separator`, the pieces concatenate
   * back to the text, and every piece but the last ends with an occurrence of
   * the separator that is its first occurrence; the last piece either does too
   * or holds no occurrence at all.
   */
  lemma SegmentKeep(text: string, separator: Separator)
    requires separator.source != ""
    ensures var r := Segment(text, separator, true);
      && Concat(r) == text
      && (forall i :: 0 <= i < |r| - 1 ==> EndsAtSeparator(r[i], separator.alts))
      && (r != [] ==> EndsAtSeparator(r[|r| - 1], separator.alts) || Clear(r[|r| - 1], separator.alts))
  {
    var alts := separator.alts;
    var xs := ReSplit(text, alts, true);
    CapturedSplit(text, alts);
    PairUpConcat(xs);
    assert Segment(text, separator, true) == NonEmpty(PairUp(xs));
    var pairs, last := KeptPairs(xs, alts);
    KeptEnds(pairs, last, alts);
  }

  /** Dropping the empty entries of what `KeptPairs` describes. */
  lemma KeptEnds(pairs: seq<string>, last: string, alts: seq<string>)
    requires Clear(last, alts)
    requires forall k :: 0 <= k < |pairs| ==> pairs[k] != "" && EndsAtSeparator(pairs[k], alts)
    ensures var r := NonEmpty(pairs + [last]);
      && (forall i :: 0 <= i < |r| - 1 ==> EndsAtSeparator(r[i], alts))
      && (r != [] ==> EndsAtSeparator(r[|r| - 1], alts) || Clear(r[|r| - 1], alts))
  {
    NonEmptyAppend(pairs, [last]);
    assert NonEmpty([last]) == if last == "" then [] else [last];
  }

  /** Pairing an alternating list: pieces that end at a separator, then the remainder. */
  lemma KeptPairs(xs: seq<string>, alts: seq<string>) returns (pairs: seq<string>, last: string)
    requires Alternating(xs, alts)
    ensures PairUp(xs) == pairs + [last]
    ensures Clear(last, alts)
    ensures forall k :: 0 <= k < |pairs| ==> pairs[k] != "" && EndsAtSeparator(pairs[k], alts)
  {
    PairUpOdd(xs);
    var p := PairUp(xs);
    var n := |xs| / 2;
    pairs, last := p[..n], p[n];
    assert p == pairs + [last];
    assert last == xs[2 * n];
    forall k | 0 <= k < n ensures pairs[k] != "" && EndsAtSeparator(pairs[k], alts) {
      assert pairs[k] == xs[2 * k] + xs[2 * k + 1];
      assert ClearBefore(xs[2 * k] + xs[2 * k + 1], |xs[2 * k]|, alts);
      PairEndsAtSeparator(xs[2 * k], xs[2 * k + 1], alts);
    }
  }

  lemma PairEndsAtSeparator(u: string, m: string, alts: seq<string>)
    requires m in alts && m != "" && ClearBefore(u + m, |u|, alts)
    ensures u + m != "" && EndsAtSeparator(u + m, alts)
  {
    assert (u + m)[|u|..] == m;
  }

  /** Without `keep_separator`, no piece holds an occurrence of the separator. */
  lemma SegmentDrop(text: string, separator: Separator)
    requires separator.source != ""
    ensures forall i :: 0 <= i < |Segment(text, separator, false)| ==> Clear(Segment(text, separator, false)[i], separator.alts)
  {
    var xs := ReSplit(text, separator.alts, false);
    DroppedSplit(text, separator.alts, 0);
    NonEmptyMembers(xs);
    var r := Segment(text, separator, false);
    assert r == NonEmpty(xs);
    forall i | 0 <= i < |r| ensures Clear(r[i], separator.alts) {
      assert r[i] in NonEmpty(xs);
    }
  }

  lemma {:induction false} NonEmptyMembers(xs: seq<string>)
    ensures forall x :: x in NonEmpty(xs) ==> x in xs
  {
    if xs != [] {
      NonEmptyMembers(xs[1..]);
    }
  }

  lemma {:induction false} ConcatChars(s: string)
    ensures Concat(Chars(s)) == s
  {
    if s != [] {
      assert Chars(s)[1..] == Chars(s[1..]);
      ConcatChars(s[1..]);
      assert s == [s[0]] + s[1..];
    }
  }

  /** With the empty separator the pieces are the characters of the text, in order. */
  lemma SegmentEmpty(text: string, separator: Separator, keepSeparator: bool)
    requires separator.source == ""
    ensures Segment(text, separator, keepSeparator) == Chars(text)
    ensures Concat(Chars(text)) == text
  {
    ConcatChars(text);
  }

  /**
   * The pieces concatenate back to the text whenever the separator is kept or
   * is the empty one.
   */
  lemma SegmentConcat(text: string, separator: Separator, keepSeparator: bool)
    requires keepSeparator || separator.source == ""
    ensures Concat(Segment(text, separator, keepSeparator)) == text
  {
    if separator.source != "" {
      SegmentKeep(text, separator);
    } else {
      ConcatChars(text);
    }
  }

  // ---------------------------------------------------------------------------
  // Pieces as slices of the text

  /** `a` is the text between two positions of `t`. */
  ghost predicate InText(a: string, t: string) {
    exists p, q :: 0 <= p <= q <= |t| && a == t[p..q]
  }

  /** A slice of a slice of `t` is a slice of `t`. */
  lemma InTextTrans(a: string, b: string, t: string)
    requires InText(a, b) && InText(b, t)
    ensures InText(a, t)
  {
    var p, q :| 0 <= p <= q <= |t| && b == t[p..q];
    var i, j :| 0 <= i <= j <= |b| && a == b[i..j];
    SliceOfSlice(t, p, q, i, j);
    assert a == t[p + i..p + j];
  }

  /** A slice of a text that holds no occurrence holds none either. */
  lemma ClearInText(a: string, t: string, alts: seq<string>)
    requires InText(a, t) && Clear(t, alts)
    ensures Clear(a, alts)
  {
    var p, q :| 0 <= p <= q <= |t| && a == t[p..q];
    forall i | 0 <= i < |a| ensures !OccursAt(a, i, alts) {
      OccursInSlice(t, p, q, i, alts);
    }
  }

  /** A text in which the search finds nothing holds no occurrence. */
  lemma NotFoundClear(t: string, alts: seq<string>)
    requires !Found(t, alts)
    ensures Clear(t, alts)
  {
    FoundIff(t, alts);
  }

  /** In pieces that concatenate back to the text, piece `idx` is a slice of the text. */
  lemma PieceAt(splits: seq<string>, text: string, idx: nat, next: nat) returns (p: nat, q: nat)
    requires idx < |splits| && next == idx + 1 && Concat(splits) == text
    ensures p <= q <= |text| && splits[idx] == text[p..q]
  {
    ConcatSlice(splits, idx, next);
    p, q := |Concat(splits[..idx])|, |Concat(splits[..next])|;
    assert splits[idx..next] == [splits[idx]];
    assert Concat([splits[idx]]) == splits[idx] + Concat([]);
  }

  /** Without a capture group every text part is a slice of the text. */
  lemma {:induction false} DroppedSlices(s: string, alts: seq<string>, from: nat)
    requires from <= |s|
    ensures forall x :: x in SplitFrom(s, alts, false, from) ==> InText(x, s)
    decreases |s| - from
  {
    match Search(s, alts, from)
    case None =>
      assert SplitFrom(s, alts, false, from) == [s[from..]];
      assert s[from..] == s[from..|s|];
    case Some(m) =>
      SplitFound(s, alts, false, from, m);
      DroppedSlices(s, alts, m.pos + m.len);
      assert InText(s[from..m.pos], s);
  }

  /** Every piece of a segmented text is a slice of it, whatever the separator and the mode. */
  lemma SegmentInText(text: string, separator: Separator, keepSeparator: bool)
    ensures forall x :: x in Segment(text, separator, keepSeparator) ==> InText(x, text)
  {
    var r := Segment(text, separator, keepSeparator);
    if keepSeparator || separator.source == "" {
      SegmentConcat(text, separator, keepSeparator);
      forall x | x in r ensures InText(x, text) {
        var i :| 0 <= i < |r| && r[i] == x;
        var p, q := PieceAt(r, text, i, i + 1);
      }
    } else {
      var xs := ReSplit(text, separator.alts, false);
      DroppedSlices(text, separator.alts, 0);
      NonEmptyMembers(xs);
      assert r == NonEmpty(xs);
    }
  }
}
