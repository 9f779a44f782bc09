/**
 * String helpers the splitter relies on: Python's `str.strip()`, `str.join`,
 * plain concatenation of a list of strings, and the newline-run collapse
 * `re.sub(r"\n{2,}", "\n", s)`.
 */
module Text {

  /** The characters Python's `str.isspace()` accepts (and `\s` matches in a `str` pattern). */
  predicate IsSpace(c: char) {
    c == ' ' || ('\U{9}' <= c <= '\U{D}') || ('\U{1C}' <= c <= '\U{1F}')
    || c == '\U{85}' || c == '\U{A0}' || c == '\U{1680}'
    || ('\U{2000}' <= c <= '\U{200A}') || c == '\U{2028}' || c == '\U{2029}'
    || c == '\U{202F}' || c == '\U{205F}' || c == '\U{3000}'
  }

  /** The same set, listed, for spelling out the `\s` class as literal alternatives. */
  const Spaces: string :=
    " \U{9}\U{A}\U{B}\U{C}\U{D}\U{1C}\U{1D}\U{1E}\U{1F}\U{85}\U{A0}\U{1680}"
    + "\U{2000}\U{2001}\U{2002}\U{2003}\U{2004}\U{2005}\U{2006}\U{2007}\U{2008}\U{2009}\U{200A}"
    + "\U{2028}\U{2029}\U{202F}\U{205F}\U{3000}"

  /** `Spaces` lists exactly the characters `IsSpace` accepts. */
  lemma SpacesListed()
    ensures forall c :: c in Spaces <==> IsSpace(c)
  {
  }

  predicate AllSpace(s: string) {
    forall i :: 0 <= i < |s| ==> IsSpace(s[i])
  }

  /** No whitespace at either end (the empty string qualifies). */
  predicate Stripped(s: string) {
    s == [] || (!IsSpace(s[0]) && !IsSpace(s[|s| - 1]))
  }

  /** The number of whitespace characters `s` starts with. */
  function LeadingSpaces(s: string): (n: nat)
    ensures n <= |s|
  {
    if s != [] && IsSpace(s[0]) then 1 + LeadingSpaces(s[1..]) else 0
  }

  /** `LeadingSpaces` counts exactly the whitespace run at the front. */
  lemma {:induction false} LeadingRun(s: string)
    ensures forall k :: 0 <= k < LeadingSpaces(s) ==> IsSpace(s[k])
    ensures LeadingSpaces(s) < |s| ==> !IsSpace(s[LeadingSpaces(s)])
  {
    if s != [] && IsSpace(s[0]) {
      LeadingRun(s[1..]);
    }
  }

  /** The number of whitespace characters `s` ends with. */
  function TrailingSpaces(s: string): (n: nat)
    ensures n <= |s|
  {
    if s != [] && IsSpace(s[|s| - 1]) then 1 + TrailingSpaces(s[..|s| - 1]) else 0
  }

  /** `TrailingSpaces` counts exactly the whitespace run at the back. */
  lemma {:induction false} TrailingRun(s: string)
    ensures forall k :: |s| - TrailingSpaces(s) <= k < |s| ==> IsSpace(s[k])
    ensures TrailingSpaces(s) < |s| ==> !IsSpace(s[|s| - 1 - TrailingSpaces(s)])
  {
    if s != [] && IsSpace(s[|s| - 1]) {
      TrailingRun(s[..|s| - 1]);
    }
  }

  /**
   * `s.strip()`: what is left of `s` once the whitespace at both ends is
   * removed. It is the slice of `s` that starts after the leading whitespace,
   * and everything outside it is whitespace.
   */
  function Strip(s: string): (r: string)
    ensures Stripped(r)
    ensures r == [] <==> AllSpace(s)
    ensures LeadingSpaces(s) + |r| <= |s| && r == s[LeadingSpaces(s)..LeadingSpaces(s) + |r|]
    ensures AllSpace(s[..LeadingSpaces(s)]) && AllSpace(s[LeadingSpaces(s) + |r|..])
  {
    var lead := LeadingSpaces(s);
    LeadingRun(s);
    if lead == |s| then
      assert s[..lead] == s;
      []
    else
      var trail := TrailingSpaces(s);
      TrailingRun(s);
      assert trail < |s| - lead by {
        assert !IsSpace(s[lead]);
      }
      var r := s[lead..|s| - trail];
      assert r[0] == s[lead] && r[|r| - 1] == s[|s| - 1 - trail];
      r
  }

  /** Stripping is idempotent: a string without whitespace at its ends is left alone. */
  lemma StripStripped(s: string)
    requires Stripped(s)
    ensures Strip(s) == s
  {
    if s != [] {
      assert LeadingSpaces(s) == 0;
      assert TrailingSpaces(s) == 0;
    }
  }

  /** `separator.join(docs)`. */
  function Join(docs: seq<string>, separator: string): (r: string)
    ensures docs != [] ==> |docs[0]| <= |r| && r[..|docs[0]|] == docs[0]
  {
    if |docs| == 0 then ""
    else if |docs| == 1 then docs[0]
    else docs[0] + separator + Join(docs[1..], separator)
  }

  function SumLengths(xs: seq<string>): nat {
    if xs == [] then 0 else |xs[0]| + SumLengths(xs[1..])
  }

  /** `"".join(xs)`. */
  function Concat(xs: seq<string>): (r: string)
    ensures |r| == SumLengths(xs)
  {
    if xs == [] then "" else xs[0] + Concat(xs[1..])
  }

  /** The length of a join: every piece, plus one separator per gap between pieces. */
  lemma {:induction false} JoinLength(docs: seq<string>, separator: string)
    requires docs != []
    ensures |Join(docs, separator)| == SumLengths(docs) + |separator| * (|docs| - 1)
  {
    if |docs| > 1 {
      JoinLength(docs[1..], separator);
    }
  }

  /** Appending a piece adds its length and, unless the window was empty, one separator. */
  lemma {:induction false} JoinSnoc(docs: seq<string>, d: string, separator: string)
    ensures Join(docs + [d], separator)
      == if docs == [] then d else Join(docs, separator) + separator + d
  {
    if |docs| == 1 {
      assert docs + [d] == [docs[0], d];
    } else if |docs| > 1 {
      assert (docs + [d])[1..] == docs[1..] + [d];
      JoinSnoc(docs[1..], d, separator);
    }
  }

  /** Joining with the empty separator is plain concatenation. */
  lemma {:induction false} JoinEmpty(docs: seq<string>)
    ensures Join(docs, "") == Concat(docs)
  {
    if |docs| == 1 {
      assert docs[1..] == [];
    } else if |docs| > 1 {
      JoinEmpty(docs[1..]);
    }
  }

  lemma {:induction false} ConcatAppend(xs: seq<string>, ys: seq<string>)
    ensures Concat(xs + ys) == Concat(xs) + Concat(ys)
  {
    if xs == [] {
      assert xs + ys == ys;
    } else {
      assert (xs + ys)[1..] == xs[1..] + ys;
      ConcatAppend(xs[1..], ys);
    }
  }

  /** The concatenation of a run of consecutive pieces is a slice of the whole concatenation. */
  lemma ConcatSlice(xs: seq<string>, lo: nat, hi: nat)
    requires lo <= hi <= |xs|
    ensures |Concat(xs[..lo])| <= |Concat(xs[..hi])| <= |Concat(xs)|
    ensures Concat(xs[lo..hi]) == Concat(xs)[|Concat(xs[..lo])|..|Concat(xs[..hi])|]
  {
    assert xs == xs[..lo] + xs[lo..hi] + xs[hi..];
    assert xs[..hi] == xs[..lo] + xs[lo..hi];
    ConcatAppend(xs[..lo] + xs[lo..hi], xs[hi..]);
    ConcatAppend(xs[..lo], xs[lo..hi]);
  }

  /** Every string of `xs` is whitespace only (the empty list qualifies). */
  predicate Blank(xs: seq<string>) {
    xs == [] || (AllSpace(xs[0]) && Blank(xs[1..]))
  }

  /** `Blank` says of every string of the list that it is whitespace only. */
  lemma {:induction false} BlankIndexed(xs: seq<string>)
    ensures Blank(xs) <==> forall i :: 0 <= i < |xs| ==> AllSpace(xs[i])
  {
    if xs != [] {
      BlankIndexed(xs[1..]);
      assert forall i :: 1 <= i < |xs| ==> xs[i] == xs[1..][i - 1];
    }
  }

  /** Each string of a blank list is whitespace only. */
  lemma {:induction false} BlankAt(xs: seq<string>, i: nat)
    requires Blank(xs) && i < |xs|
    ensures AllSpace(xs[i])
  {
    BlankIndexed(xs);
  }

  /** A list whose every string is whitespace only is blank. */
  lemma {:induction false} BlankEvery(xs: seq<string>)
    requires forall i :: 0 <= i < |xs| ==> AllSpace(xs[i])
    ensures Blank(xs)
  {
    BlankIndexed(xs);
  }

  /** Two strings together are whitespace only exactly when each is. */
  lemma AllSpaceAppend(a: string, b: string)
    ensures AllSpace(a + b) <==> AllSpace(a) && AllSpace(b)
  {
    if AllSpace(a + b) {
      assert forall i :: 0 <= i < |a| ==> a[i] == (a + b)[i];
      assert forall i :: 0 <= i < |b| ==> b[i] == (a + b)[|a| + i];
    }
  }

  /** Two lists together are blank exactly when each is. */
  lemma {:induction false} BlankAppend(xs: seq<string>, ys: seq<string>)
    ensures Blank(xs + ys) <==> Blank(xs) && Blank(ys)
  {
    if xs == [] {
      assert xs + ys == ys;
    } else {
      assert (xs + ys)[1..] == xs[1..] + ys;
      BlankAppend(xs[1..], ys);
    }
  }

  /** A slice of a whitespace-only string is whitespace only. */
  lemma AllSpaceSlice(s: string, p: nat, q: nat)
    requires p <= q <= |s| && AllSpace(s)
    ensures AllSpace(s[p..q])
  {
    assert forall x :: 0 <= x < q - p ==> s[p..q][x] == s[p + x];
  }

  /**
   * A join is whitespace only when every piece is; conversely the pieces
   * and the separator being whitespace only make the join so.
   */
  lemma {:induction false} JoinBlank(docs: seq<string>, separator: string)
    ensures AllSpace(Join(docs, separator)) ==> Blank(docs)
    ensures Blank(docs) && AllSpace(separator) ==> AllSpace(Join(docs, separator))
  {
    if |docs| > 1 {
      var rest := Join(docs[1..], separator);
      JoinBlank(docs[1..], separator);
      AllSpaceAppend(docs[0], separator);
      AllSpaceAppend(docs[0] + separator, rest);
      assert docs[1..][1..] == docs[2..];
    }
  }

  /** The concatenation is whitespace only exactly when every piece is. */
  lemma ConcatBlank(xs: seq<string>)
    ensures AllSpace(Concat(xs)) <==> Blank(xs)
  {
    JoinEmpty(xs);
    JoinBlank(xs, "");
  }

  /** No two consecutive newlines. */
  predicate NoDoubleNewline(s: string) {
    forall i :: 0 <= i < |s| - 1 ==> !(s[i] == '\n' && s[i + 1] == '\n')
  }

  /** `s` with every character other than a newline, in order. */
  function WithoutNewlines(s: string): string {
    if s == [] then "" else (if s[0] == '\n' then "" else [s[0]]) + WithoutNewlines(s[1..])
  }

  /**
   * `re.sub(r"\n{2,}", "\n", s)`: every run of two or more newlines becomes one.
   * The ends of the string are kept.
   */
  function CollapseNewlines(s: string): (r: string)
    ensures |r| <= |s|
    ensures s != [] ==> r != [] && r[0] == s[0] && r[|r| - 1] == s[|s| - 1]
  {
    if |s| <= 1 then s
    else
      var rest := CollapseNewlines(s[1..]);
      if s[0] == '\n' && s[1] == '\n' then rest else [s[0]] + rest
  }

  /** No run of newlines survives the collapse. */
  lemma {:induction false} CollapseNoDouble(s: string)
    ensures NoDoubleNewline(CollapseNewlines(s))
  {
    if |s| > 1 {
      var rest := CollapseNewlines(s[1..]);
      CollapseNoDouble(s[1..]);
      if !(s[0] == '\n' && s[1] == '\n') {
        var r := [s[0]] + rest;
        forall i | 0 <= i < |r| - 1 ensures !(r[i] == '\n' && r[i + 1] == '\n') {
          if i > 0 {
            assert r[i] == rest[i - 1] && r[i + 1] == rest[i];
          }
        }
      }
    }
  }

  /** Only newlines are removed: everything else is kept, in order. */
  lemma {:induction false} CollapseKeepsText(s: string)
    ensures WithoutNewlines(CollapseNewlines(s)) == WithoutNewlines(s)
  {
    if |s| > 1 {
      var rest := CollapseNewlines(s[1..]);
      CollapseKeepsText(s[1..]);
      if !(s[0] == '\n' && s[1] == '\n') {
        assert ([s[0]] + rest)[1..] == rest;
      }
    }
  }

  /** A string without a run of newlines is left unchanged. */
  lemma {:induction false} CollapseFixed(s: string)
    requires NoDoubleNewline(s)
    ensures CollapseNewlines(s) == s
  {
    if |s| > 1 {
      assert !(s[0] == '\n' && s[1] == '\n');
      assert NoDoubleNewline(s[1..]) by {
        forall i | 0 <= i < |s[1..]| - 1 ensures !(s[1..][i] == '\n' && s[1..][i + 1] == '\n') {
          assert s[1..][i] == s[i + 1] && s[1..][i + 1] == s[i + 2];
        }
      }
      CollapseFixed(s[1..]);
      assert s == [s[0]] + s[1..];
    }
  }

  /** A run of `n` newlines. */
  function Newlines(n: nat): string {
    seq(n, i => '\n')
  }

  lemma ConsAppend(x: char, c: string, b: string)
    ensures [x] + (c + b) == ([x] + c) + b
  {
  }

  /** One step of the substitution: a leading newline followed by another one is dropped. */
  lemma CollapseCons(x: char, t: string)
    ensures CollapseNewlines([x] + t)
      == if t != [] && x == '\n' && t[0] == '\n' then CollapseNewlines(t) else [x] + CollapseNewlines(t)
  {
    var s := [x] + t;
    assert s[0] == x && s[1..] == t;
    if t != [] {
      assert s[1] == t[0];
    }
  }

  /** Text that does not end with a newline is collapsed on its own, whatever follows it. */
  lemma {:induction false} CollapseAppend(u: string, w: string)
    requires u == [] || u[|u| - 1] != '\n'
    ensures CollapseNewlines(u + w) == CollapseNewlines(u) + CollapseNewlines(w)
  {
    if u == [] {
      assert u + w == w;
    } else {
      var x, t := u[0], u[1..];
      assert u == [x] + t && u + w == [x] + (t + w);
      CollapseCons(x, t + w);
      CollapseCons(x, t);
      var b := CollapseNewlines(w);
      if t == [] {
        assert t + w == w && CollapseNewlines(t) == [];
        assert CollapseNewlines(u + w) == [x] + b;
      } else {
        assert (t + w)[0] == t[0];
        CollapseAppend(t, w);
        var c := CollapseNewlines(t);
        ConsAppend(x, c, b);
      }
    }
  }

  /** A run of newlines at the front, up to text that does not start with one, becomes one newline. */
  lemma {:induction false} CollapseRunAhead(n: nat, v: string)
    requires n >= 1 && (v == [] || v[0] != '\n')
    ensures CollapseNewlines(Newlines(n) + v) == "\n" + CollapseNewlines(v)
  {
    var s := Newlines(n) + v;
    assert s[0] == '\n';
    if n == 1 {
      if v != [] {
        assert s[1..] == v;
      }
    } else {
      assert s[1] == '\n' && s[1..] == Newlines(n - 1) + v;
      CollapseRunAhead(n - 1, v);
    }
  }

  /**
   * The substitution of `re.sub(r"\n{2,}", "\n", s)` on a maximal run of
   * newlines: the run, of any length, becomes a single newline, and the text on
   * either side is collapsed on its own.
   */
  lemma CollapseRun(u: string, n: nat, v: string)
    requires n >= 1
    requires u == [] || u[|u| - 1] != '\n'
    requires v == [] || v[0] != '\n'
    ensures CollapseNewlines(u + (Newlines(n) + v)) == CollapseNewlines(u) + ("\n" + CollapseNewlines(v))
  {
    CollapseAppend(u, Newlines(n) + v);
    CollapseRunAhead(n, v);
  }

  /** What every chunk the splitter returns looks like. */
  predicate CleanChunk(c: string) {
    c != [] && Stripped(c) && NoDoubleNewline(c)
  }

  /** The post-processing applied to each chunk: `re.sub(r"\n{2,}", "\n", chunk.strip())`. */
  function Tidy(c: string): (r: string)
    ensures |r| <= |c|
    ensures r == [] <==> AllSpace(c)
    ensures r != [] ==> CleanChunk(r)
  {
    CollapseNoDouble(Strip(c));
    CollapseNewlines(Strip(c))
  }

  /** Tidying is idempotent: a clean chunk is a fixed point. */
  lemma TidyClean(c: string)
    requires CleanChunk(c)
    ensures Tidy(c) == c
  {
    StripStripped(c);
    CollapseFixed(c);
  }

  /** Stripping first changes nothing: `Tidy(Strip(c)) == Tidy(c)`. */
  lemma TidyStrip(c: string)
    ensures Tidy(Strip(c)) == Tidy(c)
  {
    StripStripped(Strip(c));
  }
}
