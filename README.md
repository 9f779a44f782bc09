# A verified model of the Chinese recursive text splitter

This project models `ChineseRecursiveTextSplitter` in Dafny. The splitter cuts a long text,
usually Chinese, into chunks of bounded size. It breaks at the highest-priority separator
that occurs in the text: paragraph breaks first, then line breaks, then sentence ends, then
clause marks. The model has three parts.

- **The segmenter** (`Segmenter`, `_split_text_with_regex_from_end`) cuts a text at every
  occurrence of a separator pattern. With `keep_separator`, each occurrence stays at the end
  of the piece before it. Empty pieces are dropped. An empty pattern cuts the text into its
  characters.
- **The merger** (`Merger`, `_merge_splits` and `_join_docs`) packs consecutive pieces into
  a window while the joined length `total` fits in `chunk_size`.
  - When the next piece does not fit, the window is emitted as a chunk.
  - The window is then shrunk from the front until what is carried over is within
    `chunk_overlap` and leaves room for the next piece.
  - This is imperative code. `MergeSplits` runs a loop whose invariant `Merging` ties
    `current_doc` and `total` to a window of the pieces, and the windows emitted so far to
    the reference function `WindowsAfter`. The windows it emits (ghost) tile the pieces
    (`Tiling`): each hands over as `Handover` describes and ends at the first piece that
    overflows it, and no other list of windows does so (`TilingUnique`).
- **The recursive splitter** (`Splitter`, `_split_text`) does four things.
  - It chooses the first separator that occurs in the text.
  - It segments the text with it.
  - It merges runs of short pieces, and splits each long piece again with the separators
    after the chosen one.
  - It tidies every chunk: strip it, collapse runs of newlines, drop the empty ones.

`SplitterConfig` holds the constructor and its defaults. `Text` holds the string helpers:
`str.strip`, `str.join`, and the newline collapsing of `re.sub(r"\n{2,}", "\n", ...)`.

Lengths are counted in characters, which is the default `_length_function`. A separator is
modelled by its pattern text (`source`) and by the literal strings the pattern matches
(`alts`). Matching works as `re` does on these patterns: at the leftmost position where
some alternative occurs, the first alternative in pattern order wins. The `\s` of the
default patterns stands for each whitespace character of a fixed set (`Text.Spaces`).

Where the code raises an exception, the model returns `Err(IndexError)`:
- `separators[-1]` on an empty separator list (line 110);
- `current_doc[0]` on an empty window, which only a negative `chunk_overlap` allows
  (line 94).

Some behaviours of the code that a reader might not expect, and that the model keeps:

- `chunk_overlap < chunk_size` is never checked. The constructor stores both values as given
  (lines 50-51). So `NewConfig` accepts any pair, and every theorem holds for any
  `chunk_overlap >= 0`.
- Take `"A.\n\nB."` with the separator list `["\n\n"]`, `keep_separator` and `chunk_size` 10.
  The code makes one chunk, `"A.\nB."`, not two. The pieces `"A.\n\n"` and `"B."` fit
  together in 10 characters. They are merged with `""` and then collapsed.
- Whitespace is always stripped, because line 52 fixes `_strip_whitespace` to true.
- Without `keep_separator`, merged pieces are joined with the separator's pattern text
  (line 128), not with the text it matched.

## Model

| member | source | states |
|---|---|---|
| SplitterConfig.NewConfig | text_splitter/chinese_recursive_text_splitter.py:30-52 | an empty separator list becomes the default list; every other argument is stored unchanged and nothing is validated |
| SplitterConfig.DefaultConfig | text_splitter/chinese_recursive_text_splitter.py:32-36 | the defaults: the six default separators, separators kept, regex mode, chunk size 100, overlap 40 |
| SplitterConfig.DefaultSeparators | text_splitter/chinese_recursive_text_splitter.py:41-48 | six separators, highest priority first, none of them the empty pattern |
| SplitterConfig.FollowedBySpace | text_splitter/chinese_recursive_text_splitter.py:45-47 | the alternatives of `c\s` are exactly `c` followed by each whitespace character |
| SplitterConfig.Pattern | text_splitter/chinese_recursive_text_splitter.py:113 | in regex mode the separator is used as it is; otherwise it matches its own text literally (`re.escape`) |
| Segmenter.Literal | text_splitter/chinese_recursive_text_splitter.py:122 | the escaped pattern has the source as its only alternative |
| Segmenter.FirstAlternative | text_splitter/chinese_recursive_text_splitter.py:16 | an alternative that is chosen matches at that position; nothing matches past the end |
| Segmenter.FirstAlternativeFirst | text_splitter/chinese_recursive_text_splitter.py:16 | no earlier alternative matches where one is chosen; no alternative matches where none is chosen |
| Segmenter.OccursAtIff | text_splitter/chinese_recursive_text_splitter.py:117 | a pattern occurs at a position exactly when one of its alternatives matches there |
| Segmenter.OccursInSlice | text_splitter/chinese_recursive_text_splitter.py:16 | an occurrence inside a slice is an occurrence in the whole string at the shifted position |
| Segmenter.Search | text_splitter/chinese_recursive_text_splitter.py:117 | a match starts at or after the search position, is non-empty, and lies inside the string |
| Segmenter.SearchMatch | text_splitter/chinese_recursive_text_splitter.py:117 | the matched text is an alternative, namely the first one that occurs at the match position |
| Segmenter.SearchLeftmost | text_splitter/chinese_recursive_text_splitter.py:117 | the match is leftmost: nothing occurs before it, and nothing occurs at all when the search fails |
| Segmenter.FoundIff | text_splitter/chinese_recursive_text_splitter.py:117 | `re.search` succeeds exactly when the pattern occurs at some position of the text |
| Segmenter.ReSplit | text_splitter/chinese_recursive_text_splitter.py:16-23 | `re.split` returns at least one part, and an odd number of parts with a capture group |
| Segmenter.SplitFrom | text_splitter/chinese_recursive_text_splitter.py:16-23 | each search resumes where the previous match ended; at least one part, and an odd number with a capture group |
| Segmenter.SplitFound | text_splitter/chinese_recursive_text_splitter.py:16-23 | once a match is found, `re.split` yields the text before it, then the match when it is captured, then the split of the rest |
| Segmenter.CapturedSplitConcat | text_splitter/chinese_recursive_text_splitter.py:16 | the parts of a capturing split concatenate back to the text split |
| Segmenter.CapturedSplitAlternates | text_splitter/chinese_recursive_text_splitter.py:16 | a capturing split alternates occurrence-free texts and matches, each match a non-empty alternative, with an odd number of parts; nothing occurs in a text joined to the next match before that match starts |
| Segmenter.AlternatesAfterMatch | text_splitter/chinese_recursive_text_splitter.py:16 | a split that finds a match keeps the alternating shape |
| Segmenter.CapturedStep | text_splitter/chinese_recursive_text_splitter.py:16 | a split that finds a match starts with an occurrence-free text and a non-empty alternative, and nothing occurs in the two joined before the alternative starts |
| Segmenter.CapturedSplit | text_splitter/chinese_recursive_text_splitter.py:16 | `re.split(f"({separator})", text)` concatenates back to `text` and alternates texts and matches |
| Segmenter.ClearBetween | text_splitter/chinese_recursive_text_splitter.py:16-23 | where nothing occurs between two positions, the slice between them holds no occurrence |
| Segmenter.SearchedTextClear | text_splitter/chinese_recursive_text_splitter.py:16-23 | the text passed over before a match, or the whole rest when there is none, holds no occurrence |
| Segmenter.DroppedSplit | text_splitter/chinese_recursive_text_splitter.py:23 | no part of `re.split(separator, text)` holds an occurrence of the separator |
| Segmenter.PairUpOdd | text_splitter/chinese_recursive_text_splitter.py:18-20 | on an odd list, the zip of even and odd entries joins each text with the match after it and appends the last entry |
| Segmenter.PairUpCons | text_splitter/chinese_recursive_text_splitter.py:18-20 | pairing a list that starts with two entries joins those two and pairs the rest |
| Segmenter.PairUpConcat | text_splitter/chinese_recursive_text_splitter.py:18-20 | pairing keeps the concatenation of the list |
| Segmenter.PairUp | text_splitter/chinese_recursive_text_splitter.py:18-20 | pairing a list of `n` entries gives `(n + 1) / 2` pieces |
| Segmenter.NonEmpty | text_splitter/chinese_recursive_text_splitter.py:26 | the filter keeps no empty string, keeps the concatenation, and leaves a list without empty strings unchanged |
| Segmenter.NonEmptyAppend | text_splitter/chinese_recursive_text_splitter.py:26 | filtering distributes over concatenation of lists |
| Segmenter.NonEmptyMembers | text_splitter/chinese_recursive_text_splitter.py:26 | every string the filter keeps is from its input |
| Segmenter.Chars | text_splitter/chinese_recursive_text_splitter.py:25 | `list(text)` has one one-character piece per character, in order |
| Segmenter.ConcatChars | text_splitter/chinese_recursive_text_splitter.py:25 | the characters concatenate back to the text |
| Segmenter.Segment | text_splitter/chinese_recursive_text_splitter.py:9-26 | the segmenter never returns an empty piece |
| Segmenter.SegmentKeep | text_splitter/chinese_recursive_text_splitter.py:13-21 | with a kept, non-empty separator the pieces concatenate back to the text; every piece but the last ends with an occurrence of the separator, and no occurrence starts in it before that one; the last piece does too or holds none |
| Segmenter.KeptPairs | text_splitter/chinese_recursive_text_splitter.py:18-20 | the pairs of an alternating split each end at the separator, and the leftover entry holds no occurrence |
| Segmenter.PairEndsAtSeparator | text_splitter/chinese_recursive_text_splitter.py:18 | a match joined to a text before it, where nothing occurs before the match starts, is a non-empty piece that ends at the separator with no earlier occurrence |
| Segmenter.KeptEnds | text_splitter/chinese_recursive_text_splitter.py:26 | dropping empty pieces keeps every piece but the last ending at the separator |
| Segmenter.SegmentDrop | text_splitter/chinese_recursive_text_splitter.py:22-23 | without `keep_separator`, no piece holds an occurrence of the separator |
| Segmenter.SegmentEmpty | text_splitter/chinese_recursive_text_splitter.py:24-25 | with an empty separator the pieces are the text's characters in order |
| Segmenter.SegmentConcat | text_splitter/chinese_recursive_text_splitter.py:13-26 | with the separator kept, or an empty separator, the pieces concatenate back to the text |
| Segmenter.InTextTrans | text_splitter/chinese_recursive_text_splitter.py:9-26 | a slice of a slice of a text is a slice of the text |
| Segmenter.ClearInText | text_splitter/chinese_recursive_text_splitter.py:9-26 | a slice of a text with no occurrence of a pattern holds none either |
| Segmenter.NotFoundClear | text_splitter/chinese_recursive_text_splitter.py:117 | a text in which `re.search` finds nothing holds no occurrence anywhere |
| Segmenter.PieceAt | text_splitter/chinese_recursive_text_splitter.py:129 | in pieces that concatenate back to the text, each piece is a slice of the text |
| Segmenter.DroppedSlices | text_splitter/chinese_recursive_text_splitter.py:23 | every part of `re.split(separator, text)` is a slice of `text` |
| Segmenter.SegmentInText | text_splitter/chinese_recursive_text_splitter.py:9-26 | in every mode, every piece of the segmenter is a slice of the text |
| Text.LeadingSpaces | text_splitter/chinese_recursive_text_splitter.py:57 | the leading whitespace run is within the string |
| Text.LeadingRun | text_splitter/chinese_recursive_text_splitter.py:57 | the leading run is all whitespace, and the character after it is not |
| Text.TrailingSpaces | text_splitter/chinese_recursive_text_splitter.py:57 | the trailing whitespace run is within the string |
| Text.TrailingRun | text_splitter/chinese_recursive_text_splitter.py:57 | the trailing run is all whitespace, and the character before it is not |
| Text.SpacesListed | text_splitter/chinese_recursive_text_splitter.py:57 | the list of whitespace characters used for `\s` is exactly the set `str.strip` removes |
| Text.Strip | text_splitter/chinese_recursive_text_splitter.py:57 | `str.strip` leaves no whitespace at either end, is empty exactly for an all-whitespace string, and removes only whitespace from the two ends |
| Text.StripStripped | text_splitter/chinese_recursive_text_splitter.py:57 | stripping leaves a string without end whitespace unchanged |
| Text.Join | text_splitter/chinese_recursive_text_splitter.py:55 | a non-empty join starts with its first piece |
| Text.Concat | text_splitter/chinese_recursive_text_splitter.py:128 | the length of a concatenation is the sum of the pieces' lengths |
| Text.JoinLength | text_splitter/chinese_recursive_text_splitter.py:55 | the length of a join is the pieces' lengths plus one separator per gap |
| Text.JoinSnoc | text_splitter/chinese_recursive_text_splitter.py:98-99 | joining one more piece adds a separator and the piece |
| Text.JoinEmpty | text_splitter/chinese_recursive_text_splitter.py:128 | joining with `""` is concatenation |
| Text.ConcatAppend | text_splitter/chinese_recursive_text_splitter.py:18-26 | concatenation distributes over appending lists |
| Text.ConcatSlice | text_splitter/chinese_recursive_text_splitter.py:127-144 | the concatenation of a run of pieces is the matching slice of the concatenation of all of them |
| Text.BlankIndexed | text_splitter/chinese_recursive_text_splitter.py:145 | a list is blank, the condition of `chunk.strip() != ""` failing for all of it, exactly when every string in it is whitespace only |
| Text.BlankAt | text_splitter/chinese_recursive_text_splitter.py:145 | each string of a blank list is whitespace only |
| Text.BlankEvery | text_splitter/chinese_recursive_text_splitter.py:145 | a list of whitespace-only strings is blank |
| Text.AllSpaceAppend | text_splitter/chinese_recursive_text_splitter.py:55 | two strings together are whitespace only exactly when each is |
| Text.BlankAppend | text_splitter/chinese_recursive_text_splitter.py:135-144 | two lists of chunks together are blank exactly when each is |
| Text.AllSpaceSlice | text_splitter/chinese_recursive_text_splitter.py:124 | a slice of a whitespace-only text is whitespace only |
| Text.JoinBlank | text_splitter/chinese_recursive_text_splitter.py:55-58 | a join that is whitespace only has only whitespace-only pieces; whitespace-only pieces joined with a whitespace-only separator give a whitespace-only join |
| Text.ConcatBlank | text_splitter/chinese_recursive_text_splitter.py:128 | the pieces concatenated are whitespace only exactly when every piece is |
| Text.CollapseNewlines | text_splitter/chinese_recursive_text_splitter.py:145 | collapsing never lengthens the string and keeps its first and last characters |
| Text.CollapseNoDouble | text_splitter/chinese_recursive_text_splitter.py:145 | after `re.sub(r"\n{2,}", "\n", ...)` no two newlines are adjacent |
| Text.CollapseKeepsText | text_splitter/chinese_recursive_text_splitter.py:145 | collapsing removes only newlines: the other characters are kept, in order |
| Text.CollapseFixed | text_splitter/chinese_recursive_text_splitter.py:145 | collapsing leaves a string without double newlines unchanged |
| Text.CollapseAppend | text_splitter/chinese_recursive_text_splitter.py:145 | text that does not end with a newline is collapsed independently of what follows it |
| Text.CollapseCons | text_splitter/chinese_recursive_text_splitter.py:145 | one step of the substitution: a newline followed by another newline is dropped, any other character stays |
| Text.CollapseRunAhead | text_splitter/chinese_recursive_text_splitter.py:145 | a leading run of one or more newlines, up to a character that is not a newline, becomes exactly one newline |
| Text.CollapseRun | text_splitter/chinese_recursive_text_splitter.py:145 | a maximal run of one or more newlines becomes exactly one newline, and the text on each side is collapsed on its own; with `CollapseFixed` this fixes the result on every string |
| Text.Tidy | text_splitter/chinese_recursive_text_splitter.py:145 | a tidied chunk is no longer than the chunk, is empty exactly for an all-whitespace chunk, and otherwise is non-empty, stripped and free of double newlines |
| Text.TidyClean | text_splitter/chinese_recursive_text_splitter.py:145 | tidying leaves such a clean chunk unchanged |
| Text.TidyStrip | text_splitter/chinese_recursive_text_splitter.py:145 | tidying a stripped chunk gives the same as tidying the chunk |
| Merger.JoinDocs | text_splitter/chinese_recursive_text_splitter.py:54-61 | `None` exactly when the join is all whitespace; otherwise the stripped join, non-empty |
| Merger.WindowLength | text_splitter/chinese_recursive_text_splitter.py:66-99 | the running total of a window is at least its first piece plus one separator when a piece follows |
| Merger.WindowLengthIsJoinLength | text_splitter/chinese_recursive_text_splitter.py:66-99 | the running total the merger keeps for a window is the length of the window's join |
| Merger.WindowLengthFormula | text_splitter/chinese_recursive_text_splitter.py:66-99 | the total is the sum of the window's piece lengths plus `separator_len` times one less than its number of pieces |
| Merger.WindowLengthSnoc | text_splitter/chinese_recursive_text_splitter.py:98-99 | appending a piece adds its length, plus `separator_len` when the window was not empty |
| Merger.WindowLengthGrows | text_splitter/chinese_recursive_text_splitter.py:98-99 | a window's total only grows as it takes in more pieces |
| Merger.WindowLengthPositive | text_splitter/chinese_recursive_text_splitter.py:89-93 | a window that starts with a non-empty piece has a positive total |
| Merger.Overflows | text_splitter/chinese_recursive_text_splitter.py:73-76 | the pending piece overflows exactly when the window extended by it is longer than `chunk_size` |
| Merger.KeepPopping | text_splitter/chinese_recursive_text_splitter.py:89-93 | with a non-negative `chunk_overlap` the popping loop only runs on a non-empty window, so `current_doc[0]` exists |
| Merger.Popped | text_splitter/chinese_recursive_text_splitter.py:89-97 | the popping loop drops no more pieces than the window holds |
| Merger.ShrinkWindow | text_splitter/chinese_recursive_text_splitter.py:86-97 | the popping loop keeps `total` equal to the window's joined length; it stops with a suffix of the emitted window whose total is within `chunk_overlap` and which leaves room for the pending piece or has a total of 0; it fails only for a negative `chunk_overlap` |
| Merger.ProgressAppend | text_splitter/chinese_recursive_text_splitter.py:98 | appending a piece keeps the chain of emitted windows |
| Merger.ProgressEmit | text_splitter/chinese_recursive_text_splitter.py:82-97 | emitting a window and carrying over its popped suffix extends the chain |
| Merger.ProgressFinish | text_splitter/chinese_recursive_text_splitter.py:100-102 | the final window completes the chain, which starts at the first piece |
| Merger.Emitted | text_splitter/chinese_recursive_text_splitter.py:82-102 | at most one chunk per emitted window |
| Merger.EmittedChunks | text_splitter/chinese_recursive_text_splitter.py:79-85 | each chunk is non-empty, stripped, and the stripped join of one of the windows |
| Merger.EmittedFit | text_splitter/chinese_recursive_text_splitter.py:79-85 | windows whose joins fit in a bound give chunks that fit in it |
| Merger.OneWindow | text_splitter/chinese_recursive_text_splitter.py:63-103 | when the join of all the pieces fits in `chunk_size`, the merger emits one window of all of them, and its only chunk is the stripped join, unless that is all whitespace |
| Merger.EmitChunk | text_splitter/chinese_recursive_text_splitter.py:83-85 | emitting a window appends its `_join_docs`, when there is one, to the chunks |
| Merger.SliceSnoc | text_splitter/chinese_recursive_text_splitter.py:98 | appending the next piece extends the window by that piece |
| Merger.WindowsAfter | text_splitter/chinese_recursive_text_splitter.py:68-99 | the windows the merger has emitted after reading some pieces, and where its current window starts, which is never past the pieces read |
| Merger.WindowsAfterEmit | text_splitter/chinese_recursive_text_splitter.py:73-97 | a piece that overflows the non-empty current window closes it: the window is emitted and the next one starts where the popping loop stops |
| Merger.WindowsAfterAppend | text_splitter/chinese_recursive_text_splitter.py:98-99 | a piece that fits, or meets an empty window, joins the current window and nothing is emitted |
| Merger.WindowsAfterProgress | text_splitter/chinese_recursive_text_splitter.py:68-99 | the windows `WindowsAfter` gives form a chain from the first piece that hands over to the current window; with a negative `chunk_overlap` none is emitted |
| Merger.WindowsAfterFilled | text_splitter/chinese_recursive_text_splitter.py:71-99 | each window `WindowsAfter` gives, and the current one, took in every piece after the previous window that did not overflow it |
| Merger.FilledSnoc | text_splitter/chinese_recursive_text_splitter.py:82-85 | closing the current window, filled since the end of the previous one, keeps every window filled |
| Merger.FilledFromSnoc | text_splitter/chinese_recursive_text_splitter.py:98 | a piece that joins the current window without overflowing it keeps the window filled |
| Merger.CloseWindow | text_splitter/chinese_recursive_text_splitter.py:76-97 | closing a non-empty window that the pending piece overflows emits it and shrinks it: the windows and the start of the current one become those `WindowsAfter` gives one piece further, the chunks those of the emitted windows, and the current window and `total` what the popping loop left; it fails only for a negative `chunk_overlap` |
| Merger.MergeStep | text_splitter/chinese_recursive_text_splitter.py:71-99 | one turn of the loop keeps the loop invariant `Merging`: the windows emitted and the start of `current_doc` are those of `WindowsAfter`, `current_doc` is that window and `total` its joined length, the chunks are those of the emitted windows, and, for small pieces, every window fits and no warning fires |
| Merger.WindowsFitSnoc | text_splitter/chinese_recursive_text_splitter.py:100-102 | adding a window that fits keeps all windows fitting |
| Merger.FinishMerge | text_splitter/chinese_recursive_text_splitter.py:100-103 | after the last piece the windows run from the first piece to the last, hand over as the popping loop does and each ends at the first piece that overflowed it (`Tiling`); the chunks are their non-empty stripped joins, and they fit when the pieces are small |
| Merger.TilingUnique | text_splitter/chinese_recursive_text_splitter.py:63-103 | two lists of windows that both tile the pieces are equal: the windows, hence the chunks, are fixed by the pieces, the separator length and the configuration |
| Merger.EndsLast | text_splitter/chinese_recursive_text_splitter.py:100-102 | only the last window of a tiling reaches the last piece |
| Merger.SameStart | text_splitter/chinese_recursive_text_splitter.py:86-97 | in two tilings that agree before a window, that window starts at the same piece, where the popping loop stopped |
| Merger.NotShorter | text_splitter/chinese_recursive_text_splitter.py:73-82 | in two tilings that agree before a window and start it at the same piece, that window ends at the same piece or later in the first, since it ends at a piece that overflows it, which the second took in otherwise |
| Merger.TilingCovers | text_splitter/chinese_recursive_text_splitter.py:71-99 | every piece lies in some window of a tiling |
| Merger.EmittedNone | text_splitter/chinese_recursive_text_splitter.py:82-85 | the windows give no chunk exactly when every window joins to whitespace only |
| Merger.EmittedBlank | text_splitter/chinese_recursive_text_splitter.py:63-103 | a tiling gives no chunk only when every piece is whitespace only; with a whitespace-only separator a whitespace-only list of pieces gives none |
| Merger.SilentPieces | text_splitter/chinese_recursive_text_splitter.py:54-61 | a window whose `_join_docs` is `None` holds only whitespace-only pieces |
| Merger.BlankSilent | text_splitter/chinese_recursive_text_splitter.py:54-61 | a window of whitespace-only pieces joined with a whitespace-only separator has `_join_docs` `None` |
| Merger.JoinDocsBlank | text_splitter/chinese_recursive_text_splitter.py:54-61 | `_join_docs` of whitespace-only pieces and a whitespace-only separator is `None` |
| Merger.MergeLoop | text_splitter/chinese_recursive_text_splitter.py:68-99 | the loop over all pieces ends in the state `Merging` describes, or fails only for a negative `chunk_overlap` |
| Merger.MergeSplits | text_splitter/chinese_recursive_text_splitter.py:63-103 | the windows tile the pieces (`Tiling`): in order from the first piece to the last, handing over as the popping loop does, each ending at the first piece after the previous window that overflows it, so that they are the only such list (`TilingUnique`); the chunks are their non-empty stripped joins; there is no chunk only when every piece is whitespace only, and with a whitespace-only separator never otherwise; only a negative `chunk_overlap` fails, and then there is one window; for pieces that are non-empty and fit, every window and chunk fits in `chunk_size` and the warning of line 77 never fires |
| Splitter.ChooseSeparator | text_splitter/chinese_recursive_text_splitter.py:110-120 | the loop over the separators returns exactly `Choice`: the separator chosen and the separators left |
| Splitter.ChoiceBeforeEmpty | text_splitter/chinese_recursive_text_splitter.py:112-120 | an empty separator in the list is chosen, or it is among the separators left |
| Splitter.FirstSelectable | text_splitter/chinese_recursive_text_splitter.py:112-120 | the index found is in range and, unless it is the length of the list, selectable |
| Splitter.FirstSelectableSkips | text_splitter/chinese_recursive_text_splitter.py:112-120 | every entry the loop passes over is neither empty nor found in the text |
| Splitter.SelectableIff | text_splitter/chinese_recursive_text_splitter.py:114-117 | the loop stops at a separator exactly when it is empty or one of its alternatives occurs somewhere in the text |
| Splitter.Choice | text_splitter/chinese_recursive_text_splitter.py:110-120 | the separator chosen is from the list, and fewer separators are left than given |
| Splitter.ChoiceIsFirst | text_splitter/chinese_recursive_text_splitter.py:110-120 | the choice is the first entry that is empty or occurs in the text, and no entry before it is either; the separators left are those after it, or none for the empty one; when no entry qualifies the choice is the last entry with none left |
| Splitter.ChoiceKeepsEmpty | text_splitter/chinese_recursive_text_splitter.py:112-120 | an empty separator in the list is chosen, or it is among the separators the choice leaves |
| Splitter.PostProcess | text_splitter/chinese_recursive_text_splitter.py:145 | post-processing returns no more chunks than it is given, each one non-empty, stripped and free of double newlines |
| Splitter.PostProcessFrom | text_splitter/chinese_recursive_text_splitter.py:145 | each returned chunk is the tidied form of an input chunk that is not all whitespace |
| Splitter.PostProcessKeeps | text_splitter/chinese_recursive_text_splitter.py:145 | each input chunk that is not all whitespace is returned, tidied |
| Splitter.PostProcessClean | text_splitter/chinese_recursive_text_splitter.py:145 | a list of clean chunks is returned unchanged |
| Splitter.PostProcessNone | text_splitter/chinese_recursive_text_splitter.py:145 | post-processing returns no chunk exactly when every chunk is whitespace only |
| Splitter.PostProcessAppend | text_splitter/chinese_recursive_text_splitter.py:145 | post-processing works chunk by chunk: it distributes over concatenation |
| Splitter.PostProcessTwice | text_splitter/chinese_recursive_text_splitter.py:145 | post-processing is idempotent |
| Splitter.BoundedMore | text_splitter/chinese_recursive_text_splitter.py:137-141 | a chunk that fits, or is a kept-whole piece, stays so when more pieces are kept whole |
| Splitter.SourcedInSlice | text_splitter/chinese_recursive_text_splitter.py:140-141 | a clean chunk made from a slice of a piece of the text comes from the text |
| Splitter.RunIsSlice | text_splitter/chinese_recursive_text_splitter.py:128-134 | a run of pieces that concatenate to the text, joined with `""` and stripped, is a tidied slice of the text |
| Splitter.MergedChunkSourced | text_splitter/chinese_recursive_text_splitter.py:133-135 | each chunk the merger makes from a run of the pieces comes from the text |
| Splitter.RunOfRun | text_splitter/chinese_recursive_text_splitter.py:127-136 | a window of the pending run is a run of the pieces |
| Splitter.MergeRun | text_splitter/chinese_recursive_text_splitter.py:133-144 | merging a run of short pieces gives the chunks of windows that tile the run (`Tiling`, `Emitted`); each chunk fits in `chunk_size`, is not all whitespace and, with the separator kept, comes from the text; no chunk means the run is whitespace only, and with the separator kept the converse holds; with the separator kept and a run that fits in `chunk_size`, the one chunk is the stripped run; it fails only for a negative `chunk_overlap` |
| Splitter.AddMerged | text_splitter/chinese_recursive_text_splitter.py:135 | adding merged chunks keeps every chunk fitting or kept whole, and from the text |
| Splitter.LongPiece | text_splitter/chinese_recursive_text_splitter.py:132-141 | a piece of at least `chunk_size` is never merged: the chunks become the old ones, then `merged`, then `tail`. `merged` is none when no run is pending, and otherwise the chunks of windows that tile the run; each fits in `chunk_size`, is not all whitespace and, with the separator kept, comes from the text; it is empty only for a whitespace-only run. `tail` is the piece itself when no separator is left, and otherwise clean chunks that fit or are tidied `Atoms` of the piece; with the separator kept they come from the piece and there are none exactly when the piece is whitespace only. The pieces kept whole grow by exactly `PieceAtoms` of the piece; with the separator kept, no chunk at all means the old chunks, the run and the piece are whitespace only |
| Splitter.PieceChunks | text_splitter/chinese_recursive_text_splitter.py:137-141 | the chunks of a long piece: the piece itself, kept whole, when no separator is left; otherwise those of `_split_text` on it with the separators left, clean, fitting or tidied `Atoms` of the piece, from the piece when the separator is kept, and none exactly when the piece is whitespace only; it fails only for a negative `chunk_overlap` with separators left |
| Splitter.AddPiece | text_splitter/chinese_recursive_text_splitter.py:132-141 | adding the merged run and the chunks of the long piece keeps the loop invariant past the piece with no run pending, the piece's pieces kept whole added; with the separator kept, no chunk at all means the chunks before, the run and the piece are all whitespace only |
| Splitter.AddedBlank | text_splitter/chinese_recursive_text_splitter.py:132-141 | with the separator kept, no chunk after the merged run and the piece's chunks means no chunk before, and a whitespace-only run and piece |
| Splitter.NoneBlank | text_splitter/chinese_recursive_text_splitter.py:135-141 | a list of chunks none of which is whitespace only is blank exactly when it is empty |
| Splitter.CleanNotSpace | text_splitter/chinese_recursive_text_splitter.py:140-141 | a clean chunk is not whitespace only |
| Splitter.KeepWhole | text_splitter/chinese_recursive_text_splitter.py:137-138 | keeping a long piece whole keeps the chunk invariant, with the piece recorded as kept whole |
| Splitter.AddSplit | text_splitter/chinese_recursive_text_splitter.py:139-141 | adding the chunks of a piece split again keeps the chunk invariant |
| Splitter.Conclude | text_splitter/chinese_recursive_text_splitter.py:145 | each post-processed chunk fits or is a kept-whole piece tidied, and with the separator kept is a tidied slice of the text |
| Splitter.PiecesAtomsSnoc | text_splitter/chinese_recursive_text_splitter.py:129-141 | the pieces kept whole among the first pieces grow by those of the next piece |
| Splitter.PiecesAtomsAppend | text_splitter/chinese_recursive_text_splitter.py:129-141 | the pieces kept whole from two lists of pieces in turn are those of the first list, then those of the second |
| Splitter.AtomsLong | text_splitter/chinese_recursive_text_splitter.py:137-138 | every piece kept whole is at least `chunk_size` long |
| Splitter.PiecesAtomsLong | text_splitter/chinese_recursive_text_splitter.py:129-141 | every piece kept whole from a list of pieces is at least `chunk_size` long |
| Splitter.PieceAtomsLong | text_splitter/chinese_recursive_text_splitter.py:130-141 | every piece kept whole from one piece is at least `chunk_size` long |
| Splitter.AtomsInText | text_splitter/chinese_recursive_text_splitter.py:124-141 | every piece kept whole is a slice of the text, in either mode |
| Splitter.PiecesAtomsInText | text_splitter/chinese_recursive_text_splitter.py:129-141 | pieces that are slices of the text keep whole only slices of the text |
| Splitter.PieceAtomsInText | text_splitter/chinese_recursive_text_splitter.py:137-141 | a piece that is a slice of the text keeps whole only slices of the text |
| Splitter.UncutInText | text_splitter/chinese_recursive_text_splitter.py:117-124 | a slice of a text no listed pattern occurs in has no occurrence of them either |
| Splitter.UncutAppend | text_splitter/chinese_recursive_text_splitter.py:119 | a text free of two lists of patterns is free of their concatenation |
| Splitter.PiecesUncut | text_splitter/chinese_recursive_text_splitter.py:112-124 | with the separator dropped and no empty entry, each piece holds no occurrence of the chosen pattern or of any entry passed over before it |
| Splitter.AtomsUncut | text_splitter/chinese_recursive_text_splitter.py:112-141 | with the separator dropped and no empty entry, no listed pattern occurs anywhere in a piece kept whole: none of the separators could have cut it |
| Splitter.PiecesAtomsUncut | text_splitter/chinese_recursive_text_splitter.py:129-141 | pieces free of the patterns already used keep whole only pieces free of those and of the separators left |
| Splitter.PieceAtomsUncut | text_splitter/chinese_recursive_text_splitter.py:137-141 | a piece free of the patterns already used keeps whole only pieces free of those and of the separators left |
| Splitter.GatherChunks | text_splitter/chinese_recursive_text_splitter.py:127-144 | the loop over the pieces, then the last run merged, gives chunks that fit, or are tidied pieces kept whole, and with the separator kept come from the text; the pieces kept whole are exactly `PiecesAtoms` of the pieces; with the separator kept, a text shorter than `chunk_size` gives the one chunk `text.strip()` (none if it is all whitespace), and there is no chunk exactly when the text is whitespace only; it fails only for a negative `chunk_overlap` |
| Splitter.GatherLoop | text_splitter/chinese_recursive_text_splitter.py:129-141 | after the loop the invariant `Gathered` holds for all the pieces, with a run still pending; the pieces kept whole are exactly `PiecesAtoms` of the pieces; with the separator kept and a text shorter than `chunk_size` no chunk was made before the pending run, and no chunk means the pieces before that run are whitespace only; it fails only for a negative `chunk_overlap` |
| Splitter.BlankPrefix | text_splitter/chinese_recursive_text_splitter.py:129-144 | the pieces before one position are whitespace only when those before an earlier one and those between are |
| Splitter.SourcedBlank | text_splitter/chinese_recursive_text_splitter.py:145 | chunks that are tidied slices of a whitespace-only text are whitespace only |
| Splitter.SourcedSpace | text_splitter/chinese_recursive_text_splitter.py:145 | a chunk that is a tidied slice of a whitespace-only text is whitespace only |
| Splitter.GatherStep | text_splitter/chinese_recursive_text_splitter.py:129-141 | one turn of the loop keeps the loop invariant `Gathered`; the pieces kept whole so far are `PiecesAtoms` of the pieces read; a short piece never fails and makes no chunk; with the separator kept, no chunk so far means the pieces before the pending run are whitespace only |
| Splitter.LongStep | text_splitter/chinese_recursive_text_splitter.py:132-141 | a long piece moves the loop invariant past it with no run pending, adds its `PieceAtoms` to the pieces kept whole, and keeps "no chunk so far means the pieces read are whitespace only"; it fails only for a negative `chunk_overlap` |
| Splitter.ShortPiece | text_splitter/chinese_recursive_text_splitter.py:130-131 | a piece shorter than `chunk_size` joins the pending run and keeps the loop invariant |
| Splitter.ShortPieceAtoms | text_splitter/chinese_recursive_text_splitter.py:130-131 | a piece shorter than `chunk_size` adds no piece kept whole |
| Splitter.PiecesWithin | text_splitter/chinese_recursive_text_splitter.py:124 | with the separator kept, no piece is longer than the text it was cut from |
| Splitter.FlushedRun | text_splitter/chinese_recursive_text_splitter.py:142-144 | after the loop the pending run reaches the last piece, and is all of the pieces when no chunk was made before |
| Splitter.FlushRun | text_splitter/chinese_recursive_text_splitter.py:142-144 | merging the pending run after the loop keeps every chunk fitting, or kept whole, and from the text; it does nothing without a pending run; with the separator kept, when the run is all the pieces of a text shorter than `chunk_size` and no chunk came before, the result is that text as one stripped chunk, or none, and no chunk after it means no chunk before it and a whitespace-only run; it fails only for a negative `chunk_overlap` |
| Splitter.ShortText | text_splitter/chinese_recursive_text_splitter.py:145 | the one chunk of a short text, post-processed, is the tidied text, or the text itself when it is already clean |
| Splitter.SplitPieces | text_splitter/chinese_recursive_text_splitter.py:122-144 | cutting the text with the chosen separator and gathering the chunks gives chunks that fit, or are pieces kept whole, and with the separator kept come from the text; the pieces kept whole are exactly `Atoms(text, separators)`, none when the list holds the empty separator and `chunk_size >= 2`; with the separator kept, a short text is one stripped chunk, and there is no chunk exactly when the text is whitespace only; it fails only for a negative `chunk_overlap` |
| Splitter.SplitText | text_splitter/chinese_recursive_text_splitter.py:106-145 | fails always on an empty separator list, and otherwise only for a negative `chunk_overlap`; every chunk is non-empty, stripped and free of double newlines; every chunk fits in `chunk_size` unless it is, tidied, one of `Atoms(text, separators)`, the pieces kept whole, of which there is none when the list holds the empty separator and `chunk_size >= 2`; with the separator kept every chunk is a tidied slice of the text, the result is empty exactly when the text is whitespace only, and a text shorter than `chunk_size` comes back tidied as the only chunk, so a clean chunk comes back as itself |

## Left out

- The `re` engine. A pattern is given by the finite list of literal strings it matches, in
  alternation order. Character classes are written out over a fixed whitespace set, and
  patterns that can match the empty string are not modelled: an empty alternative never
  matches. Patterns are also not checked for validity.
- `Text.IsSpace`: the whitespace of `str.strip` and of `\s` is a fixed list of characters,
  those `str.isspace` accepts. No Unicode database is consulted, so a change to that set in
  a later Unicode version is not followed.
- The base class `RecursiveCharacterTextSplitter` (lines 3 and 40) is not part of this
  model. So `split_text`, `_length_function` and the keyword arguments passed to it are
  left out. Lengths are character counts, and `SplitText` is the entry point, called as
  `_split_text(text, self._separators)`.
- The warning of lines 77-81 is a log message with no effect on the result. It is modelled
  only as the ghost flag `warned`.
- The demonstration block of lines 148-161 is console input and output, and is left out.
- `Splitter.SplitText`: the order of the chunks and how far they cover the text are not
  stated.
  - Chunks follow the order of the pieces in the code, and `MergeSplits` proves this for
    each run.
  - The contract says that, with the separator kept, each chunk is a tidied slice of the
    text. It does not say the slices come in order.
  - When the separator is dropped, nothing is stated about where the chunks come from,
    because the merger joins pieces with the pattern text.
- `Merger.MergeSplits`: the windows are ghost outputs, since the source keeps only the chunks.
  `TilingUnique` shows that the contract fixes them all the same.
- `Splitter.SplitText`: that the result is empty exactly when the text is whitespace only is
  stated only with the separator kept. Without it the occurrences are dropped, so the text
  `a` with the list `["a"]` gives no piece and no chunk although it is not whitespace.
  Likewise `Splitter.MergeRun`, `Splitter.LongPiece` and `Splitter.PieceChunks` state that
  whitespace-only pieces give no chunk only with the separator kept: otherwise the pieces are
  joined with the pattern text, which need not be whitespace.
- `Segmenter.Segment`: the pieces of `re.split(separator, text)` are each shown to be a slice
  of the text (`SegmentInText`), but no theorem re-assembles them in order, since the
  occurrences between them are dropped. The proofs cover that no dropped piece holds an
  occurrence, and the kept and character-split forms.
- `Splitter.AtomsUncut`: it is stated only when the separator is dropped and no entry of the
  list is the empty separator.
  - With the separator kept, every piece ends with an occurrence of its separator, so a piece
    kept whole is never free of it. Not even "its only occurrence is at its end" holds: with
    the pattern `abc|b`, as the last entry, the text `xabc` is one piece, and `b` occurs in
    it before the end.
  - After an empty entry, later entries are not searched for. With the list `["", "a"]` and
    `chunk_size` 1, the text `a` is cut into characters, and `a` is kept whole although the
    pattern `a` occurs in it.
- `Splitter.SplitText`: that a short text comes back as its only chunk is stated only with the
  separator kept and a text strictly shorter than `chunk_size`.
  - Without `keep_separator` the pieces are joined with the pattern text. In regex mode the
    text `a, b` with the list `[",\s"]` and `chunk_size` 10 comes back as `a,\sb`.
  - A text of exactly `chunk_size` characters may be a single piece, for instance when it
    ends with the only occurrence of its kept separator. That piece is long, so it is split
    again or kept whole.
