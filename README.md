# Olympian Iliad: a verified model of a map/filter/reduce text pipeline

The program downloads Homer's Iliad and turns it into one text made of the
sentences that mention the Olympus. It does this in four stages:

1. `get_sentences` cleans the raw text and splits it into fragments on
   every '.'. Cleaning has three ordered steps:
   - each "\r\n" becomes a space;
   - each bracketed number marker such as `[12]` is deleted;
   - every remaining digit is deleted.
2. `get_olympian_sentences` keeps the fragments whose lower-cased copy
   contains "olymp". The kept fragments are returned unchanged.
3. `modernize_sentences` replaces each "’d" by "ed" in every fragment
   and strips the fragment's surrounding whitespace.
4. `merge_sentences` reduces the fragments, with no initial value, into one
   text. Each step glues on the next fragment with "" if the text so far
   ends in '.', and with ". " otherwise. Splitting the merged text on '.'
   does not give the fragments back: each junction adds ". ", so every
   fragment after the first returns with a leading space
   (`Merger.MergeSplitMismatch`).

Each stage is a Dafny module of pure functions and lemmas:

- `Strings` models the library calls `split`, `in`, `lower` and `strip`. Its `Join` is not called by the program; it is the reference definition that the split round trip is stated against.
- `Sentences` models stage 1.
- `Olympian` models stage 2.
- `Modernizer` models stage 3.
- `Merger` models stage 4.
- `Pipeline` models the composition the script runs.

Both regular expressions and the `translate` call are modelled as
left-to-right scanners. They replace leftmost first and never overlap,
as `re.sub` does. `reduce` is modelled as a recursive left fold that
returns a `Result`. Its two errors are modelled:
- `EmptyInput`: the TypeError `reduce` raises on an empty list.
- `IndexError`: what `a[-1]` raises on an empty text.

## Model

| member | source | states |
|---|---|---|
| Strings.Contains | example.py:50 | the `in` scanner; `Strings.ContainsIff` gives its meaning |
| Strings.ContainsIff | example.py:50 | the `in` scanner is true exactly when the keyword occurs at some position of the text |
| Strings.Lower | example.py:50 | `lower` keeps the length of the text |
| Strings.Split | example.py:34 | `split` always returns at least one fragment |
| Strings.SplitJoin | example.py:34 | joining the fragments of `split(d)` with `d` gives back the text |
| Strings.JoinSplit | example.py:34 | splitting a join of at least one delimiter-free fragment gives back exactly those fragments |
| Strings.SplitCount | example.py:34 | there is one fragment more than there are delimiters in the text |
| Strings.SplitFragmentsLackDelimiter | example.py:34 | no fragment contains the delimiter |
| Strings.SplitFragmentsFromInput | example.py:34 | every character of a fragment comes from the text |
| Strings.SplitKeepsEmpty | example.py:34 | "A.B..C" splits into "A", "B", "" and "C", so empty fragments are kept |
| Strings.StripStart | example.py:61 | left strip keeps a suffix; all it drops is whitespace; what it keeps does not start with whitespace |
| Strings.StripEnd | example.py:61 | right strip keeps a prefix; all it drops is whitespace; what it keeps does not end with whitespace |
| Strings.Strip | example.py:61 | `strip` never lengthens the text; `Strings.StripIsTrim` gives its meaning |
| Strings.StripIsTrim | example.py:61 | `strip` is the slice left when the whitespace at both ends is cut away, and that slice has no whitespace at either end |
| Strings.StripEmptyIff | example.py:61 | `strip` gives "" exactly when the text is all whitespace |
| Strings.StripIdempotent | example.py:61 | stripping twice is stripping once |
| Sentences.ReplaceCrLf | example.py:27 | the result is never longer than the input, and is empty only for empty input |
| Sentences.ReplaceCrLfLeavesNone | example.py:27 | no "\r\n" is left after step 1 |
| Sentences.ReplaceCrLfIdentity | example.py:27 | text without "\r\n" is left unchanged |
| Sentences.ReplaceCrLfShrinks | example.py:27 | text with a "\r\n" gets strictly shorter |
| Sentences.ReplaceCrLfAppend | example.py:27 | step 1 distributes over concatenation unless the join creates a new "\r\n" |
| Sentences.CrLfBecomesSpace | example.py:27 | a "\r\n" between two texts becomes exactly one space |
| Sentences.DigitRun | example.py:29 | the `\d+` part of the pattern: the length of the digit run the text starts with, every character in it a digit and the next one not |
| Sentences.MarkerLength | example.py:29 | the length of the marker the text starts with is 0 or at least 3, and never more than the text |
| Sentences.MarkerLengthExact | example.py:29 | the scanner measures exactly the `[<digits>]` marker at the front of the text, when there is one |
| Sentences.MarkerDeleted | example.py:28-29 | a marker is deleted whole, whatever surrounds it |
| Sentences.RemoveMarkers | example.py:29 | step 2 never lengthens the text |
| Sentences.RemoveMarkersAppend | example.py:29 | step 2 distributes over concatenation when the second part cannot continue a marker begun in the first |
| Sentences.RemoveMarkersIdentity | example.py:29 | text in which no marker starts at any position is left unchanged by step 2, digits included |
| Sentences.RemoveMarkersNoDigits | example.py:29 | text without digits has no marker and is left unchanged by step 2 |
| Sentences.UnclosedMarkerKept | example.py:29 | "[1x" is no marker and survives step 2 unchanged |
| Sentences.RemoveDigits | example.py:31-32 | step 3 leaves no digit and never lengthens the text |
| Sentences.RemoveDigitsCounts | example.py:31-32 | digits are deleted, not replaced: no digit is left and every other character occurs as often as in the input |
| Sentences.RemoveDigitsAppend | example.py:31-32 | step 3 works character by character, so it distributes over concatenation |
| Sentences.RemoveDigitsIdentity | example.py:31-32 | text without digits is left unchanged by step 3 |
| Sentences.Clean | example.py:27-32 | the cleaned text has no digit and is never longer than the raw text |
| Sentences.CleanDeletesMarker | example.py:28-32 | a marker goes whole rather than leaving "[]", because markers are removed before digits |
| Sentences.CleanCrLf | example.py:27-32 | each "\r\n" of the raw text becomes one space in the cleaned text |
| Sentences.CleanLines | example.py:27-32 | two lines joined by "\r\n", with a marker ending the second, clean to the cleaned pieces joined by spaces |
| Sentences.CleanFixedPoints | example.py:27-32 | cleaning leaves a text unchanged exactly when it has no digit and no "\r\n" |
| Sentences.CleanTwiceIff | example.py:27-32 | cleaning twice equals cleaning once exactly when the first pass leaves no "\r\n" |
| Sentences.CleanExample | example.py:28-29 | "abc[12]" becomes "abc" |
| Sentences.NestedMarkerLeavesBrackets | example.py:29-32 | "[1[2]]" becomes "[]": step 2 is a single pass |
| Sentences.CleanNotIdempotent | example.py:27-32 | "\r[1]\n" cleans to "\r\n", which cleans again to " " |
| Sentences.DigitJoinsCrLf | example.py:27-32 | "\r1\n" cleans to "\r\n": deleting a digit can also put a "\r\n" together |
| Sentences.CleanLinesExample | example.py:27-32 | "Line1\r\nLine [12]\r\nEnd3." cleans to "Line Line  End." |
| Sentences.GetSentences | example.py:19-34 | `get_sentences` gives at least one fragment; `Sentences.GetSentencesShape` gives its meaning |
| Sentences.GetSentencesShape | example.py:19-34 | joining the fragments with '.' gives the cleaned text; there is one fragment more than '.'s; no fragment holds a '.' or a digit |
| Sentences.SplitExample | example.py:34 | "A.B..C" gives "A", "B", "" and "C"; "" gives one empty fragment |
| Olympian.IsOlympian | example.py:50 | the filter's test; `Olympian.IsOlympianIff` gives its meaning |
| Olympian.GetOlympianSentences | example.py:50 | the filter is never longer than its input and every kept fragment passes the test |
| Olympian.IsOlympianIff | example.py:50 | the test holds exactly when "olymp" occurs in the lower-cased copy |
| Olympian.FilterIsSubsequence | example.py:45-50 | the kept fragments are a subsequence of the input: same text, same order |
| Olympian.FilterCounts | example.py:43-50 | each passing fragment is kept as often as it occurs; every other fragment is dropped |
| Olympian.FilterKeepsExactly | example.py:43-50 | a fragment is in the output if and only if it is in the input and passes the test |
| Olympian.FilterAppend | example.py:50 | filtering distributes over concatenation |
| Olympian.FilterAllIff | example.py:50 | the output equals the input exactly when every fragment passes |
| Olympian.FilterIdempotent | example.py:50 | filtering twice is filtering once |
| Olympian.FilterEmptyIff | example.py:50 | nothing is kept exactly when no fragment passes |
| Olympian.FilterExample | example.py:45-50 | "Zeus reigns on Olympus" is kept with its own casing; "a plain one" is dropped |
| Modernizer.ReplaceContraction | example.py:61 | the replacement keeps the length |
| Modernizer.ReplaceLeavesNone | example.py:58-61 | no "’d" is left after the replacement |
| Modernizer.ReplaceIdentity | example.py:61 | text without "’d" is unchanged |
| Modernizer.ReplaceContractionAt | example.py:61 | the apostrophe of each "’d" becomes 'e'; every other character is unchanged |
| Modernizer.ReplaceNoApostrophe | example.py:61 | text without an apostrophe is unchanged |
| Modernizer.ReplaceFirst | example.py:61 | the first "’d" becomes "ed", whatever apostrophes come before it, and the scan goes on after it |
| Modernizer.ReplaceKeepsSpaces | example.py:61 | the replacement never turns whitespace into text, or text into whitespace |
| Modernizer.ModernizeSentence | example.py:61 | the lambda of the map never lengthens a fragment; `Modernizer.ModernizeSentenceShape` gives its meaning |
| Modernizer.ModernizeSentenceShape | example.py:58-61 | a modernized fragment has no whitespace at either end and no "’d" |
| Modernizer.ModernizeSentenceIdempotent | example.py:58-61 | modernizing a fragment twice is modernizing it once |
| Modernizer.ReplaceStripCommute | example.py:61 | replacing then stripping equals stripping then replacing |
| Modernizer.ModernizeSentences | example.py:61 | the map keeps the number of fragments |
| Modernizer.ModernizeShape | example.py:58-61 | element k of the output is `strip(replace(fs[k]))`; each element has no whitespace at either end and no "’d" |
| Modernizer.ModernizeIdempotent | example.py:58-61 | mapping twice is mapping once |
| Modernizer.ModernizeExample | example.py:58-61 | " belov’d friend " becomes "beloved friend" |
| Modernizer.ModernizeListExample | example.py:61 | [" belov’d friend "] maps to ["beloved friend"] |
| Merger.Step | example.py:77 | one step fails exactly when the text so far is empty, and the failure is IndexError |
| Merger.Fold | example.py:77 | the fold fails exactly when the accumulator is empty and a fragment follows, always with IndexError |
| Merger.MergeSentences | example.py:77 | the merge fails exactly on an empty list or on an empty first fragment with more to follow, and the failure is EmptyInput exactly for the empty list |
| Merger.MergeOutcomes | example.py:77 | an empty list is EmptyInput; one fragment is returned as it is, even ""; an empty first fragment with more to follow is IndexError; otherwise the merge succeeds |
| Merger.MergeSnoc | example.py:77 | the merge is a left fold: one more fragment means one more step on the merge so far |
| Merger.FoldShape | example.py:77 | a successful fold starts with the accumulator and ends with the last fragment, adding at most two characters per step |
| Merger.MergeShape | example.py:70-77 | the merge starts with the first fragment and ends with the last, so no '.' is added at the end; each junction adds at most two characters |
| Merger.MergeWithoutDots | example.py:70-77 | with a non-empty first fragment and no '.' anywhere, the merge is the fragments joined by ". " |
| Merger.MergeAfterDots | example.py:70-77 | when every fragment but the last is non-empty and ends in '.', the merge is the plain concatenation |
| Merger.MergeExamples | example.py:70-77 | ["A","B"] gives "A. B"; ["A.","B"] gives "A.B"; [] is EmptyInput; ["","B"] is IndexError; [""] gives "" |
| Merger.MergeSplitMismatch | example.py:70-77 | ["A","B"] merges to "A. B", which splits on '.' into "A" and " B", not back into ["A","B"] |
| Pipeline.OlympianIliad | example.py:81-90 | the four stages composed as the script runs them; `Pipeline.PipelineOutcome` gives its outcome |
| Pipeline.OlympianStaysNonEmpty | example.py:50-61 | a fragment that passes the filter is never empty after modernizing |
| Pipeline.PipelineOutcome | example.py:81-90 | the script fails only with EmptyInput, never IndexError; it succeeds exactly when some fragment mentions "olymp" |

## Left out

- The download at example.py:15-16 goes to an external service. The model
  takes the downloaded text as the parameter of `Pipeline.OlympianIliad`.
- The `print` at example.py:92 is output, so it is left out. The script's
  intermediate variables (example.py:81-90) are the composition
  `Pipeline.OlympianIliad`.
- `Strings.IsDigit` is ASCII '0'..'9' only. That is what `string.digits`
  means at example.py:31. Python's `\d` at example.py:29 also matches
  non-ASCII decimal digits; that case is not modelled.
- `Strings.ToLower` folds ASCII 'A'..'Z' only. Unicode case mapping in
  `str.lower()`, including mappings that change length, is not modelled.
- `Strings.IsSpace` is the ASCII part of `str.isspace()`: space, '\t'..'\r'
  and '\x1c'..'\x1f'. Non-ASCII whitespace that `str.strip()` also removes
  is not modelled.
- The regex engine itself is not modelled. Only the two fixed patterns
  "\r\n" and `\[\d+\]` are modelled, each as its own scanner.
- Idempotence of cleaning: cleaning is not idempotent in general, for
  example "\r[1]\n" cleans to "\r\n" (`Sentences.CleanNotIdempotent`). The
  model proves it only where it holds. On text with no digit and no "\r\n",
  cleaning is the identity (`Sentences.CleanFixedPoints`). In general,
  cleaning twice equals cleaning once exactly when the first pass leaves
  no "\r\n" (`Sentences.CleanTwiceIff`). Such a "\r\n" is put together by
  deleting a marker or a digit ("\r1\n" cleans to "\r\n",
  `Sentences.DigitJoinsCrLf`).
