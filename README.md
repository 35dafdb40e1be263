# EditingUtils cursor word-context scanner, in Dafny

This project models the cursor word-context scanner of LatinIME's
`EditingUtils` (java/src/com/android/inputmethod/latin/EditingUtils.java) and
proves properties of the model. The scanner has two parts.

- **The range scanner.** `getWordRangeAtCursor(connection, sep, k)` finds the
  word around the cursor. It takes the text before and after the cursor and a
  string of separator characters. It walks backward over the text before the
  cursor in alternating phases: a phase that skips word characters, then a
  phase that skips separators. It stops once `k + 1` word phases have run. It
  then walks forward over the text after the cursor up to the first separator.
  The result is a `Range`: how many code units were taken on each side of the
  cursor, and the word they make up. `getWordAtCursor` is the word of the range
  with `k = 0`.
- **The adjacent-word queries.** `getPreviousWord(prev, sentenceSeparators)`
  and `getThisWord(prev, sentenceSeparators)` split the text before the cursor
  at whitespace (`\s+`). They return the second-to-last or the last piece,
  unless that piece is empty or ends in a sentence separator.

The model has five modules, one per file.

- `Wrappers` (wrappers.dfy): `Option`, whose `None` stands for a Java `null`,
  and `Result`, whose `Thrown` stands for a thrown exception.

- `Utf16` (utf16.dfy): UTF-16 code units and the `java.lang.Character` helpers
  the scans call (`codePointAt`, `codePointBefore`, `isSupplementaryCodePoint`).
  It also has the encoding of a code point (`ToChars`, with `HighSurrogate` and
  `LowSurrogate`), which is what `String.indexOf(int)` searches for, and
  `CharCount`, the step size the scans derive from `isSupplementaryCodePoint`.
  Text is a `seq<CodeUnit>`, where `CodeUnit` is a 16-bit newtype. Dafny's
  `char` is a Unicode scalar value and so cannot hold an unpaired surrogate,
  while Java's `char` can.
- `WhitespaceSplit` (whitespace_split.dfy): `Pattern.compile("\\s+").split`
  with Java's limit-0 rules, and the reference `Words`, the maximal runs of
  non-whitespace.
- `EditingUtils` (editing_utils.dfy): `Range`, `isSeparator`, the scanner, and
  the two queries.
  - The scanner's loops are methods (`WalkBack`, `FindWordStart`,
    `FindWordEnd`, `WordRangeAtCursor`). Each is proved equal to a recursive
    specification function (`SkipBack`, `ScanBack`, `ScanForward`,
    `WordRange`).
  - The properties are lemmas about those functions.
  - `additionalPrecedingWordsCount` is a Java `int`, so `--k` wraps from the
    least int to the greatest. The sum in the cursor check wraps the same way.
    `Wrap32` models both.
- `EditingUtilsExamples` (editing_utils_examples.dfy): the worked examples from
  the source's comments, as lemmas.

The connection is modelled as `Option<TextSource>`, where `None` is a `null`
connection. A `TextSource` holds what the connection would answer: the text
before the cursor, the text after it (either may be `null`), and the cursor
position. A `null` Java value is `None`, and a thrown exception is a
`Thrown(...)` result.

Where the comments and the code disagree, the model follows the code.

- The comment on `getWordAtCursor` (lines 49-55) and on `Range.mCharsAfter`
  (lines 69-72) say the word includes one trailing separator: "he|llo world"
  should give "hello ". The forward loop (lines 134-142) stops at the separator,
  and the word takes `after.substring(0, end)` (line 147). So the separator is
  left out, and that input gives "hello".
  `EditingUtilsExamples.WordAtCursorOfHello` proves both halves: the result is
  "hello", and it is not "hello ".
- With the invalid cursor position -1, the check on line 145 always passes
  whenever both windows are present and their lengths sum to an int (always,
  with 1000-unit windows). `EditingUtils.InvalidCursorIsNotRejected` proves
  it. An unknown cursor therefore never makes the scanner return `null`.

One more edge of the code is worth knowing. Asking for one more preceding word
moves the start of the range earlier or leaves it, for every count from
`MIN_VALUE + 1` to `MAX_VALUE - 1` (`EditingUtils.ScanBackMonotone`). The count
`MIN_VALUE` is the exception. Its `--` on line 126 wraps to `MAX_VALUE`, so the
scan runs `2^32 + 1` phases and can start earlier than with `MIN_VALUE + 1`.
On "x y|" with the space as separator it starts at 0 for `MIN_VALUE` and at 2
for `MIN_VALUE + 1` (`EditingUtilsExamples.ScanBackWrapsAtLeastInt`).

## Model

| member | source | states |
|---|---|---|
| EditingUtils.NewRange | java/src/com/android/inputmethod/latin/EditingUtils.java:78-85 | The constructor throws exactly when either count is negative; otherwise the range holds the given counts and word. `Range`'s counts are `nat`, so no range has a negative count. |
| EditingUtils.Wrap32 | java/src/com/android/inputmethod/latin/EditingUtils.java:145 | Java int addition: the result is congruent to the true sum modulo 2^32 and equals it when it is in the int range. |
| EditingUtils.Decrement | java/src/com/android/inputmethod/latin/EditingUtils.java:126 | `--additionalPrecedingWordsCount` is negative exactly when the old count was in (MIN_VALUE, 0]. |
| EditingUtils.DecrementWraps | java/src/com/android/inputmethod/latin/EditingUtils.java:126 | The decrement is int subtraction of one, wrapping from MIN_VALUE to MAX_VALUE. |
| EditingUtils.IsSeparator | java/src/com/android/inputmethod/latin/EditingUtils.java:154-156 | `isSeparator`: a separator is a valid code point whose encoding fits in `sep`; see SeparatorMembership for what `indexOf` finds. |
| EditingUtils.SeparatorMembership | java/src/com/android/inputmethod/latin/EditingUtils.java:154-156 | `sep.indexOf(code) != -1`: a BMP code point is a separator iff its unit is in `sep`, a supplementary one iff its surrogate pair stands in `sep` adjacently, and an invalid one never is. |
| Utf16.IsSupplementaryCodePoint | java/src/com/android/inputmethod/latin/EditingUtils.java:119 | `Character.isSupplementaryCodePoint`: only valid code points from 0x10000 up are supplementary. |
| Utf16.CharCount | java/src/com/android/inputmethod/latin/EditingUtils.java:118-121 | The step of either scan: two units exactly when the code point is supplementary, otherwise one (the `isSupplementaryCodePoint` test at lines 119 and 139). |
| Utf16.HighSurrogate | java/src/com/android/inputmethod/latin/EditingUtils.java:155 | The leading unit of a supplementary code point's encoding, which `indexOf` searches for, is a high surrogate. |
| Utf16.LowSurrogate | java/src/com/android/inputmethod/latin/EditingUtils.java:155 | The trailing unit of that encoding is a low surrogate. |
| Utf16.ToCodePoint | java/src/com/android/inputmethod/latin/EditingUtils.java:114 | A high/low surrogate pair decodes to a supplementary code point. |
| Utf16.JoinSplitPair | java/src/com/android/inputmethod/latin/EditingUtils.java:114 | Encoding a supplementary code point as a surrogate pair and decoding the pair gives it back. |
| Utf16.SplitJoinPair | java/src/com/android/inputmethod/latin/EditingUtils.java:114 | Decoding a surrogate pair and encoding the result gives the pair back. |
| Utf16.ToChars | java/src/com/android/inputmethod/latin/EditingUtils.java:155 | The encoding of a code point is as long as its char count: the unit itself for a BMP code point, a high then a low surrogate otherwise. |
| Utf16.CodePointAt | java/src/com/android/inputmethod/latin/EditingUtils.java:135 | `Character.codePointAt`: the result is valid; it is supplementary iff a high surrogate at `i` is followed by a low one, and is otherwise the unit at `i`; its units fit in the text. |
| Utf16.CodePointAtEncodes | java/src/com/android/inputmethod/latin/EditingUtils.java:135-141 | The units the forward step consumes are exactly the encoding of the code point read. |
| Utf16.CodePointBefore | java/src/com/android/inputmethod/latin/EditingUtils.java:114 | `Character.codePointBefore`: the result is valid; it is supplementary iff a low surrogate at `i-1` is preceded by a high one, and is otherwise the unit at `i-1`; its units fit before `i`. |
| Utf16.CodePointBeforeEncodes | java/src/com/android/inputmethod/latin/EditingUtils.java:114-121 | The units the backward step consumes are exactly the encoding of the code point read. |
| Utf16.DecodeEncoded | java/src/com/android/inputmethod/latin/EditingUtils.java:114-141 | For every Unicode scalar value and any surrounding text, reading forward at its start or backward at its end gives the code point back. |
| EditingUtils.SkipBack | java/src/com/android/inputmethod/latin/EditingUtils.java:113-122 | One backward phase never moves past where it started; see SkipBackStop for where it stops. |
| EditingUtils.SkipBackStop | java/src/com/android/inputmethod/latin/EditingUtils.java:113-122 | One backward phase stops at the furthest position reachable over code points that do not stop it: at the start of the text or right after a stopping code point, and never between the halves of a surrogate pair. |
| EditingUtils.StepBackLandsOnBoundary | java/src/com/android/inputmethod/latin/EditingUtils.java:118-121 | One backward step never lands between the halves of a surrogate pair. |
| EditingUtils.ScanBack | java/src/com/android/inputmethod/latin/EditingUtils.java:108-130 | The whole backward scan never moves past where it started; see FindWordStart for its phase count and ScanBackOnBoundary and OneWordStart for where it stops. |
| EditingUtils.ScanBackOnBoundary | java/src/com/android/inputmethod/latin/EditingUtils.java:110-130 | The whole backward scan stops on a code-point boundary. |
| EditingUtils.ScanForward | java/src/com/android/inputmethod/latin/EditingUtils.java:133-142 | The forward scan's stop lies between where it started and the end of the text. |
| EditingUtils.ScanForwardStop | java/src/com/android/inputmethod/latin/EditingUtils.java:133-142 | The forward scan stops at the furthest position reachable over non-separator code points: the end of the text or the start of a separator, never between the halves of a surrogate pair. |
| EditingUtils.StepForwardLandsOnBoundary | java/src/com/android/inputmethod/latin/EditingUtils.java:139-141 | One forward step never lands between the halves of a surrogate pair. |
| EditingUtils.WalkBack | java/src/com/android/inputmethod/latin/EditingUtils.java:113-122 | The inner loop ends where the backward phase `SkipBack` says. |
| EditingUtils.FindWordStart | java/src/com/android/inputmethod/latin/EditingUtils.java:108-130 | The outer loop ends where the backward scan `ScanBack` says, after exactly `2k + 1` phases for `k >= 0` (one for negative `k`, `2^32 + 1` for MIN_VALUE), so it always halts. |
| EditingUtils.FindWordEnd | java/src/com/android/inputmethod/latin/EditingUtils.java:132-142 | The pre-increment loop ends where the forward scan `ScanForward` says. |
| EditingUtils.WordRange | java/src/com/android/inputmethod/latin/EditingUtils.java:97-152 | `getWordRangeAtCursor` as a value: null for a null connection, separator string or window; a range's counts fit their windows and its word is as long as their sum. The null cases are those of lines 99-106. See WordRangeSpan, WordRangePresent and WordRangeForwardPart for the rest. |
| EditingUtils.WordRangeAtCursor | java/src/com/android/inputmethod/latin/EditingUtils.java:97-152 | The method returns the range `WordRange` describes, and with all inputs present its backward loop runs `PhaseCount(k)` phases. |
| EditingUtils.WordRangePresent | java/src/com/android/inputmethod/latin/EditingUtils.java:144-151 | With all inputs present there is a range exactly when the int cursor check passes; the constructor never throws and `start >= 0` always holds. |
| EditingUtils.CursorConsistent | java/src/com/android/inputmethod/latin/EditingUtils.java:145 | The check `cursor + end <= after.length() + before.length()` in int arithmetic, both sums wrapping; when neither sum overflows it is the plain inequality. |
| EditingUtils.InvalidCursorIsNotRejected | java/src/com/android/inputmethod/latin/EditingUtils.java:34 | With the invalid cursor position -1 the range scanner finds a range whenever both windows are present and their lengths sum to an int (always, with 1000-unit windows). |
| EditingUtils.WordRangeSpan | java/src/com/android/inputmethod/latin/EditingUtils.java:144-148 | A range's counts lie within their windows, its word is the last `charsBefore` units before the cursor followed by the first `charsAfter` after it, its length is their sum, and neither end splits a surrogate pair. |
| EditingUtils.WordRangeForwardPart | java/src/com/android/inputmethod/latin/EditingUtils.java:132-147 | The part after the cursor is the longest walk over non-separator code points; it ends at the end of the text or just before a separator, which is not part of the word. |
| EditingUtils.OneWordStart | java/src/com/android/inputmethod/latin/EditingUtils.java:110-130 | With `k = 0` the scan starts the word at the start of the longest separator-free stretch of code points ending at the cursor: at the start of the text or right after a separator. |
| EditingUtils.ScanBackMonotone | java/src/com/android/inputmethod/latin/EditingUtils.java:108-130 | For every count `k` with `MIN_VALUE < k < MAX_VALUE`, one more preceding word never moves the backward scan's stop later. |
| EditingUtils.WordPhaseMonotone | java/src/com/android/inputmethod/latin/EditingUtils.java:113-129 | The same, for the same range of `k`, for a scan that begins in a word-skipping phase. |
| EditingUtils.CharsBeforeMonotone | java/src/com/android/inputmethod/latin/EditingUtils.java:97-152 | For every count `k` with `MIN_VALUE < k < MAX_VALUE`, one more preceding word keeps whether a range is found, and `charsBefore` never shrinks. |
| EditingUtilsExamples.ScanBackWrapsAtLeastInt | java/src/com/android/inputmethod/latin/EditingUtils.java:126 | At `k = MIN_VALUE` monotonicity fails: on "x y" with the space as separator, the scan for `MIN_VALUE` stops at 0 and the scan for `MIN_VALUE + 1` at 2. |
| EditingUtils.WordAtCursor | java/src/com/android/inputmethod/latin/EditingUtils.java:56-60 | `getWordAtCursor` is null exactly when the range with `k = 0` is, and otherwise as long as that range; see WordAtCursorSpan for its contents. |
| EditingUtils.WordAtCursorSpan | java/src/com/android/inputmethod/latin/EditingUtils.java:56-60 | `getWordAtCursor` is null exactly when the range with `k = 0` is; otherwise it is the longest separator-free stretch ending at the cursor followed by the longest one starting there. |
| WhitespaceSplit.IsWhitespace | java/src/com/android/inputmethod/latin/EditingUtils.java:158 | Java's `\s`: space, `\t`, `\n`, `\x0B`, `\f` and `\r`, all ASCII, so no cut falls inside a surrogate pair. |
| WhitespaceSplit.LeadingSpace | java/src/com/android/inputmethod/latin/EditingUtils.java:158 | The length of the longest whitespace prefix, with the unit after it not whitespace. |
| WhitespaceSplit.LeadingWord | java/src/com/android/inputmethod/latin/EditingUtils.java:158 | The length of the longest whitespace-free prefix, with the unit after it whitespace. |
| WhitespaceSplit.Pieces | java/src/com/android/inputmethod/latin/EditingUtils.java:180 | The pieces before limit-0 trimming: at least one, the first being the longest whitespace-free prefix. Line 207 splits the same way. |
| WhitespaceSplit.DropTrailingEmpty | java/src/com/android/inputmethod/latin/EditingUtils.java:180 | Limit-0 trimming keeps a prefix of the pieces whose last piece is non-empty, and drops only empty pieces. |
| WhitespaceSplit.Split | java/src/com/android/inputmethod/latin/EditingUtils.java:180 | `spaceRegex.split(prev)` with limit 0: a prefix of the pieces, with only empty pieces dropped. Line 207 splits the same way. See SplitVsWords. |
| WhitespaceSplit.Words | java/src/com/android/inputmethod/latin/EditingUtils.java:180 | The reference split: every run is non-empty and whitespace-free. |
| WhitespaceSplit.Gaps | java/src/com/android/inputmethod/latin/EditingUtils.java:158 | The whitespace around and between the runs: one more gap than there are runs. |
| WhitespaceSplit.WordsRebuild | java/src/com/android/inputmethod/latin/EditingUtils.java:158 | The runs are the text's maximal runs: interleaved with the gaps they rebuild the text, every gap is whitespace, and every gap between two runs is non-empty. |
| WhitespaceSplit.SplitVsWords | java/src/com/android/inputmethod/latin/EditingUtils.java:158 | Java's split is one empty piece for the empty input. An input that starts with whitespace and has a run gives one leading empty piece, then its runs. Any other input gives exactly its runs, so an all-whitespace input gives no pieces. |
| WhitespaceSplit.SplitWithoutSpace | java/src/com/android/inputmethod/latin/EditingUtils.java:180 | An input with no whitespace is its own only piece. |
| WhitespaceSplit.SplitWithoutLeadingSpace | java/src/com/android/inputmethod/latin/EditingUtils.java:180 | An input with whitespace that does not start with whitespace splits into exactly its runs, trailing empty pieces dropped. |
| WhitespaceSplit.SplitWithLeadingSpace | java/src/com/android/inputmethod/latin/EditingUtils.java:180 | An input starting with whitespace splits into a leading empty piece and its runs, or into nothing. |
| WhitespaceSplit.WordsOfJoin | java/src/com/android/inputmethod/latin/EditingUtils.java:180 | Splitting words joined by single spaces, with or without a trailing space, gives the words back. |
| EditingUtils.GetPreviousWord | java/src/com/android/inputmethod/latin/EditingUtils.java:178-190 | `getPreviousWord(prev, …)`: null for a null text; otherwise a found word is the second-to-last piece of the split, non-empty, and its last unit is not a sentence separator. See PreviousWordIsPreviousRun. |
| EditingUtils.PreviousPiece | java/src/com/android/inputmethod/latin/EditingUtils.java:183-189 | The guards of lines 183-187: a word is found exactly when there are two or more pieces and the second-to-last is non-empty and does not end in a sentence separator, and then it is that piece. |
| EditingUtils.GetThisWord | java/src/com/android/inputmethod/latin/EditingUtils.java:205-217 | `getThisWord(prev, …)`: null for a null text; otherwise a found word is the last piece of the split, non-empty, and its last unit is not a sentence separator. See ThisWordIsLastRun. |
| EditingUtils.ThisPiece | java/src/com/android/inputmethod/latin/EditingUtils.java:210-216 | The guards of lines 210-214: a word is found exactly when there is a piece and the last one is non-empty and does not end in a sentence separator, and then it is that piece. |
| EditingUtils.GuardsOnRuns | java/src/com/android/inputmethod/latin/EditingUtils.java:182-189 | On the runs, with or without one leading empty piece, the guards of both queries give the references: the empty-piece guard discards exactly the leading empty piece. |
| EditingUtils.PreviousWordIsPreviousRun | java/src/com/android/inputmethod/latin/EditingUtils.java:178-190 | `getPreviousWord` is the second-to-last maximal run of non-whitespace, or null when there are fewer than two runs or it ends in a sentence separator. |
| EditingUtils.ThisWordIsLastRun | java/src/com/android/inputmethod/latin/EditingUtils.java:205-217 | `getThisWord` is the last maximal run of non-whitespace, or null when there is none or it ends in a sentence separator. |
| EditingUtils.ReferencesAreRuns | java/src/com/android/inputmethod/latin/EditingUtils.java:183-189 | Either reference answer is one of the runs, non-empty, whitespace-free, and its last unit is not a sentence separator. |
| EditingUtils.AdjacentWordsAreRuns | java/src/com/android/inputmethod/latin/EditingUtils.java:178-217 | A word either query returns is a non-empty, whitespace-free run of the text that does not end in a sentence separator. |
| EditingUtilsExamples.QueriesOnSpacedWords | java/src/com/android/inputmethod/latin/EditingUtils.java:168-217 | On words joined by single spaces, the queries give the second-to-last and the last word, unless it ends in a sentence separator. |
| EditingUtilsExamples.PreviousWordOfTwoWords | java/src/com/android/inputmethod/latin/EditingUtils.java:171 | "abc def" gives abc. |
| EditingUtilsExamples.PreviousWordBeforeTrailingSpace | java/src/com/android/inputmethod/latin/EditingUtils.java:172 | "abc def " gives abc. |
| EditingUtilsExamples.PreviousWordBeforeSentenceEnd | java/src/com/android/inputmethod/latin/EditingUtils.java:173 | "abc def. " gives abc. |
| EditingUtilsExamples.PreviousWordBeforeLoneSeparator | java/src/com/android/inputmethod/latin/EditingUtils.java:174 | "abc def . " gives def. |
| EditingUtilsExamples.PreviousWordOfOneWord | java/src/com/android/inputmethod/latin/EditingUtils.java:175 | "abc" gives null. |
| EditingUtilsExamples.PreviousWordOfOneWordAndSpace | java/src/com/android/inputmethod/latin/EditingUtils.java:176 | "abc " gives null. |
| EditingUtilsExamples.PreviousWordEndingInSeparator | java/src/com/android/inputmethod/latin/EditingUtils.java:177 | "abc. def" gives null. |
| EditingUtilsExamples.ThisWordOfTwoWords | java/src/com/android/inputmethod/latin/EditingUtils.java:201 | "abc def" gives def. |
| EditingUtilsExamples.ThisWordBeforeTrailingSpace | java/src/com/android/inputmethod/latin/EditingUtils.java:202 | "abc def " gives def. |
| EditingUtilsExamples.ThisWordEndingInSeparator | java/src/com/android/inputmethod/latin/EditingUtils.java:203 | "abc def. " gives null. |
| EditingUtilsExamples.ThisWordIsLoneSeparator | java/src/com/android/inputmethod/latin/EditingUtils.java:204 | "abc def . " gives null. |
| EditingUtilsExamples.SkipBackOverPlain | java/src/com/android/inputmethod/latin/EditingUtils.java:113-122 | Over text with no separator and no surrogate, a word-skipping phase walks back to the start. |
| EditingUtilsExamples.ScanForwardOverPlain | java/src/com/android/inputmethod/latin/EditingUtils.java:133-142 | Over such text, the forward scan stops exactly at the first separator unit, provided that unit is not a high surrogate (a high surrogate could pair with the next unit). |
| EditingUtilsExamples.WordAtCursorOfPlainText | java/src/com/android/inputmethod/latin/EditingUtils.java:56-60 | In such text, the word at the cursor is all of the text before it and the text after it up to the first separator, which is left out. |
| EditingUtilsExamples.WordAtCursorOfHello | java/src/com/android/inputmethod/latin/EditingUtils.java:49-55 | "he\|llo world" with the space as separator gives "hello", not the "hello " the comment promises. |

## Left out

- `getCursorPosition` and `InputConnection` (lines 40-47, 102-103, 144):
  Android I/O. The texts before and after the cursor and the cursor position
  are inputs, in `TextSource`. `INVALID_CURSOR_POSITION` is the constant -1.
- The 1000-unit windows (lines 102-103) and `LOOKBACK_CHARACTER_NUM` (line 33):
  these only size what the connection returns, and `BinaryDictionary` is not
  part of this model. The texts may have any length.
- The connection-taking overloads of `getPreviousWord` and `getThisWord`
  (lines 160-166, 192-196): each returns null for a null connection (lines
  163 and 193), and otherwise only fetches the text before the cursor through
  the connection and calls the string form, which is modelled.
- The `java.util.regex` engine: only the fixed pattern `\s+` is modelled, as
  `WhitespaceSplit.Split`.
- `String.indexOf(int)` internals: separator membership is stated over code
  points. It is the unit for a BMP code point and the adjacent surrogate pair
  for a supplementary one.
- EditingUtils.GetPreviousWord, EditingUtils.GetThisWord: a `null`
  sentence-separator string is not modelled. Java throws
  `NullPointerException` there once a candidate word is found; the model
  always takes a separator string.
- EditingUtils.WordRangeAtCursor: the ghost `phases` counter counts outer-loop
  passes; Java has no such variable.
