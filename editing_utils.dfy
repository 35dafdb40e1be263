/**
 * The cursor word-context scanner of LatinIME's `EditingUtils`: given the text
 * an input connection reports before and after the cursor, find the word around
 * the cursor (optionally with some preceding words) together with how many code
 * units it takes up on each side of the cursor, and find the word before the
 * cursor or the one before that from a whitespace split of the preceding text.
 */
module EditingUtils {
  import opened Wrappers
  import opened Utf16
  import opened WhitespaceSplit

  // ---------------------------------------------------------------------------
  // Java's 32-bit int

  const INT_MIN: int := -0x8000_0000
  const INT_MAX: int := 0x7FFF_FFFF

  type Int32 = x: int | -0x8000_0000 <= x <= 0x7FFF_FFFF

  /** Java int arithmetic: the result taken modulo 2^32 into the int range. */
  function Wrap32(x: int): (r: Int32)
    ensures (r - x) % 0x1_0000_0000 == 0
    ensures INT_MIN <= x <= INT_MAX ==> r == x
  {
    (x + 0x8000_0000) % 0x1_0000_0000 - 0x8000_0000
  }

  /** Java's `--k` on an int: one less, except that the least int wraps to the greatest. */
  function Decrement(k: Int32): (r: Int32)
    ensures r < 0 <==> INT_MIN < k <= 0
  {
    if k == INT_MIN then INT_MAX else k - 1
  }

  /** `Decrement` is int subtraction of one. */
  lemma DecrementWraps(k: Int32)
    ensures Decrement(k) == Wrap32(k - 1)
  {
  }

  /** `getCursorPosition`'s answer when no position is available. */
  const INVALID_CURSOR_POSITION: Int32 := -1

  // ---------------------------------------------------------------------------
  // Range

  /**
   * A span of text relative to the cursor: `EditingUtils.Range`. Its only
   * constructor rejects negative counts, so both counts are natural numbers.
   */
  datatype Range = Range(charsBefore: nat, charsAfter: nat, word: Units)

  datatype Exception = IndexOutOfBoundsException

  /**
   * `new Range(charsBefore, charsAfter, word)`: throws when either count is
   * negative, so every range that exists has both counts non-negative.
   */
  function NewRange(charsBefore: int, charsAfter: int, word: Units): (r: Result<Range, Exception>)
    ensures r.Ok? <==> charsBefore >= 0 && charsAfter >= 0
    ensures r.Ok? ==> r.value.charsBefore >= 0 && r.value.charsAfter >= 0
    ensures r.Ok? ==> r.value == Range(charsBefore, charsAfter, word)
  {
    if charsBefore < 0 || charsAfter < 0 then Thrown(IndexOutOfBoundsException)
    else Ok(Range(charsBefore, charsAfter, word))
  }

  // ---------------------------------------------------------------------------
  // Separators

  /** The units of `w` stand in `sep` from position `i` on. */
  predicate OccursAt(w: Units, sep: Units, i: nat) {
    i + |w| <= |sep| && sep[i .. i + |w|] == w
  }

  /** `sep` contains the units of `w` contiguously somewhere. */
  predicate Occurs(w: Units, sep: Units) {
    exists i: nat | i <= |sep| :: OccursAt(w, sep, i)
  }

  /**
   * `isSeparator(code, sep)`, that is `sep.indexOf(code) != -1`: the code
   * point's UTF-16 encoding occurs in `sep`.
   */
  predicate IsSeparator(code: int, sep: Units)
    ensures IsSeparator(code, sep) ==> IsValidCodePoint(code) && CharCount(code) <= |sep|
  {
    IsValidCodePoint(code) && Occurs(ToChars(code), sep)
  }

  /**
   * What `indexOf` looks for: a code point below 0x10000 is found as that one
   * unit, a supplementary one as its surrogate pair, and nothing else is found.
   */
  lemma SeparatorMembership(code: int, sep: Units)
    ensures 0 <= code < 0x1_0000 ==> (IsSeparator(code, sep) <==> code as CodeUnit in sep)
    ensures IsSupplementaryCodePoint(code) ==>
      (IsSeparator(code, sep) <==>
       exists i | 0 <= i < |sep| - 1 :: sep[i] == HighSurrogate(code) && sep[i + 1] == LowSurrogate(code))
    ensures !IsValidCodePoint(code) ==> !IsSeparator(code, sep)
  {
    if 0 <= code < 0x1_0000 {
      if code as CodeUnit in sep {
        var i :| 0 <= i < |sep| && sep[i] == code as CodeUnit;
        assert sep[i .. i + 1] == [code as CodeUnit];
        assert OccursAt(ToChars(code), sep, i);
      }
      if IsSeparator(code, sep) {
        var i: nat :| i <= |sep| && OccursAt(ToChars(code), sep, i);
        assert sep[i] == sep[i .. i + 1][0];
      }
    } else if IsSupplementaryCodePoint(code) {
      var pair := [HighSurrogate(code), LowSurrogate(code)];
      assert ToChars(code) == pair;
      if exists i | 0 <= i < |sep| - 1 :: sep[i] == HighSurrogate(code) && sep[i + 1] == LowSurrogate(code) {
        var i :| 0 <= i < |sep| - 1 && sep[i] == HighSurrogate(code) && sep[i + 1] == LowSurrogate(code);
        assert sep[i .. i + 2] == pair;
        assert OccursAt(ToChars(code), sep, i);
      }
      if IsSeparator(code, sep) {
        var i: nat :| i <= |sep| && OccursAt(ToChars(code), sep, i);
        assert sep[i] == sep[i .. i + 2][0] && sep[i + 1] == sep[i .. i + 2][1];
      }
    }
  }

  // ---------------------------------------------------------------------------
  // The backward scan

  /**
   * `lo` is reached from `hi` by stepping backward over whole code points of
   * `b`, none of which stops a phase of kind `stopAtSep` (for a phase stopping
   * at separators these are non-separators, for the other kind separators).
   */
  ghost predicate BackRun(b: Units, sep: Units, lo: nat, hi: nat, stopAtSep: bool)
    requires hi <= |b|
    decreases hi
  {
    lo == hi ||
    (lo < hi &&
     var cp := CodePointBefore(b, hi);
     IsSeparator(cp, sep) != stopAtSep && BackRun(b, sep, lo, hi - CharCount(cp), stopAtSep))
  }

  /**
   * One phase of the backward scan (the inner loop): walk back from `start`
   * one code point at a time while the code point before the position does not
   * stop the phase.
   */
  function SkipBack(b: Units, sep: Units, start: nat, stopAtSep: bool): (r: nat)
    requires start <= |b|
    ensures r <= start
    decreases start
  {
    if start == 0 then 0
    else
      var cp := CodePointBefore(b, start);
      if stopAtSep == IsSeparator(cp, sep) then start
      else SkipBack(b, sep, start - CharCount(cp), stopAtSep)
  }

  /**
   * A phase stops at the furthest position a walk over non-stopping code
   * points reaches: at the start of the text or right after a code point that
   * stops the phase, and never between the halves of a surrogate pair.
   */
  lemma {:induction false} SkipBackStop(b: Units, sep: Units, start: nat, stopAtSep: bool)
    requires start <= |b|
    ensures var r := SkipBack(b, sep, start, stopAtSep);
      && BackRun(b, sep, r, start, stopAtSep)
      && (r == 0 || IsSeparator(CodePointBefore(b, r), sep) == stopAtSep)
      && (forall q: nat :: BackRun(b, sep, q, start, stopAtSep) ==> r <= q)
      && (r == start || OnCodePointBoundary(b, r))
    decreases start
  {
    if start > 0 {
      var cp := CodePointBefore(b, start);
      if stopAtSep != IsSeparator(cp, sep) {
        var next := start - CharCount(cp);
        SkipBackStop(b, sep, next, stopAtSep);
        var r := SkipBack(b, sep, next, stopAtSep);
        forall q: nat | BackRun(b, sep, q, start, stopAtSep)
          ensures r <= q
        {
          if q != start {
            assert BackRun(b, sep, q, next, stopAtSep);
          }
        }
        if r == next {
          StepBackLandsOnBoundary(b, start);
        }
      }
    }
  }

  /** One backward code-point step never lands between the halves of a surrogate pair. */
  lemma StepBackLandsOnBoundary(b: Units, i: nat)
    requires 0 < i <= |b|
    ensures OnCodePointBoundary(b, i - CharCount(CodePointBefore(b, i)))
  {
  }

  /**
   * How many phases the backward scan runs when it starts a separator-stopping
   * phase with counter `k`: `2k + 1` for `k >= 0`; one for a negative `k`, whose
   * decrement is already negative; and `2^32 + 1` for the least int, whose
   * decrement wraps to the greatest.
   */
  function PhaseCount(k: Int32): nat {
    if k >= 0 then 2 * k + 1 else if k == INT_MIN then 0x1_0000_0001 else 1
  }

  /** The phases still to run from a phase of kind `stopAtSep` with counter `k`. */
  function PhasesLeft(stopAtSep: bool, k: Int32): nat {
    if stopAtSep then PhaseCount(k) else 1 + PhaseCount(k)
  }

  /**
   * The whole backward scan (the outer loop) from `start`, in a phase of kind
   * `stopAtSep` with counter `k`: after each separator-stopping phase the
   * counter is decremented, and the scan ends once it is negative.
   */
  function ScanBack(b: Units, sep: Units, start: nat, stopAtSep: bool, k: Int32): (r: nat)
    requires start <= |b|
    ensures r <= start
    decreases PhasesLeft(stopAtSep, k)
  {
    var s := SkipBack(b, sep, start, stopAtSep);
    if stopAtSep && Decrement(k) < 0 then s
    else ScanBack(b, sep, s, !stopAtSep, if stopAtSep then Decrement(k) else k)
  }

  /** The backward scan never stops between the halves of a surrogate pair. */
  lemma {:induction false} ScanBackOnBoundary(b: Units, sep: Units, start: nat, stopAtSep: bool, k: Int32)
    requires start <= |b| && OnCodePointBoundary(b, start)
    ensures OnCodePointBoundary(b, ScanBack(b, sep, start, stopAtSep, k))
    decreases PhasesLeft(stopAtSep, k)
  {
    SkipBackStop(b, sep, start, stopAtSep);
    var s := SkipBack(b, sep, start, stopAtSep);
    if !(stopAtSep && Decrement(k) < 0) {
      ScanBackOnBoundary(b, sep, s, !stopAtSep, if stopAtSep then Decrement(k) else k);
    }
  }

  // ---------------------------------------------------------------------------
  // The forward scan

  /**
   * `hi` is reached from `lo` by stepping forward over whole code points of
   * `a`, none of them a separator.
   */
  ghost predicate ForwardRun(a: Units, sep: Units, lo: nat, hi: nat)
    requires lo <= |a|
    decreases |a| - lo
  {
    lo == hi ||
    (lo < hi && lo < |a| &&
     var cp := CodePointAt(a, lo);
     !IsSeparator(cp, sep) && ForwardRun(a, sep, lo + CharCount(cp), hi))
  }

  /**
   * The forward scan from `end`: step over code points while they are not
   * separators.
   */
  function ScanForward(a: Units, sep: Units, end: nat): (r: nat)
    requires end <= |a|
    ensures end <= r <= |a|
    decreases |a| - end
  {
    if end == |a| then end
    else
      var cp := CodePointAt(a, end);
      if IsSeparator(cp, sep) then end
      else ScanForward(a, sep, end + CharCount(cp))
  }

  /**
   * The forward scan stops at the furthest position a walk over non-separator
   * code points reaches: the end of the text or the start of a separator, and
   * never between the halves of a surrogate pair.
   */
  lemma {:induction false} ScanForwardStop(a: Units, sep: Units, end: nat)
    requires end <= |a|
    ensures var r := ScanForward(a, sep, end);
      && ForwardRun(a, sep, end, r)
      && (r < |a| ==> IsSeparator(CodePointAt(a, r), sep))
      && (forall q: nat :: ForwardRun(a, sep, end, q) ==> q <= r)
      && (r == end || OnCodePointBoundary(a, r))
    decreases |a| - end
  {
    if end < |a| {
      var cp := CodePointAt(a, end);
      if !IsSeparator(cp, sep) {
        var next := end + CharCount(cp);
        ScanForwardStop(a, sep, next);
        var r := ScanForward(a, sep, next);
        forall q: nat | ForwardRun(a, sep, end, q)
          ensures q <= r
        {
          if q != end {
            assert ForwardRun(a, sep, next, q);
          }
        }
        if r == next {
          StepForwardLandsOnBoundary(a, end);
        }
      }
    }
  }

  /** One forward code-point step never lands between the halves of a surrogate pair. */
  lemma StepForwardLandsOnBoundary(a: Units, i: nat)
    requires i < |a|
    ensures OnCodePointBoundary(a, i + CharCount(CodePointAt(a, i)))
  {
  }

  // ---------------------------------------------------------------------------
  // getWordRangeAtCursor and getWordAtCursor

  /**
   * What an input connection answers: the text before the cursor and after it
   * (each may be unavailable) and the absolute cursor position
   * (`INVALID_CURSOR_POSITION` when unknown).
   */
  datatype TextSource = TextSource(before: Option<Units>, after: Option<Units>, cursor: Int32)

  /** The consistency check `cursor + end <= after.length() + before.length()`, in int arithmetic. */
  predicate CursorConsistent(cursor: Int32, end: int, beforeLength: nat, afterLength: nat)
    ensures INT_MIN <= cursor + end <= INT_MAX && afterLength + beforeLength <= INT_MAX ==>
      (CursorConsistent(cursor, end, beforeLength, afterLength) <==> cursor + end <= afterLength + beforeLength)
  {
    Wrap32(cursor + end) <= Wrap32(afterLength + beforeLength)
  }

  /**
   * `getWordRangeAtCursor(connection, sep, k)` as a value: `None` for a null
   * connection, separator string or text window, or a failed cursor check;
   * otherwise the range from the backward scan's stop to the forward scan's.
   */
  function WordRange(connection: Option<TextSource>, sep: Option<Units>, k: Int32): (r: Option<Range>)
    ensures connection.None? || sep.None? || connection.value.before.None? || connection.value.after.None? ==> r.None?
    ensures r.Some? ==> |r.value.word| == r.value.charsBefore + r.value.charsAfter
    ensures r.Some? ==> r.value.charsBefore <= |connection.value.before.value| && r.value.charsAfter <= |connection.value.after.value|
  {
    if connection.None? || sep.None? then None
    else if connection.value.before.None? || connection.value.after.None? then None
    else
      var b, a, s := connection.value.before.value, connection.value.after.value, sep.value;
      var start := ScanBack(b, s, |b|, true, k);
      var end := ScanForward(a, s, 0);
      if CursorConsistent(connection.value.cursor, end, |b|, |a|) then
        match NewRange(|b| - start, end, b[start..] + a[..end])
        case Ok(range) => Some(range)
        case Thrown(_) => assert false; None
      else None
  }

  /**
   * The inner loop of `getWordRangeAtCursor`: one phase of the backward scan,
   * stepping back by two units over a surrogate pair.
   */
  method WalkBack(b: Units, s: Units, from: nat, isStoppingAtWhitespace: bool) returns (start: nat)
    requires from <= |b|
    ensures start == SkipBack(b, s, from, isStoppingAtWhitespace)
  {
    var pos: int := from;
    while pos > 0
      invariant 0 <= pos <= from
      invariant SkipBack(b, s, pos, isStoppingAtWhitespace) == SkipBack(b, s, from, isStoppingAtWhitespace)
      decreases pos
    {
      var codePoint := CodePointBefore(b, pos);
      if isStoppingAtWhitespace == IsSeparator(codePoint, s) {
        break;
      }
      pos := pos - 1;
      if IsSupplementaryCodePoint(codePoint) {
        pos := pos - 1;
      }
    }
    start := pos;
  }

  /**
   * The outer loop of `getWordRangeAtCursor`: alternate the two kinds of phase,
   * decrementing the counter after each separator-stopping phase, until it is
   * negative. `phases` counts the passes.
   */
  method FindWordStart(b: Units, s: Units, additionalPrecedingWordsCount: Int32) returns (start: nat, ghost phases: nat)
    ensures start == ScanBack(b, s, |b|, true, additionalPrecedingWordsCount)
    ensures phases == PhaseCount(additionalPrecedingWordsCount)
  {
    var count := additionalPrecedingWordsCount;
    start := |b|;
    phases := 0;
    var isStoppingAtWhitespace := true;
    while true
      invariant start <= |b|
      invariant ScanBack(b, s, start, isStoppingAtWhitespace, count) == ScanBack(b, s, |b|, true, additionalPrecedingWordsCount)
      invariant phases + PhasesLeft(isStoppingAtWhitespace, count) == PhaseCount(additionalPrecedingWordsCount)
      decreases PhasesLeft(isStoppingAtWhitespace, count)
    {
      start := WalkBack(b, s, start, isStoppingAtWhitespace);
      phases := phases + 1;
      if isStoppingAtWhitespace {
        count := Decrement(count);
        if count < 0 {
          break;
        }
      }
      isStoppingAtWhitespace := !isStoppingAtWhitespace;
    }
  }

  /**
   * The forward loop of `getWordRangeAtCursor`: step over code points until a
   * separator or the end of the text.
   */
  method FindWordEnd(a: Units, s: Units) returns (end: nat)
    ensures end == ScanForward(a, s, 0)
  {
    var pos: int := 0;
    while pos < |a|
      invariant 0 <= pos <= |a|
      invariant ScanForward(a, s, pos) == ScanForward(a, s, 0)
      decreases |a| - pos
    {
      var codePoint := CodePointAt(a, pos);
      if IsSeparator(codePoint, s) {
        break;
      }
      if IsSupplementaryCodePoint(codePoint) {
        pos := pos + 1;
      }
      pos := pos + 1;
    }
    end := pos;
  }

  /**
   * `getWordRangeAtCursor(connection, sep, additionalPrecedingWordsCount)`.
   * `phases` counts the passes of the backward scan's outer loop.
   */
  method WordRangeAtCursor(connection: Option<TextSource>, sep: Option<Units>, additionalPrecedingWordsCount: Int32)
    returns (r: Option<Range>, ghost phases: nat)
    ensures r == WordRange(connection, sep, additionalPrecedingWordsCount)
    ensures connection.Some? && sep.Some? && connection.value.before.Some? && connection.value.after.Some? ==>
      phases == PhaseCount(additionalPrecedingWordsCount)
  {
    phases := 0;
    if connection.None? || sep.None? {
      return None, phases;
    }
    var before, after := connection.value.before, connection.value.after;
    if before.None? || after.None? {
      return None, phases;
    }
    var b, a, s := before.value, after.value, sep.value;
    var start;
    start, phases := FindWordStart(b, s, additionalPrecedingWordsCount);
    var end := FindWordEnd(a, s);
    var cursor := connection.value.cursor;
    if start >= 0 && CursorConsistent(cursor, end, |b|, |a|) {
      var made := NewRange(|b| - start, end, b[start..] + a[..end]);
      match made
      case Ok(range) =>
        r := Some(range);
      case Thrown(_) =>
        assert false;
    } else {
      r := None;
    }
  }

  /** `getWordAtCursor`: the word of the range with no additional preceding words. */
  function WordAtCursor(connection: Option<TextSource>, sep: Option<Units>): (w: Option<Units>)
    ensures w.Some? <==> WordRange(connection, sep, 0).Some?
    ensures w.Some? ==> |w.value| == WordRange(connection, sep, 0).value.charsBefore + WordRange(connection, sep, 0).value.charsAfter
  {
    var r := WordRange(connection, sep, 0);
    if r.None? then None else Some(r.value.word)
  }

  // ---------------------------------------------------------------------------
  // getPreviousWord and getThisWord

  /**
   * `getPreviousWord(prev, sentenceSeparators)`: `null` for a `null` text,
   * otherwise the guard on the pieces of its whitespace split.
   */
  function GetPreviousWord(prev: Option<Units>, sentenceSeparators: Units): (r: Option<Units>)
    ensures prev.None? ==> r.None?
    ensures r.Some? ==> |Split(prev.value)| >= 2 && r.value == Split(prev.value)[|Split(prev.value)| - 2]
    ensures r.Some? ==> r.value != [] && r.value[|r.value| - 1] !in sentenceSeparators
  {
    if prev.None? then None else PreviousPiece(Split(prev.value), sentenceSeparators)
  }

  /**
   * The guard of `getPreviousWord` on the split `w`: the second-to-last piece,
   * unless there are fewer than two pieces, that piece is empty, or its last
   * unit is a sentence separator.
   */
  function PreviousPiece(w: seq<Units>, sentenceSeparators: Units): (r: Option<Units>)
    ensures r.Some? <==> |w| >= 2 && w[|w| - 2] != [] && w[|w| - 2][|w[|w| - 2]| - 1] !in sentenceSeparators
    ensures r.Some? ==> r.value == w[|w| - 2]
  {
    if |w| < 2 || |w[|w| - 2]| <= 0 then None
    else if w[|w| - 2][|w[|w| - 2]| - 1] in sentenceSeparators then None
    else Some(w[|w| - 2])
  }

  /**
   * `getThisWord(prev, sentenceSeparators)`: `null` for a `null` text,
   * otherwise the guard on the pieces of its whitespace split.
   */
  function GetThisWord(prev: Option<Units>, sentenceSeparators: Units): (r: Option<Units>)
    ensures prev.None? ==> r.None?
    ensures r.Some? ==> |Split(prev.value)| >= 1 && r.value == Split(prev.value)[|Split(prev.value)| - 1]
    ensures r.Some? ==> r.value != [] && r.value[|r.value| - 1] !in sentenceSeparators
  {
    if prev.None? then None else ThisPiece(Split(prev.value), sentenceSeparators)
  }

  /**
   * The guard of `getThisWord` on the split `w`: the last piece, unless there
   * is none, it is empty, or its last unit is a sentence separator.
   */
  function ThisPiece(w: seq<Units>, sentenceSeparators: Units): (r: Option<Units>)
    ensures r.Some? <==> |w| >= 1 && w[|w| - 1] != [] && w[|w| - 1][|w[|w| - 1]| - 1] !in sentenceSeparators
    ensures r.Some? ==> r.value == w[|w| - 1]
  {
    if |w| < 1 || |w[|w| - 1]| <= 0 then None
    else if w[|w| - 1][|w[|w| - 1]| - 1] in sentenceSeparators then None
    else Some(w[|w| - 1])
  }

  /**
   * The reference for `getPreviousWord` on the runs `ws`: the second-to-last
   * run, unless there are fewer than two runs or it ends in a sentence
   * separator.
   */
  function PreviousRunOf(ws: seq<Units>, sentenceSeparators: Units): Option<Units>
    requires AreRuns(ws)
  {
    if |ws| < 2 then None
    else
      var t := ws[|ws| - 2];
      if t[|t| - 1] in sentenceSeparators then None else Some(t)
  }

  /**
   * The reference for `getThisWord` on the runs `ws`: the last run, unless
   * there is none or it ends in a sentence separator.
   */
  function LastRunOf(ws: seq<Units>, sentenceSeparators: Units): Option<Units>
    requires AreRuns(ws)
  {
    if |ws| < 1 then None
    else
      var t := ws[|ws| - 1];
      if t[|t| - 1] in sentenceSeparators then None else Some(t)
  }

  /** The reference for `getPreviousWord` on the maximal runs of non-whitespace of `s`. */
  function PreviousRun(s: Units, sentenceSeparators: Units): Option<Units> {
    PreviousRunOf(Words(s), sentenceSeparators)
  }

  /** The reference for `getThisWord` on the maximal runs of non-whitespace of `s`. */
  function LastRun(s: Units, sentenceSeparators: Units): Option<Units> {
    LastRunOf(Words(s), sentenceSeparators)
  }

  // ---------------------------------------------------------------------------
  // Properties of the word range

  /**
   * With every input present, the scanner gives a range exactly when the
   * cursor check passes: the `Range` constructor never throws here, and the
   * `start >= 0` guard always holds.
   */
  lemma WordRangePresent(b: Units, a: Units, cursor: Int32, sep: Units, k: Int32)
    ensures WordRange(Some(TextSource(Some(b), Some(a), cursor)), Some(sep), k).Some? <==>
      CursorConsistent(cursor, ScanForward(a, sep, 0), |b|, |a|)
  {
  }

  /**
   * When the cursor check passes, which is exactly when a range is found
   * (`WordRangePresent`), the range is the span around the cursor it claims
   * to be: both counts
   * are non-negative and within their windows, the word is the last
   * `charsBefore` units before the cursor followed by the first `charsAfter`
   * units after it, so its length is their sum, and neither end of the span
   * splits a surrogate pair.
   */
  lemma WordRangeSpan(b: Units, a: Units, cursor: Int32, sep: Units, k: Int32)
    requires CursorConsistent(cursor, ScanForward(a, sep, 0), |b|, |a|)
    ensures var r := WordRange(Some(TextSource(Some(b), Some(a), cursor)), Some(sep), k).value;
      && 0 <= r.charsBefore <= |b| && 0 <= r.charsAfter <= |a|
      && r.word == b[|b| - r.charsBefore..] + a[..r.charsAfter]
      && |r.word| == r.charsBefore + r.charsAfter
      && OnCodePointBoundary(b, |b| - r.charsBefore)
      && OnCodePointBoundary(a, r.charsAfter)
  {
    var start := ScanBack(b, sep, |b|, true, k);
    var end := ScanForward(a, sep, 0);
    ScanBackOnBoundary(b, sep, |b|, true, k);
    ScanForwardStop(a, sep, 0);
    assert WordRange(Some(TextSource(Some(b), Some(a), cursor)), Some(sep), k) == Some(Range(|b| - start, end, b[start..] + a[..end]));
    assert |b| - (|b| - start) == start;
  }

  /**
   * The forward part of a range runs over non-separator code points only and
   * is as long as it can be: it ends at the end of the window or just before a
   * separator, which is not part of the word.
   */
  lemma WordRangeForwardPart(b: Units, a: Units, cursor: Int32, sep: Units, k: Int32)
    requires WordRange(Some(TextSource(Some(b), Some(a), cursor)), Some(sep), k).Some?
    ensures var n := WordRange(Some(TextSource(Some(b), Some(a), cursor)), Some(sep), k).value.charsAfter;
      && ForwardRun(a, sep, 0, n)
      && (n == |a| || IsSeparator(CodePointAt(a, n), sep))
      && (forall q: nat :: ForwardRun(a, sep, 0, q) ==> q <= n)
  {
    ScanForwardStop(a, sep, 0);
  }

  /**
   * With no additional preceding words the backward scan runs one phase: its
   * stop is the start of the longest separator-free stretch of code points
   * ending at the cursor, at the start of the window or right after a
   * separator.
   */
  lemma OneWordStart(b: Units, sep: Units)
    ensures var start := ScanBack(b, sep, |b|, true, 0);
      && BackRun(b, sep, start, |b|, true)
      && (start == 0 || IsSeparator(CodePointBefore(b, start), sep))
      && (forall q: nat :: BackRun(b, sep, q, |b|, true) ==> start <= q)
  {
    assert Decrement(0) < 0;
    SkipBackStop(b, sep, |b|, true);
  }

  /** Asking for one more preceding word never moves the backward scan's stop later. */
  lemma {:induction false} ScanBackMonotone(b: Units, sep: Units, start: nat, stopAtSep: bool, k: Int32)
    requires start <= |b| && INT_MIN < k < INT_MAX
    ensures ScanBack(b, sep, start, stopAtSep, k + 1) <= ScanBack(b, sep, start, stopAtSep, k)
    decreases PhasesLeft(stopAtSep, k), 1
  {
    if stopAtSep {
      WordPhaseMonotone(b, sep, start, k);
    } else {
      var s := SkipBack(b, sep, start, false);
      assert ScanBack(b, sep, start, false, k + 1) == ScanBack(b, sep, s, true, k + 1);
      assert ScanBack(b, sep, start, false, k) == ScanBack(b, sep, s, true, k);
      WordPhaseMonotone(b, sep, s, k);
    }
  }

  /** `ScanBackMonotone` for a scan that starts with a separator-stopping phase. */
  lemma {:induction false} WordPhaseMonotone(b: Units, sep: Units, start: nat, k: Int32)
    requires start <= |b| && INT_MIN < k < INT_MAX
    ensures ScanBack(b, sep, start, true, k + 1) <= ScanBack(b, sep, start, true, k)
    decreases PhasesLeft(true, k), 0
  {
    var s := SkipBack(b, sep, start, true);
    if k >= 1 {
      assert Decrement(k + 1) == k && Decrement(k) == k - 1;
      assert ScanBack(b, sep, start, true, k + 1) == ScanBack(b, sep, s, false, k);
      assert ScanBack(b, sep, start, true, k) == ScanBack(b, sep, s, false, k - 1);
      ScanBackMonotone(b, sep, s, false, k - 1);
    } else if k == 0 {
      assert ScanBack(b, sep, start, true, 1) == ScanBack(b, sep, s, false, 0);
    }
  }

  /**
   * Asking for one more preceding word keeps whether a range is found, and
   * `charsBefore` never shrinks.
   */
  lemma CharsBeforeMonotone(connection: Option<TextSource>, sep: Option<Units>, k: Int32)
    requires INT_MIN < k < INT_MAX
    ensures WordRange(connection, sep, k + 1).Some? <==> WordRange(connection, sep, k).Some?
    ensures WordRange(connection, sep, k).Some? ==>
      WordRange(connection, sep, k).value.charsBefore <= WordRange(connection, sep, k + 1).value.charsBefore
  {
    if connection.Some? && sep.Some? && connection.value.before.Some? && connection.value.after.Some? {
      ScanBackMonotone(connection.value.before.value, sep.value, |connection.value.before.value|, true, k);
    }
  }

  /**
   * An unknown cursor position does not make the scanner give up: with the
   * invalid position -1 the cursor check always passes.
   */
  lemma InvalidCursorIsNotRejected(b: Units, a: Units, sep: Units, k: Int32)
    requires |a| + |b| <= INT_MAX
    ensures WordRange(Some(TextSource(Some(b), Some(a), INVALID_CURSOR_POSITION)), Some(sep), k).Some?
  {
    var end := ScanForward(a, sep, 0);
    assert CursorConsistent(INVALID_CURSOR_POSITION, end, |b|, |a|);
  }

  /**
   * `getWordAtCursor` is the word of the one-word range: absent exactly when
   * that range is, and otherwise the longest separator-free stretch ending at
   * the cursor followed by the longest separator-free stretch starting there;
   * no separator after the cursor is included.
   */
  lemma WordAtCursorSpan(b: Units, a: Units, cursor: Int32, sep: Units) returns (start: nat, end: nat)
    ensures var w := WordAtCursor(Some(TextSource(Some(b), Some(a), cursor)), Some(sep));
      && start <= |b| && end <= |a|
      && BackRun(b, sep, start, |b|, true)
      && (forall q: nat :: BackRun(b, sep, q, |b|, true) ==> start <= q)
      && ForwardRun(a, sep, 0, end)
      && (forall q: nat :: ForwardRun(a, sep, 0, q) ==> q <= end)
      && (w.Some? <==> WordRange(Some(TextSource(Some(b), Some(a), cursor)), Some(sep), 0).Some?)
      && (w.Some? ==> w.value == b[start..] + a[..end])
  {
    start := ScanBack(b, sep, |b|, true, 0);
    end := ScanForward(a, sep, 0);
    OneWordStart(b, sep);
    ScanForwardStop(a, sep, 0);
  }

  // ---------------------------------------------------------------------------
  // Properties of the adjacent-word queries

  /**
   * On the runs, with or without one leading empty piece, both guards give
   * the references: the empty-piece guard discards exactly the leading empty
   * piece Java's split keeps.
   */
  lemma GuardsOnRuns(ws: seq<Units>, sentenceSeparators: Units)
    requires AreRuns(ws)
    ensures PreviousPiece(ws, sentenceSeparators) == PreviousRunOf(ws, sentenceSeparators)
    ensures PreviousPiece([[]] + ws, sentenceSeparators) == PreviousRunOf(ws, sentenceSeparators)
    ensures ThisPiece(ws, sentenceSeparators) == LastRunOf(ws, sentenceSeparators)
    ensures ThisPiece([[]] + ws, sentenceSeparators) == LastRunOf(ws, sentenceSeparators)
  {
    var w: seq<Units> := [[]] + ws;
    assert |w| == |ws| + 1;
    if |ws| >= 2 {
      assert w[|w| - 2] == ws[|ws| - 2];
    } else if |ws| == 1 {
      assert w[|w| - 2] == [];
    }
    if |ws| >= 1 {
      assert w[|w| - 1] == ws[|ws| - 1];
    } else {
      assert w[|w| - 1] == [];
    }
  }

  /** `getPreviousWord` on a text equals the reference on its maximal runs. */
  lemma PreviousWordIsPreviousRun(s: Units, sentenceSeparators: Units)
    ensures GetPreviousWord(Some(s), sentenceSeparators) == PreviousRun(s, sentenceSeparators)
  {
    SplitVsWords(s);
    GuardsOnRuns(Words(s), sentenceSeparators);
  }

  /** `getThisWord` on a text equals the reference on its maximal runs. */
  lemma ThisWordIsLastRun(s: Units, sentenceSeparators: Units)
    ensures GetThisWord(Some(s), sentenceSeparators) == LastRun(s, sentenceSeparators)
  {
    SplitVsWords(s);
    GuardsOnRuns(Words(s), sentenceSeparators);
  }

  /** The answer of either reference is a run of the text that does not end in a sentence separator. */
  lemma ReferencesAreRuns(ws: seq<Units>, sentenceSeparators: Units)
    requires AreRuns(ws)
    ensures var r := PreviousRunOf(ws, sentenceSeparators);
      r.Some? ==>
        r.value in ws && r.value != [] && NoWhitespace(r.value) && r.value[|r.value| - 1] !in sentenceSeparators
    ensures var r := LastRunOf(ws, sentenceSeparators);
      r.Some? ==>
        r.value in ws && r.value != [] && NoWhitespace(r.value) && r.value[|r.value| - 1] !in sentenceSeparators
  {
    if |ws| >= 2 {
      assert ws[|ws| - 2] in ws;
    }
    if |ws| >= 1 {
      assert ws[|ws| - 1] in ws;
    }
  }

  /**
   * A word either query finds is a non-empty, whitespace-free run of the
   * text whose last unit is not a sentence separator.
   */
  lemma AdjacentWordsAreRuns(s: Units, sentenceSeparators: Units)
    ensures var r := GetPreviousWord(Some(s), sentenceSeparators);
      r.Some? ==>
        r.value in Words(s) && r.value != [] && NoWhitespace(r.value) && r.value[|r.value| - 1] !in sentenceSeparators
    ensures var r := GetThisWord(Some(s), sentenceSeparators);
      r.Some? ==>
        r.value in Words(s) && r.value != [] && NoWhitespace(r.value) && r.value[|r.value| - 1] !in sentenceSeparators
  {
    PreviousWordIsPreviousRun(s, sentenceSeparators);
    ThisWordIsLastRun(s, sentenceSeparators);
    ReferencesAreRuns(Words(s), sentenceSeparators);
  }
}
