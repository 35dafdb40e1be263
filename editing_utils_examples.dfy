/**
 * The worked examples of `EditingUtils`' comments, stated over the model. The
 * cursor sits at the end of the text passed to `getPreviousWord` and
 * `getThisWord`, and between `before` and `after` for the range scanner. Texts
 * are written as UTF-16 code units; the comment above each constant spells it.
 */
module EditingUtilsExamples {
  import opened Wrappers
  import opened Utf16
  import opened WhitespaceSplit
  import opened EditingUtils

  /** " " */
  const SPACE: Units := [0x20]
  /** "." */
  const DOT: Units := [0x2E]
  /** "abc" */
  const ABC: Units := [0x61, 0x62, 0x63]
  /** "def" */
  const DEF: Units := [0x64, 0x65, 0x66]
  /** "he" */
  const HE: Units := [0x68, 0x65]
  /** "llo world" */
  const LLO_WORLD: Units := [0x6C, 0x6C, 0x6F, 0x20, 0x77, 0x6F, 0x72, 0x6C, 0x64]
  /** "hello" */
  const HELLO: Units := [0x68, 0x65, 0x6C, 0x6C, 0x6F]
  /** "x y" */
  const X_Y: Units := [0x78, 0x20, 0x79]

  /**
   * On words joined by single spaces, optionally followed by one more space,
   * `getPreviousWord` is the second-to-last word unless it ends in a sentence
   * separator, and `getThisWord` is the last word under the same condition.
   */
  lemma QueriesOnSpacedWords(runs: seq<Units>, tail: Units, sentenceSeparators: Units)
    requires AreRuns(runs)
    requires tail == [] || tail == SPACE
    ensures GetPreviousWord(Some(Join(runs) + tail), sentenceSeparators) ==
      if |runs| < 2 || runs[|runs| - 2][|runs[|runs| - 2]| - 1] in sentenceSeparators then None
      else Some(runs[|runs| - 2])
    ensures GetThisWord(Some(Join(runs) + tail), sentenceSeparators) ==
      if |runs| < 1 || runs[|runs| - 1][|runs[|runs| - 1]| - 1] in sentenceSeparators then None
      else Some(runs[|runs| - 1])
  {
    var s := Join(runs) + tail;
    WordsOfJoin(runs, tail);
    PreviousWordIsPreviousRun(s, sentenceSeparators);
    ThisWordIsLastRun(s, sentenceSeparators);
    assert Words(s) == runs;
  }

  // "abc def|" -> abc
  lemma PreviousWordOfTwoWords()
    ensures GetPreviousWord(Some(ABC + SPACE + DEF), DOT) == Some(ABC)
  {
    assert ABC + SPACE + DEF == Join([ABC, DEF]) + [];
    QueriesOnSpacedWords([ABC, DEF], [], DOT);
  }

  // "abc def |" -> abc
  lemma PreviousWordBeforeTrailingSpace()
    ensures GetPreviousWord(Some(ABC + SPACE + DEF + SPACE), DOT) == Some(ABC)
  {
    assert ABC + SPACE + DEF + SPACE == Join([ABC, DEF]) + SPACE;
    QueriesOnSpacedWords([ABC, DEF], SPACE, DOT);
  }

  // "abc def. |" -> abc
  lemma PreviousWordBeforeSentenceEnd()
    ensures GetPreviousWord(Some(ABC + SPACE + DEF + DOT + SPACE), DOT) == Some(ABC)
  {
    assert ABC + SPACE + DEF + DOT + SPACE == Join([ABC, DEF + DOT]) + SPACE;
    QueriesOnSpacedWords([ABC, DEF + DOT], SPACE, DOT);
  }

  // "abc def . |" -> def
  lemma PreviousWordBeforeLoneSeparator()
    ensures GetPreviousWord(Some(ABC + SPACE + DEF + SPACE + DOT + SPACE), DOT) == Some(DEF)
  {
    assert [ABC, DEF, DOT][1..] == [DEF, DOT];
    assert Join([ABC, DEF, DOT]) == ABC + SPACE + Join([DEF, DOT]);
    assert ABC + SPACE + DEF + SPACE + DOT + SPACE == Join([ABC, DEF, DOT]) + SPACE;
    QueriesOnSpacedWords([ABC, DEF, DOT], SPACE, DOT);
  }

  // "abc|" -> null
  lemma PreviousWordOfOneWord()
    ensures GetPreviousWord(Some(ABC), DOT) == None
  {
    assert ABC == Join([ABC]) + [];
    QueriesOnSpacedWords([ABC], [], DOT);
  }

  // "abc |" -> null
  lemma PreviousWordOfOneWordAndSpace()
    ensures GetPreviousWord(Some(ABC + SPACE), DOT) == None
  {
    assert ABC + SPACE == Join([ABC]) + SPACE;
    QueriesOnSpacedWords([ABC], SPACE, DOT);
  }

  // "abc. def|" -> null
  lemma PreviousWordEndingInSeparator()
    ensures GetPreviousWord(Some(ABC + DOT + SPACE + DEF), DOT) == None
  {
    assert ABC + DOT + SPACE + DEF == Join([ABC + DOT, DEF]) + [];
    QueriesOnSpacedWords([ABC + DOT, DEF], [], DOT);
  }

  // "abc def|" -> def
  lemma ThisWordOfTwoWords()
    ensures GetThisWord(Some(ABC + SPACE + DEF), DOT) == Some(DEF)
  {
    assert ABC + SPACE + DEF == Join([ABC, DEF]) + [];
    QueriesOnSpacedWords([ABC, DEF], [], DOT);
  }

  // "abc def |" -> def
  lemma ThisWordBeforeTrailingSpace()
    ensures GetThisWord(Some(ABC + SPACE + DEF + SPACE), DOT) == Some(DEF)
  {
    assert ABC + SPACE + DEF + SPACE == Join([ABC, DEF]) + SPACE;
    QueriesOnSpacedWords([ABC, DEF], SPACE, DOT);
  }

  // "abc def. |" -> null
  lemma ThisWordEndingInSeparator()
    ensures GetThisWord(Some(ABC + SPACE + DEF + DOT + SPACE), DOT) == None
  {
    assert ABC + SPACE + DEF + DOT + SPACE == Join([ABC, DEF + DOT]) + SPACE;
    QueriesOnSpacedWords([ABC, DEF + DOT], SPACE, DOT);
  }

  // "abc def . |" -> null
  lemma ThisWordIsLoneSeparator()
    ensures GetThisWord(Some(ABC + SPACE + DEF + SPACE + DOT + SPACE), DOT) == None
  {
    assert [ABC, DEF, DOT][1..] == [DEF, DOT];
    assert Join([ABC, DEF, DOT]) == ABC + SPACE + Join([DEF, DOT]);
    assert ABC + SPACE + DEF + SPACE + DOT + SPACE == Join([ABC, DEF, DOT]) + SPACE;
    QueriesOnSpacedWords([ABC, DEF, DOT], SPACE, DOT);
  }

  // ---------------------------------------------------------------------------
  // The range scanner on text without surrogates

  /** Every unit of `s` is outside `sep` and is no surrogate. */
  predicate Plain(s: Units, sep: Units) {
    forall i :: 0 <= i < |s| ==> s[i] !in sep && !IsHighSurrogate(s[i]) && !IsLowSurrogate(s[i])
  }

  /** Over plain text a separator-stopping phase walks back to the start. */
  lemma {:induction false} SkipBackOverPlain(b: Units, sep: Units, hi: nat)
    requires hi <= |b| && Plain(b[..hi], sep)
    ensures SkipBack(b, sep, hi, true) == 0
    decreases hi
  {
    if hi > 0 {
      assert b[hi - 1] == b[..hi][hi - 1];
      SeparatorMembership(b[hi - 1] as int, sep);
      assert b[..hi - 1] == b[..hi][..hi - 1];
      SkipBackOverPlain(b, sep, hi - 1);
    }
  }

  /**
   * Over plain text the forward scan walks to the first separator unit that is
   * no high surrogate, or to the end of the text.
   */
  lemma {:induction false} ScanForwardOverPlain(a: Units, sep: Units, lo: nat, n: nat)
    requires lo <= n <= |a| && Plain(a[lo..n], sep)
    requires n < |a| ==> a[n] in sep && !IsHighSurrogate(a[n])
    ensures ScanForward(a, sep, lo) == n
    decreases n - lo
  {
    if lo < n {
      assert a[lo] == a[lo..n][0];
      SeparatorMembership(a[lo] as int, sep);
      assert a[lo + 1..n] == a[lo..n][1..];
      ScanForwardOverPlain(a, sep, lo + 1, n);
    } else if n < |a| {
      SeparatorMembership(a[n] as int, sep);
    }
  }

  /**
   * In plain text, `getWordAtCursor` is everything before the cursor followed
   * by everything after it up to the first separator, which is left out.
   */
  lemma WordAtCursorOfPlainText(b: Units, a: Units, n: nat, cursor: Int32, sep: Units)
    requires Plain(b, sep) && n <= |a| && Plain(a[..n], sep)
    requires n < |a| ==> a[n] in sep && !IsHighSurrogate(a[n])
    requires CursorConsistent(cursor, n, |b|, |a|)
    ensures WordAtCursor(Some(TextSource(Some(b), Some(a), cursor)), Some(sep)) == Some(b + a[..n])
  {
    assert b[..|b|] == b && a[0..n] == a[..n];
    SkipBackOverPlain(b, sep, |b|);
    ScanForwardOverPlain(a, sep, 0, n);
    assert Decrement(0) < 0;
    assert b[0..] == b;
  }

  /**
   * "he|llo world" with the space as separator: the word at the cursor is
   * "hello". The comment on `getWordAtCursor` promises "hello " (the word with
   * its trailing separator); the code stops before the separator.
   */
  lemma WordAtCursorOfHello()
    ensures WordAtCursor(Some(TextSource(Some(HE), Some(LLO_WORLD), 2)), Some(SPACE)) == Some(HELLO)
    ensures WordAtCursor(Some(TextSource(Some(HE), Some(LLO_WORLD), 2)), Some(SPACE)) != Some(HELLO + SPACE)
  {
    HelloIsPlain();
    WordAtCursorOfPlainText(HE, LLO_WORLD, 3, 2, SPACE);
  }

  /** "he" and "llo" hold no space and no surrogate, the space follows "llo", and together they are "hello". */
  lemma HelloIsPlain()
    ensures Plain(HE, SPACE) && Plain(LLO_WORLD[..3], SPACE)
    ensures LLO_WORLD[3] in SPACE && !IsHighSurrogate(LLO_WORLD[3])
    ensures CursorConsistent(2, 3, |HE|, |LLO_WORLD|)
    ensures HE + LLO_WORLD[..3] == HELLO
  {
    assert LLO_WORLD[..3] == [0x6C, 0x6C, 0x6F];
  }

  // ---------------------------------------------------------------------------
  // The preceding-word count at the least int

  /**
   * More preceding words need not mean an earlier start when the count is the
   * least int: `--additionalPrecedingWordsCount` wraps to the greatest int, so
   * on "x y|" with the space as separator the scan for `INT_MIN` runs on to the
   * start of the text, while the scan for `INT_MIN + 1` stops after "x ".
   */
  lemma ScanBackWrapsAtLeastInt()
    ensures ScanBack(X_Y, SPACE, 3, true, INT_MIN) == 0
    ensures ScanBack(X_Y, SPACE, 3, true, INT_MIN + 1) == 2
    ensures ScanBack(X_Y, SPACE, 3, true, INT_MIN) < ScanBack(X_Y, SPACE, 3, true, INT_MIN + 1)
  {
    XYPhases();
    assert Decrement(INT_MIN) == INT_MAX && Decrement(INT_MAX) >= 0 && Decrement(INT_MIN + 1) < 0;
    assert ScanBack(X_Y, SPACE, 0, true, Decrement(INT_MAX)) <= 0;
  }

  /** The three phases on "x y": back over "y", over the space, over "x". */
  lemma XYPhases()
    ensures SkipBack(X_Y, SPACE, 3, true) == 2
    ensures SkipBack(X_Y, SPACE, 2, false) == 1
    ensures SkipBack(X_Y, SPACE, 1, true) == 0
  {
    SeparatorMembership(X_Y[2] as int, SPACE);
    SeparatorMembership(X_Y[1] as int, SPACE);
    SeparatorMembership(X_Y[0] as int, SPACE);
  }
}
