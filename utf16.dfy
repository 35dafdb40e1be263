/**
 * UTF-16 as `java.lang.Character` sees it: encoding as in section 2.1 of
 * RFC 2781, and decoding like section 2.2 of RFC 2781, with an unpaired
 * surrogate passed through rather than rejected. Text is a sequence of 16-bit
 * code units; a high surrogate followed by a low surrogate stands for one
 * supplementary code point, and any other unit -- an unpaired surrogate
 * included -- stands for itself.
 */
module Utf16 {

  /** A UTF-16 code unit, Java's `char`. */
  newtype CodeUnit = x: int | 0 <= x < 0x1_0000

  /** A Java `String` or `CharSequence`: its code units in order. */
  type Units = seq<CodeUnit>

  predicate IsHighSurrogate(u: CodeUnit) { 0xD800 <= u <= 0xDBFF }

  predicate IsLowSurrogate(u: CodeUnit) { 0xDC00 <= u <= 0xDFFF }

  predicate IsValidCodePoint(cp: int) { 0 <= cp <= 0x10_FFFF }

  /** `Character.isSupplementaryCodePoint`: a code point that needs two code units. */
  predicate IsSupplementaryCodePoint(cp: int)
    ensures IsSupplementaryCodePoint(cp) ==> IsValidCodePoint(cp) && cp >= 0x1_0000
  {
    0x1_0000 <= cp <= 0x10_FFFF
  }

  /** A Unicode scalar value: a code point that is not a surrogate. */
  predicate IsScalarValue(cp: int) { IsValidCodePoint(cp) && !(0xD800 <= cp <= 0xDFFF) }

  /**
   * How far one step of a scan moves: two code units past a supplementary code
   * point, one past anything else (the `isSupplementaryCodePoint` test after
   * each step). Unlike `Character.charCount`, which answers two for every
   * value from 0x10000 up, this answers one above 0x10FFFF; the scans only
   * ever ask about decoded code points, which are at most 0x10FFFF.
   */
  function CharCount(cp: int): (n: nat)
    ensures n == 1 || n == 2
    ensures n == 2 <==> IsSupplementaryCodePoint(cp)
  {
    if IsSupplementaryCodePoint(cp) then 2 else 1
  }

  /** `Character.toCodePoint`: the code point a surrogate pair stands for. */
  function ToCodePoint(high: CodeUnit, low: CodeUnit): (cp: int)
    requires IsHighSurrogate(high) && IsLowSurrogate(low)
    ensures IsSupplementaryCodePoint(cp)
  {
    (high as int - 0xD800) * 0x400 + (low as int - 0xDC00) + 0x1_0000
  }

  /** `Character.highSurrogate`: the leading unit of a supplementary code point. */
  function HighSurrogate(cp: int): (u: CodeUnit)
    requires IsSupplementaryCodePoint(cp)
    ensures IsHighSurrogate(u)
  {
    ((cp - 0x1_0000) / 0x400 + 0xD800) as CodeUnit
  }

  /** `Character.lowSurrogate`: the trailing unit of a supplementary code point. */
  function LowSurrogate(cp: int): (u: CodeUnit)
    requires IsSupplementaryCodePoint(cp)
    ensures IsLowSurrogate(u)
  {
    ((cp - 0x1_0000) % 0x400 + 0xDC00) as CodeUnit
  }

  /** Splitting a supplementary code point into a pair and joining the pair gives it back. */
  lemma JoinSplitPair(cp: int)
    requires IsSupplementaryCodePoint(cp)
    ensures ToCodePoint(HighSurrogate(cp), LowSurrogate(cp)) == cp
  {
    var d := cp - 0x1_0000;
    assert d == (d / 0x400) * 0x400 + d % 0x400;
  }

  /** Joining a surrogate pair and splitting the code point gives the pair back. */
  lemma SplitJoinPair(high: CodeUnit, low: CodeUnit)
    requires IsHighSurrogate(high) && IsLowSurrogate(low)
    ensures HighSurrogate(ToCodePoint(high, low)) == high
    ensures LowSurrogate(ToCodePoint(high, low)) == low
  {
    var h, l := high as int - 0xD800, low as int - 0xDC00;
    var d := ToCodePoint(high, low) - 0x1_0000;
    assert d == h * 0x400 + l;
    assert 0 <= l < 0x400;
    assert d / 0x400 == h && d % 0x400 == l by {
      DivModUnique(d, h, l);
    }
  }

  lemma DivModUnique(d: int, q: int, r: int)
    requires 0 <= r < 0x400 && d == q * 0x400 + r
    ensures d / 0x400 == q && d % 0x400 == r
  {
  }

  /** `Character.toChars`: the code units that encode a code point. */
  function ToChars(cp: int): (us: Units)
    requires IsValidCodePoint(cp)
    ensures |us| == CharCount(cp)
    ensures !IsSupplementaryCodePoint(cp) ==> us == [cp as CodeUnit]
    ensures IsSupplementaryCodePoint(cp) ==> IsHighSurrogate(us[0]) && IsLowSurrogate(us[1])
  {
    if IsSupplementaryCodePoint(cp) then [HighSurrogate(cp), LowSurrogate(cp)] else [cp as CodeUnit]
  }

  /**
   * `Character.codePointAt(seq, i)`: the code point starting at unit `i`. A high
   * surrogate at `i` with a low surrogate after it gives the pair's code point;
   * anything else gives the unit at `i` itself.
   */
  function CodePointAt(s: Units, i: nat): (cp: int)
    requires i < |s|
    ensures IsValidCodePoint(cp)
    ensures IsSupplementaryCodePoint(cp) <==> i + 1 < |s| && IsHighSurrogate(s[i]) && IsLowSurrogate(s[i + 1])
    ensures !IsSupplementaryCodePoint(cp) ==> cp == s[i] as int
    ensures i + CharCount(cp) <= |s|
  {
    if IsHighSurrogate(s[i]) && i + 1 < |s| && IsLowSurrogate(s[i + 1]) then
      ToCodePoint(s[i], s[i + 1])
    else
      s[i] as int
  }

  /** The units `CodePointAt` reads are exactly the encoding of its result. */
  lemma CodePointAtEncodes(s: Units, i: nat)
    requires i < |s|
    ensures s[i .. i + CharCount(CodePointAt(s, i))] == ToChars(CodePointAt(s, i))
  {
    var cp := CodePointAt(s, i);
    if IsSupplementaryCodePoint(cp) {
      SplitJoinPair(s[i], s[i + 1]);
      assert ToChars(cp) == [s[i], s[i + 1]];
      assert s[i .. i + 2] == [s[i], s[i + 1]];
    } else {
      assert s[i .. i + 1] == [s[i]];
    }
  }

  /**
   * `Character.codePointBefore(seq, i)`: the code point ending just before unit
   * `i`. A low surrogate at `i - 1` with a high surrogate before it gives the
   * pair's code point; anything else gives the unit at `i - 1` itself.
   */
  function CodePointBefore(s: Units, i: nat): (cp: int)
    requires 0 < i <= |s|
    ensures IsValidCodePoint(cp)
    ensures IsSupplementaryCodePoint(cp) <==> 2 <= i && IsLowSurrogate(s[i - 1]) && IsHighSurrogate(s[i - 2])
    ensures !IsSupplementaryCodePoint(cp) ==> cp == s[i - 1] as int
    ensures CharCount(cp) <= i
  {
    if IsLowSurrogate(s[i - 1]) && 2 <= i && IsHighSurrogate(s[i - 2]) then
      ToCodePoint(s[i - 2], s[i - 1])
    else
      s[i - 1] as int
  }

  /** The units `CodePointBefore` reads are exactly the encoding of its result. */
  lemma CodePointBeforeEncodes(s: Units, i: nat)
    requires 0 < i <= |s|
    ensures s[i - CharCount(CodePointBefore(s, i)) .. i] == ToChars(CodePointBefore(s, i))
  {
    var cp := CodePointBefore(s, i);
    if IsSupplementaryCodePoint(cp) {
      SplitJoinPair(s[i - 2], s[i - 1]);
      assert ToChars(cp) == [s[i - 2], s[i - 1]];
      assert s[i - 2 .. i] == [s[i - 2], s[i - 1]];
    } else {
      assert s[i - 1 .. i] == [s[i - 1]];
    }
  }

  /**
   * Decoding undoes encoding for every Unicode scalar value, whatever text
   * surrounds it, in both directions.
   */
  lemma DecodeEncoded(cp: int, prefix: Units, suffix: Units)
    requires IsScalarValue(cp)
    ensures CodePointAt(prefix + ToChars(cp) + suffix, |prefix|) == cp
    ensures CodePointBefore(prefix + ToChars(cp) + suffix, |prefix| + CharCount(cp)) == cp
  {
    var s := prefix + ToChars(cp) + suffix;
    if IsSupplementaryCodePoint(cp) {
      assert s[|prefix|] == HighSurrogate(cp) && s[|prefix| + 1] == LowSurrogate(cp);
      JoinSplitPair(cp);
    } else {
      assert s[|prefix|] == cp as CodeUnit;
    }
  }

  /**
   * True when `s` is a position where a code-point walk may stand: not between
   * the two halves of a surrogate pair.
   */
  predicate OnCodePointBoundary(s: Units, i: nat)
    requires i <= |s|
  {
    !(0 < i < |s| && IsHighSurrogate(s[i - 1]) && IsLowSurrogate(s[i]))
  }

}
