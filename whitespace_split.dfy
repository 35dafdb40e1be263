/**
 * `Pattern.compile("\\s+").split(input)` of java.util.regex, written out for
 * that one pattern: the input is cut at every maximal run of whitespace
 * (`\s` is space, tab, line feed, vertical tab, form feed and carriage
 * return), a leading empty piece is kept, trailing empty pieces are dropped,
 * and an input with no whitespace at all is returned as the only piece.
 */
module WhitespaceSplit {
  import opened Utf16

  /**
   * Java's regular-expression class `\s`: space, tab, line feed, vertical
   * tab, form feed and carriage return. All are ASCII, so a cut never falls
   * inside a surrogate pair.
   */
  predicate IsWhitespace(u: CodeUnit)
    ensures IsWhitespace(u) ==> u < 0x80 && !IsHighSurrogate(u) && !IsLowSurrogate(u)
  {
    u == 0x20 || u == 0x09 || u == 0x0A || u == 0x0B || u == 0x0C || u == 0x0D
  }

  predicate NoWhitespace(s: Units) {
    forall i :: 0 <= i < |s| ==> !IsWhitespace(s[i])
  }

  predicate AllWhitespace(s: Units) {
    forall i :: 0 <= i < |s| ==> IsWhitespace(s[i])
  }

  /** Length of the longest whitespace prefix of `s`. */
  function LeadingSpace(s: Units): (n: nat)
    ensures n <= |s| && AllWhitespace(s[..n])
    ensures n < |s| ==> !IsWhitespace(s[n])
  {
    if s != [] && IsWhitespace(s[0]) then 1 + LeadingSpace(s[1..]) else 0
  }

  /** Length of the longest whitespace-free prefix of `s`. */
  function LeadingWord(s: Units): (n: nat)
    ensures n <= |s| && NoWhitespace(s[..n])
    ensures n < |s| ==> IsWhitespace(s[n])
  {
    if s != [] && !IsWhitespace(s[0]) then 1 + LeadingWord(s[1..]) else 0
  }

  /**
   * The pieces between the maximal whitespace runs of `s`, before any
   * trimming: one more piece than there are runs.
   */
  function Pieces(s: Units): (ps: seq<Units>)
    ensures |ps| >= 1 && ps[0] == s[..LeadingWord(s)]
    decreases |s|
  {
    var n := LeadingWord(s);
    if n == |s| then [s]
    else
      var rest := s[n..];
      [s[..n]] + Pieces(rest[LeadingSpace(rest)..])
  }

  /** The sequence without its trailing empty elements. */
  function DropTrailingEmpty(ps: seq<Units>): (r: seq<Units>)
    ensures |r| <= |ps| && r == ps[..|r|]
    ensures r != [] ==> r[|r| - 1] != []
    ensures forall i :: |r| <= i < |ps| ==> ps[i] == []
  {
    if ps != [] && ps[|ps| - 1] == [] then DropTrailingEmpty(ps[..|ps| - 1]) else ps
  }

  /** `spaceRegex.split(s)`: Java's split with limit 0. */
  function Split(s: Units): (ps: seq<Units>)
    ensures |ps| <= |Pieces(s)| && ps == Pieces(s)[..|ps|]
    ensures forall i :: |ps| <= i < |Pieces(s)| ==> Pieces(s)[i] == []
  {
    if LeadingWord(s) == |s| then [s] else DropTrailingEmpty(Pieces(s))
  }

  /** Every element is a non-empty, whitespace-free run. */
  predicate AreRuns(ws: seq<Units>) {
    forall i :: 0 <= i < |ws| ==> ws[i] != [] && NoWhitespace(ws[i])
  }

  /**
   * The independent reference: the maximal non-empty whitespace-free runs of
   * `s`, in order.
   */
  function Words(s: Units): (ws: seq<Units>)
    ensures forall i :: 0 <= i < |ws| ==> ws[i] != [] && NoWhitespace(ws[i])
    decreases |s|
  {
    var t := s[LeadingSpace(s)..];
    if t == [] then []
    else
      var n := LeadingWord(t);
      [t[..n]] + Words(t[n..])
  }

  /** Leading whitespace does not change the runs. */
  lemma {:induction false} WordsSkipSpace(s: Units, k: nat)
    requires k <= |s| && AllWhitespace(s[..k])
    ensures Words(s[k..]) == Words(s)
  {
    if k > 0 {
      SpaceTail(s, k);
      WordsSkipSpace(s[1..], k - 1);
      WordsDropSpace(s);
    }
  }

  /** The step of `WordsSkipSpace`: the first unit is whitespace, and so is the rest of the prefix. */
  lemma SpaceTail(s: Units, k: nat)
    requires 0 < k <= |s| && AllWhitespace(s[..k])
    ensures IsWhitespace(s[0]) && AllWhitespace(s[1..][..k - 1]) && s[1..][k - 1..] == s[k..]
  {
    assert s[0] == s[..k][0];
    assert s[1..][..k - 1] == s[..k][1..];
  }

  /** One leading whitespace unit does not change the runs. */
  lemma WordsDropSpace(s: Units)
    requires s != [] && IsWhitespace(s[0])
    ensures Words(s) == Words(s[1..])
  {
    assert LeadingSpace(s) == 1 + LeadingSpace(s[1..]);
    assert s[LeadingSpace(s)..] == s[1..][LeadingSpace(s[1..])..];
  }

  /** `n` empty pieces. */
  function Empties(n: nat): seq<Units> {
    seq(n, _ => [])
  }

  predicate EndsInSpaceOrEmpty(s: Units) {
    s == [] || IsWhitespace(s[|s| - 1])
  }

  /**
   * Without leading whitespace, the pieces are the runs, plus one empty piece
   * when the input is empty or ends in whitespace.
   */
  lemma {:induction false} PiecesAreWords(s: Units)
    requires s == [] || !IsWhitespace(s[0])
    ensures Pieces(s) == Words(s) + Empties(if EndsInSpaceOrEmpty(s) then 1 else 0)
    decreases |s|
  {
    var n := LeadingWord(s);
    if n < |s| {
      var rest := s[n..];
      var t := rest[LeadingSpace(rest)..];
      PiecesAreWords(t);
      PiecesAfterFirstRun(s);
    } else {
      assert s[..n] == s;
      WordsOfRun(s);
      if s == [] {
        assert Empties(1) == [[]];
      }
    }
  }

  /** The step of `PiecesAreWords`: the first run, then the pieces after the whitespace that follows it. */
  lemma PiecesAfterFirstRun(s: Units)
    requires s != [] && !IsWhitespace(s[0]) && LeadingWord(s) < |s|
    requires var rest := s[LeadingWord(s)..]; var t := rest[LeadingSpace(rest)..];
      Pieces(t) == Words(t) + Empties(if EndsInSpaceOrEmpty(t) then 1 else 0)
    ensures Pieces(s) == Words(s) + Empties(if EndsInSpaceOrEmpty(s) then 1 else 0)
  {
    var n := LeadingWord(s);
    var rest := s[n..];
    var t := rest[LeadingSpace(rest)..];
    var e := if EndsInSpaceOrEmpty(t) then 1 else 0;
    assert Pieces(s) == [s[..n]] + (Words(t) + Empties(e));
    WordsAfterFirstRun(s);
    EndAfterFirstRun(s);
    AppendAssociative([s[..n]], Words(t), Empties(e));
  }

  /** The runs of a text that does not start with whitespace: its first run, then the runs after the whitespace that follows it. */
  lemma WordsAfterFirstRun(s: Units)
    requires s != [] && !IsWhitespace(s[0]) && LeadingWord(s) < |s|
    ensures var rest := s[LeadingWord(s)..];
      Words(s) == [s[..LeadingWord(s)]] + Words(rest[LeadingSpace(rest)..])
  {
    var n := LeadingWord(s);
    var rest := s[n..];
    SplitAt(s, n);
    assert rest[0] == s[n];
    WordsOfRunThen(s[..n], rest);
    WordsSkipSpace(rest, LeadingSpace(rest));
  }

  /** Whether a text ends in whitespace is decided after its first run and the whitespace that follows it. */
  lemma EndAfterFirstRun(s: Units)
    requires LeadingWord(s) < |s|
    ensures var rest := s[LeadingWord(s)..];
      EndsInSpaceOrEmpty(s) == EndsInSpaceOrEmpty(rest[LeadingSpace(rest)..])
  {
    var n := LeadingWord(s);
    var rest := s[n..];
    var m := LeadingSpace(rest);
    SplitAt(s, n);
    EndOfAppend(s[..n], rest);
    SplitAt(rest, m);
    EndOfAppend(rest[..m], rest[m..]);
    assert rest[0] == s[n];
    assert rest[..m][m - 1] == rest[m - 1];
  }

  lemma EndOfAppend(u: Units, v: Units)
    ensures EndsInSpaceOrEmpty(u + v) == if v == [] then EndsInSpaceOrEmpty(u) else EndsInSpaceOrEmpty(v)
  {
    if v == [] {
      assert u + v == u;
    } else {
      assert (u + v)[|u + v| - 1] == v[|v| - 1];
    }
  }

  lemma AppendAssociative(a: seq<Units>, b: seq<Units>, c: seq<Units>)
    ensures a + (b + c) == (a + b) + c
  {
  }

  lemma SplitAt(s: Units, n: nat)
    requires n <= |s|
    ensures s[..n] + s[n..] == s
  {
  }

  /** Dropping trailing empties from runs followed by empties leaves the runs. */
  lemma {:induction false} DropEmptiesAfterWords(ws: seq<Units>, extra: nat)
    requires forall i :: 0 <= i < |ws| ==> ws[i] != []
    ensures DropTrailingEmpty(ws + Empties(extra)) == ws
  {
    var ps := ws + Empties(extra);
    if extra > 0 {
      assert ps[..|ps| - 1] == ws + Empties(extra - 1);
      DropEmptiesAfterWords(ws, extra - 1);
    } else {
      assert ps == ws;
    }
  }

  /** A whitespace-free input is one run, or none when it is empty. */
  lemma WordsOfRun(s: Units)
    requires NoWhitespace(s)
    ensures Words(s) == if s == [] then [] else [s]
  {
    if s != [] {
      assert LeadingSpace(s) == 0 && s[0..] == s;
      assert LeadingWord(s) == |s|;
      assert s[..|s|] == s && s[|s|..] == [];
    }
  }

  /** An input with no whitespace is its own only piece. */
  lemma SplitWithoutSpace(s: Units)
    requires NoWhitespace(s)
    ensures Split(s) == [s]
  {
    assert s[..|s|] == s;
  }

  /** An input with whitespace but not at its start splits into its runs. */
  lemma SplitWithoutLeadingSpace(s: Units)
    requires !NoWhitespace(s) && !IsWhitespace(s[0])
    ensures Split(s) == Words(s)
  {
    PiecesAreWords(s);
    DropEmptiesAfterWords(Words(s), if EndsInSpaceOrEmpty(s) then 1 else 0);
  }

  /**
   * An input starting with whitespace splits into one empty piece followed by
   * its runs, or into nothing at all when it has no run.
   */
  lemma SplitWithLeadingSpace(s: Units)
    requires s != [] && IsWhitespace(s[0])
    ensures Split(s) == if Words(s) == [] then [] else [[]] + Words(s)
  {
    var extra := if EndsInSpaceOrEmpty(s[LeadingSpace(s)..]) then 1 else 0;
    var ws := Words(s);
    assert LeadingWord(s) == 0;
    PiecesAfterLeadingSpace(s);
    if ws == [] {
      DropEmptiesAfterWords([], 1 + extra);
      EmptiesAppend(extra);
    } else {
      DropKeepsNonEmptyTail([[]] + ws, extra);
    }
  }

  /** With leading whitespace the pieces are an empty piece, the runs, and the usual trailing empty piece. */
  lemma PiecesAfterLeadingSpace(s: Units)
    requires s != [] && IsWhitespace(s[0])
    ensures Pieces(s) == [[]] + Words(s) + Empties(if EndsInSpaceOrEmpty(s[LeadingSpace(s)..]) then 1 else 0)
  {
    var m := LeadingSpace(s);
    var t := s[m..];
    var extra := if EndsInSpaceOrEmpty(t) then 1 else 0;
    assert Pieces(s) == [[]] + Pieces(t) by {
      assert LeadingWord(s) == 0;
      assert s[..0] == [] && s[0..] == s;
    }
    PiecesAreWords(t);
    WordsSkipSpace(s, m);
    AppendAssociative([[]], Words(s), Empties(extra));
  }

  lemma EmptiesAppend(extra: nat)
    ensures [[]] + [] + Empties(extra) == [] + Empties(1 + extra)
  {
  }

  /**
   * Java's split against the runs: the empty input is one empty piece; an
   * input starting with whitespace and holding a run gets one leading empty
   * piece before its runs; any other input splits into exactly its runs.
   */
  lemma SplitVsWords(s: Units)
    ensures Split(s) ==
      if s == [] then [[]]
      else if IsWhitespace(s[0]) && Words(s) != [] then [[]] + Words(s)
      else Words(s)
  {
    if s == [] {
    } else if NoWhitespace(s) {
      SplitWithoutSpace(s);
      WordsOfRun(s);
    } else if IsWhitespace(s[0]) {
      SplitWithLeadingSpace(s);
    } else {
      SplitWithoutLeadingSpace(s);
    }
  }

  lemma {:induction false} DropKeepsNonEmptyTail(ps: seq<Units>, extra: nat)
    requires ps != [] && ps[|ps| - 1] != []
    ensures DropTrailingEmpty(ps + Empties(extra)) == ps
  {
    var qs := ps + Empties(extra);
    if extra > 0 {
      assert qs[..|qs| - 1] == ps + Empties(extra - 1);
      DropKeepsNonEmptyTail(ps, extra - 1);
    } else {
      assert qs == ps;
    }
  }

  /** A run followed by whitespace or nothing is the first run. */
  lemma WordsOfRunThen(w: Units, t: Units)
    requires w != [] && NoWhitespace(w) && (t == [] || IsWhitespace(t[0]))
    ensures Words(w + t) == [w] + Words(t)
  {
    var s := w + t;
    assert LeadingSpace(s) == 0 && s[0..] == s;
    assert forall i :: 0 <= i < |w| ==> s[i] == w[i];
    assert t != [] ==> s[|w|] == t[0];
    assert LeadingWord(s) == |w|;
    assert s[..|w|] == w && s[|w|..] == t;
  }

  /**
   * The whitespace around and between the runs of `s`: the gap before the
   * first run, the gap after each run, one more than there are runs.
   */
  function Gaps(s: Units): (gs: seq<Units>)
    ensures |gs| == |Words(s)| + 1
    decreases |s|
  {
    var m := LeadingSpace(s);
    var t := s[m..];
    if t == [] then [s[..m]]
    else [s[..m]] + Gaps(t[LeadingWord(t)..])
  }

  /** The gaps `gs` and the runs `ws` interleaved, starting and ending with a gap. */
  function Weave(gs: seq<Units>, ws: seq<Units>): Units
    requires |gs| == |ws| + 1
    decreases |ws|
  {
    if ws == [] then gs[0] else gs[0] + ws[0] + Weave(gs[1..], ws[1..])
  }

  /**
   * The runs are the text's own: interleaved with its gaps they rebuild the
   * text, every gap is whitespace, and the gaps between two runs are not
   * empty, so no two runs are adjacent.
   */
  lemma {:induction false} WordsRebuild(s: Units)
    ensures Weave(Gaps(s), Words(s)) == s
    ensures forall i :: 0 <= i < |Gaps(s)| ==> AllWhitespace(Gaps(s)[i])
    ensures forall i :: 0 < i < |Words(s)| ==> Gaps(s)[i] != []
    decreases |s|
  {
    var m := LeadingSpace(s);
    var t := s[m..];
    if t == [] {
      SplitAt(s, m);
    } else {
      var n := LeadingWord(t);
      var u := t[n..];
      WordsRebuild(u);
      RebuildStep(s, Gaps(u), Words(u));
    }
  }

  /** The step of `WordsRebuild`: the first gap and run, then the rest of the text rebuilt. */
  lemma RebuildStep(s: Units, gs: seq<Units>, ws: seq<Units>)
    requires s[LeadingSpace(s)..] != []
    requires var t := s[LeadingSpace(s)..]; var u := t[LeadingWord(t)..];
      gs == Gaps(u) && ws == Words(u) && Weave(gs, ws) == u
    requires forall i :: 0 <= i < |gs| ==> AllWhitespace(gs[i])
    requires forall i :: 0 < i < |ws| ==> gs[i] != []
    ensures Weave(Gaps(s), Words(s)) == s
    ensures forall i :: 0 <= i < |Gaps(s)| ==> AllWhitespace(Gaps(s)[i])
    ensures forall i :: 0 < i < |Words(s)| ==> Gaps(s)[i] != []
  {
    var m := LeadingSpace(s);
    var t := s[m..];
    var n := LeadingWord(t);
    var u := t[n..];
    UnfoldGaps(s);
    WeaveCons(s[..m], t[..n], gs, ws);
    SplitTwice(s, m, n);
    GapsCons(s[..m], gs);
    if ws != [] {
      FirstGapOfRest(u);
    }
    InteriorCons(s[..m], gs, t[..n], ws);
  }

  /** One unfolding of `Gaps` and `Words` on a text that holds a run. */
  lemma UnfoldGaps(s: Units)
    requires s[LeadingSpace(s)..] != []
    ensures var m := LeadingSpace(s); var t := s[m..]; var u := t[LeadingWord(t)..];
      && Gaps(s) == [s[..m]] + Gaps(u)
      && Words(s) == [t[..LeadingWord(t)]] + Words(u)
      && AllWhitespace(s[..m])
      && (u == [] || IsWhitespace(u[0]))
  {
  }

  lemma SplitTwice(s: Units, m: nat, n: nat)
    requires m <= |s| && n <= |s[m..]|
    ensures s[..m] + s[m..][..n] + s[m..][n..] == s
  {
    SplitAt(s[m..], n);
    SplitAt(s, m);
    assert s[..m] + s[m..][..n] + s[m..][n..] == s[..m] + (s[m..][..n] + s[m..][n..]);
  }

  lemma GapsCons(g: Units, gs: seq<Units>)
    requires AllWhitespace(g)
    requires forall i :: 0 <= i < |gs| ==> AllWhitespace(gs[i])
    ensures forall i :: 0 <= i < |[g] + gs| ==> AllWhitespace(([g] + gs)[i])
  {
    forall i | 0 <= i < |[g] + gs|
      ensures AllWhitespace(([g] + gs)[i])
    {
      if i > 0 {
        assert ([g] + gs)[i] == gs[i - 1];
      }
    }
  }

  lemma InteriorCons(g: Units, gs: seq<Units>, w: Units, ws: seq<Units>)
    requires |gs| == |ws| + 1
    requires forall i :: 0 < i < |ws| ==> gs[i] != []
    requires ws != [] ==> gs[0] != []
    ensures forall i :: 0 < i < |[w] + ws| ==> ([g] + gs)[i] != []
  {
    forall i | 0 < i < |[w] + ws|
      ensures ([g] + gs)[i] != []
    {
      assert ([g] + gs)[i] == gs[i - 1];
    }
  }

  lemma WeaveCons(g: Units, w: Units, gs: seq<Units>, ws: seq<Units>)
    requires |gs| == |ws| + 1
    ensures Weave([g] + gs, [w] + ws) == g + w + Weave(gs, ws)
  {
    assert ([g] + gs)[1..] == gs;
    assert ([w] + ws)[1..] == ws;
  }

  /** After a run that has more runs behind it, the next gap is not empty. */
  lemma FirstGapOfRest(u: Units)
    requires Words(u) != [] && (u == [] || IsWhitespace(u[0]))
    ensures Gaps(u)[0] != []
  {
  }

  /** The words `ws` joined by single spaces. */
  function Join(ws: seq<Units>): Units {
    if |ws| == 0 then []
    else if |ws| == 1 then ws[0]
    else ws[0] + [0x20] + Join(ws[1..])
  }

  /**
   * Joining runs with single spaces, with or without one trailing space, and
   * splitting into runs gives the runs back.
   */
  lemma {:induction false} WordsOfJoin(ws: seq<Units>, tail: Units)
    requires AreRuns(ws)
    requires tail == [] || tail == [0x20]
    ensures Words(Join(ws) + tail) == ws
  {
    if |ws| == 0 {
      assert Join(ws) + tail == tail;
      WordsSkipSpace(tail, |tail|);
      assert tail[|tail|..] == [];
    } else if |ws| == 1 {
      WordsOfRunThen(ws[0], tail);
      assert Join(ws) + tail == ws[0] + tail;
      WordsSkipSpace(tail, |tail|);
      assert tail[|tail|..] == [];
    } else {
      WordsOfJoin(ws[1..], tail);
      WordsOfJoinCons(ws, tail);
    }
  }

  lemma WordsOfJoinCons(ws: seq<Units>, tail: Units)
    requires |ws| >= 2 && ws[0] != [] && NoWhitespace(ws[0])
    requires Words(Join(ws[1..]) + tail) == ws[1..]
    ensures Words(Join(ws) + tail) == ws
  {
    var rest := Join(ws[1..]) + tail;
    JoinFirst(ws, tail);
    WordsAfterSpace(rest);
    WordsOfRunThen(ws[0], [0x20] + rest);
    FirstAndRest(ws);
  }

  lemma JoinFirst(ws: seq<Units>, tail: Units)
    requires |ws| >= 2
    ensures Join(ws) + tail == ws[0] + ([0x20] + (Join(ws[1..]) + tail))
  {
  }

  lemma WordsAfterSpace(rest: Units)
    ensures Words([0x20] + rest) == Words(rest)
  {
    var spaced: Units := [0x20] + rest;
    WordsSkipSpace(spaced, 1);
    assert spaced[1..] == rest;
  }

  lemma FirstAndRest(ws: seq<Units>)
    requires ws != []
    ensures [ws[0]] + ws[1..] == ws
  {
  }
}
