/** Splitting the trimmed document into lines: `str.splitlines()` for Python and
    `String.prototype.split(/\r?\n/)` for JavaScript. */
module Lines {
  import opened Types
  import opened Text

  /** The line boundaries of `str.splitlines()`. */
  predicate IsLineBreak(c: char) {
    || c == '\n' || c == '\r' || c == '\U{B}' || c == '\U{C}'
    || c == '\U{1C}' || c == '\U{1D}' || c == '\U{1E}' || c == '\U{85}'
    || c == '\U{2028}' || c == '\U{2029}'
  }

  /** Every line boundary is whitespace in both dialects. */
  lemma BreakIsSpace(c: char, d: Dialect)
    requires IsLineBreak(c) && (d == JavaScript ==> c == '\n' || c == '\r')
    ensures IsSpace(c, d)
  {
  }

  /** The first line boundary at or after `i` (or `|s|`). */
  function BreakAt(s: string, i: nat): (k: nat)
    requires i <= |s|
    ensures i <= k <= |s| && (k < |s| ==> IsLineBreak(s[k]))
    decreases |s| - i
  {
    if i < |s| && !IsLineBreak(s[i]) then BreakAt(s, i + 1) else i
  }

  /** Before the boundary it stops at, `BreakAt` passes no line boundary. */
  lemma {:induction false} BreakAtSkips(s: string, i: nat)
    requires i <= |s|
    ensures forall j :: i <= j < BreakAt(s, i) ==> !IsLineBreak(s[j])
    decreases |s| - i
  {
    if i < |s| && !IsLineBreak(s[i]) {
      BreakAtSkips(s, i + 1);
    }
  }

  /** A `\r\n` pair is one boundary. */
  function BreakWidth(s: string, k: nat): (w: nat)
    requires k < |s|
    ensures w == 1 || w == 2
  {
    if s[k] == '\r' && k + 1 < |s| && s[k + 1] == '\n' then 2 else 1
  }

  /** `s[i..].splitlines()`: no empty line after a final boundary. */
  function SplitLinesFrom(s: string, i: nat): (r: seq<string>)
    requires i <= |s|
    decreases |s| - i
  {
    if i == |s| then []
    else
      var k := BreakAt(s, i);
      if k == |s| then [s[i..]]
      else
        [s[i..k]] + SplitLinesFrom(s, k + BreakWidth(s, k))
  }

  function SplitLines(s: string): seq<string> {
    SplitLinesFrom(s, 0)
  }

  /** `splitlines` makes no line of an empty rest, and at least one of any other. */
  lemma SplitLinesEmpty(s: string, i: nat)
    requires i <= |s|
    ensures SplitLinesFrom(s, i) == [] <==> i == |s|
  {
  }

  /** The first `\n` at or after `i` (or `|s|`). */
  function NewlineAt(s: string, i: nat): (k: nat)
    requires i <= |s|
    ensures i <= k <= |s| && (k < |s| ==> s[k] == '\n')
    decreases |s| - i
  {
    if i < |s| && s[i] != '\n' then NewlineAt(s, i + 1) else i
  }

  /** Before the `\n` it stops at, `NewlineAt` passes no `\n`. */
  lemma {:induction false} NewlineAtSkips(s: string, i: nat)
    requires i <= |s|
    ensures forall j :: i <= j < NewlineAt(s, i) ==> s[j] != '\n'
    decreases |s| - i
  {
    if i < |s| && s[i] != '\n' {
      NewlineAtSkips(s, i + 1);
    }
  }

  /** A piece followed by `\n` loses one `\r` that the separator `\r?\n` claims. */
  function DropCr(p: string): (r: string)
    ensures r == p || (p == r + "\r")
  {
    if |p| > 0 && p[|p| - 1] == '\r' then p[..|p| - 1] else p
  }

  /** `s[i..].split(/\r?\n/)`: always at least one piece, the last one kept as is. */
  function SplitNewlineFrom(s: string, i: nat): (r: seq<string>)
    requires i <= |s|
    decreases |s| - i
  {
    var k := NewlineAt(s, i);
    if k == |s| then [s[i..]]
    else
      [DropCr(s[i..k])] + SplitNewlineFrom(s, k + 1)
  }

  function SplitNewline(s: string): seq<string> {
    SplitNewlineFrom(s, 0)
  }

  /** `split(/\r?\n/)` always yields a piece, even of the empty string. */
  lemma SplitNewlineNonEmpty(s: string, i: nat)
    requires i <= |s|
    ensures SplitNewlineFrom(s, i) != []
  {
  }

  /** A `\r\n` pair is one separator: the piece before it keeps no `\r`. */
  lemma SplitNewlineCrLf(p: string, t: string)
    requires NewlineFree(p) && NewlineFree(t)
    ensures SplitNewline(p + "\r\n" + t) == [p, t]
  {
    var s := p + "\r\n" + t;
    var q := p + "\r";
    var k := |q| + 1;
    assert s[|q|] == '\n';
    assert forall j :: 0 <= j < |q| ==> s[j] != '\n' by {
      assert forall j :: 0 <= j < |p| ==> s[j] == p[j];
    }
    NewlineAtIs(s, 0, |q|);
    SplitNewlineStep(s, 0, |q|, k);
    assert s[0..|q|] == q;
    assert s[k..] == t;
    SplitNewlineLast(s, k, t);
  }

  /** A lone `\r` does not separate: a text without `\n` is one piece. */
  lemma LoneCrKept(s: string)
    requires NewlineFree(s)
    ensures SplitNewline(s) == [s]
  {
    SplitNewlineLast(s, 0, s);
  }

  /** `splitlines` does separate at a lone `\r`. */
  lemma SplitLinesLoneCr(p: string, t: string)
    requires Breakless(p) && Breakless(t) && t != ""
    ensures SplitLines(p + "\r" + t) == [p, t]
  {
    var s := p + "\r" + t;
    assert s[..|p|] == p && s[|p|] == '\r' && s[|p| + 1] == t[0] && s[|p| + 1..] == t;
    assert forall j :: 0 <= j < |p| ==> s[j] == p[j];
    assert forall j :: |p| + 1 <= j < |s| ==> s[j] == t[j - |p| - 1];
    BreakAtIs(s, 0, |p|);
    assert BreakWidth(s, |p|) == 1;
    SplitLinesStep(s, 0, |p|, 1, |p| + 1);
    BreakAtIs(s, |p| + 1, |s|);
    assert s[0..|p|] == p;
  }

  /** On empty text the two runtimes disagree: `splitlines` makes no line at all and
      `split(/\r?\n/)` one empty line. */
  lemma EmptyTextSplits()
    ensures SplitLines("") == [] && SplitNewline("") == [""]
  {
    SplitLinesEmpty("", 0);
    SplitNewlineNonEmpty("", 0);
  }

  /** At a lone `\r` the two runtimes disagree: `splitlines` makes two lines where
      `split(/\r?\n/)` keeps one. */
  lemma LoneCrSplitsDiffer(p: string, t: string)
    requires Breakless(p) && Breakless(t) && t != ""
    ensures SplitLines(p + "\r" + t) == [p, t]
    ensures SplitNewline(p + "\r" + t) == [p + "\r" + t]
  {
    SplitLinesLoneCr(p, t);
    var s := p + "\r" + t;
    assert NewlineFree(s) by {
      assert forall q :: 0 <= q < |p| ==> s[q] == p[q] && IsLineBreak('\n');
      assert forall q :: |p| < q < |s| ==> s[q] == t[q - |p| - 1];
    }
    LoneCrKept(s);
  }

  /** The lines each runtime makes of the trimmed content. */
  function SplitFor(s: string, d: Dialect): seq<string> {
    match d
    case Python => SplitLines(s)
    case JavaScript => SplitNewline(s)
  }

  /** A line holds no line boundary of `str.splitlines()`. */
  predicate Breakless(p: string) {
    forall q :: 0 <= q < |p| ==> !IsLineBreak(p[q])
  }

  /** A line holds no `\n`. */
  predicate NewlineFree(p: string) {
    forall q :: 0 <= q < |p| ==> p[q] != '\n'
  }

  /** No Python line holds a line boundary. */
  lemma {:induction false} SplitLinesNoBreak(s: string, i: nat)
    requires i <= |s|
    ensures forall j :: 0 <= j < |SplitLinesFrom(s, i)| ==> Breakless(SplitLinesFrom(s, i)[j])
    decreases |s| - i
  {
    if i < |s| {
      var k := BreakAt(s, i);
      var p := s[i..k];
      BreakAtSkips(s, i);
      BreaklessPiece(s, i, k);
      if k < |s| {
        var w := BreakWidth(s, k);
        var rest := SplitLinesFrom(s, k + w);
        SplitLinesNoBreak(s, k + w);
        SplitLinesStep(s, i, k, w, k + w);
        ConsEqual(SplitLinesFrom(s, i), p, SplitLinesFrom(s, k + w), rest);
      } else {
        assert s[i..] == p;
      }
    }
  }

  lemma BreaklessPiece(s: string, i: nat, k: nat)
    requires i <= k <= |s| && forall j :: i <= j < k ==> !IsLineBreak(s[j])
    ensures Breakless(s[i..k])
  {
    var p := s[i..k];
    assert forall q :: 0 <= q < |p| ==> p[q] == s[i + q];
  }

  /** No JavaScript line holds a `\n`. */
  lemma {:induction false} SplitNewlineNoNewline(s: string, i: nat)
    requires i <= |s|
    ensures forall j :: 0 <= j < |SplitNewlineFrom(s, i)| ==> NewlineFree(SplitNewlineFrom(s, i)[j])
    decreases |s| - i
  {
    var k := NewlineAt(s, i);
    NewlineAtSkips(s, i);
    NewlineFreePiece(s, i, k);
    if k < |s| {
      var rest := SplitNewlineFrom(s, k + 1);
      SplitNewlineNoNewline(s, k + 1);
      assert SplitNewlineFrom(s, i) == [DropCr(s[i..k])] + rest;
    }
  }

  lemma NewlineFreePiece(s: string, i: nat, k: nat)
    requires i <= k <= |s| && forall j :: i <= j < k ==> s[j] != '\n'
    ensures NewlineFree(s[i..k]) && NewlineFree(DropCr(s[i..k]))
  {
    var p := s[i..k];
    assert forall q :: 0 <= q < |p| ==> p[q] == s[i + q];
    var h := DropCr(p);
    assert forall q :: 0 <= q < |h| ==> h[q] == p[q];
  }

  /** Joining the JavaScript pieces with `\n` gives back a text without `\r`. */
  lemma {:induction false} JoinSplitNewline(s: string, i: nat)
    requires i <= |s| && forall j :: 0 <= j < |s| ==> s[j] != '\r'
    ensures Join(SplitNewlineFrom(s, i)) == s[i..]
    decreases |s| - i
  {
    var k := NewlineAt(s, i);
    if k < |s| {
      var rest := SplitNewlineFrom(s, k + 1);
      JoinSplitNewline(s, k + 1);
      var p := s[i..k];
      KeptPiece(s, i, k);
      ConsEqual(SplitNewlineFrom(s, i), p, SplitNewlineFrom(s, i + |p| + 1), rest);
      JoinCons(p, rest);
      SplitAtNewline(s, i, k);
    }
  }

  /** Without `\r` in the text, a piece loses nothing to the separator. */
  lemma KeptPiece(s: string, i: nat, k: nat)
    requires i <= k <= |s| && forall j :: 0 <= j < |s| ==> s[j] != '\r'
    ensures DropCr(s[i..k]) == s[i..k]
  {
    var p := s[i..k];
    if |p| > 0 {
      assert p[|p| - 1] == s[k - 1];
    }
  }

  lemma JoinCons(p: string, rest: seq<string>)
    requires rest != []
    ensures Join([p] + rest) == p + "\n" + Join(rest)
  {
    assert ([p] + rest)[1..] == rest;
  }

  lemma SplitAtNewline(s: string, i: nat, k: nat)
    requires i <= k < |s| && s[k] == '\n'
    ensures s[i..] == s[i..k] + "\n" + s[k + 1..]
  {
    assert s[i..] == s[i..k] + s[k..k + 1] + s[k + 1..];
  }

  /** At index `j` stands a `\n`, or the `\r` of a `\r\n` pair. */
  predicate CrLfAt(s: string, j: nat)
    requires j < |s|
  {
    s[j] == '\n' || (s[j] == '\r' && j + 1 < |s| && s[j + 1] == '\n')
  }

  /** Every line boundary of `s` is a `\n` or the `\r` of a `\r\n` pair. */
  predicate CrLfOnly(s: string) {
    forall j :: 0 <= j < |s| ==> IsLineBreak(s[j]) ==> CrLfAt(s, j)
  }

  /** On a text whose only boundaries are `\n` and `\r\n`, that does not end with
      one, both runtimes make the same lines. */
  lemma {:induction false} SplitsAgreeFrom(s: string, i: nat)
    requires i < |s| && s[|s| - 1] != '\n' && CrLfOnly(s)
    ensures SplitLinesFrom(s, i) == SplitNewlineFrom(s, i)
    decreases |s| - i
  {
    SplitStepAgree(s, i);
    var k := BreakAt(s, i);
    if k < |s| {
      var w := BreakWidth(s, k);
      var e := k + w;
      var n := NewlineAt(s, i);
      assert n + 1 == e < |s|;
      SplitsAgreeFrom(s, e);
      SplitLinesStep(s, i, k, w, e);
      SplitNewlineStep(s, i, n, e);
    }
  }

  /** One step of both splits on such a text: `splitlines` stops at the boundary,
      `split` at the `\n` that ends it, and the `\r` of a pair goes with the separator. */
  lemma SplitStepAgree(s: string, i: nat)
    requires i < |s| && CrLfOnly(s)
    ensures BreakAt(s, i) == |s| ==> NewlineAt(s, i) == |s|
    ensures BreakAt(s, i) < |s| ==>
      && NewlineAt(s, i) == BreakAt(s, i) + BreakWidth(s, BreakAt(s, i)) - 1
      && DropCr(s[i..NewlineAt(s, i)]) == s[i..BreakAt(s, i)]
  {
    var k := BreakAt(s, i);
    BreakAtSkips(s, i);
    if k == |s| {
      NewlineAtIs(s, i, k);
    } else if s[k] == '\n' {
      StepAtNewline(s, i, k);
    } else {
      assert CrLfAt(s, k);
      StepAtCrLf(s, i, k);
    }
  }

  /** The boundary is a `\n` with no `\r` before it in the line. */
  lemma StepAtNewline(s: string, i: nat, k: nat)
    requires i <= k < |s| && s[k] == '\n'
    requires forall j :: i <= j < k ==> !IsLineBreak(s[j])
    ensures NewlineAt(s, i) == k && BreakWidth(s, k) == 1
    ensures DropCr(s[i..k]) == s[i..k]
  {
    NewlineAtIs(s, i, k);
    var p := s[i..k];
    if |p| > 0 {
      assert p[|p| - 1] == s[k - 1];
    }
  }

  /** The boundary is a `\r\n` pair: `split` stops at its `\n` and drops its `\r`. */
  lemma StepAtCrLf(s: string, i: nat, k: nat)
    requires i <= k && k + 1 < |s| && s[k] == '\r' && s[k + 1] == '\n'
    requires forall j :: i <= j < k ==> !IsLineBreak(s[j])
    ensures NewlineAt(s, i) == k + 1 && BreakWidth(s, k) == 2
    ensures DropCr(s[i..k + 1]) == s[i..k]
  {
    NewlineAtIs(s, i, k + 1);
    var p := s[i..k + 1];
    assert p[|p| - 1] == s[k];
    assert p[..|p| - 1] == s[i..k];
  }

  lemma SplitsAgree(s: string)
    requires s != "" && s[|s| - 1] != '\n' && CrLfOnly(s)
    ensures SplitLines(s) == SplitNewline(s)
  {
    SplitsAgreeFrom(s, 0);
  }

  /** A character that is not whitespace survives in some Python line. */
  lemma {:induction false} NonBlankLinePy(s: string, i: nat, p: nat, d: Dialect)
    requires i <= p < |s| && !IsSpace(s[p], d) && d == Python
    ensures exists j :: 0 <= j < |SplitLinesFrom(s, i)| && !AllSpace(SplitLinesFrom(s, i)[j], d)
    decreases |s| - i
  {
    var r := SplitLinesFrom(s, i);
    var k := BreakAt(s, i);
    if p < k {
      assert r[0] == s[i..k] && r[0][p - i] == s[p];
    } else {
      if IsLineBreak(s[p]) {
        BreakIsSpace(s[p], d);
      }
      assert p != k;
      assert k + BreakWidth(s, k) <= p by {
        assert BreakWidth(s, k) == 2 ==> s[k + 1] == '\n';
      }
      var rest := SplitLinesFrom(s, k + BreakWidth(s, k));
      NonBlankLinePy(s, k + BreakWidth(s, k), p, d);
      var j :| 0 <= j < |rest| && !AllSpace(rest[j], d);
      assert r[j + 1] == rest[j];
    }
  }

  /** A character that is not whitespace survives in some JavaScript line. */
  lemma {:induction false} NonBlankLineJs(s: string, i: nat, p: nat, d: Dialect)
    requires i <= p < |s| && !IsSpace(s[p], d) && d == JavaScript
    ensures exists j :: 0 <= j < |SplitNewlineFrom(s, i)| && !AllSpace(SplitNewlineFrom(s, i)[j], d)
    decreases |s| - i
  {
    var r := SplitNewlineFrom(s, i);
    var k := NewlineAt(s, i);
    if p < k {
      if k == |s| {
        assert r[0] == s[i..] && r[0][p - i] == s[p];
      } else if p < k - 1 || s[p] != '\r' {
        assert r[0] == DropCr(s[i..k]) && r[0][p - i] == s[p];
      }
      assert !IsSpace(r[0][p - i], d);
    } else {
      assert p != k;
      var rest := SplitNewlineFrom(s, k + 1);
      assert r == [DropCr(s[i..k])] + rest;
      NonBlankLineJs(s, k + 1, p, d);
      var j :| 0 <= j < |rest| && !AllSpace(rest[j], d);
      assert r[j + 1] == rest[j];
    }
  }

  /** Content that is not all whitespace has a non-blank line: the lines the title
      search falls back to are never all blank. */
  lemma NonBlankLine(s: string, d: Dialect)
    requires !AllSpace(s, d)
    ensures exists j :: 0 <= j < |SplitFor(s, d)| && Trim(SplitFor(s, d)[j], d) != ""
  {
    var p :| 0 <= p < |s| && !IsSpace(s[p], d);
    if d == Python {
      NonBlankLinePy(s, 0, p, d);
    } else {
      NonBlankLineJs(s, 0, p, d);
    }
    var j :| 0 <= j < |SplitFor(s, d)| && !AllSpace(SplitFor(s, d)[j], d);
    assert Trim(SplitFor(s, d)[j], d) != "";
  }

  // ---------------------------------------------------------------- round trips

  /** `"\n".join(lines).splitlines()` gives the lines back when none holds a line
      boundary and the last one is not empty. */
  lemma SplitLinesJoin(lines: seq<string>)
    requires lines != [] && lines[|lines| - 1] != ""
    requires forall j :: 0 <= j < |lines| ==> Breakless(lines[j])
    ensures SplitLines(Join(lines)) == lines
  {
    SplitLinesJoinFrom(Join(lines), 0, lines);
  }

  lemma {:induction false} SplitLinesJoinFrom(s: string, i: nat, lines: seq<string>)
    requires i <= |s| && s[i..] == Join(lines)
    requires lines != [] && lines[|lines| - 1] != ""
    requires forall j :: 0 <= j < |lines| ==> Breakless(lines[j])
    ensures SplitLinesFrom(s, i) == lines
    decreases |lines|
  {
    if |lines| == 1 {
      SplitLinesLast(s, i, lines[0]);
      assert lines == [lines[0]];
    } else {
      BreaklessTail(lines);
      var n := SplitLinesJoinHead(s, i, lines);
      SplitLinesJoinFrom(s, n, lines[1..]);
      HeadTail(lines);
    }
  }

  /** The first line of a join read back by `splitlines`, and what is left for the rest. */
  lemma SplitLinesJoinHead(s: string, i: nat, lines: seq<string>) returns (n: nat)
    requires i <= |s| && s[i..] == Join(lines)
    requires |lines| > 1 && Breakless(lines[0])
    ensures n == i + |lines[0]| + 1 && n <= |s| && s[n..] == Join(lines[1..])
    ensures SplitLinesFrom(s, i) == [lines[0]] + SplitLinesFrom(s, n)
  {
    var p, t := lines[0], Join(lines[1..]);
    JoinFirst(lines);
    SplitLinesCons(s, i, p, t);
    n := i + |p| + 1;
  }

  lemma BreaklessTail(lines: seq<string>)
    requires |lines| > 1 && lines[|lines| - 1] != ""
    requires forall j :: 0 <= j < |lines| ==> Breakless(lines[j])
    ensures lines[1..] != [] && lines[1..][|lines[1..]| - 1] != ""
    ensures forall j :: 0 <= j < |lines[1..]| ==> Breakless(lines[1..][j])
  {
    assert forall j :: 0 <= j < |lines[1..]| ==> lines[1..][j] == lines[j + 1];
  }

  /** `lines.join('\n').split(/\r?\n/)` gives the lines back when none holds a `\n`
      and none but the last ends with a `\r`. */
  lemma SplitNewlineJoin(lines: seq<string>)
    requires lines != [] && forall j :: 0 <= j < |lines| ==> NewlineFree(lines[j])
    requires forall j :: 0 <= j < |lines| - 1 ==> DropCr(lines[j]) == lines[j]
    ensures SplitNewline(Join(lines)) == lines
  {
    SplitNewlineJoinFrom(Join(lines), 0, lines);
  }

  lemma {:induction false} SplitNewlineJoinFrom(s: string, i: nat, lines: seq<string>)
    requires i <= |s| && s[i..] == Join(lines)
    requires lines != [] && forall j :: 0 <= j < |lines| ==> NewlineFree(lines[j])
    requires forall j :: 0 <= j < |lines| - 1 ==> DropCr(lines[j]) == lines[j]
    ensures SplitNewlineFrom(s, i) == lines
    decreases |lines|
  {
    if |lines| == 1 {
      SplitNewlineLast(s, i, lines[0]);
    } else {
      var rest := lines[1..];
      JoinFirst(lines);
      SplitNewlineCons(s, i, lines[0], Join(rest));
      assert forall j :: 0 <= j < |rest| ==> rest[j] == lines[j + 1];
      SplitNewlineJoinFrom(s, i + |lines[0]| + 1, rest);
      HeadTail(lines);
    }
  }

  /** `splitlines` on a line, `\n` and more text. */
  lemma SplitLinesCons(s: string, i: nat, p: string, t: string)
    requires i <= |s| && s[i..] == p + "\n" + t && Breakless(p)
    ensures i + |p| < |s| && s[i + |p| + 1..] == t
    ensures BreakAt(s, i) == i + |p| && BreakWidth(s, i + |p|) == 1
    ensures SplitLinesFrom(s, i) == [p] + SplitLinesFrom(s, i + |p| + 1)
  {
    InnerPiece(s, i, p, t);
    PieceChars(s, i, p);
    BreakAtIs(s, i, i + |p|);
    SplitLinesStep(s, i, i + |p|, 1, i + |p| + 1);
    HeadSwap(SplitLinesFrom(s, i), s[i..i + |p|], p, SplitLinesFrom(s, i + |p| + 1));
  }

  /** `splitlines` on a last, non-empty line. */
  lemma SplitLinesLast(s: string, i: nat, p: string)
    requires i <= |s| && s[i..] == p && p != "" && Breakless(p)
    ensures SplitLinesFrom(s, i) == [p]
  {
    PieceChars(s, i, p);
    BreakAtIs(s, i, |s|);
  }

  /** `split(/\r?\n/)` on a line, `\n` and more text. */
  lemma SplitNewlineCons(s: string, i: nat, p: string, t: string)
    requires i <= |s| && s[i..] == p + "\n" + t && NewlineFree(p) && DropCr(p) == p
    ensures i + |p| < |s| && s[i + |p| + 1..] == t
    ensures SplitNewlineFrom(s, i) == [p] + SplitNewlineFrom(s, i + |p| + 1)
  {
    InnerPiece(s, i, p, t);
    PieceChars(s, i, p);
    NewlineAtIs(s, i, i + |p|);
    SplitNewlineStep(s, i, i + |p|, i + |p| + 1);
    assert DropCr(s[i..i + |p|]) == p;
    HeadSwap(SplitNewlineFrom(s, i), DropCr(s[i..i + |p|]), p, SplitNewlineFrom(s, i + |p| + 1));
  }

  /** `split(/\r?\n/)` on the last piece. */
  lemma SplitNewlineLast(s: string, i: nat, p: string)
    requires i <= |s| && s[i..] == p && NewlineFree(p)
    ensures SplitNewlineFrom(s, i) == [p]
  {
    PieceChars(s, i, p);
    NewlineAtIs(s, i, |s|);
  }

  /** A line followed by `\n` and more text, read off the text. */
  lemma InnerPiece(s: string, i: nat, p: string, t: string)
    requires i <= |s| && s[i..] == p + "\n" + t
    ensures i + |p| < |s| && s[i..i + |p|] == p && s[i + |p|] == '\n' && s[i + |p| + 1..] == t
  {
    assert s[i..][|p|] == '\n';
    assert s[i..][..|p|] == p;
    assert s[i..][|p| + 1..] == t;
  }

  /** The characters of a line, read off the text. */
  lemma PieceChars(s: string, i: nat, p: string)
    requires i + |p| <= |s| && (s[i..i + |p|] == p || s[i..] == p)
    ensures forall q :: 0 <= q < |p| ==> s[i + q] == p[q]
  {
    assert forall q :: 0 <= q < |p| ==> s[i..][q] == s[i + q] && s[i..i + |p|][q] == s[i + q];
  }

  /** One line of `splitlines`, ended by a boundary `w` characters wide. */
  lemma SplitLinesStep(s: string, i: nat, k: nat, w: nat, n: nat)
    requires i <= k < |s| && BreakAt(s, i) == k && BreakWidth(s, k) == w && n == k + w
    ensures SplitLinesFrom(s, i) == [s[i..k]] + SplitLinesFrom(s, n)
  {
  }

  /** One piece of `split(/\r?\n/)`, ended by a `\n`. */
  lemma SplitNewlineStep(s: string, i: nat, k: nat, n: nat)
    requires i <= k < |s| && NewlineAt(s, i) == k && n == k + 1
    ensures SplitNewlineFrom(s, i) == [DropCr(s[i..k])] + SplitNewlineFrom(s, n)
  {
  }

  /** A join whose last line is not empty is not empty. */
  lemma {:induction false} JoinNonEmpty(lines: seq<string>)
    requires lines != [] && lines[|lines| - 1] != ""
    ensures |Join(lines)| > 0
  {
    if |lines| > 1 {
      JoinNonEmpty(lines[1..]);
    }
  }

  lemma HeadSwap(x: seq<string>, p: string, q: string, xs: seq<string>)
    requires x == [p] + xs && p == q
    ensures x == [q] + xs
  {
  }

  lemma JoinFirst(lines: seq<string>)
    requires |lines| > 1
    ensures Join(lines) == lines[0] + "\n" + Join(lines[1..])
  {
  }

  lemma HeadTail(lines: seq<string>)
    requires lines != []
    ensures [lines[0]] + lines[1..] == lines
  {
  }

  lemma ConsEqual(a: seq<string>, p: string, b: seq<string>, rest: seq<string>)
    requires a == [p] + b && b == rest
    ensures a == [p] + rest
  {
  }

  /** `BreakAt` is determined by the boundary it stops at. */
  lemma {:induction false} BreakAtIs(s: string, i: nat, k: nat)
    requires i <= k <= |s| && (k < |s| ==> IsLineBreak(s[k]))
    requires forall j :: i <= j < k ==> !IsLineBreak(s[j])
    ensures BreakAt(s, i) == k
    decreases k - i
  {
    if i < k {
      BreakAtIs(s, i + 1, k);
    }
  }

  /** `NewlineAt` is determined by the `\n` it stops at. */
  lemma {:induction false} NewlineAtIs(s: string, i: nat, k: nat)
    requires i <= k <= |s| && (k < |s| ==> s[k] == '\n')
    requires forall j :: i <= j < k ==> s[j] != '\n'
    ensures NewlineAt(s, i) == k
    decreases k - i
  {
    if i < k {
      NewlineAtIs(s, i + 1, k);
    }
  }
}
