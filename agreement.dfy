/** Where the two implementations agree. On a document whose only line boundaries are
    `\n` and `\r\n` and that holds neither U+001F nor U+FEFF, the Python and JavaScript
    segmenters produce the same story; the URL joiners agree
    as long as neither side carries more than one slash; the record links are the same. */
module Agreement {
  import opened Types
  import opened Text
  import opened Patterns
  import opened Lines
  import opened Sections
  import opened Segmenter
  import MainPy
  import ServiceNow

  /** A character both runtimes treat alike: a newline, or no line boundary of
      `splitlines` and neither U+001F nor U+FEFF. */
  predicate NeutralChar(c: char) {
    c == '\n' || (!IsLineBreak(c) && c != '\U{1F}' && c != '\U{FEFF}')
  }

  predicate Neutral(s: string) {
    forall i :: 0 <= i < |s| ==> NeutralChar(s[i])
  }

  predicate NeutralLines(lines: seq<string>) {
    forall i :: 0 <= i < |lines| ==> Neutral(lines[i])
  }

  /** A neutral document: neutral characters, and `\r` only as the first half of a
      `\r\n` pair. */
  predicate NeutralText(s: string) {
    CrLfOnly(s) && forall i :: 0 <= i < |s| ==> s[i] == '\r' || NeutralChar(s[i])
  }

  /** A character `str.isspace()` and the `\s` of JavaScript class alike: anything but
      U+001C to U+001F, U+0085 and U+FEFF. */
  predicate SpaceAlike(c: char) {
    IsSpace(c, Python) == IsSpace(c, JavaScript)
  }

  predicate SpaceNeutral(s: string) {
    forall i :: 0 <= i < |s| ==> SpaceAlike(s[i])
  }

  lemma NeutralSpaces(s: string)
    requires Neutral(s)
    ensures SpaceNeutral(s)
  {
    forall i | 0 <= i < |s|
      ensures SpaceAlike(s[i])
    {
      CharAgree(s[i]);
    }
  }

  lemma SpaceNeutralSlice(s: string, a: nat, b: nat)
    requires SpaceNeutral(s) && a <= b <= |s|
    ensures SpaceNeutral(s[a..b])
  {
    forall i | 0 <= i < b - a
      ensures SpaceAlike(s[a..b][i])
    {
      assert s[a..b][i] == s[a + i];
    }
  }

  lemma CharAgree(c: char)
    requires NeutralChar(c)
    ensures IsSpace(c, Python) == IsSpace(c, JavaScript)
    ensures IsDot(c, Python) == IsDot(c, JavaScript)
  {
  }

  lemma NeutralSlice(s: string, a: nat, b: nat)
    requires Neutral(s) && a <= b <= |s|
    ensures Neutral(s[a..b])
  {
    forall i | 0 <= i < b - a
      ensures NeutralChar(s[a..b][i])
    {
      assert s[a..b][i] == s[a + i];
    }
  }

  // ---------------------------------------------------------------- characters and lines

  lemma {:induction false} SkipSpaceAgree(s: string, i: nat)
    requires SpaceNeutral(s) && i <= |s|
    ensures SkipSpace(s, i, Python) == SkipSpace(s, i, JavaScript)
    decreases |s| - i
  {
    if i < |s| {
      assert SpaceAlike(s[i]);
      SkipSpaceAgree(s, i + 1);
    }
  }

  lemma {:induction false} BackSpaceAgree(s: string, j: nat)
    requires SpaceNeutral(s) && j <= |s|
    ensures BackSpace(s, j, Python) == BackSpace(s, j, JavaScript)
  {
    if j > 0 {
      assert SpaceAlike(s[j - 1]);
      BackSpaceAgree(s, j - 1);
    }
  }

  /** `strip()` and `trim()` agree on text whose every character both class alike. */
  lemma TrimAgree(s: string)
    requires SpaceNeutral(s)
    ensures Trim(s, Python) == Trim(s, JavaScript)
  {
    SkipSpaceAgree(s, 0);
    BackSpaceAgree(s, |s|);
  }

  lemma TrimSuffixAgree(s: string, a: nat)
    requires SpaceNeutral(s) && a <= |s|
    ensures Trim(s[a..], Python) == Trim(s[a..], JavaScript)
  {
    SpaceNeutralSlice(s, a, |s|);
    assert s[a..] == s[a..|s|];
    TrimAgree(s[a..]);
  }

  lemma {:induction false} SpacesThenDotAgree(s: string, k: nat)
    requires Neutral(s) && k <= |s|
    ensures SpacesThenDot(s, k, Python) == SpacesThenDot(s, k, JavaScript)
    decreases |s| - k
  {
    if k < |s| {
      CharAgree(s[k]);
      SpacesThenDotAgree(s, k + 1);
    }
  }

  lemma IsH1Agree(line: string)
    requires Neutral(line)
    ensures IsH1(line, Python) == IsH1(line, JavaScript)
  {
    NeutralSpaces(line);
    SkipSpaceAgree(line, 0);
    var i := SkipSpace(line, 0, Python);
    if i + 1 < |line| {
      CharAgree(line[i + 1]);
      SpacesThenDotAgree(line, i + 2);
      assert IsH1(line, Python) == (line[i] == '#' && IsSpace(line[i + 1], Python) && SpacesThenDot(line, i + 2, Python));
      assert IsH1(line, JavaScript) == (line[i] == '#' && IsSpace(line[i + 1], JavaScript) && SpacesThenDot(line, i + 2, JavaScript));
    }
  }

  lemma H1TextAgree(line: string)
    requires Neutral(line) && IsH1(line, Python) && IsH1(line, JavaScript)
    ensures H1Text(line, Python) == H1Text(line, JavaScript)
  {
    NeutralSpaces(line);
    SkipSpaceAgree(line, 0);
    var i := SkipSpace(line, 0, Python);
    SkipSpaceAgree(line, i + 1);
    var j := SkipSpace(line, i + 1, Python);
    TrimSuffixAgree(line, j);
    assert H1Text(line, Python) == Trim(line[j..], Python);
    assert H1Text(line, JavaScript) == Trim(line[j..], JavaScript);
  }

  lemma LabelEndAgree(title: string)
    requires Neutral(title)
    ensures LabelEnd(title, Python) == LabelEnd(title, JavaScript)
  {
    NeutralSpaces(title);
    SkipSpaceAgree(title, 0);
    var a := SkipSpace(title, 0, Python);
    if a + 4 <= |title| {
      SkipSpaceAgree(title, a + 4);
      var b := SkipSpace(title, a + 4, Python);
      LabelEndAt(title, a, b, Python);
      LabelEndAt(title, a, b, JavaScript);
    } else {
      LabelEndAt(title, a, 0, Python);
      LabelEndAt(title, a, 0, JavaScript);
    }
  }

  /** The label match read off the two whitespace runs it skips. */
  lemma LabelEndAt(title: string, a: nat, b: nat, d: Dialect)
    requires a == SkipSpace(title, 0, d)
    requires b == if a + 4 <= |title| then SkipSpace(title, a + 4, d) else 0
    ensures LabelEnd(title, d) == if MatchesCIAt(title, a, "user") && MatchesCIAt(title, b, "story:") then Some(b + 6) else None
  {
  }

  lemma StripUserStoryAgree(title: string)
    requires Neutral(title)
    ensures StripUserStory(title, Python) == StripUserStory(title, JavaScript)
  {
    LabelEndAgree(title);
    NeutralSpaces(title);
    TrimAgree(title);
    match LabelEnd(title, Python)
    case Some(e) => TrimSuffixAgree(title, e);
    case None =>
  }

  /** The header pattern has no `.`, so only the whitespace classes matter. */
  lemma HeaderLabelAgree(line: string)
    requires SpaceNeutral(line)
    ensures HeaderLabel(line, Python) == HeaderLabel(line, JavaScript)
  {
    SkipSpaceAgree(line, 0);
    BackSpaceAgree(line, |line|);
    var a := SkipSpace(line, 0, Python);
    var b := BackSpace(line, |line|, Python);
    HeaderLabelBetween(line, a, b, Python);
    HeaderLabelBetween(line, a, b, JavaScript);
    if a + 6 <= b {
      SpaceNeutralSlice(line, a + 2, b - 3);
      TrimAgree(line[a + 2..b - 3]);
    }
  }

  /** The header label read off the extent of the line without its outer whitespace. */
  lemma HeaderLabelBetween(line: string, a: nat, b: nat, d: Dialect)
    requires a == SkipSpace(line, 0, d) && b == BackSpace(line, |line|, d)
    ensures a + 6 <= b ==> HeaderLabel(line, d) == if Framed(line, a, b) then Some(Trim(line[a + 2..b - 3], d)) else None
    ensures a + 6 > b ==> HeaderLabel(line, d).None?
  {
    assert HeaderLabel(line, d) == HeaderWithin(line, a, b, d);
  }

  lemma HoldsAgree(t: LineTest, line: string)
    requires Neutral(line)
    ensures Holds(t, line, Python) == Holds(t, line, JavaScript)
  {
    IsH1Agree(line);
    NeutralSpaces(line);
    TrimAgree(line);
  }

  lemma RawTitleAgree(line: string)
    requires Neutral(line)
    ensures RawTitle(line, Python) == RawTitle(line, JavaScript)
    ensures Neutral(RawTitle(line, Python))
  {
    IsH1Agree(line);
    if IsH1(line, Python) {
      H1TextAgree(line);
      H1TextNeutral(line);
      assert RawTitle(line, Python) == H1Text(line, Python);
      assert RawTitle(line, JavaScript) == H1Text(line, JavaScript);
    } else {
      NeutralSpaces(line);
      TrimAgree(line);
      NeutralTrim(line, Python);
      assert RawTitle(line, Python) == Trim(line, Python);
      assert RawTitle(line, JavaScript) == Trim(line, JavaScript);
    }
  }

  lemma H1TextNeutral(line: string)
    requires Neutral(line) && IsH1(line, Python)
    ensures Neutral(H1Text(line, Python))
  {
    var i := SkipSpace(line, 0, Python);
    var j := SkipSpace(line, i + 1, Python);
    NeutralSlice(line, j, |line|);
    assert line[j..] == line[j..|line|];
    NeutralTrim(line[j..], Python);
    assert H1Text(line, Python) == Trim(line[j..], Python);
  }

  lemma TitleTextAgree(line: string)
    requires Neutral(line)
    ensures TitleText(line, Python) == TitleText(line, JavaScript)
  {
    RawTitleAgree(line);
    StripUserStoryAgree(RawTitle(line, Python));
  }

  /** Trimming keeps text neutral. */
  lemma NeutralTrim(s: string, d: Dialect)
    requires Neutral(s)
    ensures Neutral(Trim(s, d))
  {
    var a := SkipSpace(s, 0, d);
    if a < |s| {
      NeutralSlice(s, a, BackSpace(s, |s|, d));
    }
  }

  // ---------------------------------------------------------------- line searches

  lemma MarksAgree(lines: seq<string>, t: LineTest)
    requires NeutralLines(lines)
    ensures Marks(lines, t, Python) == Marks(lines, t, JavaScript)
  {
    forall i | 0 <= i < |lines|
      ensures Marks(lines, t, Python)[i] == Marks(lines, t, JavaScript)[i]
    {
      HoldsAgree(t, lines[i]);
    }
  }

  lemma FirstLineAgree(lines: seq<string>, t: LineTest)
    requires NeutralLines(lines)
    ensures FirstLine(lines, t, Python) == FirstLine(lines, t, JavaScript)
  {
    MarksAgree(lines, t);
  }

  lemma TitleLineAgree(lines: seq<string>)
    requires NeutralLines(lines)
    ensures TitleLine(lines, Python) == TitleLine(lines, JavaScript)
  {
    FirstLineAgree(lines, Heading);
    FirstLineAgree(lines, NonBlank);
  }

  lemma LabelsAgree(lines: seq<string>)
    requires NeutralLines(lines)
    ensures Labels(lines, Python) == Labels(lines, JavaScript)
  {
    forall i | 0 <= i < |lines|
      ensures Labels(lines, Python)[i] == Labels(lines, JavaScript)[i]
    {
      NeutralSpaces(lines[i]);
      HeaderLabelAgree(lines[i]);
    }
  }

  lemma NeutralLinesSlice(lines: seq<string>, a: nat, b: nat)
    requires NeutralLines(lines) && a <= b <= |lines|
    ensures NeutralLines(lines[a..b])
  {
    forall i | 0 <= i < b - a
      ensures Neutral(lines[a..b][i])
    {
      assert lines[a..b][i] == lines[a + i];
    }
  }

  /** Joining neutral lines with `\n` gives neutral text. */
  lemma {:induction false} JoinNeutral(parts: seq<string>)
    requires NeutralLines(parts)
    ensures Neutral(Join(parts))
    decreases |parts|
  {
    if |parts| > 1 {
      NeutralLinesSlice(parts, 1, |parts|);
      assert parts[1..] == parts[1..|parts|];
      JoinNeutral(parts[1..]);
      var j := Join(parts[1..]);
      var s := parts[0] + "\n" + j;
      forall i | 0 <= i < |s|
        ensures NeutralChar(s[i])
      {
        if i < |parts[0]| {
          assert s[i] == parts[0][i];
        } else if i > |parts[0]| {
          assert s[i] == j[i - |parts[0]| - 1];
        }
      }
    }
  }

  lemma JoinTrimAgree(parts: seq<string>)
    requires NeutralLines(parts)
    ensures Trim(Join(parts), Python) == Trim(Join(parts), JavaScript)
  {
    JoinNeutral(parts);
    NeutralSpaces(Join(parts));
    TrimAgree(Join(parts));
  }

  // ---------------------------------------------------------------- sections

  lemma FirstHeaderNamedAgree(lines: seq<string>, name: string)
    requires NeutralLines(lines)
    ensures FirstHeaderNamed(lines, name, Python) == FirstHeaderNamed(lines, name, JavaScript)
  {
    LabelsAgree(lines);
  }

  /** A section under a non-empty label holds the same lines in both dialects. */
  lemma BodyAgree(lines: seq<string>, ls: seq<Option<string>>, k: string)
    requires NeutralLines(lines) && |ls| == |lines| && LastTrue(Is(ls, k)).Some? && k != ""
    ensures BodyOf(lines, ls, k, Python) == BodyOf(lines, ls, k, JavaScript)
    ensures Trim(Join(BodyOf(lines, ls, k, Python)), Python) == Trim(Join(BodyOf(lines, ls, k, JavaScript)), JavaScript)
  {
    var j := LastTrue(Is(ls, k)).value;
    NeutralLinesSlice(lines, j + 1, NextHeader(ls, j + 1));
    JoinTrimAgree(BodyOf(lines, ls, k, Python));
  }

  /** A named section reads the same in both dialects: its label is not empty, so
      both collect under it. */
  lemma SectionSpecAgree(lines: seq<string>, name: string)
    requires NeutralLines(lines) && name != ""
    ensures SectionSpec(lines, name, Python) == SectionSpec(lines, name, JavaScript)
  {
    LabelsAgree(lines);
    FirstHeaderNamedAgree(lines, name);
    var ls := Labels(lines, Python);
    var h := FirstHeaderNamed(lines, name, Python);
    if h.Some? {
      var k := HeaderLabel(lines[h.value], Python).value;
      assert ls[h.value] == Some(k);
      assert |LowerStr(k)| == |k|;
      if LastTrue(Is(ls, k)).Some? {
        BodyAgree(lines, ls, k);
      }
    }
  }

  lemma SectionTextAgree(lines: seq<string>, name: string)
    requires NeutralLines(lines) && name != ""
    ensures SectionText(SectionsOf(lines, Python), name, Python) == SectionText(SectionsOf(lines, JavaScript), name, JavaScript)
  {
    SectionTextSpec(lines, name, Python);
    SectionTextSpec(lines, name, JavaScript);
    SectionSpecAgree(lines, name);
  }

  lemma FallbackAgree(rest: seq<string>, ac: Option<string>)
    requires NeutralLines(rest)
    ensures FallbackLines(rest, ac, Python) == FallbackLines(rest, ac, JavaScript)
    ensures Trim(Join(FallbackLines(rest, ac, Python)), Python) == Trim(Join(FallbackLines(rest, ac, JavaScript)), JavaScript)
  {
    FirstLineAgree(rest, AcceptanceLabel);
    var f := FallbackLines(rest, ac, Python);
    if Truthy(ac) && FirstLine(rest, AcceptanceLabel, Python).Some? {
      NeutralLinesSlice(rest, 0, FirstLine(rest, AcceptanceLabel, Python).value);
      assert f == rest[0..FirstLine(rest, AcceptanceLabel, Python).value];
    }
    JoinTrimAgree(f);
  }

  lemma StoryAtAgree(lines: seq<string>, i: nat)
    requires NeutralLines(lines) && i < |lines|
    ensures StoryAt(lines, i, Python) == StoryAt(lines, i, JavaScript)
  {
    var rest := lines[i + 1..];
    NeutralLinesSlice(lines, i + 1, |lines|);
    assert rest == lines[i + 1..|lines|];
    SectionTextAgree(rest, "description");
    SectionTextAgree(rest, "acceptance criteria");
    FallbackAgree(rest, SectionText(SectionsOf(rest, Python), "acceptance criteria", Python));
    TitleTextAgree(lines[i]);
  }

  // ---------------------------------------------------------------- the whole document

  /** The JavaScript lines of a neutral document are neutral: each `\r` goes with the
      `\n` after it. */
  lemma {:induction false} SplitNeutral(s: string, i: nat)
    requires NeutralText(s) && i <= |s|
    ensures NeutralLines(SplitNewlineFrom(s, i))
    decreases |s| - i
  {
    var k := NewlineAt(s, i);
    NewlineAtSkips(s, i);
    PieceNeutral(s, i, k);
    if k < |s| {
      SplitNeutral(s, k + 1);
      NeutralLinesCons(DropCr(s[i..k]), SplitNewlineFrom(s, k + 1));
    } else {
      assert s[i..] == s[i..k];
      NeutralLinesCons(s[i..k], []);
    }
  }

  /** A piece cut at a `\n` is neutral once `split` has dropped its final `\r`; the
      last piece holds no `\r` at all. */
  lemma PieceNeutral(s: string, i: nat, k: nat)
    requires NeutralText(s) && i <= k <= |s|
    requires forall x :: i <= x < k ==> s[x] != '\n'
    ensures Neutral(DropCr(s[i..k]))
    ensures k == |s| ==> Neutral(s[i..k])
  {
    var p := s[i..k];
    var q := DropCr(p);
    forall j | 0 <= j < |q|
      ensures NeutralChar(q[j])
    {
      assert q[j] == s[i + j];
      CrEndsPiece(s, i, k, i + j);
      if |p| > 0 {
        assert p[|p| - 1] == s[k - 1];
      }
    }
    if k == |s| {
      forall j | 0 <= j < |p|
        ensures NeutralChar(p[j])
      {
        assert p[j] == s[i + j];
        CrEndsPiece(s, i, k, i + j);
      }
    }
  }

  /** Inside a piece, a `\r` can only be its last character, just before the `\n`. */
  lemma CrEndsPiece(s: string, i: nat, k: nat, j: nat)
    requires NeutralText(s) && i <= j < k <= |s|
    requires forall x :: i <= x < k ==> s[x] != '\n'
    ensures s[j] == '\r' ==> j == k - 1 && k < |s|
    ensures s[j] == '\r' || NeutralChar(s[j])
  {
    if s[j] == '\r' {
      assert IsLineBreak(s[j]);
      assert CrLfAt(s, j);
    }
  }

  lemma NeutralLinesCons(x: string, rest: seq<string>)
    requires Neutral(x) && NeutralLines(rest)
    ensures NeutralLines([x] + rest)
  {
    forall j | 0 <= j < |[x] + rest|
      ensures Neutral(([x] + rest)[j])
    {
      if j > 0 {
        assert ([x] + rest)[j] == rest[j - 1];
      }
    }
  }

  /** A neutral document is neutral once trimmed: its last character is no `\r`, as
      `\r` is whitespace. */
  lemma NeutralTextTrim(s: string)
    requires NeutralText(s)
    ensures NeutralText(Trim(s, Python))
  {
    var a := SkipSpace(s, 0, Python);
    if a < |s| {
      var b := BackSpace(s, |s|, Python);
      var t := s[a..b];
      assert t == Trim(s, Python);
      forall j | 0 <= j < |t|
        ensures t[j] == '\r' || NeutralChar(t[j])
      {
        assert t[j] == s[a + j];
      }
      forall j | 0 <= j < |t| && IsLineBreak(t[j])
        ensures CrLfAt(t, j)
      {
        TrimmedPair(s, a, b, j);
      }
    }
  }

  lemma TrimmedPair(s: string, a: nat, b: nat, j: nat)
    requires CrLfOnly(s) && a < b <= |s| && !IsSpace(s[b - 1], Python)
    requires j < b - a && IsLineBreak(s[a..b][j])
    ensures CrLfAt(s[a..b], j)
  {
    var t := s[a..b];
    assert t[j] == s[a + j];
    assert CrLfAt(s, a + j);
    if t[j] == '\r' {
      assert a + j != b - 1;
      assert t[j + 1] == s[a + j + 1];
    }
  }

  /** Both implementations make the same lines of trimmed neutral content. */
  lemma SplitForAgree(c: string)
    requires NeutralText(c) && c != ""
    requires !IsSpace(c[|c| - 1], Python)
    ensures SplitFor(c, Python) == SplitFor(c, JavaScript)
    ensures NeutralLines(SplitFor(c, JavaScript))
  {
    SplitsAgree(c);
    SplitNeutral(c, 0);
  }

  /** A neutral document is whitespace-neutral: `\r` is whitespace to both. */
  lemma NeutralTextSpaces(s: string)
    requires NeutralText(s)
    ensures SpaceNeutral(s)
  {
    forall i | 0 <= i < |s|
      ensures SpaceAlike(s[i])
    {
      if s[i] != '\r' {
        CharAgree(s[i]);
      }
    }
  }

  /** On a neutral document the Python and JavaScript segmenters give the same result:
      the same error, or the same title, description and acceptance criteria. Line
      endings may be `\n` or `\r\n`. */
  lemma ParseAgrees(content: string)
    requires NeutralText(content)
    ensures Parse(content, Python) == Parse(content, JavaScript)
  {
    NeutralTextSpaces(content);
    TrimAgree(content);
    var c := Trim(content, Python);
    NeutralTextTrim(content);
    if c != "" {
      SplitForAgree(c);
      var lines := SplitFor(c, Python);
      TitleLineAgree(lines);
      match TitleLine(lines, Python)
      case None =>
      case Some(i) =>
        StoryAtAgree(lines, i);
    }
  }

  /** A CRLF document, such as one saved on Windows, is neutral, so both segmenters
      read it alike; `strip()` and `trim()` agree on `\r` padding. */
  lemma CrLfDocumentAgrees()
    ensures NeutralText("# A\r\nb")
    ensures Parse("# A\r\nb", Python) == Parse("# A\r\nb", JavaScript)
    ensures Trim("\r x \r", Python) == Trim("\r x \r", JavaScript) == "x"
  {
    CrLfDocumentNeutral();
    ParseAgrees("# A\r\nb");
    CrPaddingTrimmed();
  }

  lemma CrLfDocumentNeutral()
    ensures NeutralText("# A\r\nb")
  {
    var s := "# A\r\nb";
    forall j | 0 <= j < |s|
      ensures s[j] == '\r' || NeutralChar(s[j])
    {
      assert j == 3 || s[j] in "# A\nb";
    }
    assert CrLfAt(s, 3);
  }

  lemma CrPaddingTrimmed()
    ensures Trim("\r x \r", Python) == Trim("\r x \r", JavaScript) == "x"
  {
    var s := "\r x \r";
    assert SkipSpace(s, 0, Python) == 2;
    assert BackSpace(s, 5, Python) == 3;
    assert SkipSpace(s, 0, JavaScript) == 2;
    assert BackSpace(s, 5, JavaScript) == 3;
  }

  /** A header line whose label trims to nothing (such as `** :**`, see EmptyHeader)
      is where the two scanners part: Python collects the plain line after it ... */
  lemma EmptyLabelCollected(h: string, x: string)
    requires HeaderLabel(h, Python) == Some("") && HeaderLabel(x, Python).None?
    ensures SectionsOf([h] + [x], Python) == SectionMap([""], map["" := [x]])
  {
    HeaderAlone(h, Python);
    SectionsSnoc([h], x, Python);
    CollectUnderEmpty(x);
  }

  lemma CollectUnderEmpty(x: string)
    ensures Step(Scanner(SectionMap([""], map["" := []]), Some("")), x, None, Python).sections
      == SectionMap([""], map["" := [x]])
  {
    assert [] + [x] == [x];
    assert map["" := []]["" := [x]] == map["" := [x]];
  }

  /** ... and JavaScript opens the section and leaves it empty. */
  lemma EmptyLabelSkipped(h: string, x: string)
    requires HeaderLabel(h, JavaScript) == Some("") && HeaderLabel(x, JavaScript).None?
    ensures SectionsOf([h] + [x], JavaScript) == SectionMap([""], map["" := []])
  {
    HeaderAlone(h, JavaScript);
    SectionsSnoc([h], x, JavaScript);
  }

  lemma HeaderAlone(h: string, d: Dialect)
    requires HeaderLabel(h, d) == Some("")
    ensures ScanLines([h], d) == Scanner(SectionMap([""], map["" := []]), Some(""))
  {
    assert ScanLines([], d) == Scanner(Empty, None);
    SectionsSnoc([], h, d);
    assert [] + [h] == [h];
    assert Open(Empty, "") == SectionMap([""], map["" := []]);
  }

  lemma EmptyHeader(d: Dialect)
    ensures HeaderLabel("** :**", d) == Some("")
  {
    var line := "** :**";
    assert SkipSpace(line, 0, d) == 0;
    assert BackSpace(line, |line|, d) == 6;
    assert line[2..3] == " ";
    assert SkipSpace(" ", 0, d) == 1;
  }

  // ---------------------------------------------------------------- URLs

  /** `api_url` and `api` agree when neither the base ends with nor the path starts
      with two slashes. */
  lemma ApiAgrees(base: string, path: string)
    requires !(|base| >= 2 && base[|base| - 1] == '/' && base[|base| - 2] == '/')
    requires !(|path| >= 2 && path[0] == '/' && path[1] == '/')
    ensures MainPy.ApiUrl(base, path) == ServiceNow.Api(base, path)
  {
    assert MainPy.RStripSlash(base) == ServiceNow.DropTrailingSlash(base) by {
      if base != "" && base[|base| - 1] == '/' {
        var b := base[..|base| - 1];
        assert b == "" || b[|b| - 1] != '/';
      }
    }
    assert MainPy.LStripSlash(path) == ServiceNow.DropLeadingSlash(path) by {
      if path != "" && path[0] == '/' {
        var p := path[1..];
        assert p == "" || p[0] != '/';
      }
    }
  }

  /** With a doubled trailing slash they differ: Python removes both, JavaScript one. */
  lemma ApiDiffers(base: string, path: string)
    requires base == "" || base[|base| - 1] != '/'
    requires path == "" || path[0] != '/'
    ensures MainPy.ApiUrl(base + "//", path) == base + "/" + path
    ensures ServiceNow.Api(base + "//", path) == base + "//" + path
  {
    MainPy.RStripSlashes(base, 2);
    assert MainPy.Slashes(2) == "//";
    ServiceNow.ApiRemovesOneSlash(base, path);
  }

  /** Both record links are the same URL. */
  lemma RecordLinksAgree(baseUrl: string, sysId: string)
    ensures MainPy.MakeStoryUrl(baseUrl, sysId) == ServiceNow.RecordUrl(baseUrl, sysId)
  {
  }
}
