/** The user-story segmenter as a specification: what `parse_markdown` (main.py) and
    `parseMarkdownFile` (parser.js, without HTML rendering) compute from the file's
    content, for either dialect. */
module Segmenter {
  import opened Types
  import opened Text
  import opened Patterns
  import opened Lines
  import opened Sections

  /** The three parts of a story. */
  datatype Story = Story(title: string, description: string, acceptanceCriteria: Option<string>)

  /** `Markdown file is empty.` and `Could not determine a title from the markdown.` */
  datatype ParseError = EmptyFile | NoTitle

  /** Python and JavaScript truthiness of an optional string. */
  predicate Truthy(s: Option<string>) {
    s.Some? && s.value != ""
  }

  /** The index of the title line: the first heading, else the first non-blank line. */
  function TitleLine(lines: seq<string>, d: Dialect): (r: Option<nat>)
    ensures r.None? <==> forall i :: 0 <= i < |lines| ==> Trim(lines[i], d) == ""
    ensures r.Some? ==> r.value < |lines| && Trim(lines[r.value], d) != ""
    ensures r.Some? && IsH1(lines[r.value], d) ==> forall j :: 0 <= j < r.value ==> !IsH1(lines[j], d)
    ensures r.Some? && !IsH1(lines[r.value], d) ==>
      && (forall j :: 0 <= j < |lines| ==> !IsH1(lines[j], d))
      && (forall j :: 0 <= j < r.value ==> Trim(lines[j], d) == "")
  {
    var h := FirstLine(lines, Heading, d);
    if h.Some? then
      HeadingNotBlank(lines[h.value], d);
      h
    else FirstLine(lines, NonBlank, d)
  }

  /** The title line's text before the label is removed: the heading's text or the
      trimmed line. */
  function RawTitle(line: string, d: Dialect): string {
    if IsH1(line, d) then H1Text(line, d) else Trim(line, d)
  }

  /** The title taken from the title line, with a leading `User Story:` label removed. */
  function TitleText(line: string, d: Dialect): string {
    StripUserStory(RawTitle(line, d), d)
  }

  /** The trimmed `\n`-join of the first section whose key lower-cases to `name`. */
  function SectionText(m: SectionMap, name: string, d: Dialect): Option<string>
    requires Valid(m)
  {
    match FirstKeyNamed(m.keys, name)
    case None => None
    case Some(k) => Some(Trim(Join(m.body[k]), d))
  }

  /** The lines of the fallback description: cut before the first exact Acceptance
      Criteria label only when acceptance criteria were found and are non-empty. */
  function FallbackLines(rest: seq<string>, ac: Option<string>, d: Dialect): seq<string> {
    if Truthy(ac) then
      match FirstLine(rest, AcceptanceLabel, d)
      case Some(i) => rest[..i]
      case None => rest
    else rest
  }

  /** The lines of the trimmed content after its title line. */
  function AfterTitle(content: string, d: Dialect): seq<string> {
    var lines := SplitFor(Trim(content, d), d);
    match TitleLine(lines, d)
    case Some(i) => lines[i + 1..]
    case None => []
  }

  /** The segmenter: trim, split, find the title, scan the rest for sections. */
  function Parse(content: string, d: Dialect): Result<Story, ParseError> {
    var c := Trim(content, d);
    if c == "" then Failure(EmptyFile)
    else
      var lines := SplitFor(c, d);
      match TitleLine(lines, d)
      case None => Failure(NoTitle)
      case Some(i) => Success(StoryAt(lines, i, d))
  }

  /** The story once line `i` is the title line. */
  function StoryAt(lines: seq<string>, i: nat, d: Dialect): Story
    requires i < |lines|
  {
    var rest := lines[i + 1..];
    var m := SectionsOf(rest, d);
    var desc := SectionText(m, "description", d);
    var ac := SectionText(m, "acceptance criteria", d);
    var description := if desc.Some? then desc.value else Trim(Join(FallbackLines(rest, ac, d)), d);
    Story(TitleText(lines[i], d), description, ac)
  }

  /** The first header line whose label lower-cases to `name`. */
  function FirstHeaderNamed(lines: seq<string>, name: string, d: Dialect): (r: Option<nat>)
    ensures r.Some? ==>
      r.value < |lines| && HeaderLabel(lines[r.value], d).Some? && LowerStr(HeaderLabel(lines[r.value], d).value) == name
    ensures r.Some? ==> forall j :: 0 <= j < r.value ==>
      !(HeaderLabel(lines[j], d).Some? && LowerStr(HeaderLabel(lines[j], d).value) == name)
    ensures r.None? <==> forall j :: 0 <= j < |lines| ==>
      !(HeaderLabel(lines[j], d).Some? && LowerStr(HeaderLabel(lines[j], d).value) == name)
  {
    FirstTrue(Named(Labels(lines, d), name))
  }

  /** The section named `name` as the lines determine it: `None` when no header
      label lower-cases to `name`, otherwise the trimmed join of the lines after the
      last header carrying the first such label, up to the next header. */
  function SectionSpec(lines: seq<string>, name: string, d: Dialect): Option<string> {
    match FirstHeaderNamed(lines, name, d)
    case None => None
    case Some(h) =>
      var k := HeaderLabel(lines[h], d).value;
      var ls := Labels(lines, d);
      if LastTrue(Is(ls, k)).Some? then Some(Trim(Join(BodyOf(lines, ls, k, d)), d)) else None
  }

  /** The map-based lookup agrees with the line-based description of a section. */
  lemma SectionTextSpec(lines: seq<string>, name: string, d: Dialect)
    ensures SectionText(SectionsOf(lines, d), name, d) == SectionSpec(lines, name, d)
  {
    var ls := Labels(lines, d);
    ScanKeyOrder(lines, ls, name, d);
    var m := SectionsOf(lines, d);
    match FirstKeyNamed(m.keys, name)
    case None =>
    case Some(k) =>
      var h := FirstHeaderNamed(lines, name, d).value;
      assert ls[h] == Some(k);
      ScanBody(lines, ls, k, d);
  }

  /** The document is rejected exactly when it is blank, and then always as empty:
      once the content is non-blank a title line always exists. */
  lemma ParseFails(content: string, d: Dialect)
    ensures Parse(content, d).Failure? <==> AllSpace(content, d)
    ensures Parse(content, d).Failure? ==> Parse(content, d).error == EmptyFile
  {
    var c := Trim(content, d);
    if c != "" {
      assert !IsSpace(c[0], d);
      NonBlankLine(c, d);
    }
  }

  /** A successful parse has a trimmed title taken from the title line. */
  lemma ParseTitle(content: string, d: Dialect)
    requires !AllSpace(content, d)
    ensures var lines := SplitFor(Trim(content, d), d);
      && TitleLine(lines, d).Some?
      && Parse(content, d).Success?
      && Parse(content, d).value.title == TitleText(lines[TitleLine(lines, d).value], d)
  {
    ParseFails(content, d);
  }

  /** Acceptance criteria are absent exactly when no header after the title is named
      `Acceptance Criteria` in any letter case; otherwise they are that section's text. */
  lemma ParseAcceptanceCriteria(content: string, d: Dialect)
    requires Parse(content, d).Success?
    ensures Parse(content, d).value.acceptanceCriteria == SectionSpec(AfterTitle(content, d), "acceptance criteria", d)
    ensures Parse(content, d).value.acceptanceCriteria.None?
      <==> FirstHeaderNamed(AfterTitle(content, d), "acceptance criteria", d).None?
  {
    var rest := AfterTitle(content, d);
    SectionTextSpec(rest, "acceptance criteria", d);
    SectionSpecSome(rest, "acceptance criteria", d);
  }

  /** A named header makes its section present. */
  lemma SectionSpecSome(lines: seq<string>, name: string, d: Dialect)
    ensures SectionSpec(lines, name, d).None? <==> FirstHeaderNamed(lines, name, d).None?
  {
    var ls := Labels(lines, d);
    if FirstHeaderNamed(lines, name, d).Some? {
      var h := FirstHeaderNamed(lines, name, d).value;
      var k := HeaderLabel(lines[h], d).value;
      assert Is(ls, k)[h];
    }
  }

  /** The description is the Description section's text when a header names one, and
      otherwise the rest of the document, cut at the Acceptance Criteria label only
      when acceptance criteria are non-empty. */
  lemma ParseDescription(content: string, d: Dialect)
    requires Parse(content, d).Success?
    ensures var rest := AfterTitle(content, d);
      var s := Parse(content, d).value;
      s.description == if SectionSpec(rest, "description", d).Some? then SectionSpec(rest, "description", d).value
        else Trim(Join(FallbackLines(rest, SectionSpec(rest, "acceptance criteria", d), d)), d)
  {
    var rest := AfterTitle(content, d);
    SectionTextSpec(rest, "description", d);
    SectionTextSpec(rest, "acceptance criteria", d);
  }

  /** Without a header after the title line, the story has no acceptance criteria and
      its description is every line after the title line, joined and trimmed. */
  lemma NoHeadersStory(lines: seq<string>, i: nat, d: Dialect)
    requires i < |lines|
    requires forall l :: l in lines[i + 1..] ==> HeaderLabel(l, d).None?
    ensures StoryAt(lines, i, d) == Story(TitleText(lines[i], d), Trim(Join(lines[i + 1..]), d), None)
  {
    var rest := lines[i + 1..];
    NoHeaderNamed(rest, "description", d);
    NoHeaderNamed(rest, "acceptance criteria", d);
    SectionTextSpec(rest, "description", d);
    SectionTextSpec(rest, "acceptance criteria", d);
  }

  /** A document without section headers after its title: the description is the
      whole body after the title line, trimmed, and the acceptance criteria are absent. */
  lemma ParseWithoutSections(content: string, d: Dialect)
    requires Parse(content, d).Success?
    requires forall l :: l in AfterTitle(content, d) ==> HeaderLabel(l, d).None?
    ensures Parse(content, d).value.description == Trim(Join(AfterTitle(content, d)), d)
    ensures Parse(content, d).value.acceptanceCriteria.None?
  {
    var rest := AfterTitle(content, d);
    NoHeaderNamed(rest, "description", d);
    NoHeaderNamed(rest, "acceptance criteria", d);
    ParseAcceptanceCriteria(content, d);
    ParseDescription(content, d);
  }

  lemma NoHeaderNamed(lines: seq<string>, name: string, d: Dialect)
    requires forall l :: l in lines ==> HeaderLabel(l, d).None?
    ensures SectionSpec(lines, name, d).None?
  {
  }

  /** Lines before the first header never reach any section. */
  lemma PrefixIgnored(pre: seq<string>, rest: seq<string>, d: Dialect)
    requires forall i :: 0 <= i < |pre| ==> HeaderLabel(pre[i], d).None?
    ensures SectionsOf(pre + rest, d) == SectionsOf(rest, d)
  {
    var lp, lr := Labels(pre, d), Labels(rest, d);
    LabelsAppend(pre, rest, d);
    LeadingLinesDropped(pre, lp, rest, lr, d);
  }

  lemma LabelsAppend(a: seq<string>, b: seq<string>, d: Dialect)
    ensures Labels(a + b, d) == Labels(a, d) + Labels(b, d)
  {
    var l, la, lb := Labels(a + b, d), Labels(a, d), Labels(b, d);
    forall i | 0 <= i < |l|
      ensures l[i] == (la + lb)[i]
    {
      if i < |a| {
        assert (a + b)[i] == a[i];
      } else {
        assert (a + b)[i] == b[i - |a|];
      }
    }
  }

  /** No section body holds a header line. */
  lemma BodiesHoldNoHeaders(lines: seq<string>, k: string, d: Dialect, q: nat)
    requires k in SectionsOf(lines, d).body && q < |SectionsOf(lines, d).body[k]|
    ensures HeaderLabel(SectionsOf(lines, d).body[k][q], d).None?
  {
    HeadersNeverInBodies(lines, Labels(lines, d), k, d, q);
  }

  /** A header whose label trims to nothing opens a section that JavaScript never
      fills (`if (current)` is false for `""`) and Python fills like any other. */
  lemma EmptyLabel(lines: seq<string>, d: Dialect)
    requires "" in SectionsOf(lines, d).body
    ensures LastTrue(Is(Labels(lines, d), "")).Some?
    ensures d == JavaScript ==> SectionsOf(lines, d).body[""] == []
    ensures d == Python ==> SectionsOf(lines, d).body[""] == BodyOf(lines, Labels(lines, d), "", d)
  {
    ScanKeys(lines, Labels(lines, d), "", d);
    ScanBody(lines, Labels(lines, d), "", d);
  }

  /** A loop that stops at the first heading finds the title line. */
  lemma TitleAtHeading(lines: seq<string>, i: nat, d: Dialect)
    requires i < |lines| && IsH1(lines[i], d)
    requires forall j :: 0 <= j < i ==> !IsH1(lines[j], d)
    ensures TitleLine(lines, d) == Some(i)
  {
    FirstLineAt(lines, Heading, i, d);
  }

  /** Without headings, a loop that stops at the first non-blank line finds the title line. */
  lemma TitleAtNonBlank(lines: seq<string>, i: nat, d: Dialect)
    requires forall j :: 0 <= j < |lines| ==> !IsH1(lines[j], d)
    requires i < |lines| && Trim(lines[i], d) != ""
    requires forall j :: 0 <= j < i ==> Trim(lines[j], d) == ""
    ensures TitleLine(lines, d) == Some(i)
  {
    FirstLineAt(lines, NonBlank, i, d);
  }
  // ---------------------------------------------------------------- a worked shape

  /** Trimmed text: non-empty, without whitespace at either end. */
  predicate Trimmed(s: string, d: Dialect) {
    s != "" && !IsSpace(s[0], d) && !IsSpace(s[|s| - 1], d)
  }

  lemma TrimmedIsTrim(s: string, d: Dialect)
    requires Trimmed(s, d)
    ensures Trim(s, d) == s
  {
    assert "" + s + "" == s;
    TrimPadded("", s, "", d);
  }

  /** A document of two lines, a title labelled `User Story:` and one line of text
      that is neither a heading nor a section header, such as
      `User Story: Add cart` / `As a user I want a cart.`: the title is the label's
      text, the description is the second line, and there are no acceptance criteria. */
  lemma LabelledTitleAndText(t: string, b: string, d: Dialect)
    requires Trimmed(t, d) && Trimmed(b, d) && Breakless(t) && Breakless(b)
    requires !IsH1(b, d) && HeaderLabel(b, d).None?
    ensures Parse("User Story: " + t + "\n" + b, d) == Success(Story(t, b, None))
  {
    var l1 := "User Story: " + t;
    var c := l1 + "\n" + b;
    assert c == "User Story: " + t + "\n" + b;
    assert l1[0] == 'U' && l1[|l1| - 1] == t[|t| - 1] && l1[12..] == t;
    assert Trimmed(c, d) by {
      assert c[0] == 'U' && c[|c| - 1] == b[|b| - 1];
    }
    TrimmedIsTrim(c, d);
    TwoLines(l1, b, d);
    var lines := [l1, b];
    LabelledTitleLine(l1, b, d);
    assert Parse(c, d) == Success(StoryAt(lines, 0, d));
    LabelledStory(t, b, d);
  }

  /** In those two lines the title line is the first. */
  lemma LabelledTitleLine(l1: string, b: string, d: Dialect)
    requires |l1| > 12 && l1[0] == 'U' && !IsSpace(l1[|l1| - 1], d) && !IsH1(b, d)
    ensures TitleLine([l1, b], d) == Some(0)
  {
    assert !IsH1(l1, d) by {
      assert SkipSpace(l1, 0, d) == 0;
    }
    assert Trim(l1, d) != "";
    TitleAtNonBlank([l1, b], 0, d);
  }

  /** The story once the labelled line is the title line. */
  lemma LabelledStory(t: string, b: string, d: Dialect)
    requires Trimmed(t, d) && Trimmed(b, d) && HeaderLabel(b, d).None?
    ensures StoryAt(["User Story: " + t, b], 0, d) == Story(t, b, None)
  {
    var lines := ["User Story: " + t, b];
    NoHeadersStory(lines, 0, d);
    LabelledTitleText(t, d);
    assert lines[1..] == [b];
    TrimmedIsTrim(b, d);
  }

  /** The title text of a trimmed line labelled `User Story: ` is the rest of the line. */
  lemma LabelledTitleText(t: string, d: Dialect)
    requires Trimmed(t, d)
    ensures TitleText("User Story: " + t, d) == t
  {
    var l1 := "User Story: " + t;
    assert Trimmed(l1, d) by {
      assert l1[0] == 'U' && l1[|l1| - 1] == t[|t| - 1];
    }
    TrimmedIsTrim(l1, d);
    assert !IsH1(l1, d) by {
      assert SkipSpace(l1, 0, d) == 0;
    }
    StripLegacyLabel(t, d);
  }

  /** The two lines of `l1 + "\n" + b` in either runtime. */
  lemma TwoLines(l1: string, b: string, d: Dialect)
    requires l1 != "" && b != "" && !IsSpace(l1[|l1| - 1], d)
    requires |l1| >= 12 && l1[..12] == "User Story: " && Breakless(l1[12..]) && Breakless(b)
    ensures SplitFor(l1 + "\n" + b, d) == [l1, b]
  {
    assert Join([l1, b]) == l1 + "\n" + b;
    assert Breakless(l1) by {
      forall q | 0 <= q < |l1| ensures !IsLineBreak(l1[q]) {
        if q >= 12 {
          assert l1[q] == l1[12..][q - 12];
        } else {
          assert l1[q] == "User Story: "[q];
        }
      }
    }
    match d
    case Python =>
      SplitLinesJoin([l1, b]);
    case JavaScript =>
      assert DropCr(l1) == l1;
      SplitNewlineJoin([l1, b]);
  }
}
