/** The JavaScript plug-in's parser (windsuite/parser.js) with `sendAsHtml = false`
    and the file's content passed in: `extractTitle`, `parseSections` and
    `parseMarkdownFile`, each proved against the shared specification. */
module ParserJs {
  import opened Types
  import opened Text
  import opened Patterns
  import opened Lines
  import opened Sections
  import opened Segmenter

  /** The object `{ title, titleLineIdx }` that `extractTitle` returns. */
  datatype TitleInfo = TitleInfo(title: string, titleLineIdx: nat)

  /** `extractTitle(lines)`: the first heading anywhere, otherwise the first
      non-blank line, with its label removed; it throws only when every line is blank. */
  method ExtractTitle(lines: seq<string>) returns (r: Result<TitleInfo, ParseError>)
    ensures r.Failure? <==> forall i :: 0 <= i < |lines| ==> Trim(lines[i], JavaScript) == ""
    ensures r.Failure? ==> r.error == NoTitle
    ensures r.Success? ==>
      && TitleLine(lines, JavaScript) == Some(r.value.titleLineIdx) && r.value.titleLineIdx < |lines|
      && r.value.title == TitleText(lines[r.value.titleLineIdx], JavaScript)
  {
    var title: Option<string> := None;
    var titleLineIdx: nat := 0;
    var i := 0;
    while i < |lines|
      invariant i <= |lines|
      invariant forall j :: 0 <= j < i ==> !IsH1(lines[j], JavaScript)
    {
      var line := lines[i];
      if IsH1(line, JavaScript) {
        title, titleLineIdx := Some(H1Text(line, JavaScript)), i;
        TitleAtHeading(lines, i, JavaScript);
        break;
      }
      i := i + 1;
    }
    if title.None? {
      var i2 := 0;
      while i2 < |lines|
        invariant i2 <= |lines|
        invariant forall j :: 0 <= j < i2 ==> Trim(lines[j], JavaScript) == ""
      {
        var line := lines[i2];
        if Trim(line, JavaScript) != "" {
          title, titleLineIdx := Some(Trim(line, JavaScript)), i2;
          TitleAtNonBlank(lines, i2, JavaScript);
          break;
        }
        i2 := i2 + 1;
      }
    }
    if title.None? {
      return Failure(NoTitle);
    }
    assert TitleLine(lines, JavaScript) == Some(titleLineIdx);
    assert Trim(lines[titleLineIdx], JavaScript) != "";
    assert title.value == RawTitle(lines[titleLineIdx], JavaScript);
    r := Success(TitleInfo(StripUserStory(title.value, JavaScript), titleLineIdx));
  }

  /** `parseSections(lines, startIdx)`: the scan over `lines[startIdx..]`, nothing
      when `startIdx` is past the end. */
  method ParseSections(lines: seq<string>, startIdx: nat) returns (sections: SectionMap)
    ensures startIdx <= |lines| ==> sections == SectionsOf(lines[startIdx..], JavaScript)
    ensures startIdx > |lines| ==> sections == Empty
  {
    sections := Empty;
    if startIdx > |lines| {
      // the loop `for (let i = startIdx; i < lines.length; i++)` does not run
      return;
    }
    var current: Option<string> := None;
    var i := startIdx;
    ghost var seen: seq<string> := [];
    while i < |lines|
      invariant startIdx <= i <= |lines| && seen == lines[startIdx..i]
      invariant ScanLines(seen, JavaScript) == Scanner(sections, current)
    {
      SectionsSnoc(seen, lines[i], JavaScript);
      SliceGrow(lines, startIdx, i);
      sections, current := ScanLine(sections, current, lines[i]);
      seen := seen + [lines[i]];
      i := i + 1;
    }
    assert seen == lines[startIdx..];
  }

  /** The body of the `parseSections` loop for one line. */
  method ScanLine(sections: SectionMap, current: Option<string>, line: string)
    returns (sections': SectionMap, current': Option<string>)
    requires Inv(Scanner(sections, current))
    ensures Scanner(sections', current') == Step(Scanner(sections, current), line, HeaderLabel(line, JavaScript), JavaScript)
  {
    sections', current' := sections, current;
    var m := HeaderLabel(line, JavaScript);
    if m.Some? {
      current' := m;
      sections' := Open(sections, m.value);
    } else if current.Some? && current.value != "" {
      sections' := Append(sections, current.value, line);
    }
  }

  /** `for (const key of Object.keys(sections)) if (key.toLowerCase() === name) ...`. */
  method SectionNamed(sections: SectionMap, name: string) returns (text: Option<string>)
    requires Valid(sections)
    ensures text == SectionText(sections, name, JavaScript)
  {
    text := None;
    var k := 0;
    while k < |sections.keys|
      invariant k <= |sections.keys|
      invariant forall t :: 0 <= t < k ==> LowerStr(sections.keys[t]) != name
    {
      var key := sections.keys[k];
      if LowerStr(key) == name {
        text := Some(Trim(Join(sections.body[key]), JavaScript));
        FirstKeyNamedAt(sections.keys, name, k);
        break;
      }
      k := k + 1;
    }
  }

  /** `parseMarkdownFile` on the content, without HTML rendering. */
  method ParseMarkdownFile(raw: string) returns (r: Result<Story, ParseError>)
    ensures r == Parse(raw, JavaScript)
  {
    var content := Trim(raw, JavaScript);
    if content == "" {
      return Failure(EmptyFile);
    }
    var lines := SplitNewline(content);
    var t := ExtractTitle(lines);
    if t.Failure? {
      return Failure(t.error);
    }
    var scanStart := t.value.titleLineIdx + 1;
    var sections := ParseSections(lines, scanStart);
    var description := SectionNamed(sections, "description");
    var acceptanceCriteria := SectionNamed(sections, "acceptance criteria");
    if description.None? {
      var text := RemainderText(lines[scanStart..], acceptanceCriteria);
      description := Some(text);
    }
    assert Story(t.value.title, description.value, acceptanceCriteria) == StoryAt(lines, t.value.titleLineIdx, JavaScript);
    r := Success(Story(t.value.title, description.value, acceptanceCriteria));
  }

  /** The `description == null` branch: the lines after the title, cut by
      `findIndex` at the first Acceptance Criteria label when the acceptance criteria
      are truthy. */
  method RemainderText(rest: seq<string>, acceptanceCriteria: Option<string>) returns (text: string)
    ensures text == Trim(Join(FallbackLines(rest, acceptanceCriteria, JavaScript)), JavaScript)
  {
    var descLines := rest;
    if Truthy(acceptanceCriteria) {
      var accIdx := FirstLine(descLines, AcceptanceLabel, JavaScript);
      if accIdx.Some? {
        descLines := descLines[..accIdx.value];
      }
    }
    text := Trim(Join(descLines), JavaScript);
  }
}
