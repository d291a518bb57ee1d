/** The Python command-line publisher (main.py): `parse_markdown` on the file's
    content, the URL helpers, and what `main` does with a parsed story: the request
    payload and the choice between creating, updating and reporting a record. */
module MainPy {
  import opened Types
  import opened Text
  import opened Patterns
  import opened Lines
  import opened Sections
  import opened Segmenter

  /** `parse_markdown` after `f.read()`: the loops of main.py, one for one. */
  method ParseMarkdown(content: string) returns (r: Result<Story, ParseError>)
    ensures r == Parse(content, Python)
  {
    var c := Trim(content, Python);
    if c == "" {
      return Failure(EmptyFile);
    }
    var lines := SplitLines(c);
    var title, titleLineIdx := FindTitle(lines);
    if title.None? {
      return Failure(NoTitle);
    }
    var story := StoryFrom(lines, title.value, titleLineIdx);
    r := Success(story);
  }

  /** The rest of `parse_markdown` once the title line is known: the label removed
      from the title, the sections after it, and the description fallback. */
  method StoryFrom(lines: seq<string>, title: string, titleLineIdx: nat) returns (story: Story)
    requires titleLineIdx < |lines| && title == RawTitle(lines[titleLineIdx], Python)
    ensures story == StoryAt(lines, titleLineIdx, Python)
  {
    var storyTitle := StripUserStory(title, Python);
    var scanStart := titleLineIdx + 1;
    var rest := lines[scanStart..];
    var sections := ScanSections(rest);
    var descriptionSection := KeyedText(sections, "description");
    var acceptanceCriteria := KeyedText(sections, "acceptance criteria");
    var description: string;
    if descriptionSection.Some? {
      description := descriptionSection.value;
    } else {
      description := FallbackDescription(rest, acceptanceCriteria);
    }
    story := Story(storyTitle, description, acceptanceCriteria);
  }

  /** The two title loops: the first heading anywhere, otherwise the first
      non-blank line, with the line's index. */
  method FindTitle(lines: seq<string>) returns (title: Option<string>, titleLineIdx: nat)
    ensures title.None? <==> TitleLine(lines, Python).None?
    ensures title.Some? ==>
      && TitleLine(lines, Python) == Some(titleLineIdx) && titleLineIdx < |lines|
      && title.value == RawTitle(lines[titleLineIdx], Python)
  {
    title, titleLineIdx := None, 0;
    var idx := 0;
    while idx < |lines|
      invariant idx <= |lines|
      invariant forall j :: 0 <= j < idx ==> !IsH1(lines[j], Python)
    {
      if IsH1(lines[idx], Python) {
        title, titleLineIdx := Some(H1Text(lines[idx], Python)), idx;
        TitleAtHeading(lines, idx, Python);
        return;
      }
      idx := idx + 1;
    }
    var idx2 := 0;
    while idx2 < |lines|
      invariant idx2 <= |lines|
      invariant forall j :: 0 <= j < idx2 ==> Trim(lines[j], Python) == ""
    {
      if Trim(lines[idx2], Python) != "" {
        title, titleLineIdx := Some(Trim(lines[idx2], Python)), idx2;
        TitleAtNonBlank(lines, idx2, Python);
        return;
      }
      idx2 := idx2 + 1;
    }
  }

  /** The scanning loop: a header line sets `current_section` and resets its list,
      any other line is appended while `current_section is not None`. */
  method ScanSections(rest: seq<string>) returns (sections: SectionMap)
    ensures sections == SectionsOf(rest, Python)
  {
    sections := Empty;
    var currentSection: Option<string> := None;
    var i := 0;
    while i < |rest|
      invariant i <= |rest|
      invariant ScanLines(rest[..i], Python) == Scanner(sections, currentSection)
    {
      SectionsSnoc(rest[..i], rest[i], Python);
      SliceGrow(rest, 0, i);
      sections, currentSection := ScanLine(sections, currentSection, rest[i]);
      i := i + 1;
    }
    assert rest[..|rest|] == rest;
  }

  /** The body of the `for line in lines[scan_start:]` loop for one line. */
  method ScanLine(sections: SectionMap, currentSection: Option<string>, line: string)
    returns (sections': SectionMap, currentSection': Option<string>)
    requires Inv(Scanner(sections, currentSection))
    ensures Scanner(sections', currentSection') == Step(Scanner(sections, currentSection), line, HeaderLabel(line, Python), Python)
  {
    sections', currentSection' := sections, currentSection;
    var m := HeaderLabel(line, Python);
    if m.Some? {
      currentSection' := m;
      sections' := Open(sections, m.value);
    } else if currentSection.Some? {
      sections' := Append(sections, currentSection.value, line);
    }
  }

  /** The fallback description: the lines after the title, cut before the first
      Acceptance Criteria label line when the acceptance criteria are non-empty. */
  method FallbackDescription(rest: seq<string>, acceptanceCriteria: Option<string>) returns (description: string)
    ensures description == Trim(Join(FallbackLines(rest, acceptanceCriteria, Python)), Python)
  {
    var descLines := rest;
    if Truthy(acceptanceCriteria) {
      var accStartIdx := FindAcLabel(descLines);
      if accStartIdx.Some? {
        descLines := descLines[..accStartIdx.value];
      }
    }
    description := Trim(Join(descLines), Python);
  }

  /** The loop that looks for `^\s*\*\*Acceptance Criteria:\*\*\s*$`, case-insensitively. */
  method FindAcLabel(descLines: seq<string>) returns (accStartIdx: Option<nat>)
    ensures accStartIdx == FirstLine(descLines, AcceptanceLabel, Python)
  {
    accStartIdx := None;
    var i := 0;
    while i < |descLines|
      invariant i <= |descLines| && accStartIdx.None?
      invariant forall t :: 0 <= t < i ==> !Holds(AcceptanceLabel, descLines[t], Python)
    {
      var hit := AcLabelAt(descLines, i);
      if hit {
        accStartIdx := Some(i);
        break;
      }
      i := i + 1;
    }
    if accStartIdx.None? {
      FirstLineNone(descLines, AcceptanceLabel, Python);
    }
  }

  /** The `re.match` test of one line in that loop, after no earlier line matched. */
  method AcLabelAt(descLines: seq<string>, i: nat) returns (hit: bool)
    requires i < |descLines|
    requires forall t :: 0 <= t < i ==> !Holds(AcceptanceLabel, descLines[t], Python)
    ensures hit ==> FirstLine(descLines, AcceptanceLabel, Python) == Some(i)
    ensures !hit ==> !Holds(AcceptanceLabel, descLines[i], Python)
  {
    hit := IsAcLabel(descLines[i], Python);
    if hit {
      FirstLineAt(descLines, AcceptanceLabel, i, Python);
    }
  }

  /** `for key in sections.keys(): if key.lower() == name: ... break`: the trimmed
      join of the first key that lower-cases to `name`. */
  method KeyedText(sections: SectionMap, name: string) returns (text: Option<string>)
    requires Valid(sections)
    ensures text == SectionText(sections, name, Python)
  {
    text := None;
    var k := 0;
    while k < |sections.keys|
      invariant k <= |sections.keys|
      invariant forall t :: 0 <= t < k ==> LowerStr(sections.keys[t]) != name
    {
      var key := sections.keys[k];
      if LowerStr(key) == name {
        text := Some(Trim(Join(sections.body[key]), Python));
        FirstKeyNamedAt(sections.keys, name, k);
        break;
      }
      k := k + 1;
    }
  }

  // ---------------------------------------------------------------- URLs

  /** A run of `n` slashes. */
  function Slashes(n: nat): (s: string)
    ensures |s| == n && forall i :: 0 <= i < n ==> s[i] == '/'
  {
    seq(n, _ => '/')
  }

  /** `s.rstrip('/')`: the longest prefix that does not end with a slash, all the
      rest being slashes. */
  function RStripSlash(s: string): (r: string)
    ensures |r| <= |s| && r == s[..|r|]
    ensures forall i :: |r| <= i < |s| ==> s[i] == '/'
    ensures r == "" || r[|r| - 1] != '/'
  {
    if s != "" && s[|s| - 1] == '/' then RStripSlash(s[..|s| - 1]) else s
  }

  /** `s.lstrip('/')`: the longest suffix that does not start with a slash, all
      before it being slashes. */
  function LStripSlash(s: string): (r: string)
    ensures |r| <= |s| && r == s[|s| - |r|..]
    ensures forall i :: 0 <= i < |s| - |r| ==> s[i] == '/'
    ensures r == "" || r[0] != '/'
  {
    if s != "" && s[0] == '/' then LStripSlash(s[1..]) else s
  }

  /** `api_url(base, path)`. */
  function ApiUrl(base: string, path: string): string {
    RStripSlash(base) + "/" + LStripSlash(path)
  }

  /** However many slashes end the base or start the path, exactly one separates them. */
  lemma ApiUrlSlashes(base: string, path: string, m: nat, n: nat)
    ensures ApiUrl(base + Slashes(m), Slashes(n) + path) == ApiUrl(base, path)
  {
    RStripSlashes(base, m);
    LStripSlashes(path, n);
  }

  lemma {:induction false} RStripSlashes(s: string, n: nat)
    ensures RStripSlash(s + Slashes(n)) == RStripSlash(s)
  {
    if n == 0 {
      assert s + Slashes(0) == s;
    } else {
      assert (s + Slashes(n))[..|s| + n - 1] == s + Slashes(n - 1);
      RStripSlashes(s, n - 1);
    }
  }

  lemma {:induction false} LStripSlashes(s: string, n: nat)
    ensures LStripSlash(Slashes(n) + s) == LStripSlash(s)
  {
    if n == 0 {
      assert Slashes(0) + s == s;
    } else {
      assert (Slashes(n) + s)[1..] == Slashes(n - 1) + s;
      LStripSlashes(s, n - 1);
    }
  }

  /** The base and path of a URL built by `api_url`, read back: the separator is the
      only slash between the stripped base and the stripped path. */
  lemma ApiUrlParts(base: string, path: string)
    ensures var b, p, u := RStripSlash(base), LStripSlash(path), ApiUrl(base, path);
      && |u| == |b| + 1 + |p| && u[..|b|] == b && u[|b|] == '/' && u[|b| + 1..] == p
      && (|b| > 0 ==> u[|b| - 1] != '/') && (|p| > 0 ==> u[|b| + 1] != '/')
  {
  }

  /** The record page's path after the instance base. */
  const StoryPath := "/nav_to.do?uri=rm_story.do?sys_id="

  /** `make_story_url(base_url, sys_id)`: the base, the fixed path, the id. */
  function MakeStoryUrl(baseUrl: string, sysId: string): (u: string)
    ensures |u| == |baseUrl| + |StoryPath| + |sysId|
    ensures u[..|baseUrl|] == baseUrl && u[|baseUrl|..|baseUrl| + |StoryPath|] == StoryPath
    ensures u[|baseUrl| + |StoryPath|..] == sysId
  {
    baseUrl + StoryPath + sysId
  }

  /** Different records on one instance get different links. */
  lemma StoryUrlInjective(baseUrl: string, a: string, b: string)
    requires MakeStoryUrl(baseUrl, a) == MakeStoryUrl(baseUrl, b)
    ensures a == b
  {
    var u := MakeStoryUrl(baseUrl, a);
    assert a == u[|baseUrl| + |StoryPath|..];
  }

  // ---------------------------------------------------------------- payload

  /** The optional command-line fields; argparse leaves an absent option `None`. */
  datatype Options = Options(priority: Option<string>, assignedTo: Option<string>,
                             product: Option<string>, storyPoints: Option<string>)

  /** What `json.loads(args.additional)` gives: a value, or an exception. */
  datatype Decoded = Malformed | Decoded(json: Json)

  /** `Invalid --additional JSON: ...` followed by exit status 1. */
  datatype PayloadError = InvalidAdditional

  /** The length `short_description` is cut to. */
  const ShortLimit := 160

  function Min(a: int, b: int): int {
    if a < b then a else b
  }

  /** `key` holds `v`'s string exactly when `v` is truthy. */
  predicate OptionalField(p: map<string, Json>, key: string, v: Option<string>) {
    && (key in p <==> Truthy(v))
    && (key in p ==> p[key] == JString(v.value))
  }

  /** The names the payload is built from before `--additional` is merged. */
  predicate BaseField(key: string) {
    key in {"short_description", "description", "acceptance_criteria", "priority",
            "assigned_to", "product", "story_points"}
  }

  /** `if value: payload[key] = value`. */
  function SetIf(p: map<string, Json>, key: string, v: Option<string>): (q: map<string, Json>)
    ensures Truthy(v) ==> key in q && q[key] == JString(v.value)
    ensures !Truthy(v) ==> q == p
    ensures forall k :: k != key ==> (k in q <==> k in p)
    ensures forall k :: k != key && k in p ==> q[k] == p[k]
  {
    if Truthy(v) then p[key := JString(v.value)] else p
  }

  /** The two fields every payload starts with. */
  function StoryFields(story: Story): map<string, Json> {
    map["short_description" := JString(story.title[..Min(ShortLimit, |story.title|)]),
        "description" := JString(story.description)]
  }

  /** The payload before `--additional`: the two story fields, then every truthy
      optional field. */
  function BasePayload(story: Story, opts: Options): map<string, Json> {
    var p0 := StoryFields(story);
    var p1 := SetIf(p0, "acceptance_criteria", story.acceptanceCriteria);
    var p2 := SetIf(p1, "priority", opts.priority);
    var p3 := SetIf(p2, "assigned_to", opts.assignedTo);
    var p4 := SetIf(p3, "product", opts.product);
    SetIf(p4, "story_points", opts.storyPoints)
  }

  /** What the payload holds before `--additional`: the cut title and the
      description always, each optional field exactly when it is truthy, and nothing
      else. */
  lemma BasePayloadFields(story: Story, opts: Options)
    ensures var p := BasePayload(story, opts);
      && "short_description" in p && p["short_description"] == JString(story.title[..Min(ShortLimit, |story.title|)])
      && "description" in p && p["description"] == JString(story.description)
    ensures OptionalField(BasePayload(story, opts), "acceptance_criteria", story.acceptanceCriteria)
    ensures OptionalField(BasePayload(story, opts), "priority", opts.priority)
    ensures OptionalField(BasePayload(story, opts), "assigned_to", opts.assignedTo)
    ensures OptionalField(BasePayload(story, opts), "product", opts.product)
    ensures OptionalField(BasePayload(story, opts), "story_points", opts.storyPoints)
    ensures forall k :: k in BasePayload(story, opts) ==> BaseField(k)
  {
    BaseStoryFields(story, opts);
    BaseOptionalFields(story, opts);
    BaseFieldsOnly(story, opts);
  }

  lemma BaseStoryFields(story: Story, opts: Options)
    ensures var p := BasePayload(story, opts);
      && "short_description" in p && p["short_description"] == JString(story.title[..Min(ShortLimit, |story.title|)])
      && "description" in p && p["description"] == JString(story.description)
  {
  }

  lemma BaseOptionalFields(story: Story, opts: Options)
    ensures OptionalField(BasePayload(story, opts), "acceptance_criteria", story.acceptanceCriteria)
    ensures OptionalField(BasePayload(story, opts), "priority", opts.priority)
    ensures OptionalField(BasePayload(story, opts), "assigned_to", opts.assignedTo)
    ensures OptionalField(BasePayload(story, opts), "product", opts.product)
    ensures OptionalField(BasePayload(story, opts), "story_points", opts.storyPoints)
  {
  }

  lemma BaseFieldsOnly(story: Story, opts: Options)
    ensures forall k :: k in BasePayload(story, opts) ==> BaseField(k)
  {
  }

  /** The short description is a prefix of the title and never longer than the limit. */
  lemma ShortDescriptionBound(story: Story, opts: Options)
    ensures "short_description" in BasePayload(story, opts)
    ensures var s := BasePayload(story, opts)["short_description"].str;
      |s| <= ShortLimit && s <= story.title && (|story.title| <= ShortLimit ==> s == story.title)
  {
    BasePayloadFields(story, opts);
  }

  /** Whether `--additional` is given and decodes to something other than an object. */
  predicate Rejected(additional: Option<string>, decoded: Decoded) {
    Truthy(additional) && !(decoded.Decoded? && decoded.json.JObject?)
  }

  /** The object `--additional` contributes (none when the option is falsy). */
  function Extra(additional: Option<string>, decoded: Decoded): map<string, Json>
    requires !Rejected(additional, decoded)
  {
    if Truthy(additional) then decoded.json.fields else map[]
  }

  /** main.py:249-276 with `--plain`: the payload dict built by in-place updates, and
      `payload.update(extra)` last; `--additional` overrides any key. */
  method BuildPayload(story: Story, opts: Options, additional: Option<string>, decoded: Decoded)
    returns (r: Result<map<string, Json>, PayloadError>)
    ensures r.Failure? <==> Rejected(additional, decoded)
    ensures r.Success? ==> r.value == BasePayload(story, opts) + Extra(additional, decoded)
  {
    var payload := StoryPayload(story, opts);
    r := MergeAdditional(payload, additional, decoded);
  }

  /** main.py:249-265: the story fields and the truthy optional fields. */
  method StoryPayload(story: Story, opts: Options) returns (payload: map<string, Json>)
    ensures payload == BasePayload(story, opts)
  {
    payload := StoryFields(story);
    ghost var p0 := payload;
    if Truthy(story.acceptanceCriteria) {
      payload := payload["acceptance_criteria" := JString(story.acceptanceCriteria.value)];
    }
    assert payload == SetIf(p0, "acceptance_criteria", story.acceptanceCriteria);
    ghost var p1 := payload;
    if Truthy(opts.priority) {
      payload := payload["priority" := JString(opts.priority.value)];
    }
    assert payload == SetIf(p1, "priority", opts.priority);
    ghost var p2 := payload;
    if Truthy(opts.assignedTo) {
      payload := payload["assigned_to" := JString(opts.assignedTo.value)];
    }
    assert payload == SetIf(p2, "assigned_to", opts.assignedTo);
    ghost var p3 := payload;
    if Truthy(opts.product) {
      payload := payload["product" := JString(opts.product.value)];
    }
    assert payload == SetIf(p3, "product", opts.product);
    ghost var p4 := payload;
    if Truthy(opts.storyPoints) {
      payload := payload["story_points" := JString(opts.storyPoints.value)];
    }
    assert payload == SetIf(p4, "story_points", opts.storyPoints);
  }

  /** main.py:267-276: a truthy `--additional` must decode to an object, whose
      entries then replace or join the payload's. */
  method MergeAdditional(payload: map<string, Json>, additional: Option<string>, decoded: Decoded)
    returns (r: Result<map<string, Json>, PayloadError>)
    ensures r.Failure? <==> Rejected(additional, decoded)
    ensures r.Success? ==> r.value == payload + Extra(additional, decoded)
    ensures r.Success? ==> forall k :: k in Extra(additional, decoded) ==>
      k in r.value && r.value[k] == Extra(additional, decoded)[k]
    ensures r.Success? ==> forall k :: k in payload && k !in Extra(additional, decoded) ==>
      k in r.value && r.value[k] == payload[k]
    ensures r.Success? ==> r.value.Keys == payload.Keys + Extra(additional, decoded).Keys
  {
    if Truthy(additional) {
      match decoded
      case Decoded(JObject(extra)) =>
        return Success(payload + extra);
      case _ =>
        return Failure(InvalidAdditional);
    }
    return Success(payload);
  }

  // ---------------------------------------------------------------- decision

  /** What `main` does once the lookup has answered. */
  datatype Outcome =
    | UpdateExisting(sysId: Option<Json>)
    | ReportExisting(sysId: Option<Json>, exitCode: int)
    | CreateNew

  /** `existing.get(key)`. */
  function Get(record: map<string, Json>, key: string): (v: Option<Json>)
    ensures v.Some? <==> key in record
    ensures v.Some? ==> v.value == record[key]
  {
    if key in record then Some(record[key]) else None
  }

  /** A truthy lookup result: a record, and a non-empty one. */
  predicate Found(existing: Option<map<string, Json>>) {
    existing.Some? && existing.value != map[]
  }

  /** main.py:281-301: update when a record exists and the flag is set, report it
      and exit with status 0 when the flag is unset, create otherwise. */
  function Decide(existing: Option<map<string, Json>>, updateIfExists: bool): (o: Outcome)
    ensures o.UpdateExisting? <==> Found(existing) && updateIfExists
    ensures o.ReportExisting? <==> Found(existing) && !updateIfExists
    ensures o.CreateNew? <==> !Found(existing)
    ensures o.ReportExisting? ==> o.exitCode == 0
    ensures !o.CreateNew? ==> o.sysId == Get(existing.value, "sys_id")
  {
    if Found(existing) && updateIfExists then UpdateExisting(Get(existing.value, "sys_id"))
    else if Found(existing) then ReportExisting(Get(existing.value, "sys_id"), 0)
    else CreateNew
  }

  /** The record id the printed link is made from, given the record the update or
      create call returned: `updated.get("sys_id", sys_id)`, `existing.get("sys_id")`,
      `created.get("sys_id")`. */
  function LinkId(o: Outcome, returned: map<string, Json>): (id: Option<Json>)
    ensures o.ReportExisting? ==> id == o.sysId
    ensures !o.ReportExisting? && "sys_id" in returned ==> id == Some(returned["sys_id"])
    ensures o.UpdateExisting? && "sys_id" !in returned ==> id == o.sysId
    ensures o.CreateNew? && "sys_id" !in returned ==> id.None?
  {
    match o
    case UpdateExisting(sysId) => if "sys_id" in returned then Some(returned["sys_id"]) else sysId
    case ReportExisting(sysId, _) => sysId
    case CreateNew => Get(returned, "sys_id")
  }
}
