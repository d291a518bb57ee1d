/** The JavaScript plug-in's ServiceNow Table API client (windsuite/servicenow.js):
    instance-URL normalisation around the URL parser, URL joining, record links, the
    title-search queries and the primary-then-legacy record selection. */
module ServiceNow {
  import opened Types
  import opened Text
  import opened Patterns

  // ---------------------------------------------------------------- instance URL

  /** What `new URL(raw)` yields when it accepts `raw`: `u.protocol` (with its
      colon) and `u.host`. */
  datatype UrlParts = UrlParts(protocol: string, host: string)

  /** `Missing ServiceNow instance URL` and `Invalid ServiceNow instance URL`. */
  datatype InstanceError = MissingInstance | InvalidInstance

  /** JavaScript truthiness of a possibly absent string. */
  predicate Given(raw: Option<string>) {
    raw.Some? && raw.value != ""
  }

  /** `normalizeInstanceUrl(raw)`, with `parsed` the URL parser's answer for `raw`
      (`None` when it throws). */
  function NormalizeInstanceUrl(raw: Option<string>, parsed: Option<UrlParts>): (r: Result<string, InstanceError>)
    ensures r == Failure(MissingInstance) <==> !Given(raw)
    ensures Given(raw) && parsed.Some? ==> r == Success(parsed.value.protocol + "//" + parsed.value.host)
    ensures Given(raw) && parsed.None? ==> (r.Success? <==> '.' in raw.value)
    ensures Given(raw) && parsed.None? && r.Success? ==>
      |r.value| == 8 + |raw.value| && r.value[..8] == "https://" && r.value[8..] == raw.value
  {
    if !Given(raw) then Failure(MissingInstance)
    else match parsed
      case Some(u) => Success(u.protocol + "//" + u.host)
      case None => if '.' in raw.value then Success("https://" + raw.value) else Failure(InvalidInstance)
  }

  /** A bare host name is never rejected for lacking a scheme: the fallback turns it
      into `https://` + host. Normalising that result a second time leaves it unchanged
      when the parser reads it back as `https:` and the same host. It changes the result
      when the parser reads back another `https:` host (one that dropped a path or
      lower-cased letters) and when the parser throws, in which case a second
      `https://` is prefixed. */
  lemma BareHostFallback(host: string, reparsed: Option<UrlParts>)
    requires '.' in host
    ensures NormalizeInstanceUrl(Some(host), None) == Success("https://" + host)
    ensures reparsed == Some(UrlParts("https:", host)) ==>
      NormalizeInstanceUrl(Some("https://" + host), reparsed) == NormalizeInstanceUrl(Some(host), None)
    ensures reparsed.Some? && reparsed.value.protocol == "https:" && reparsed.value.host != host ==>
      NormalizeInstanceUrl(Some("https://" + host), reparsed) != NormalizeInstanceUrl(Some(host), None)
    ensures reparsed.None? ==>
      NormalizeInstanceUrl(Some("https://" + host), reparsed) == Success("https://https://" + host)
  {
    assert "https:" + "//" + host == "https://" + host;
    if reparsed.Some? && reparsed.value.protocol == "https:" && reparsed.value.host != host {
      var h := reparsed.value.host;
      assert ("https:" + "//" + h)[8..] == h;
      assert ("https://" + host)[8..] == host;
    }
    if reparsed.None? {
      assert ("https://" + host)[0] == 'h';
      assert '.' in "https://" + host by {
        var k :| 0 <= k < |host| && host[k] == '.';
        assert ("https://" + host)[8 + k] == '.';
      }
      assert "https://" + ("https://" + host) == "https://https://" + host;
    }
  }

  // ---------------------------------------------------------------- URLs

  /** `s.replace(/\/$/, '')`: one trailing slash removed, if there is one. */
  function DropTrailingSlash(s: string): (r: string)
    ensures s != "" && s[|s| - 1] == '/' ==> s == r + "/"
    ensures !(s != "" && s[|s| - 1] == '/') ==> r == s
  {
    if s != "" && s[|s| - 1] == '/' then s[..|s| - 1] else s
  }

  /** `s.replace(/^\//, '')`: one leading slash removed, if there is one. */
  function DropLeadingSlash(s: string): (r: string)
    ensures s != "" && s[0] == '/' ==> s == "/" + r
    ensures !(s != "" && s[0] == '/') ==> r == s
  {
    if s != "" && s[0] == '/' then s[1..] else s
  }

  /** `api(base, path)`. */
  function Api(base: string, path: string): string {
    DropTrailingSlash(base) + "/" + DropLeadingSlash(path)
  }

  /** At most one slash is removed on each side: a doubled slash survives as two. */
  lemma ApiRemovesOneSlash(base: string, path: string)
    ensures Api(base + "/", "/" + path) == base + "/" + path
    ensures Api(base + "//", path) == base + "//" + DropLeadingSlash(path)
  {
    assert (base + "/")[..|base|] == base;
    assert ("/" + path)[1..] == path;
    assert (base + "//")[..|base| + 1] == base + "/";
  }

  /** Where neither side brings a slash, `api` inserts exactly one. */
  lemma ApiPlainJoin(base: string, path: string)
    requires base == "" || base[|base| - 1] != '/'
    requires path == "" || path[0] != '/'
    ensures Api(base, path) == base + "/" + path
  {
  }

  /** The record page's path after the instance base. */
  const RecordPath := "/nav_to.do?uri=rm_story.do?sys_id="

  /** `recordUrl(baseUrl, sysId)`. */
  function RecordUrl(baseUrl: string, sysId: string): (u: string)
    ensures |u| == |baseUrl| + |RecordPath| + |sysId|
    ensures u[..|baseUrl|] == baseUrl && u[|baseUrl|..|baseUrl| + |RecordPath|] == RecordPath
    ensures u[|baseUrl| + |RecordPath|..] == sysId
  {
    baseUrl + RecordPath + sysId
  }

  // ---------------------------------------------------------------- queries

  /** The table the stories live in. */
  const StoryTable := "/api/now/table/rm_story"

  /** The `params` object: `sysparm_query` and `sysparm_limit`. */
  datatype SearchParams = SearchParams(query: string, limit: string)

  /** One `client.get(url, { params })`. */
  datatype Request = Request(url: string, params: SearchParams)

  const QueryField := "short_description="

  /** The label older stories carry in front of the title. */
  const LegacyLabel := "User Story: "

  /** `{ sysparm_query: `short_description=${title}`, sysparm_limit: '1' }`. */
  function PrimaryParams(title: string): (p: SearchParams)
    ensures p.limit == "1" && |p.query| == |QueryField| + |title|
    ensures p.query[..|QueryField|] == QueryField && p.query[|QueryField|..] == title
  {
    SearchParams(QueryField + title, "1")
  }

  /** The same query for `User Story: ${title}`. */
  function LegacyParams(title: string): (p: SearchParams)
    ensures p.limit == "1" && |p.query| == |QueryField| + |LegacyLabel| + |title|
    ensures p.query[..|QueryField|] == QueryField && p.query[|QueryField|..] == LegacyLabel + title
  {
    SearchParams(QueryField + LegacyLabel + title, "1")
  }

  /** The legacy query is the primary query for the labelled title, and a title the
      parser produced is what the parser makes of that labelled title again: the two
      queries find the same story under its old and its new short description. */
  lemma LegacyQueryLabelsTitle(title: string)
    requires title == "" || (!IsSpace(title[0], JavaScript) && !IsSpace(title[|title| - 1], JavaScript))
    ensures LegacyParams(title) == PrimaryParams(LegacyLabel + title)
    ensures StripUserStory(LegacyLabel + title, JavaScript) == title
  {
    assert QueryField + LegacyLabel + title == QueryField + (LegacyLabel + title);
    StripLegacyLabel(title, JavaScript);
  }

  // ---------------------------------------------------------------- record selection

  /** What a `client.get` call does: throw (an HTTP error status or no answer), or
      answer with a body. */
  datatype Response = Threw(detail: string) | Answered(data: Json)

  /** `Failed to search stories: ...`, carrying what the failed call reported. */
  datatype SearchError = SearchFailed(detail: string)

  /** `const result = resp.data?.result || []; if (Array.isArray(result) && result.length) return result[0];` */
  function FirstRecord(data: Json): (r: Option<Json>)
    ensures r.Some? <==>
      (data.JObject? && "result" in data.fields && data.fields["result"].JArray? && data.fields["result"].items != [])
    ensures r.Some? ==> r.value == data.fields["result"].items[0]
  {
    match data
    case JObject(fields) =>
      if "result" in fields && fields["result"].JArray? && fields["result"].items != [] then
        Some(fields["result"].items[0])
      else None
    case _ => None
  }

  /** `findExistingStory(client, baseUrl, title)` with the HTTP client as `lookup`;
      `sent` lists the requests issued, in order. The primary search's failure is
      raised; the legacy search is tried only when the primary one answers without a
      record, and its failure is swallowed. A first result that is JSON `null` comes
      back as `Some(JNull)`: the JavaScript function returns that `null`, which its
      caller cannot tell apart from "not found". */
  method FindExistingStory(baseUrl: string, title: string, lookup: Request -> Response)
    returns (r: Result<Option<Json>, SearchError>, sent: seq<Request>)
    ensures var primary := Request(Api(baseUrl, StoryTable), PrimaryParams(title));
      var legacy := Request(Api(baseUrl, StoryTable), LegacyParams(title));
      match lookup(primary)
      case Threw(detail) => sent == [primary] && r == Failure(SearchFailed(detail))
      case Answered(data) =>
        if FirstRecord(data).Some? then sent == [primary] && r == Success(FirstRecord(data))
        else sent == [primary, legacy] && r == Success(
          match lookup(legacy)
          case Threw(_) => None
          case Answered(data2) => FirstRecord(data2))
  {
    var url := Api(baseUrl, StoryTable);
    var primary := Request(url, PrimaryParams(title));
    sent := [primary];
    var resp := lookup(primary);
    match resp
    case Threw(detail) =>
      return Failure(SearchFailed(detail)), sent;
    case Answered(data) =>
      var result := FirstRecord(data);
      if result.Some? {
        return Success(result), sent;
      }
    var legacy := Request(url, LegacyParams(title));
    sent := sent + [legacy];
    var resp2 := lookup(legacy);
    match resp2
    case Threw(_) =>
      r := Success(None);
    case Answered(data2) =>
      r := Success(FirstRecord(data2));
  }

  /** A record is reported only when one of the issued requests answered with it
      first in its result list, and no record is ever invented. */
  lemma FoundRecordAnswered(baseUrl: string, title: string, lookup: Request -> Response,
                            r: Result<Option<Json>, SearchError>, sent: seq<Request>)
    requires var primary := Request(Api(baseUrl, StoryTable), PrimaryParams(title));
      var legacy := Request(Api(baseUrl, StoryTable), LegacyParams(title));
      match lookup(primary)
      case Threw(detail) => sent == [primary] && r == Failure(SearchFailed(detail))
      case Answered(data) =>
        if FirstRecord(data).Some? then sent == [primary] && r == Success(FirstRecord(data))
        else sent == [primary, legacy] && r == Success(
          match lookup(legacy)
          case Threw(_) => None
          case Answered(data2) => FirstRecord(data2))
    requires r.Success? && r.value.Some?
    ensures exists i :: 0 <= i < |sent| && lookup(sent[i]).Answered? && FirstRecord(lookup(sent[i]).data) == r.value
  {
    var primary := Request(Api(baseUrl, StoryTable), PrimaryParams(title));
    if FirstRecord(lookup(primary).data).Some? {
      assert lookup(sent[0]).Answered?;
    } else {
      assert lookup(sent[1]).Answered?;
    }
  }
}
