# ServiceNow story publisher — segmenter and client helpers in Dafny

This project models the logic core of a small tool that publishes a markdown user
story as an `rm_story` record in ServiceNow. The tool exists twice: a Python
command-line program (`main.py`) and a JavaScript plug-in (`windsuite/parser.js`,
`windsuite/servicenow.js`).

The heart of both is the **markdown segmenter**. It takes a document's content and
returns a story: a title, a description and optional acceptance criteria.

- `Segmenter.Parse(content, d)` is one specification of the segmenter. It is
  parameterised by a `Dialect` (`Python` or `JavaScript`). The dialect fixes what
  `\s`, `strip()`/`trim()` and the regular-expression `.` mean, how the content is
  split into lines, and whether a section with an empty label collects lines.
- `MainPy.ParseMarkdown` is the Python function, loop by loop, and is proved equal to
  `Parse(content, Python)`.
- `ParserJs.ParseMarkdownFile` is the JavaScript one, with `extractTitle` and
  `parseSections` as separate methods, and is proved equal to
  `Parse(content, JavaScript)`.
- The properties are lemmas about `Parse`, so they hold for both implementations.
  `Agreement.ParseAgrees` shows that the two give the same result on every document
  whose only line boundaries are `\n` and `\r\n` and that holds neither U+001F nor
  U+FEFF.

Around the segmenter the model covers the small pure helpers:
- URL joining (`api_url` in Python, `api` in JavaScript), which differ on doubled slashes;
- the record link;
- the two title-search queries and the primary-then-legacy record selection;
- the fallback branches of instance-URL normalisation;
- the request payload with its `--additional` merge;
- the create / update / report-exists decision.

Module layout:

| file | module | models |
|---|---|---|
| types.dfy | Types | `Option`, `Result`, `Dialect`, JSON values |
| text.dfy | Text | whitespace, trimming, lower-casing, `"\n".join` |
| lines.dfy | Lines | `str.splitlines()` and `split(/\r?\n/)` |
| patterns.dfy | Patterns | the four regular expressions and first-match line searches |
| sections.dfy | Sections | the section scanner and its insertion-ordered map |
| segmenter.dfy | Segmenter | the segmenter specification and its properties |
| main_py.dfy | MainPy | `parse_markdown`, `api_url`, `make_story_url`, payload, decision |
| parser_js.dfy | ParserJs | `extractTitle`, `parseSections`, `parseMarkdownFile` |
| servicenow_js.dfy | ServiceNow | `normalizeInstanceUrl`, `api`, `recordUrl`, queries, `findExistingStory` |
| agreement.dfy | Agreement | where the Python and JavaScript versions agree and differ |

Where the source's own comments say more than the code does, the model follows the code:
- The comments at main.py:89 ("remove it from the fallback description") and
  windsuite/parser.js:68 ("excluding Acceptance Criteria") suggest that the whole
  acceptance-criteria section leaves the fallback description. The code cuts the
  description only at a line that is exactly the `**Acceptance Criteria:**` label (up
  to letter case and surrounding whitespace), and only when the acceptance criteria
  are non-empty. It does not cut at another header that opens that section.

Where the two implementations part, the model keeps each one's behaviour:
- In JavaScript a header whose label trims to nothing opens a section that never
  collects a line, because `if (current)` is false for `""`. Python collects lines
  under that section.

## Model

| member | source | states |
|---|---|---|
| Text.Trim | main.py:23 | `strip()`/`trim()`: empty exactly when the input is all whitespace, otherwise no whitespace at either end |
| Text.TrimRemovesPadding | main.py:23 | what `strip()`/`trim()` removes is whitespace padding: the input is whitespace, the result, whitespace |
| Lines.SplitLinesNoBreak | main.py:28 | no line made by `splitlines()` holds a line boundary |
| Lines.SplitLinesEmpty | main.py:28 | `splitlines()` makes no line of an empty rest and at least one of any other |
| Lines.SplitLinesJoin | main.py:28 | `"\n".join(lines).splitlines()` gives the lines back when none holds a boundary and the last is not empty |
| Lines.SplitNewlineNoNewline | windsuite/parser.js:59 | no piece of `split(/\r?\n/)` holds a `\n` |
| Lines.SplitNewlineNonEmpty | windsuite/parser.js:59 | `split(/\r?\n/)` always yields at least one piece, even of the empty string |
| Lines.SplitNewlineJoin | windsuite/parser.js:59 | joining the pieces with `\n` and splitting again gives them back when only the last may end in `\r` |
| Lines.JoinSplitNewline | windsuite/parser.js:59 | on text without `\r`, joining the pieces with `\n` gives the text back: the split cuts at `\n` only |
| Lines.SplitsAgree | main.py:28 | on non-empty text whose only line boundaries are `\n` and `\r\n` and that does not end with one, `splitlines()` and `split(/\r?\n/)` make the same lines |
| Lines.SplitNewlineCrLf | windsuite/parser.js:59 | a line, `\r\n`, then a line without `\n` split into exactly those two lines: the `\r` is dropped with the separator |
| Lines.LoneCrKept | windsuite/parser.js:59 | text without `\n` is one piece: a lone `\r` does not split |
| Lines.SplitLinesLoneCr | main.py:28 | `splitlines()` does split at a lone `\r` |
| Lines.LoneCrSplitsDiffer | main.py:28 | at a lone `\r` the runtimes disagree: two lines in Python, one in JavaScript |
| Lines.EmptyTextSplits | main.py:28 | on empty text `splitlines()` gives no line and `split(/\r?\n/)` gives one empty line |
| Lines.NonBlankLine | main.py:40-46 | content that is not all whitespace has a line that is not blank after trimming |
| Patterns.H1MatchesShape | main.py:35 | the heading test holds exactly for lines of the shape whitespace, `#`, at least one whitespace, then a `.` character |
| Patterns.AcLabelMatchesShape | main.py:93 | the exact-label test holds exactly for whitespace, `**Acceptance Criteria:**` in any ASCII letter case, then whitespace |
| Patterns.HeadingNotBlank | main.py:35 | a heading line is never blank |
| Patterns.H1TextOf | main.py:35-36 | a line of whitespace, `#`, whitespace, then a rest starting with a non-whitespace character is a heading, and its title text is the trimmed rest |
| Patterns.StripUserStory | main.py:52 | the sanitised title has no whitespace at either end |
| Patterns.StripLegacyLabel | main.py:52 | removing the label from `"User Story: " + t` gives back the trimmed title `t` |
| Patterns.LabelEndMatchesShape | main.py:52 | the label match ends at `e` exactly when the title starts with whitespace, `user`, whitespace, then `story:` ending at `e`, in any letter case |
| Patterns.StripUserStoryShape | main.py:52 | the sanitised title is the trimmed rest after a matching label, and the trimmed title when no label matches |
| Patterns.HeaderOfShape | main.py:55 | every line that is whitespace, `**`, a non-empty label without `*`, `:**`, whitespace is a header whose key is the trimmed label |
| Patterns.HeaderHasShape | main.py:55 | every header line has that shape, and its key is the trimmed label |
| Patterns.FirstLine | main.py:92-95 | the index found is the first line passing the test; `None` exactly when no line passes |
| Sections.Open | main.py:64-65 | `sections[k] = []`: a new key goes last, an existing key keeps its place, the section is emptied, other sections are unchanged |
| Sections.Append | main.py:67-68 | `append` adds the line to the end of the open section only |
| Sections.ScanCurrent | main.py:57-66 | after a scan the open section is the label of the last header line seen, if any |
| Sections.ScanKeys | main.py:61-66 | a label is a key exactly when some scanned line is a header with that label |
| Sections.ScanBody | main.py:61-68 | a section holds the lines after the LAST header with its label up to the next header, so a repeated label restarts it; nothing under a label the dialect does not collect under |
| Sections.ScanKeyOrder | main.py:72-75 | the keys keep first-appearance order: the first key lower-casing to a name is the label of the first header that does |
| Sections.LeadingLinesDropped | main.py:67-68 | lines before the first header belong to no section: removing them leaves the scan unchanged |
| Sections.NoHeaderScan | main.py:62-68 | scanning lines none of which is a header opens no section and leaves the map empty |
| Sections.HeadersNeverInBodies | main.py:62-66 | every body line is a scanned line that is not a header |
| Sections.FirstKeyNamed | main.py:72-75 | the key a `for key in keys` loop stops at: the first key lower-casing to the name, `None` exactly when none does |
| Segmenter.TitleLine | main.py:33-46 | the title line is the first heading anywhere, else the first non-blank line; `None` exactly when every line is blank |
| Segmenter.ParseFails | main.py:22-49 | parsing fails exactly on all-whitespace content, and then always as empty: the no-title error cannot happen |
| Segmenter.ParseTitle | main.py:33-52 | on non-blank content a title line exists, and the title is that line's heading text or trimmed text with one leading `User Story:` label removed |
| Segmenter.SectionTextSpec | main.py:70-82 | looking a section up in the map agrees with the line-based description `SectionSpec` |
| Segmenter.SectionSpecSome | main.py:77-82 | a named section is present exactly when some header after the title carries the name |
| Segmenter.ParseAcceptanceCriteria | main.py:77-82 | acceptance criteria are `None` exactly when no header after the title lower-cases to `acceptance criteria`, else that section's trimmed join |
| Segmenter.ParseDescription | main.py:84-98 | the description is the Description section's trimmed join when one exists, else the lines after the title, cut at the exact Acceptance Criteria label only when acceptance criteria are non-empty |
| Segmenter.PrefixIgnored | main.py:67-68 | lines before the first header do not change the sections |
| Segmenter.BodiesHoldNoHeaders | main.py:62-66 | no header line appears in any section body |
| Segmenter.EmptyLabel | windsuite/parser.js:49-51 | a section with an empty key stays empty in JavaScript and collects its lines in Python |
| Segmenter.NoHeadersStory | main.py:84-98 | with no header after the title line, the description is all later lines joined and trimmed, and acceptance criteria are absent |
| Segmenter.ParseWithoutSections | main.py:84-98 | a document without section headers after its title yields the whole trimmed body as description and no acceptance criteria |
| Segmenter.LabelledTitleAndText | main.py:22-100 | a document `User Story: t` then a plain line `b` parses to title `t`, description `b`, no acceptance criteria |
| Segmenter.LabelledTitleText | main.py:51-52 | the title taken from a trimmed line `User Story: t` is `t` |
| MainPy.ParseMarkdown | main.py:22-100 | `parse_markdown` on the file's content equals `Parse(content, Python)` |
| MainPy.StoryFrom | main.py:51-100 | the rest of `parse_markdown` once the title line is known yields that line's story |
| MainPy.FindTitle | main.py:30-46 | the two title loops find the title line and the heading or trimmed text of it |
| MainPy.ScanSections | main.py:54-68 | the scanning loop builds exactly the sections of the lines after the title |
| MainPy.ScanLine | main.py:62-68 | one loop iteration is one scanner step, collecting while `current_section is not None` |
| MainPy.KeyedText | main.py:71-82 | the key loop yields the trimmed join of the first key lower-casing to the name |
| MainPy.FindAcLabel | main.py:91-95 | the label loop finds the first exact Acceptance Criteria label line |
| MainPy.FallbackDescription | main.py:86-98 | the fallback description is the trimmed join of the remaining lines, cut as `FallbackLines` says |
| MainPy.RStripSlash | main.py:132 | `rstrip('/')`: the longest prefix not ending in `/`, everything after it being `/` |
| MainPy.LStripSlash | main.py:132 | `lstrip('/')`: the longest suffix not starting with `/`, everything before it being `/` |
| MainPy.ApiUrlSlashes | main.py:131-132 | however many slashes end the base or start the path, the URL is the same |
| MainPy.ApiUrlParts | main.py:131-132 | the URL is the stripped base, one `/`, the stripped path, with no other slash at the seam |
| MainPy.MakeStoryUrl | main.py:201-203 | the link is the base, the fixed record path, then the id |
| MainPy.StoryUrlInjective | main.py:201-203 | different ids on one base give different links |
| MainPy.SetIf | main.py:254-265 | `if value: payload[key] = value` sets the key exactly when the value is truthy and changes nothing else |
| MainPy.BasePayloadFields | main.py:249-265 | the payload holds the cut title and the description, each optional field exactly when truthy, and no other key |
| MainPy.ShortDescriptionBound | main.py:250 | `short_description` is a prefix of the title of at most 160 characters, the whole title when it is short enough |
| MainPy.StoryPayload | main.py:249-265 | the in-place dict updates build exactly the base payload |
| MainPy.MergeAdditional | main.py:267-276 | a truthy `--additional` that is not an object is rejected; an object overrides and adds keys, the other keys are kept |
| MainPy.BuildPayload | main.py:249-276 | the final payload is the base payload merged with the extra object, or the rejection |
| MainPy.Decide | main.py:281-301 | exactly one outcome: update when found and flagged, report with exit code 0 when found and not flagged, create when not found |
| MainPy.LinkId | main.py:283-298 | the id the link uses: the returned record's `sys_id`, falling back to the existing id on update |
| ParserJs.ExtractTitle | windsuite/parser.js:8-35 | the first heading anywhere, else the first non-blank line, with its index; throws only when every line is blank |
| ParserJs.ParseSections | windsuite/parser.js:37-54 | the loop from `startIdx` builds exactly the JavaScript sections of the remaining lines |
| ParserJs.ScanLine | windsuite/parser.js:42-51 | one loop iteration is one scanner step, collecting only while `current` is truthy |
| ParserJs.SectionNamed | windsuite/parser.js:69-80 | the `Object.keys` loop yields the trimmed join of the first key lower-casing to the name |
| ParserJs.RemainderText | windsuite/parser.js:82-89 | the fallback description, cut by `findIndex` when acceptance criteria are truthy |
| ParserJs.ParseMarkdownFile | windsuite/parser.js:56-98 | `parseMarkdownFile` without HTML rendering equals `Parse(content, JavaScript)`; the description is never null |
| ServiceNow.NormalizeInstanceUrl | windsuite/servicenow.js:4-14 | a falsy input throws; a parsed URL keeps protocol and host; an unparsable one becomes `https://` + input exactly when it contains `.` |
| ServiceNow.BareHostFallback | windsuite/servicenow.js:6-11 | a bare host with a dot becomes `https://` + host. A second pass leaves that unchanged when the parser reads it back as `https:` and the same host. It changes it when the parser reads back another host, and it prefixes `https://` again when the parser throws |
| ServiceNow.DropTrailingSlash | windsuite/servicenow.js:17 | `replace(/\/$/, '')` removes one trailing slash if present and nothing else |
| ServiceNow.DropLeadingSlash | windsuite/servicenow.js:17 | `replace(/^\//, '')` removes one leading slash if present and nothing else |
| ServiceNow.ApiRemovesOneSlash | windsuite/servicenow.js:16-18 | at most one slash is removed on each side: a doubled trailing slash survives as two, whatever the path |
| ServiceNow.ApiPlainJoin | windsuite/servicenow.js:16-18 | without slashes at the seam, `api` inserts exactly one |
| ServiceNow.RecordUrl | windsuite/servicenow.js:57-59 | the link is the base, the fixed record path, then the id |
| ServiceNow.PrimaryParams | windsuite/servicenow.js:26 | the primary query is `short_description=` + title with limit `"1"` |
| ServiceNow.LegacyParams | windsuite/servicenow.js:35-36 | the legacy query is `short_description=User Story: ` + title with limit `"1"` |
| ServiceNow.LegacyQueryLabelsTitle | windsuite/servicenow.js:35-36 | the legacy query is the primary query of the labelled title, and the parser maps the labelled title back to the title |
| ServiceNow.FirstRecord | windsuite/servicenow.js:29-30 | a record exactly when the body's `result` is a non-empty array, and then its first element |
| ServiceNow.FindExistingStory | windsuite/servicenow.js:24-43 | primary failure is raised; a primary record is returned without a second call; otherwise the legacy result, with its failure giving `null` |
| ServiceNow.FoundRecordAnswered | windsuite/servicenow.js:27-42 | a returned record is always the first result of one of the issued requests |
| Agreement.TrimAgree | windsuite/parser.js:57 | `strip()` and `trim()` agree on text without the whitespace characters they classify differently (U+001C to U+001F, U+0085, U+FEFF) |
| Agreement.HeaderLabelAgree | windsuite/parser.js:40 | both header patterns give the same key on such lines: the pattern has no `.`, so `\r`, U+2028 and U+2029 do not matter |
| Agreement.StoryAtAgree | windsuite/parser.js:61-89 | on lines holding no line boundary other than `\n` and neither U+001F nor U+FEFF, with the same title line, both segmenters build the same story |
| Agreement.ParseAgrees | windsuite/parser.js:56-89 | on a document whose only line boundaries are `\n` and `\r\n` and that holds neither U+001F nor U+FEFF, the Python and JavaScript segmenters give the same error or the same story |
| Agreement.CrLfDocumentAgrees | windsuite/parser.js:59 | a CRLF document is in that domain, so both segmenters read it alike, and `\r` padding trims alike |
| Agreement.EmptyHeader | windsuite/parser.js:40 | `** :**` is a header with the empty key |
| Agreement.EmptyLabelCollected | main.py:67-68 | Python collects the line after an empty-key header |
| Agreement.EmptyLabelSkipped | windsuite/parser.js:49-51 | JavaScript opens the empty-key section and leaves it empty |
| Agreement.ApiAgrees | windsuite/servicenow.js:16-18 | `api_url` and `api` agree unless a side carries two or more slashes at the seam |
| Agreement.ApiDiffers | main.py:131-132 | with a doubled trailing slash Python removes both and JavaScript one |
| Agreement.RecordLinksAgree | windsuite/servicenow.js:57-59 | both record links are the same URL |

## Left out

- File reading (`open`, `fs.readFileSync`), `os.path` checks and `argparse`: the model takes the content as a string and the options as values.
- Environment and credentials (`load_dotenv`, `ensure_credentials`, main.py:135-147): configuration plumbing.
- HTTP transport (`requests`, `axios`, `create_story`, `update_story`, `createStory`, `updateStory`, `buildClient`, the headers): network calls. The JavaScript search takes the HTTP client as a function from request to response. The Python decision takes the lookup's answer as an input.
- `find_existing_story` (main.py:150-182) is not part of this model; its JavaScript twin `findExistingStory` is.
- `get_instance_base_url` (main.py:110-128) is not part of this model; the JavaScript `normalizeInstanceUrl` is. The URL parser's answer is a parameter.
- ServiceNow.BareHostFallback: `new URL` itself is not modelled, so the model does not say which inputs a second pass changes. Examples are `acme.service-now.com/now/nav`, whose path is dropped; `ACME.service-now.com`, whose host is lower-cased; and `a b.com`, which the parser rejects both times. The lemma states what each kind of parser answer leads to.
- Markdown to HTML rendering (`markdown.markdown`, `markdown-it`): a foreign library. The model is the `--plain` / `sendAsHtml = false` path.
- `json.loads` of `--additional`: taken as an already decoded value or a decoding failure.
- Patterns.StripUserStory: letter case is folded for ASCII only. Python's `re.IGNORECASE` also lets `ſ` (U+017F) match `s`, so `uſer story:` is a label to Python and not to the model.
- The Acceptance Criteria label test (main.py:93) uses the same ASCII-only case folding. Python's `re.IGNORECASE` also lets `İ` (U+0130) and `ı` (U+0131) match `i`, so `**Acceptance Criterıa:**` cuts the fallback description in Python. It does not cut it in the model, nor in JavaScript's `/i` without the `u` flag (windsuite/parser.js:85).
- The section map keeps its keys in insertion order. JavaScript lists integer-like keys first, and a `__proto__` label behaves specially; neither is modelled.
- MainPy.Decide: the lookup's answer is modelled as an optional JSON object; a first result that is a string, number or list is not.
- The round trip "create, then search by the same title finds the record" depends on the remote system and is not modelled.
- `windsuite/index.js` is not part of this model.
- Agreement.StoryAtAgree: lines holding U+2028, U+2029, `\r`, `\v`, `\f`, U+001C to U+001F, U+0085 or U+FEFF are not covered. JavaScript lines can hold U+2028, because `split(/\r?\n/)` does not break there, and Python's `.` matches it while JavaScript's does not: `# ` followed by U+2028 is a heading with an empty title to Python and the plain title `#` to JavaScript.
- Agreement.ParseAgrees: documents holding a lone `\r`, `\v`, `\f`, U+001C to U+001F, U+0085, U+2028, U+2029 or U+FEFF are not covered. `splitlines()` breaks at characters that `split(/\r?\n/)` does not, and the two runtimes' whitespace classes differ on the others. CRLF documents are covered.
- ServiceNow.FindExistingStory: a first result that is JSON `null` is returned as `Some(JNull)`, while JavaScript returns `null` itself (windsuite/servicenow.js:30), which its caller reads as "not found". No legacy request is sent in either case.
- Printing and exit codes, beyond the exit code 0 of the report-exists outcome.
