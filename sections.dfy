/** The section scanner shared by `parse_markdown` (main.py) and `parseSections`
    (parser.js): bold `**Label:**` lines open named sections, and the lines after
    a header are collected into the section it opened. */
module Sections {
  import opened Types
  import opened Text
  import opened Patterns

  /** A Python `dict` / JavaScript object from label to body lines: the keys in
      insertion order beside the map itself. */
  datatype SectionMap = SectionMap(keys: seq<string>, body: map<string, seq<string>>)

  predicate Valid(m: SectionMap) {
    && (forall i, j :: 0 <= i < j < |m.keys| ==> m.keys[i] != m.keys[j])
    && (forall k :: k in m.body ==> k in m.keys)
    && (forall k :: k in m.keys ==> k in m.body)
  }

  const Empty := SectionMap([], map[])

  /** `sections[k] = []`: a new key goes last, an existing key keeps its place. */
  function Open(m: SectionMap, k: string): (r: SectionMap)
    requires Valid(m)
    ensures Valid(r) && r.body.Keys == m.body.Keys + {k} && r.body[k] == []
    ensures r.keys == if k in m.body then m.keys else m.keys + [k]
    ensures forall k' :: k' != k && k' in m.body ==> k' in r.body && r.body[k'] == m.body[k']
  {
    if k in m.body then SectionMap(m.keys, m.body[k := []])
    else SectionMap(m.keys + [k], m.body[k := []])
  }

  /** `sections[k].append(line)` / `sections[k].push(line)`. */
  function Append(m: SectionMap, k: string, line: string): (r: SectionMap)
    requires Valid(m) && k in m.body
    ensures Valid(r) && r.keys == m.keys && r.body.Keys == m.body.Keys && r.body[k] == m.body[k] + [line]
    ensures forall k' :: k' != k && k' in m.body ==> r.body[k'] == m.body[k']
  {
    SectionMap(m.keys, m.body[k := m.body[k] + [line]])
  }

  /** The scanner's state: the map built so far and the open section. */
  datatype Scanner = Scanner(sections: SectionMap, current: Option<string>)

  predicate Inv(st: Scanner) {
    Valid(st.sections) && (st.current.Some? ==> st.current.value in st.sections.body)
  }

  /** Whether a body line is collected: Python tests `current_section is not None`,
      JavaScript tests `if (current)`, which is false for the empty label. */
  predicate Collects(current: Option<string>, d: Dialect) {
    current.Some? && (d == Python || current.value != "")
  }

  /** One iteration of the scanning loop, given the header label of `line` (if it is one). */
  function Step(st: Scanner, line: string, lbl: Option<string>, d: Dialect): (r: Scanner)
    requires Inv(st)
    ensures Inv(r)
  {
    match lbl
    case Some(k) => Scanner(Open(st.sections, k), Some(k))
    case None =>
      if Collects(st.current, d) then Scanner(Append(st.sections, st.current.value, line), st.current)
      else st
  }

  /** The header label of every line. */
  function Labels(lines: seq<string>, d: Dialect): (ls: seq<Option<string>>)
    ensures |ls| == |lines| && forall i :: 0 <= i < |lines| ==> ls[i] == HeaderLabel(lines[i], d)
  {
    seq(|lines|, i requires 0 <= i < |lines| => HeaderLabel(lines[i], d))
  }

  /** The scanner's state after the given lines, whose labels are `ls`. */
  function Scan(lines: seq<string>, ls: seq<Option<string>>, d: Dialect): (r: Scanner)
    requires |ls| == |lines|
    ensures Inv(r)
  {
    if lines == [] then Scanner(Empty, None)
    else Step(Scan(lines[..|lines| - 1], ls[..|ls| - 1], d), lines[|lines| - 1], ls[|ls| - 1], d)
  }

  /** The scanner's state after reading `lines`. */
  function ScanLines(lines: seq<string>, d: Dialect): (st: Scanner)
    ensures Inv(st)
  {
    Scan(lines, Labels(lines, d), d)
  }

  /** The sections read from the lines. */
  function SectionsOf(lines: seq<string>, d: Dialect): SectionMap {
    ScanLines(lines, d).sections
  }

  /** Which labels are `Some(k)`; which are headers at all; which lower-case to `name`. */
  function Is(ls: seq<Option<string>>, k: string): (m: seq<bool>)
    ensures |m| == |ls| && forall i :: 0 <= i < |ls| ==> m[i] == (ls[i] == Some(k))
  {
    seq(|ls|, i requires 0 <= i < |ls| => ls[i] == Some(k))
  }

  function Headers(ls: seq<Option<string>>): (m: seq<bool>)
    ensures |m| == |ls| && forall i :: 0 <= i < |ls| ==> m[i] == ls[i].Some?
  {
    seq(|ls|, i requires 0 <= i < |ls| => ls[i].Some?)
  }

  function Named(ls: seq<Option<string>>, name: string): (m: seq<bool>)
    ensures |m| == |ls| && forall i :: 0 <= i < |ls| ==> m[i] == (ls[i].Some? && LowerStr(ls[i].value) == name)
  {
    seq(|ls|, i requires 0 <= i < |ls| => ls[i].Some? && LowerStr(ls[i].value) == name)
  }

  /** The first index at or after `i` that is a header (or `|ls|`). */
  function NextHeader(ls: seq<Option<string>>, i: nat): (e: nat)
    requires i <= |ls|
    ensures i <= e <= |ls| && (e < |ls| ==> ls[e].Some?)
    ensures forall j :: i <= j < e ==> ls[j].None?
    decreases |ls| - i
  {
    if i < |ls| && ls[i].None? then NextHeader(ls, i + 1) else i
  }

  /** The label at an optional index. */
  function LabelAt(ls: seq<Option<string>>, i: Option<nat>): Option<string> {
    if i.Some? && i.value < |ls| then ls[i.value] else None
  }

  /** What the section `k` holds once all lines are scanned: the lines after the
      last header labelled `k` up to the next header, or nothing when the label is
      one the dialect does not collect under. */
  function BodyOf(lines: seq<string>, ls: seq<Option<string>>, k: string, d: Dialect): seq<string>
    requires |ls| == |lines| && LastTrue(Is(ls, k)).Some?
  {
    var j := LastTrue(Is(ls, k)).value;
    if Collects(Some(k), d) then lines[j + 1..NextHeader(ls, j + 1)] else []
  }

  /** The key a loop `for key in keys: if key.lower() == name` stops at: the first key
      that lower-cases to `name`. */
  function FirstKeyNamed(keys: seq<string>, name: string): (r: Option<string>)
    ensures r.Some? ==> r.value in keys && LowerStr(r.value) == name
    ensures r.None? <==> forall i :: 0 <= i < |keys| ==> LowerStr(keys[i]) != name
    ensures r.Some? ==> exists j :: (0 <= j < |keys| && keys[j] == r.value
      && forall t :: 0 <= t < j ==> LowerStr(keys[t]) != name)
  {
    if keys == [] then None
    else if LowerStr(keys[0]) == name then Some(keys[0])
    else
      var r := FirstKeyNamed(keys[1..], name);
      assert r.Some? ==> exists j :: (0 <= j < |keys| && keys[j] == r.value
        && forall t :: 0 <= t < j ==> LowerStr(keys[t]) != name) by {
        if r.Some? {
          var j :| 0 <= j < |keys[1..]| && keys[1..][j] == r.value
            && forall t :: 0 <= t < j ==> LowerStr(keys[1..][t]) != name;
          assert keys[j + 1] == r.value;
          assert forall t :: 0 < t < j + 1 ==> keys[t] == keys[1..][t - 1];
        }
      }
      r
  }

  lemma {:induction false} FirstKeyNamedSnoc(keys: seq<string>, k: string, name: string)
    ensures FirstKeyNamed(keys + [k], name)
      == if FirstKeyNamed(keys, name).Some? then FirstKeyNamed(keys, name)
         else if LowerStr(k) == name then Some(k) else None
  {
    if keys != [] {
      assert (keys + [k])[1..] == keys[1..] + [k];
      FirstKeyNamedSnoc(keys[1..], k, name);
    }
  }

  lemma IsSnoc(ls: seq<Option<string>>, o: Option<string>, k: string)
    ensures Is(ls + [o], k) == Is(ls, k) + [o == Some(k)]
  {
    assert forall j :: 0 <= j < |ls| ==> (ls + [o])[j] == ls[j];
  }

  lemma LastIsSnoc(ls: seq<Option<string>>, o: Option<string>, k: string)
    ensures LastTrue(Is(ls + [o], k)) == if o == Some(k) then Some(|ls|) else LastTrue(Is(ls, k))
  {
    IsSnoc(ls, o, k);
    LastTrueSnoc(Is(ls, k), o == Some(k));
  }

  lemma LastHeaderSnoc(ls: seq<Option<string>>, o: Option<string>)
    ensures LastTrue(Headers(ls + [o])) == if o.Some? then Some(|ls|) else LastTrue(Headers(ls))
  {
    HeadersSnoc(ls, o);
    LastTrueSnoc(Headers(ls), o.Some?);
  }

  lemma HeadersSnoc(ls: seq<Option<string>>, o: Option<string>)
    ensures Headers(ls + [o]) == Headers(ls) + [o.Some?]
  {
    assert forall j :: 0 <= j < |ls| ==> (ls + [o])[j] == ls[j];
  }

  lemma NamedSnoc(ls: seq<Option<string>>, o: Option<string>, name: string)
    ensures Named(ls + [o], name) == Named(ls, name) + [o.Some? && LowerStr(o.value) == name]
  {
    assert forall j :: 0 <= j < |ls| ==> (ls + [o])[j] == ls[j];
  }

  lemma SliceSnoc(pre: seq<string>, x: string, a: nat, b: nat)
    requires a <= b <= |pre|
    ensures (pre + [x])[a..b] == pre[a..b]
    ensures (pre + [x])[a..|pre| + 1] == pre[a..|pre|] + [x]
  {
  }

  lemma ScanSnoc(lines: seq<string>, ls: seq<Option<string>>, x: string, o: Option<string>, d: Dialect)
    requires |ls| == |lines|
    ensures Scan(lines + [x], ls + [o], d) == Step(Scan(lines, ls, d), x, o, d)
  {
    assert (lines + [x])[..|lines|] == lines;
    assert (ls + [o])[..|ls|] == ls;
  }

  /** One scanned line, seen from the open section, the keys and one body. */
  lemma CurrentSnoc(lines: seq<string>, ls: seq<Option<string>>, x: string, o: Option<string>, d: Dialect)
    requires |ls| == |lines|
    ensures Scan(lines + [x], ls + [o], d).current == if o.Some? then o else Scan(lines, ls, d).current
  {
    ScanSnoc(lines, ls, x, o, d);
  }

  lemma KeysSnoc(lines: seq<string>, ls: seq<Option<string>>, x: string, o: Option<string>, d: Dialect)
    requires |ls| == |lines|
    ensures var m, m' := Scan(lines, ls, d).sections, Scan(lines + [x], ls + [o], d).sections;
      && (forall k :: k in m'.body <==> k in m.body || o == Some(k))
      && m'.keys == if o.Some? && o.value !in m.body then m.keys + [o.value] else m.keys
  {
    ScanSnoc(lines, ls, x, o, d);
    StepKeys(Scan(lines, ls, d), x, o, d);
  }

  lemma StepKeys(st: Scanner, x: string, o: Option<string>, d: Dialect)
    requires Inv(st)
    ensures var m, m' := st.sections, Step(st, x, o, d).sections;
      && (forall k :: k in m'.body <==> k in m.body || o == Some(k))
      && m'.keys == if o.Some? && o.value !in m.body then m.keys + [o.value] else m.keys
  {
  }

  lemma BodySnoc(lines: seq<string>, ls: seq<Option<string>>, x: string, o: Option<string>, k: string, d: Dialect)
    requires |ls| == |lines| && k in Scan(lines + [x], ls + [o], d).sections.body
    ensures var st, m' := Scan(lines, ls, d), Scan(lines + [x], ls + [o], d).sections;
      m'.body[k] == if o == Some(k) then []
        else if o.None? && Collects(st.current, d) && st.current.value == k then st.sections.body[k] + [x]
        else st.sections.body[k]
  {
    ScanSnoc(lines, ls, x, o, d);
    StepBody(Scan(lines, ls, d), x, o, k, d);
  }

  lemma StepBody(st: Scanner, x: string, o: Option<string>, k: string, d: Dialect)
    requires Inv(st) && k in Step(st, x, o, d).sections.body
    ensures Step(st, x, o, d).sections.body[k] == if o == Some(k) then []
        else if o.None? && Collects(st.current, d) && st.current.value == k then st.sections.body[k] + [x]
        else st.sections.body[k]
  {
  }

  /** The open section is the label of the last header seen, if any. */
  lemma {:induction false} ScanCurrent(lines: seq<string>, ls: seq<Option<string>>, d: Dialect)
    requires |ls| == |lines|
    ensures Scan(lines, ls, d).current == LabelAt(ls, LastTrue(Headers(ls)))
    decreases |lines|
  {
    if lines != [] {
      var pre, x := lines[..|lines| - 1], lines[|lines| - 1];
      var lp, o := ls[..|ls| - 1], ls[|ls| - 1];
      assert lines == pre + [x] && ls == lp + [o];
      ScanCurrent(pre, lp, d);
      LastHeaderSnoc(lp, o);
      CurrentSnoc(pre, lp, x, o, d);
    }
  }

  /** A label is a key exactly when some scanned line is a header with that label. */
  lemma {:induction false} ScanKeys(lines: seq<string>, ls: seq<Option<string>>, k: string, d: Dialect)
    requires |ls| == |lines|
    ensures k in Scan(lines, ls, d).sections.body <==> LastTrue(Is(ls, k)).Some?
    decreases |lines|
  {
    if lines != [] {
      var pre, x := lines[..|lines| - 1], lines[|lines| - 1];
      var lp, o := ls[..|ls| - 1], ls[|ls| - 1];
      assert lines == pre + [x] && ls == lp + [o];
      ScanKeys(pre, lp, k, d);
      LastIsSnoc(lp, o, k);
      KeysSnoc(pre, lp, x, o, d);
    }
  }

  lemma NextHeaderSnoc(ls: seq<Option<string>>, o: Option<string>, i: nat)
    requires i <= |ls|
    ensures NextHeader(ls + [o], i)
      == if NextHeader(ls, i) < |ls| then NextHeader(ls, i)
         else if o.Some? then |ls| else |ls| + 1
  {
    var e, e' := NextHeader(ls, i), NextHeader(ls + [o], i);
    assert forall j :: 0 <= j < |ls| ==> (ls + [o])[j] == ls[j];
    assert (ls + [o])[|ls|] == o;
  }

  /** Each section holds the lines after the last header with its label up to the
      next header: a repeated label starts its section afresh. */
  lemma {:induction false} ScanBody(lines: seq<string>, ls: seq<Option<string>>, k: string, d: Dialect)
    requires |ls| == |lines| && k in Scan(lines, ls, d).sections.body
    ensures LastTrue(Is(ls, k)).Some?
    ensures Scan(lines, ls, d).sections.body[k] == BodyOf(lines, ls, k, d)
    decreases |lines|
  {
    var pre, x := lines[..|lines| - 1], lines[|lines| - 1];
    var lp, o := ls[..|ls| - 1], ls[|ls| - 1];
    assert lines == pre + [x] && ls == lp + [o];
    if o == Some(k) {
      BodyOpened(pre, lp, x, k, d);
    } else {
      KeysSnoc(pre, lp, x, o, d);
      ScanBody(pre, lp, k, d);
      BodyNotOpened(pre, lp, x, o, k, d);
    }
  }

  /** A header labelled `k` empties its section. */
  lemma BodyOpened(pre: seq<string>, lp: seq<Option<string>>, x: string, k: string, d: Dialect)
    requires |lp| == |pre|
    ensures k in Scan(pre + [x], lp + [Some(k)], d).sections.body
    ensures LastTrue(Is(lp + [Some(k)], k)) == Some(|lp|)
    ensures Scan(pre + [x], lp + [Some(k)], d).sections.body[k] == BodyOf(pre + [x], lp + [Some(k)], k, d) == []
  {
    KeysSnoc(pre, lp, x, Some(k), d);
    BodySnoc(pre, lp, x, Some(k), k, d);
    LastIsSnoc(lp, Some(k), k);
  }

  /** Any other line keeps or extends the section as `BodyOf` says. */
  lemma BodyNotOpened(pre: seq<string>, lp: seq<Option<string>>, x: string, o: Option<string>, k: string, d: Dialect)
    requires |lp| == |pre| && o != Some(k) && k in Scan(pre, lp, d).sections.body
    requires LastTrue(Is(lp, k)).Some? && Scan(pre, lp, d).sections.body[k] == BodyOf(pre, lp, k, d)
    ensures LastTrue(Is(lp + [o], k)).Some?
    ensures k in Scan(pre + [x], lp + [o], d).sections.body
    ensures Scan(pre + [x], lp + [o], d).sections.body[k] == BodyOf(pre + [x], lp + [o], k, d)
  {
    KeysSnoc(pre, lp, x, o, d);
    BodySnoc(pre, lp, x, o, k, d);
    ScanCurrent(pre, lp, d);
    var st := Scan(pre, lp, d);
    BodyStep(pre, lp, x, o, k, d, st.sections.body[k], st.current, Scan(pre + [x], lp + [o], d).sections.body[k]);
  }

  /** The step of `ScanBody` for a line that is not a header labelled `k`: `b` is the
      body before the line, `cur` the open section, `b'` the body after it. */
  lemma BodyStep(pre: seq<string>, lp: seq<Option<string>>, x: string, o: Option<string>, k: string, d: Dialect,
                 b: seq<string>, cur: Option<string>, b': seq<string>)
    requires |lp| == |pre| && LastTrue(Is(lp, k)).Some? && o != Some(k)
    requires b == BodyOf(pre, lp, k, d) && cur == LabelAt(lp, LastTrue(Headers(lp)))
    requires b' == if o.None? && Collects(cur, d) && cur.value == k then b + [x] else b
    ensures LastTrue(Is(lp + [o], k)).Some?
    ensures b' == BodyOf(pre + [x], lp + [o], k, d)
  {
    LastIsSnoc(lp, o, k);
    var j := LastTrue(Is(lp, k)).value;
    var e := NextHeader(lp, j + 1);
    if o.Some? || e < |lp| {
      StepKept(pre, lp, x, o, k, d, j, e, cur);
    } else {
      StepGrown(pre, lp, x, o, k, d, j, cur);
    }
  }

  lemma StepKept(pre: seq<string>, lp: seq<Option<string>>, x: string, o: Option<string>, k: string, d: Dialect,
                 j: nat, e: nat, cur: Option<string>)
    requires |lp| == |pre| && LastTrue(Is(lp, k)) == Some(j) && LastTrue(Is(lp + [o], k)) == Some(j)
    requires e == NextHeader(lp, j + 1) && (o.Some? || e < |lp|) && cur == LabelAt(lp, LastTrue(Headers(lp)))
    ensures o.None? && Collects(cur, d) ==> cur.value != k
    ensures BodyOf(pre + [x], lp + [o], k, d) == BodyOf(pre, lp, k, d)
  {
    NextHeaderSnoc(lp, o, j + 1);
    SliceSnoc(pre, x, j + 1, e);
    if o.None? {
      LastAfter(lp, k, j, e);
    }
    BodyKept(pre, lp, x, o, k, d, j, e);
  }

  lemma StepGrown(pre: seq<string>, lp: seq<Option<string>>, x: string, o: Option<string>, k: string, d: Dialect,
                  j: nat, cur: Option<string>)
    requires |lp| == |pre| && LastTrue(Is(lp, k)) == Some(j) && LastTrue(Is(lp + [o], k)) == Some(j)
    requires NextHeader(lp, j + 1) == |lp| && o.None? && cur == LabelAt(lp, LastTrue(Headers(lp)))
    ensures cur == Some(k)
    ensures BodyOf(pre + [x], lp + [o], k, d)
      == if Collects(Some(k), d) then BodyOf(pre, lp, k, d) + [x] else BodyOf(pre, lp, k, d)
  {
    NextHeaderSnoc(lp, o, j + 1);
    SliceSnoc(pre, x, j + 1, |lp|);
    LastAt(lp, k, j);
    BodyGrown(pre, lp, x, o, k, d, j);
  }

  /** A line after the section's end leaves its body as it was. */
  lemma BodyKept(pre: seq<string>, lp: seq<Option<string>>, x: string, o: Option<string>, k: string, d: Dialect,
                 j: nat, e: nat)
    requires |lp| == |pre| && LastTrue(Is(lp, k)) == Some(j) && LastTrue(Is(lp + [o], k)) == Some(j)
    requires e == NextHeader(lp, j + 1) && NextHeader(lp + [o], j + 1) == e
    requires (pre + [x])[j + 1..e] == pre[j + 1..e]
    ensures BodyOf(pre + [x], lp + [o], k, d) == BodyOf(pre, lp, k, d)
  {
    BodyOfIs(pre + [x], lp + [o], k, d, j, e);
    BodyOfIs(pre, lp, k, d, j, e);
  }

  /** The body of section `k` as the slice after its last header, up to the next one. */
  lemma BodyOfIs(lines: seq<string>, ls: seq<Option<string>>, k: string, d: Dialect, j: nat, e: nat)
    requires |ls| == |lines| && LastTrue(Is(ls, k)) == Some(j) && e == NextHeader(ls, j + 1)
    ensures BodyOf(lines, ls, k, d) == if Collects(Some(k), d) then lines[j + 1..e] else []
  {
    assert LastTrue(Is(ls, k)).value == j;
  }

  /** A line inside the open section `k` extends its body. */
  lemma BodyGrown(pre: seq<string>, lp: seq<Option<string>>, x: string, o: Option<string>, k: string, d: Dialect,
                  j: nat)
    requires |lp| == |pre| && LastTrue(Is(lp, k)) == Some(j) && LastTrue(Is(lp + [o], k)) == Some(j)
    requires NextHeader(lp, j + 1) == |lp| && NextHeader(lp + [o], j + 1) == |lp| + 1
    requires (pre + [x])[j + 1..|pre| + 1] == pre[j + 1..|pre|] + [x]
    ensures BodyOf(pre + [x], lp + [o], k, d)
      == if Collects(Some(k), d) then BodyOf(pre, lp, k, d) + [x] else BodyOf(pre, lp, k, d)
  {
    BodyOfIs(pre + [x], lp + [o], k, d, j, |lp| + 1);
    BodyOfIs(pre, lp, k, d, j, |lp|);
  }

  /** A header after the last one labelled `k` makes the open section another one. */
  lemma LastAfter(ls: seq<Option<string>>, k: string, j: nat, e: nat)
    requires LastTrue(Is(ls, k)) == Some(j) && j < e < |ls| && ls[e].Some?
    ensures LabelAt(ls, LastTrue(Headers(ls))) != Some(k)
  {
    assert Headers(ls)[e];
  }

  /** With no header after the last one labelled `k`, that one is the last header. */
  lemma LastAt(ls: seq<Option<string>>, k: string, j: nat)
    requires LastTrue(Is(ls, k)) == Some(j) && NextHeader(ls, j + 1) == |ls|
    ensures LastTrue(Headers(ls)) == Some(j)
  {
    var h := Headers(ls);
    assert h[j];
    assert forall t :: j < t < |h| ==> !h[t];
    var r := LastTrue(h);
    assert r.Some?;
    assert !(r.value < j) && !(r.value > j);
  }

  lemma FirstNamedSnoc(ls: seq<Option<string>>, o: Option<string>, name: string)
    ensures FirstTrue(Named(ls + [o], name))
      == if FirstTrue(Named(ls, name)).Some? then FirstTrue(Named(ls, name))
         else if o.Some? && LowerStr(o.value) == name then Some(|ls|) else None
  {
    NamedSnoc(ls, o, name);
    FirstTrueSnoc(Named(ls, name), o.Some? && LowerStr(o.value) == name);
  }

  /** A label already seen cannot be the first one lower-casing to a name that no
      earlier label lower-cases to. */
  lemma SeenNotNew(ls: seq<Option<string>>, h: string, name: string)
    requires LastTrue(Is(ls, h)).Some? && FirstTrue(Named(ls, name)).None?
    ensures LowerStr(h) != name
  {
    var t := LastTrue(Is(ls, h)).value;
    assert ls[t] == Some(h);
    assert Named(ls, name)[t] == (LowerStr(h) == name);
  }

  /** The keys keep the order in which labels first appear: the first key that
      lower-cases to `name` is the label of the first header that does. */
  lemma {:induction false} ScanKeyOrder(lines: seq<string>, ls: seq<Option<string>>, name: string, d: Dialect)
    requires |ls| == |lines|
    ensures FirstKeyNamed(Scan(lines, ls, d).sections.keys, name) == LabelAt(ls, FirstTrue(Named(ls, name)))
    decreases |lines|
  {
    if lines != [] {
      var pre, x := lines[..|lines| - 1], lines[|lines| - 1];
      var lp, o := ls[..|ls| - 1], ls[|ls| - 1];
      assert lines == pre + [x] && ls == lp + [o];
      ScanKeyOrder(pre, lp, name, d);
      KeysSnoc(pre, lp, x, o, d);
      FirstNamedSnoc(lp, o, name);
      var m := Scan(pre, lp, d).sections;
      var f := FirstTrue(Named(lp, name));
      if f.Some? {
        assert LabelAt(ls, f) == LabelAt(lp, f);
      }
      if o.Some? {
        if o.value in m.body {
          if f.None? {
            ScanKeys(pre, lp, o.value, d);
            SeenNotNew(lp, o.value, name);
          }
        } else {
          FirstKeyNamedSnoc(m.keys, o.value, name);
        }
      }
    }
  }

  /** Scanning only lines that are not headers leaves the scanner as it started. */
  lemma {:induction false} NoHeaderScan(lines: seq<string>, ls: seq<Option<string>>, d: Dialect)
    requires |ls| == |lines| && forall i :: 0 <= i < |ls| ==> ls[i].None?
    ensures Scan(lines, ls, d) == Scanner(Empty, None)
    decreases |lines|
  {
    if lines != [] {
      NoHeaderScan(lines[..|lines| - 1], ls[..|ls| - 1], d);
    }
  }

  /** Lines before the first header belong to no section: they can be dropped. */
  lemma {:induction false} LeadingLinesDropped(pre: seq<string>, lpre: seq<Option<string>>,
                                               rest: seq<string>, lrest: seq<Option<string>>, d: Dialect)
    requires |lpre| == |pre| && |lrest| == |rest| && forall i :: 0 <= i < |lpre| ==> lpre[i].None?
    ensures Scan(pre + rest, lpre + lrest, d) == Scan(rest, lrest, d)
    decreases |rest|
  {
    if rest == [] {
      assert pre + rest == pre && lpre + lrest == lpre;
      NoHeaderScan(pre, lpre, d);
    } else {
      var r, x := rest[..|rest| - 1], rest[|rest| - 1];
      var lr, o := lrest[..|lrest| - 1], lrest[|lrest| - 1];
      assert rest == r + [x] && lrest == lr + [o];
      assert pre + rest == (pre + r) + [x] && lpre + lrest == (lpre + lr) + [o];
      LeadingLinesDropped(pre, lpre, r, lr, d);
      ScanSnoc(pre + r, lpre + lr, x, o, d);
      ScanSnoc(r, lr, x, o, d);
    }
  }

  /** No header line is ever a body line. */
  lemma HeadersNeverInBodies(lines: seq<string>, ls: seq<Option<string>>, k: string, d: Dialect, q: nat)
    requires |ls| == |lines| && k in Scan(lines, ls, d).sections.body
    requires q < |Scan(lines, ls, d).sections.body[k]|
    ensures exists i :: 0 <= i < |lines| && ls[i].None? && lines[i] == Scan(lines, ls, d).sections.body[k][q]
  {
    ScanBody(lines, ls, k, d);
    var j := LastTrue(Is(ls, k)).value;
    var i := j + 1 + q;
    assert ls[i].None? && lines[i] == Scan(lines, ls, d).sections.body[k][q];
  }

  /** Scanning one more line, with the label the pattern gives it. */
  lemma SectionsSnoc(lines: seq<string>, x: string, d: Dialect)
    ensures ScanLines(lines + [x], d) == Step(ScanLines(lines, d), x, HeaderLabel(x, d), d)
  {
    assert Labels(lines + [x], d) == Labels(lines, d) + [HeaderLabel(x, d)] by {
      assert forall j :: 0 <= j < |lines| ==> (lines + [x])[j] == lines[j];
    }
    ScanSnoc(lines, Labels(lines, d), x, HeaderLabel(x, d), d);
  }

  /** The key a loop stops at, seen from the loop: the first index that matches. */
  lemma {:induction false} FirstKeyNamedAt(keys: seq<string>, name: string, j: nat)
    requires j < |keys| && LowerStr(keys[j]) == name
    requires forall t :: 0 <= t < j ==> LowerStr(keys[t]) != name
    ensures FirstKeyNamed(keys, name) == Some(keys[j])
  {
    if j > 0 {
      FirstKeyNamedAt(keys[1..], name, j - 1);
    }
  }

  /** A slice grown by one index. */
  lemma SliceGrow(lines: seq<string>, from: nat, i: nat)
    requires from <= i < |lines|
    ensures lines[from..i + 1] == lines[from..i] + [lines[i]]
  {
  }
}
