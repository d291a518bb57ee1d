// The four regular expressions of the segmenter, which both implementations spell
// identically, evaluated under each runtime's `\s` and `.`, and the line searches built
// on them.
module Patterns {
  import opened Types
  import opened Text

  // `re.match(r"^\s*#\s+.+", line)` / `/^\s*#\s+.+/.test(line)`: a level-1 heading.
  // `\s*` stops at the first non-whitespace character, which must be `#`.
  predicate IsH1(line: string, d: Dialect) {
    var i := SkipSpace(line, 0, d);
    i + 1 < |line| && line[i] == '#' && IsSpace(line[i + 1], d) && SpacesThenDot(line, i + 2, d)
  }

  // `\s*.` matched at index `k` of `s`.
  predicate SpacesThenDot(s: string, k: nat, d: Dialect)
    requires k <= |s|
    decreases |s| - k
  {
    k < |s| && (IsDot(s[k], d) || (IsSpace(s[k], d) && SpacesThenDot(s, k + 1, d)))
  }

  // The heading pattern read as a regular expression: whitespace before index `i`, `#` at
  // `i`, whitespace from `i + 1` up to `j` (at least one character), and a character that
  // `.` matches at `j`.
  ghost predicate H1Shape(line: string, d: Dialect) {
    exists i, j :: 0 <= i < j < |line| && i + 1 < j && line[i] == '#' && IsDot(line[j], d)
      && AllSpace(line[..i], d) && AllSpace(line[i + 1..j], d)
  }

  lemma {:induction false} SpacesThenDotAt(s: string, k: nat, d: Dialect) returns (m: nat)
    requires k <= |s| && SpacesThenDot(s, k, d)
    ensures k <= m < |s| && IsDot(s[m], d) && forall x :: k <= x < m ==> IsSpace(s[x], d)
    decreases |s| - k
  {
    if IsDot(s[k], d) {
      m := k;
    } else {
      m := SpacesThenDotAt(s, k + 1, d);
    }
  }

  lemma {:induction false} SpacesThenDotFrom(s: string, k: nat, m: nat, d: Dialect)
    requires k <= m < |s| && IsDot(s[m], d) && forall x :: k <= x < m ==> IsSpace(s[x], d)
    ensures SpacesThenDot(s, k, d)
    decreases m - k
  {
    if k < m && !IsDot(s[k], d) {
      SpacesThenDotFrom(s, k + 1, m, d);
    }
  }

  lemma AllSpaceRange(s: string, a: nat, b: nat, d: Dialect)
    requires a <= b <= |s|
    ensures AllSpace(s[a..b], d) <==> forall k :: a <= k < b ==> IsSpace(s[k], d)
  {
    if forall k :: a <= k < b ==> IsSpace(s[k], d) {
      forall k | 0 <= k < b - a ensures IsSpace(s[a..b][k], d) { assert s[a..b][k] == s[a + k]; }
    }
    if AllSpace(s[a..b], d) {
      forall k | a <= k < b ensures IsSpace(s[k], d) { assert s[a..b][k - a] == s[k]; }
    }
  }

  lemma H1HasShape(line: string, d: Dialect)
    requires IsH1(line, d)
    ensures H1Shape(line, d)
  {
    var i := SkipSpace(line, 0, d);
    var j := SpacesThenDotAt(line, i + 2, d);
    AllSpaceRange(line, 0, i, d);
    AllSpaceRange(line, i + 1, j, d);
    assert line[..i] == line[0..i];
  }

  lemma H1FromShape(line: string, d: Dialect)
    requires H1Shape(line, d)
    ensures IsH1(line, d)
  {
    var i, j :| 0 <= i < j < |line| && i + 1 < j && line[i] == '#' && IsDot(line[j], d)
      && AllSpace(line[..i], d) && AllSpace(line[i + 1..j], d);
    assert line[..i] == line[0..i];
    AllSpaceRange(line, 0, i, d);
    AllSpaceRange(line, i + 1, j, d);
    H1At(line, i, j, d);
  }

  lemma H1At(line: string, i: nat, j: nat, d: Dialect)
    requires i + 1 < j < |line| && line[i] == '#' && IsDot(line[j], d)
    requires forall x :: 0 <= x < i ==> IsSpace(line[x], d)
    requires forall x :: i + 1 <= x < j ==> IsSpace(line[x], d)
    ensures IsH1(line, d)
  {
    assert !IsSpace(line[i], d);
    SkipPadding(line, i, 0, d);
    SpacesThenDotFrom(line, i + 2, j, d);
  }

  /** The heading test agrees with its reading as a regular expression, in both directions. */
  lemma H1MatchesShape(line: string, d: Dialect)
    ensures IsH1(line, d) <==> H1Shape(line, d)
  {
    if IsH1(line, d) { H1HasShape(line, d); }
    if H1Shape(line, d) { H1FromShape(line, d); }
  }

  // The heading text: `re.sub(r"^\s*#\s+", "", line).strip()` / `line.replace(/^\s*#\s+/, '').trim()`.
  // The substitution removes the whitespace, the `#` and all whitespace after it.
  function H1Text(line: string, d: Dialect): string
    requires IsH1(line, d)
  {
    Trim(line[SkipSpace(line, SkipSpace(line, 0, d) + 1, d)..], d)
  }

  /** A line made of whitespace, `#`, at least one whitespace character and a rest that
      starts with a non-whitespace character is a heading, and its text is the trimmed rest. */
  lemma H1TextOf(w1: string, w2: string, rest: string, d: Dialect)
    requires AllSpace(w1, d) && w2 != "" && AllSpace(w2, d)
    requires rest != "" && !IsSpace(rest[0], d)
    ensures IsH1(w1 + "#" + w2 + rest, d)
    ensures H1Text(w1 + "#" + w2 + rest, d) == Trim(rest, d)
  {
    var line := w1 + "#" + w2 + rest;
    var i, m := |w1|, |w1| + 1 + |w2|;
    assert line[i] == '#' && line[m] == rest[0] && line[m..] == rest;
    assert forall x :: 0 <= x < i ==> line[x] == w1[x];
    assert forall x :: i + 1 <= x < m ==> line[x] == w2[x - i - 1];
    assert IsDot(rest[0], d);
    H1At(line, i, m, d);
    SkipPadding(line, i, 0, d);
    SkipPadding(line, m, i + 1, d);
  }

  /** Case-insensitive test that `s` holds the lower-case literal `p` at index `i`. */
  predicate MatchesCIAt(s: string, i: nat, p: string) {
    i + |p| <= |s| && LowerStr(s[i..i + |p|]) == p
  }

  // `^\s*user\s*story:` matched case-insensitively at the start of a title: where the
  // match ends, if it does.
  function LabelEnd(title: string, d: Dialect): (e: Option<nat>)
    ensures e.Some? ==> e.value <= |title|
  {
    var a := SkipSpace(title, 0, d);
    if MatchesCIAt(title, a, "user") then
      var b := SkipSpace(title, a + 4, d);
      if MatchesCIAt(title, b, "story:") then Some(b + 6) else None
    else None
  }

  // `re.sub(r"^\s*user\s*story:\s*", "", title, flags=re.IGNORECASE).strip()`, and the same
  // pattern with `replace(..., '').trim()` in JavaScript: one leading "User Story:" label
  // removed, then the result trimmed.
  function StripUserStory(title: string, d: Dialect): (r: string)
    ensures r == "" || (!IsSpace(r[0], d) && !IsSpace(r[|r| - 1], d))
  {
    match LabelEnd(title, d)
    case Some(e) => Trim(title[e..], d)
    case None => Trim(title, d)
  }

  // `^\s*user\s*story:` read as a regular expression: whitespace before index `a`, `user`
  // in any letter case at `a`, whitespace from `a + 4` up to `b`, `story:` at `b`, and the
  // match ending at `e`.
  ghost predicate LabelShape(title: string, e: nat, d: Dialect) {
    exists a: nat, b: nat :: a + 4 <= b && b + 6 == e && e <= |title|
      && MatchesCIAt(title, a, "user") && MatchesCIAt(title, b, "story:")
      && AllSpace(title[..a], d) && AllSpace(title[a + 4..b], d)
  }

  /** A letter that lower-cases to a lower-case letter is not whitespace. */
  lemma LetterNotSpace(s: string, i: nat, p: string, d: Dialect)
    requires MatchesCIAt(s, i, p) && p != [] && 'a' <= p[0] <= 'z'
    ensures i < |s| && !IsSpace(s[i], d)
  {
    assert Lower(s[i..i + |p|][0]) == p[0];
  }

  /** The label match ends where the regular expression's match ends, in both directions. */
  lemma LabelEndMatchesShape(title: string, e: nat, d: Dialect)
    ensures LabelEnd(title, d) == Some(e) <==> LabelShape(title, e, d)
  {
    if LabelEnd(title, d) == Some(e) {
      LabelEndHasShape(title, e, d);
    }
    if LabelShape(title, e, d) {
      LabelEndOfShape(title, e, d);
    }
  }

  lemma LabelEndOfShape(title: string, e: nat, d: Dialect)
    requires LabelShape(title, e, d)
    ensures LabelEnd(title, d) == Some(e)
  {
    var a: nat, b: nat :| a + 4 <= b && b + 6 == e && e <= |title|
      && MatchesCIAt(title, a, "user") && MatchesCIAt(title, b, "story:")
      && AllSpace(title[..a], d) && AllSpace(title[a + 4..b], d);
    LabelEndFromShape(title, a, b, d);
  }

  lemma LabelEndHasShape(title: string, e: nat, d: Dialect)
    requires LabelEnd(title, d) == Some(e)
    ensures LabelShape(title, e, d)
  {
    var a := SkipSpace(title, 0, d);
    var b := SkipSpace(title, a + 4, d);
    AllSpaceRange(title, 0, a, d);
    AllSpaceRange(title, a + 4, b, d);
    assert title[..a] == title[0..a];
    assert MatchesCIAt(title, a, "user") && MatchesCIAt(title, b, "story:");
  }

  lemma LabelEndFromShape(title: string, a: nat, b: nat, d: Dialect)
    requires a + 4 <= b && b + 6 <= |title|
    requires MatchesCIAt(title, a, "user") && MatchesCIAt(title, b, "story:")
    requires AllSpace(title[..a], d) && AllSpace(title[a + 4..b], d)
    ensures LabelEnd(title, d) == Some(b + 6)
  {
    assert title[..a] == title[0..a];
    AllSpaceRange(title, 0, a, d);
    AllSpaceRange(title, a + 4, b, d);
    LetterNotSpace(title, a, "user", d);
    LetterNotSpace(title, b, "story:", d);
    SkipPadding(title, a, 0, d);
    SkipPadding(title, b, a + 4, d);
  }

  /** The title sanitiser removes one leading `User Story:` label, in any letter case and
      with any whitespace around and inside it, and trims the rest; a title without the
      label is only trimmed. */
  lemma StripUserStoryShape(title: string, d: Dialect)
    ensures forall e: nat :: LabelShape(title, e, d) ==> StripUserStory(title, d) == Trim(title[e..], d)
    ensures (forall e: nat :: !LabelShape(title, e, d)) ==> StripUserStory(title, d) == Trim(title, d)
  {
    forall e: nat | LabelShape(title, e, d)
      ensures StripUserStory(title, d) == Trim(title[e..], d)
    {
      LabelEndMatchesShape(title, e, d);
    }
    if LabelEnd(title, d).Some? {
      LabelEndMatchesShape(title, LabelEnd(title, d).value, d);
    }
  }

  /** A heading line is never blank. */
  lemma HeadingNotBlank(line: string, d: Dialect)
    requires IsH1(line, d)
    ensures Trim(line, d) != ""
  {
    assert line[SkipSpace(line, 0, d)] == '#';
  }

  /** The label that older stories carry in front of the title is removed again. */
  lemma StripLegacyLabel(t: string, d: Dialect)
    requires t == "" || (!IsSpace(t[0], d) && !IsSpace(t[|t| - 1], d))
    ensures StripUserStory("User Story: " + t, d) == t
  {
    var s := "User Story: " + t;
    assert s[..11] == "User Story:" && s[11..] == " " + t;
    LegacyLabelMatches(s, d);
    TrimAfterSpace(t, d);
  }

  lemma TrimAfterSpace(t: string, d: Dialect)
    requires t == "" || (!IsSpace(t[0], d) && !IsSpace(t[|t| - 1], d))
    ensures Trim(" " + t, d) == t
  {
    if t == "" {
      assert AllSpace(" ", d);
    } else {
      assert " " + t == " " + t + "";
      TrimPadded(" ", t, "", d);
    }
  }

  lemma LegacyLabelMatches(s: string, d: Dialect)
    requires |s| >= 11 && s[..11] == "User Story:"
    ensures StripUserStory(s, d) == Trim(s[11..], d)
  {
    LegacyWords(s);
    assert SkipSpace(s, 0, d) == 0 by {
      assert s[0] == 'U';
    }
    assert SkipSpace(s, 4, d) == 5 by {
      assert s[4] == ' ' && s[5] == 'S';
      assert IsSpace(s[4], d) && !IsSpace(s[5], d);
    }
    assert LabelEnd(s, d) == Some(11);
  }

  /** The two words of the legacy label, found where it puts them. */
  lemma LegacyWords(s: string)
    requires |s| >= 11 && s[..11] == "User Story:"
    ensures MatchesCIAt(s, 0, "user") && MatchesCIAt(s, 5, "story:")
  {
    assert s[0..4] == "User";
    assert LowerStr("User") == "user";
    assert s[5..11] == "Story:";
    assert LowerStr("Story:") == "story:";
  }

  predicate NoStar(s: string) {
    forall i :: 0 <= i < |s| ==> s[i] != '*'
  }

  // `^\s*\*\*([^*]+):\*\*\s*$` matched against a line; `Some` of `group(1).strip()` on a
  // match. The pattern begins and ends with `*`, so its `\s*` parts are exactly the
  // leading and trailing whitespace, between indices `a` and `b` below.
  function HeaderLabel(line: string, d: Dialect): Option<string> {
    HeaderWithin(line, SkipSpace(line, 0, d), BackSpace(line, |line|, d), d)
  }

  /** The label of a header filling `line[a..b]`, or `None`. */
  function HeaderWithin(line: string, a: nat, b: nat, d: Dialect): Option<string>
    requires b <= |line|
  {
    if a + 6 <= b && Framed(line, a, b) then Some(Trim(line[a + 2..b - 3], d)) else None
  }

  /** `**`, then at least one character other than `*`, then `:**`, filling `line[a..b]`. */
  predicate Framed(line: string, a: nat, b: nat)
    requires a + 6 <= b <= |line|
  {
    line[a] == '*' && line[a + 1] == '*' && line[b - 3] == ':'
      && line[b - 2] == '*' && line[b - 1] == '*' && NoStar(line[a + 2..b - 3])
  }

  lemma {:induction false} SkipPadding(s: string, n: nat, k: nat, d: Dialect)
    requires k <= n < |s| && !IsSpace(s[n], d) && forall x :: k <= x < n ==> IsSpace(s[x], d)
    ensures SkipSpace(s, k, d) == n
    decreases n - k
  {
    if k < n { SkipPadding(s, n, k + 1, d); }
  }

  lemma {:induction false} BackPadding(s: string, n: nat, k: nat, d: Dialect)
    requires 0 < n <= k <= |s| && !IsSpace(s[n - 1], d) && forall x :: n <= x < k ==> IsSpace(s[x], d)
    ensures BackSpace(s, k, d) == n
    decreases k
  {
    if n < k { BackPadding(s, n, k - 1, d); }
  }

  lemma SpaceLead(w: string, rest: string, d: Dialect)
    requires AllSpace(w, d)
    ensures forall k :: 0 <= k < |w| ==> IsSpace((w + rest)[k], d)
  {
    forall k | 0 <= k < |w| ensures IsSpace((w + rest)[k], d) { assert (w + rest)[k] == w[k]; }
  }
  lemma SpaceTrail(rest: string, w: string, d: Dialect)
    requires AllSpace(w, d)
    ensures forall k :: |rest| <= k < |rest + w| ==> IsSpace((rest + w)[k], d)
  {
    forall k | |rest| <= k < |rest + w| ensures IsSpace((rest + w)[k], d) { assert (rest + w)[k] == w[k - |rest|]; }
  }
  lemma PaddedBounds(w1: string, x: string, w2: string, d: Dialect)
    requires AllSpace(w1, d) && AllSpace(w2, d)
    requires x != "" && !IsSpace(x[0], d) && !IsSpace(x[|x| - 1], d)
    ensures var s := w1 + x + w2;
      SkipSpace(s, 0, d) == |w1| && BackSpace(s, |s|, d) == |w1| + |x| && s[|w1|..|w1| + |x|] == x
  {
    var s := w1 + x + w2;
    assert s == w1 + (x + w2);
    SpaceLead(w1, x + w2, d);
    SpaceTrail(w1 + x, w2, d);
    assert s[|w1|] == x[0] && s[|w1| + |x| - 1] == x[|x| - 1];
    SkipPadding(s, |w1|, 0, d);
    BackPadding(s, |w1| + |x|, |s|, d);
  }

  /** Trimming removes exactly whitespace padding around a string that has none at its ends. */
  lemma TrimPadded(w1: string, x: string, w2: string, d: Dialect)
    requires AllSpace(w1, d) && AllSpace(w2, d)
    requires x != "" && !IsSpace(x[0], d) && !IsSpace(x[|x| - 1], d)
    ensures Trim(w1 + x + w2, d) == x
  {
    PaddedBounds(w1, x, w2, d);
  }

  lemma Glue(line: string, a: nat, b: nat)
    requires a + 5 <= b <= |line| && line[a] == '*' && line[a + 1] == '*'
    requires line[b - 3] == ':' && line[b - 2] == '*' && line[b - 1] == '*'
    ensures line == line[..a] + "**" + line[a + 2..b - 3] + ":**" + line[b..]
  {
    assert line[a..a + 2] == "**";
    assert line[b - 3..b] == ":**";
    assert line == line[..a] + line[a..a + 2] + line[a + 2..b - 3] + line[b - 3..b] + line[b..];
  }

  /** Every line of the regular expression's language is a header, with the stripped label. */
  lemma HeaderOfShape(w1: string, lbl: string, w2: string, d: Dialect)
    requires AllSpace(w1, d) && AllSpace(w2, d) && lbl != "" && NoStar(lbl)
    ensures HeaderLabel(w1 + "**" + lbl + ":**" + w2, d) == Some(Trim(lbl, d))
  {
    var x := "**" + lbl + ":**";
    var s := w1 + x + w2;
    assert w1 + "**" + lbl + ":**" + w2 == s;
    FrameParts(lbl);
    PaddedBounds(w1, x, w2, d);
    var a, b := |w1|, |w1| + |x|;
    SliceChars(s, a, b, x);
    FramedAt(s, a, b, lbl);
    HeaderAt(s, a, b, lbl, d);
  }

  lemma FrameParts(lbl: string)
    requires lbl != ""
    ensures var x := "**" + lbl + ":**";
      |x| == |lbl| + 5 && x[0] == '*' && x[1] == '*' && x[|x| - 3] == ':' && x[|x| - 2] == '*'
      && x[|x| - 1] == '*' && x[2..|x| - 3] == lbl
  {
  }

  lemma SliceChars(s: string, a: nat, b: nat, x: string)
    requires a + 5 <= b <= |s| && s[a..b] == x
    ensures s[a] == x[0] && s[a + 1] == x[1] && s[b - 3] == x[|x| - 3] && s[b - 2] == x[|x| - 2]
      && s[b - 1] == x[|x| - 1] && s[a + 2..b - 3] == x[2..|x| - 3]
  {
    assert |x| == b - a;
    forall i | a + 2 <= i < b - 3
      ensures s[i] == x[i - a]
    {
      assert s[a..b][i - a] == s[i];
    }
    assert s[a + 2..b - 3] == x[2..|x| - 3];
  }

  lemma HeaderAt(s: string, a: nat, b: nat, lbl: string, d: Dialect)
    requires a + 6 <= b <= |s| && SkipSpace(s, 0, d) == a && BackSpace(s, |s|, d) == b
    requires Framed(s, a, b) && s[a + 2..b - 3] == lbl
    ensures HeaderLabel(s, d) == Some(Trim(lbl, d))
  {
    assert HeaderLabel(s, d) == HeaderWithin(s, a, b, d);
  }

  lemma FramedAt(s: string, a: nat, b: nat, lbl: string)
    requires a + 6 <= b <= |s|
    requires s[a] == '*' && s[a + 1] == '*' && s[b - 3] == ':' && s[b - 2] == '*' && s[b - 1] == '*'
    requires s[a + 2..b - 3] == lbl && NoStar(lbl)
    ensures Framed(s, a, b)
  {
  }

  /** Every header line is in the regular expression's language. */
  lemma HeaderHasShape(line: string, d: Dialect) returns (w1: string, lbl: string, w2: string)
    requires HeaderLabel(line, d).Some?
    ensures line == w1 + "**" + lbl + ":**" + w2
    ensures AllSpace(w1, d) && AllSpace(w2, d) && lbl != "" && NoStar(lbl)
    ensures HeaderLabel(line, d) == Some(Trim(lbl, d))
  {
    var a := SkipSpace(line, 0, d);
    var b := BackSpace(line, |line|, d);
    HeaderSpan(line, a, b, d);
    w1 := line[..a];
    w2 := line[b..];
    lbl := line[a + 2..b - 3];
    OuterSpace(line, a, b, d);
    Glue(line, a, b);
  }

  /** A header fills the line between its outer whitespace. */
  lemma HeaderSpan(line: string, a: nat, b: nat, d: Dialect)
    requires HeaderLabel(line, d).Some?
    requires a == SkipSpace(line, 0, d) && b == BackSpace(line, |line|, d)
    ensures a + 6 <= b <= |line| && Framed(line, a, b)
    ensures HeaderLabel(line, d) == Some(Trim(line[a + 2..b - 3], d))
  {
    assert HeaderLabel(line, d) == HeaderWithin(line, a, b, d);
  }

  /** What `SkipSpace` and `BackSpace` pass over is whitespace. */
  lemma OuterSpace(line: string, a: nat, b: nat, d: Dialect)
    requires a == SkipSpace(line, 0, d) && b == BackSpace(line, |line|, d) && a <= b
    ensures AllSpace(line[..a], d) && AllSpace(line[b..], d)
  {
    AllSpaceRange(line, 0, a, d);
    AllSpaceRange(line, b, |line|, d);
    assert line[..a] == line[0..a] && line[b..] == line[b..|line|];
  }

  // `^\s*\*\*Acceptance Criteria:\*\*\s*$`, case-insensitive: the exact label line.
  predicate IsAcLabel(line: string, d: Dialect) {
    LowerEquals(Trim(line, d), "**acceptance criteria:**")
  }

  /** The language of that pattern: whitespace, the label in any ASCII letter case, and
      whitespace. */
  ghost predicate AcLabelShape(line: string, d: Dialect) {
    exists a, b :: 0 <= a <= b <= |line| && AllSpace(line[..a], d) && AllSpace(line[b..], d)
      && LowerStr(line[a..b]) == "**acceptance criteria:**"
  }

  lemma AcLabelHasShape(line: string, d: Dialect)
    requires IsAcLabel(line, d)
    ensures AcLabelShape(line, d)
  {
    var t := Trim(line, d);
    LowerEqualsIff(t, "**acceptance criteria:**");
    assert |t| == |LowerStr(t)|;
    var a := SkipSpace(line, 0, d);
    var b := BackSpace(line, |line|, d);
    assert a < |line| && t == line[a..b];
    OuterSpace(line, a, b, d);
  }

  lemma AcLabelFromShape(line: string, d: Dialect)
    requires AcLabelShape(line, d)
    ensures IsAcLabel(line, d)
  {
    var a, b :| 0 <= a <= b <= |line| && AllSpace(line[..a], d) && AllSpace(line[b..], d)
      && LowerStr(line[a..b]) == "**acceptance criteria:**";
    var x := line[a..b];
    assert Lower(x[0]) == '*' && Lower(x[|x| - 1]) == '*';
    assert line == line[..a] + x + line[b..];
    TrimPadded(line[..a], x, line[b..], d);
    LowerEqualsIff(x, "**acceptance criteria:**");
  }

  /** The exact-label test holds exactly on the lines of the pattern's language. */
  lemma AcLabelMatchesShape(line: string, d: Dialect)
    ensures IsAcLabel(line, d) <==> AcLabelShape(line, d)
  {
    if IsAcLabel(line, d) { AcLabelHasShape(line, d); }
    if AcLabelShape(line, d) { AcLabelFromShape(line, d); }
  }

  /** The tests the segmenter's loops search lines for. */
  datatype LineTest =
    | Heading                    // a level-1 heading
    | NonBlank                   // `line.strip()` / `line.trim()` is non-empty
    | AcceptanceLabel            // the exact Acceptance Criteria label line

  predicate Holds(t: LineTest, line: string, d: Dialect) {
    match t
    case Heading => IsH1(line, d)
    case NonBlank => Trim(line, d) != ""
    case AcceptanceLabel => IsAcLabel(line, d)
  }

  /** The index of the first `true`, or `None`. */
  function FirstTrue(bs: seq<bool>): (r: Option<nat>)
    ensures r.Some? ==> r.value < |bs| && bs[r.value] && forall j :: 0 <= j < r.value ==> !bs[j]
    ensures r.None? <==> forall j :: 0 <= j < |bs| ==> !bs[j]
  {
    if bs == [] then None
    else if bs[0] then Some(0)
    else match FirstTrue(bs[1..])
      case None => None
      case Some(i) => Some(i + 1)
  }

  /** The index of the last `true`, or `None`. */
  function LastTrue(bs: seq<bool>): (r: Option<nat>)
    ensures r.Some? ==> r.value < |bs| && bs[r.value] && forall j :: r.value < j < |bs| ==> !bs[j]
    ensures r.None? <==> forall j :: 0 <= j < |bs| ==> !bs[j]
  {
    if bs == [] then None
    else if bs[|bs| - 1] then Some(|bs| - 1)
    else LastTrue(bs[..|bs| - 1])
  }

  /** Which lines pass `t`. */
  function Marks(lines: seq<string>, t: LineTest, d: Dialect): (m: seq<bool>)
    ensures |m| == |lines| && forall i :: 0 <= i < |lines| ==> m[i] == Holds(t, lines[i], d)
  {
    seq(|lines|, i requires 0 <= i < |lines| => Holds(t, lines[i], d))
  }

  /** The index of the first line passing `t`, or `None` when no line does. */
  function FirstLine(lines: seq<string>, t: LineTest, d: Dialect): (r: Option<nat>)
    ensures r.Some? ==> r.value < |lines| && Holds(t, lines[r.value], d)
    ensures r.Some? ==> forall j :: 0 <= j < r.value ==> !Holds(t, lines[j], d)
    ensures r.None? <==> forall j :: 0 <= j < |lines| ==> !Holds(t, lines[j], d)
  {
    FirstTrue(Marks(lines, t, d))
  }

  /** Appending one value moves the first `true` only when there was none. */
  lemma FirstTrueSnoc(bs: seq<bool>, b: bool)
    ensures FirstTrue(bs + [b]) == if FirstTrue(bs).Some? then FirstTrue(bs) else if b then Some(|bs|) else None
  {
    var r := FirstTrue(bs + [b]);
    assert forall j :: 0 <= j < |bs| ==> (bs + [b])[j] == bs[j];
    assert (bs + [b])[|bs|] == b;
  }

  /** Appending one value moves the last `true` exactly when the new value is `true`. */
  lemma LastTrueSnoc(bs: seq<bool>, b: bool)
    ensures LastTrue(bs + [b]) == if b then Some(|bs|) else LastTrue(bs)
  {
    var r := LastTrue(bs + [b]);
    assert forall j :: 0 <= j < |bs| ==> (bs + [b])[j] == bs[j];
    assert (bs + [b])[|bs|] == b;
  }

  /** A loop that stops at the first passing line finds `FirstLine`. */
  lemma FirstLineAt(lines: seq<string>, t: LineTest, i: nat, d: Dialect)
    requires i < |lines| && Holds(t, lines[i], d)
    requires forall j :: 0 <= j < i ==> !Holds(t, lines[j], d)
    ensures FirstLine(lines, t, d) == Some(i)
  {
  }

  /** A loop that finds no passing line finds `FirstLine` empty. */
  lemma FirstLineNone(lines: seq<string>, t: LineTest, d: Dialect)
    requires forall j :: 0 <= j < |lines| ==> !Holds(t, lines[j], d)
    ensures FirstLine(lines, t, d) == None
  {
  }
}
