/** Character and string primitives as the two runtimes define them:
    `\s`, `str.strip()` / `String.prototype.trim()`, `.` in a regular expression,
    lower-casing, and joining lines with a newline. */
module Text {
  import opened Types

  /** Whitespace as `\s`, `strip()` and `trim()` see it. Python: the characters for
      which `str.isspace()` holds; JavaScript: WhiteSpace and LineTerminator. The two
      sets differ in U+001C..U+001F and U+0085 (Python only) and U+FEFF (JavaScript only). */
  predicate IsSpace(c: char, d: Dialect) {
    || c == ' ' || c == '\t' || c == '\n' || c == '\U{B}' || c == '\U{C}' || c == '\r'
    || c == '\U{A0}' || c == '\U{1680}' || ('\U{2000}' <= c <= '\U{200A}')
    || c == '\U{2028}' || c == '\U{2029}' || c == '\U{202F}' || c == '\U{205F}' || c == '\U{3000}'
    || (d == Python && (('\U{1C}' <= c <= '\U{1F}') || c == '\U{85}'))
    || (d == JavaScript && c == '\U{FEFF}')
  }

  /** What `.` matches in a pattern compiled without a dot-all flag. */
  predicate IsDot(c: char, d: Dialect) {
    match d
    case Python => c != '\n'
    case JavaScript => c != '\n' && c != '\r' && c != '\U{2028}' && c != '\U{2029}'
  }

  predicate AllSpace(s: string, d: Dialect) {
    forall i {:trigger IsSpace(s[i], d)} :: 0 <= i < |s| ==> IsSpace(s[i], d)
  }

  /** The first index at or after `i` that does not hold whitespace (or `|s|`). */
  function SkipSpace(s: string, i: nat, d: Dialect): (j: nat)
    requires i <= |s|
    ensures i <= j <= |s| && (j < |s| ==> !IsSpace(s[j], d))
    ensures forall k {:trigger IsSpace(s[k], d)} :: i <= k < j ==> IsSpace(s[k], d)
    decreases |s| - i
  {
    if i < |s| && IsSpace(s[i], d) then SkipSpace(s, i + 1, d) else i
  }

  /** The least index `i <= j` such that `s[i..j]` is all whitespace. */
  function BackSpace(s: string, j: nat, d: Dialect): (i: nat)
    requires j <= |s|
    ensures i <= j && (i > 0 ==> !IsSpace(s[i - 1], d))
    ensures forall k {:trigger IsSpace(s[k], d)} :: i <= k < j ==> IsSpace(s[k], d)
  {
    if j > 0 && IsSpace(s[j - 1], d) then BackSpace(s, j - 1, d) else j
  }

  /** `s.strip()` / `s.trim()`: empty exactly for all-whitespace input, otherwise a
      non-empty string with no whitespace at either end. `TrimRemovesPadding` shows that
      what it removes is whitespace padding. */
  function Trim(s: string, d: Dialect): (r: string)
    ensures |r| <= |s|
    ensures r == "" <==> AllSpace(s, d)
    ensures r == "" || (!IsSpace(r[0], d) && !IsSpace(r[|r| - 1], d))
  {
    var a := SkipSpace(s, 0, d);
    if a == |s| then "" else s[a..BackSpace(s, |s|, d)]
  }

  /** What `Trim` removes is whitespace padding: `s` is some whitespace, the result,
      and some more whitespace. */
  lemma TrimRemovesPadding(s: string, d: Dialect) returns (w1: string, w2: string)
    ensures s == w1 + Trim(s, d) + w2 && AllSpace(w1, d) && AllSpace(w2, d)
  {
    var a := SkipSpace(s, 0, d);
    if a == |s| {
      w1, w2 := s, "";
    } else {
      var b := BackSpace(s, |s|, d);
      assert Trim(s, d) == s[a..b];
      SpacePrefix(s, a, d);
      SpaceSuffix(s, b, d);
      SliceThree(s, a, b);
      w1, w2 := s[..a], s[b..];
    }
  }

  lemma SpacePrefix(s: string, a: nat, d: Dialect)
    requires a <= |s| && forall k :: 0 <= k < a ==> IsSpace(s[k], d)
    ensures AllSpace(s[..a], d)
  {
    assert forall k :: 0 <= k < a ==> s[..a][k] == s[k];
  }

  lemma SpaceSuffix(s: string, b: nat, d: Dialect)
    requires b <= |s| && forall k :: b <= k < |s| ==> IsSpace(s[k], d)
    ensures AllSpace(s[b..], d)
  {
    assert forall k :: 0 <= k < |s| - b ==> s[b..][k] == s[b + k];
  }

  lemma SliceThree(s: string, a: nat, b: nat)
    requires a <= b <= |s|
    ensures s == s[..a] + s[a..b] + s[b..]
  {
  }

  /** ASCII lower-casing; the only non-ASCII characters whose `lower()` is ASCII
      (such as U+212A KELVIN SIGN) do not lower-case to any letter the segmenter compares with. */
  function Lower(c: char): char {
    if 'A' <= c <= 'Z' then (c as int + 32) as char else c
  }

  /** `s.lower()` / `s.toLowerCase()`, character by character. */
  function LowerStr(s: string): (r: string)
    ensures |r| == |s| && forall i :: 0 <= i < |s| ==> r[i] == Lower(s[i])
  {
    seq(|s|, i requires 0 <= i < |s| => Lower(s[i]))
  }

  /** `LowerStr(s) == p`, compared one character at a time so that a comparison with
      a long literal is unfolded only as far as a proof needs it. */
  predicate LowerEquals(s: string, p: string) {
    if s == [] then p == []
    else p != [] && Lower(s[0]) == p[0] && LowerEquals(s[1..], p[1..])
  }

  lemma {:induction false} LowerEqualsIff(s: string, p: string)
    ensures LowerEquals(s, p) <==> LowerStr(s) == p
  {
    if s != [] && p != [] {
      LowerEqualsIff(s[1..], p[1..]);
      assert LowerStr(s) == [Lower(s[0])] + LowerStr(s[1..]);
      assert p == [p[0]] + p[1..];
    }
  }

  /** `"\n".join(parts)` / `parts.join('\n')`. */
  function Join(parts: seq<string>): string {
    if |parts| == 0 then ""
    else if |parts| == 1 then parts[0]
    else parts[0] + "\n" + Join(parts[1..])
  }
}
