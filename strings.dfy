/**
 * String helpers shared by the UI (TypeScript) and the shell (Rust) models:
 * whitespace trimming with each language's whitespace set, ASCII case mapping,
 * splitting on a separator and joining back.
 */
module Strings {

  /** Characters removed by JavaScript's `String.prototype.trim`. */
  predicate IsJsSpace(c: char) {
    c == ' ' || c == '\t' || c == '\n' || c == '\r' || c == '\U{000B}' || c == '\U{000C}'
    || c == '\U{00A0}' || c == '\U{FEFF}' || c == '\U{1680}' || ('\U{2000}' <= c <= '\U{200A}')
    || c == '\U{2028}' || c == '\U{2029}' || c == '\U{202F}' || c == '\U{205F}' || c == '\U{3000}'
  }

  /** Characters removed by Rust's `str::trim` (the Unicode White_Space property). */
  predicate IsRustSpace(c: char) {
    c == ' ' || c == '\t' || c == '\n' || c == '\r' || c == '\U{000B}' || c == '\U{000C}'
    || c == '\U{0085}' || c == '\U{00A0}' || c == '\U{1680}' || ('\U{2000}' <= c <= '\U{200A}')
    || c == '\U{2028}' || c == '\U{2029}' || c == '\U{202F}' || c == '\U{205F}' || c == '\U{3000}'
  }

  /** Number of leading characters of `s` that satisfy `space`. */
  function LeadingSpaces(s: string, space: char -> bool): (k: nat)
    ensures k <= |s|
    ensures forall i :: 0 <= i < k ==> space(s[i])
    ensures k < |s| ==> !space(s[k])
  {
    if |s| > 0 && space(s[0]) then 1 + LeadingSpaces(s[1..], space) else 0
  }

  /** Length of `s` once its trailing characters satisfying `space` are dropped. */
  function KeptLength(s: string, space: char -> bool): (k: nat)
    ensures k <= |s|
    ensures forall i :: k <= i < |s| ==> space(s[i])
    ensures k > 0 ==> !space(s[k - 1])
  {
    if |s| > 0 && space(s[|s| - 1]) then KeptLength(s[..|s| - 1], space) else |s|
  }

  /** `s` has no leading and no trailing `space` character. */
  predicate IsTrimmed(s: string, space: char -> bool) {
    s == [] || (!space(s[0]) && !space(s[|s| - 1]))
  }

  /** `s` without its leading and trailing `space` characters. */
  function Trim(s: string, space: char -> bool): (r: string)
    ensures IsTrimmed(r, space)
    ensures |r| <= |s|
    ensures r == [] <==> forall i :: 0 <= i < |s| ==> space(s[i])
    ensures var a := LeadingSpaces(s, space);
            a + |r| <= |s| && r == s[a..a + |r|] && forall i :: a + |r| <= i < |s| ==> space(s[i])
  {
    var a := LeadingSpaces(s, space);
    var t := s[a..];
    var r := t[..KeptLength(t, space)];
    r
  }

  /** A trimmed string is its own trim. */
  lemma {:induction false} TrimOfTrimmed(s: string, space: char -> bool)
    requires IsTrimmed(s, space)
    ensures Trim(s, space) == s
  {
    if s != [] {
      assert LeadingSpaces(s, space) == 0;
      assert s[0..] == s;
      assert KeptLength(s, space) == |s|;
    }
  }

  /** Trimming is idempotent. */
  lemma TrimIdempotent(s: string, space: char -> bool)
    ensures Trim(Trim(s, space), space) == Trim(s, space)
  {
    TrimOfTrimmed(Trim(s, space), space);
  }

  /** JavaScript `s.trim()`. */
  function JsTrim(s: string): (r: string)
    ensures IsTrimmed(r, IsJsSpace)
    ensures r == [] <==> forall i :: 0 <= i < |s| ==> IsJsSpace(s[i])
  {
    Trim(s, IsJsSpace)
  }

  /** JavaScript `s.trim().length === 0`. */
  predicate JsBlank(s: string) {
    JsTrim(s) == []
  }

  /** Rust `s.trim()`. */
  function RustTrim(s: string): (r: string)
    ensures IsTrimmed(r, IsRustSpace)
    ensures r == [] <==> forall i :: 0 <= i < |s| ==> IsRustSpace(s[i])
  {
    Trim(s, IsRustSpace)
  }

  /** Rust `s.trim().is_empty()`. */
  predicate RustBlank(s: string) {
    RustTrim(s) == []
  }

  function ToLowerChar(c: char): char {
    if 'A' <= c <= 'Z' then (c as int + 32) as char else c
  }

  function ToUpperChar(c: char): char {
    if 'a' <= c <= 'z' then (c as int - 32) as char else c
  }

  /** ASCII lower-casing, as Rust `to_ascii_lowercase`. */
  function ToLower(s: string): (r: string)
    ensures |r| == |s| && forall i :: 0 <= i < |s| ==> r[i] == ToLowerChar(s[i])
  {
    seq(|s|, i requires 0 <= i < |s| => ToLowerChar(s[i]))
  }

  /** ASCII upper-casing. */
  function ToUpper(s: string): (r: string)
    ensures |r| == |s| && forall i :: 0 <= i < |s| ==> r[i] == ToUpperChar(s[i])
  {
    seq(|s|, i requires 0 <= i < |s| => ToUpperChar(s[i]))
  }

  /** Rust `a.eq_ignore_ascii_case(b)`. */
  predicate EqIgnoreAsciiCase(a: string, b: string) {
    ToLower(a) == ToLower(b)
  }

  predicate StartsWith(s: string, prefix: string) {
    |prefix| <= |s| && s[..|prefix|] == prefix
  }

  /** Index of the first `c` in `s`, or `|s|` when there is none. */
  function IndexOfChar(s: string, c: char): (k: nat)
    ensures k <= |s|
    ensures k < |s| ==> s[k] == c
    ensures forall i :: 0 <= i < k ==> s[i] != c
  {
    if |s| == 0 then 0 else if s[0] == c then 0 else 1 + IndexOfChar(s[1..], c)
  }

  /** The parts joined with `sep` between them. */
  function Join(parts: seq<string>, sep: char): string
    requires |parts| >= 1
  {
    if |parts| == 1 then parts[0] else parts[0] + [sep] + Join(parts[1..], sep)
  }

  /** `s.split(sep)` in JavaScript and Rust: never empty, and "" gives [""]. */
  function Split(s: string, sep: char): (parts: seq<string>)
    ensures |parts| >= 1
    ensures forall i :: 0 <= i < |parts| ==> sep !in parts[i]
    ensures Join(parts, sep) == s
    decreases |s|
  {
    var k := IndexOfChar(s, sep);
    if k == |s| then [s]
    else
      var rest := Split(s[k + 1..], sep);
      assert s == s[..k] + [sep] + s[k + 1..];
      assert ([s[..k]] + rest)[1..] == rest;
      [s[..k]] + rest
  }

  /** Splitting undoes joining when no part holds the separator. */
  lemma {:induction false} SplitJoin(parts: seq<string>, sep: char)
    requires |parts| >= 1
    requires forall i :: 0 <= i < |parts| ==> sep !in parts[i]
    ensures Split(Join(parts, sep), sep) == parts
  {
    var s := Join(parts, sep);
    var p := parts[0];
    if |parts| == 1 {
      assert IndexOfChar(s, sep) == |s|;
    } else {
      var tail := Join(parts[1..], sep);
      assert s == p + [sep] + tail;
      assert s[|p|] == sep;
      assert forall i :: 0 <= i < |p| ==> s[i] == p[i] && s[i] != sep;
      assert IndexOfChar(s, sep) == |p|;
      assert s[..|p|] == p;
      assert s[|p| + 1..] == tail;
      SplitJoin(parts[1..], sep);
    }
  }
}
