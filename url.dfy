/**
 * The address-bar URL rewriter of the workspace (`normalizeUrl`) and the
 * percent-encoding it uses for search queries (`encodeURIComponent`).
 */
module Url {
  import opened Strings

  /** Where a blank address goes. */
  const SearchRoot: string := "https://duckduckgo.com"

  /** A search query is appended, percent-encoded, to this. */
  const SearchPrefix: string := "https://duckduckgo.com/?q="

  predicate IsAlpha(c: char) {
    ('a' <= c <= 'z') || ('A' <= c <= 'Z')
  }

  predicate IsDigit(c: char) {
    '0' <= c <= '9'
  }

  /** Characters allowed after the first one of a URI scheme (section 3.1 of RFC 3986). */
  predicate IsSchemeChar(c: char) {
    IsAlpha(c) || IsDigit(c) || c == '+' || c == '-' || c == '.'
  }

  /** Length of the leading run of scheme characters of `s`. */
  function SchemeRun(s: string): (k: nat)
    ensures k <= |s|
    ensures forall i :: 0 <= i < k ==> IsSchemeChar(s[i])
    ensures k < |s| ==> !IsSchemeChar(s[k])
  {
    if |s| > 0 && IsSchemeChar(s[0]) then 1 + SchemeRun(s[1..]) else 0
  }

  /**
   * `/^[a-zA-Z][a-zA-Z\d+\-.]*:\/\//.test(s)`. Since ':' is not a scheme
   * character, the only place the "://" can start is the end of the run.
   */
  predicate HasScheme(s: string) {
    |s| > 0 && IsAlpha(s[0]) && StartsWith(s[SchemeRun(s)..], "://")
  }

  /** Characters `encodeURIComponent` leaves as they are. */
  predicate IsUnreserved(c: char) {
    IsAlpha(c) || IsDigit(c) || c == '-' || c == '_' || c == '.' || c == '!' || c == '~'
    || c == '*' || c == '\'' || c == '(' || c == ')'
  }

  predicate IsUpperHexDigit(c: char) {
    IsDigit(c) || ('A' <= c <= 'F')
  }

  /** What can appear in the output of `encodeURIComponent`. */
  predicate IsEncodedChar(c: char) {
    IsUnreserved(c) || c == '%' || IsUpperHexDigit(c)
  }

  function HexDigit(n: nat): (c: char)
    requires n < 16
    ensures IsUpperHexDigit(c)
  {
    if n < 10 then ('0' as int + n) as char else ('A' as int + n - 10) as char
  }

  /** `%XX` for one byte. */
  function PercentByte(b: nat): (r: string)
    requires b < 256
    ensures |r| == 3 && r[0] == '%'
    ensures forall i :: 0 <= i < |r| ==> IsEncodedChar(r[i])
  {
    ['%', HexDigit(b / 16), HexDigit(b % 16)]
  }

  /** The UTF-8 encoding of one Unicode scalar value. */
  function Utf8(c: char): (bytes: seq<nat>)
    ensures 1 <= |bytes| <= 4
    ensures forall i :: 0 <= i < |bytes| ==> bytes[i] < 256
    ensures (c as int < 0x80) <==> |bytes| == 1
    ensures |bytes| == 1 ==> bytes[0] == c as int
  {
    var n := c as int;
    if n < 0x80 then [n]
    else if n < 0x800 then [0xC0 + n / 0x40, 0x80 + n % 0x40]
    else if n < 0x1_0000 then [0xE0 + n / 0x1000, 0x80 + (n / 0x40) % 0x40, 0x80 + n % 0x40]
    else [0xF0 + n / 0x4_0000, 0x80 + (n / 0x1000) % 0x40, 0x80 + (n / 0x40) % 0x40, 0x80 + n % 0x40]
  }

  function PercentBytes(bytes: seq<nat>): (r: string)
    requires forall i :: 0 <= i < |bytes| ==> bytes[i] < 256
    ensures |r| == 3 * |bytes|
    ensures forall i :: 0 <= i < |r| ==> IsEncodedChar(r[i])
  {
    if bytes == [] then [] else PercentByte(bytes[0]) + PercentBytes(bytes[1..])
  }

  function EncodeChar(c: char): (r: string)
    ensures IsUnreserved(c) ==> r == [c]
    ensures !IsUnreserved(c) ==> |r| >= 3 && r[0] == '%'
    ensures |r| > 0 && forall i :: 0 <= i < |r| ==> IsEncodedChar(r[i])
  {
    if IsUnreserved(c) then [c] else PercentBytes(Utf8(c))
  }

  /**
   * JavaScript `encodeURIComponent` (percent-encoding, section 2.1 of RFC 3986,
   * of the UTF-8 bytes of every character outside the unreserved set).
   */
  function EncodeUriComponent(s: string): (r: string)
    ensures |r| >= |s|
    ensures s != [] ==> r != []
    ensures forall i :: 0 <= i < |r| ==> IsEncodedChar(r[i])
  {
    if s == [] then [] else EncodeChar(s[0]) + EncodeUriComponent(s[1..])
  }

  /** A string of unreserved characters is left as it is. */
  lemma {:induction false} EncodeUnreservedIsIdentity(s: string)
    requires forall i :: 0 <= i < |s| ==> IsUnreserved(s[i])
    ensures EncodeUriComponent(s) == s
  {
    if s != [] {
      EncodeUnreservedIsIdentity(s[1..]);
    }
  }

  /** Every reserved character becomes a `%XX` escape: the output has no space. */
  lemma EncodedHasNoSpace(s: string)
    ensures ' ' !in EncodeUriComponent(s)
    ensures forall i :: 0 <= i < |EncodeUriComponent(s)| ==> !IsJsSpace(EncodeUriComponent(s)[i])
  {
    var r := EncodeUriComponent(s);
    forall i | 0 <= i < |r| ensures !IsJsSpace(r[i]) && r[i] != ' ' {
      EncodedCharIsNotSpace(r[i]);
    }
  }

  /** No character of the encoded alphabet is whitespace. */
  lemma EncodedCharIsNotSpace(c: char)
    requires IsEncodedChar(c)
    ensures !IsJsSpace(c) && c != ' '
  {
  }

  /**
   * `normalizeUrl`: turns what the user typed into an absolute URL. Blank
   * input opens the search site; trimmed text that starts with a letter, a
   * run of scheme characters and "://" is kept; trimmed text with a space or
   * without a dot becomes a search query; anything else gets "https://".
   */
  function NormalizeUrl(value: string): (r: string)
    ensures JsBlank(value) ==> r == SearchRoot
    ensures var t := JsTrim(value);
            t != [] && IsAlpha(t[0]) && StartsWith(t[SchemeRun(t)..], "://") ==> r == t
    ensures var t := JsTrim(value);
            t != [] && !(IsAlpha(t[0]) && StartsWith(t[SchemeRun(t)..], "://")) && (' ' in t || '.' !in t) ==>
              r == SearchPrefix + EncodeUriComponent(t)
    ensures var t := JsTrim(value);
            t != [] && !(IsAlpha(t[0]) && StartsWith(t[SchemeRun(t)..], "://")) && ' ' !in t && '.' in t ==>
              r == "https://" + t
  {
    var trimmed := JsTrim(value);
    if trimmed == [] then SearchRoot
    else if HasScheme(trimmed) then trimmed
    else if ' ' in trimmed || '.' !in trimmed then SearchPrefix + EncodeUriComponent(trimmed)
    else "https://" + trimmed
  }

  /** Any string that starts with "https://" carries a scheme. */
  lemma HttpsHasScheme(rest: string)
    ensures HasScheme("https://" + rest)
  {
    var s := "https://" + rest;
    assert s[0] == 'h' && s[1] == 't' && s[2] == 't' && s[3] == 'p' && s[4] == 's' && s[5] == ':';
    assert SchemeRun(s) == 5;
    assert s[5..][..3] == "://";
  }

  /** "https://" followed by a non-empty trimmed text is a trimmed URL with a scheme. */
  lemma HttpsUrlShape(rest: string)
    requires rest != [] && !IsJsSpace(rest[|rest| - 1])
    ensures HasScheme("https://" + rest)
    ensures IsTrimmed("https://" + rest, IsJsSpace)
  {
    HttpsHasScheme(rest);
    var s := "https://" + rest;
    assert s[|s| - 1] == rest[|rest| - 1];
  }

  /** The output of `normalizeUrl` always carries a scheme and has no surrounding whitespace. */
  lemma NormalizeUrlShape(value: string)
    ensures HasScheme(NormalizeUrl(value))
    ensures IsTrimmed(NormalizeUrl(value), IsJsSpace)
  {
    var trimmed := JsTrim(value);
    var r := NormalizeUrl(value);
    if trimmed == [] {
      HttpsUrlShape("duckduckgo.com");
      assert r == "https://" + "duckduckgo.com";
    } else if HasScheme(trimmed) {
      assert r == trimmed;
    } else if ' ' in trimmed || '.' !in trimmed {
      SearchUrlShape(trimmed);
      assert r == SearchPrefix + EncodeUriComponent(trimmed);
    } else {
      HttpsUrlShape(trimmed);
      assert r == "https://" + trimmed;
    }
  }

  lemma SearchUrlShape(query: string)
    requires query != []
    ensures HasScheme(SearchPrefix + EncodeUriComponent(query))
    ensures IsTrimmed(SearchPrefix + EncodeUriComponent(query), IsJsSpace)
  {
    var enc := EncodeUriComponent(query);
    var tail := "duckduckgo.com/?q=" + enc;
    assert tail[|tail| - 1] == enc[|enc| - 1];
    assert !IsJsSpace(enc[|enc| - 1]);
    HttpsUrlShape(tail);
    SearchPrefixSplit();
    AppendAssociative("https://", "duckduckgo.com/?q=", enc);
  }

  /** The search prefix is an https URL prefix. */
  lemma SearchPrefixSplit()
    ensures SearchPrefix == "https://" + "duckduckgo.com/?q="
  {
  }

  lemma AppendAssociative(a: string, b: string, c: string)
    ensures (a + b) + c == a + (b + c)
  {
  }

  /** `normalizeUrl` is idempotent: its results are its fixed points. */
  lemma NormalizeUrlIdempotent(value: string)
    ensures NormalizeUrl(NormalizeUrl(value)) == NormalizeUrl(value)
  {
    var r := NormalizeUrl(value);
    NormalizeUrlShape(value);
    TrimOfTrimmed(r, IsJsSpace);
  }
}
