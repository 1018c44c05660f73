/**
 * String helpers that the browser's JavaScript gives the source for free:
 * prefix tests, `String.prototype.trim`, `String.prototype.substring`,
 * hexadecimal digits and the decimal rendering of a number.
 */
module Text {

  predicate StartsWith(s: string, prefix: string)
  {
    |prefix| <= |s| && s[..|prefix|] == prefix
  }

  /** `pattern` occurs in `s` starting at index `i`. */
  predicate OccursAt(s: string, pattern: string, i: int)
  {
    0 <= i && i + |pattern| <= |s| && s[i..i + |pattern|] == pattern
  }

  predicate Contains(s: string, pattern: string)
  {
    exists i :: 0 <= i <= |s| && OccursAt(s, pattern, i)
  }

  lemma ContainsPart(s: string, pattern: string, i: int)
    requires OccursAt(s, pattern, i)
    ensures Contains(s, pattern)
  {
  }

  /** An occurrence in `t` is still one after text is appended to `t`. */
  lemma ContainsLeft(t: string, u: string, pattern: string)
    requires Contains(t, pattern)
    ensures Contains(t + u, pattern)
  {
    var i :| 0 <= i <= |t| && OccursAt(t, pattern, i);
    assert (t + u)[i..i + |pattern|] == t[i..i + |pattern|];
    assert OccursAt(t + u, pattern, i);
  }

  /** An occurrence in `t` is still one after text is put in front of `t`. */
  lemma ContainsRight(s: string, t: string, pattern: string)
    requires Contains(t, pattern)
    ensures Contains(s + t, pattern)
  {
    var i :| 0 <= i <= |t| && OccursAt(t, pattern, i);
    assert (s + t)[|s| + i..|s| + i + |pattern|] == t[i..i + |pattern|];
    assert OccursAt(s + t, pattern, |s| + i);
  }

  /** A string containing `pattern` is `pattern` with text on either side. */
  lemma ContainsSplit(s: string, pattern: string) returns (a: string, b: string)
    requires Contains(s, pattern)
    ensures s == a + pattern + b
  {
    var i :| 0 <= i <= |s| && OccursAt(s, pattern, i);
    a, b := s[..i], s[i + |pattern|..];
    assert s == s[..i] + s[i..i + |pattern|] + s[i + |pattern|..];
  }

  // ---------------------------------------------------------------------
  // trim: ECMAScript's WhiteSpace and LineTerminator code points

  predicate IsJsWhitespace(c: char)
  {
    c == '\t' || c == '\U{000B}' || c == '\U{000C}' || c == ' ' || c == '\U{00A0}' || c == '\U{FEFF}'
    || c == '\U{1680}' || ('\U{2000}' <= c <= '\U{200A}') || c == '\U{202F}' || c == '\U{205F}'
    || c == '\U{3000}'
    || c == '\n' || c == '\r' || c == '\U{2028}' || c == '\U{2029}'
  }

  predicate AllJsWhitespace(s: string)
  {
    forall i :: 0 <= i < |s| ==> IsJsWhitespace(s[i])
  }

  /** `s` without its leading white space. */
  function TrimStart(s: string): (r: string)
    ensures |r| <= |s| && r == s[|s| - |r|..]
    ensures AllJsWhitespace(s[..|s| - |r|])
    ensures r == [] || !IsJsWhitespace(r[0])
  {
    if s != [] && IsJsWhitespace(s[0]) then TrimStart(s[1..]) else s
  }

  /** `s` without its trailing white space. */
  function TrimEnd(s: string): (r: string)
    ensures |r| <= |s| && r == s[..|r|]
    ensures AllJsWhitespace(s[|r|..])
    ensures r == [] || !IsJsWhitespace(r[|r| - 1])
  {
    if s != [] && IsJsWhitespace(s[|s| - 1]) then TrimEnd(s[..|s| - 1]) else s
  }

  /** `String.prototype.trim`. */
  function Trim(s: string): string
  {
    TrimEnd(TrimStart(s))
  }

  /**
   * What trim keeps: a contiguous part of `s` with only white space cut on
   * either side.
   */
  lemma TrimIsCore(s: string)
    ensures exists i, j :: 0 <= i <= j <= |s| && Trim(s) == s[i..j]
              && AllJsWhitespace(s[..i]) && AllJsWhitespace(s[j..])
  {
    var t := TrimStart(s);
    var i := |s| - |t|;
    var r := TrimEnd(t);
    SuffixPrefix(s, t, r, i);
    CoreWitness(s, i, i + |r|);
  }

  lemma SuffixPrefix(s: string, t: string, r: string, i: nat)
    requires i <= |s| && t == s[i..] && |r| <= |t| && r == t[..|r|]
    ensures r == s[i..i + |r|] && t[|r|..] == s[i + |r|..]
  {
  }

  lemma CoreWitness(s: string, i: nat, j: nat)
    requires i <= j <= |s| && Trim(s) == s[i..j] && AllJsWhitespace(s[..i]) && AllJsWhitespace(s[j..])
    ensures exists i, j :: 0 <= i <= j <= |s| && Trim(s) == s[i..j]
              && AllJsWhitespace(s[..i]) && AllJsWhitespace(s[j..])
  {
  }

  /** A trimmed string neither begins nor ends with white space. */
  lemma TrimEnds(s: string)
    ensures var r := Trim(s); r == [] || (!IsJsWhitespace(r[0]) && !IsJsWhitespace(r[|r| - 1]))
  {
    var t := TrimStart(s);
    var r := TrimEnd(t);
    if r != [] {
      assert t != [] && r[0] == t[0];
    }
  }

  /** A string that neither begins nor ends with white space is its own trim. */
  lemma TrimUnchanged(s: string)
    requires s == [] || (!IsJsWhitespace(s[0]) && !IsJsWhitespace(s[|s| - 1]))
    ensures Trim(s) == s
  {
    assert TrimStart(s) == s;
  }

  /** Trimming a trimmed string changes nothing. */
  lemma TrimIdempotent(s: string)
    ensures Trim(Trim(s)) == Trim(s)
  {
    var r := Trim(s);
    TrimEnds(s);
    assert TrimStart(r) == r;
    assert TrimEnd(r) == r;
  }

  // ---------------------------------------------------------------------
  // substring

  function Clamp(x: int, len: nat): (r: nat)
    ensures r <= len
  {
    if x < 0 then 0 else if x > len then len else x
  }

  /**
   * `String.prototype.substring(start, end)`: both bounds are clamped to the
   * string, and when the start is past the end the two are swapped.
   */
  function JsSubstring(s: string, start: int, end: int): (r: string)
    ensures var a, b := Clamp(start, |s|), Clamp(end, |s|);
            |r| == (if a <= b then b - a else a - b)
            && OccursAt(s, r, if a <= b then a else b)
  {
    var a, b := Clamp(start, |s|), Clamp(end, |s|);
    if a <= b then s[a..b] else s[b..a]
  }

  /** The order of the two bounds does not matter. */
  lemma JsSubstringSymmetric(s: string, x: int, y: int)
    ensures JsSubstring(s, x, y) == JsSubstring(s, y, x)
  {
  }

  /** Bounds in order and inside the string select exactly the characters between them. */
  lemma JsSubstringWithin(s: string, x: int, y: int)
    requires 0 <= x <= y <= |s|
    ensures JsSubstring(s, x, y) == s[x..y]
  {
  }

  // ---------------------------------------------------------------------
  // hexadecimal digits

  predicate IsHexDigit(c: char)
  {
    ('0' <= c <= '9') || ('A' <= c <= 'F') || ('a' <= c <= 'f')
  }

  function HexValue(c: char): (v: int)
    requires IsHexDigit(c)
    ensures 0 <= v < 16
  {
    if '0' <= c <= '9' then c as int - '0' as int
    else if 'A' <= c <= 'F' then c as int - 'A' as int + 10
    else c as int - 'a' as int + 10
  }

  /** The upper-case hexadecimal digit for `n`, as `%XX` escapes write it. */
  function HexDigitUpper(n: int): (c: char)
    requires 0 <= n < 16
    ensures IsHexDigit(c) && HexValue(c) == n
    ensures !('a' <= c <= 'z')
  {
    if n < 10 then ('0' as int + n) as char else ('A' as int + n - 10) as char
  }

  /** The lower-case hexadecimal digit for `n`, as JSON's `\u00XX` escapes write it. */
  function HexDigitLower(n: int): (c: char)
    requires 0 <= n < 16
    ensures IsHexDigit(c) && HexValue(c) == n
  {
    if n < 10 then ('0' as int + n) as char else ('a' as int + n - 10) as char
  }

  // ---------------------------------------------------------------------
  // decimal numbers

  function DecimalDigit(n: int): (c: char)
    requires 0 <= n < 10
    ensures '0' <= c <= '9'
  {
    ('0' as int + n) as char
  }

  /** The decimal rendering of `n`, as a JavaScript template literal shows a number. */
  function NatToString(n: nat): (r: string)
    ensures |r| >= 1 && forall i :: 0 <= i < |r| ==> '0' <= r[i] <= '9'
    decreases n
  {
    if n < 10 then [DecimalDigit(n)] else NatToString(n / 10) + [DecimalDigit(n % 10)]
  }

  /** The number a string of decimal digits denotes. */
  function ParseDecimal(s: string): nat
    requires forall i :: 0 <= i < |s| ==> '0' <= s[i] <= '9'
  {
    if s == [] then 0 else ParseDecimal(s[..|s| - 1]) * 10 + (s[|s| - 1] as int - '0' as int)
  }

  lemma {:induction false} ParseNatToString(n: nat)
    ensures ParseDecimal(NatToString(n)) == n
    decreases n
  {
    var s := NatToString(n);
    if n >= 10 {
      assert s[..|s| - 1] == NatToString(n / 10);
      ParseNatToString(n / 10);
    } else {
      assert s[..|s| - 1] == [];
    }
  }

  /** Different numbers are rendered differently. */
  lemma NatToStringInjective(a: nat, b: nat)
    requires NatToString(a) == NatToString(b)
    ensures a == b
  {
    ParseNatToString(a);
    ParseNatToString(b);
  }
}
