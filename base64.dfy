/**
 * Base 64 (section 4 of RFC 4648), as the browser's `btoa` and `atob`
 * apply it to binary strings. `atob` is the "forgiving-base64 decode" of
 * the WHATWG Infra standard: it drops ASCII white space, accepts a missing
 * padding and ignores the unused low bits of the last digit.
 */
module Base64 {
  import opened Wrappers
  import opened Bytes

  /** A character of the standard alphabet (table 1 of RFC 4648); '=' is not one. */
  predicate IsDigit(c: char)
  {
    ('A' <= c <= 'Z') || ('a' <= c <= 'z') || ('0' <= c <= '9') || c == '+' || c == '/'
  }

  function DigitValue(c: char): (v: int)
    requires IsDigit(c)
    ensures 0 <= v < 64
  {
    if 'A' <= c <= 'Z' then c as int - 'A' as int
    else if 'a' <= c <= 'z' then c as int - 'a' as int + 26
    else if '0' <= c <= '9' then c as int - '0' as int + 52
    else if c == '+' then 62
    else 63
  }

  function Digit(v: int): (c: char)
    requires 0 <= v < 64
    ensures IsDigit(c) && DigitValue(c) == v
  {
    if v < 26 then ('A' as int + v) as char
    else if v < 52 then ('a' as int + v - 26) as char
    else if v < 62 then ('0' as int + v - 52) as char
    else if v == 62 then '+'
    else '/'
  }

  predicate AllDigits(s: string)
  {
    forall i :: 0 <= i < |s| ==> IsDigit(s[i])
  }

  /** The digits for `b`, three octets to four digits, a short last group giving two or three. */
  function EncodeDigits(b: seq<Byte>): (r: string)
    ensures AllDigits(r)
    decreases |b|
  {
    if |b| == 0 then []
    else if |b| == 1 then [Digit(b[0] / 4), Digit((b[0] % 4) * 16)]
    else if |b| == 2 then [Digit(b[0] / 4), Digit((b[0] % 4) * 16 + b[1] / 16), Digit((b[1] % 16) * 4)]
    else Group(b[0], b[1], b[2]) + EncodeDigits(b[3..])
  }

  /** The four digits of a full group of three octets. */
  function Group(b0: Byte, b1: Byte, b2: Byte): (r: string)
    ensures |r| == 4 && AllDigits(r)
  {
    [Digit(b0 / 4), Digit((b0 % 4) * 16 + b1 / 16), Digit((b1 % 16) * 4 + b2 / 64), Digit(b2 % 64)]
  }

  /** The '=' characters that fill the last group of four. */
  function Padding(n: nat): string
  {
    if n % 3 == 1 then "==" else if n % 3 == 2 then "=" else ""
  }

  /** The base 64 encoding of `b`, with padding. */
  function Encode(b: seq<Byte>): string
  {
    EncodeDigits(b) + Padding(|b|)
  }

  /** The octets that a run of digits stands for; the unused low bits of a short last group are dropped. */
  function DecodeDigits(d: string): (b: seq<Byte>)
    requires AllDigits(d) && |d| % 4 != 1
    decreases |d|
  {
    if |d| == 0 then []
    else if |d| == 2 then
      [DigitValue(d[0]) * 4 + DigitValue(d[1]) / 16]
    else if |d| == 3 then
      [DigitValue(d[0]) * 4 + DigitValue(d[1]) / 16, (DigitValue(d[1]) % 16) * 16 + DigitValue(d[2]) / 4]
    else
      [DigitValue(d[0]) * 4 + DigitValue(d[1]) / 16, (DigitValue(d[1]) % 16) * 16 + DigitValue(d[2]) / 4,
       (DigitValue(d[2]) % 4) * 64 + DigitValue(d[3])]
      + DecodeDigits(d[4..])
  }

  /** `btoa`: fails (InvalidCharacterError) when a character is above U+00FF. */
  function Btoa(s: string): (r: Option<string>)
    ensures r.Some? <==> IsBinaryString(s)
  {
    if IsBinaryString(s) then Some(Encode(FromBinaryString(s))) else None
  }

  /** ASCII white space in the sense of the WHATWG Infra standard. */
  predicate IsAsciiWhitespace(c: char)
  {
    c == '\t' || c == '\n' || c == '\U{000C}' || c == '\r' || c == ' '
  }

  function RemoveAsciiWhitespace(s: string): (r: string)
    ensures forall i :: 0 <= i < |r| ==> !IsAsciiWhitespace(r[i])
    ensures |r| <= |s|
  {
    if s == [] then []
    else if IsAsciiWhitespace(s[0]) then RemoveAsciiWhitespace(s[1..])
    else [s[0]] + RemoveAsciiWhitespace(s[1..])
  }

  /** Drops one or two trailing '=' characters. */
  function StripPadding(s: string): string
  {
    if |s| >= 2 && s[|s| - 2..] == "==" then s[..|s| - 2]
    else if |s| >= 1 && s[|s| - 1] == '=' then s[..|s| - 1]
    else s
  }

  /** `atob`: the binary string a base 64 text stands for, or `None` when it throws (InvalidCharacterError). */
  function Atob(s: string): Option<string>
  {
    var d0 := RemoveAsciiWhitespace(s);
    var d := if |d0| % 4 == 0 then StripPadding(d0) else d0;
    if |d| % 4 == 1 || !AllDigits(d) then None
    else Some(ToBinaryString(DecodeDigits(d)))
  }

  // ---------------------------------------------------------------------
  // properties

  /** Full groups give four digits each, a last group of one or two octets two or three digits. */
  lemma {:induction false} EncodeDigitsLength(b: seq<Byte>)
    ensures |EncodeDigits(b)| == 4 * (|b| / 3) + (if |b| % 3 == 0 then 0 else |b| % 3 + 1)
    decreases |b|
  {
    if |b| >= 3 {
      EncodeDigitsLength(b[3..]);
    }
  }

  /** The encoding has length 4 * ceil(n / 3). */
  lemma EncodeLength(b: seq<Byte>)
    ensures |Encode(b)| == 4 * ((|b| + 2) / 3)
  {
    EncodeDigitsLength(b);
    var n := |b|;
    var q := n / 3;
    assert n == 3 * q + n % 3;
    if n % 3 == 0 {
      assert (n + 2) / 3 == q;
    } else {
      assert (n + 2) / 3 == q + 1;
    }
  }

  /** The encoding uses the standard alphabet, and '=' only as the padding at its end. */
  lemma EncodeAlphabet(b: seq<Byte>)
    ensures var e := Encode(b);
            forall i :: 0 <= i < |e| ==> IsDigit(e[i]) || (e[i] == '=' && i >= |e| - 2)
  {
    EncodeDigitsLength(b);
  }

  /** Both facts about the shape of an encoding together. */
  lemma EncodeShape(b: seq<Byte>)
    ensures var e := Encode(b);
            |e| == 4 * ((|b| + 2) / 3)
            && forall i :: 0 <= i < |e| ==> IsDigit(e[i]) || (e[i] == '=' && i >= |e| - 2)
  {
    EncodeLength(b);
    EncodeAlphabet(b);
  }

  lemma GroupRoundTrip(b0: Byte, b1: Byte, b2: Byte)
    ensures var v0, v1, v2, v3 := b0 / 4, (b0 % 4) * 16 + b1 / 16, (b1 % 16) * 4 + b2 / 64, b2 % 64;
            v0 * 4 + v1 / 16 == b0 && (v1 % 16) * 16 + v2 / 4 == b1 && (v2 % 4) * 64 + v3 == b2
  {
    var v1, v2 := (b0 % 4) * 16 + b1 / 16, (b1 % 16) * 4 + b2 / 64;
    assert v1 / 16 == b0 % 4 && v1 % 16 == b1 / 16;
    assert v2 / 4 == b1 % 16 && v2 % 4 == b2 / 64;
  }

  /** A full group of four digits decodes on its own. */
  lemma DecodeDigitsGroup(g: string, rest: string)
    requires |g| == 4 && AllDigits(g) && AllDigits(rest) && |rest| % 4 != 1
    ensures AllDigits(g + rest) && |g + rest| % 4 != 1
    ensures DecodeDigits(g + rest) == DecodeDigits(g) + DecodeDigits(rest)
  {
    var d := g + rest;
    assert d[..4] == g && d[4..] == rest;
    assert g[4..] == [];
  }

  lemma DecodeGroup(b0: Byte, b1: Byte, b2: Byte)
    ensures DecodeDigits(Group(b0, b1, b2)) == [b0, b1, b2]
  {
    var g := Group(b0, b1, b2);
    assert DigitValue(g[0]) == b0 / 4 && DigitValue(g[1]) == (b0 % 4) * 16 + b1 / 16;
    assert DigitValue(g[2]) == (b1 % 16) * 4 + b2 / 64 && DigitValue(g[3]) == b2 % 64;
    GroupRoundTrip(b0, b1, b2);
    assert g[4..] == [];
  }

  lemma DecodeShortGroups(b: seq<Byte>)
    requires 1 <= |b| <= 2
    ensures |EncodeDigits(b)| % 4 != 1
    ensures DecodeDigits(EncodeDigits(b)) == b
  {
    var d := EncodeDigits(b);
    if |b| == 1 {
      assert DigitValue(d[0]) == b[0] / 4 && DigitValue(d[1]) == (b[0] % 4) * 16;
      GroupRoundTrip(b[0], 0, 0);
    } else {
      assert DigitValue(d[0]) == b[0] / 4 && DigitValue(d[1]) == (b[0] % 4) * 16 + b[1] / 16;
      assert DigitValue(d[2]) == (b[1] % 16) * 4;
      GroupRoundTrip(b[0], b[1], 0);
    }
  }

  lemma {:induction false} DecodeEncodeDigits(b: seq<Byte>)
    ensures |EncodeDigits(b)| % 4 != 1
    ensures DecodeDigits(EncodeDigits(b)) == b
    decreases |b|
  {
    if 1 <= |b| <= 2 {
      DecodeShortGroups(b);
    } else if |b| >= 3 {
      var g := Group(b[0], b[1], b[2]);
      var rest := EncodeDigits(b[3..]);
      assert EncodeDigits(b) == g + rest;
      DecodeGroup(b[0], b[1], b[2]);
      DecodeEncodeDigits(b[3..]);
      DecodeDigitsGroup(g, rest);
      assert b == [b[0], b[1], b[2]] + b[3..];
    }
  }

  lemma NoWhitespaceKept(s: string)
    requires forall i :: 0 <= i < |s| ==> !IsAsciiWhitespace(s[i])
    ensures RemoveAsciiWhitespace(s) == s
  {
    if s != [] {
      NoWhitespaceKept(s[1..]);
      assert [s[0]] + s[1..] == s;
    }
  }

  /** Dropping the padding of an encoding leaves exactly its digits. */
  lemma StripEncodedPadding(b: seq<Byte>)
    ensures StripPadding(Encode(b)) == EncodeDigits(b)
  {
    var d := EncodeDigits(b);
    var e := Encode(b);
    EncodeDigitsLength(b);
    if |b| % 3 == 1 {
      assert e[|e| - 2..] == "==" && e[..|e| - 2] == d;
    } else if |b| % 3 == 2 {
      assert e[|e| - 2] == d[|d| - 1];
      assert e[|e| - 2..] != "==";
      assert e[..|e| - 1] == d;
    } else {
      assert e == d;
      if |d| >= 1 { assert IsDigit(d[|d| - 1]); }
    }
  }

  /** `atob` decodes any encoding produced by `Encode`. */
  lemma AtobEncode(b: seq<Byte>)
    ensures Atob(Encode(b)) == Some(ToBinaryString(b))
  {
    var e := Encode(b);
    EncodeAlphabet(b);
    EncodeLength(b);
    assert forall i :: 0 <= i < |e| ==> !IsAsciiWhitespace(e[i]);
    NoWhitespaceKept(e);
    assert RemoveAsciiWhitespace(e) == e && |e| % 4 == 0;
    StripEncodedPadding(b);
    var d := EncodeDigits(b);
    DecodeEncodeDigits(b);
    assert AllDigits(d) && |d| % 4 != 1;
  }

  /** `atob` undoes `btoa` on every binary string. */
  lemma AtobBtoa(s: string)
    requires IsBinaryString(s)
    ensures Btoa(s).Some? && Atob(Btoa(s).value) == Some(s)
  {
    AtobEncode(FromBinaryString(s));
    BinaryStringRoundTrip'(s);
  }
}
