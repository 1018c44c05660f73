/**
 * The browser's percent-encoding functions on strings of scalar values:
 * `encodeURIComponent` and `decodeURIComponent` (percent-encoding of
 * UTF-8 octets, section 2.1 of RFC 3986, as ECMAScript applies it) and the
 * legacy `escape` and `unescape`, which work on single code units.
 */
module UriCoding {
  import opened Wrappers
  import opened Bytes
  import opened Text
  import Utf8

  /** `o` with `t` put in front of its string; `None` stays `None`. */
  function PrependAll(t: string, o: Option<string>): (r: Option<string>)
    ensures r.Some? <==> o.Some?
    ensures r.Some? ==> r.value == t + o.value
  {
    match o
    case None => None
    case Some(u) => Some(t + u)
  }

  // ---------------------------------------------------------------------
  // encodeURIComponent / decodeURIComponent

  /** The characters `encodeURIComponent` leaves alone: letters, digits and - _ . ! ~ * ' ( ). */
  predicate IsComponentSafe(c: char)
  {
    ('A' <= c <= 'Z') || ('a' <= c <= 'z') || ('0' <= c <= '9')
    || c == '-' || c == '_' || c == '.' || c == '!' || c == '~' || c == '*' || c == '\'' || c == '(' || c == ')'
  }

  predicate IsUpperHexDigit(c: char)
  {
    ('0' <= c <= '9') || ('A' <= c <= 'F')
  }

  /** The triplet "%XX" for one octet, upper-case hexadecimal. */
  function PercentOctet(b: Byte): (r: string)
    ensures |r| == 3 && r[0] == '%' && IsUpperHexDigit(r[1]) && IsUpperHexDigit(r[2])
  {
    ['%', HexDigitUpper(b / 16), HexDigitUpper(b % 16)]
  }

  function PercentOctets(bs: seq<Byte>): (r: string)
    ensures |r| == 3 * |bs|
  {
    if bs == [] then [] else PercentOctet(bs[0]) + PercentOctets(bs[1..])
  }

  function EncodeComponentChar(c: char): string
  {
    if IsComponentSafe(c) then [c] else PercentOctets(Utf8.EncodeChar(c))
  }

  /** `encodeURIComponent` (it throws only on lone surrogates, which strings of scalar values do not hold). */
  function EncodeUriComponent(s: string): string
  {
    if s == [] then [] else EncodeComponentChar(s[0]) + EncodeUriComponent(s[1..])
  }

  /** The octet spelled by a "%XX" at the front of `s`. */
  function ReadOctet(s: string): Option<Byte>
  {
    if |s| >= 3 && s[0] == '%' && IsHexDigit(s[1]) && IsHexDigit(s[2])
    then Some(HexValue(s[1]) * 16 + HexValue(s[2]))
    else None
  }

  /** The `n` octets spelled by `n` triplets at the front of `s`. */
  function ReadOctets(s: string, n: nat): (r: Option<seq<Byte>>)
    ensures r.Some? ==> |r.value| == n && 3 * n <= |s|
  {
    if n == 0 then Some([])
    else match ReadOctet(s)
      case None => None
      case Some(b) =>
        match ReadOctets(s[3..], n - 1)
        case None => None
        case Some(bs) => Some([b] + bs)
  }

  /**
   * The character spelled by the escape sequence at the front of `s` and the
   * length of that sequence: one triplet for an ASCII octet, or as many
   * triplets as the lead octet announces, which must together be one
   * well-formed UTF-8 character.
   */
  function DecodeEscape(s: string): (r: Option<(char, nat)>)
    ensures r.Some? ==> 3 <= r.value.1 <= |s|
  {
    match ReadOctet(s)
    case None => None
    case Some(b0) =>
      var n := Utf8.SequenceLength(b0);
      if n == 0 then None
      else if n == 1 then Some((b0 as char, 3))
      else match ReadOctets(s[3..], n - 1)
        case None => None
        case Some(more) =>
          match Utf8.DecodeChar([b0] + more)
          case None => None
          case Some((c, k)) => if k == n then Some((c, 3 * n)) else None
  }

  /** `decodeURIComponent`; `None` where it throws URIError. */
  function DecodeUriComponent(s: string): Option<string>
    decreases |s|
  {
    if s == [] then Some([])
    else if s[0] != '%' then PrependAll([s[0]], DecodeUriComponent(s[1..]))
    else match DecodeEscape(s)
      case None => None
      case Some((c, k)) => PrependAll([c], DecodeUriComponent(s[k..]))
  }

  // ---------------------------------------------------------------------
  // escape / unescape

  /** The characters `escape` leaves alone: letters, digits and @ * _ + - . / */
  predicate IsEscapeSafe(c: char)
  {
    ('A' <= c <= 'Z') || ('a' <= c <= 'z') || ('0' <= c <= '9')
    || c == '@' || c == '*' || c == '_' || c == '+' || c == '-' || c == '.' || c == '/'
  }

  /** The escape of one UTF-16 code unit: "%XX" below 256, "%uXXXX" otherwise. */
  function EscapeUnit(u: int): string
    requires 0 <= u < 0x10000
  {
    if u < 256 then PercentOctet(u)
    else ['%', 'u', HexDigitUpper(u / 4096), HexDigitUpper((u / 256) % 16),
          HexDigitUpper((u / 16) % 16), HexDigitUpper(u % 16)]
  }

  function EscapeChar(c: char): string
  {
    var n := c as int;
    if IsEscapeSafe(c) then [c]
    else if n < 0x10000 then EscapeUnit(n)
    else EscapeUnit(0xD800 + (n - 0x10000) / 1024) + EscapeUnit(0xDC00 + (n - 0x10000) % 1024)
  }

  /** `escape`; an astral character is escaped as its two UTF-16 code units. */
  function Escape(s: string): string
  {
    if s == [] then [] else EscapeChar(s[0]) + Escape(s[1..])
  }

  predicate IsHighSurrogate(u: int) { 0xD800 <= u < 0xDC00 }
  predicate IsLowSurrogate(u: int) { 0xDC00 <= u < 0xE000 }

  /** The code unit spelled by "%uXXXX" or "%XX" at the front of `s`, and the length of the escape. */
  function UnescapeUnit(s: string): (r: Option<(int, nat)>)
    ensures r.Some? ==> 0 <= r.value.0 < 0x10000 && 3 <= r.value.1 <= |s|
  {
    if |s| >= 6 && s[0] == '%' && s[1] == 'u'
       && IsHexDigit(s[2]) && IsHexDigit(s[3]) && IsHexDigit(s[4]) && IsHexDigit(s[5])
    then Some((((HexValue(s[2]) * 16 + HexValue(s[3])) * 16 + HexValue(s[4])) * 16 + HexValue(s[5]), 6))
    else if |s| >= 3 && s[0] == '%' && IsHexDigit(s[1]) && IsHexDigit(s[2])
    then Some((HexValue(s[1]) * 16 + HexValue(s[2]), 3))
    else None
  }

  /**
   * `unescape`. A surrogate pair spelled as two "%u" escapes becomes the one
   * character it stands for; a lone surrogate is a string this model's
   * strings cannot hold, and is reported as `None`.
   */
  function Unescape(s: string): Option<string>
    decreases |s|
  {
    if s == [] then Some([])
    else match UnescapeUnit(s)
      case None => PrependAll([s[0]], Unescape(s[1..]))
      case Some((u, k)) =>
        if !(0xD800 <= u < 0xE000) then PrependAll([u as char], Unescape(s[k..]))
        else if IsHighSurrogate(u) then
          match UnescapeUnit(s[k..])
          case None => None
          case Some((v, k2)) =>
            if IsLowSurrogate(v)
            then PrependAll([(0x10000 + (u - 0xD800) * 1024 + (v - 0xDC00)) as char], Unescape(s[k + k2..]))
            else None
        else None
  }

  // ---------------------------------------------------------------------
  // properties

  /** A string made of component-safe characters and "%XX" triplets only. */
  predicate IsComponentEncoded(s: string)
    decreases |s|
  {
    s == []
    || (IsComponentSafe(s[0]) && IsComponentEncoded(s[1..]))
    || (|s| >= 3 && s[0] == '%' && IsUpperHexDigit(s[1]) && IsUpperHexDigit(s[2]) && IsComponentEncoded(s[3..]))
  }

  lemma {:induction false} ComponentEncodedAppend(s: string, t: string)
    requires IsComponentEncoded(s) && IsComponentEncoded(t)
    ensures IsComponentEncoded(s + t)
    decreases |s|
  {
    if s != [] {
      assert (s + t)[0] == s[0];
      if IsComponentSafe(s[0]) && IsComponentEncoded(s[1..]) {
        ComponentEncodedAppend(s[1..], t);
        assert (s + t)[1..] == s[1..] + t;
      } else {
        ComponentEncodedAppend(s[3..], t);
        var u := s + t;
        assert u[1] == s[1] && u[2] == s[2];
        assert u[3..] == s[3..] + t;
        assert |u| >= 3 && u[0] == '%' && IsUpperHexDigit(u[1]) && IsUpperHexDigit(u[2]) && IsComponentEncoded(u[3..]);
      }
    } else {
      assert s + t == t;
    }
  }

  lemma {:induction false} PercentOctetsEncoded(bs: seq<Byte>)
    ensures IsComponentEncoded(PercentOctets(bs))
  {
    if bs != [] {
      var p := PercentOctets(bs);
      PercentOctetsEncoded(bs[1..]);
      assert p[3..] == PercentOctets(bs[1..]);
    }
  }

  /** `encodeURIComponent` emits only the safe characters and "%XX" triplets. */
  lemma {:induction false} EncodeUriComponentAlphabet(s: string)
    ensures IsComponentEncoded(EncodeUriComponent(s))
  {
    if s != [] {
      var c := s[0];
      if IsComponentSafe(c) {
        assert [c][1..] == [];
      } else {
        PercentOctetsEncoded(Utf8.EncodeChar(c));
      }
      EncodeUriComponentAlphabet(s[1..]);
      ComponentEncodedAppend(EncodeComponentChar(c), EncodeUriComponent(s[1..]));
    }
  }

  lemma {:induction false} ReadPercentOctets(bs: seq<Byte>, rest: string)
    ensures ReadOctets(PercentOctets(bs) + rest, |bs|) == Some(bs)
  {
    if bs != [] {
      var p := PercentOctets(bs) + rest;
      assert p[..3] == PercentOctet(bs[0]);
      assert ReadOctet(p) == Some(bs[0]);
      assert p[3..] == PercentOctets(bs[1..]) + rest;
      ReadPercentOctets(bs[1..], rest);
      assert [bs[0]] + bs[1..] == bs;
    }
  }

  /** The triplets of one character's UTF-8 octets decode to that character. */
  lemma DecodePercentChar(c: char, rest: string)
    ensures var e := Utf8.EncodeChar(c);
            DecodeEscape(PercentOctets(e) + rest) == Some((c, 3 * |e|))
  {
    var e := Utf8.EncodeChar(c);
    var p := PercentOctets(e) + rest;
    assert p[..3] == PercentOctet(e[0]);
    assert ReadOctet(p) == Some(e[0]);
    Utf8.EncodeCharLead(c);
    if |e| > 1 {
      assert p[3..] == PercentOctets(e[1..]) + rest;
      ReadPercentOctets(e[1..], rest);
      assert [e[0]] + e[1..] == e + [];
      Utf8.DecodeEncodeChar(c, []);
    }
  }

  /** Where an escape sequence is followed by more text, decoding carries on after it. */
  lemma DecodeAfterEscape(c: char, rest: string)
    ensures DecodeUriComponent(PercentOctets(Utf8.EncodeChar(c)) + rest)
            == PrependAll([c], DecodeUriComponent(rest))
  {
    var e := Utf8.EncodeChar(c);
    var p := PercentOctets(e) + rest;
    DecodePercentChar(c, rest);
    assert p[0] == '%';
    assert p[3 * |e|..] == rest;
  }

  /** `decodeURIComponent` inverts `encodeURIComponent` exactly. */
  lemma {:induction false} DecodeEncodeUriComponent(s: string)
    ensures DecodeUriComponent(EncodeUriComponent(s)) == Some(s)
  {
    if s != [] {
      var c := s[0];
      var rest := EncodeUriComponent(s[1..]);
      DecodeEncodeUriComponent(s[1..]);
      if IsComponentSafe(c) {
        assert ([c] + rest)[1..] == rest;
      } else {
        DecodeAfterEscape(c, rest);
      }
      assert [c] + s[1..] == s;
    }
  }

  lemma {:induction false} UnescapePercentOctets(bs: seq<Byte>, rest: string)
    ensures Unescape(PercentOctets(bs) + rest) == PrependAll(ToBinaryString(bs), Unescape(rest))
  {
    if bs != [] {
      var p := PercentOctets(bs) + rest;
      assert p[..3] == PercentOctet(bs[0]);
      assert p[1] != 'u';
      assert UnescapeUnit(p) == Some((bs[0] as int, 3));
      assert p[3..] == PercentOctets(bs[1..]) + rest;
      UnescapePercentOctets(bs[1..], rest);
      assert Unescape(p) == PrependAll([bs[0] as char], Unescape(p[3..]));
      assert ToBinaryString(bs) == [bs[0] as char] + ToBinaryString(bs[1..]);
      if Unescape(rest).Some? {
        assert [bs[0] as char] + (ToBinaryString(bs[1..]) + Unescape(rest).value)
            == ToBinaryString(bs) + Unescape(rest).value;
      }
    } else {
      assert PercentOctets(bs) + rest == rest;
      if Unescape(rest).Some? {
        assert ToBinaryString(bs) + Unescape(rest).value == Unescape(rest).value;
      }
    }
  }

  /** `unescape(encodeURIComponent(s))` is the binary string of the UTF-8 octets of `s`, one character per octet. */
  lemma {:induction false} UnescapeEncodeUriComponent(s: string)
    ensures Unescape(EncodeUriComponent(s)) == Some(ToBinaryString(Utf8.Encode(s)))
  {
    if s != [] {
      var c := s[0];
      var rest := EncodeUriComponent(s[1..]);
      UnescapeEncodeUriComponent(s[1..]);
      ToBinaryStringAppend(Utf8.EncodeChar(c), Utf8.Encode(s[1..]));
      if IsComponentSafe(c) {
        var p := [c] + rest;
        assert UnescapeUnit(p) == None;
        assert p[1..] == rest;
        assert ToBinaryString(Utf8.EncodeChar(c)) == [c];
      } else {
        UnescapePercentOctets(Utf8.EncodeChar(c), rest);
      }
    }
  }

  lemma {:induction false} EscapeAppend(s: string, t: string)
    ensures Escape(s + t) == Escape(s) + Escape(t)
  {
    if s == [] {
      assert s + t == t;
    } else {
      assert (s + t)[0] == s[0] && (s + t)[1..] == s[1..] + t;
      EscapeAppend(s[1..], t);
    }
  }

  /** Octets at or above 0x80 are all escaped as "%XX". */
  lemma {:induction false} EscapeHighOctets(bs: seq<Byte>)
    requires forall i :: 0 <= i < |bs| ==> bs[i] >= 0x80
    ensures Escape(ToBinaryString(bs)) == PercentOctets(bs)
  {
    if bs != [] {
      var t := ToBinaryString(bs);
      assert t[1..] == ToBinaryString(bs[1..]);
      EscapeHighOctets(bs[1..]);
    }
  }

  /** `decodeURIComponent(escape(b))` on the binary string of UTF-8 octets gives back the encoded string. */
  lemma {:induction false} DecodeEscapeBinary(s: string)
    ensures DecodeUriComponent(Escape(ToBinaryString(Utf8.Encode(s)))) == Some(s)
  {
    if s != [] {
      var c := s[0];
      var e := Utf8.EncodeChar(c);
      var tail := Escape(ToBinaryString(Utf8.Encode(s[1..])));
      ToBinaryStringAppend(e, Utf8.Encode(s[1..]));
      EscapeAppend(ToBinaryString(e), ToBinaryString(Utf8.Encode(s[1..])));
      DecodeEscapeBinary(s[1..]);
      if c as int < 0x80 {
        assert ToBinaryString(e) == [c];
        assert Escape([c]) == EscapeChar(c);
        if IsEscapeSafe(c) {
          assert ([c] + tail)[1..] == tail;
        } else {
          assert EscapeChar(c) == PercentOctets(e);
          DecodeAfterEscape(c, tail);
        }
      } else {
        EscapeHighOctets(e);
        DecodeAfterEscape(c, tail);
      }
      assert [c] + s[1..] == s;
    }
  }
}
