/**
 * UTF-8 (section 3 of RFC 3629) over sequences of Unicode scalar values.
 * A Dafny `char` is a scalar value: 0..0x10FFFF without the surrogates.
 */
module Utf8 {
  import opened Wrappers
  import opened Bytes

  /** A continuation octet, 10xxxxxx. */
  predicate IsContinuation(b: Byte) { 0x80 <= b < 0xC0 }

  /** The one to four octets that encode `c`. */
  function EncodeChar(c: char): (r: seq<Byte>)
    ensures 1 <= |r| <= 4
    ensures |r| == 1 <==> c as int < 0x80
    ensures |r| == 1 ==> r[0] == c as int
    ensures |r| > 1 ==> forall i :: 0 <= i < |r| ==> r[i] >= 0x80
  {
    var n := c as int;
    if n < 0x80 then [n]
    else if n < 0x800 then [0xC0 + n / 64, 0x80 + n % 64]
    else if n < 0x10000 then [0xE0 + n / 4096, 0x80 + (n / 64) % 64, 0x80 + n % 64]
    else [0xF0 + n / 262144, 0x80 + (n / 4096) % 64, 0x80 + (n / 64) % 64, 0x80 + n % 64]
  }

  /** The UTF-8 octets of a whole string. */
  function Encode(s: string): seq<Byte>
  {
    if s == [] then [] else EncodeChar(s[0]) + Encode(s[1..])
  }

  /**
   * Decodes the character at the front of `b` and says how many octets it
   * used, following the well-formed sequences of section 4 of RFC 3629:
   * no overlong forms, no surrogates, nothing above U+10FFFF.
   */
  function DecodeChar(b: seq<Byte>): (r: Option<(char, nat)>)
    ensures r.Some? ==> 1 <= r.value.1 <= 4 && r.value.1 <= |b|
  {
    if |b| == 0 then None
    else
      var b0: int := b[0];
      if b0 < 0x80 then Some((b0 as char, 1))
      else if 0xC2 <= b0 < 0xE0 then
        if |b| >= 2 && IsContinuation(b[1])
        then Some((((b0 - 0xC0) * 64 + (b[1] as int - 0x80)) as char, 2))
        else None
      else if 0xE0 <= b0 < 0xF0 then
        var lo := if b0 == 0xE0 then 0xA0 else 0x80;
        var hi := if b0 == 0xED then 0xA0 else 0xC0;
        if |b| >= 3 && lo <= b[1] < hi && IsContinuation(b[2])
        then Some((((b0 - 0xE0) * 4096 + (b[1] as int - 0x80) * 64 + (b[2] as int - 0x80)) as char, 3))
        else None
      else if 0xF0 <= b0 < 0xF5 then
        var lo := if b0 == 0xF0 then 0x90 else 0x80;
        var hi := if b0 == 0xF4 then 0x90 else 0xC0;
        if |b| >= 4 && lo <= b[1] < hi && IsContinuation(b[2]) && IsContinuation(b[3])
        then Some((((b0 - 0xF0) * 262144 + (b[1] as int - 0x80) * 4096
                    + (b[2] as int - 0x80) * 64 + (b[3] as int - 0x80)) as char, 4))
        else None
      else None
  }

  /** Decodes a whole octet sequence; `None` when it is not well-formed UTF-8. */
  function Decode(b: seq<Byte>): Option<string>
    decreases |b|
  {
    if |b| == 0 then Some([])
    else match DecodeChar(b)
      case None => None
      case Some((c, n)) =>
        match Decode(b[n..])
        case None => None
        case Some(s) => Some([c] + s)
  }

  /** The number of octets a sequence starting with `lead` has, by its leading one bits (0 when none). */
  function SequenceLength(lead: Byte): nat
  {
    if lead < 0x80 then 1
    else if lead < 0xC0 then 0
    else if lead < 0xE0 then 2
    else if lead < 0xF0 then 3
    else if lead < 0xF8 then 4
    else 0
  }

  lemma {:induction false} EncodeAppend(s: string, t: string)
    ensures Encode(s + t) == Encode(s) + Encode(t)
  {
    if s == [] {
      assert s + t == t;
    } else {
      assert (s + t)[0] == s[0] && (s + t)[1..] == s[1..] + t;
      EncodeAppend(s[1..], t);
      calc {
        Encode(s + t);
        EncodeChar(s[0]) + Encode(s[1..] + t);
        EncodeChar(s[0]) + (Encode(s[1..]) + Encode(t));
        (EncodeChar(s[0]) + Encode(s[1..])) + Encode(t);
      }
    }
  }

  /** The leading octet of an encoded character announces the encoding's length. */
  lemma EncodeCharLead(c: char)
    ensures SequenceLength(EncodeChar(c)[0]) == |EncodeChar(c)|
  {
  }

  /** Decoding the octets of one character gives back that character and consumes exactly them. */
  lemma DecodeEncodeChar(c: char, rest: seq<Byte>)
    ensures DecodeChar(EncodeChar(c) + rest) == Some((c, |EncodeChar(c)|))
  {
    var n := c as int;
    if n < 0x80 {
    } else if n < 0x800 {
      DecodeTwo(n, n / 64, n % 64, EncodeChar(c) + rest);
    } else if n < 0x10000 {
      DecodeThree(n, n / 4096, (n / 64) % 64, n % 64, EncodeChar(c) + rest);
    } else {
      DecodeFour(n, n / 262144, (n / 4096) % 64, (n / 64) % 64, n % 64, EncodeChar(c) + rest);
    }
  }

  lemma DecodeTwo(n: int, x: int, y: int, b: seq<Byte>)
    requires 0x80 <= n < 0x800 && x == n / 64 && y == n % 64
    requires |b| >= 2 && b[0] == 0xC0 + x && b[1] == 0x80 + y
    ensures DecodeChar(b) == Some((n as char, 2))
  {
    assert x * 64 + y == n;
  }

  lemma DecodeThree(n: int, x: int, y: int, z: int, b: seq<Byte>)
    requires 0x800 <= n < 0x10000 && !(0xD800 <= n < 0xE000)
    requires x == n / 4096 && y == (n / 64) % 64 && z == n % 64
    requires |b| >= 3 && b[0] == 0xE0 + x && b[1] == 0x80 + y && b[2] == 0x80 + z
    ensures DecodeChar(b) == Some((n as char, 3))
  {
    assert x * 4096 + y * 64 + z == n;
  }

  lemma DecodeFour(n: int, w: int, x: int, y: int, z: int, b: seq<Byte>)
    requires 0x10000 <= n <= 0x10FFFF
    requires w == n / 262144 && x == (n / 4096) % 64 && y == (n / 64) % 64 && z == n % 64
    requires |b| >= 4 && b[0] == 0xF0 + w && b[1] == 0x80 + x && b[2] == 0x80 + y && b[3] == 0x80 + z
    ensures DecodeChar(b) == Some((n as char, 4))
  {
    FourDigits(n);
  }

  /** The four base-64 digits of a supplementary code point, and the bounds on the second that RFC 3629 demands. */
  lemma FourDigits(n: int)
    requires 0x10000 <= n <= 0x10FFFF
    ensures n / 262144 * 262144 + (n / 4096) % 64 * 4096 + (n / 64) % 64 * 64 + n % 64 == n
    ensures n / 262144 <= 4
    ensures n / 262144 == 0 ==> (n / 4096) % 64 >= 0x10
    ensures n / 262144 == 4 ==> (n / 4096) % 64 < 0x10
  {
    var a := n / 64;
    assert n == a * 64 + n % 64;
    var b := a / 64;
    assert a == b * 64 + a % 64;
    assert n == b * 4096 + (a % 64) * 64 + n % 64;
    assert n / 4096 == b;
    assert (n / 64) % 64 == a % 64;
    var w := b / 64;
    assert b == w * 64 + b % 64;
    assert n == w * 262144 + (b % 64) * 4096 + (a % 64) * 64 + n % 64;
    assert n / 262144 == w;
  }

  /** Whatever `DecodeChar` accepts is the encoding of the character it returns. */
  lemma EncodeDecodedChar(b: seq<Byte>)
    requires DecodeChar(b).Some?
    ensures EncodeChar(DecodeChar(b).value.0) == b[..DecodeChar(b).value.1]
  {
    var b0: int := b[0];
    if b0 < 0x80 {
    } else if b0 < 0xE0 {
      EncodeTwo(b0 - 0xC0, b[1] as int - 0x80);
    } else if b0 < 0xF0 {
      EncodeThree(b0 - 0xE0, b[1] as int - 0x80, b[2] as int - 0x80);
    } else {
      EncodeFour(b0 - 0xF0, b[1] as int - 0x80, b[2] as int - 0x80, b[3] as int - 0x80);
    }
  }

  lemma EncodeTwo(x: int, y: int)
    requires 2 <= x < 32 && 0 <= y < 64
    ensures EncodeChar((x * 64 + y) as char) == [0xC0 + x, 0x80 + y]
  {
    var n := x * 64 + y;
    assert n / 64 == x && n % 64 == y;
  }

  lemma EncodeThree(x: int, y: int, z: int)
    requires 0 <= x < 16 && 0 <= y < 64 && 0 <= z < 64
    requires x == 0 ==> y >= 0x20
    requires x == 0xD ==> y < 0x20
    ensures EncodeChar((x * 4096 + y * 64 + z) as char) == [0xE0 + x, 0x80 + y, 0x80 + z]
  {
    var n := x * 4096 + y * 64 + z;
    assert n / 64 == x * 64 + y;
    assert n / 4096 == x && (n / 64) % 64 == y && n % 64 == z;
  }

  lemma EncodeFour(w: int, x: int, y: int, z: int)
    requires 0 <= w < 5 && 0 <= x < 64 && 0 <= y < 64 && 0 <= z < 64
    requires w == 0 ==> x >= 0x10
    requires w == 4 ==> x < 0x10
    ensures EncodeChar((w * 262144 + x * 4096 + y * 64 + z) as char) == [0xF0 + w, 0x80 + x, 0x80 + y, 0x80 + z]
  {
    var n := w * 262144 + x * 4096 + y * 64 + z;
    assert n / 64 == w * 4096 + x * 64 + y;
    assert n / 4096 == w * 64 + x;
    assert n / 262144 == w && (n / 4096) % 64 == x && (n / 64) % 64 == y && n % 64 == z;
  }

  /** Decoding inverts encoding for every string, emoji and other astral characters included. */
  lemma {:induction false} DecodeEncode(s: string)
    ensures Decode(Encode(s)) == Some(s)
  {
    if s != [] {
      var e := EncodeChar(s[0]);
      DecodeEncodeChar(s[0], Encode(s[1..]));
      assert Encode(s) == e + Encode(s[1..]);
      assert Encode(s)[|e|..] == Encode(s[1..]);
      DecodeEncode(s[1..]);
      assert [s[0]] + s[1..] == s;
    }
  }

  /** Conversely, a sequence that decodes is the encoding of what it decodes to. */
  lemma {:induction false} EncodeDecode(b: seq<Byte>, s: string)
    requires Decode(b) == Some(s)
    ensures Encode(s) == b
    decreases |b|
  {
    if |b| > 0 {
      var c, n, t := DecodeFront(b, s);
      EncodeDecodedChar(b);
      EncodeDecode(b[n..], t);
      Reassemble(b, n, c, t);
    }
  }

  lemma Reassemble(b: seq<Byte>, n: nat, c: char, t: string)
    requires n <= |b| && EncodeChar(c) == b[..n] && Encode(t) == b[n..]
    ensures Encode([c] + t) == b
  {
    assert ([c] + t)[0] == c && ([c] + t)[1..] == t;
    assert b[..n] + b[n..] == b;
  }

  /** A non-empty sequence that decodes starts with one character and decodes after it. */
  lemma DecodeFront(b: seq<Byte>, s: string) returns (c: char, n: nat, t: string)
    requires |b| > 0 && Decode(b) == Some(s)
    ensures DecodeChar(b) == Some((c, n)) && n <= |b| && Decode(b[n..]) == Some(t) && s == [c] + t
  {
    c, n := DecodeChar(b).value.0, DecodeChar(b).value.1;
    t := Decode(b[n..]).value;
  }
}
