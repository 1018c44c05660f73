/**
 * Octets, and the "binary strings" of the browser APIs: a string in which
 * every character stands for one octet (its code point is below 256).
 */
module Bytes {

  type Byte = b: int | 0 <= b < 256

  /** Every character of `s` is at most U+00FF. */
  predicate IsBinaryString(s: string)
  {
    forall i :: 0 <= i < |s| ==> s[i] as int < 256
  }

  /** The binary string that carries the octets `b`, one character per octet. */
  function ToBinaryString(b: seq<Byte>): (s: string)
    ensures |s| == |b|
    ensures forall i :: 0 <= i < |b| ==> s[i] as int == b[i]
    ensures IsBinaryString(s)
  {
    seq(|b|, i requires 0 <= i < |b| => b[i] as char)
  }

  /** The octets a binary string carries. */
  function FromBinaryString(s: string): (b: seq<Byte>)
    requires IsBinaryString(s)
    ensures |b| == |s|
    ensures forall i :: 0 <= i < |s| ==> b[i] == s[i] as int
  {
    seq(|s|, i requires 0 <= i < |s| => s[i] as int)
  }

  lemma BinaryStringRoundTrip(b: seq<Byte>)
    ensures FromBinaryString(ToBinaryString(b)) == b
  {
  }

  lemma BinaryStringRoundTrip'(s: string)
    requires IsBinaryString(s)
    ensures ToBinaryString(FromBinaryString(s)) == s
  {
  }

  lemma ToBinaryStringAppend(a: seq<Byte>, b: seq<Byte>)
    ensures ToBinaryString(a + b) == ToBinaryString(a) + ToBinaryString(b)
  {
  }
}
