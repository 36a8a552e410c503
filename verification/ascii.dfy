/** Bytes on the serial line and their relation to Python text. */
module Ascii {

  /** One octet, as a Python `bytes` element. */
  type Byte = b: int | 0 <= b < 256

  /** The carriage return that ends every frame. */
  const CR: Byte := 13

  predicate IsAsciiChar(c: char) {
    c as int < 128
  }

  predicate IsAscii(s: string) {
    forall i :: 0 <= i < |s| ==> IsAsciiChar(s[i])
  }

  /** `bytes(s, 'ascii')` for text the ASCII codec accepts: one byte per character. */
  function Encode(s: string): (r: seq<Byte>)
    requires IsAscii(s)
    ensures |r| == |s|
    ensures forall i :: 0 <= i < |r| ==> r[i] < 128 && Chr(r[i]) == s[i]
  {
    seq(|s|, i requires 0 <= i < |s| => s[i] as int)
  }

  /** `chr(b)`: the character whose code point is the byte's value. */
  function Chr(b: Byte): char {
    b as char
  }

  /** The text `''.join(chr(b) for b in bs)`, as `decode_temperature` builds it. */
  function Chars(bs: seq<Byte>): (s: string)
    ensures |s| == |bs|
  {
    seq(|bs|, i requires 0 <= i < |bs| => Chr(bs[i]))
  }

  /** Reading the encoded bytes back as characters gives the original text. */
  lemma CharsOfEncode(s: string)
    requires IsAscii(s)
    ensures Chars(Encode(s)) == s
  {
  }
}
