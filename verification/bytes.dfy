/**
 Bytes of a `std::string`, as the BibTeX import rewriters see them: a
 `char` is a signed 8-bit value on the platforms the importer targets, so
 a comparison such as `c > '\301'` is made on the signed value.
 */
module Bytes {

  newtype byte = x: int | 0 <= x < 256

  /** The value of the byte read as a signed `char`. */
  function Signed(b: byte): (r: int)
    ensures -128 <= r < 128
    ensures r < 0 <==> b >= 128
    ensures (r - b as int) % 256 == 0
  {
    if b < 128 then b as int else b as int - 256
  }

  /** The byte of an ASCII (or Latin-1) character literal. */
  function Ch(c: char): (r: byte)
    requires c as int < 256
    ensures r as int == c as int
  {
    c as int as byte
  }

  /** The character a byte stands for, read as Latin-1. */
  function AsChar(b: byte): (c: char)
    ensures c as int == b as int && Ch(c) == b
  {
    b as int as char
  }

  /** The bytes of a string literal made of such characters. */
  function Chars(s: string): (r: seq<byte>)
    requires forall i :: 0 <= i < |s| ==> s[i] as int < 256
    ensures |r| == |s| && forall i :: 0 <= i < |s| ==> r[i] as int == s[i] as int
  {
    if |s| == 0 then [] else [Ch(s[0])] + Chars(s[1..])
  }

  predicate IsAscii(b: byte)
  {
    b < 128
  }
}
