/** Bytes and byte strings. Rust's `String`/`&str` are modelled by their UTF-8
    bytes, so every length in the model is a byte length. */
module Bytes {

  newtype byte = x: int | 0 <= x < 0x100

  const LF: byte := 0x0A
  const CR: byte := 0x0D
  const SPACE: byte := 0x20

  predicate IsAscii(s: string) {
    forall i :: 0 <= i < |s| ==> s[i] as int < 0x80
  }

  /** The UTF-8 encoding of an ASCII string literal */
  function Ascii(s: string): (b: seq<byte>)
    requires IsAscii(s)
    ensures |b| == |s|
    ensures forall i :: 0 <= i < |s| ==> b[i] as int == s[i] as int
  {
    seq(|s|, i requires 0 <= i < |s| => s[i] as int as byte)
  }

  /** `n` space bytes, as produced by `" ".repeat(n)` */
  function Spaces(n: nat): (b: seq<byte>)
    ensures |b| == n
  {
    seq(n, _ => SPACE)
  }
}
