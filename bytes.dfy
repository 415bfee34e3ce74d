/** Octets, and the few ASCII characters the URL and path code looks at. */
module Bytes {

  newtype byte = x: int | 0 <= x < 256

  const Slash: byte := 0x2F
  const Dot: byte := 0x2E
  const PercentSign: byte := 0x25

  /** The bytes of an ASCII string (used to write literals). */
  function FromAscii(s: string): (r: seq<byte>)
    requires forall i :: 0 <= i < |s| ==> s[i] < 128 as char
    ensures |r| == |s|
    ensures forall i :: 0 <= i < |s| ==> r[i] as int == s[i] as int
  {
    seq(|s|, i requires 0 <= i < |s| => s[i] as int as byte)
  }
}
