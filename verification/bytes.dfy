/** Machine-width integer types and byte strings. */
module Bytes {

  /** A Go `byte`. */
  type byte = b: int | 0 <= b < 256

  const TWO_TO_THE_32: int := 0x1_0000_0000

  /** A Go `uint32`. */
  type uint32 = x: int | 0 <= x < TWO_TO_THE_32

  /** The bytes of an ASCII string, as Go's `[]byte("...")` produces them. */
  function Ascii(s: string): (r: seq<byte>)
    requires forall i | 0 <= i < |s| :: s[i] as int < 256
    ensures |r| == |s|
    ensures forall i | 0 <= i < |s| :: r[i] == s[i] as int
  {
    if |s| == 0 then [] else [s[0] as int] + Ascii(s[1..])
  }
}
