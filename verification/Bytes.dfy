/** Octets, 16-bit words and addresses shared by every component of the stack. */
module Bytes {

  type byte = x: int | 0 <= x < 256

  type u16 = x: int | 0 <= x < 0x1_0000

  type u32 = x: int | 0 <= x < 0x1_0000_0000

  function Min(a: int, b: int): int {
    if a < b then a else b
  }

  function Max(a: int, b: int): int {
    if a < b then b else a
  }

  /** Big-endian 16-bit write, the wire form of every header field. */
  function Put16(x: u16): (bs: seq<byte>)
    ensures |bs| == 2
  {
    [x / 256, x % 256]
  }

  /** Big-endian 16-bit read. */
  function Get16(s: seq<byte>, i: nat): (x: u16)
    requires i + 2 <= |s|
  {
    (s[i] as int) * 256 + s[i + 1]
  }
}
