/** Bytes, 16-bit words and the endian helpers used by every wire format of the project. */
module Bytes {

  type byte = b: int | 0 <= b < 0x100

  type uint16 = x: int | 0 <= x < 0x1_0000

  /** Two bytes in network byte order (`endian_store16`). */
  function Store16(x: uint16): (s: seq<byte>)
    ensures |s| == 2
  {
    [x / 0x100, x % 0x100]
  }

  /** The inverse of `Store16` (`endian_load16`). */
  function Load16(hi: byte, lo: byte): uint16 {
    hi * 0x100 + lo
  }

  /** A value converted to `uint16_t`: reduced modulo 65536, also for negative differences. */
  function ToUint16(x: int): uint16 {
    x % 0x1_0000
  }
}
