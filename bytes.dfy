/** Rust's fixed-width unsigned integers and the big-endian reading of a byte string. */
module Bytes {

  newtype u8 = x: int | 0 <= x < 0x100
  newtype u16 = x: int | 0 <= x < 0x1_0000
  newtype u32 = x: int | 0 <= x < 0x1_0000_0000

  /** `u8::MAX` */
  const U8_MAX: int := 0xFF

  /** The unsigned number `bs` denotes when its first byte is the most significant one. */
  function BigEndianValue(bs: seq<u8>): nat
  {
    if bs == [] then 0 else BigEndianValue(bs[..|bs| - 1]) * 256 + bs[|bs| - 1] as nat
  }
}
