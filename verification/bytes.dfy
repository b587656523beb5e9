/** Fixed-width unsigned integers of the C code, as ranges of `int`. */
module Bytes {

  /** `uint8_t`. */
  newtype byte = x: int | 0 <= x < 256

  /** `uint16_t`. */
  newtype uint16 = x: int | 0 <= x < 0x1_0000

  /** 2^32: `uint32_t` arithmetic is taken modulo this. */
  const U32: int := 0x1_0000_0000
}
