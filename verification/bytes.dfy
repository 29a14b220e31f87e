/** Machine types of the program: bytes and unsigned 32-bit integers. */
module Bytes {

  /** One byte of a payload, a name or the trailer (an unsigned 8-bit value). */
  newtype byte = x: int | 0 <= x < 0x100

  /** The largest value of an unsigned 8-bit length field. */
  const UINT8_MAX: int := 0xFF

  /** The largest value of `uint32_t`. */
  const UINT32_MAX: int := 0xFFFF_FFFF

  /** An unsigned 32-bit integer, kept as a mathematical integer in range. */
  type uint32 = x: int | 0 <= x <= UINT32_MAX

  /** An unsigned 8-bit integer value of a byte. */
  function ByteValue(b: byte): (v: int)
    ensures 0 <= v <= UINT8_MAX
  {
    b as int
  }

  /** The byte holding a value that fits in 8 bits (`static_cast<uint8_t>` of an in-range value). */
  function ToByte(v: int): (b: byte)
    requires 0 <= v <= UINT8_MAX
    ensures ByteValue(b) == v
  {
    v as byte
  }
}
