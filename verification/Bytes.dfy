/** Bytes and little-endian words. */
module Bytes {
  type byte = x: int | 0 <= x < 0x100
  type u16 = x: int | 0 <= x < 0x1_0000
  type u32 = x: int | 0 <= x < 0x1_0000_0000

  /** `to_le_bytes` of a 16-bit word. */
  function U16ToLe(x: u16): seq<byte> { [x % 0x100, x / 0x100] }

  /** `to_le_bytes` of a 32-bit word. */
  function U32ToLe(x: u32): (b: seq<byte>)
    ensures |b| == 4
  {
    U16ToLe(x % 0x1_0000) + U16ToLe(x / 0x1_0000)
  }

  /** Element `i` of a buffer of 16-bit words. */
  function U16At(b: seq<byte>, i: nat): u16
    requires 2 * i + 1 < |b|
  {
    b[2 * i] as int + 0x100 * b[2 * i + 1] as int
  }

  /** Element `i` of a buffer of 32-bit words. */
  function U32At(b: seq<byte>, i: nat): u32
    requires 4 * i + 3 < |b|
  {
    b[4 * i] as int + 0x100 * b[4 * i + 1] as int
    + 0x1_0000 * b[4 * i + 2] as int + 0x100_0000 * b[4 * i + 3] as int
  }

  /** The low byte comes first: 1.0 in half and in single precision. */
  lemma {:induction false} LittleEndian()
    ensures U16ToLe(0x3C00) == [0x00, 0x3C] && U16At([0x00, 0x3C], 0) == 0x3C00
    ensures U32ToLe(0x3F80_1234) == [0x34, 0x12, 0x80, 0x3F] && U32At([0x34, 0x12, 0x80, 0x3F], 0) == 0x3F80_1234
  {
  }
}
