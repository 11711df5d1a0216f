/** Fixed-width integers and byte helpers shared by the USB model. */
module Bytes {

  type u8 = x: int | 0 <= x < 0x100
  type u16 = x: int | 0 <= x < 0x1_0000
  type u32 = x: int | 0 <= x < 0x1_0000_0000
  type s32 = x: int | -0x8000_0000 <= x < 0x8000_0000

  datatype Option<+T> = None | Some(value: T)

  function Min(a: int, b: int): int
  {
    if a <= b then a else b
  }

  /** The two bytes of a 16-bit word in little-endian order. */
  function Le16(w: u16): (r: seq<u8>)
    ensures |r| == 2 && r[0] as int + 0x100 * (r[1] as int) == w
  {
    [w % 0x100, w / 0x100]
  }

  /** The 16-bit word held in two little-endian bytes. */
  function FromLe16(lo: u8, hi: u8): u16
  {
    lo as int + 0x100 * (hi as int)
  }

  /** A 32-bit signed value reinterpreted as unsigned (two's complement). */
  function AsU32(x: s32): (r: u32)
    ensures x >= 0 ==> r == x
    ensures x < 0 ==> r >= 0x8000_0000 && r - 0x1_0000_0000 == x
  {
    if x < 0 then x + 0x1_0000_0000 else x
  }
}
