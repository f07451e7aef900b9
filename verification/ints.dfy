/** Fixed-width integers of the C++ code, as subset types of `int`.
    Wrap-around and truncating casts are written out where the source relies on them. */
module Ints {

  const TWO_8: int := 0x100
  const TWO_16: int := 0x1_0000
  const TWO_32: int := 0x1_0000_0000
  const TWO_64: int := 0x1_0000_0000_0000_0000

  type uint8 = x: int | 0 <= x < TWO_8
  type uint16 = x: int | 0 <= x < TWO_16
  type uint32 = x: int | 0 <= x < TWO_32
  type uint64 = x: int | 0 <= x < TWO_64
  type int8 = x: int | -0x80 <= x < 0x80
  type int16 = x: int | -0x8000 <= x < 0x8000
  type int32 = x: int | -0x8000_0000 <= x < 0x8000_0000

  const INT32_MIN: int := -0x8000_0000
  const INT32_MAX: int := 0x7FFF_FFFF

  /** `static_cast<uint16_t>` of an unbounded count. */
  function ToUint16(x: int): (r: uint16)
    ensures 0 <= x < TWO_16 ==> r == x
    ensures (r - x) % TWO_16 == 0
  {
    x % TWO_16
  }

  /** Two's-complement truncation to a signed 16-bit value (an `int16_t` assignment). */
  function ToInt16(x: int): (r: int16)
    ensures -0x8000 <= x < 0x8000 ==> r == x
    ensures (r - x) % TWO_16 == 0
  {
    var m := x % TWO_16;
    if m >= 0x8000 then m - TWO_16 else m
  }
}
