/** Fixed-width unsigned integers of the AVR target: `uint8_t` and the 32-bit
    `unsigned long`, with the wrap-around arithmetic the compiler emits. */
module Uint {

  const TWO_TO_THE_8: int := 0x100
  const TWO_TO_THE_32: int := 0x1_0000_0000

  newtype u8 = x: int | 0 <= x < 0x100
  newtype u32 = x: int | 0 <= x < 0x1_0000_0000

  const U32_MAX: u32 := 0xFFFF_FFFF

  /** `a + b` on `unsigned long`: the carry out of bit 31 is dropped. */
  function Add32(a: u32, b: u32): (r: u32)
    ensures a as int + b as int < TWO_TO_THE_32 ==> r as int == a as int + b as int
    ensures a as int + b as int >= TWO_TO_THE_32 ==> r as int == a as int + b as int - TWO_TO_THE_32
  {
    ((a as int + b as int) % TWO_TO_THE_32) as u32
  }

  /** `a - b` on `unsigned long`: a borrow wraps around. */
  function Sub32(a: u32, b: u32): (r: u32)
    ensures b <= a ==> r == a - b
    ensures a < b ==> r as int == a as int - b as int + TWO_TO_THE_32
    ensures Add32(r, b) == a
  {
    ((a as int - b as int) % TWO_TO_THE_32) as u32
  }

  /** `x++` on `unsigned long`. */
  function Inc32(x: u32): (r: u32)
    ensures x < U32_MAX ==> r == x + 1
    ensures x == U32_MAX ==> r == 0
    ensures r != x
  {
    Add32(x, 1)
  }

  /** Reducing an addend modulo 2^32 first does not change the sum modulo 2^32. */
  lemma ModAddLeft(a: int, k: int)
    ensures (a % TWO_TO_THE_32 + k) % TWO_TO_THE_32 == (a + k) % TWO_TO_THE_32
  {
  }
}
