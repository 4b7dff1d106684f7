/**
 * Fixed-width unsigned integers of the Cortex-R5 target: `uint8_t`,
 * `uint16_t` and the 32-bit `unsigned long`, `uint32_t` and `TickType_t`.
 * C's unsigned arithmetic wraps around; the functions here spell that out.
 */
module Uint {
  const TWO_TO_THE_8: int := 0x100
  const TWO_TO_THE_32: int := 0x1_0000_0000

  newtype u8 = x: int | 0 <= x < 0x100
  newtype u16 = x: int | 0 <= x < 0x1_0000
  newtype u32 = x: int | 0 <= x < 0x1_0000_0000

  /** `a - b` on 32-bit unsigned operands: the unique 32-bit value that, added to `b`, gives `a` modulo 2^32. */
  function Sub32(a: u32, b: u32): (r: u32)
    ensures (r as int + b as int) % TWO_TO_THE_32 == a as int
    ensures b <= a ==> r == a - b
    ensures a < b ==> r as int == a as int - b as int + TWO_TO_THE_32
  {
    ((a as int - b as int) % TWO_TO_THE_32) as u32
  }

  /** `a + b` on 32-bit unsigned operands. */
  function Add32(a: u32, b: u32): (r: u32)
    ensures a as int + b as int < TWO_TO_THE_32 ==> r as int == a as int + b as int
    ensures TWO_TO_THE_32 <= a as int + b as int ==> r as int == a as int + b as int - TWO_TO_THE_32
  {
    ((a as int + b as int) % TWO_TO_THE_32) as u32
  }

  /** The `(uint8_t)` cast: keeps the low eight bits. */
  function Trunc8(x: u32): (r: u8)
    ensures x < 0x100 ==> r as int == x as int
    ensures (x as int - r as int) % TWO_TO_THE_8 == 0
  {
    (x % 0x100) as u8
  }

  /** Subtracting and then adding back the same amount is the identity, wrap-around included. */
  lemma AddUndoesSub(h: u32, n: u32)
    ensures Add32(Sub32(h, n), n) == h
  {
  }

  /** Adding and then subtracting the same amount is the identity, wrap-around included. */
  lemma SubUndoesAdd(h: u32, n: u32)
    ensures Sub32(Add32(h, n), n) == h
  {
  }

  /**
   * The wrapping difference of a counter and an earlier reading of it is the
   * true distance between them, provided that distance is below 2^32 --
   * even when the counter has wrapped past zero in between.
   */
  lemma ElapsedAcrossWrap(earlier: u32, elapsed: int)
    requires 0 <= elapsed < TWO_TO_THE_32
    ensures Sub32(((earlier as int + elapsed) % TWO_TO_THE_32) as u32, earlier) as int == elapsed
  {
  }
}
