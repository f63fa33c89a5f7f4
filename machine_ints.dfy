/** Rust's fixed-width integers as ranges of `int`, and the `as` casts between
    the 32-bit ones, which keep the bits and change how they are read. */
module MachineInts {

  const U32_MAX: int := 0xFFFF_FFFF
  const I32_MIN: int := -0x8000_0000
  const I32_MAX: int := 0x7FFF_FFFF

  type U32 = x: int | 0 <= x <= U32_MAX
  type I32 = x: int | I32_MIN <= x <= I32_MAX

  /** `u32 as i32`. */
  function U32AsI32(u: U32): (r: I32)
    ensures u <= I32_MAX ==> r == u
    ensures u > I32_MAX ==> r == u - (U32_MAX + 1)
  {
    if u <= I32_MAX then u else u - (U32_MAX + 1)
  }

  /** `i32 as u32`. */
  function I32AsU32(v: I32): (r: U32)
    ensures v >= 0 ==> r == v
    ensures v < 0 ==> r == v + U32_MAX + 1
  {
    if v >= 0 then v else v + U32_MAX + 1
  }

  /** The two casts undo each other. */
  lemma CastsRoundTrip(u: U32, v: I32)
    ensures I32AsU32(U32AsI32(u)) == u && U32AsI32(I32AsU32(v)) == v
  {
  }
}
