/** Fixed-width C integer types used by the prepared-statement structures,
    with the unsigned 32-bit wrap-around the C++ code relies on written out. */
module Uint {

  const UINT32_LIMIT: int := 0x1_0000_0000

  newtype uint16 = x: int | 0 <= x < 0x1_0000
  newtype uint32 = x: int | 0 <= x < 0x1_0000_0000
  newtype uint64 = x: int | 0 <= x < 0x1_0000_0000_0000_0000
  newtype int32 = x: int | -0x8000_0000 <= x < 0x8000_0000

  const UINT32_MAX: uint32 := 0xFFFF_FFFF

  /** `x + 1` (the C `x++`) in unsigned 32-bit arithmetic. */
  function Inc32(x: uint32): (r: uint32)
    ensures r as int == (x as int + 1) % UINT32_LIMIT
  {
    if x == UINT32_MAX then 0 else x + 1
  }

  /** `x - 1` in unsigned 32-bit arithmetic: 0 wraps to the largest value. */
  function Dec32(x: uint32): (r: uint32)
    ensures r as int == (x as int - 1) % UINT32_LIMIT
  {
    if x == 0 then UINT32_MAX else x - 1
  }

  /** Decrement undoes increment and vice versa: both are bijections of uint32. */
  lemma IncDecInverse(x: uint32)
    ensures Dec32(Inc32(x)) == x
    ensures Inc32(Dec32(x)) == x
  {
  }
}
