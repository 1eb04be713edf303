/** The 64-bit integers of the service and PostgreSQL's `bigint`; bytes. */
module Integers {
  const I64_MIN: int := -0x8000_0000_0000_0000
  const I64_MAX: int := 0x7fff_ffff_ffff_ffff
  const U64_MODULUS: int := 0x1_0000_0000_0000_0000

  type i64 = x: int | I64_MIN <= x <= I64_MAX
  type u64 = x: int | 0 <= x < U64_MODULUS

  type byte = x: int | 0 <= x < 256

  predicate InI64(x: int) {
    I64_MIN <= x <= I64_MAX
  }

  /** The cast `x as u64` of an `i64`: two's complement wrap-around. */
  function AsU64(x: i64): u64 {
    if x < 0 then x + U64_MODULUS else x
  }

  /** `i64` arithmetic as a release build performs it: the exact result, wrapped around. */
  function Wrapped(x: int): i64 {
    AsI64(x % U64_MODULUS)
  }

  /** The cast `x as i64` of a `u64`. */
  function AsI64(x: u64): i64 {
    if x > I64_MAX then x - U64_MODULUS else x
  }
}
