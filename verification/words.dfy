/** Native machine words that cross the BigInt boundary.

    On the 64-bit Apple platforms the library targets, Objective-C `long` and
    Swift `Int` are 64-bit two's-complement words and `unsigned long` / `UInt`
    are 64-bit unsigned words; `mp_bitcnt_t` is `unsigned long` as well. The
    base argument of the string initialiser is a Swift `Int32`.
 */
module Words {

  const SLONG_MIN: int := -0x8000_0000_0000_0000
  const SLONG_MAX: int := 0x7fff_ffff_ffff_ffff
  const ULONG_MAX: int := 0xffff_ffff_ffff_ffff

  /** `GMP_SLONG` (`signed long int`) and Swift `Int`. */
  type SLong = x: int | -0x8000_0000_0000_0000 <= x < 0x8000_0000_0000_0000

  /** `GMP_ULONG` (`unsigned long int`), `mp_bitcnt_t` and Swift `UInt`. */
  type ULong = x: int | 0 <= x < 0x1_0000_0000_0000_0000

  /** Swift `Int32`, the type of the `base` argument. */
  type Int32 = x: int | -0x8000_0000 <= x < 0x8000_0000
}

/** Failure-carrying results, in the style of a standard wrappers module. */
module Wrappers {

  datatype Option<+T> = None | Some(value: T)

  datatype Result<+T, +E> = Success(value: T) | Failure(error: E)
}
