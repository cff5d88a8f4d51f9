/** The bounds of the source's integer fields, and absolute differences. */
module Limits {
  const U64_MAX: nat := 0xFFFF_FFFF_FFFF_FFFF
  const I64_MAX: nat := 0x7FFF_FFFF_FFFF_FFFF
  const U53_MAX: nat := 0x1F_FFFF_FFFF_FFFF

  function Abs(x: int): int {
    if x < 0 then -x else x
  }
}
