/** Integer helpers shared by the selection and pagination modules. */
module Arith {

  function Min(a: int, b: int): int {
    if a < b then a else b
  }

  function Max(a: int, b: int): int {
    if a < b then b else a
  }

  /** `x` clamped into `[lo, hi]` (lower bound first when they cross). */
  function Clamp(x: int, lo: int, hi: int): int {
    Max(lo, Min(x, hi))
  }
}
