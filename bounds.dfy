/** The loop-bound helper shared by the repeat and palindrome scans. */
module Bounds {

  /** Python's `min` of two integers. */
  function Min(a: int, b: int): int
  {
    if a <= b then a else b
  }
}
