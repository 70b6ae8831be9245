/** Integer helpers shared by the modules that cap a list's length. */
module Numeric {
  /** The smaller of two integers, as `Math.min` and `limit(n)` use it. */
  function Min(a: int, b: int): (m: int)
    ensures m <= a && m <= b
    ensures m == a || m == b
  {
    if a <= b then a else b
  }
}
