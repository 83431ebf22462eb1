/** Powers of two and products. */
module Arithmetic {
  function Pow2(n: nat): (r: nat)
    ensures r > 0
  {
    if n == 0 then 1 else 2 * Pow2(n - 1)
  }

  lemma MulAtLeast(a: int, b: int, h: int)
    requires a >= b && h >= 0
    ensures a * h >= b * h
  {
  }
}
