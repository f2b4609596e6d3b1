/** Machine-integer facts the model needs: the range of a C++ `int` and
    C++'s integer division, which truncates toward zero (Dafny's `/` is
    Euclidean, so the two differ on negative dividends). */
module Int32 {

  const MinInt32: int := -0x8000_0000
  const MaxInt32: int := 0x7FFF_FFFF

  /** True iff `x` is representable as a 32-bit signed `int`. */
  predicate InInt32(x: int) {
    MinInt32 <= x <= MaxInt32
  }

  /** C++ `a / b` for a positive divisor: the quotient rounded toward zero. */
  function TruncDiv(a: int, b: int): (q: int)
    requires b > 0
    ensures a >= 0 ==> q == a / b
    ensures a < 0 ==> (q - 1) * b < a <= q * b
  {
    if a >= 0 then a / b else -((-a) / b)
  }
}
