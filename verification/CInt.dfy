/** C++ integer arithmetic that differs from Dafny's: division and remainder truncate toward zero,
    and values live in fixed-width ranges. */
module CInt {

  const INT32_MIN := -0x8000_0000
  const INT32_MAX := 0x7FFF_FFFF
  const INT64_MIN := -0x8000_0000_0000_0000
  const UINT64_MAX := 0xFFFF_FFFF_FFFF_FFFF

  predicate IsInt32(x: int) {
    INT32_MIN <= x <= INT32_MAX
  }

  /** `x / n` for a positive divisor, truncating toward zero. */
  function Div(x: int, n: int): int
    requires n > 0
  {
    if x >= 0 then x / n else -((-x) / n)
  }

  /** `x % n` for a positive divisor: the remainder takes the sign of the dividend. */
  function Mod(x: int, n: int): int
    requires n > 0
  {
    x - n * Div(x, n)
  }

  lemma ScaleIsMonotonic(n: int, p: int, q: int)
    requires n > 0 && p < q
    ensures n * p + n <= n * q
  {
    var k := q - p - 1;
    assert q == p + 1 + k;
    assert n * q == n * p + n + n * k;
  }

  lemma QuotientIs(x: int, n: int, q: int)
    requires n > 0 && n * q <= x < n * q + n
    ensures x / n == q
  {
    var p := x / n;
    assert n * p <= x < n * p + n;
    if p < q {
      ScaleIsMonotonic(n, p, q);
    } else if q < p {
      ScaleIsMonotonic(n, q, p);
    }
  }
}
