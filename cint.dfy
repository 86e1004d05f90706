/** The C integer types and C's integer division as src/moment.c uses them.
    Dafny's `int` is unbounded and its `/` and `%` are Euclidean; C's fixed-width
    types and truncating division are written out here. */
module CInt {

  const INT32_MIN: int := -0x8000_0000
  const INT32_MAX: int := 0x7fff_ffff
  const INT64_MIN: int := -0x8000_0000_0000_0000
  const INT64_MAX: int := 0x7fff_ffff_ffff_ffff

  /** C `int` / `int32_t`: binding a value to this type proves it does not overflow. */
  type int32 = x: int | -0x8000_0000 <= x <= 0x7fff_ffff

  /** C `int64_t` (and Perl's `IV` on a 64-bit build). */
  type int64 = x: int | -0x8000_0000_0000_0000 <= x <= 0x7fff_ffff_ffff_ffff

  lemma MulAtLeast(d: int, k: int)
    requires d > 0 && k >= 1
    ensures d * k >= d
  {
    if k > 1 {
      MulAtLeast(d, k - 1);
      assert d * k == d * (k - 1) + d;
    }
  }

  /** Euclidean division is determined by its quotient-remainder equation. */
  lemma DivModUnique(n: int, d: int, q: int, r: int)
    requires d > 0 && n == d * q + r && 0 <= r < d
    ensures n / d == q && n % d == r
  {
    var q0, r0 := n / d, n % d;
    assert n == d * q0 + r0;
    if q > q0 {
      assert d * (q - q0) == d * q - d * q0;
      MulAtLeast(d, q - q0);
    } else if q < q0 {
      assert d * (q0 - q) == d * q0 - d * q;
      MulAtLeast(d, q0 - q);
    }
  }

  /** C's `a / b` for a positive divisor: the algebraic quotient with any fractional
      part discarded, i.e. rounded toward zero (ISO C99, section 6.5.5). */
  function CDiv(a: int, b: int): (q: int)
    requires b > 0
    ensures a >= 0 ==> q == a / b && 0 <= a - b * q < b
    ensures a < 0 ==> q == -((-a) / b) && -b < a - b * q <= 0
  {
    if a >= 0 then a / b
    else
      var p := (-a) / b;
      assert -a == b * p + (-a) % b;
      assert a - b * -p == -((-a) % b);
      -p
  }

  /** C's `a % b` for a positive divisor: `a == (a / b) * b + a % b` with C's quotient,
      so the remainder takes the sign of the dividend. */
  function CMod(a: int, b: int): (r: int)
    requires b > 0
    ensures a == b * CDiv(a, b) + r
    ensures a >= 0 ==> 0 <= r < b && r == a % b
    ensures a < 0 ==> -b < r <= 0
  {
    a - b * CDiv(a, b)
  }
}
