/**
 * Scalar helpers of src/utils.cpp and the C++ numeric conventions the model
 * needs: doubles are exact reals, casts to integer types truncate toward zero,
 * and `%` on integers takes the sign of the dividend.
 */
module Numerics {
  /** DBL_MAX: the largest finite double, (2 - 2^-52) * 2^1023, written out exactly. */
  const DBL_MAX: real := 179769313486231570814527423731704356798070567525844996598917476803157260780028538760589558632766878171540458953514382464234321326889464182768467546703537516986049910576551282076245490090389328944075868508455133942304583236903222948165808559332123348274797826204144723168738177180919299881250404026184124858368.0

  /** M_PI as written in the C library headers. */
  const PI: real := 3.14159265358979323846

  /** What the model assumes of `std::sqrt`, which is passed in as a parameter. */
  ghost predicate IsSqrt(sqrt: real -> real)
  {
    forall v :: 0.0 <= v ==> 0.0 <= sqrt(v) && Sq(sqrt(v)) == v
  }

  /**
   * A product. Facts about products and squares are stated through Mul and
   * Sq, so that the solver treats them as terms of their own.
   */
  function Mul(p: real, q: real): real { p * q }

  function Sq(a: real): real { Mul(a, a) }

  lemma MulPos(p: real, q: real)
    requires 0.0 < p && 0.0 < q
    ensures 0.0 < Mul(p, q)
  {
  }

  lemma MulNonneg(p: real, q: real)
    requires 0.0 <= p && 0.0 <= q
    ensures 0.0 <= Mul(p, q)
  {
    if p > 0.0 && q > 0.0 { MulPos(p, q); }
  }

  lemma MulLe(p: real, q: real, c: real)
    requires p <= q && 0.0 <= c
    ensures Mul(p, c) <= Mul(q, c)
  {
    MulNonneg(q - p, c);
  }

  /** A square is never negative and is positive away from zero. */
  lemma SquarePos(a: real)
    ensures 0.0 <= Sq(a)
    ensures a != 0.0 ==> 0.0 < Sq(a)
  {
    if a > 0.0 { MulPos(a, a); }
    else if a < 0.0 { MulPos(-a, -a); }
  }

  /** A fraction below one of a positive quantity stays below it. */
  lemma MulBelow(p: real, c: real)
    requires 0.0 <= p < 1.0 && 0.0 < c
    ensures 0.0 <= Mul(p, c) < c
  {
    MulNonneg(p, c);
    MulPos(1.0 - p, c);
  }

  /** A row-major index (row, col) of a rows x cols grid lies inside the grid. */
  lemma GridIndex(row: int, col: int, rows: int, cols: int)
    requires 0 <= row < rows && 0 <= col < cols
    ensures 0 <= row * cols + col < rows * cols
  {
    assert (rows - 1 - row) * cols >= 0;
    assert rows * cols == (rows - 1 - row) * cols + row * cols + cols;
  }

  /** The row and the column are recovered from a row-major index. */
  lemma GridIndexInverse(row: int, col: int, cols: int)
    requires 0 <= row && 0 <= col < cols
    ensures (row * cols + col) / cols == row
    ensures (row * cols + col) % cols == col
  {
    var k := row * cols + col;
    var q := k / cols;
    var m := k % cols;
    assert k == q * cols + m;
    if q > row {
      ShiftedProduct(q, row, cols);
    } else if q < row {
      ShiftedProduct(row, q, cols);
    }
  }

  lemma ShiftedProduct(a: int, b: int, c: int)
    requires b < a && 0 < c
    ensures a * c >= b * c + c
  {
    var d := a - b - 1;
    assert a * c == (b + 1 + d) * c;
    assert (b + 1 + d) * c == b * c + c + d * c;
  }

  /** Squaring is strictly increasing on the non-negative reals. */
  lemma SquareBelow(b: real, e: real)
    requires 0.0 <= b < e
    ensures Sq(b) < Sq(e)
  {
    MulPos(e - b, e + b);
  }

  /** `std::fabs`. */
  function Abs(v: real): (r: real)
    ensures 0.0 <= r && (r == v || r == -v)
  {
    if v < 0.0 then -v else v
  }

  /** `fmin`. */
  function Min(a: real, b: real): (r: real)
    ensures r <= a && r <= b && (r == a || r == b)
  {
    if a < b then a else b
  }

  /** `fmax`. */
  function Max(a: real, b: real): (r: real)
    ensures a <= r && b <= r && (r == a || r == b)
  {
    if a < b then b else a
  }

  /** p / q, taken as 0 when q is 0 (the source's quotient is then not finite). */
  function Quotient(p: real, q: real): real
  {
    if q == 0.0 then 0.0 else p / q
  }

  /** `clamp(min, x, max)`: x limited to the interval [min, max]. */
  function Clamp(min: real, x: real, max: real): (r: real)
    ensures min <= max ==> min <= r <= max
    ensures min <= x <= max ==> r == x
    ensures r == min || r == x || r == max
  {
    if x < min then min
    else if x > max then max
    else x
  }

  /** Clamping a clamped value changes nothing. */
  lemma ClampIdempotent(min: real, x: real, max: real)
    requires min <= max
    ensures Clamp(min, Clamp(min, x, max), max) == Clamp(min, x, max)
  {
  }

  /** `deg2rad`: degrees to radians, so that 180 degrees is M_PI. */
  function Deg2Rad(deg: real): (r: real)
    ensures r * 180.0 == PI * deg
    ensures deg == 180.0 ==> r == PI
  {
    PI / 180.0 * deg
  }

  /** A C++ conversion of a double to an integer type: truncation toward zero. */
  function Trunc(v: real): (r: int)
    ensures 0.0 <= v ==> 0 <= r && r as real <= v < r as real + 1.0
    ensures v < 0.0 ==> r <= 0 && v <= r as real && (r - 1) as real < v
  {
    if 0.0 <= v then v.Floor else -((-v).Floor)
  }

  /** C++ integer `/`: the quotient truncated toward zero. */
  function CppDiv(a: int, b: int): int
    requires b != 0
  {
    var q := (if a < 0 then -a else a) / (if b < 0 then -b else b);
    if (a < 0) == (b < 0) then q else -q
  }

  /** C++ integer `%`: the remainder takes the sign of the dividend. */
  function CppRem(a: int, b: int): (r: int)
    requires b != 0
    ensures a == CppDiv(a, b) * b + r
    ensures 0 <= a ==> 0 <= r < (if b < 0 then -b else b)
    ensures a < 0 ==> -(if b < 0 then -b else b) < r <= 0
  {
    a - CppDiv(a, b) * b
  }

  /** x raised to a natural power (the `pow` calls of the source with integer exponents). */
  function Pow(v: real, n: nat): real
  {
    if n == 0 then 1.0 else v * Pow(v, n - 1)
  }

  /** Powers of a value in [0, 1] stay in [0, 1]. */
  lemma {:induction false} PowUnit(v: real, n: nat)
    requires 0.0 <= v <= 1.0
    ensures 0.0 <= Pow(v, n) <= 1.0
  {
    if n > 0 {
      PowUnit(v, n - 1);
      MulNonneg(v, Pow(v, n - 1));
      MulLe(v, 1.0, Pow(v, n - 1));
    }
  }

  /** Powers of a positive value are positive. */
  lemma {:induction false} PowPositive(v: real, n: nat)
    requires 0.0 < v
    ensures 0.0 < Pow(v, n)
  {
    if n > 0 {
      PowPositive(v, n - 1);
      MulPos(v, Pow(v, n - 1));
    }
  }
}
