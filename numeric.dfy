/** Real-number helpers that spell out the .NET arithmetic the colour code relies on:
    Math.Min/Max/Abs/Clamp, the truncating remainder of C# on floats and on ints,
    and Math.Floor. */
module Numeric {

  function Min(a: real, b: real): real { if a <= b then a else b }

  function Max(a: real, b: real): real { if a >= b then a else b }

  function Abs(x: real): real { if x < 0.0 then -x else x }

  /** Math.Clamp(x, lo, hi) for lo <= hi (the only way the colour code calls it). */
  function Clamp(x: real, lo: real, hi: real): (r: real)
    requires lo <= hi
    ensures lo <= r <= hi
    ensures lo <= x <= hi ==> r == x
  {
    if x < lo then lo else if x > hi then hi else x
  }

  /** Conversion toward zero, as a C# cast from float to int. */
  function Trunc(x: real): (k: int)
    ensures 0.0 <= x ==> k as real <= x < k as real + 1.0
    ensures x < 0.0 ==> k as real - 1.0 < x <= k as real
  {
    if x >= 0.0 then x.Floor else -((-x).Floor)
  }

  /** The C# float remainder of x by 360: truncated division, so the result
      has the sign of the dividend and lies strictly inside (-360, 360). */
  function Rem360(x: real): (r: real)
    ensures 0.0 <= x ==> 0.0 <= r < 360.0
    ensures x < 0.0 ==> -360.0 < r <= 0.0
    ensures (x - r) / 360.0 == Trunc(x / 360.0) as real
  {
    x - 360.0 * Trunc(x / 360.0) as real
  }

  /** The C# int remainder of i by n > 0 (truncated, sign of the dividend). */
  function IntRem(i: int, n: int): (r: int)
    requires n > 0
    ensures 0 <= i ==> 0 <= r < n && r == i % n
    ensures i < 0 ==> -n < r <= 0
  {
    if i >= 0 then i % n else -((-i) % n)
  }

  /** A product kept behind a function: the solver then treats it as a single
      term, which keeps the linear steps of the proofs below within reach. */
  function Scale(x: real, t: real): real { x * t }

  lemma ScaleBetween(x: real, t: real)
    requires 0.0 <= x && 0.0 <= t <= 1.0
    ensures 0.0 <= Scale(x, t) <= x
  {
    assert x - x * t == x * (1.0 - t);
  }

  /** A product of two factors in [0, 1] lies in [0, 1] and below each factor. */
  lemma ProductInUnit(a: real, b: real)
    requires 0.0 <= a <= 1.0 && 0.0 <= b <= 1.0
    ensures 0.0 <= a * b <= a && a * b <= b
  {
    ScaleBetween(a, b);
    ScaleBetween(b, a);
    assert Scale(a, b) == Scale(b, a);
  }

  /** Dividing by d > 0 keeps the sign of x and its order against d. */
  lemma QuotientBounds01(x: real, d: real)
    requires 0.0 < d
    ensures 0.0 <= x ==> 0.0 <= x / d
    ensures x < 0.0 ==> x / d < 0.0
    ensures x < d ==> x / d < 1.0
    ensures x <= d ==> x / d <= 1.0
  {
    var q := x / d;
    assert q * d == x;
    assert (q - 1.0) * d == x - d;
    assert (-q) * d == -x;
    if q < 0.0 {
      PositiveScale(-q, d);
    } else {
      NonNegativeScale(q, d);
    }
    if q > 1.0 {
      PositiveScale(q - 1.0, d);
    } else if q == 1.0 {
      assert x == d;
    }
  }

  lemma NonNegativeScale(x: real, y: real)
    requires 0.0 <= x && 0.0 <= y
    ensures 0.0 <= x * y
  {
  }

  lemma PositiveScale(x: real, y: real)
    requires 0.0 < x && 0.0 < y
    ensures 0.0 < x * y
  {
  }

  /** A quotient of 0 <= x <= d by d > 0 lies in [0, 1]. */
  lemma QuotientInUnit(x: real, d: real)
    requires 0.0 < d && 0.0 <= x <= d
    ensures 0.0 <= x / d <= 1.0
  {
  }

  /** a + (b - a) * t stays between a and b for t in [0, 1]. */
  lemma LerpWithin(a: real, b: real, t: real)
    requires 0.0 <= t <= 1.0
    ensures Min(a, b) <= a + (b - a) * t <= Max(a, b)
  {
    if a <= b {
      ScaleBetween(b - a, t);
    } else {
      ScaleBetween(a - b, t);
      assert Scale(b - a, t) == -Scale(a - b, t);
    }
  }
}
