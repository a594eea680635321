/** Exact real arithmetic helpers shared by the detector, the circle fit and the UI clamps.

    The square root the app uses is a floating-point library routine. It is kept
    abstract here: every operation that needs it takes a function `sqrt` and requires
    `IsSqrt(sqrt)`, which pins down the value on non-negative arguments only. What it returns
    on a negative argument (NaN in the app) is left unconstrained. */
module RealMath {

  function Abs(x: real): (r: real)
    ensures r >= 0.0
    ensures r == x || r == -x
  {
    if x < 0.0 then -x else x
  }

  function Max(a: real, b: real): (r: real)
    ensures r >= a && r >= b
    ensures r == a || r == b
  {
    if a >= b then a else b
  }

  function Min(a: real, b: real): (r: real)
    ensures r <= a && r <= b
    ensures r == a || r == b
  {
    if a <= b then a else b
  }

  /** Kotlin's `max` on `Int`, which the area sliders use. */
  function MaxInt(a: int, b: int): (r: int)
    ensures r >= a && r >= b
    ensures r == a || r == b
  {
    if a >= b then a else b
  }

  /** Kotlin's `coerceIn(lo, hi)`. */
  function Clamp(x: real, lo: real, hi: real): (r: real)
    requires lo <= hi
    ensures lo <= r <= hi
    ensures lo <= x <= hi ==> r == x
    ensures x < lo ==> r == lo
    ensures x > hi ==> r == hi
  {
    if x < lo then lo else if x > hi then hi else x
  }

  /** `sqrt` is a square root on the non-negative reals. */
  ghost predicate IsSqrt(sqrt: real -> real)
  {
    forall x: real {:trigger sqrt(x)} :: 0.0 <= x ==> 0.0 <= sqrt(x) && sqrt(x) * sqrt(x) == x
  }

  lemma MulPos(x: real, y: real)
    requires x > 0.0 && y > 0.0
    ensures x * y > 0.0
  {
  }

  lemma SquarePos(x: real)
    requires x != 0.0
    ensures x * x > 0.0
  {
  }

  lemma SquareNonNegative(h: real)
    ensures h * h >= 0.0
  {
    if h != 0.0 { SquarePos(h); }
  }

  /** A sum of two squares is non-negative, and positive unless both terms vanish. */
  lemma SumOfSquares(a: real, b: real)
    ensures a * a + b * b >= 0.0
    ensures a != 0.0 || b != 0.0 ==> a * a + b * b > 0.0
  {
    if a != 0.0 { SquarePos(a); }
    if b != 0.0 { SquarePos(b); }
  }

  /** Squaring is strictly monotone on the non-negative reals. */
  lemma SquareLess(a: real, b: real)
    requires 0.0 <= a && 0.0 <= b
    ensures a < b <==> a * a < b * b
  {
    assert b * b - a * a == (b - a) * (b + a);
    if a < b {
      MulPos(b - a, b + a);
    } else if a > b {
      MulPos(a - b, b + a);
    }
  }

  /** A product with a positive factor has the sign of the other factor. */
  lemma NonNegativeFactor(n: real, x: real, p: real)
    requires n > 0.0 && p >= 0.0 && p == n * x
    ensures x >= 0.0
  {
    if x < 0.0 {
      MulPos(n, -x);
      assert false;
    }
  }

  lemma QuotientTimes(x: real, p: real)
    requires p != 0.0
    ensures (x / p) * p == x
  {
  }

  lemma NonNegativeQuotient(s: real, n: real)
    requires s >= 0.0 && n > 0.0
    ensures s / n >= 0.0
  {
    QuotientTimes(s, n);
    NonNegativeFactor(n, s / n, s);
  }

  lemma SqrtMonotone(sqrt: real -> real, x: real, y: real)
    requires IsSqrt(sqrt)
    requires 0.0 <= x <= y
    ensures sqrt(x) <= sqrt(y)
  {
    SquareLess(sqrt(y), sqrt(x));
  }

  /** The root of a square of a non-negative number is that number. */
  lemma SqrtOfSquare(sqrt: real -> real, a: real)
    requires IsSqrt(sqrt)
    requires 0.0 <= a
    ensures sqrt(a * a) == a
  {
    var s := sqrt(a * a);
    assert 0.0 <= s && s * s == a * a;
    SquareLess(s, a);
    SquareLess(a, s);
  }

  /** A root is positive exactly when its argument is. */
  lemma SqrtPositive(sqrt: real -> real, x: real)
    requires IsSqrt(sqrt)
    requires 0.0 <= x
    ensures sqrt(x) > 0.0 <==> x > 0.0
  {
    SqrtOfSquare(sqrt, 0.0);
    SquareLess(0.0, sqrt(x));
  }

  /** Comparing a root against a bound without taking the root. */
  lemma SqrtBelowIff(sqrt: real -> real, x: real, c: real)
    requires IsSqrt(sqrt)
    requires 0.0 <= x
    ensures sqrt(x) < c <==> 0.0 < c && x < c * c
  {
    if 0.0 < c {
      SquareLess(sqrt(x), c);
    }
  }
}
