/**
 The two functions of Ruby's `Math` module that the sampling-fraction
 estimator calls, `Math.sqrt` and `Math.log`.  They are not defined here:
 every member of the estimator takes them as parameters, and these
 predicates say what the estimator relies on about them, over exact reals.
 */
module RubyMath {

  /** `sqrt` is the exact non-negative square root on the non-negative reals. */
  ghost predicate IsSqrt(sqrt: real -> real) {
    forall x :: 0.0 <= x ==> 0.0 <= sqrt(x) && sqrt(x) * sqrt(x) == x
  }

  /** `log` is negative strictly between 0 and 1, as the natural logarithm is. */
  ghost predicate IsLog(log: real -> real) {
    forall d :: 0.0 < d < 1.0 ==> log(d) < 0.0
  }

  /** Squaring is strictly increasing on the non-negative reals. */
  lemma SquareStrict(a: real, b: real)
    requires 0.0 <= a < b
    ensures a * a < b * b
  {
    var aa, ab, bb := a * a, a * b, b * b;
    assert aa <= ab;
    assert ab < bb;
  }

  /** Two non-negative reals with the same square are equal. */
  lemma SquareInjective(a: real, b: real)
    requires 0.0 <= a && 0.0 <= b && a * a == b * b
    ensures a == b
  {
    if a < b {
      SquareStrict(a, b);
    } else if b < a {
      SquareStrict(b, a);
    }
  }

  /** The square root of a square is the non-negative base. */
  lemma SqrtOfSquare(sqrt: real -> real, y: real)
    requires IsSqrt(sqrt)
    requires 0.0 <= y
    ensures sqrt(y * y) == y
  {
    SquareInjective(sqrt(y * y), y);
  }

  lemma SqrtZero(sqrt: real -> real)
    requires IsSqrt(sqrt)
    ensures sqrt(0.0) == 0.0
  {
    SqrtOfSquare(sqrt, 0.0);
  }

  /** The square root of a positive number is positive. */
  lemma SqrtPositive(sqrt: real -> real, x: real)
    requires IsSqrt(sqrt)
    requires 0.0 < x
    ensures 0.0 < sqrt(x)
  {
  }

  /** Square root is non-decreasing on the non-negative reals. */
  lemma SqrtMonotone(sqrt: real -> real, x: real, y: real)
    requires IsSqrt(sqrt)
    requires 0.0 <= x <= y
    ensures sqrt(x) <= sqrt(y)
  {
    if sqrt(y) < sqrt(x) {
      SquareStrict(sqrt(y), sqrt(x));
    }
  }

  /** A non-negative number whose square lies below `x` lies below `sqrt(x)`. */
  lemma SqrtAbove(sqrt: real -> real, x: real, c: real)
    requires IsSqrt(sqrt)
    requires 0.0 <= c && c * c < x
    ensures c < sqrt(x)
  {
    if sqrt(x) < c {
      SquareStrict(sqrt(x), c);
    }
  }

  /** A non-negative number whose square lies above `x` lies above `sqrt(x)`. */
  lemma SqrtBelow(sqrt: real -> real, x: real, c: real)
    requires IsSqrt(sqrt)
    requires 0.0 <= c && 0.0 <= x < c * c
    ensures sqrt(x) < c
  {
    if c < sqrt(x) {
      SquareStrict(c, sqrt(x));
    }
  }
}
