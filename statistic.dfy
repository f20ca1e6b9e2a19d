/**
 The sampling-fraction estimator of `Spark::Helper::Statistic`: it turns a
 desired minimum sample size into a per-element inclusion probability, using
 a tiered normal approximation to the Poisson tail (sampling with replacement)
 or a Chernoff-style inversion of the Binomial tail (sampling without
 replacement).  Everything is computed over exact reals; `sqrt` and `log`
 stand for Ruby's `Math.sqrt` and `Math.log`.
 */
module Statistic {
  import opened RubyMath

  /** The failure probability hard-wired into the without-replacement path. */
  const Delta: real := 0.00001

  /** The positive floor under every Poisson rate. */
  const RateFloor: real := 1e-10

  /** `[a, b].max` */
  function Max(a: real, b: real): (m: real)
    ensures a <= m && b <= m
    ensures m == a || m == b
  {
    if a < b then b else a
  }

  /** `[a, b].min` */
  function Min(a: real, b: real): (m: real)
    ensures m <= a && m <= b
    ensures m == a || m == b
  {
    if b < a then b else a
  }

  /** The number of standard deviations added to `bound`, by tier. */
  function NumStd(bound: real): (k: real)
    ensures bound < 6.0 <==> k == 12.0
    ensures 6.0 <= bound < 16.0 <==> k == 9.0
    ensures 16.0 <= bound <==> k == 6.0
  {
    if bound < 6.0 then 12.0
    else if bound < 16.0 then 9.0
    else 6.0
  }

  /** Larger bounds never get more standard deviations than smaller ones. */
  lemma NumStdNonIncreasing(b1: real, b2: real)
    requires b1 <= b2
    ensures NumStd(b2) <= NumStd(b1)
  {
  }

  // --------------------------------------------------------------------
  // upper_poisson_bound
  // --------------------------------------------------------------------

  /**
   An upper bound on the Poisson rate needed to draw at least `bound`
   elements: `bound` plus `NumStd(bound)` square roots of `bound`, never
   below `RateFloor`.
   */
  function UpperPoissonBound(sqrt: real -> real, bound: real): (rate: real)
    requires IsSqrt(sqrt)
    requires 0.0 <= bound
    ensures RateFloor <= rate
    ensures bound <= rate
    ensures 0.0 < bound ==> bound < rate
  {
    Max(bound + NumStd(bound) * sqrt(bound), RateFloor)
  }

  /** The multiplier is 12 below 6, 9 from 6 up to 16, and 6 from 16 on. */
  lemma PoissonTiers(sqrt: real -> real, bound: real)
    requires IsSqrt(sqrt)
    requires 0.0 <= bound
    ensures bound < 6.0 ==>
              UpperPoissonBound(sqrt, bound) == Max(bound + 12.0 * sqrt(bound), RateFloor)
    ensures 6.0 <= bound < 16.0 ==>
              UpperPoissonBound(sqrt, bound) == bound + 9.0 * sqrt(bound)
    ensures 16.0 <= bound ==>
              UpperPoissonBound(sqrt, bound) == bound + 6.0 * sqrt(bound)
  {
  }

  /**
   For `bound >= RateFloor`, where the floor is inactive, the rate lies exactly `NumStd(bound)`
   standard deviations `sqrt(bound)` above `bound`: the margin squared is
   `NumStd(bound)^2 * bound`.  No square root appears in the conclusion.
   */
  lemma PoissonMargin(sqrt: real -> real, bound: real)
    requires IsSqrt(sqrt)
    requires RateFloor <= bound
    ensures var margin := UpperPoissonBound(sqrt, bound) - bound;
            0.0 < margin && margin * margin == NumStd(bound) * NumStd(bound) * bound
  {
    var k, s := NumStd(bound), sqrt(bound);
    SqrtPositive(sqrt, bound);
    assert UpperPoissonBound(sqrt, bound) - bound == k * s;
    assert (k * s) * (k * s) == k * k * (s * s);
  }

  /** A zero bound gives exactly the floor. */
  lemma PoissonBoundAtZero(sqrt: real -> real)
    requires IsSqrt(sqrt)
    ensures UpperPoissonBound(sqrt, 0.0) == RateFloor
  {
    SqrtZero(sqrt);
  }

  /** The literal values at the tier boundaries 5 | 6 and 15 | 16. */
  lemma PoissonBoundTierExamples(sqrt: real -> real)
    requires IsSqrt(sqrt)
    ensures UpperPoissonBound(sqrt, 5.0) == 5.0 + 12.0 * sqrt(5.0)
    ensures UpperPoissonBound(sqrt, 6.0) == 6.0 + 9.0 * sqrt(6.0)
    ensures UpperPoissonBound(sqrt, 15.0) == 15.0 + 9.0 * sqrt(15.0)
    ensures UpperPoissonBound(sqrt, 16.0) == 40.0
    ensures UpperPoissonBound(sqrt, 100.0) == 160.0
  {
    SqrtOfSquare(sqrt, 4.0);
    assert sqrt(16.0) == 4.0;
    SqrtOfSquare(sqrt, 10.0);
    assert sqrt(100.0) == 10.0;
  }

  /** Inside one tier the rate does not decrease as `bound` grows. */
  lemma PoissonMonotoneWithinTier(sqrt: real -> real, b1: real, b2: real)
    requires IsSqrt(sqrt)
    requires 0.0 <= b1 <= b2
    requires NumStd(b1) == NumStd(b2)
    ensures UpperPoissonBound(sqrt, b1) <= UpperPoissonBound(sqrt, b2)
  {
    SqrtMonotone(sqrt, b1, b2);
  }

  /**
   Across the tier boundary at 6 the rate drops: a bound just below 6 asks
   for a larger rate than 6 itself, so the rate is not monotone in `bound`.
   */
  lemma PoissonNotMonotoneAtSix(sqrt: real -> real)
    requires IsSqrt(sqrt)
    ensures UpperPoissonBound(sqrt, 6.0) < UpperPoissonBound(sqrt, 5.99)
  {
    SqrtAbove(sqrt, 5.99, 2.4);
    SqrtBelow(sqrt, 6.0, 2.5);
  }

  // --------------------------------------------------------------------
  // upper_binomial_bound
  // --------------------------------------------------------------------

  /** `-log(delta) / total`, positive for every admissible `delta` and `total`. */
  function Gamma(log: real -> real, delta: real, total: real): (gamma: real)
    requires IsLog(log)
    requires 0.0 < delta < 1.0 && 0.0 < total
    ensures 0.0 < gamma
  {
    -log(delta) / total
  }

  /** The argument of the square root in the binomial bound. */
  function Radicand(gamma: real, fraction: real): (r: real)
  {
    gamma * gamma + 2.0 * gamma * fraction
  }

  /** The radicand is non-negative and grows with `fraction`. */
  lemma RadicandMonotone(gamma: real, f1: real, f2: real)
    requires 0.0 < gamma && 0.0 <= f1 <= f2
    ensures 0.0 <= Radicand(gamma, f1) <= Radicand(gamma, f2)
  {
    var d := f2 - f1;
    assert 0.0 <= gamma * d;
    assert 0.0 <= gamma * f1;
    assert 0.0 <= gamma * gamma;
    assert Radicand(gamma, f2) == Radicand(gamma, f1) + 2.0 * (gamma * d);
  }

  /**
   With `s` a square root of the radicand, `fraction + gamma + s` solves
   `(a - fraction)^2 == 2 * gamma * a`.
   */
  lemma LargerRootAlgebra(gamma: real, fraction: real, s: real)
    requires s * s == Radicand(gamma, fraction)
    ensures var a := fraction + gamma + s;
            (a - fraction) * (a - fraction) == 2.0 * gamma * a
  {
    var a := fraction + gamma + s;
    assert (a - fraction) * (a - fraction) == (gamma + s) * (gamma + s);
    assert (gamma + s) * (gamma + s) == gamma * gamma + 2.0 * gamma * s + s * s;
  }

  /**
   The inflated fraction before it is clamped at 1: the larger root of
   `(a - fraction)^2 == 2 * gamma * a`, the one at or above `fraction + gamma`.
   */
  function Adjusted(sqrt: real -> real, gamma: real, fraction: real): (a: real)
    requires IsSqrt(sqrt)
    requires 0.0 < gamma && 0.0 <= fraction
    ensures fraction + gamma <= a
    ensures (a - fraction) * (a - fraction) == 2.0 * gamma * a
  {
    RadicandMonotone(gamma, fraction, fraction);
    LargerRootAlgebra(gamma, fraction, sqrt(Radicand(gamma, fraction)));
    fraction + gamma + sqrt(Radicand(gamma, fraction))
  }

  /**
   An inflated sampling fraction `q` such that drawing each of `total`
   elements with probability `q` reaches `fraction * total` elements with
   probability at least `1 - delta`; a probability, so at most 1.
   */
  function UpperBinomialBound(sqrt: real -> real, log: real -> real,
                              delta: real, total: real, fraction: real): (q: real)
    requires IsSqrt(sqrt) && IsLog(log)
    requires 0.0 < delta < 1.0 && 0.0 < total
    requires 0.0 <= fraction
    ensures 0.0 < q <= 1.0
    ensures fraction < 1.0 ==> fraction < q
    ensures 1.0 <= fraction ==> q == 1.0
  {
    var gamma := Gamma(log, delta, total);
    assert 0.0 <= Radicand(gamma, fraction);
    Min(1.0, Adjusted(sqrt, gamma, fraction))
  }

  /**
   Below the clamp, `q` solves the Chernoff equation
   `total * (q - fraction)^2 == -2 * log(delta) * q`, that is,
   `exp(-total * (q - p)^2 / (2 * q)) == delta` for `p = fraction`, and it is
   the larger of its two roots (at least `fraction + gamma`).
   */
  lemma BinomialBoundSolvesChernoff(sqrt: real -> real, log: real -> real,
                                    delta: real, total: real, fraction: real)
    requires IsSqrt(sqrt) && IsLog(log)
    requires 0.0 < delta < 1.0 && 0.0 < total
    requires 0.0 <= fraction
    ensures var q := UpperBinomialBound(sqrt, log, delta, total, fraction);
            q < 1.0 ==>
              && total * (q - fraction) * (q - fraction) == -2.0 * log(delta) * q
              && fraction - log(delta) / total <= q
  {
    var gamma := Gamma(log, delta, total);
    var q := UpperBinomialBound(sqrt, log, delta, total, fraction);
    if q < 1.0 {
      assert q == Adjusted(sqrt, gamma, fraction);
      assert (q - fraction) * (q - fraction) == 2.0 * gamma * q;
      assert total * gamma == -log(delta);
      calc {
        total * (q - fraction) * (q - fraction);
        total * ((q - fraction) * (q - fraction));
        total * (2.0 * gamma * q);
        2.0 * (total * gamma) * q;
        -2.0 * log(delta) * q;
      }
    }
  }

  /** A positive factor keeps the sign of what it multiplies. */
  lemma PositiveFactor(t: real, x: real)
    requires 0.0 < t
    ensures 0.0 < t * x <==> 0.0 < x
  {
    if 0.0 < x {
      assert 0.0 < t * x;
    } else {
      assert t * x <= 0.0;
    }
  }

  /**
   The algebra behind the clamp: for `s` the non-negative square root of the
   radicand, `fraction + gamma + s` is below 1 exactly when `fraction` is below 1
   and `2 * gamma` is below `(1 - fraction)^2`.
   */
  lemma ClampAlgebra(gamma: real, fraction: real, s: real)
    requires 0.0 < gamma && 0.0 <= fraction
    requires 0.0 <= s && s * s == Radicand(gamma, fraction)
    ensures fraction + gamma + s < 1.0 <==>
            fraction < 1.0 && 2.0 * gamma < (1.0 - fraction) * (1.0 - fraction)
  {
    var r := Radicand(gamma, fraction);
    var u := 1.0 - fraction;
    var c := u - gamma;
    assert c * c == r + (u * u - 2.0 * gamma);
    if fraction < 1.0 && 2.0 * gamma < u * u {
      if u < 1.0 {
        ScaleBelow(u, u);
      }
      assert u * u <= u;
      assert 0.0 < c;
      assert r < c * c;
      if c <= s {
        if c < s {
          SquareStrict(c, s);
        }
      }
    }
    if s < c {
      SquareStrict(s, c);
    }
  }

  /**
   The clamp fires exactly when it must: the bound stays below 1 if and only
   if the naive fraction is below 1 and `-2 * log(delta)` is below
   `total * (1 - fraction)^2`, that is, 1 lies beyond the larger Chernoff root.
   */
  lemma BinomialClampThreshold(sqrt: real -> real, log: real -> real,
                               delta: real, total: real, fraction: real)
    requires IsSqrt(sqrt) && IsLog(log)
    requires 0.0 < delta < 1.0 && 0.0 < total
    requires 0.0 <= fraction
    ensures UpperBinomialBound(sqrt, log, delta, total, fraction) < 1.0 <==>
            fraction < 1.0 && -2.0 * log(delta) < total * (1.0 - fraction) * (1.0 - fraction)
  {
    var gamma := Gamma(log, delta, total);
    RadicandMonotone(gamma, fraction, fraction);
    var s := sqrt(Radicand(gamma, fraction));
    assert Adjusted(sqrt, gamma, fraction) == fraction + gamma + s;
    ClampAlgebra(gamma, fraction, s);
    var u := 1.0 - fraction;
    assert total * gamma == -log(delta);
    assert total * (u * u - 2.0 * gamma) == total * u * u + 2.0 * log(delta);
    PositiveFactor(total, u * u - 2.0 * gamma);
  }

  /** The inflated fraction does not decrease as the naive fraction grows. */
  lemma BinomialMonotone(sqrt: real -> real, log: real -> real,
                         delta: real, total: real, f1: real, f2: real)
    requires IsSqrt(sqrt) && IsLog(log)
    requires 0.0 < delta < 1.0 && 0.0 < total
    requires 0.0 <= f1 <= f2
    ensures UpperBinomialBound(sqrt, log, delta, total, f1)
            <= UpperBinomialBound(sqrt, log, delta, total, f2)
  {
    var gamma := Gamma(log, delta, total);
    RadicandMonotone(gamma, f1, f2);
    SqrtMonotone(sqrt, Radicand(gamma, f1), Radicand(gamma, f2));
    assert Adjusted(sqrt, gamma, f1) <= Adjusted(sqrt, gamma, f2);
  }

  // --------------------------------------------------------------------
  // compute_fraction
  // --------------------------------------------------------------------

  /** Dividing by a positive `total` preserves order. */
  lemma QuotientMonotone(a: real, b: real, total: real)
    requires 0.0 < total && a <= b
    ensures a / total <= b / total
  {
    Quotient(b - a, total);
    assert b / total - a / total == (b - a) / total;
  }

  /** Scaling a positive `t` by a factor of at least 1 does not shrink it. */
  lemma ScaleAtLeast(f: real, t: real)
    requires 1.0 <= f && 0.0 < t
    ensures t <= f * t
  {
    var d := f - 1.0;
    assert 0.0 <= d * t;
    assert f * t == t + d * t;
  }

  /** Scaling a positive `t` by a factor below 1 shrinks it. */
  lemma ScaleBelow(f: real, t: real)
    requires f < 1.0 && 0.0 < t
    ensures f * t < t
  {
    var d := 1.0 - f;
    assert 0.0 < d * t;
    assert f * t == t - d * t;
  }

  /** Dividing by a positive `total` scales back, and compares with 1 as `a` with `total`. */
  lemma Quotient(a: real, total: real)
    requires 0.0 < total
    ensures (a / total) * total == a
    ensures a / total < 1.0 <==> a < total
    ensures 0.0 < a ==> 0.0 < a / total
    ensures 0.0 <= a ==> 0.0 <= a / total
  {
    var f := a / total;
    if f < 1.0 {
      ScaleBelow(f, total);
    } else {
      ScaleAtLeast(f, total);
    }
  }

  /**
   The sampling fraction for drawing at least `lowerBound` of `total`
   elements: the Poisson rate per element with replacement, the Binomial
   bound on `lowerBound / total` with `Delta` without replacement.  It is
   always positive; without replacement it is a probability above the naive
   fraction, or exactly 1 when `lowerBound` reaches `total`; with replacement
   the expected count `fraction * total` is at least `lowerBound`.
   */
  function ComputeFraction(sqrt: real -> real, log: real -> real,
                           lowerBound: real, total: real, withReplacement: bool): (q: real)
    requires IsSqrt(sqrt) && IsLog(log)
    requires 0.0 < total && 0.0 <= lowerBound
    ensures 0.0 < q
    ensures withReplacement ==> q == UpperPoissonBound(sqrt, lowerBound) / total
    ensures withReplacement ==> lowerBound / total <= q
    ensures !withReplacement ==>
              q == UpperBinomialBound(sqrt, log, Delta, total, lowerBound / total)
    ensures !withReplacement ==> q <= 1.0
    ensures !withReplacement && lowerBound < total ==> lowerBound / total < q
    ensures !withReplacement && total <= lowerBound ==> q == 1.0
  {
    if withReplacement then
      var rate := UpperPoissonBound(sqrt, lowerBound);
      Quotient(rate, total);
      QuotientMonotone(lowerBound, rate, total);
      rate / total
    else
      var fraction := lowerBound / total;
      Quotient(lowerBound, total);
      UpperBinomialBound(sqrt, log, Delta, total, fraction)
  }

  /** Without replacement the fraction does not decrease as `lowerBound` grows. */
  lemma FractionWithoutReplacementMonotone(sqrt: real -> real, log: real -> real,
                                           lb1: real, lb2: real, total: real)
    requires IsSqrt(sqrt) && IsLog(log)
    requires 0.0 < total && 0.0 <= lb1 <= lb2
    ensures ComputeFraction(sqrt, log, lb1, total, false)
            <= ComputeFraction(sqrt, log, lb2, total, false)
  {
    QuotientMonotone(lb1, lb2, total);
    BinomialMonotone(sqrt, log, Delta, total, lb1 / total, lb2 / total);
  }

  /** With replacement, inside one tier the fraction does not decrease as `lowerBound` grows. */
  lemma FractionWithReplacementMonotoneWithinTier(sqrt: real -> real, log: real -> real,
                                                  lb1: real, lb2: real, total: real)
    requires IsSqrt(sqrt) && IsLog(log)
    requires 0.0 < total && 0.0 <= lb1 <= lb2
    requires NumStd(lb1) == NumStd(lb2)
    ensures ComputeFraction(sqrt, log, lb1, total, true)
            <= ComputeFraction(sqrt, log, lb2, total, true)
  {
    PoissonMonotoneWithinTier(sqrt, lb1, lb2);
    QuotientMonotone(UpperPoissonBound(sqrt, lb1), UpperPoissonBound(sqrt, lb2), total);
  }

  /** `compute_fraction(100, 10000, true)` is `160 / 10000`. */
  lemma FractionExampleWithReplacement(sqrt: real -> real, log: real -> real)
    requires IsSqrt(sqrt) && IsLog(log)
    ensures ComputeFraction(sqrt, log, 100.0, 10000.0, true) == 0.016
  {
    PoissonBoundTierExamples(sqrt);
  }

  /** `compute_fraction(0, 1000, true)` is the floor spread over 1000 elements. */
  lemma FractionExampleAtZero(sqrt: real -> real, log: real -> real)
    requires IsSqrt(sqrt) && IsLog(log)
    ensures ComputeFraction(sqrt, log, 0.0, 1000.0, true) == 1e-13
  {
    PoissonBoundAtZero(sqrt);
  }

  /** `compute_fraction(100, 10000, false)` inflates the naive 0.01 and stays a probability. */
  lemma FractionExampleWithoutReplacement(sqrt: real -> real, log: real -> real)
    requires IsSqrt(sqrt) && IsLog(log)
    ensures 0.01 < ComputeFraction(sqrt, log, 100.0, 10000.0, false) <= 1.0
  {
    assert 100.0 / 10000.0 == 0.01;
  }

  /** With replacement the result is a rate, not a probability: it can exceed 1. */
  lemma FractionWithReplacementCanExceedOne(sqrt: real -> real, log: real -> real)
    requires IsSqrt(sqrt) && IsLog(log)
    ensures ComputeFraction(sqrt, log, 100.0, 100.0, true) == 1.6
  {
    PoissonBoundTierExamples(sqrt);
  }
}
