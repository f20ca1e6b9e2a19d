# Sampling-fraction estimator of `Spark::Helper::Statistic`

A Dafny model of the ruby-spark helper that turns a desired minimum sample
size into a per-element sampling fraction. `compute_fraction(lower_bound,
total, with_replacement)` works in one of two ways:

- With replacement, it takes a Poisson rate from `upper_poisson_bound`. That
  function adds 12, 9 or 6 square roots of the bound to the bound, depending
  on its size, and never returns less than `1e-10`. The rate is then divided
  by `total`.
- Without replacement, it inflates the naive fraction `lower_bound / total`
  with `upper_binomial_bound` and a fixed `delta = 0.00001`. That function
  inverts a Chernoff bound on the Binomial tail and clamps the result at 1.

The model has two files:

- `math.dfy` holds module `RubyMath`. It covers Ruby's `Math.sqrt` and
  `Math.log`, which the model keeps abstract. Every estimator function
  takes them as parameters `sqrt` and `log`.
  - `IsSqrt(sqrt)` says `sqrt` is the exact non-negative square root on
    `x >= 0`. The facts the proofs use are lemmas derived from it:
    `sqrt(0) = 0`, `sqrt(y*y) = y`, positivity, monotonicity, and bounds
    from squares.
  - `IsLog(log)` says only that `log(d) < 0` for `0 < d < 1`.
- `statistic.dfy` holds module `Statistic`. It contains the three functions
  of `lib/spark/helper/statistic.rb` over exact `real`s, and lemmas about
  them.

The preconditions restrict the model to the meaningful domain of the
estimator:

- `total > 0`: a population must be positive, and every division by it is
  unguarded.
- `bound >= 0`, `lower_bound >= 0` and `fraction >= 0`: these are counts and
  fractions of counts.
- `0 < delta < 1`: `delta` is a failure probability.

On some inputs outside this domain Ruby still returns a number. Examples
are listed under "## Left out".

Two properties one might expect of the estimator do not hold of the code.
The model states them only where they are true, and proves counterexamples
elsewhere:

- The fraction is not monotone in `lower_bound` when sampling with
  replacement. At the tier switch at 6, a bound of 5.99 needs a larger rate
  than a bound of 6. Within a tier, both the rate and the fraction are
  monotone. Without replacement the fraction is monotone in every case.
- With replacement the result is a rate, not a probability. For example,
  `compute_fraction(100, 100, true)` is 1.6.

## Model

| member | source | states |
|---|---|---|
| `RubyMath.SqrtOfSquare` | lib/spark/helper/statistic.rb:40 | the square root of `y*y` is `y` for `y >= 0`, which gives exact tier checks such as sqrt(16) = 4 |
| `RubyMath.SqrtZero` | lib/spark/helper/statistic.rb:40 | `Math.sqrt(0)` is 0, so a zero bound adds no standard deviations |
| `RubyMath.SqrtMonotone` | lib/spark/helper/statistic.rb:40 | square root does not decrease on the non-negative reals |
| `RubyMath.IsSqrt` | lib/spark/helper/statistic.rb:40 | what the model assumes of `Math.sqrt`: the exact non-negative square root on `x >= 0` |
| `RubyMath.IsLog` | lib/spark/helper/statistic.rb:44 | what the model assumes of `Math.log`: it is negative strictly between 0 and 1 |
| `Statistic.Max` | lib/spark/helper/statistic.rb:40 | `[a, b].max`: at least both arguments and equal to one of them |
| `Statistic.Min` | lib/spark/helper/statistic.rb:45 | `[a, b].min`: at most both arguments and equal to one of them |
| `Statistic.NumStd` | lib/spark/helper/statistic.rb:32-38 | the tier table: 12 exactly when `bound < 6`, 9 exactly when `6 <= bound < 16`, 6 exactly when `bound >= 16` |
| `Statistic.NumStdNonIncreasing` | lib/spark/helper/statistic.rb:32-38 | a larger bound never gets more standard deviations than a smaller one |
| `Statistic.UpperPoissonBound` | lib/spark/helper/statistic.rb:31-41 | the rate is never below `1e-10`, never below `bound`, and strictly above `bound` when `bound > 0` |
| `Statistic.PoissonTiers` | lib/spark/helper/statistic.rb:32-40 | the multiplier is 12 below 6, 9 on [6, 16) and 6 from 16 on; from 6 on the floor never applies |
| `Statistic.PoissonMargin` | lib/spark/helper/statistic.rb:40 | for `bound >= 1e-10`, where the floor is inactive, the rate minus `bound` is positive and its square is `num_std^2 * bound` (exactly `num_std` standard deviations `sqrt(bound)`) |
| `Statistic.PoissonBoundAtZero` | lib/spark/helper/statistic.rb:40 | a zero bound yields exactly the floor `1e-10`, not 0 |
| `Statistic.PoissonBoundTierExamples` | lib/spark/helper/statistic.rb:32-40 | values at the tier boundaries: 5 uses 12, 6 and 15 use 9, 16 gives 16 + 6*4 = 40, 100 gives 160 |
| `Statistic.PoissonMonotoneWithinTier` | lib/spark/helper/statistic.rb:31-41 | for two bounds in the same tier, the larger bound never gets the smaller rate |
| `Statistic.PoissonNotMonotoneAtSix` | lib/spark/helper/statistic.rb:32-40 | the rate for 6 is strictly below the rate for 5.99, so the rate is not monotone across tiers |
| `Statistic.Gamma` | lib/spark/helper/statistic.rb:44 | `gamma = -log(delta)/total` is strictly positive for `0 < delta < 1` and `total > 0` |
| `Statistic.Adjusted` | lib/spark/helper/statistic.rb:45 | the unclamped expression is at least `fraction + gamma` and solves `(a - fraction)^2 = 2*gamma*a`, so it is the larger root of that quadratic |
| `Statistic.UpperBinomialBound` | lib/spark/helper/statistic.rb:43-46 | the result lies in (0, 1]; it is strictly above `fraction` when `fraction < 1` (the "q > p" of the comment at line 10); it is exactly 1 when `fraction >= 1` |
| `Statistic.BinomialBoundSolvesChernoff` | lib/spark/helper/statistic.rb:16-18 | below the clamp, `q` solves `total*(q - fraction)^2 = -2*log(delta)*q`, i.e. `exp(-total*(q-p)^2/(2q)) = delta`, and is its larger root (`q >= fraction + gamma`) |
| `Statistic.BinomialClampThreshold` | lib/spark/helper/statistic.rb:44-45 | the clamp fires exactly when it must: the result is below 1 if and only if `fraction < 1` and `-2*log(delta) < total*(1 - fraction)^2` |
| `Statistic.BinomialMonotone` | lib/spark/helper/statistic.rb:43-46 | a larger naive fraction never gets a smaller inflated fraction |
| `Statistic.ComputeFraction` | lib/spark/helper/statistic.rb:20-29 | dispatch on the flag: Poisson bound of `lower_bound` divided by `total` with replacement; binomial bound with `delta = 0.00001` of `lower_bound/total` without. Always strictly positive. With replacement it is at least `lower_bound/total`. Without replacement it is at most 1, strictly above `lower_bound/total` when `lower_bound < total`, and exactly 1 otherwise |
| `Statistic.FractionWithoutReplacementMonotone` | lib/spark/helper/statistic.rb:25-27 | without replacement the fraction does not decrease as `lower_bound` grows |
| `Statistic.FractionWithReplacementMonotoneWithinTier` | lib/spark/helper/statistic.rb:23-24 | with replacement, for two lower bounds in the same tier, the larger one never gets the smaller fraction |
| `Statistic.FractionExampleWithReplacement` | lib/spark/helper/statistic.rb:23-24 | `compute_fraction(100, 10000, true)` is exactly 0.016 |
| `Statistic.FractionExampleAtZero` | lib/spark/helper/statistic.rb:23-24 | `compute_fraction(0, 1000, true)` is exactly `1e-13`: the floor spread over 1000 elements |
| `Statistic.FractionExampleWithoutReplacement` | lib/spark/helper/statistic.rb:25-27 | `compute_fraction(100, 10000, false)` lies strictly above 0.01 and at most 1 |
| `Statistic.FractionWithReplacementCanExceedOne` | lib/spark/helper/statistic.rb:23-24 | `compute_fraction(100, 100, true)` is 1.6: with replacement the result is not clamped to a probability |

## Left out

- `lib/spark/sql.rb` holds only `autoload` declarations and a constant alias, with no logic.
- The success-probability guarantee in the doc comment is left out. The comment promises a large enough sample 99.99% of the time, or with probability `1 - delta`. That is a statement about Poisson and Binomial tails and needs probability theory. The model proves only the algebraic side: the binomial bound solves the Chernoff equation.
- Floating point is not modelled. All arithmetic is over exact reals, so rounding, Infinity and NaN (for example when `total == 0`) are not captured. `total > 0` is a precondition instead.
- `Math.sqrt` and `Math.log` are parameters constrained by `IsSqrt` and `IsLog`; they are not implemented. Only the sign of `log` on (0, 1) is known, so the approximate value 0.016087 of `compute_fraction(100, 10000, false)` is not derived.
- FractionExampleWithoutReplacement: states only `0.01 < q <= 1`, not the numeric value near 0.016087, because that needs the value of `log(0.00001)`.
- The `to_f` coercion of `lower_bound` is left out. The model takes `lower_bound` as a `real` directly.
- Ruby's `[1, x].min` returns the Integer 1 rather than a Float when it clamps. The model does not tell the two apart; their numeric value is the same.
- Ruby raises when `Math.sqrt` gets a negative argument. The model does not treat this as an error path; it is excluded by the preconditions `bound >= 0` and `fraction >= 0`.
- The model excludes negative inputs on which Ruby still returns a value.
  - With replacement and `total < 0`, line 24 returns a negative rate: `(100, -100, true)` gives -1.6.
  - Without replacement, line 45 takes the square root of `gamma*gamma + 2*gamma*fraction`, which stays non-negative for `fraction >= -gamma/2`. So a slightly negative `lower_bound`, as in `(-1, 10000, false)`, returns a small number instead of raising.
  - `delta` outside (0, 1) can reach `upper_binomial_bound` only through a direct call, because `compute_fraction` always passes 0.00001 (line 27). Line 44 then does not give a positive `gamma`.
    - `upper_binomial_bound(1, 10, 0.5)` has `gamma = 0`, so it returns 0.5 with no inflation.
    - `upper_binomial_bound(Math::E, 1, 0.25)` has `gamma = -1` and radicand 0.5, so it returns about -0.043, a negative "probability".
  - These inputs are outside the domain of counts and populations, so the preconditions leave them out.
