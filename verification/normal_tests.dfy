/** The normal-approximation confidence interval and p-value shared by
    Fleiss' and Cohen's kappa. The standard normal distribution function
    `cdf` and its inverse `cdfinv` are floating-point special functions and
    enter as parameters; only the domain error of `cdfinv` is modelled. */
module NormalTests {
  import opened Common

  /** `IllegalArgumentException("Argument out of range")` from `cdfinv`. */
  datatype TestError = ArgumentOutOfRange

  /** `cdfinv(level)`: Algorithm AS241 answers every level strictly between
      0 and 1 and rejects the rest. */
  function Quantile(cdfinv: real -> real, level: real): (z: Result<real, TestError>)
    ensures z.Success? <==> 0.0 < level < 1.0
    ensures z.Success? ==> z.value == cdfinv(level)
  {
    if 0.5 - 0.425 <= level <= 0.5 + 0.425 then Success(cdfinv(level))
    else
      var r := if level < 0.5 then level else 1.0 - level;
      if r <= 0.0 then Failure(ArgumentOutOfRange) else Success(cdfinv(level))
  }

  /** A quantile function that is non-negative from the median up. */
  ghost predicate UpperHalfNonNegative(cdfinv: real -> real)
  {
    forall x :: 0.5 <= x < 1.0 ==> cdfinv(x) >= 0.0
  }

  /** A distribution function with values in [0, 1]. */
  ghost predicate Probabilities(cdf: real -> real)
  {
    forall x :: 0.0 <= cdf(x) <= 1.0
  }

  ghost predicate NonDecreasing(cdf: real -> real)
  {
    forall x, y :: x <= y ==> cdf(x) <= cdf(y)
  }

  /** [max(-1, value - z·se), min(+1, value + z·se)]; undefined (NaN) bounds
      when the estimate or its standard error is. */
  function Clamped(value: Option<real>, se: Option<real>, z: real): (ci: (Option<real>, Option<real>))
    ensures ci.0.Some? <==> value.Some? && se.Some?
    ensures ci.1.Some? <==> value.Some? && se.Some?
    ensures ci.0.Some? ==> -1.0 <= ci.0.value
    ensures ci.1.Some? ==> ci.1.value <= 1.0
  {
    if value.None? || se.None? then (None, None)
    else (Some(MaxReal(-1.0, value.value - z * se.value)), Some(MinReal(1.0, value.value + z * se.value)))
  }

  /** With z·se ≥ 0 and an estimate in [-1, 1], the clamped interval lies in
      [-1, 1] and contains the estimate. */
  lemma ClampedContains(value: real, se: real, z: real)
    requires -1.0 <= value <= 1.0 && z * se >= 0.0
    ensures var ci := Clamped(Some(value), Some(se), z);
      -1.0 <= ci.0.value <= value <= ci.1.value <= 1.0
  {
  }

  /** The two-sided level 1 - (1 - p)/2 the interval is meant to use. */
  function TwoSided(p: real): (level: real)
    ensures 0.0 < p < 1.0 ==> 0.5 < level < 1.0
    ensures level - 0.5 == p / 2.0
  {
    1.0 - (1.0 - p) / 2.0
  }

  /** `confidenceInterval(p)` at a given quantile level. */
  function Interval(cdfinv: real -> real, value: Option<real>, se: Option<real>, level: real)
    : (r: Result<(Option<real>, Option<real>), TestError>)
    ensures r.Success? <==> 0.0 < level < 1.0
    ensures r.Success? ==> r.value == Clamped(value, se, cdfinv(level))
  {
    var z := Quantile(cdfinv, level);
    if z.Failure? then Failure(z.error) else Success(Clamped(value, se, z.value))
  }

  /** At the two-sided level of any 0 < p < 1, with a quantile function that
      is non-negative above the median, the interval succeeds and contains
      an estimate in [-1, 1]. */
  lemma IntervalContains(cdfinv: real -> real, value: real, se: real, p: real)
    requires UpperHalfNonNegative(cdfinv) && 0.0 < p < 1.0 && se >= 0.0 && -1.0 <= value <= 1.0
    ensures var r := Interval(cdfinv, Some(value), Some(se), TwoSided(p));
      r.Success? && -1.0 <= r.value.0.value <= value <= r.value.1.value <= 1.0
  {
    var z := cdfinv(TwoSided(p));
    assert z >= 0.0;
    assert z * se >= 0.0;
    ClampedContains(value, se, z);
  }

  /** `pValue(min)`: 1 - cdf((value - min)/se). A zero standard error sends
      z to an infinity, where `cdf` answers 0 or 1 without computing; a NaN
      z (undefined estimate, or 0/0) is undefined. */
  function UpperTail(cdf: real -> real, value: Option<real>, se: Option<real>, min: real): (p: Option<real>)
    ensures p.Some? ==> value.Some? && se.Some?
    ensures p.None? <==> value.None? || se.None? || (se.value == 0.0 && value.value == min)
  {
    if value.None? || se.None? then None
    else if se.value == 0.0 then
      (if value.value > min then Some(0.0) else if value.value < min then Some(1.0) else None)
    else Some(1.0 - cdf((value.value - min) / se.value))
  }

  /** The p-value is a probability. */
  lemma UpperTailProbability(cdf: real -> real, value: Option<real>, se: Option<real>, min: real)
    requires Probabilities(cdf)
    ensures var p := UpperTail(cdf, value, se, min);
      p.Some? ==> 0.0 <= p.value <= 1.0
  {
  }

  /** Raising the minimum never lowers the p-value when the standard error is
      positive and `cdf` is non-decreasing. */
  lemma UpperTailMonotone(cdf: real -> real, value: real, se: real, min: real, min': real)
    requires NonDecreasing(cdf) && se > 0.0 && min <= min'
    ensures UpperTail(cdf, Some(value), Some(se), min).value <= UpperTail(cdf, Some(value), Some(se), min').value
  {
    var x := (value - min) / se;
    var x' := (value - min') / se;
    assert (value - min') <= (value - min);
    DivideMonotone(value - min', value - min, se);
    assert cdf(x') <= cdf(x);
  }

  lemma DivideMonotone(a: real, b: real, d: real)
    requires a <= b && d > 0.0
    ensures a / d <= b / d
  {
  }
}
