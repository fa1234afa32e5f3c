/** The piecewise linear temperature curve of main/http_server.c. Reals stand for C floats. */
module FanCurve {
  import opened FirmwareTypes

  datatype Temp = NaN | Celsius(t: real)

  // C comparisons of a float with an integer: both are false on NaN.
  predicate AtMost(temp: Temp, k: int) {
    temp.Celsius? && temp.t <= k as real
  }

  predicate AtLeast(temp: Temp, k: int) {
    temp.Celsius? && temp.t >= k as real
  }

  /** The conversion to uint8_t truncates; the quotient it is given lies strictly between 0 and 100. */
  function Ramp(t: real, lo: int, hi: int): int
    requires lo < hi
  {
    ((t - lo as real) * 100.0 / (hi - lo) as real).Floor
  }

  /** On the ramp the conversion is defined unless the reading is NaN or the int difference overflows. */
  predicate RampDefined(temp: Temp, lo: int, hi: int) {
    temp.Celsius? && hi - lo <= INT32_MAX
  }

  /** The curve; where C leaves the conversion undefined the environment supplies the byte. */
  function Curve(temp: Temp, lo: int, hi: int, junk: uint8): (pwm: uint8)
    ensures CurveAllows(temp, lo, hi, pwm)
  {
    if hi <= lo then 100
    else if AtMost(temp, lo) then 0
    else if AtLeast(temp, hi) then 100
    else if RampDefined(temp, lo, hi) then
      RampBounds(temp.t, lo, hi);
      Ramp(temp.t, lo, hi)
    else junk
  }

  /** The bytes the curve may produce for a reading. */
  ghost predicate CurveAllows(temp: Temp, lo: int, hi: int, pwm: int) {
    && 0 <= pwm < 0x100
    && (hi <= lo ==> pwm == 100)
    && (lo < hi && AtMost(temp, lo) ==> pwm == 0)
    && (lo < hi && AtLeast(temp, hi) ==> pwm == 100)
    && (lo < hi && !AtMost(temp, lo) && !AtLeast(temp, hi) && RampDefined(temp, lo, hi)
        ==> pwm == Ramp(temp.t, lo, hi))
  }

  lemma RampBounds(t: real, lo: int, hi: int)
    requires lo < hi && lo as real < t < hi as real
    ensures 0 <= Ramp(t, lo, hi) < 100
  {
  }

  lemma QuotientBelow(x: real, w: real, k: real)
    requires w > 0.0
    ensures x / w < k <==> x < k * w
  {
  }

  lemma FloorAtLeast(x: real, p: int)
    ensures x.Floor >= p <==> x >= p as real
  {
  }

  /** Reaching p percent is one linear inequality. */
  ghost predicate Reaches(t: real, lo: int, hi: int, p: int) {
    100.0 * (t - lo as real) >= p as real * (hi - lo) as real
  }

  lemma Scaled(p: real, q: real, w: real)
    requires p <= q && w > 0.0
    ensures p * w <= q * w
  {
  }

  lemma Positive(p: real, w: real)
    requires p > 0.0 && w > 0.0
    ensures p * w > 0.0
  {
  }

  lemma RampReaches(t: real, lo: int, hi: int, p: int)
    requires lo < hi
    ensures Ramp(t, lo, hi) >= p <==> Reaches(t, lo, hi, p)
  {
    var (x, w) := ((t - lo as real) * 100.0, (hi - lo) as real);
    FloorAtLeast(x / w, p);
    QuotientBelow(x, w, p as real);
  }

  lemma BelowRamp(t: real, lo: int, hi: int, p: int)
    requires lo < hi && t <= lo as real && p >= 1
    ensures !Reaches(t, lo, hi, p)
  {
    var (x, w, q) := (100.0 * (t - lo as real), (hi - lo) as real, p as real);
    assert x <= 0.0;
    Positive(q, w);
    assert x < q * w;
  }

  lemma AboveRamp(t: real, lo: int, hi: int, p: int)
    requires lo < hi && t >= hi as real && p <= 100
    ensures Reaches(t, lo, hi, p)
  {
    var (x, w, q) := (100.0 * (t - lo as real), (hi - lo) as real, p as real);
    assert x >= 100.0 * w;
    Scaled(q, 100.0, w);
    assert x >= q * w;
  }

  lemma CurveReaches(t: real, lo: int, hi: int, pwm: int, p: int)
    requires lo < hi && hi - lo <= INT32_MAX && 1 <= p <= 100
    requires CurveAllows(Celsius(t), lo, hi, pwm)
    ensures pwm >= p <==> Reaches(t, lo, hi, p)
  {
    if t <= lo as real {
      BelowRamp(t, lo, hi, p);
    } else if t >= hi as real {
      AboveRamp(t, lo, hi, p);
    } else {
      RampReaches(t, lo, hi, p);
    }
  }

  ghost predicate ThresholdsOf(t: real, lo: int, hi: int, pwm: int) {
    0 <= pwm <= 100 && forall p | 1 <= p <= 100 :: pwm >= p <==> Reaches(t, lo, hi, p)
  }

  lemma ThresholdsOrder(t: real, lo: int, hi: int, c: int, d: int)
    requires ThresholdsOf(t, lo, hi, c) && ThresholdsOf(t, lo, hi, d)
    ensures c <= d
  {
    if c >= 1 {
      assert Reaches(t, lo, hi, c);
    }
  }

  /** Exact threshold law: the curve is the one number in 0..100 that passes p exactly when the
      inequality for p holds. */
  lemma ThresholdLaw(t: real, lo: int, hi: int, pwm: int)
    requires lo < hi && hi - lo <= INT32_MAX
    ensures CurveAllows(Celsius(t), lo, hi, pwm) <==> ThresholdsOf(t, lo, hi, pwm)
  {
    var c := Curve(Celsius(t), lo, hi, 0);
    CurveBounded(Celsius(t), lo, hi, c);
    forall p | 1 <= p <= 100 ensures c >= p <==> Reaches(t, lo, hi, p) {
      CurveReaches(t, lo, hi, c, p);
    }
    if ThresholdsOf(t, lo, hi, pwm) {
      ThresholdsOrder(t, lo, hi, c, pwm);
      ThresholdsOrder(t, lo, hi, pwm, c);
    }
  }

  /** The output for a reading t: full speed for thresholds that do not rise, and otherwise as many percent
      of the way from lo to hi as t has come, rounded down. */
  ghost predicate Graded(t: real, lo: int, hi: int, pwm: int) {
    if hi <= lo then pwm == 100 else ThresholdsOf(t, lo, hi, pwm)
  }

  lemma CurveGraded(t: real, lo: int, hi: int, pwm: int)
    requires hi - lo <= INT32_MAX
    ensures CurveAllows(Celsius(t), lo, hi, pwm) <==> Graded(t, lo, hi, pwm)
  {
    if lo < hi { ThresholdLaw(t, lo, hi, pwm); }
  }

  /** Where the conversion is not reached, the curve is defined for every reading and every width. */
  lemma OffTheRamp(temp: Temp, lo: int, hi: int, pwm: int)
    ensures hi <= lo ==> (CurveAllows(temp, lo, hi, pwm) <==> pwm == 100)
    ensures lo < hi && temp.Celsius? && temp.t <= lo as real ==> (CurveAllows(temp, lo, hi, pwm) <==> pwm == 0)
    ensures lo < hi && temp.Celsius? && temp.t >= hi as real ==> (CurveAllows(temp, lo, hi, pwm) <==> pwm == 100)
  {
  }

  /** The default thresholds, 24 and 28 degrees. */
  lemma DefaultLandmarks(pwm: int)
    ensures Graded(24.0, 24, 28, pwm) <==> pwm == 0
    ensures Graded(26.0, 24, 28, pwm) <==> pwm == 50
    ensures Graded(27.99, 24, 28, pwm) <==> pwm == 99
    ensures Graded(28.0, 24, 28, pwm) <==> pwm == 100
  {
    CurveGraded(24.0, 24, 28, pwm);
    CurveGraded(26.0, 24, 28, pwm);
    CurveGraded(27.99, 24, 28, pwm);
    CurveGraded(28.0, 24, 28, pwm);
  }

  lemma CurveBounded(temp: Temp, lo: int, hi: int, pwm: int)
    requires RampDefined(temp, lo, hi) && CurveAllows(temp, lo, hi, pwm)
    ensures 0 <= pwm <= 100
    ensures lo < hi && temp.t < hi as real ==> pwm < 100
  {
  }

  lemma CurveMonotone(t: real, u: real, lo: int, hi: int, p: int, q: int)
    requires t <= u && hi - lo <= INT32_MAX
    requires CurveAllows(Celsius(t), lo, hi, p) && CurveAllows(Celsius(u), lo, hi, q)
    ensures p <= q
  {
    CurveBounded(Celsius(t), lo, hi, p);
    CurveBounded(Celsius(u), lo, hi, q);
    if lo < hi && p >= 1 {
      CurveReaches(t, lo, hi, p, p);
      CurveReaches(u, lo, hi, q, p);
    }
  }

  ghost predicate NonDecreasing(lo: int, hi: int) {
    forall t: real, u: real, p, q ::
      t <= u && CurveAllows(Celsius(t), lo, hi, p) && CurveAllows(Celsius(u), lo, hi, q) ==> p <= q
  }

  /** Monotone in temperature, across all branch boundaries, exactly when the width fits an int. */
  lemma MonotoneExactly(lo: int, hi: int)
    ensures NonDecreasing(lo, hi) <==> hi - lo <= INT32_MAX
  {
    if hi - lo <= INT32_MAX {
      forall t: real, u: real, p, q |
        t <= u && CurveAllows(Celsius(t), lo, hi, p) && CurveAllows(Celsius(u), lo, hi, q)
        ensures p <= q
      {
        CurveMonotone(t, u, lo, hi, p, q);
      }
    } else {
      var t := lo as real + 1.0;
      assert CurveAllows(Celsius(t), lo, hi, 1) && CurveAllows(Celsius(t), lo, hi, 0);
    }
  }
}
