/** The thermistor reading of main/ntc_driver/ntc_driver.c. Reals stand for C floats, and the natural
    logarithm is a parameter of which only monotonicity and one lower bound are used. */
module NtcSensor {
  import opened FirmwareTypes
  import opened FanCurve
  import opened FanDriver
  import opened ControlLaw

  const VCC := 3.3
  const R_FIXED := 10000.0
  const BETA := 3950.0
  const R0 := 10000.0
  const T0 := 298.15
  const OFFSET_C := -24.0

  /** Strictly increasing on the positive reals; at least -6 from the least ratio the guard accepts. */
  ghost predicate LogLike(ln: real -> real) {
    && (forall x, y | 0.0 < x < y :: ln(x) < ln(y))
    && (forall x | x >= 1.0 / 329.0 :: ln(x) >= -6.0)
  }

  function Vout(raw: int): real {
    raw as real / 4095.0 * VCC
  }

  predicate Accepted(raw: int) {
    !(Vout(raw) <= 0.01 || Vout(raw) >= VCC - 0.01)
  }

  function Resistance(raw: int): real
    requires Accepted(raw)
  {
    Vout(raw) * R_FIXED / (VCC - Vout(raw))
  }

  function InverseKelvin(raw: int, ln: real -> real): real
    requires Accepted(raw)
  {
    1.0 / T0 + 1.0 / BETA * ln(Resistance(raw) / R0)
  }

  ghost function ReadCelsius(raw: int, ln: real -> real): Temp
    requires LogLike(ln)
  {
    if Accepted(raw) then
      KelvinPositive(raw, ln);
      Celsius(1.0 / InverseKelvin(raw, ln) - 273.15 + OFFSET_C)
    else NaN
  }

  /** The voltage guard accepts exactly the readings 13 to 4082. */
  lemma GuardExactly(raw: int)
    ensures Accepted(raw) <==> 13 <= raw <= 4082
  {
  }

  /** Outside them, and only there, the reading is no number. */
  lemma NoReadingExactly(raw: int, ln: real -> real)
    requires LogLike(ln)
    ensures ReadCelsius(raw, ln).NaN? <==> raw <= 12 || raw >= 4083
  {
    GuardExactly(raw);
  }

  lemma QuotientsOrder(a: real, b: real, c: real, d: real)
    requires b > 0.0 && d > 0.0 && a * d < c * b
    ensures a / b < c / d
  {
  }

  lemma RatioOrder(raw: int, next: int)
    requires Accepted(raw) && Accepted(next) && raw < next
    ensures 0.0 < Resistance(raw) / R0 < Resistance(next) / R0
  {
    var v, w := Vout(raw), Vout(next);
    assert v < w;
    QuotientsOrder(v * R_FIXED, VCC - v, w * R_FIXED, VCC - w);
  }

  lemma RatioBound(raw: int)
    requires Accepted(raw)
    ensures Resistance(raw) > 0.0 && Resistance(raw) / R0 >= 1.0 / 329.0
  {
    var v := Vout(raw);
    QuotientsOrder(0.01 * R_FIXED, VCC - 0.01, v * R_FIXED, VCC - v);
    assert 0.01 * R_FIXED / (VCC - 0.01) / R0 == 1.0 / 329.0;
  }

  /** Inside the guard resistance and absolute temperature are positive, so both divisions are safe. */
  lemma KelvinPositive(raw: int, ln: real -> real)
    requires Accepted(raw) && LogLike(ln)
    ensures Resistance(raw) > 0.0 && VCC - Vout(raw) > 0.0
    ensures InverseKelvin(raw, ln) > 0.0 && 1.0 / InverseKelvin(raw, ln) > 0.0
  {
    RatioBound(raw);
    var l := ln(Resistance(raw) / R0);
    assert 1.0 / BETA * l >= 1.0 / BETA * -6.0;
  }

  /** The temperature falls strictly as the raw reading rises. */
  lemma ReadingAntitone(raw: int, next: int, ln: real -> real)
    requires LogLike(ln) && Accepted(raw) && Accepted(next) && raw < next
    ensures ReadCelsius(raw, ln).t > ReadCelsius(next, ln).t
  {
    RatioOrder(raw, next);
    KelvinPositive(raw, ln);
    KelvinPositive(next, ln);
    var x, y := InverseKelvin(raw, ln), InverseKelvin(next, ln);
    assert x < y;
    QuotientsOrder(1.0, y, 1.0, x);
  }

  /** From sensor to fan: for a fixed configuration, presence and minute, the duty never rises as the
      raw reading rises within the guard. */
  lemma DutyAntitoneInRaw(cfg: Config, raw: int, next: int, ln: real -> real, presence: bool, minute: int,
                          p: uint8, q: uint8, res: nat)
    requires LogLike(ln) && 13 <= raw <= next <= 4082 && res <= 25
    requires OutputDefined(cfg, ReadCelsius(raw, ln))
    requires OutputAllowed(cfg, Sensors(ReadCelsius(raw, ln), presence, minute), p)
    requires OutputAllowed(cfg, Sensors(ReadCelsius(next, ln), presence, minute), q)
    ensures q <= p && Duty(Clamp(q), res) <= Duty(Clamp(p), res)
  {
    GuardExactly(raw);
    GuardExactly(next);
    if raw < next {
      ReadingAntitone(raw, next, ln);
    }
    var t, u := ReadCelsius(raw, ln).t, ReadCelsius(next, ln).t;
    OutputMonotone(cfg, u, t, presence, minute, q, p);
    DutyMonotoneInTemperature(cfg, u, t, presence, minute, q, p, res);
  }

  // ------------------------------------------------------------ the circuit, in its numbers

  /** The divider: of 4095 steps, the reading is the share of the thermistor in the whole resistance. */
  lemma DividerLaw(raw: int)
    requires Accepted(raw)
    ensures raw as real * (10000.0 + Resistance(raw)) == 4095.0 * Resistance(raw)
  {
    var (v, r) := (Vout(raw), Resistance(raw));
    assert r * (VCC - v) == v * R_FIXED;
    assert v * 4095.0 == raw as real * VCC;
  }

  /** The Beta equation, for the reading 24 degrees above the reported one, in kelvin. */
  lemma BetaLaw(raw: int, ln: real -> real)
    requires Accepted(raw) && LogLike(ln)
    ensures var kelvin := ReadCelsius(raw, ln).t + 24.0 + 273.15;
      kelvin > 0.0 && 1.0 / kelvin == 1.0 / 298.15 + ln(Resistance(raw) / 10000.0) / 3950.0
  {
    KelvinPositive(raw, ln);
    Reciprocal(InverseKelvin(raw, ln));
  }

  lemma Reciprocal(x: real)
    requires x > 0.0
    ensures 1.0 / x > 0.0 && 1.0 / (1.0 / x) == x
  {
  }

  /** At half scale the thermistor is at its nominal 25 degrees, reported as 1. */
  lemma HalfScale(ln: real -> real)
    requires LogLike(ln) && ln(1.0) == 0.0
    ensures ReadCelsius(2048, ln).t < 1.0 < ReadCelsius(2047, ln).t
  {
    KelvinPositive(2047, ln);
    KelvinPositive(2048, ln);
    RatioBound(2047);
    assert Resistance(2047) / R0 < 1.0 < Resistance(2048) / R0;
    assert InverseKelvin(2047, ln) < 1.0 / 298.15 < InverseKelvin(2048, ln);
    QuotientsOrder(298.15, 1.0, 1.0, InverseKelvin(2047, ln));
    QuotientsOrder(1.0, InverseKelvin(2048, ln), 298.15, 1.0);
  }
}
