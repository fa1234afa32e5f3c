/** What one control iteration may output, as a relation over configuration and sensor readings. */
module ControlLaw {
  import opened FirmwareTypes
  import opened FanCurve
  import opened FanDriver
  import opened Schedule

  datatype Config = Config(mode: uint8, manualPwm: uint8, tmin: int32, tmax: int32, slots: seq<Slot>)

  datatype Sensors = Sensors(temp: Temp, presence: bool, minute: int)

  ghost predicate OutputAllowed(cfg: Config, env: Sensors, pwm: int) {
    match cfg.mode
    case 0 => pwm == cfg.manualPwm
    case 1 => if env.presence then CurveAllows(env.temp, cfg.tmin, cfg.tmax, pwm) else pwm == 0
    case 2 => if env.presence then ScheduleAllows(cfg.slots, env, pwm) else pwm == 0
    case _ => pwm == 0
  }

  /** Program mode: the curve of the winning slot, or 0 in an uncovered minute. */
  ghost predicate ScheduleAllows(slots: seq<Slot>, env: Sensors, pwm: int) {
    && (forall i | Wins(slots, i, env.minute) :: CurveAllows(env.temp, slots[i].t0, slots[i].t100, pwm))
    && (Uncovered(slots, env.minute) ==> pwm == 0)
  }

  // ------------------------------------------------------------ the schedule on the circle

  predicate ArcHolds(s: Slot, minute: int) {
    s.active != 0 && OnArc(StartMin(s), EndMin(s), minute)
  }

  ghost predicate FirstArc(slots: seq<Slot>, i: int, minute: int) {
    0 <= i < |slots| && ArcHolds(slots[i], minute) && forall j | 0 <= j < i :: !ArcHolds(slots[j], minute)
  }

  /** The mathematical schedule: arcs of the 1440-minute circle, earliest slot first. */
  ghost predicate CircleAllows(slots: seq<Slot>, env: Sensors, pwm: int) {
    && (forall i | FirstArc(slots, i, env.minute) :: CurveAllows(env.temp, slots[i].t0, slots[i].t100, pwm))
    && ((forall j | 0 <= j < |slots| :: !ArcHolds(slots[j], env.minute)) ==> pwm == 0)
  }

  lemma ScheduleRefinesCircle(slots: seq<Slot>, env: Sensors, pwm: int)
    requires InDay(env.minute) && forall s | s in slots :: WellFormed(s)
    ensures ScheduleAllows(slots, env, pwm) <==> CircleAllows(slots, env, pwm)
  {
    forall j | 0 <= j < |slots| ensures Covers(slots[j], env.minute) <==> ArcHolds(slots[j], env.minute) {
      SlotIsArc(slots[j], env.minute);
    }
    assert forall i :: Wins(slots, i, env.minute) <==> FirstArc(slots, i, env.minute);
  }

  lemma ScheduleByScheduled(slots: seq<Slot>, env: Sensors, pwm: int)
    ensures ScheduleAllows(slots, env, pwm)
      <==> match Scheduled(slots, env.minute)
           case Some(s) => CurveAllows(env.temp, s.t0, s.t100, pwm)
           case None => pwm == 0
  {
    ScheduledIsLeastIndex(slots, env.minute);
    forall i | Wins(slots, i, env.minute) ensures Scheduled(slots, env.minute) == Some(slots[i]) {
      WinnerIsScheduled(slots, i, env.minute);
    }
  }

  /** The output does not depend on inactive slots, nor on slots after the winner. */
  lemma OutputIgnoresOtherSlots(slots: seq<Slot>, env: Sensors, pwm: int, i: nat, k: nat, s: Slot)
    ensures ScheduleAllows(ActiveOnly(slots), env, pwm) <==> ScheduleAllows(slots, env, pwm)
    ensures i < k < |slots| && Wins(slots, i, env.minute)
      ==> (ScheduleAllows(slots[k := s], env, pwm) <==> ScheduleAllows(slots, env, pwm))
  {
    ScheduleByScheduled(slots, env, pwm);
    ScheduleByScheduled(ActiveOnly(slots), env, pwm);
    InactiveSlotsDoNotMatter(slots, env.minute);
    if i < k < |slots| && Wins(slots, i, env.minute) {
      ScheduleByScheduled(slots[k := s], env, pwm);
      HigherSlotsDoNotMatter(slots, i, k, s, env.minute);
    }
  }

  // ------------------------------------------------------------ the modes

  /** Two complementary windows sharing thresholds, alone in the table, make program mode
      indistinguishable from automatic mode: same outputs for every reading, NaN included. */
  lemma ProgramSimulatesAuto(cfg: Config, i: nat, j: nat, env: Sensors, pwm: int)
    requires cfg.mode == 2
    requires i < |cfg.slots| && j < |cfg.slots| && i != j
    requires cfg.slots[i].active != 0 && cfg.slots[j].active != 0
    requires forall k | 0 <= k < |cfg.slots| && k != i && k != j :: cfg.slots[k].active == 0
    requires StartMin(cfg.slots[i]) == EndMin(cfg.slots[j]) != StartMin(cfg.slots[j]) == EndMin(cfg.slots[i])
    requires cfg.slots[i].t0 == cfg.slots[j].t0 && cfg.slots[i].t100 == cfg.slots[j].t100
    ensures OutputAllowed(cfg, env, pwm)
      <==> OutputAllowed(cfg.(mode := 1, tmin := cfg.slots[i].t0, tmax := cfg.slots[i].t100), env, pwm)
  {
  }

  /** The readings for which C defines every step of the iteration. */
  predicate OutputDefined(cfg: Config, temp: Temp) {
    temp.Celsius? && (cfg.mode == 1 ==> cfg.tmax - cfg.tmin <= INT32_MAX)
  }

  lemma {:induction false} OutputMonotone(cfg: Config, t: real, u: real, presence: bool, minute: int, p: uint8, q: uint8)
    requires t <= u && OutputDefined(cfg, Celsius(t))
    requires OutputAllowed(cfg, Sensors(Celsius(t), presence, minute), p)
    requires OutputAllowed(cfg, Sensors(Celsius(u), presence, minute), q)
    ensures p <= q
  {
    if presence && cfg.mode == 1 {
      CurveMonotone(t, u, cfg.tmin, cfg.tmax, p, q);
    } else if presence && cfg.mode == 2 {
      ScheduleByScheduled(cfg.slots, Sensors(Celsius(t), presence, minute), p);
      ScheduleByScheduled(cfg.slots, Sensors(Celsius(u), presence, minute), q);
      match Scheduled(cfg.slots, minute)
      case Some(s) => CurveMonotone(t, u, s.t0, s.t100, p, q);
      case None =>
    }
  }

  /** The duty never falls as the temperature rises, for a fixed mode, minute and slot table. */
  lemma DutyMonotoneInTemperature(cfg: Config, t: real, u: real, presence: bool, minute: int,
                                  p: uint8, q: uint8, res: nat)
    requires t <= u && OutputDefined(cfg, Celsius(t)) && res <= 25
    requires OutputAllowed(cfg, Sensors(Celsius(t), presence, minute), p)
    requires OutputAllowed(cfg, Sensors(Celsius(u), presence, minute), q)
    ensures Duty(Clamp(p), res) <= Duty(Clamp(q), res)
  {
    OutputMonotone(cfg, t, u, presence, minute, p, q);
    DutyMonotone(Clamp(p), Clamp(q), res);
  }

  /** On a defined reading the specification leaves no choice. */
  lemma OutputUnique(cfg: Config, env: Sensors, p: uint8, q: uint8)
    requires OutputDefined(cfg, env.temp) && OutputAllowed(cfg, env, p) && OutputAllowed(cfg, env, q)
    ensures p == q
  {
    OutputMonotone(cfg, env.temp.t, env.temp.t, env.presence, env.minute, p, q);
    OutputMonotone(cfg, env.temp.t, env.temp.t, env.presence, env.minute, q, p);
  }

  /** The thresholds of the curve that decides the output, if a curve does. */
  function CurveInForce(cfg: Config, env: Sensors): Option<(int, int)> {
    if !env.presence then None
    else if cfg.mode == 1 then Some((cfg.tmin, cfg.tmax))
    else if cfg.mode == 2 then
      (match Scheduled(cfg.slots, env.minute)
       case Some(s) => Some((s.t0, s.t100))
       case None => None)
    else None
  }

  /** A reading that reaches the conversion of a rising curve, where C leaves the conversion undefined:
      NaN, or a reading strictly between thresholds more than an int apart. */
  predicate Exposed(cfg: Config, env: Sensors) {
    match CurveInForce(cfg, env)
    case None => false
    case Some((lo, hi)) =>
      lo < hi && match env.temp
                 case NaN => true
                 case Celsius(t) => lo as real < t < hi as real && hi - lo > INT32_MAX
  }

  ghost predicate OnlyOutput(cfg: Config, env: Sensors, p: uint8) {
    forall q: uint8 :: OutputAllowed(cfg, env, q) <==> q == p
  }

  /** The specification fixes the output exactly for readings that are not exposed, and an exposed one
      may leave any byte: a NaN anywhere on a rising curve, in automatic or in program mode. */
  lemma DeterminedExactly(cfg: Config, env: Sensors)
    ensures (exists p: uint8 :: OnlyOutput(cfg, env, p)) <==> !Exposed(cfg, env)
    ensures Exposed(cfg, env) ==> forall q: uint8 :: OutputAllowed(cfg, env, q)
  {
    forall q: uint8 ensures Exposed(cfg, env) ==> OutputAllowed(cfg, env, q) {
      ScheduleByScheduled(cfg.slots, env, q);
    }
    if Exposed(cfg, env) {
      assert OutputAllowed(cfg, env, 0) && OutputAllowed(cfg, env, 1);
    } else {
      var p: uint8 := if CurveInForce(cfg, env).Some?
                      then Curve(env.temp, CurveInForce(cfg, env).value.0, CurveInForce(cfg, env).value.1, 0)
                      else if cfg.mode == 0 then cfg.manualPwm else 0;
      forall q: uint8 ensures OutputAllowed(cfg, env, q) <==> q == p {
        ScheduleByScheduled(cfg.slots, env, q);
      }
      assert OnlyOutput(cfg, env, p);
    }
  }

  // ------------------------------------------------------------ the law in the user's terms

  ghost predicate FirstInWindow(slots: seq<Slot>, i: int, h: int, m: int) {
    0 <= i < |slots| && InWindow(slots[i], h, m) && forall j | 0 <= j < i :: !InWindow(slots[j], h, m)
  }

  ghost predicate PromisedBySlots(slots: seq<Slot>, t: real, h: int, m: int, pwm: int) {
    && (forall i | FirstInWindow(slots, i, h, m) :: Graded(t, slots[i].t0, slots[i].t100, pwm))
    && ((forall j | 0 <= j < |slots| :: !InWindow(slots[j], h, m)) ==> pwm == 0)
  }

  /** What the user is promised at h:m and t degrees: the fixed percentage in manual mode; otherwise nothing
      without presence or in an unknown mode; the graded output of the thresholds in automatic mode; and
      in program mode that of the first slot whose window the clock is in, or nothing. */
  ghost predicate Promised(cfg: Config, t: real, presence: bool, h: int, m: int, pwm: int) {
    if cfg.mode == 0 then pwm == cfg.manualPwm
    else if !presence || cfg.mode > 2 then pwm == 0
    else if cfg.mode == 1 then Graded(t, cfg.tmin, cfg.tmax, pwm)
    else PromisedBySlots(cfg.slots, t, h, m, pwm)
  }

  lemma FirstIsWinner(slots: seq<Slot>, h: int, m: int, i: int)
    requires (forall s | s in slots :: WellFormed(s)) && 0 <= h < 24 && 0 <= m < 60
    ensures FirstInWindow(slots, i, h, m) <==> Wins(slots, i, h * 60 + m)
    ensures 0 <= i < |slots| ==> (InWindow(slots[i], h, m) <==> Covers(slots[i], h * 60 + m))
  {
    forall j | 0 <= j < |slots| ensures Covers(slots[j], h * 60 + m) <==> InWindow(slots[j], h, m) {
      WindowOnClock(slots[j], h, m);
    }
  }

  lemma WinnerDecides(slots: seq<Slot>, i: int, env: Sensors, pwm: int)
    requires Wins(slots, i, env.minute)
    ensures ScheduleAllows(slots, env, pwm) <==> CurveAllows(env.temp, slots[i].t0, slots[i].t100, pwm)
  {
    forall k | Wins(slots, k, env.minute) ensures k == i {
    }
  }

  lemma FirstDecides(slots: seq<Slot>, i: int, t: real, h: int, m: int, pwm: int)
    requires FirstInWindow(slots, i, h, m)
    ensures PromisedBySlots(slots, t, h, m, pwm) <==> Graded(t, slots[i].t0, slots[i].t100, pwm)
  {
    forall k | FirstInWindow(slots, k, h, m) ensures k == i {
    }
  }

  lemma ScheduleOnClock(slots: seq<Slot>, t: real, h: int, m: int, cur: int, pwm: int)
    requires (forall s | s in slots :: WellFormed(s)) && 0 <= h < 24 && 0 <= m < 60 && cur == h * 60 + m
    ensures ScheduleAllows(slots, Sensors(Celsius(t), true, cur), pwm) <==> PromisedBySlots(slots, t, h, m, pwm)
  {
    forall i
      ensures FirstInWindow(slots, i, h, m) <==> Wins(slots, i, cur)
      ensures 0 <= i < |slots| ==> (InWindow(slots[i], h, m) <==> Covers(slots[i], cur))
    {
      FirstIsWinner(slots, h, m, i);
    }
    if i :| Wins(slots, i, cur) {
      WinnerDecides(slots, i, Sensors(Celsius(t), true, cur), pwm);
      FirstDecides(slots, i, t, h, m, pwm);
      CurveGraded(t, slots[i].t0, slots[i].t100, pwm);
    } else {
      ScheduledIsLeastIndex(slots, cur);
      assert Uncovered(slots, cur);
    }
  }

  /** The control law keeps the promise, and promises no more, for every configuration with a well-formed
      table, every defined reading and every time of day. */
  lemma OutputIsPromised(cfg: Config, t: real, presence: bool, h: int, m: int, pwm: int)
    requires (forall s | s in cfg.slots :: WellFormed(s)) && 0 <= h < 24 && 0 <= m < 60
    requires OutputDefined(cfg, Celsius(t))
    ensures OutputAllowed(cfg, Sensors(Celsius(t), presence, h * 60 + m), pwm) <==> Promised(cfg, t, presence, h, m, pwm)
  {
    if cfg.mode == 1 {
      CurveGraded(t, cfg.tmin, cfg.tmax, pwm);
    } else if cfg.mode == 2 {
      ScheduleOnClock(cfg.slots, t, h, m, h * 60 + m, pwm);
    }
  }

  /** Without presence, whatever the readings and the table, only manual mode runs the fan. */
  lemma NobodyThere(cfg: Config, env: Sensors, pwm: int)
    requires !env.presence
    ensures OutputAllowed(cfg, env, pwm) <==> pwm == if cfg.mode == 0 then cfg.manualPwm else 0
  {
  }
}
