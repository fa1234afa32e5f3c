/** The condition of Tearing.TearsExactly worked out: POSTs that are safe at a glance, configurations from
    which none of a kind tears, and an erase that tears. */
module TornPosts {
  import opened FirmwareTypes
  import opened FanCurve
  import opened Schedule
  import opened ControlLaw
  import opened Convergence
  import opened Tearing

  // ------------------------------------------------------------ POSTs that cannot tear

  /** Thresholds that no mixing can change: each lies at the end of the int range. */
  predicate Extreme(tmin: int32, tmax: int32) {
    (tmin == INT32_MAX && tmax == -0x8000_0000) || (tmin == -0x8000_0000 && tmax == INT32_MAX)
  }

  /** POSTs that a glance shows to be safe. */
  predicate TearFree(cfg: Config, p: Post) {
    !Mixes(cfg, p) ||
    match p
    case PostManual(_) => true
    case PostAuto(tmin, tmax) =>
      cfg.tmin == tmin || cfg.tmax == tmax || Extreme(cfg.tmin, cfg.tmax) || Extreme(tmin, tmax)
    case _ => cfg.slots[p.index].active == 0 == NewRecord(p).active
  }

  lemma ExtremeCurve(tmin: int32, tmax: int32, a: int32, b: int32, t: Temp, pwm: int)
    requires Extreme(tmin, tmax)
    requires CurveAllows(t, tmin, b, pwm) || CurveAllows(t, a, tmax, pwm)
    ensures CurveAllows(t, tmin, tmax, pwm) || CurveAllows(t, a, b, pwm)
  {
  }

  /** What is specified does not depend on the rest of a record that does not cover the minute. */
  lemma UncoveringRecord(slots: seq<Slot>, i: nat, x: Slot, y: Slot, env: Sensors, pwm: int)
    requires i < |slots| && !Covers(x, env.minute) && !Covers(y, env.minute)
    ensures ScheduleAllows(slots[i := x], env, pwm) <==> ScheduleAllows(slots[i := y], env, pwm)
  {
    var (a, b) := (slots[i := x], slots[i := y]);
    assert forall j | 0 <= j < |slots| :: Covers(a[j], env.minute) <==> Covers(b[j], env.minute);
    assert forall j :: Wins(a, j, env.minute) ==> j != i && a[j] == b[j];
    assert forall j :: Wins(a, j, env.minute) <==> Wins(b, j, env.minute);
  }

  lemma TearFreeMixture(cfg: Config, p: Post, c: Config, env: Sensors, pwm: uint8)
    requires TearFree(cfg, p) && Mixture(cfg, p, c) && OutputAllowed(c, env, pwm)
    ensures OutputAllowed(cfg, env, pwm) || OutputAllowed(Requested(cfg, p), env, pwm)
  {
    if p.PostAuto? {
      if Extreme(cfg.tmin, cfg.tmax) && env.presence && c != cfg && c != Requested(cfg, p) {
        ExtremeCurve(cfg.tmin, cfg.tmax, p.tmin, p.tmax, env.temp, pwm);
      } else if Extreme(p.tmin, p.tmax) && env.presence && c != cfg && c != Requested(cfg, p) {
        ExtremeCurve(p.tmin, p.tmax, cfg.tmin, cfg.tmax, env.temp, pwm);
      }
    } else {
      UncoveringRecord(cfg.slots, p.index, cfg.slots[p.index], c.slots[p.index], env, pwm);
      assert cfg.slots[p.index := cfg.slots[p.index]] == cfg.slots;
    }
  }

  /** A POST is safe over every interleaving if it is manual, automatic outside automatic mode, or a slot
      POST or erase outside program mode or the table; and inside, if it keeps one of the thresholds,
      if the old or the new ones are extreme, or if the old and the new record are both inactive. */
  lemma OverlapIsSafe(s: State, now: Sensors, p: Post, before: seq<Event>, busy: seq<Event>)
    requires Idle(s) && TearFree(s.cfg, p)
    requires (forall e | e in before :: Calm(e)) && (forall e | e in busy :: Calm(e))
    ensures NoTear(s, now, p, before, busy)
  {
    OverlapIsExplained(s, now, p, before, busy);
    forall y | y in Run(Watch(s, now, []), before + [Receive(p)] + busy).done ensures !Torn(s.cfg, p, y) {
      assert Explained(s.cfg, p, y);
      if Mixes(s.cfg, p) {
        var c :| Mixture(s.cfg, p, c) && Matches(c, y);
        TearFreeMixture(s.cfg, p, c, y.env, y.pwm);
      }
    }
  }

  lemma TearFreeNeverTears(cfg: Config, p: Post)
    requires TearFree(cfg, p)
    ensures NeverTears(cfg, p)
  {
    TearsExactly(cfg, p);
    forall c, env, pwm: uint8 | Mixture(cfg, p, c) && OutputAllowed(c, env, pwm) ensures !TornByMixture(cfg, p, c, env, pwm) {
      TearFreeMixture(cfg, p, c, env, pwm);
    }
  }

  // ------------------------------------------------------------ configurations from which some POST tears

  /** No automatic POST tears from cfg. */
  ghost predicate AutoNeverTears(cfg: Config) {
    forall tmin: int32, tmax: int32 :: NeverTears(cfg, PostAuto(tmin, tmax))
  }

  /** No slot POST tears from cfg. */
  ghost predicate SlotNeverTears(cfg: Config) {
    forall i: nat, slot :: NeverTears(cfg, PostSlot(i, slot))
  }

  lemma TornBy(cfg: Config, p: Post, c: Config, env: Sensors, pwm: uint8)
    requires TornByMixture(cfg, p, c, env, pwm)
    ensures !NeverTears(cfg, p)
  {
    TearsExactly(cfg, p);
  }

  function At(t: int): Sensors { Sensors(Celsius(t as real), true, 0) }

  /** Over any thresholds but the extreme ones, some reading and some POST tear the output. */
  lemma SomeAutoTears(cfg: Config)
    requires cfg.mode == 1 && !Extreme(cfg.tmin, cfg.tmax)
    ensures !AutoNeverTears(cfg)
  {
    var (d, c) := (cfg.tmin, cfg.tmax);
    if c <= d && c > -0x8000_0000 {
      TornBy(cfg, PostAuto(c - 1, c - 1), cfg.(tmin := c - 1), At(c - 1), 0);
    } else if c <= d {
      TornBy(cfg, PostAuto(d + 1, d + 1), cfg.(tmax := d + 1), At(d), 0);
    } else if c < INT32_MAX {
      TornBy(cfg, PostAuto(c, c + 1), cfg.(tmin := c), At(d), 100);
    } else {
      TornBy(cfg, PostAuto(d - 1, d), cfg.(tmax := d), At(d - 1), 100);
    }
  }

  /** No automatic POST tears exactly when the fan is not in automatic mode, or the thresholds it
      has lie at the two ends of the int range. */
  lemma AutoTearsExactly(cfg: Config)
    ensures AutoNeverTears(cfg) <==> cfg.mode != 1 || Extreme(cfg.tmin, cfg.tmax)
  {
    if cfg.mode != 1 || Extreme(cfg.tmin, cfg.tmax) {
      forall tmin: int32, tmax: int32 ensures NeverTears(cfg, PostAuto(tmin, tmax)) {
        TearFreeNeverTears(cfg, PostAuto(tmin, tmax));
      }
    } else {
      SomeAutoTears(cfg);
    }
  }

  /** A record whose own window is empty, starting off the end of window e. */
  function EmptyWindow(e: Slot, a: int16, b: int16): Slot {
    var h := if EndMin(e) == 0 then 1 else 0;
    Slot(1, h, 0, h, 0, a, b)
  }

  /** Its start and thresholds, with the end of e: a record that covers its own first minute. */
  function MixedWindow(e: Slot, a: int16, b: int16): Slot {
    EmptyWindow(e, a, b).(hEnd := e.hEnd, mEnd := e.mEnd)
  }

  lemma MixedCovers(e: Slot, a: int16, b: int16)
    ensures var n := EmptyWindow(e, a, b);
      Covers(MixedWindow(e, a, b), StartMin(n)) && forall minute :: !Covers(n, minute)
  {
  }

  lemma MixedWins(cfg: Config, env: Sensors, a: int16, b: int16, pwm: uint8)
    requires cfg.mode == 2 && cfg.slots != [] && env.presence && CurveAllows(env.temp, a, b, pwm)
    requires env.minute == StartMin(EmptyWindow(cfg.slots[0], a, b))
    ensures var p := PostSlot(0, EmptyWindow(cfg.slots[0], a, b));
      var c := WithSlot(cfg, 0, MixedWindow(cfg.slots[0], a, b));
      Mixture(cfg, p, c) && OutputAllowed(c, env, pwm)
  {
    MixedCovers(cfg.slots[0], a, b);
    assert cfg.slots[0 := MixedWindow(cfg.slots[0], a, b)][0] == MixedWindow(cfg.slots[0], a, b);
  }

  lemma NoneElse(cfg: Config, env: Sensors, p: uint8)
    requires OutputDefined(cfg, env.temp) && OutputAllowed(cfg, env, p)
    ensures forall q: uint8 | OutputAllowed(cfg, env, q) :: q == p
  {
    forall q: uint8 | OutputAllowed(cfg, env, q) ensures q == p {
      OutputUnique(cfg, env, p, q);
    }
  }

  /** Outputs 0, 50 and 100 can all be had by mixing, and the two configurations allow one each. */
  lemma SomeSlotTears(cfg: Config)
    requires cfg.mode == 2 && cfg.slots != []
    ensures !SlotNeverTears(cfg)
  {
    var first := cfg.slots[0];
    var hi := EmptyWindow(first, 0, 0);
    var env := Sensors(Celsius(0.0), true, StartMin(hi));
    var d := WithSlot(cfg, 0, hi);
    var a, b, pwm := OneOfThree(cfg, d, env);
    var p := PostSlot(0, EmptyWindow(first, a, b));
    MixedWins(cfg, env, a, b, pwm);
    MixedCovers(first, a, b);
    MixedCovers(first, 0, 0);
    SameRequest(cfg, p.slot, hi, env, pwm);
    TornBy(cfg, p, WithSlot(cfg, 0, MixedWindow(first, a, b)), env, pwm);
  }

  lemma SameRequest(cfg: Config, x: Slot, y: Slot, env: Sensors, pwm: uint8)
    requires cfg.mode == 2 && cfg.slots != [] && !Covers(x, env.minute) && !Covers(y, env.minute)
    ensures Requested(cfg, PostSlot(0, x)) == WithSlot(cfg, 0, x)
    ensures OutputAllowed(WithSlot(cfg, 0, x), env, pwm) <==> OutputAllowed(WithSlot(cfg, 0, y), env, pwm)
  {
    UncoveringRecord(cfg.slots, 0, x, y, env, pwm);
  }

  lemma OneOfThree(cfg: Config, d: Config, env: Sensors) returns (a: int16, b: int16, pwm: uint8)
    requires cfg.mode == 2 == d.mode && env.temp == Celsius(0.0)
    ensures CurveAllows(env.temp, a, b, pwm) && !OutputAllowed(cfg, env, pwm) && !OutputAllowed(d, env, pwm)
  {
    if OutputAllowed(cfg, env, 0) { NoneElse(cfg, env, 0); }
    if OutputAllowed(cfg, env, 50) { NoneElse(cfg, env, 50); }
    if OutputAllowed(d, env, 0) { NoneElse(d, env, 0); }
    if OutputAllowed(d, env, 50) { NoneElse(d, env, 50); }
    if !OutputAllowed(cfg, env, 0) && !OutputAllowed(d, env, 0) {
      a, b, pwm := 1, 2, 0;
    } else if !OutputAllowed(cfg, env, 50) && !OutputAllowed(d, env, 50) {
      a, b, pwm := -1, 1, 50;
    } else {
      a, b, pwm := 0, 0, 100;
    }
  }

  /** No slot POST tears exactly when the fan is not in program mode, or there are no slots. */
  lemma SlotTearsExactly(cfg: Config)
    ensures SlotNeverTears(cfg) <==> cfg.mode != 2 || cfg.slots == []
  {
    if cfg.mode != 2 || cfg.slots == [] {
      forall i: nat, slot ensures NeverTears(cfg, PostSlot(i, slot)) {
        TearFreeNeverTears(cfg, PostSlot(i, slot));
      }
    } else {
      SomeSlotTears(cfg);
    }
  }

  // ------------------------------------------------------------ an erase that tears, and a later record

  const MORNING := Slot(1, 10, 0, 11, 0, 24, 28)
  const REST_OF_DAY := Slot(1, 11, 0, 10, 0, 24, 28)

  /** The erase of a single window from 10:00 to 11:00 tears; with a window over the rest of the day after
      it, the same erase of the same record never does. */
  lemma LaterRecordsMatter(cfg: Config)
    requires cfg.mode == 2
    ensures !NeverTears(cfg.(slots := [MORNING]), PostErase(0))
    ensures NeverTears(cfg.(slots := [MORNING, REST_OF_DAY]), PostErase(0))
  {
    LoneEraseTears(cfg.(slots := [MORNING]));
    CoveredEraseSafe(cfg.(slots := [MORNING, REST_OF_DAY]));
  }

  lemma CoveredEraseSafe(cfg: Config)
    requires cfg.mode == 2 && cfg.slots == [MORNING, REST_OF_DAY]
    ensures NeverTears(cfg, PostErase(0))
  {
    TearsExactly(cfg, PostErase(0));
    if c, env, pwm: uint8 :| TornByMixture(cfg, PostErase(0), c, env, pwm) {
      CoveredErase(cfg, c, env, pwm);
    }
  }

  /** The copy read so far has the old start and the new end: 10:00 to midnight. */
  lemma LoneEraseTears(cfg: Config)
    requires cfg.mode == 2 && cfg.slots == [MORNING]
    ensures !NeverTears(cfg, PostErase(0))
  {
    var c := WithSlot(cfg, 0, MORNING.(hEnd := 0));
    var env := Sensors(Celsius(30.0), true, 700);
    assert Requested(cfg, PostErase(0)).slots == [DEFAULT_SLOT] && c.slots == [MORNING.(hEnd := 0)];
    assert Wins(c.slots, 0, 700);
    TornBy(cfg, PostErase(0), c, env, 100);
  }

  lemma CoveredErase(cfg: Config, c: Config, env: Sensors, pwm: uint8)
    requires cfg.mode == 2 && cfg.slots == [MORNING, REST_OF_DAY] && Mixture(cfg, PostErase(0), c)
    requires InDay(env.minute) && OutputAllowed(c, env, pwm)
    ensures OutputAllowed(cfg, env, pwm) || OutputAllowed(Requested(cfg, PostErase(0)), env, pwm)
  {
    var erased := Requested(cfg, PostErase(0));
    assert c.slots == [c.slots[0], REST_OF_DAY] && erased.slots == [DEFAULT_SLOT, REST_OF_DAY];
    AllowedByTwo(c, c.slots[0], REST_OF_DAY, env, pwm);
    AllowedByTwo(cfg, MORNING, REST_OF_DAY, env, pwm);
    AllowedByTwo(erased, DEFAULT_SLOT, REST_OF_DAY, env, pwm);
    assert c.slots[0].t0 == 24 && c.slots[0].t100 == 28;
    assert Covers(MORNING, env.minute) <==> !Covers(REST_OF_DAY, env.minute);
  }

  lemma AllowedByTwo(cfg: Config, a: Slot, b: Slot, env: Sensors, pwm: uint8)
    requires cfg.mode == 2 && cfg.slots == [a, b]
    ensures OutputAllowed(cfg, env, pwm)
      <==> if env.presence && Covers(a, env.minute) then CurveAllows(env.temp, a.t0, a.t100, pwm)
           else if env.presence && Covers(b, env.minute) then CurveAllows(env.temp, b.t0, b.t100, pwm)
           else pwm == 0
  {
    ScheduleByScheduled(cfg.slots, env, pwm);
    assert cfg.slots[1..] == [b];
    assert Scheduled([b], env.minute) == if Covers(b, env.minute) then Some(b) else None;
  }
}
