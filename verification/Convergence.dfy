/** The control task and the POST handlers as small steps under arbitrary interleaving.
    Every flash value, every slot field and each half of fan_set_percent is a separate step. */
module Convergence {
  import opened FirmwareTypes
  import opened FanCurve
  import opened FanDriver
  import opened Schedule
  import opened ConfigStorage
  import opened ControlLaw
  import opened FanControlTask

  const FIELDS := 7

  /** Copies one field of a slot record. */
  function CopyField(dst: Slot, src: Slot, field: nat): Slot {
    match field
    case 0 => dst.(active := src.active)
    case 1 => dst.(hStart := src.hStart)
    case 2 => dst.(mStart := src.mStart)
    case 3 => dst.(hEnd := src.hEnd)
    case 4 => dst.(mEnd := src.mEnd)
    case 5 => dst.(t0 := src.t0)
    case 6 => dst.(t100 := src.t100)
    case _ => dst
  }

  /** The first k fields of src over the rest of dst. */
  function Merge(src: Slot, dst: Slot, k: nat): Slot {
    if k == 0 then dst else CopyField(Merge(src, dst, k - 1), src, k - 1)
  }

  lemma MergeWhole(src: Slot, dst: Slot)
    ensures Merge(src, dst, FIELDS) == src
  {
    assert Merge(src, dst, 1) == dst.(active := src.active);
    assert Merge(src, dst, 3) == Merge(src, dst, 1).(hStart := src.hStart, mStart := src.mStart);
    assert Merge(src, dst, 5) == Merge(src, dst, 3).(hEnd := src.hEnd, mEnd := src.mEnd);
  }

  // ------------------------------------------------------------ state and steps

  /** Where the control task is, with what it has read so far in this iteration. */
  datatype Pc =
    | AtTemp
    | AtPresence(temp: Temp)
    | AtMode(temp: Temp, presence: bool)
    | AtManual
    | AtTmin(temp: Temp)
    | AtTmax(temp: Temp, tmin: int32)
    | AtClock(temp: Temp)
    | AtSlot(temp: Temp, minute: int, index: nat, field: nat, copy: Slot)
    | AtPercent(pwm: uint8)
    | AtDuty(pwm: uint8)

  datatype Write =
    | WriteSetting(setting: Setting)
    | WriteField(index: nat, field: nat, slot: Slot)
    | WritePercent(percent: uint8)
    | WriteDuty(percent: uint8)

  datatype Post =
    | PostAuto(tmin: int32, tmax: int32)
    | PostManual(pwm: int32)
    | PostSlot(index: nat, slot: Slot)
    | PostErase(index: nat)

  datatype State = State(cfg: Config, percent: uint8, duty: nat, pc: Pc, todo: seq<Write>)

  datatype Event =
    | Control(sample: Sensors, ok: bool, junk: uint8)
    | Handler(ok: bool)
    | Receive(post: Post)

  /** The nearest percentage. */
  function ClampInt(pwm: int32): (p: uint8)
    ensures 0 <= pwm <= 100 ==> p == pwm
    ensures pwm < 0 ==> p == 0
    ensures pwm > 100 ==> p == 100
  {
    if pwm < 0 then 0 else if pwm > 100 then 100 else pwm
  }

  function FieldWrites(index: nat, slot: Slot, k: nat): seq<Write> {
    if k == 0 then [] else FieldWrites(index, slot, k - 1) + [WriteField(index, k - 1, slot)]
  }

  /** The writes of a handler, in its program order. */
  function Writes(p: Post): seq<Write> {
    match p
    case PostAuto(tmin, tmax) =>
      [WriteSetting(AutoTmin(tmin)), WriteSetting(AutoTmax(tmax)), WriteSetting(Mode(1))]
    case PostManual(pwm) =>
      [WriteSetting(ManualPwm(ClampInt(pwm))), WriteSetting(Mode(0)),
       WritePercent(ClampInt(pwm)), WriteDuty(ClampInt(pwm))]
    case PostSlot(index, slot) => FieldWrites(index, slot, FIELDS) + [WriteSetting(Mode(2))]
    case PostErase(index) => FieldWrites(index, DEFAULT_SLOT, FIELDS)
  }

  function ApplyWrite(cfg: Config, w: Write): Config {
    match w
    case WriteSetting(s) => ApplySetting(cfg, s)
    case WriteField(i, f, slot) =>
      if i < |cfg.slots| then cfg.(slots := cfg.slots[i := CopyField(cfg.slots[i], slot, f)]) else cfg
    case WritePercent(_) => cfg
    case WriteDuty(_) => cfg
  }

  function ControlStep(s: State, sample: Sensors, ok: bool, junk: uint8): State {
    var cfg := s.cfg;
    match s.pc
    case AtTemp => s.(pc := AtPresence(sample.temp))
    case AtPresence(t) => s.(pc := AtMode(t, sample.presence))
    case AtMode(t, presence) =>
      var mode := if ok then cfg.mode else 0;
      if mode == 0 then s.(pc := AtManual)
      else if mode == 1 && presence then s.(pc := AtTmin(t))
      else if mode == 2 && presence then s.(pc := AtClock(t))
      else s.(pc := AtPercent(0))
    case AtManual => s.(pc := AtPercent(if ok then cfg.manualPwm else 0))
    case AtTmin(t) => s.(pc := AtTmax(t, if ok then cfg.tmin else AUTO_TMIN_DEFAULT))
    case AtTmax(t, tmin) =>
      s.(pc := AtPercent(Curve(t, tmin, if ok then cfg.tmax else AUTO_TMAX_DEFAULT, junk)))
    case AtClock(t) => s.(pc := AtSlot(t, sample.minute, 0, 0, ZERO_SLOT))
    case AtSlot(t, minute, i, f, copy) =>
      if i >= |cfg.slots| then s.(pc := AtPercent(0))
      else if f < FIELDS then s.(pc := AtSlot(t, minute, i, f + 1, CopyField(copy, cfg.slots[i], f)))
      else if Covers(copy, minute) then s.(pc := AtPercent(Curve(t, copy.t0, copy.t100, junk)))
      else s.(pc := AtSlot(t, minute, i + 1, 0, ZERO_SLOT))
    case AtPercent(pwm) => s.(percent := Clamp(pwm), pc := AtDuty(pwm))
    case AtDuty(pwm) => s.(duty := Duty(Clamp(pwm), FAN_PWM_RES), pc := AtTemp)
  }

  /** A handler's next write; a setting whose NVS call fails leaves the old value. */
  function HandlerStep(s: State, ok: bool): State {
    if s.todo == [] then s
    else
      var t := s.(todo := s.todo[1..]);
      match s.todo[0]
      case WriteSetting(_) => if ok then t.(cfg := ApplyWrite(s.cfg, s.todo[0])) else t
      case WriteField(_, _, _) => t.(cfg := ApplyWrite(s.cfg, s.todo[0]))
      case WritePercent(p) => t.(percent := Clamp(p))
      case WriteDuty(p) => t.(duty := Duty(Clamp(p), FAN_PWM_RES))
  }

  function Step(s: State, e: Event): State {
    match e
    case Control(sample, ok, junk) => ControlStep(s, sample, ok, junk)
    case Handler(ok) => HandlerStep(s, ok)
    case Receive(p) => if s.todo == [] then s.(todo := Writes(p)) else s
  }

  // ------------------------------------------------------------ watching a run

  /** One completed iteration: what the sensors and the clock showed when it looked at them, and the
      percentage it put out. */
  datatype Entry = Entry(env: Sensors, pwm: uint8)

  /** A state with an onlooker, who notes what the events offer at the steps that sample, whatever the
      control task makes of it. */
  datatype Watch = Watch(state: State, now: Sensors, done: seq<Entry>)

  function Noted(now: Sensors, pc: Pc, sample: Sensors): Sensors {
    match pc
    case AtTemp => now.(temp := sample.temp)
    case AtPresence(_) => now.(presence := sample.presence)
    case AtClock(_) => now.(minute := sample.minute)
    case _ => now
  }

  function Observe(x: Watch, e: Event): Watch {
    Watch(Step(x.state, e),
          if e.Control? then Noted(x.now, x.state.pc, e.sample) else x.now,
          if e.Control? && x.state.pc.AtDuty? then x.done + [Entry(x.now, x.state.pc.pwm)] else x.done)
  }

  function Run(x: Watch, es: seq<Event>): Watch
    decreases |es|
  {
    if es == [] then x else Run(Observe(x, es[0]), es[1..])
  }

  lemma {:induction false} RunConcat(x: Watch, a: seq<Event>, b: seq<Event>)
    ensures Run(x, a + b) == Run(Run(x, a), b)
    decreases |a|
  {
    if a == [] {
      assert a + b == b;
    } else {
      assert (a + b)[1..] == a[1..] + b;
      RunConcat(Observe(x, a[0]), a[1..], b);
    }
  }

  // ------------------------------------------------------------ one quiet iteration

  /** Control steps whose reads succeed; a handler may be scheduled but has nothing to write. */
  predicate Quiet(e: Event) {
    !e.Receive? && (e.Control? ==> e.ok)
  }

  ghost predicate Matches(cfg: Config, x: Entry) {
    OutputAllowed(cfg, x.env, x.pwm)
  }

  /** Everything this iteration holds agrees with the configuration and with what was on offer. */
  ghost predicate Fresh(cfg: Config, now: Sensors, pc: Pc) {
    match pc
    case AtTemp => true
    case AtPresence(t) => t == now.temp
    case AtMode(t, presence) => t == now.temp && presence == now.presence
    case AtManual => cfg.mode == 0
    case AtTmin(t) => cfg.mode == 1 && now.presence && t == now.temp
    case AtTmax(t, tmin) => cfg.mode == 1 && now.presence && t == now.temp && tmin == cfg.tmin
    case AtClock(t) => cfg.mode == 2 && now.presence && t == now.temp
    case AtSlot(t, minute, i, f, copy) =>
      && cfg.mode == 2 && now.presence && t == now.temp && minute == now.minute
      && i <= |cfg.slots| && f <= FIELDS
      && (forall j | 0 <= j < i :: !Covers(cfg.slots[j], minute))
      && (i < |cfg.slots| ==> copy == Merge(cfg.slots[i], ZERO_SLOT, f))
    case AtPercent(pwm) => OutputAllowed(cfg, now, pwm)
    case AtDuty(pwm) => OutputAllowed(cfg, now, pwm)
  }

  /** The fan shows the last completed iteration; between its two writes the percentage is ahead. */
  ghost predicate FanShowsLast(x: Watch) {
    && x.done != []
    && var pwm := x.done[|x.done| - 1].pwm;
    && x.state.duty == Duty(Clamp(pwm), FAN_PWM_RES)
    && x.state.percent == Clamp(if x.state.pc.AtDuty? then x.state.pc.pwm else pwm)
  }

  /** Entries from start on match cfg, and so does what is in progress once start is reached. */
  ghost predicate Settled(cfg: Config, start: nat, x: Watch) {
    && x.state.cfg == cfg && x.state.todo == []
    && start <= |x.done| + 1
    && (forall k | start <= k < |x.done| :: Matches(cfg, x.done[k]))
    && (start <= |x.done| ==>
          Fresh(cfg, x.now, x.state.pc) && (x.state.pc.AtDuty? ==> x.state.percent == Clamp(x.state.pc.pwm)))
    && (start < |x.done| ==> FanShowsLast(x))
  }

  lemma SlotStepFresh(cfg: Config, now: Sensors, pc: Pc, junk: uint8)
    requires pc.AtSlot? && Fresh(cfg, now, pc) && pc.index < |cfg.slots| && pc.field == FIELDS
    ensures pc.copy == cfg.slots[pc.index]
    ensures Covers(pc.copy, pc.minute)
      ==> OutputAllowed(cfg, now, Curve(pc.temp, pc.copy.t0, pc.copy.t100, junk))
  {
    MergeWhole(cfg.slots[pc.index], ZERO_SLOT);
    if Covers(pc.copy, pc.minute) {
      assert forall i | Wins(cfg.slots, i, pc.minute) :: i == pc.index;
    }
  }

  lemma ControlKeepsFresh(x: Watch, e: Event)
    requires e.Control? && e.ok && Fresh(x.state.cfg, x.now, x.state.pc)
    ensures Fresh(x.state.cfg, Observe(x, e).now, Observe(x, e).state.pc)
  {
    var cfg, pc := x.state.cfg, x.state.pc;
    if pc.AtSlot? {
      if pc.index < |cfg.slots| && pc.field == FIELDS {
        SlotStepFresh(cfg, x.now, pc, e.junk);
      } else if pc.index == |cfg.slots| {
        assert forall i :: !Wins(cfg.slots, i, pc.minute);
      }
    }
  }

  /** What a control step leaves alone, and what it does to the fan and the entries. */
  ghost predicate ControlFrame(x: Watch, y: Watch) {
    var (s, t) := (x.state, y.state);
    && t.cfg == s.cfg && t.todo == s.todo
    && if s.pc.AtDuty? then
         && y.done == x.done + [Entry(x.now, s.pc.pwm)] && t.pc == AtTemp
         && t.duty == Duty(Clamp(s.pc.pwm), FAN_PWM_RES) && t.percent == s.percent
       else
         && y.done == x.done && t.duty == s.duty
         && (if t.pc.AtDuty? then t.percent == Clamp(t.pc.pwm) else t.percent == s.percent)
  }

  lemma ControlStepFrame(x: Watch, e: Event)
    requires e.Control?
    ensures ControlFrame(x, Observe(x, e))
  {
  }

  lemma SettledNext(cfg: Config, start: nat, x: Watch, y: Watch)
    requires Settled(cfg, start, x) && start <= |x.done| && ControlFrame(x, y) && Fresh(cfg, y.now, y.state.pc)
    ensures Settled(cfg, start, y)
  {
  }

  lemma QuietKeepsSettled(cfg: Config, start: nat, x: Watch, e: Event)
    requires Settled(cfg, start, x) && Quiet(e)
    ensures Settled(cfg, start, Observe(x, e))
    ensures x.done <= Observe(x, e).done
  {
    if e.Control? {
      ControlStepFrame(x, e);
      if start <= |x.done| {
        ControlKeepsFresh(x, e);
        SettledNext(cfg, start, x, Observe(x, e));
      }
    } else {
      assert Observe(x, e) == x;
    }
  }

  lemma {:induction false} QuietRun(cfg: Config, start: nat, x: Watch, es: seq<Event>)
    requires Settled(cfg, start, x) && forall e | e in es :: Quiet(e)
    ensures Settled(cfg, start, Run(x, es))
    ensures x.done <= Run(x, es).done
    decreases |es|
  {
    if es != [] {
      QuietKeepsSettled(cfg, start, x, es[0]);
      assert forall e | e in es[1..] :: e in es;
      QuietRun(cfg, start, Observe(x, es[0]), es[1..]);
    }
  }

  /** The first entry that must match: the iteration in flight may be stale, if there is one. */
  function FirstNew(x: Watch): nat {
    if x.state.pc.AtTemp? then |x.done| else |x.done| + 1
  }

  /** From any state with no handler active, whatever is half read or half written: every iteration
      but the one in flight outputs what the current configuration specifies for what the sensors
      and the clock showed at its own sampling steps, and the fan then shows the last one. */
  lemma QuietIterationsMatch(x: Watch, es: seq<Event>)
    requires x.state.todo == [] && forall e | e in es :: Quiet(e)
    ensures Settled(x.state.cfg, FirstNew(x), Run(x, es)) && x.done <= Run(x, es).done
    ensures var y := Run(x, es);
      && y.state.cfg == x.state.cfg
      && (forall k | FirstNew(x) <= k < |y.done| :: Matches(x.state.cfg, y.done[k]))
      && (FirstNew(x) < |y.done| ==> FanShowsLast(y))
  {
    QuietRun(x.state.cfg, FirstNew(x), x, es);
  }

  // ------------------------------------------------------------ steady sensors

  predicate Steady(w: Sensors, e: Event) {
    e.Control? ==> e.sample == w
  }

  /** While every control step is offered w, the onlooker notes w and nothing else. */
  lemma {:induction false} SteadyRun(w: Sensors, x: Watch, es: seq<Event>)
    requires x.now == w && forall e | e in es :: Steady(w, e)
    ensures Run(x, es).now == w && x.done <= Run(x, es).done
    ensures forall k | |x.done| <= k < |Run(x, es).done| :: Run(x, es).done[k].env == w
    decreases |es|
  {
    if es != [] {
      assert Steady(w, es[0]);
      assert forall e | e in es[1..] :: e in es;
      SteadyRun(w, Observe(x, es[0]), es[1..]);
    }
  }

  /** With steady sensors the fan shows exactly the output specified for the configuration and the
      sensors, from the first iteration that started in the quiet period on. */
  lemma SteadyFanIsSpecified(s: State, w: Sensors, es: seq<Event>, p: uint8)
    requires s.todo == [] && forall e | e in es :: Quiet(e) && Steady(w, e)
    requires OutputDefined(s.cfg, w.temp) && OutputAllowed(s.cfg, w, p)
    ensures var x := Watch(s, w, []); var y := Run(x, es);
      && (forall k | FirstNew(x) <= k < |y.done| :: y.done[k].pwm == p)
      && (FirstNew(x) < |y.done| ==> y.state.percent == Clamp(p) && y.state.duty == Duty(Clamp(p), FAN_PWM_RES))
  {
    var x := Watch(s, w, []);
    var y := Run(x, es);
    QuietIterationsMatch(x, es);
    SteadyRun(w, x, es);
    forall k | FirstNew(x) <= k < |y.done| ensures y.done[k].pwm == p {
      assert Matches(s.cfg, y.done[k]);
      OutputUnique(s.cfg, w, y.done[k].pwm, p);
    }
    if FirstNew(x) < |y.done| && y.state.pc.AtDuty? {
      OutputUnique(s.cfg, w, y.state.pc.pwm, p);
    }
  }

  // ------------------------------------------------------------ through a POST

  function ApplyAll(cfg: Config, ws: seq<Write>): Config
    decreases |ws|
  {
    if ws == [] then cfg else ApplyAll(ApplyWrite(cfg, ws[0]), ws[1..])
  }

  /** The configuration a POST asks for. */
  function Requested(cfg: Config, p: Post): Config {
    match p
    case PostAuto(tmin, tmax) => cfg.(mode := 1, tmin := tmin, tmax := tmax)
    case PostManual(pwm) => cfg.(mode := 0, manualPwm := ClampInt(pwm))
    case PostSlot(i, slot) =>
      cfg.(mode := 2, slots := if i < |cfg.slots| then cfg.slots[i := slot] else cfg.slots)
    case PostErase(i) => cfg.(slots := if i < |cfg.slots| then cfg.slots[i := DEFAULT_SLOT] else cfg.slots)
  }

  lemma {:induction false} ApplyAllConcat(cfg: Config, a: seq<Write>, b: seq<Write>)
    ensures ApplyAll(cfg, a + b) == ApplyAll(ApplyAll(cfg, a), b)
    decreases |a|
  {
    if a == [] {
      assert a + b == b;
    } else {
      assert (a + b)[1..] == a[1..] + b;
      ApplyAllConcat(ApplyWrite(cfg, a[0]), a[1..], b);
    }
  }

  lemma {:induction false} FieldWritesMerge(cfg: Config, i: nat, slot: Slot, k: nat)
    ensures ApplyAll(cfg, FieldWrites(i, slot, k))
         == if i < |cfg.slots| then cfg.(slots := cfg.slots[i := Merge(slot, cfg.slots[i], k)]) else cfg
  {
    if k > 0 {
      FieldWritesMerge(cfg, i, slot, k - 1);
      ApplyAllConcat(cfg, FieldWrites(i, slot, k - 1), [WriteField(i, k - 1, slot)]);
      var before := ApplyAll(cfg, FieldWrites(i, slot, k - 1));
      assert ApplyAll(before, [WriteField(i, k - 1, slot)]) == ApplyWrite(before, WriteField(i, k - 1, slot));
    }
  }

  /** A handler's separate writes, all together, make the configuration the POST asks for. */
  lemma WritesMakeRequested(cfg: Config, p: Post)
    ensures ApplyAll(cfg, Writes(p)) == Requested(cfg, p)
  {
    match p
    case PostAuto(tmin, tmax) =>
      var c := cfg.(tmin := tmin, tmax := tmax);
      assert ApplyAll(c, [WriteSetting(Mode(1))]) == c.(mode := 1);
      assert Writes(p)[1..][1..] == [WriteSetting(Mode(1))];
    case PostManual(pwm) =>
      var c := cfg.(mode := 0, manualPwm := ClampInt(pwm));
      var rest := [WritePercent(ClampInt(pwm)), WriteDuty(ClampInt(pwm))];
      assert rest[1..] == [WriteDuty(ClampInt(pwm))];
      assert ApplyAll(c, [WriteDuty(ClampInt(pwm))]) == c;
      assert ApplyAll(c, rest) == c;
      assert Writes(p)[1..][1..] == rest;
    case PostSlot(i, slot) =>
      ApplyAllConcat(cfg, FieldWrites(i, slot, FIELDS), [WriteSetting(Mode(2))]);
      FieldWritesMerge(cfg, i, slot, FIELDS);
      if i < |cfg.slots| { MergeWhole(slot, cfg.slots[i]); }
      var c := ApplyAll(cfg, FieldWrites(i, slot, FIELDS));
      assert ApplyAll(c, [WriteSetting(Mode(2))]) == c.(mode := 2);
    case PostErase(i) =>
      FieldWritesMerge(cfg, i, DEFAULT_SLOT, FIELDS);
      if i < |cfg.slots| { MergeWhole(DEFAULT_SLOT, cfg.slots[i]); }
  }

  predicate WritesSucceed(e: Event) {
    !e.Receive? && (e.Handler? ==> e.ok)
  }

  lemma WritesStep(s: State, e: Event)
    requires WritesSucceed(e)
    ensures ApplyAll(Step(s, e).cfg, Step(s, e).todo) == ApplyAll(s.cfg, s.todo)
  {
  }

  /** Whatever the control task does in between, the handler is on its way to one configuration. */
  lemma {:induction false} HandlerRun(x: Watch, es: seq<Event>)
    requires forall e | e in es :: WritesSucceed(e)
    ensures ApplyAll(Run(x, es).state.cfg, Run(x, es).state.todo) == ApplyAll(x.state.cfg, x.state.todo)
    decreases |es|
  {
    if es != [] {
      WritesStep(x.state, es[0]);
      assert forall e | e in es[1..] :: e in es;
      HandlerRun(Observe(x, es[0]), es[1..]);
    }
  }

  /** Where a POST leaves a run, once its handler has been scheduled as busy says. */
  function AfterPost(x: Watch, p: Post, busy: seq<Event>): Watch {
    Run(x, [Receive(p)] + busy)
  }

  lemma PostReached(x: Watch, p: Post, busy: seq<Event>)
    requires x.state.todo == [] && forall e | e in busy :: WritesSucceed(e)
    requires AfterPost(x, p, busy).state.todo == []
    ensures AfterPost(x, p, busy).state.cfg == Requested(x.state.cfg, p)
  {
    assert ([Receive(p)] + busy)[1..] == busy;
    HandlerRun(x.(state := x.state.(todo := Writes(p))), busy);
    WritesMakeRequested(x.state.cfg, p);
  }

  /** Convergence. From any state with no handler active, a POST arrives and its writes interleave
      with control steps in any way, with stale or torn or failing reads. Once its last write is
      done, every iteration that starts afterwards outputs exactly what the requested configuration
      specifies for the sensors and the clock at its own sampling steps, and the fan then shows the
      latest one, until the next POST. */
  lemma PostConverges(x: Watch, p: Post, busy: seq<Event>, quiet: seq<Event>)
    requires x.state.todo == []
    requires forall e | e in busy :: WritesSucceed(e)
    requires forall e | e in quiet :: Quiet(e)
    requires AfterPost(x, p, busy).state.todo == []
    ensures var m := AfterPost(x, p, busy); var y := Run(m, quiet);
      && Run(x, [Receive(p)] + busy + quiet) == y
      && y.state.cfg == Requested(x.state.cfg, p) && m.done <= y.done
      && (forall k | FirstNew(m) <= k < |y.done| :: Matches(Requested(x.state.cfg, p), y.done[k]))
      && (FirstNew(m) < |y.done| ==> FanShowsLast(y))
  {
    RunConcat(x, [Receive(p)] + busy, quiet);
    PostReached(x, p, busy);
    QuietIterationsMatch(AfterPost(x, p, busy), quiet);
  }

  /** Undisturbed, the writes of a manual POST leave the fan at the posted percentage: 0 below 0 and 100
      above 100. */
  lemma ManualPostShows(s: State, pwm: int32)
    requires s.todo == []
    ensures var h := Handler(true);
      var t := Step(Step(Step(Step(Step(s, Receive(PostManual(pwm))), h), h), h), h);
      t.todo == [] && t.percent == (if pwm < 0 then 0 else if pwm > 100 then 100 else pwm)
        && t.duty == Duty(t.percent, FAN_PWM_RES)
  {
    var ws := Writes(PostManual(pwm));
    assert ws[1..] == [ws[1], ws[2], ws[3]];
    assert ws[1..][1..] == [ws[2], ws[3]];
    assert ws[1..][1..][1..] == [ws[3]];
  }

  // ------------------------------------------------------------ how soon

  /** Control steps left before the current iteration completes, at most. */
  function Rank(n: nat, pc: Pc): nat {
    match pc
    case AtTemp => 8 * n + 7
    case AtPresence(_) => 8 * n + 6
    case AtMode(_, _) => 8 * n + 5
    case AtManual => 2
    case AtTmin(_) => 3
    case AtTmax(_, _) => 2
    case AtClock(_) => 8 * n + 4
    case AtSlot(_, _, i, f, _) => if i >= n then 2 else 8 * (n - i) + 2 - Min(f, FIELDS)
    case AtPercent(_) => 1
    case AtDuty(_) => 0
  }

  function ControlSteps(es: seq<Event>): nat {
    if es == [] then 0 else (if es[0].Control? then 1 else 0) + ControlSteps(es[1..])
  }

  /** Completed iterations and progress within the current one, on one scale. */
  function Progress(x: Watch): int {
    |x.done| * (8 * |x.state.cfg.slots| + 8) - Rank(|x.state.cfg.slots|, x.state.pc)
  }

  lemma ControlProgress(x: Watch, e: Event)
    requires x.state.todo == []
    ensures Quiet(e) ==> Progress(Observe(x, e)) >= Progress(x) + if e.Control? then 1 else 0
  {
    var w := 8 * |x.state.cfg.slots| + 8;
    assert (|x.done| + 1) * w == |x.done| * w + w;
  }

  lemma {:induction false} RunProgress(x: Watch, es: seq<Event>)
    requires x.state.todo == [] && forall e | e in es :: Quiet(e)
    ensures Progress(Run(x, es)) >= Progress(x) + ControlSteps(es)
    ensures Run(x, es).state.cfg == x.state.cfg
    decreases |es|
  {
    if es != [] {
      ControlProgress(x, es[0]);
      assert forall e | e in es[1..] :: e in es;
      assert Quiet(es[0]);
      RunProgress(Observe(x, es[0]), es[1..]);
    }
  }

  lemma TwoIterations(x: Watch, es: seq<Event>)
    requires x.state.todo == [] && forall e | e in es :: Quiet(e)
    requires ControlSteps(es) >= 2 * (8 * |x.state.cfg.slots| + 8)
    ensures |Run(x, es).done| >= |x.done| + 2
  {
    RunProgress(x, es);
    var y, n := Run(x, es), |x.state.cfg.slots|;
    TwoMore(|x.done|, |y.done|, Rank(n, x.state.pc), Rank(n, y.state.pc), 8 * n + 8);
  }

  /** Within 2 * (8n + 8) control steps of a quiet period over n slots, wherever the control task was,
      the fan shows exactly the output specified for the configuration and steady sensors w. */
  lemma ConvergesWithin(s: State, w: Sensors, es: seq<Event>, p: uint8)
    requires s.todo == [] && forall e | e in es :: Quiet(e) && Steady(w, e)
    requires ControlSteps(es) >= 2 * (8 * |s.cfg.slots| + 8)
    requires OutputDefined(s.cfg, w.temp) && OutputAllowed(s.cfg, w, p)
    ensures var t := Run(Watch(s, w, []), es).state;
      t.percent == Clamp(p) && t.duty == Duty(Clamp(p), FAN_PWM_RES)
  {
    TwoIterations(Watch(s, w, []), es);
    SteadyFanIsSpecified(s, w, es, p);
  }

  lemma {:induction false} OnlookerChangesNothing(x: Watch, y: Watch, es: seq<Event>)
    requires x.state == y.state
    ensures Run(x, es).state == Run(y, es).state
    decreases |es|
  {
    if es != [] {
      OnlookerChangesNothing(Observe(x, es[0]), Observe(y, es[0]), es[1..]);
    }
  }

  /** A POST takes effect: whatever happened while its writes were under way, 2 * (8n + 8) control steps
      of a quiet period later the fan shows exactly the output that the requested configuration
      specifies for the sensors. */
  lemma PostTakesEffect(x: Watch, p: Post, busy: seq<Event>, quiet: seq<Event>, w: Sensors, q: uint8)
    requires x.state.todo == []
    requires forall e | e in busy :: WritesSucceed(e)
    requires forall e | e in quiet :: Quiet(e) && Steady(w, e)
    requires AfterPost(x, p, busy).state.todo == []
    requires ControlSteps(quiet) >= 2 * (8 * |x.state.cfg.slots| + 8)
    requires OutputDefined(Requested(x.state.cfg, p), w.temp) && OutputAllowed(Requested(x.state.cfg, p), w, q)
    ensures var t := Run(x, [Receive(p)] + busy + quiet).state;
      t.percent == Clamp(q) && t.duty == Duty(Clamp(q), FAN_PWM_RES)
  {
    var m := AfterPost(x, p, busy);
    RunConcat(x, [Receive(p)] + busy, quiet);
    PostReached(x, p, busy);
    ConvergesWithin(m.state, w, quiet, q);
    OnlookerChangesNothing(m, Watch(m.state, w, []), quiet);
  }

  lemma TwoMore(a: nat, b: nat, r: nat, q: nat, w: nat)
    requires r < w && b * w - q >= a * w - r + 2 * w
    ensures b >= a + 2
  {
    assert (a + 1) * w == a * w + w;
    LargerFactor(b, a + 1, w);
  }

  lemma LargerFactor(a: nat, b: nat, w: nat)
    requires a * w > b * w
    ensures a > b
  {
  }

  // ------------------------------------------------------------ the imperative iteration

  /** The atomic iteration on the real store and a quiet small-step run of the same configuration and
      sensors leave the fan the same, once the run has completed an iteration of its own. */
  method IterationAgrees(cs: Storage, fan: Fan, temp: Temp, presence: bool, hour: int, minute: int,
                         ghost s: State, ghost es: seq<Event>)
    returns (pwm: uint8)
    requires fan.res == FAN_PWM_RES
    requires s.cfg == Seen(cs.Now(), ALL_OK) && s.pc == AtTemp && s.todo == []
    requires OutputDefined(s.cfg, temp)
    requires forall e | e in es :: Quiet(e) && Steady(Sensors(temp, presence, hour * 60 + minute), e)
    modifies cs, cs.slots, fan
    ensures var y := Run(Watch(s, Sensors(temp, presence, hour * 60 + minute), []), es);
      && (forall k | 0 <= k < |y.done| :: y.done[k].pwm == pwm)
      && (y.done != [] ==> y.state.percent == fan.percent && y.state.duty == fan.duty)
  {
    ghost var w := Sensors(temp, presence, hour * 60 + minute);
    pwm := ControlIteration(cs, fan, temp, presence, hour, minute, ALL_OK);
    SteadyFanIsSpecified(s, w, es, pwm);
  }
}
