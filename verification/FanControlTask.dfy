/** The body of fan_control_task in main/http_server.c, against the control law. */
module FanControlTask {
  import opened FirmwareTypes
  import opened FanCurve
  import opened FanDriver
  import opened Schedule
  import opened ConfigStorage
  import opened ControlLaw

  /** Which of the NVS reads of one iteration succeed. */
  datatype Reads = Reads(mode: bool, pwm: bool, tmin: bool, tmax: bool, slots: ReadFaults)

  /** The configuration an iteration sees: a failed read stands for the getter's default. */
  function Seen(s: Store, f: Reads): Config {
    Config(if f.mode then s.live.mode.GetOr(0) else 0,
           if f.pwm then s.live.manualPwm.GetOr(0) else 0,
           if f.tmin then s.live.autoTmin.GetOr(AUTO_TMIN_DEFAULT) else AUTO_TMIN_DEFAULT,
           if f.tmax then s.live.autoTmax.GetOr(AUTO_TMAX_DEFAULT) else AUTO_TMAX_DEFAULT,
           EnsureLoaded(s, f.slots).ram)
  }

  const ALL_OK := Reads(true, true, true, true, ReadFaults(true, true, true))

  /** A configuration with one setting changed. */
  function ApplySetting(cfg: Config, w: Setting): Config {
    match w
    case Mode(m) => cfg.(mode := m)
    case ManualPwm(p) => cfg.(manualPwm := p)
    case AutoTmin(t) => cfg.(tmin := t)
    case AutoTmax(t) => cfg.(tmax := t)
  }

  /** A setting written to flash is what the next iteration sees, and nothing else changes; a rejected
      write changes nothing; an erased store shows the defaults. */
  lemma SettingRoundTrip(s: Store, w: Setting, f: WriteFaults)
    ensures Seen(SaveSetting(s, w, f), ALL_OK)
         == if f.open && f.write then ApplySetting(Seen(s, ALL_OK), w) else Seen(s, ALL_OK)
    ensures s.live == EMPTY_FLASH ==> Seen(s, ALL_OK) == Config(0, 0, 24, 28, Seen(s, ALL_OK).slots)
  {
  }

  /** A setting committed to flash is shown after a power cycle, whether or not it survived before the
      commit, and so are the other settings as they were; the slots are what flash then gives. */
  lemma SettingSurvives(s: Store, w: Setting, f: WriteFaults)
    requires Committed(f)
    ensures var c := Seen(PowerCycle(SaveSetting(s, w, f)), ALL_OK);
      c == ApplySetting(Seen(s, ALL_OK), w).(slots := c.slots)
  {
  }

  /** Setting by setting, for an accepted write; and what a failed read shows. */
  lemma SettingsByName(s: Store, x: uint8, t: int32, f: WriteFaults, r: Reads)
    ensures f.open && f.write ==>
      && Seen(SaveSetting(s, Mode(x), f), ALL_OK).mode == x
      && Seen(SaveSetting(s, ManualPwm(x), f), ALL_OK).manualPwm == x
      && Seen(SaveSetting(s, AutoTmin(t), f), ALL_OK).tmin == t
      && Seen(SaveSetting(s, AutoTmax(t), f), ALL_OK).tmax == t
    ensures !r.mode ==> Seen(s, r).mode == 0
    ensures !r.pwm ==> Seen(s, r).manualPwm == 0
    ensures !r.tmin ==> Seen(s, r).tmin == 24
    ensures !r.tmax ==> Seen(s, r).tmax == 28
    ensures !s.loaded && !ReadOk(r.slots)
      ==> forall k | 0 <= k < |s.ram| :: Seen(s, r).slots[k] == Slot(0, 0, 0, 0, 0, 24, 28)
  {
  }

  /** The uint8_t conversion on the ramp: any byte where C leaves it undefined. */
  method ConvertRamp(temp: Temp, lo: int, hi: int) returns (pwm: uint8)
    requires lo < hi && !AtMost(temp, lo) && !AtLeast(temp, hi)
    ensures RampDefined(temp, lo, hi) ==> pwm == Ramp(temp.t, lo, hi)
  {
    if RampDefined(temp, lo, hi) {
      RampBounds(temp.t, lo, hi);
      pwm := ((temp.t - lo as real) * 100.0 / (hi - lo) as real).Floor;
    } else {
      var junk: uint8 :| 0 <= junk < 0x100;
      pwm := junk;
    }
  }

  /** The four branches that the automatic and the program mode share. */
  method CurvePercent(temp: Temp, lo: int, hi: int) returns (pwm: uint8)
    ensures CurveAllows(temp, lo, hi, pwm)
  {
    if hi <= lo {
      pwm := 100;
    } else if AtMost(temp, lo) {
      pwm := 0;
    } else if AtLeast(temp, hi) {
      pwm := 100;
    } else {
      pwm := ConvertRamp(temp, lo, hi);
    }
  }

  method AutoPercent(cs: Storage, temp: Temp, presence: bool, f: Reads) returns (pwm: uint8)
    ensures presence ==> CurveAllows(temp, Seen(cs.Now(), f).tmin, Seen(cs.Now(), f).tmax, pwm)
    ensures !presence ==> pwm == 0
  {
    if presence {
      var tmin := cs.GetAutoTmin(f.tmin);
      var tmax := cs.GetAutoTmax(f.tmax);
      pwm := CurvePercent(temp, tmin, tmax);
    } else {
      pwm := 0;
    }
  }

  /** The window test of the scan. */
  method InsideWindow(slot: Slot, minute: int) returns (inside: bool)
    ensures inside == Inside(StartMin(slot), EndMin(slot), minute)
  {
    var startMin := slot.hStart * 60 + slot.mStart;
    var endMin := slot.hEnd * 60 + slot.mEnd;
    if startMin == endMin {
      inside := false;
    } else if startMin < endMin {
      inside := minute >= startMin && minute < endMin;
    } else {
      inside := minute >= startMin || minute < endMin;
    }
  }

  lemma ScanDecides(slots: seq<Slot>, i: nat, env: Sensors, pwm: int)
    requires Wins(slots, i, env.minute) && CurveAllows(env.temp, slots[i].t0, slots[i].t100, pwm)
    ensures ScheduleAllows(slots, env, pwm)
  {
  }

  /** The scan over the slots 1..n of a table of any size. */
  method ProgramPercent(cs: Storage, env: Sensors, load: ReadFaults) returns (pwm: uint8)
    modifies cs, cs.slots
    ensures env.presence ==> ScheduleAllows(EnsureLoaded(old(cs.Now()), load).ram, env, pwm)
    ensures !env.presence ==> pwm == 0
    ensures cs.Now() == if env.presence && cs.slots.Length > 0 then EnsureLoaded(old(cs.Now()), load)
                        else old(cs.Now())
  {
    if !env.presence {
      return 0;
    }
    ghost var table := EnsureLoaded(cs.Now(), load).ram;
    var pwmCalc: uint8 := 0;
    var found := false;
    var slotIndex := 1;
    while slotIndex <= cs.slots.Length
      invariant 1 <= slotIndex <= cs.slots.Length + 1
      invariant !found
      invariant forall j | 0 <= j < slotIndex - 1 :: !Covers(table[j], env.minute)
      invariant cs.Now() == if slotIndex == 1 then old(cs.Now()) else EnsureLoaded(old(cs.Now()), load)
    {
      var slot := cs.GetSlot(slotIndex, load);
      assert slot == table[slotIndex - 1];
      slotIndex := slotIndex + 1;
      if slot.active == 0 { continue; }
      var inside := InsideWindow(slot, env.minute);
      if inside {
        pwmCalc := CurvePercent(env.temp, slot.t0, slot.t100);
        found := true;
        ScanDecides(table, slotIndex - 2, env, pwmCalc);
        break;
      }
    }
    pwm := if found then pwmCalc else 0;
  }

  /** One iteration: whatever the readings and whichever reads fail, the fan ends at an output the
      control law allows for the configuration seen. */
  method ControlIteration(cs: Storage, fan: Fan, temp: Temp, presence: bool, hour: int, minute: int, f: Reads)
    returns (pwm: uint8)
    modifies cs, cs.slots, fan
    ensures OutputAllowed(Seen(old(cs.Now()), f), Sensors(temp, presence, hour * 60 + minute), pwm)
    ensures fan.percent == Clamp(pwm) && fan.duty == Duty(Clamp(pwm), fan.res)
    ensures cs.Now() == if Seen(old(cs.Now()), f).mode == 2 && presence && cs.slots.Length > 0
                        then EnsureLoaded(old(cs.Now()), f.slots) else old(cs.Now())
  {
    var mode := cs.GetMode(f.mode);
    pwm := 0;
    if mode == 0 {
      pwm := cs.GetManualPwm(f.pwm);
    } else if mode == 1 {
      pwm := AutoPercent(cs, temp, presence, f);
    } else if mode == 2 {
      pwm := ProgramPercent(cs, Sensors(temp, presence, hour * 60 + minute), f.slots);
    } else {
      pwm := 0;
    }
    fan.SetPercent(pwm);
  }

  /** The numbers of a status reply; the two sensor readings go through as they are. */
  datatype Status = Status(temp: Temp, presence: bool, mode: uint8, pwm: uint8)

  /** The status handler reports the mode an iteration would see now, and the one percentage that
      explains the duty on the fan, whoever set it. */
  method StatusHandler(cs: Storage, fan: Fan, temp: Temp, presence: bool, f: Reads) returns (r: Status)
    requires fan.Valid() && fan.res == FAN_PWM_RES
    ensures r == Status(temp, presence, Seen(cs.Now(), f).mode, r.pwm)
    ensures r.pwm <= 100 && r.pwm == (100 * fan.duty + 1022) / 1023
  {
    var mode := cs.GetMode(f.mode);
    var pwm := fan.GetPercent();
    FullScale();
    r := Status(temp, presence, mode, pwm);
  }

  lemma FullScale()
    ensures DutyMax(FAN_PWM_RES) == 1023
  {
    assert Pow2(5) == 32;
  }
}
