/** The automatic, manual and slot POST handlers of main/http_server.c run to completion on the real
    store: they make the configuration the interleaved model says they request. */
module ConfigHandlers {
  import opened FirmwareTypes
  import opened FanDriver
  import opened ConfigStorage
  import opened SlotHandlers
  import opened ControlLaw
  import opened FanControlTask
  import opened Convergence

  method SetAutoHandler(cs: Storage, tmin: int32, tmax: int32, f: WriteFaults, g: WriteFaults, h: WriteFaults)
    modifies cs.nvs
    ensures cs.Now() == SaveSetting(SaveSetting(SaveSetting(old(cs.Now()), AutoTmin(tmin), f), AutoTmax(tmax), g), Mode(1), h)
    ensures Written(f) && Written(g) && Written(h)
      ==> Seen(cs.Now(), ALL_OK) == Requested(Seen(old(cs.Now()), ALL_OK), PostAuto(tmin, tmax))
    ensures Written(f) ==> cs.nvs.live.autoTmin == Some(tmin)
    ensures Written(g) ==> cs.nvs.live.autoTmax == Some(tmax)
    ensures Written(h) ==> cs.nvs.live.mode == Some(1)
  {
    cs.Save(AutoTmin(tmin), f);
    cs.Save(AutoTmax(tmax), g);
    cs.Save(Mode(1), h);
  }

  method ManualPwmHandler(cs: Storage, fan: Fan, requested: int32, f: WriteFaults, g: WriteFaults)
    modifies cs.nvs, fan
    ensures Written(f) && Written(g)
      ==> Seen(cs.Now(), ALL_OK) == Requested(Seen(old(cs.Now()), ALL_OK), PostManual(requested))
    ensures fan.percent == if requested < 0 then 0 else if requested > 100 then 100 else requested
    ensures Written(f) ==> cs.nvs.live.manualPwm == Some(fan.percent)
    ensures Written(g) ==> cs.nvs.live.mode == Some(0)
    ensures fan.percent == ClampInt(requested) && fan.duty == Duty(ClampInt(requested), fan.res)
    ensures Written(f) && Written(g) ==> forall env :: OutputAllowed(Seen(cs.Now(), ALL_OK), env, fan.percent)
  {
    var pwm: int := requested;
    if pwm < 0 { pwm := 0; }
    if pwm > 100 { pwm := 100; }
    cs.Save(ManualPwm(pwm), f);
    cs.Save(Mode(0), g);
    fan.SetPercent(pwm);
  }

  /** A slot POST or erase, through the store with its lazy load and write-through, requests what the
      interleaved model says, as soon as the settings it writes are accepted. */
  lemma SlotHandlersMakeRequested(s: Store, q: Request, f: Faults)
    requires ValidId(s, q.slot) && ReadOk(f.load)
    ensures Written(f.mode)
      ==> Seen(AfterSet(s, q, f), ALL_OK) == Requested(Seen(s, ALL_OK), PostSlot(q.slot - 1, SlotOf(q)))
    ensures Seen(AfterErase(s, q.slot, f), ALL_OK) == Requested(Seen(s, ALL_OK), PostErase(q.slot - 1))
  {
    SettingRoundTrip(SetSlot(s, q.slot, SlotOf(q), f.load, f.pad, f.slots), Mode(2), f.mode);
  }
}
