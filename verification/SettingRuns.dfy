/** The settings beside the slot table through the same runs: failing writes, power cycles and resets. */
module SettingRuns {
  import opened Schedule
  import opened ConfigStorage
  import opened ControlLaw
  import opened FanControlTask
  import opened StorageRuns

  /** The settings that flash contents show, without the slots. */
  function Shown(f: Flash): Config {
    Config(f.mode.GetOr(0), f.manualPwm.GetOr(0), f.autoTmin.GetOr(24), f.autoTmax.GetOr(28), [])
  }

  lemma ShownIsSeen(s: Store)
    ensures Shown(s.live) == Seen(s, ALL_OK).(slots := [])
  {
  }

  /** Reads give what a power cycle would. */
  predicate Synced(s: Store) {
    Shown(s.live) == Shown(s.durable)
  }

  /** Nothing is wiped or erased, and a setting that is accepted also reaches flash. Saves of slots may fail
      in any way. */
  predicate Kind(e: Event) {
    && !e.Wipe? && (e.Boot? ==> !Erases(e.mount))
    && (e.SetScalar? && e.save.open && e.save.write ==> e.save.persisted || e.save.commit)
  }

  /** The settings after a run of saves, the rejected ones left out. */
  function Accepted(cfg: Config, es: seq<Event>): Config
    decreases |es|
  {
    if es == [] then cfg
    else if es[0].SetScalar? && es[0].save.open && es[0].save.write
    then Accepted(ApplySetting(cfg, es[0].setting), es[1..])
    else Accepted(cfg, es[1..])
  }

  lemma KindStep(s: Store, e: Event)
    requires Synced(s) && Kind(e)
    ensures Synced(Step(s, e))
    ensures Shown(Step(s, e).live) == Accepted(Shown(s.live), [e])
  {
    assert [e][1..] == [];
  }

  lemma {:induction false} KindRun(s: Store, es: seq<Event>)
    requires Synced(s) && forall e | e in es :: Kind(e)
    ensures Synced(Run(s, es)) && Shown(Run(s, es).live) == Accepted(Shown(s.live), es)
    decreases |es|
  {
    if es != [] {
      KindStep(s, es[0]);
      assert [es[0]][1..] == [];
      assert forall e | e in es[1..] :: e in es;
      KindRun(Step(s, es[0]), es[1..]);
    }
  }

  /** After any run at all, one committed save of a setting followed by kind events: an iteration before a
      power cycle and one after it see the same settings, those of the last accepted save of each. */
  lemma SettingsSurvive(start: Store, before: seq<Event>, w: Setting, f: WriteFaults, after: seq<Event>)
    requires Committed(f) && forall e | e in after :: Kind(e)
    ensures var s := Run(start, before); var t := Run(Step(s, SetScalar(w, f)), after);
      Seen(t, ALL_OK).(slots := []) == Seen(Step(t, PowerLoss), ALL_OK).(slots := [])
        == Accepted(ApplySetting(Seen(s, ALL_OK), w).(slots := []), after)
  {
    var s := Run(start, before);
    var saved := Step(s, SetScalar(w, f));
    KindRun(saved, after);
    var t := Run(saved, after);
    ShownIsSeen(s);
    ShownIsSeen(t);
    ShownIsSeen(Step(t, PowerLoss));
  }

  /** After a committed reset, a power cycle and any boot show the defaults, in the settings and in every
      slot, even if the load fails. */
  lemma ResetSurvives(s: Store, f: WriteFaults, mount: Mount, load: ReadFaults)
    requires Committed(f)
    ensures var c := Seen(Step(Step(Step(s, Wipe(f)), PowerLoss), Boot(mount, load)), ALL_OK);
      && c.(slots := []) == Config(0, 0, 24, 28, [])
      && forall k | 0 <= k < |c.slots| :: c.slots[k] == Slot(0, 0, 0, 0, 0, 24, 28)
  {
  }
}
