/** When a control iteration that overlaps a POST can output what neither the old nor the requested
    configuration allows: TearsExactly answers it for every POST by a condition on the two
    configurations alone. */
module Tearing {
  import opened FirmwareTypes
  import opened Schedule
  import opened ConfigStorage
  import opened ControlLaw
  import opened Convergence

  /** Steps whose reads and writes succeed. */
  predicate Calm(e: Event) {
    WritesSucceed(e) && Quiet(e)
  }

  /** The clock shows a minute of the day. */
  predicate Timely(e: Event) {
    e.Control? ==> InDay(e.sample.minute)
  }

  predicate Idle(s: State) {
    s.todo == [] && s.pc == AtTemp
  }

  ghost predicate Torn(cfg: Config, p: Post, x: Entry) {
    !Matches(cfg, x) && !Matches(Requested(cfg, p), x)
  }

  /** No entry of a run through one POST is torn. */
  ghost predicate NoTear(s: State, now: Sensors, p: Post, before: seq<Event>, busy: seq<Event>) {
    forall x | x in Run(Watch(s, now, []), before + [Receive(p)] + busy).done :: !Torn(s.cfg, p, x)
  }

  /** No run through POST p from configuration cfg has a torn entry. */
  ghost predicate NeverTears(cfg: Config, p: Post) {
    forall s: State, now: Sensors, before: seq<Event>, busy: seq<Event> |
      && s.cfg == cfg && Idle(s) && InDay(now.minute)
      && (forall e | e in before + busy :: Calm(e) && Timely(e)) ::
      NoTear(s, now, p, before, busy)
  }

  // ------------------------------------------------------------ mixtures

  /** POSTs that write what an iteration of the present mode reads piece by piece. */
  predicate Mixes(cfg: Config, p: Post) {
    match p
    case PostAuto(_, _) => cfg.mode == 1
    case PostManual(_) => false
    case PostSlot(i, _) => cfg.mode == 2 && i < |cfg.slots|
    case PostErase(i) => cfg.mode == 2 && i < |cfg.slots|
  }

  /** The record a slot POST or an erase stores. */
  function NewRecord(p: Post): Slot
    requires p.PostSlot? || p.PostErase?
  {
    if p.PostSlot? then p.slot else DEFAULT_SLOT
  }

  predicate MixedRecord(a: Slot, b: Slot, x: Slot) {
    && (x.active == a.active || x.active == b.active)
    && (x.hStart == a.hStart || x.hStart == b.hStart) && (x.mStart == a.mStart || x.mStart == b.mStart)
    && (x.hEnd == a.hEnd || x.hEnd == b.hEnd) && (x.mEnd == a.mEnd || x.mEnd == b.mEnd)
    && (x.t0 == a.t0 || x.t0 == b.t0) && (x.t100 == a.t100 || x.t100 == b.t100)
  }

  function WithSlot(cfg: Config, i: nat, x: Slot): Config
    requires i < |cfg.slots|
  {
    cfg.(slots := cfg.slots[i := x])
  }

  /** Configurations that take each value the POST rewrites from the old or from the requested one. */
  predicate Mixture(cfg: Config, p: Post, c: Config) {
    Mixes(cfg, p) &&
    match p
    case PostAuto(tmin, tmax) =>
      && c == cfg.(tmin := c.tmin, tmax := c.tmax)
      && (c.tmin == cfg.tmin || c.tmin == tmin) && (c.tmax == cfg.tmax || c.tmax == tmax)
    case PostManual(_) => false
    case _ =>
      && |c.slots| == |cfg.slots| && c == WithSlot(cfg, p.index, c.slots[p.index])
      && MixedRecord(cfg.slots[p.index], NewRecord(p), c.slots[p.index])
  }

  /** A byte that a mixture allows, and neither of the two configurations does. */
  ghost predicate TornByMixture(cfg: Config, p: Post, c: Config, env: Sensors, pwm: uint8) {
    && Mixture(cfg, p, c) && InDay(env.minute)
    && OutputAllowed(c, env, pwm) && !OutputAllowed(cfg, env, pwm) && !OutputAllowed(Requested(cfg, p), env, pwm)
  }

  ghost predicate MixTears(cfg: Config, p: Post) {
    exists c, env, pwm: uint8 :: TornByMixture(cfg, p, c, env, pwm)
  }

  // ------------------------------------------------------------ memory during a POST

  /** Memory after the first k writes. */
  function After(cfg: Config, p: Post, k: nat): Config
    requires k <= |Writes(p)|
  {
    ApplyAll(cfg, Writes(p)[..k])
  }

  lemma AfterNext(cfg: Config, p: Post, k: nat)
    requires k < |Writes(p)|
    ensures After(cfg, p, k + 1) == ApplyWrite(After(cfg, p, k), Writes(p)[k])
  {
    assert Writes(p)[..k + 1] == Writes(p)[..k] + [Writes(p)[k]];
    ApplyAllConcat(cfg, Writes(p)[..k], [Writes(p)[k]]);
    var m := After(cfg, p, k);
    assert ApplyAll(m, [Writes(p)[k]]) == ApplyWrite(m, Writes(p)[k]);
  }

  lemma WholeAfter(cfg: Config, p: Post)
    ensures After(cfg, p, 0) == cfg && After(cfg, p, |Writes(p)|) == Requested(cfg, p)
  {
    assert Writes(p)[..|Writes(p)|] == Writes(p);
    WritesMakeRequested(cfg, p);
  }

  lemma AutoAfter(cfg: Config, p: Post)
    requires p.PostAuto?
    ensures |Writes(p)| == 3 && After(cfg, p, 0) == cfg && After(cfg, p, 1) == cfg.(tmin := p.tmin)
    ensures After(cfg, p, 2) == cfg.(tmin := p.tmin, tmax := p.tmax) && After(cfg, p, 3) == Requested(cfg, p)
  {
    AfterNext(cfg, p, 0);
    AfterNext(cfg, p, 1);
    WholeAfter(cfg, p);
  }

  lemma ManualAfter(cfg: Config, p: Post)
    requires p.PostManual?
    ensures |Writes(p)| == 4 && After(cfg, p, 0) == cfg && After(cfg, p, 1) == cfg.(manualPwm := ClampInt(p.pwm))
    ensures After(cfg, p, 2) == After(cfg, p, 3) == After(cfg, p, 4) == Requested(cfg, p)
  {
    AfterNext(cfg, p, 0);
    AfterNext(cfg, p, 1);
    AfterNext(cfg, p, 2);
    WholeAfter(cfg, p);
  }

  lemma {:induction false} FieldWritesPrefix(i: nat, slot: Slot, n: nat, k: nat)
    requires k <= n
    ensures |FieldWrites(i, slot, n)| == n && FieldWrites(i, slot, n)[..k] == FieldWrites(i, slot, k)
    ensures k < n ==> FieldWrites(i, slot, n)[k] == WriteField(i, k, slot)
  {
    if n > 0 {
      if k < n {
        FieldWritesPrefix(i, slot, n - 1, k);
        assert FieldWrites(i, slot, n)[..k] == FieldWrites(i, slot, n - 1)[..k];
      } else {
        FieldWritesPrefix(i, slot, n - 1, n - 1);
      }
    }
  }

  lemma SlotWrites(p: Post)
    requires p.PostSlot? || p.PostErase?
    ensures |Writes(p)| == if p.PostSlot? then FIELDS + 1 else FIELDS
    ensures forall k | 0 <= k < FIELDS :: Writes(p)[k] == WriteField(p.index, k, NewRecord(p))
  {
    forall k | 0 <= k < FIELDS
      ensures |FieldWrites(p.index, NewRecord(p), FIELDS)| == FIELDS
      ensures Writes(p)[k] == WriteField(p.index, k, NewRecord(p))
    {
      FieldWritesPrefix(p.index, NewRecord(p), FIELDS, k);
    }
    FieldWritesPrefix(p.index, NewRecord(p), FIELDS, FIELDS);
  }

  lemma SlotAfter(cfg: Config, p: Post, k: nat)
    requires (p.PostSlot? || p.PostErase?) && k <= FIELDS
    ensures k <= |Writes(p)|
    ensures After(cfg, p, k) == if p.index < |cfg.slots|
                                then WithSlot(cfg, p.index, Merge(NewRecord(p), cfg.slots[p.index], k)) else cfg
  {
    SlotWrites(p);
    FieldWritesPrefix(p.index, NewRecord(p), FIELDS, k);
    FieldWritesMerge(cfg, p.index, NewRecord(p), k);
    assert Writes(p)[..k] == FieldWrites(p.index, NewRecord(p), FIELDS)[..k];
  }

  lemma {:induction false} MergeMixed(src: Slot, dst: Slot, k: nat)
    ensures MixedRecord(dst, src, Merge(src, dst, k))
  {
    if k > 0 {
      MergeMixed(src, dst, k - 1);
    }
  }

  /** Between its writes, a POST that mixes leaves a mixture in memory. */
  lemma MixtureAfter(cfg: Config, p: Post, k: nat)
    requires Mixes(cfg, p) && k <= |Writes(p)|
    ensures Mixture(cfg, p, After(cfg, p, k))
  {
    if p.PostAuto? {
      AutoAfter(cfg, p);
    } else {
      SlotWrites(p);
      WholeAfter(cfg, p);
      if k <= FIELDS {
        SlotAfter(cfg, p, k);
        MergeMixed(NewRecord(p), cfg.slots[p.index], k);
      }
    }
  }

  // ------------------------------------------------------------ iterations over a mixture

  /** The next read is of a value that the POST rewrites. */
  predicate AtTarget(p: Post, pc: Pc) {
    match p
    case PostAuto(_, _) => pc.AtTmin? || pc.AtTmax?
    case PostManual(_) => false
    case _ => pc.AtSlot? && pc.index == p.index && pc.field < FIELDS
  }

  /** The next read of the iteration finds in m what it would find in c. */
  predicate Agrees(p: Post, c: Config, m: Config, pc: Pc) {
    match pc
    case AtTmin(_) => m.tmin == c.tmin
    case AtTmax(_, _) => m.tmax == c.tmax
    case AtSlot(_, _, j, f, _) =>
      AtTarget(p, pc) && j < |c.slots| && j < |m.slots| ==> CopyField(ZERO_SLOT, m.slots[j], f) == CopyField(ZERO_SLOT, c.slots[j], f)
    case _ => true
  }

  lemma FieldCopied(dst: Slot, a: Slot, b: Slot, f: nat)
    requires f < FIELDS ==> CopyField(ZERO_SLOT, a, f) == CopyField(ZERO_SLOT, b, f)
    ensures CopyField(dst, a, f) == CopyField(dst, b, f)
  {
  }

  /** One step over memory m keeps the iteration on c, if the step reads the same in both. */
  lemma AgreeingStep(cfg: Config, p: Post, c: Config, x: Watch, e: Event)
    requires Mixture(cfg, p, c) && Mixture(cfg, p, x.state.cfg) && Agrees(p, c, x.state.cfg, x.state.pc)
    requires e.Control? && e.ok && Fresh(c, x.now, x.state.pc)
    ensures var z := x.(state := x.state.(cfg := c));
      Observe(x, e).state.pc == Observe(z, e).state.pc && Observe(x, e).now == Observe(z, e).now
    ensures Fresh(c, Observe(x, e).now, Observe(x, e).state.pc)
  {
    var pc, m := x.state.pc, x.state.cfg;
    if pc.AtSlot? && pc.index < |m.slots| && pc.field < FIELDS {
      if pc.index != p.index { assert m.slots[pc.index] == cfg.slots[pc.index] == c.slots[pc.index]; }
      FieldCopied(pc.copy, m.slots[pc.index], c.slots[pc.index], pc.field);
    }
    ControlKeepsFresh(x.(state := x.state.(cfg := c)), e);
  }

  /** The mixture an iteration turns out to follow: c, but with what it reads next taken from m. */
  function Adopt(p: Post, c: Config, m: Config, pc: Pc): Config {
    match pc
    case AtTmin(_) => c.(tmin := m.tmin)
    case AtTmax(_, _) => c.(tmax := m.tmax)
    case AtSlot(_, _, j, f, _) =>
      if AtTarget(p, pc) && j < |c.slots| && j < |m.slots|
      then WithSlot(c, j, CopyField(c.slots[j], m.slots[j], f)) else c
    case _ => c
  }

  lemma {:induction false} MergeIgnores(src: Slot, other: Slot, dst: Slot, f: nat, k: nat)
    requires k <= f < FIELDS
    ensures Merge(CopyField(src, other, f), dst, k) == Merge(src, dst, k)
  {
    if k > 0 {
      MergeIgnores(src, other, dst, f, k - 1);
    }
  }

  lemma AdoptFresh(cfg: Config, p: Post, c: Config, m: Config, now: Sensors, pc: Pc)
    requires Mixture(cfg, p, c) && Mixture(cfg, p, m) && Fresh(c, now, pc)
    ensures var d := Adopt(p, c, m, pc); Mixture(cfg, p, d) && Agrees(p, d, m, pc) && Fresh(d, now, pc)
  {
    if pc.AtSlot? && AtTarget(p, pc) {
      var d := Adopt(p, c, m, pc);
      assert d.slots == cfg.slots[p.index := d.slots[p.index]];
      MergeIgnores(c.slots[p.index], m.slots[p.index], ZERO_SLOT, pc.field, pc.field);
    }
  }

  // ------------------------------------------------------------ every entry is explained

  /** What a POST that does not mix can leave in memory between its writes. */
  predicate Between(cfg: Config, p: Post, m: Config) {
    var asked := Requested(cfg, p);
    m == asked ||
    match p
    case PostManual(_) => m == cfg.(manualPwm := m.manualPwm) && m.manualPwm in {cfg.manualPwm, asked.manualPwm}
    case PostAuto(_, _) => m == cfg.(tmin := m.tmin, tmax := m.tmax)
    case _ => m == cfg.(slots := m.slots) && (p.index >= |cfg.slots| ==> m == cfg)
  }

  lemma BetweenAfter(cfg: Config, p: Post, k: nat)
    requires k <= |Writes(p)|
    ensures Between(cfg, p, After(cfg, p, k))
  {
    match p
    case PostAuto(_, _) => AutoAfter(cfg, p);
    case PostManual(_) => ManualAfter(cfg, p);
    case _ =>
      SlotWrites(p);
      WholeAfter(cfg, p);
      if k <= FIELDS { SlotAfter(cfg, p, k); }
  }

  /** What the rest of the iteration will read agrees with c. */
  predicate Reads(c: Config, m: Config, pc: Pc) {
    match pc
    case AtManual => m.manualPwm == c.manualPwm
    case AtTmin(_) => m.tmin == c.tmin && m.tmax == c.tmax
    case AtTmax(_, _) => m.tmax == c.tmax
    case AtClock(_) => m.slots == c.slots
    case AtSlot(_, _, _, _, _) => m.slots == c.slots
    case _ => true
  }

  ghost predicate Follows(c: Config, m: Config, now: Sensors, pc: Pc) {
    Fresh(c, now, pc) && Reads(c, m, pc)
  }

  /** The configuration the iteration follows: a mixture, or without mixing one of the two. */
  ghost predicate Decided(cfg: Config, p: Post, m: Config, now: Sensors, pc: Pc) {
    if Mixes(cfg, p) then exists c :: Mixture(cfg, p, c) && Fresh(c, now, pc)
    else Follows(cfg, m, now, pc) || Follows(Requested(cfg, p), m, now, pc)
  }

  ghost predicate Explained(cfg: Config, p: Post, x: Entry) {
    if Mixes(cfg, p) then exists c :: Mixture(cfg, p, c) && Matches(c, x)
    else !Torn(cfg, p, x)
  }

  /** Past the mode read, an iteration that follows c goes on following it. */
  lemma FollowsOn(c: Config, x: Watch, e: Event)
    requires e.Control? && e.ok && !x.state.pc.AtMode? && Follows(c, x.state.cfg, x.now, x.state.pc)
    ensures var y := Observe(x, e); Follows(c, y.state.cfg, y.now, y.state.pc)
  {
    var z := x.(state := x.state.(cfg := c));
    ControlKeepsFresh(z, e);
    assert Observe(z, e).state.pc == Observe(x, e).state.pc;
  }

  lemma ModeDecided(cfg: Config, p: Post, x: Watch, e: Event)
    requires !Mixes(cfg, p) && Between(cfg, p, x.state.cfg) && e.Control? && e.ok && x.state.pc.AtMode?
    requires Decided(cfg, p, x.state.cfg, x.now, x.state.pc)
    ensures var y := Observe(x, e); Decided(cfg, p, y.state.cfg, y.now, y.state.pc)
  {
    var m, asked, y := x.state.cfg, Requested(cfg, p), Observe(x, e);
    if m == asked || (p.PostManual? && m.mode == 0 && m.manualPwm == asked.manualPwm) {
      assert Follows(asked, m, y.now, y.state.pc);
    } else {
      assert Follows(cfg, m, y.now, y.state.pc);
    }
  }

  lemma ControlDecided(cfg: Config, p: Post, k: nat, x: Watch, e: Event)
    requires k <= |Writes(p)| && x.state.cfg == After(cfg, p, k) && e.Control? && e.ok
    requires Decided(cfg, p, x.state.cfg, x.now, x.state.pc)
    ensures var y := Observe(x, e); Decided(cfg, p, y.state.cfg, y.now, y.state.pc)
  {
    var m, pc, asked := x.state.cfg, x.state.pc, Requested(cfg, p);
    if Mixes(cfg, p) {
      var c :| Mixture(cfg, p, c) && Fresh(c, x.now, pc);
      MixtureAfter(cfg, p, k);
      AdoptFresh(cfg, p, c, m, x.now, pc);
      AgreeingStep(cfg, p, Adopt(p, c, m, pc), x, e);
    } else if pc.AtMode? {
      BetweenAfter(cfg, p, k);
      ModeDecided(cfg, p, x, e);
    } else {
      if Follows(cfg, m, x.now, pc) { FollowsOn(cfg, x, e); }
      if Follows(asked, m, x.now, pc) { FollowsOn(asked, x, e); }
    }
  }

  lemma SettingDecided(cfg: Config, p: Post, k: nat, now: Sensors, pc: Pc)
    requires !Mixes(cfg, p) && (p.PostAuto? || p.PostManual?)
    requires k < |Writes(p)| && Decided(cfg, p, After(cfg, p, k), now, pc)
    ensures Decided(cfg, p, After(cfg, p, k + 1), now, pc)
  {
    if p.PostAuto? { AutoAfter(cfg, p); } else { ManualAfter(cfg, p); }
  }

  lemma RecordDecided(cfg: Config, p: Post, k: nat, now: Sensors, pc: Pc)
    requires !Mixes(cfg, p) && (p.PostSlot? || p.PostErase?)
    requires k < |Writes(p)| && Decided(cfg, p, After(cfg, p, k), now, pc)
    ensures Decided(cfg, p, After(cfg, p, k + 1), now, pc)
  {
    SlotWrites(p);
    SlotAfter(cfg, p, k);
    if k == FIELDS { WholeAfter(cfg, p); } else { SlotAfter(cfg, p, k + 1); }
  }

  /** Without mixing, a write disturbs what one of the two configurations still has to read only by
      making it what the other has. */
  lemma WriteDecided(cfg: Config, p: Post, k: nat, now: Sensors, pc: Pc)
    requires !Mixes(cfg, p) && k < |Writes(p)| && Decided(cfg, p, After(cfg, p, k), now, pc)
    ensures Decided(cfg, p, After(cfg, p, k + 1), now, pc)
  {
    if p.PostAuto? || p.PostManual? { SettingDecided(cfg, p, k, now, pc); } else { RecordDecided(cfg, p, k, now, pc); }
  }

  /** k writes of p done, the iteration decided, and every entry so far explained. */
  ghost predicate Passing(cfg: Config, p: Post, k: nat, x: Watch) {
    && k <= |Writes(p)|
    && x.state.todo == Writes(p)[k..]
    && x.state.cfg == After(cfg, p, k)
    && Decided(cfg, p, x.state.cfg, x.now, x.state.pc)
    && forall y | y in x.done :: Explained(cfg, p, y)
  }

  lemma ControlPasses(cfg: Config, p: Post, k: nat, x: Watch, e: Event)
    requires Passing(cfg, p, k, x) && e.Control? && e.ok
    ensures Passing(cfg, p, k, Observe(x, e))
  {
    ControlDecided(cfg, p, k, x, e);
    ControlStepFrame(x, e);
    if x.state.pc.AtDuty? {
      assert Explained(cfg, p, Entry(x.now, x.state.pc.pwm)) by {
        if Mixes(cfg, p) {
          var c :| Mixture(cfg, p, c) && Fresh(c, x.now, x.state.pc);
          assert Matches(c, Entry(x.now, x.state.pc.pwm));
        }
      }
    }
  }

  lemma HandlerEffect(x: Watch)
    requires x.state.todo != []
    ensures var y := Observe(x, Handler(true));
      && y.state.todo == x.state.todo[1..] && y.state.cfg == ApplyWrite(x.state.cfg, x.state.todo[0])
      && y.state.pc == x.state.pc && y.now == x.now && y.done == x.done
  {
  }

  lemma HandlerAfter(cfg: Config, p: Post, k: nat, x: Watch)
    requires k < |Writes(p)| && x.state.todo == Writes(p)[k..] && x.state.cfg == After(cfg, p, k)
    ensures var y := Observe(x, Handler(true));
      && y.state.todo == Writes(p)[k + 1..] && y.state.cfg == After(cfg, p, k + 1)
      && y.state.pc == x.state.pc && y.now == x.now && y.done == x.done
  {
    AfterNext(cfg, p, k);
    assert Writes(p)[k..][0] == Writes(p)[k] && Writes(p)[k..][1..] == Writes(p)[k + 1..];
    HandlerEffect(x);
  }

  lemma HandlerPasses(cfg: Config, p: Post, k: nat, x: Watch)
    requires Passing(cfg, p, k, x) && k < |Writes(p)|
    ensures Passing(cfg, p, k + 1, Observe(x, Handler(true)))
  {
    HandlerAfter(cfg, p, k, x);
    if !Mixes(cfg, p) { WriteDecided(cfg, p, k, x.now, x.state.pc); }
  }

  lemma {:induction false} BusyPasses(cfg: Config, p: Post, k: nat, x: Watch, es: seq<Event>)
    requires Passing(cfg, p, k, x) && forall e | e in es :: Calm(e)
    ensures forall y | y in Run(x, es).done :: Explained(cfg, p, y)
    decreases |es|
  {
    if es != [] {
      assert Calm(es[0]);
      assert forall e | e in es[1..] :: e in es;
      if es[0].Control? {
        ControlPasses(cfg, p, k, x, es[0]);
        BusyPasses(cfg, p, k, Observe(x, es[0]), es[1..]);
      } else if k < |Writes(p)| {
        HandlerPasses(cfg, p, k, x);
        BusyPasses(cfg, p, k + 1, Observe(x, es[0]), es[1..]);
      } else {
        assert Observe(x, es[0]) == x;
        BusyPasses(cfg, p, k, x, es[1..]);
      }
    }
  }

  lemma ThroughPost(x: Watch, p: Post, before: seq<Event>, busy: seq<Event>)
    ensures Run(x, before + [Receive(p)] + busy) == Run(Observe(Run(x, before), Receive(p)), busy)
  {
    assert before + [Receive(p)] + busy == before + ([Receive(p)] + busy);
    RunConcat(x, before, [Receive(p)] + busy);
    assert ([Receive(p)] + busy)[1..] == busy;
  }

  lemma OldIsMixture(cfg: Config, p: Post)
    requires Mixes(cfg, p)
    ensures Mixture(cfg, p, cfg) && Mixture(cfg, p, Requested(cfg, p))
  {
    WholeAfter(cfg, p);
    MixtureAfter(cfg, p, 0);
    MixtureAfter(cfg, p, |Writes(p)|);
  }

  /** Over every interleaving with control iterations, before, during and after one POST, every output
      is one that a mixture allows, and one of the two configurations if the POST does not mix. */
  lemma OverlapIsExplained(s: State, now: Sensors, p: Post, before: seq<Event>, busy: seq<Event>)
    requires Idle(s) && (forall e | e in before :: Calm(e)) && (forall e | e in busy :: Calm(e))
    ensures forall x | x in Run(Watch(s, now, []), before + [Receive(p)] + busy).done :: Explained(s.cfg, p, x)
  {
    var x := Watch(s, now, []);
    QuietIterationsMatch(x, before);
    var m := Run(x, before);
    assert forall y | y in m.done :: Matches(s.cfg, y);
    ThroughPost(x, p, before, busy);
    var r := Observe(m, Receive(p));
    WholeAfter(s.cfg, p);
    if Mixes(s.cfg, p) { OldIsMixture(s.cfg, p); }
    assert Passing(s.cfg, p, 0, r);
    BusyPasses(s.cfg, p, 0, r, busy);
  }

  lemma {:induction false} TimelyRun(x: Watch, es: seq<Event>)
    requires InDay(x.now.minute) && forall e | e in es :: Timely(e)
    requires forall y | y in x.done :: InDay(y.env.minute)
    ensures forall y | y in Run(x, es).done :: InDay(y.env.minute)
    decreases |es|
  {
    if es != [] {
      assert Timely(es[0]);
      assert forall e | e in es[1..] :: e in es;
      TimelyRun(Observe(x, es[0]), es[1..]);
    }
  }

  // ------------------------------------------------------------ every mixture can be reached

  /** How many writes may be done before the iteration reads on from here, if it is to find any mixture
      it likes: as many as it has read of what the POST rewrites. */
  function Allowance(p: Post, pc: Pc): nat {
    match pc
    case AtTmax(_, _) => 1
    case AtSlot(_, _, j, f, _) =>
      if !(p.PostSlot? || p.PostErase?) || j < p.index then 0 else if j == p.index then Min(f, FIELDS) else FIELDS
    case AtPercent(_) => if p.PostAuto? then 2 else FIELDS
    case AtDuty(_) => if p.PostAuto? then 2 else FIELDS
    case _ => 0
  }

  /** Not too many writes are done; or one more, and the iteration is about to read what it wrote. */
  predicate OnCourse(cfg: Config, p: Post, c: Config, k: nat, pc: Pc) {
    && k <= |Writes(p)|
    && (k <= Allowance(p, pc)
        || (k == Allowance(p, pc) + 1 && AtTarget(p, pc) && Agrees(p, c, After(cfg, p, k), pc)))
  }

  lemma {:induction false} MergedField(src: Slot, dst: Slot, k: nat, f: nat)
    requires f < FIELDS
    ensures CopyField(ZERO_SLOT, Merge(src, dst, k), f) == CopyField(ZERO_SLOT, if f < k then src else dst, f)
  {
    if k > 0 {
      MergedField(src, dst, k - 1, f);
    }
  }

  lemma EitherField(a: Slot, b: Slot, x: Slot, f: nat)
    requires MixedRecord(a, b, x)
    ensures CopyField(ZERO_SLOT, x, f) == CopyField(ZERO_SLOT, a, f) || CopyField(ZERO_SLOT, x, f) == CopyField(ZERO_SLOT, b, f)
  {
  }

  /** Where the iteration must not read the old value, the write that changes it is still to come. */
  lemma CatchUp(cfg: Config, p: Post, c: Config, k: nat, pc: Pc)
    requires Mixture(cfg, p, c) && AtTarget(p, pc) && k <= Allowance(p, pc) && k <= |Writes(p)|
    requires !Agrees(p, c, After(cfg, p, k), pc)
    ensures Allowance(p, pc) < |Writes(p)| && Agrees(p, c, After(cfg, p, Allowance(p, pc) + 1), pc)
  {
    if p.PostAuto? {
      AutoAfter(cfg, p);
    } else {
      var prior, f := cfg.slots[p.index], pc.field;
      SlotWrites(p);
      SlotAfter(cfg, p, k);
      SlotAfter(cfg, p, f + 1);
      MergedField(NewRecord(p), prior, k, f);
      MergedField(NewRecord(p), prior, f + 1, f);
      EitherField(prior, NewRecord(p), c.slots[p.index], f);
    }
  }

  /** The iteration is fresh for c, and if it has its output, the output is pwm. */
  ghost predicate Aimed(c: Config, now: Sensors, pc: Pc, pwm: uint8) {
    Fresh(c, now, pc) && (pc.AtPercent? ==> pc.pwm == pwm) && (pc.AtDuty? ==> pc.pwm == pwm)
  }

  lemma AimedStep(x: Watch, pwm: uint8)
    requires Aimed(x.state.cfg, x.now, x.state.pc, pwm) && OutputAllowed(x.state.cfg, x.now, pwm)
    requires x.now.presence && !x.state.pc.AtDuty?
    ensures var y := Observe(x, Control(x.now, true, pwm)); y.now == x.now && Aimed(x.state.cfg, y.now, y.state.pc, pwm)
  {
    var cfg, pc := x.state.cfg, x.state.pc;
    ControlKeepsFresh(x, Control(x.now, true, pwm));
    if pc.AtSlot? {
      if pc.index < |cfg.slots| && pc.field == FIELDS {
        MergeWhole(cfg.slots[pc.index], ZERO_SLOT);
        assert Covers(pc.copy, pc.minute) ==> Wins(cfg.slots, pc.index, pc.minute);
      }
    }
  }

  lemma RankFalls(x: Watch, e: Event)
    requires e.Control? && !x.state.pc.AtDuty?
    ensures Rank(|x.state.cfg.slots|, Observe(x, e).state.pc) < Rank(|x.state.cfg.slots|, x.state.pc)
  {
  }

  /** An iteration on course still is after a step that reads what c has. */
  lemma StaysOnCourse(cfg: Config, p: Post, c: Config, k: nat, x: Watch, e: Event)
    requires Mixture(cfg, p, c) && e.Control? && e.ok && !x.state.pc.AtDuty? && x.now.presence
    requires Fresh(c, x.now, x.state.pc) && OnCourse(cfg, p, c, k, x.state.pc)
    requires k <= |Writes(p)| && x.state.cfg == After(cfg, p, k)
    ensures OnCourse(cfg, p, c, k, Observe(x, e).state.pc)
  {
    MixtureAfter(cfg, p, k);
  }

  /** An iteration with k writes of p done that can still put out pwm as mixture c allows it. */
  ghost predicate Steering(cfg: Config, p: Post, c: Config, k: nat, x: Watch, pwm: uint8) {
    && Mixture(cfg, p, c) && OnCourse(cfg, p, c, k, x.state.pc)
    && x.state.cfg == After(cfg, p, k) && x.state.todo == Writes(p)[k..]
    && Aimed(c, x.now, x.state.pc, pwm) && OutputAllowed(c, x.now, pwm) && x.now.presence
  }

  lemma SteerRead(cfg: Config, p: Post, c: Config, k: nat, x: Watch, pwm: uint8)
    requires Steering(cfg, p, c, k, x, pwm) && !x.state.pc.AtDuty? && Agrees(p, c, x.state.cfg, x.state.pc)
    ensures var y := Observe(x, Control(x.now, true, pwm));
      && Steering(cfg, p, c, k, y, pwm) && y.done == x.done && y.now == x.now
      && Rank(|cfg.slots|, y.state.pc) < Rank(|cfg.slots|, x.state.pc)
  {
    var e := Control(x.now, true, pwm);
    MixtureAfter(cfg, p, k);
    AgreeingStep(cfg, p, c, x, e);
    AimedStep(x.(state := x.state.(cfg := c)), pwm);
    RankFalls(x, e);
    StaysOnCourse(cfg, p, c, k, x, e);
    ControlStepFrame(x, e);
  }

  lemma DisagreesAtTarget(cfg: Config, p: Post, c: Config, m: Config, pc: Pc)
    requires Mixture(cfg, p, c) && Mixture(cfg, p, m) && !Agrees(p, c, m, pc)
    ensures AtTarget(p, pc)
  {
  }

  lemma CourseAfterWrite(cfg: Config, p: Post, c: Config, k: nat, pc: Pc)
    requires Mixture(cfg, p, c) && OnCourse(cfg, p, c, k, pc) && !Agrees(p, c, After(cfg, p, k), pc)
    ensures k < |Writes(p)| && OnCourse(cfg, p, c, k + 1, pc)
  {
    MixtureAfter(cfg, p, k);
    DisagreesAtTarget(cfg, p, c, After(cfg, p, k), pc);
    CatchUp(cfg, p, c, k, pc);
  }

  lemma SteerWrite(cfg: Config, p: Post, c: Config, k: nat, x: Watch, pwm: uint8)
    requires Steering(cfg, p, c, k, x, pwm) && !Agrees(p, c, x.state.cfg, x.state.pc)
    ensures var y := Observe(x, Handler(true));
      k < |Writes(p)| && Steering(cfg, p, c, k + 1, y, pwm) && y.done == x.done && y.now == x.now && y.state.pc == x.state.pc
  {
    CourseAfterWrite(cfg, p, c, k, x.state.pc);
    HandlerAfter(cfg, p, k, x);
  }

  lemma RunCons(x: Watch, e: Event, es: seq<Event>)
    ensures Run(x, [e] + es) == Run(Observe(x, e), es)
  {
    assert ([e] + es)[1..] == es;
  }

  /** From a POST that has just arrived to the output pwm of mixture c: before each read the handler
      writes just far enough. */
  lemma {:induction false} Steer(cfg: Config, p: Post, c: Config, k: nat, x: Watch, pwm: uint8) returns (es: seq<Event>)
    requires Steering(cfg, p, c, k, x, pwm)
    ensures forall e | e in es :: e == Control(x.now, true, pwm) || e == Handler(true)
    ensures Run(x, es).done == x.done + [Entry(x.now, pwm)]
    decreases Rank(|cfg.slots|, x.state.pc), |Writes(p)| - k
  {
    var e, h := Control(x.now, true, pwm), Handler(true);
    if x.state.pc.AtDuty? {
      es := [e];
      RunCons(x, e, []);
      assert [e] + [] == es;
    } else if Agrees(p, c, x.state.cfg, x.state.pc) {
      SteerRead(cfg, p, c, k, x, pwm);
      var rest := Steer(cfg, p, c, k, Observe(x, e), pwm);
      RunCons(x, e, rest);
      es := [e] + rest;
    } else {
      SteerWrite(cfg, p, c, k, x, pwm);
      var rest := Steer(cfg, p, c, k + 1, Observe(x, h), pwm);
      RunCons(x, h, rest);
      es := [h] + rest;
    }
  }

  function Start(cfg: Config): State { State(cfg, 0, 0, AtTemp, []) }

  lemma TornNeedsPresence(cfg: Config, p: Post, c: Config, env: Sensors, pwm: uint8)
    requires TornByMixture(cfg, p, c, env, pwm)
    ensures env.presence
  {
  }

  lemma SteeringStarts(cfg: Config, p: Post, c: Config, env: Sensors, pwm: uint8)
    requires TornByMixture(cfg, p, c, env, pwm)
    ensures Steering(cfg, p, c, 0, Observe(Watch(Start(cfg), env, []), Receive(p)), pwm)
  {
    WholeAfter(cfg, p);
    TornNeedsPresence(cfg, p, c, env, pwm);
  }

  /** Each torn byte of a mixture is put out in some run. */
  lemma MixtureRun(cfg: Config, p: Post, c: Config, env: Sensors, pwm: uint8)
    requires TornByMixture(cfg, p, c, env, pwm)
    ensures !NeverTears(cfg, p)
  {
    var x := Watch(Start(cfg), env, []);
    SteeringStarts(cfg, p, c, env, pwm);
    var es := Steer(cfg, p, c, 0, Observe(x, Receive(p)), pwm);
    ThroughPost(x, p, [], es);
    assert forall e | e in [] + es :: Calm(e) && Timely(e);
    var entry := Entry(env, pwm);
    assert entry in Run(x, [] + [Receive(p)] + es).done && Torn(cfg, p, entry);
    assert !NoTear(Start(cfg), env, p, [], es);
  }

  /** The exact condition, for every POST from every configuration: no run tears an output if and only if
      no mixture of the two configurations allows an output that neither allows. */
  lemma TearsExactly(cfg: Config, p: Post)
    ensures NeverTears(cfg, p) <==> !MixTears(cfg, p)
  {
    if MixTears(cfg, p) {
      var c, env, pwm: uint8 :| TornByMixture(cfg, p, c, env, pwm);
      MixtureRun(cfg, p, c, env, pwm);
    } else {
      forall s: State, now: Sensors, before: seq<Event>, busy: seq<Event> |
        && s.cfg == cfg && Idle(s) && InDay(now.minute)
        && (forall e | e in before + busy :: Calm(e) && Timely(e))
        ensures NoTear(s, now, p, before, busy)
      {
        TimelyNoTear(s, now, p, before, busy);
      }
    }
  }

  lemma TimelyNoTear(s: State, now: Sensors, p: Post, before: seq<Event>, busy: seq<Event>)
    requires !MixTears(s.cfg, p) && Idle(s) && InDay(now.minute)
    requires forall e | e in before + busy :: Calm(e) && Timely(e)
    ensures NoTear(s, now, p, before, busy)
  {
    assert forall e | e in before :: e in before + busy;
    assert forall e | e in busy :: e in before + busy;
    var x, es := Watch(s, now, []), before + [Receive(p)] + busy;
    OverlapIsExplained(s, now, p, before, busy);
    TimelyRun(x, es);
    forall y | y in Run(x, es).done ensures !Torn(s.cfg, p, y) {
      assert Explained(s.cfg, p, y) && InDay(y.env.minute);
      if Mixes(s.cfg, p) {
        var c :| Mixture(s.cfg, p, c) && Matches(c, y);
        assert !TornByMixture(s.cfg, p, c, y.env, y.pwm);
      }
    }
  }
}
