/** Runs of the slot store through failing writes, failing reads and power cycles.
    The byte-level store refines a store of tables (StepRefines); the results are proved there. */
module StorageRuns {
  import opened Schedule
  import opened SlotBlob
  import opened ConfigStorage

  datatype Event =
    | Boot(mount: Mount, load: ReadFaults)
    | Get(id: int, load: ReadFaults)
    | Set(id: int, slot: Slot, load: ReadFaults, pad: Padding, save: WriteFaults)
    | Erase(id: int, load: ReadFaults, pad: Padding, save: WriteFaults)
    | SetScalar(setting: Setting, save: WriteFaults)
    | Wipe(save: WriteFaults)
    | PowerLoss

  ghost function Step(s: Store, e: Event): Store {
    match e
    case Boot(m, f) => Init(s, m, f)
    case Get(_, f) => EnsureLoaded(s, f)
    case Set(id, slot, r, pad, w) => SetSlot(s, id, slot, r, pad, w)
    case Erase(id, r, pad, w) => SetSlot(s, id, DEFAULT_SLOT, r, pad, w)
    case SetScalar(setting, w) => SaveSetting(s, setting, w)
    case Wipe(w) => Reset(s, w)
    case PowerLoss => PowerCycle(s)
  }

  ghost function Run(s: Store, es: seq<Event>): Store
    decreases |es|
  {
    if es == [] then s else Run(Step(s, es[0]), es[1..])
  }

  // ------------------------------------------------------------ the store of tables

  /** RAM, loaded flag, and the tables a successful load would bring from flash as it reads now and
      as it would read after a power cycle. */
  datatype Tables = Tables(ram: seq<Slot>, loaded: bool, live: seq<Slot>, durable: seq<Slot>)

  ghost function Abs(s: Store): Tables {
    Tables(s.ram, s.loaded, LoadView(s.live.progSlots, |s.ram|), LoadView(s.durable.progSlots, |s.ram|))
  }

  ghost function TLoad(a: Tables, f: ReadFaults): Tables {
    a.(ram := if ReadOk(f) then a.live else Defaults(|a.ram|), loaded := true)
  }

  ghost function TInit(a: Tables, m: Mount, f: ReadFaults): Tables {
    TLoad(if Erases(m) then a.(live := Defaults(|a.ram|), durable := Defaults(|a.ram|)) else a, f)
  }

  ghost function TEnsure(a: Tables, f: ReadFaults): Tables {
    if a.loaded then a else TLoad(a, f)
  }

  ghost function TSave(a: Tables, w: WriteFaults): Tables {
    if !w.open || !w.write then a
    else a.(live := a.ram, durable := if w.persisted || w.commit then a.ram else a.durable)
  }

  ghost function TSet(a: Tables, id: int, slot: Slot, r: ReadFaults, w: WriteFaults): Tables {
    var l := TEnsure(a, r);
    if 1 <= id <= |l.ram| then TSave(l.(ram := l.ram[id - 1 := slot]), w) else l
  }

  ghost function TReset(a: Tables, w: WriteFaults): Tables {
    var empty := Defaults(|a.ram|);
    if !w.open then a
    else if !w.write then if w.commit then a.(durable := a.live) else a
    else a.(live := empty, durable := if w.persisted || w.commit then empty else a.durable)
  }

  ghost function TStep(a: Tables, e: Event): Tables {
    match e
    case Boot(m, f) => TInit(a, m, f)
    case Get(_, f) => TEnsure(a, f)
    case Set(id, slot, r, _, w) => TSet(a, id, slot, r, w)
    case Erase(id, r, _, w) => TSet(a, id, DEFAULT_SLOT, r, w)
    case SetScalar(_, w) => if w.open && w.commit then a.(durable := a.live) else a
    case Wipe(w) => TReset(a, w)
    case PowerLoss => Tables(seq(|a.ram|, _ => ZERO_SLOT), false, a.durable, a.durable)
  }

  ghost function TRun(a: Tables, es: seq<Event>): Tables
    decreases |es|
  {
    if es == [] then a else TRun(TStep(a, es[0]), es[1..])
  }

  ghost predicate Sized(a: Tables) {
    |a.live| == |a.durable| == |a.ram|
  }

  lemma SaveRefines(s: Store, pad: Padding, w: WriteFaults)
    ensures Abs(SaveSlots(s, pad, w)) == TSave(Abs(s), w)
  {
    LoadOfSave(s.ram, pad);
  }

  lemma EnsureRefines(s: Store, f: ReadFaults)
    ensures Abs(EnsureLoaded(s, f)) == TEnsure(Abs(s), f)
  {
  }

  lemma InitRefines(s: Store, m: Mount, f: ReadFaults)
    ensures Abs(Init(s, m, f)) == TInit(Abs(s), m, f)
  {
  }

  lemma SetRefines(s: Store, id: int, slot: Slot, r: ReadFaults, pad: Padding, w: WriteFaults)
    ensures Abs(SetSlot(s, id, slot, r, pad, w)) == TSet(Abs(s), id, slot, r, w)
  {
    var l := EnsureLoaded(s, r);
    EnsureRefines(s, r);
    if ValidId(l, id) {
      SaveRefines(l.(ram := l.ram[id - 1 := slot]), pad, w);
    }
  }

  lemma ScalarRefines(s: Store, setting: Setting, w: WriteFaults)
    ensures Abs(SaveSetting(s, setting, w))
         == if w.open && w.commit then Abs(s).(durable := Abs(s).live) else Abs(s)
  {
  }

  lemma ResetRefines(s: Store, w: WriteFaults)
    ensures Abs(Reset(s, w)) == TReset(Abs(s), w)
  {
  }

  lemma PowerLossRefines(s: Store)
    ensures Abs(PowerCycle(s))
         == Tables(seq(|s.ram|, _ => ZERO_SLOT), false, Abs(s).durable, Abs(s).durable)
  {
  }

  /** Every operation on bytes, under every pattern of failures, is the operation on tables. */
  lemma StepRefines(s: Store, e: Event)
    ensures Abs(Step(s, e)) == TStep(Abs(s), e)
  {
    match e
    case Boot(m, f) => InitRefines(s, m, f);
    case Get(_, f) => EnsureRefines(s, f);
    case Set(id, slot, r, pad, w) => SetRefines(s, id, slot, r, pad, w);
    case Erase(id, r, pad, w) => SetRefines(s, id, DEFAULT_SLOT, r, pad, w);
    case SetScalar(setting, w) => ScalarRefines(s, setting, w);
    case Wipe(w) => ResetRefines(s, w);
    case PowerLoss => PowerLossRefines(s);
  }

  lemma {:induction false} RunRefines(s: Store, es: seq<Event>)
    ensures Abs(Run(s, es)) == TRun(Abs(s), es)
    decreases |es|
  {
    if es != [] {
      StepRefines(s, es[0]);
      RunRefines(Step(s, es[0]), es[1..]);
    }
  }

  // ------------------------------------------------------------ results over runs

  /** The table the callers see: RAM once loaded, otherwise what a successful load will bring. */
  ghost function Table(s: Store): seq<Slot> {
    TTable(Abs(s))
  }

  ghost function TTable(a: Tables): seq<Slot> {
    if a.loaded then a.ram else a.live
  }

  /** The table the next successful load brings after a power cycle now. */
  ghost function Recovered(s: Store): seq<Slot> {
    Abs(s).durable
  }

  ghost predicate Coherent(s: Store) {
    TCoherent(Abs(s))
  }

  ghost predicate TCoherent(a: Tables) {
    TTable(a) == a.live == a.durable
  }

  ghost predicate CommittedSave(n: nat, e: Event) {
    (e.Set? || e.Erase?) && 1 <= e.id <= n && Committed(e.save)
  }

  /** Reads succeed, no save that takes effect fails and nothing is wiped or erased; scalar saves may fail in
      any way, and power may be lost. */
  ghost predicate Good(n: nat, e: Event) {
    && !e.Wipe? && (e.Boot? ==> !Erases(e.mount))
    && ((e.Boot? || e.Get? || e.Set? || e.Erase?) ==> ReadOk(e.load))
    && ((e.Set? || e.Erase?) && 1 <= e.id <= n ==> Committed(e.save))
  }

  lemma {:induction false} GoodRun(a: Tables, es: seq<Event>)
    requires Sized(a) && TCoherent(a) && forall e | e in es :: Good(|a.ram|, e)
    ensures TCoherent(TRun(a, es)) && Sized(TRun(a, es)) && |TRun(a, es).ram| == |a.ram|
    decreases |es|
  {
    if es != [] {
      assert Good(|a.ram|, es[0]);
      assert forall e | e in es[1..] :: e in es;
      GoodRun(TStep(a, es[0]), es[1..]);
    }
  }

  lemma {:induction false} RunKeepsSize(a: Tables, es: seq<Event>)
    requires Sized(a)
    ensures Sized(TRun(a, es)) && |TRun(a, es).ram| == |a.ram|
    decreases |es|
  {
    if es != [] {
      StepKeepsSize(a, es[0]);
      RunKeepsSize(TStep(a, es[0]), es[1..]);
    }
  }

  lemma StepKeepsSize(a: Tables, e: Event)
    requires Sized(a)
    ensures Sized(TStep(a, e)) && |TStep(a, e).ram| == |a.ram|
  {
  }

  /** One committed save puts the whole table in flash, whatever went wrong before it. */
  lemma CommittedSaveSyncs(s: Store, e: Event)
    requires CommittedSave(|s.ram|, e)
    ensures Step(s, e).loaded && Coherent(Step(s, e))
  {
    StepRefines(s, e);
  }

  /** Durable refinement. After any run at all, with any failures and resets, one committed save followed by
      good events: a power cycle and the next successful load, at boot or on demand, give back
      exactly the table the callers saw. */
  lemma DurableRefinement(start: Store, before: seq<Event>, save: Event, after: seq<Event>,
                          mount: Mount, load: ReadFaults, id: int)
    requires CommittedSave(|start.ram|, save) && !Erases(mount) && ReadOk(load)
    requires forall e | e in after :: Good(|start.ram|, e)
    ensures var t := Run(Step(Run(start, before), save), after);
      && Step(Step(t, PowerLoss), Boot(mount, load)).ram == Table(t)
      && Step(Step(t, PowerLoss), Get(id, load)).ram == Table(t)
      && (t.loaded ==> Table(t) == t.ram)
  {
    var s := Run(start, before);
    RunRefines(start, before);
    RunKeepsSize(Abs(start), before);
    CommittedSaveSyncs(s, save);
    StepRefines(s, save);
    var saved := Step(s, save);
    GoodRun(Abs(saved), after);
    RunRefines(saved, after);
    var t := Run(saved, after);
    StepRefines(t, PowerLoss);
    StepRefines(Step(t, PowerLoss), Boot(mount, load));
    StepRefines(Step(t, PowerLoss), Get(id, load));
  }

  /** A save of one slot is all or nothing across a power cycle, whichever of its calls fail. */
  lemma SaveIsAtomic(s: Store, e: Event)
    requires Coherent(s) && (e.Set? || e.Erase?) && ReadOk(e.load)
    ensures Recovered(Step(s, e)) == Table(s) || Recovered(Step(s, e)) == Table(Step(s, e))
    ensures Committed(e.save) ==> Recovered(Step(s, e)) == Table(Step(s, e))
  {
    StepRefines(s, e);
  }

  ghost function Stored(e: Event): Slot
    requires e.Set? || e.Erase?
  {
    if e.Set? then e.slot else DEFAULT_SLOT
  }

  ghost predicate Taken(w: WriteFaults) {
    w.open && w.write && (w.persisted || w.commit)
  }

  lemma TSetExactly(a: Tables, id: int, x: Slot, r: ReadFaults, w: WriteFaults)
    requires TCoherent(a) && Sized(a) && ReadOk(r) && 1 <= id <= |a.ram|
    ensures var t, table := TSet(a, id, x, r, w), TTable(a)[id - 1 := x];
      && TTable(t) == table && t.durable == (if Taken(w) then table else TTable(a))
      && (TCoherent(t) <==> x == TTable(a)[id - 1] || Taken(w))
  {
    assert TTable(a)[id - 1 := x][id - 1] == x;
    assert x == TTable(a)[id - 1] ==> TTable(a)[id - 1 := x] == TTable(a);
  }

  /** A save of one slot brings RAM and flash together exactly when flash took it, or there was nothing
      to change; and the slot is what a power cycle brings back exactly when flash took it. */
  lemma SaveCoherentExactly(s: Store, e: Event)
    requires Coherent(s) && (e.Set? || e.Erase?) && ReadOk(e.load) && ValidId(s, e.id)
    ensures Coherent(Step(s, e)) <==> Stored(e) == Table(s)[e.id - 1] || Taken(e.save)
    ensures Recovered(Step(s, e)) == if Taken(e.save) then Table(s)[e.id - 1 := Stored(e)] else Table(s)
    ensures Table(Step(s, e)) == Table(s)[e.id - 1 := Stored(e)]
  {
    StepRefines(s, e);
    TSetExactly(Abs(s), e.id, Stored(e), e.load, e.save);
  }

  /** A failed load is remembered as loaded: unless the boot erased flash, the store stays coherent
      exactly if flash held the defaults; and the next committed save erases every other slot. */
  lemma FailedLoadExactly(s: Store, m: Mount, f: ReadFaults, e: Event)
    requires Coherent(s) && !s.loaded && !ReadOk(f)
    requires e.Set? && CommittedSave(|s.ram|, e)
    ensures Coherent(Step(s, Boot(m, f))) <==> Erases(m) || Table(s) == Defaults(|s.ram|)
    ensures Recovered(Step(Step(s, Boot(m, f)), e)) == Defaults(|s.ram|)[e.id - 1 := e.slot]
  {
    StepRefines(s, Boot(m, f));
    StepRefines(Step(s, Boot(m, f)), e);
  }

  /** A committed reset leaves the RAM table alone: coherence survives exactly on defaults. */
  lemma ResetExactly(s: Store, f: WriteFaults)
    requires Coherent(s) && s.loaded && Committed(f)
    ensures Coherent(Reset(s, f)) <==> s.ram == Defaults(|s.ram|)
  {
  }
}
