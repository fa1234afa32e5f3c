/** The slot GET, set and erase handlers of main/http_server.c, from the decoded fields onward. */
module SlotHandlers {
  import opened FirmwareTypes
  import opened Schedule
  import opened SlotBlob
  import opened ConfigStorage
  import opened StorageRuns

  /** The numbers of a POST body; cJSON delivers them as C ints. */
  datatype Request = Request(slot: int32, active: bool,
                             hStart: int32, mStart: int32, hEnd: int32, mEnd: int32,
                             t0: int32, t100: int32)

  /** The numbers of a GET reply. */
  datatype View = View(active: bool, hStart: int, mStart: int, hEnd: int, mEnd: int, t0: int, t100: int)

  function ToUint8(x: int32): uint8 { x % 0x100 }

  function ToInt16(x: int32): int16 {
    var u := x % 0x1_0000;
    if u >= 0x8000 then u - 0x1_0000 else u
  }

  function SlotOf(q: Request): Slot {
    Slot(if q.active then 1 else 0, ToUint8(q.hStart), ToUint8(q.mStart), ToUint8(q.hEnd), ToUint8(q.mEnd),
         ToInt16(q.t0), ToInt16(q.t100))
  }

  function ViewOf(s: Slot): View {
    View(s.active != 0, s.hStart, s.mStart, s.hEnd, s.mEnd, s.t0, s.t100)
  }

  /** The reply a client that posted q would like to read back. */
  function Posted(q: Request): View {
    View(q.active, q.hStart, q.mStart, q.hEnd, q.mEnd, q.t0, q.t100)
  }

  predicate InRange(q: Request) {
    && 0 <= q.hStart < 0x100 && 0 <= q.mStart < 0x100 && 0 <= q.hEnd < 0x100 && 0 <= q.mEnd < 0x100
    && -0x8000 <= q.t0 < 0x8000 && -0x8000 <= q.t100 < 0x8000
  }

  /** Outcomes of the NVS calls one handler makes. */
  datatype Faults = Faults(load: ReadFaults, pad: Padding, slots: WriteFaults, mode: WriteFaults)

  function AfterSet(s: Store, q: Request, f: Faults): Store {
    if ValidId(s, q.slot)
    then SaveSetting(SetSlot(s, q.slot, SlotOf(q), f.load, f.pad, f.slots), Mode(2), f.mode)
    else s
  }

  function AfterErase(s: Store, id: int32, f: Faults): Store {
    if ValidId(s, id) then SetSlot(s, id, DEFAULT_SLOT, f.load, f.pad, f.slots) else s
  }

  function Reply(s: Store, id: int32, load: ReadFaults): Option<View> {
    if ValidId(s, id) then Some(ViewOf(SlotRead(EnsureLoaded(s, load), id))) else None
  }

  method GetHandler(cs: Storage, id: int32, load: ReadFaults) returns (reply: Option<View>)
    modifies cs, cs.slots
    ensures reply == Reply(old(cs.Now()), id, load)
    ensures cs.Now() == if ValidId(old(cs.Now()), id) then EnsureLoaded(old(cs.Now()), load) else old(cs.Now())
  {
    if id < 1 || id > cs.slots.Length {
      return None;
    }
    var slot := cs.GetSlot(id, load);
    reply := Some(ViewOf(slot));
  }

  method SetHandler(cs: Storage, q: Request, f: Faults) returns (ok: bool)
    modifies cs, cs.slots, cs.nvs
    ensures ok == ValidId(old(cs.Now()), q.slot)
    ensures cs.Now() == AfterSet(old(cs.Now()), q, f)
    ensures ok && InRange(q) ==>
      cs.slots[q.slot - 1] == Slot(if q.active then 1 else 0, q.hStart, q.mStart, q.hEnd, q.mEnd, q.t0, q.t100)
  {
    if q.slot < 1 || q.slot > cs.slots.Length {
      return false;
    }
    var slot := Slot(if q.active then 1 else 0,
                     ToUint8(q.hStart), ToUint8(q.mStart), ToUint8(q.hEnd), ToUint8(q.mEnd),
                     ToInt16(q.t0), ToInt16(q.t100));
    cs.PutSlot(q.slot, slot, f.load, f.pad, f.slots);
    cs.Save(Mode(2), f.mode);
    StoredAsPosted(q);
    ok := true;
  }

  method EraseHandler(cs: Storage, id: int32, f: Faults) returns (ok: bool)
    modifies cs, cs.slots, cs.nvs
    ensures ok == ValidId(old(cs.Now()), id)
    ensures cs.Now() == AfterErase(old(cs.Now()), id, f)
  {
    if id < 1 || id > cs.slots.Length {
      return false;
    }
    cs.EraseSlot(id, f.load, f.pad, f.slots);
    ok := true;
  }

  // ------------------------------------------------------------ laws

  lemma CastKeepsExactly(x: int32)
    ensures ToUint8(x) == x <==> 0 <= x < 0x100
    ensures ToInt16(x) == x <==> -0x8000 <= x < 0x8000
  {
  }

  /** Other numbers wrap around. */
  lemma CastWraps(x: int32)
    ensures x == 256 * (x / 256) + ToUint8(x)
    ensures x == 65536 * ((x + 32768) / 65536) + ToInt16(x)
  {
  }

  /** Field by field, a POST stores its numbers exactly when they fit, whichever field they are for. */
  lemma StoredAsPosted(q: Request)
    ensures var s := SlotOf(q);
      && (s.active == if q.active then 1 else 0)
      && (s.hStart == q.hStart && s.mStart == q.mStart && s.hEnd == q.hEnd && s.mEnd == q.mEnd && s.t0 == q.t0 && s.t100 == q.t100
          <==> InRange(q))
  {
    CastKeepsExactly(q.hStart);
    CastKeepsExactly(q.mStart);
    CastKeepsExactly(q.hEnd);
    CastKeepsExactly(q.mEnd);
    CastKeepsExactly(q.t0);
    CastKeepsExactly(q.t100);
  }

  /** A GET after a POST returns the posted numbers exactly when they fit their fields, whichever NVS
      calls fail. */
  lemma SetThenGetExactly(s: Store, q: Request, f: Faults, load: ReadFaults)
    requires ValidId(s, q.slot)
    ensures Reply(AfterSet(s, q, f), q.slot, load) == Some(Posted(q)) <==> InRange(q)
  {
    var t := AfterSet(s, q, f);
    assert t.loaded && SlotRead(t, q.slot) == SlotOf(q);
    CastKeepsExactly(q.hStart);
    CastKeepsExactly(q.mStart);
    CastKeepsExactly(q.hEnd);
    CastKeepsExactly(q.mEnd);
    CastKeepsExactly(q.t0);
    CastKeepsExactly(q.t100);
  }

  /** The handler takes hour 30: the slot a POST of 30:00-06:00 stores covers the first six hours of the
      day, although its arc, from 6:00 to 6:00, is empty. */
  lemma HourThirtyStored(q: Request, cur: int)
    requires q.active && (q.hStart, q.mStart, q.hEnd, q.mEnd) == (30, 0, 6, 0) && InDay(cur)
    ensures Covers(SlotOf(q), cur) <==> cur < 6 * 60
    ensures !OnArc(StartMin(SlotOf(q)), EndMin(SlotOf(q)), cur)
    ensures !DayAligned(StartMin(SlotOf(q)), EndMin(SlotOf(q)))
  {
    CastKeepsExactly(q.hStart);
    CastKeepsExactly(q.hEnd);
  }

  /** What a GET of another slot returns is not touched by a POST. */
  lemma OtherSlotsUntouched(s: Store, q: Request, f: Faults, id: int32)
    requires id != q.slot
    ensures Reply(AfterSet(s, q, f), id, f.load) == Reply(s, id, f.load)
    ensures Reply(AfterErase(s, q.slot, f), id, f.load) == Reply(s, id, f.load)
  {
  }

  /** A GET refuses exactly the ids no POST can touch: those whose every set and erase, under every
      failure pattern, leaves RAM, flash and the mode as they were. */
  lemma RefusedExactly(s: Store, id: int32, load: ReadFaults)
    ensures Reply(s, id, load).None? <==> forall q: Request, f: Faults | q.slot == id :: AfterSet(s, q, f) == s
    ensures Reply(s, id, load).None? ==> forall f :: AfterErase(s, id, f) == s
  {
    if ValidId(s, id) {
      var w := WriteFaults(true, true, true, true);
      var f := Faults(ReadFaults(true, true, true), NoPadding, w, w);
      var other := SlotRead(EnsureLoaded(s, f.load), id).active == 0;
      var q := Request(id, other, 0, 0, 0, 0, 0, 0);
      var t := AfterSet(s, q, f);
      assert t.loaded && SlotRead(t, id).active == if other then 1 else 0;
      assert t != s;
    }
  }

  /** Erasing stores what setting the default record stores, but leaves the mode alone, while setting
      asks for program mode. */
  lemma EraseIsSetDefault(s: Store, id: int32, f: Faults, load: ReadFaults)
    requires ValidId(s, id)
    ensures var t := AfterSet(s, Request(id, false, 0, 0, 0, 0, 24, 28), f);
      && SaveSetting(AfterErase(s, id, f), Mode(2), f.mode) == t
      && (f.mode.open && f.mode.write ==> t.live.mode == Some(2))
    ensures AfterErase(s, id, f).live.mode == s.live.mode
    ensures Reply(AfterErase(s, id, f), id, load) == Some(View(false, 0, 0, 0, 0, 24, 28))
  {
    CastKeepsExactly(24);
    CastKeepsExactly(28);
  }

  predicate Written(w: WriteFaults) { w.open && w.write }

  /** Two saves that both go through or both do not, or the one that fails had nothing to change. */
  predicate Balanced(first: bool, second: bool, firstIdle: bool, secondIdle: bool) {
    first == second || (!first && firstIdle) || (!second && secondIdle)
  }

  /** What two saves leave of a table that held prior: the last one that goes through counts. */
  function LastSaved<T>(first: bool, second: bool, prior: T, one: T, both: T): T {
    if second then both else if first then one else prior
  }

  lemma BothSlots(l: seq<Slot>, i: nat, x: Slot, j: nat, y: Slot)
    requires i < |l| && j < |l| && i != j
    ensures l[i := x][j := y] == l[j := y][i := x]
    ensures l[i := x][j := y] == l[j := y] <==> x == l[i]
  {
    var both := l[i := x][j := y];
    assert both == l[j := y][i := x];
    assert both[i] == x && l[j := y][i] == l[i];
    assert x == l[i] ==> l[i := x] == l;
  }

  lemma TwoSets(a: Tables, i: int, x: Slot, j: int, y: Slot, r: ReadFaults, v: WriteFaults, w: WriteFaults)
    requires 1 <= i <= |a.ram| && 1 <= j <= |a.ram| && Sized(a)
    ensures var (t, l) := (TSet(TSet(a, i, x, r, v), j, y, r, w), TEnsure(a, r).ram);
      var (one, both) := (l[i - 1 := x], l[i - 1 := x][j - 1 := y]);
      && t.ram == both && t.loaded
      && t.live == LastSaved(Written(v), Written(w), a.live, one, both)
      && t.durable == LastSaved(Taken(v), Taken(w), a.durable, one, both)
  {
  }

  lemma TableSetsCommute(a: Tables, i: int, x: Slot, j: int, y: Slot, r: ReadFaults, v: WriteFaults, w: WriteFaults)
    requires 1 <= i <= |a.ram| && 1 <= j <= |a.ram| && i != j && Sized(a)
    ensures var (xy, yx, l) := (TSet(TSet(a, i, x, r, v), j, y, r, w), TSet(TSet(a, j, y, r, w), i, x, r, v), TEnsure(a, r).ram);
      && xy.ram == yx.ram
      && (xy == yx <==> && Balanced(Written(v), Written(w), x == l[i - 1], y == l[j - 1])
                        && Balanced(Taken(v), Taken(w), x == l[i - 1], y == l[j - 1]))
  {
    var l := TEnsure(a, r).ram;
    TwoSets(a, i, x, j, y, r, v, w);
    TwoSets(a, j, y, i, x, r, w, v);
    BothSlots(l, i - 1, x, j - 1, y);
    BothSlots(l, j - 1, y, i - 1, x);
  }

  /** Updates of distinct slots commute in RAM whatever fails. In flash, now and after a power cycle, they
      do exactly if both saves go through, or neither does, or the failed one had nothing to change:
      otherwise the one that goes through carries the other along only when it comes second. */
  lemma DistinctSetsCommute(s: Store, i: int, x: Slot, f: Faults, j: int, y: Slot, g: Faults)
    requires ValidId(s, i) && ValidId(s, j) && i != j && f.load == g.load
    ensures var xy := SetSlot(SetSlot(s, i, x, f.load, f.pad, f.slots), j, y, g.load, g.pad, g.slots);
            var yx := SetSlot(SetSlot(s, j, y, g.load, g.pad, g.slots), i, x, f.load, f.pad, f.slots);
            var (idleX, idleY) := (x == EnsureLoaded(s, f.load).ram[i - 1], y == EnsureLoaded(s, f.load).ram[j - 1]);
      && xy.ram == yx.ram
      && (Abs(xy) == Abs(yx) <==> && Balanced(Written(f.slots), Written(g.slots), idleX, idleY)
                                  && Balanced(Taken(f.slots), Taken(g.slots), idleX, idleY))
      && (Committed(f.slots) && Committed(g.slots) ==> Abs(xy) == Abs(yx))
  {
    var sx := SetSlot(s, i, x, f.load, f.pad, f.slots);
    var sy := SetSlot(s, j, y, g.load, g.pad, g.slots);
    SetRefines(s, i, x, f.load, f.pad, f.slots);
    SetRefines(s, j, y, g.load, g.pad, g.slots);
    SetRefines(sx, j, y, g.load, g.pad, g.slots);
    SetRefines(sy, i, x, f.load, f.pad, f.slots);
    TableSetsCommute(Abs(s), i, x, j, y, f.load, f.slots, g.slots);
  }
}
