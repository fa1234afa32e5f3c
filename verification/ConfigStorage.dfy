/** main/config_storage.c: settings and the slot table, cached in RAM and written through to flash. */
module ConfigStorage {
  import opened FirmwareTypes
  import opened Schedule
  import opened SlotBlob

  const AUTO_TMIN_DEFAULT: int32 := 24
  const AUTO_TMAX_DEFAULT: int32 := 28
  const ZERO_SLOT := Slot(0, 0, 0, 0, 0, 0, 0)

  /** The keys of the fan_config namespace. */
  datatype Flash = Flash(mode: Option<uint8>, manualPwm: Option<uint8>,
                         autoTmin: Option<int32>, autoTmax: Option<int32>, progSlots: Option<Bytes>)

  const EMPTY_FLASH := Flash(None, None, None, None, None)

  datatype Setting = Mode(mode: uint8) | ManualPwm(pwm: uint8) | AutoTmin(tmin: int32) | AutoTmax(tmax: int32)

  function Put(f: Flash, w: Setting): Flash {
    match w
    case Mode(m) => f.(mode := Some(m))
    case ManualPwm(p) => f.(manualPwm := Some(p))
    case AutoTmin(t) => f.(autoTmin := Some(t))
    case AutoTmax(t) => f.(autoTmax := Some(t))
  }

  function PutBlob(f: Flash, blob: Bytes): Flash {
    f.(progSlots := Some(blob))
  }

  // Whether each call of a read or a write succeeds. A value that was set but not committed may
  // or may not survive a power cycle (persisted).
  datatype ReadFaults = ReadFaults(open: bool, size: bool, data: bool)
  datatype WriteFaults = WriteFaults(open: bool, write: bool, persisted: bool, commit: bool)

  // What initialising flash finds: a usable partition, or one without free pages or of another version,
  // which is then erased. Other errors show as open calls that fail.
  datatype Mount = Usable | Unusable(erased: bool)

  predicate Erases(m: Mount) { m == Unusable(true) }

  predicate ReadOk(f: ReadFaults) { f.open && f.size && f.data }

  predicate Committed(f: WriteFaults) { f.open && f.write && f.commit }

  /** RAM table and loaded flag; what reads of flash return; what survives a power cycle. */
  datatype Store = Store(ram: seq<Slot>, loaded: bool, live: Flash, durable: Flash)

  // ------------------------------------------------------------ what each operation does

  function Commit(s: Store, ok: bool): Store {
    if ok then s.(durable := s.live) else s
  }

  function LoadSlots(s: Store, f: ReadFaults): Store {
    s.(ram := if ReadOk(f) then LoadView(s.live.progSlots, |s.ram|) else Defaults(|s.ram|))
  }

  function Load(s: Store, f: ReadFaults): Store {
    LoadSlots(s, f).(loaded := true)
  }

  function Init(s: Store, m: Mount, f: ReadFaults): Store {
    Load(if Erases(m) then s.(live := EMPTY_FLASH, durable := EMPTY_FLASH) else s, f)
  }

  function EnsureLoaded(s: Store, f: ReadFaults): Store {
    if s.loaded then s else Load(s, f)
  }

  function SaveSlots(s: Store, pad: Padding, f: WriteFaults): Store {
    if !f.open || !f.write then s
    else
      var blob := Encode(s.ram, pad);
      Commit(s.(live := PutBlob(s.live, blob),
                durable := if f.persisted then PutBlob(s.durable, blob) else s.durable), f.commit)
  }

  predicate ValidId(s: Store, id: int) { 1 <= id <= |s.ram| }

  function SlotRead(s: Store, id: int): Slot {
    if ValidId(s, id) then s.ram[id - 1] else DEFAULT_SLOT
  }

  function SetSlot(s: Store, id: int, slot: Slot, r: ReadFaults, pad: Padding, w: WriteFaults): Store {
    var l := EnsureLoaded(s, r);
    if ValidId(l, id) then SaveSlots(l.(ram := l.ram[id - 1 := slot]), pad, w) else l
  }

  // The settings' setters ignore the result of the set call and commit all the same.
  function SaveSetting(s: Store, w: Setting, f: WriteFaults): Store {
    if !f.open then s
    else if !f.write then Commit(s, f.commit)
    else Commit(s.(live := Put(s.live, w),
                   durable := if f.persisted then Put(s.durable, w) else s.durable), f.commit)
  }

  function Reset(s: Store, f: WriteFaults): Store {
    if !f.open then s
    else if !f.write then Commit(s, f.commit)
    else Commit(s.(live := EMPTY_FLASH,
                   durable := if f.persisted then EMPTY_FLASH else s.durable), f.commit)
  }

  function PowerCycle(s: Store): Store {
    Store(seq(|s.ram|, _ => ZERO_SLOT), false, s.durable, s.durable)
  }

  // ------------------------------------------------------------ the imperative module

  class Nvs {
    var live: Flash
    var durable: Flash

    constructor (contents: Flash)
      ensures live == durable == contents
    {
      live, durable := contents, contents;
    }

    method InitFlash(m: Mount)
      modifies this
      ensures live == if Erases(m) then EMPTY_FLASH else old(live)
      ensures durable == if Erases(m) then EMPTY_FLASH else old(durable)
    {
      if m.Unusable? {
        if m.erased { live, durable := EMPTY_FLASH, EMPTY_FLASH; }
      }
    }

    method SetBlob(blob: Bytes, f: WriteFaults) returns (ok: bool)
      modifies this
      ensures ok == f.write
      ensures live == if ok then PutBlob(old(live), blob) else old(live)
      ensures durable == if ok && f.persisted then PutBlob(old(durable), blob) else old(durable)
    {
      ok := f.write;
      if ok {
        live := PutBlob(live, blob);
        if f.persisted { durable := PutBlob(durable, blob); }
      }
    }

    method SetSetting(w: Setting, f: WriteFaults)
      modifies this
      ensures live == if f.write then Put(old(live), w) else old(live)
      ensures durable == if f.write && f.persisted then Put(old(durable), w) else old(durable)
    {
      if f.write {
        live := Put(live, w);
        if f.persisted { durable := Put(durable, w); }
      }
    }

    method EraseAll(f: WriteFaults)
      modifies this
      ensures live == if f.write then EMPTY_FLASH else old(live)
      ensures durable == if f.write && f.persisted then EMPTY_FLASH else old(durable)
    {
      if f.write {
        live := EMPTY_FLASH;
        if f.persisted { durable := EMPTY_FLASH; }
      }
    }

    method Commit(f: WriteFaults) returns (ok: bool)
      modifies this`durable
      ensures ok == f.commit
      ensures durable == if ok then live else old(durable)
    {
      ok := f.commit;
      if ok { durable := live; }
    }

    method BlobSize(f: ReadFaults) returns (size: Option<nat>)
      ensures size == if f.size && live.progSlots.Some? then Some(|live.progSlots.value|) else None
    {
      if f.size && live.progSlots.Some? {
        size := Some(|live.progSlots.value|);
      } else {
        size := None;
      }
    }

    /** Succeeds only if the stated size holds the whole blob; a failed read leaves the buffer alone. */
    method ReadBlob(buf: array<Slot>, size: nat, f: ReadFaults) returns (ok: bool)
      requires size <= 10 * buf.Length
      modifies buf
      ensures ok <==> f.data && live.progSlots.Some? && |live.progSlots.value| <= size
      ensures ok ==> buf[..] == Overlay(old(buf[..]), live.progSlots.value)
      ensures !ok ==> buf[..] == old(buf[..])
    {
      ok := f.data && live.progSlots.Some? && |live.progSlots.value| <= size;
      if ok {
        var image := Overlay(buf[..], live.progSlots.value);
        forall i | 0 <= i < buf.Length { buf[i] := image[i]; }
      }
    }
  }

  class Storage {
    const nvs: Nvs
    const slots: array<Slot>
    var loaded: bool

    /** Power-on: a zeroed table of n slots (10 on the device) over whatever flash holds. */
    constructor (nvs: Nvs, n: nat)
      requires n > 0
      ensures this.nvs == nvs && fresh(slots) && slots.Length == n
      ensures Now() == Store(seq(n, _ => ZERO_SLOT), false, nvs.live, nvs.durable)
    {
      this.nvs := nvs;
      slots := new Slot[n](_ => ZERO_SLOT);
      loaded := false;
    }

    ghost function Now(): (s: Store)
      reads this, nvs, slots
      ensures |s.ram| == slots.Length
    {
      Store(slots[..], loaded, nvs.live, nvs.durable)
    }

    method LoadProgramSlots(f: ReadFaults)
      modifies slots
      ensures Now() == LoadSlots(old(Now()), f)
    {
      var i := 0;
      while i < slots.Length
        invariant 0 <= i <= slots.Length
        invariant forall k | 0 <= k < i :: slots[k] == DEFAULT_SLOT
      {
        slots[i] := DEFAULT_SLOT;
        i := i + 1;
      }
      assert slots[..] == Defaults(slots.Length);
      if !f.open { return; }
      var found := nvs.BlobSize(f);
      if found.None? { return; }
      var required := found.value;
      var max := slots.Length * 10;
      if required > max {
        required := max;
      }
      var ok := nvs.ReadBlob(slots, required, f);
    }

    method SaveProgramSlots(pad: Padding, f: WriteFaults)
      modifies nvs
      ensures Now() == SaveSlots(old(Now()), pad, f)
    {
      if !f.open { return; }
      var ok := nvs.SetBlob(Encode(slots[..], pad), f);
      if !ok { return; }
      ok := nvs.Commit(f);
    }

    method StorageInit(m: Mount, f: ReadFaults)
      modifies this, slots, nvs
      ensures Now() == Init(old(Now()), m, f)
    {
      nvs.InitFlash(m);
      LoadProgramSlots(f);
      loaded := true;
    }

    method EnsureSlotsLoaded(f: ReadFaults)
      modifies this, slots
      ensures Now() == EnsureLoaded(old(Now()), f)
    {
      if !loaded {
        LoadProgramSlots(f);
        loaded := true;
      }
    }

    method GetSlot(id: int, f: ReadFaults) returns (slot: Slot)
      modifies this, slots
      ensures Now() == EnsureLoaded(old(Now()), f)
      ensures slot == SlotRead(Now(), id)
      ensures slot == if 1 <= id <= slots.Length then slots[id - 1] else Slot(0, 0, 0, 0, 0, 24, 28)
    {
      EnsureSlotsLoaded(f);
      if id < 1 || id > slots.Length {
        return DEFAULT_SLOT;
      }
      slot := slots[id - 1];
    }

    method PutSlot(id: int, slot: Slot, r: ReadFaults, pad: Padding, w: WriteFaults)
      modifies this, slots, nvs
      ensures Now() == SetSlot(old(Now()), id, slot, r, pad, w)
    {
      EnsureSlotsLoaded(r);
      if id < 1 || id > slots.Length { return; }
      slots[id - 1] := slot;
      SaveProgramSlots(pad, w);
    }

    method EraseSlot(id: int, r: ReadFaults, pad: Padding, w: WriteFaults)
      modifies this, slots, nvs
      ensures Now() == SetSlot(old(Now()), id, DEFAULT_SLOT, r, pad, w)
    {
      EnsureSlotsLoaded(r);
      if id < 1 || id > slots.Length { return; }
      slots[id - 1] := Slot(0, 0, 0, 0, 0, 24, 28);
      SaveProgramSlots(pad, w);
    }

    method Save(w: Setting, f: WriteFaults)
      modifies nvs
      ensures Now() == SaveSetting(old(Now()), w, f)
    {
      if f.open {
        nvs.SetSetting(w, f);
        var _ := nvs.Commit(f);
      }
    }

    method ResetAll(f: WriteFaults)
      modifies nvs
      ensures Now() == Reset(old(Now()), f)
    {
      if f.open {
        nvs.EraseAll(f);
        var _ := nvs.Commit(f);
      }
    }

    // A getter whose open or get call fails returns its default.

    method GetMode(ok: bool) returns (mode: uint8)
      ensures mode == if ok then nvs.live.mode.GetOr(0) else 0
    {
      mode := 0;
      if ok && nvs.live.mode.Some? { mode := nvs.live.mode.value; }
    }

    method GetManualPwm(ok: bool) returns (pwm: uint8)
      ensures pwm == if ok then nvs.live.manualPwm.GetOr(0) else 0
    {
      pwm := 0;
      if ok && nvs.live.manualPwm.Some? { pwm := nvs.live.manualPwm.value; }
    }

    method GetAutoTmin(ok: bool) returns (tmin: int32)
      ensures tmin == if ok then nvs.live.autoTmin.GetOr(AUTO_TMIN_DEFAULT) else AUTO_TMIN_DEFAULT
    {
      tmin := AUTO_TMIN_DEFAULT;
      if ok && nvs.live.autoTmin.Some? { tmin := nvs.live.autoTmin.value; }
    }

    method GetAutoTmax(ok: bool) returns (tmax: int32)
      ensures tmax == if ok then nvs.live.autoTmax.GetOr(AUTO_TMAX_DEFAULT) else AUTO_TMAX_DEFAULT
    {
      tmax := AUTO_TMAX_DEFAULT;
      if ok && nvs.live.autoTmax.Some? { tmax := nvs.live.autoTmax.value; }
    }
  }

  /** A boot erases flash exactly if it finds the partition unusable and can erase it, and otherwise leaves
      flash alone; the table counts as loaded in any case. */
  lemma BootFlash(s: Store, m: Mount, f: ReadFaults)
    ensures var t := Init(s, m, f);
      && t.loaded
      && if m == Unusable(true) then t.live == t.durable == Flash(None, None, None, None, None)
         else t.live == s.live && t.durable == s.durable
  {
  }
}
