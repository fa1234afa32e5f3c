/** The byte image of the slot table: five bytes, one padding byte, two little-endian int16 values. */
module SlotBlob {
  import opened FirmwareTypes
  import opened Schedule

  // sizeof(program_slot_t) is 10.

  // The padding byte of slot k is whatever the compiler left there.
  type Padding = nat -> uint8

  function NoPadding(k: nat): uint8 { 0 }

  function EncodeInt16(v: int16): (b: Bytes)
    ensures |b| == 2
  {
    var u := if v < 0 then v + 0x1_0000 else v;
    [u % 0x100, u / 0x100]
  }

  function DecodeInt16(lo: uint8, hi: uint8): int16 {
    var u := lo + 0x100 * hi;
    if u >= 0x8000 then u - 0x1_0000 else u
  }

  function EncodeSlot(s: Slot, pad: uint8): (b: Bytes)
    ensures |b| == 10
  {
    [s.active, s.hStart, s.mStart, s.hEnd, s.mEnd, pad] + EncodeInt16(s.t0) + EncodeInt16(s.t100)
  }

  function DecodeSlot(b: Bytes): Slot
    requires |b| == 10
  {
    Slot(b[0], b[1], b[2], b[3], b[4], DecodeInt16(b[6], b[7]), DecodeInt16(b[8], b[9]))
  }

  lemma SlotImage(s: Slot, pad: uint8, b: Bytes)
    requires |b| == 10
    ensures DecodeSlot(EncodeSlot(s, pad)) == s
    ensures EncodeSlot(DecodeSlot(b), b[5]) == b
  {
  }

  /** Two bytes, the low one first, hold v. */
  predicate TwosComplement(lo: int, hi: int, v: int) {
    lo + 256 * hi == if v < 0 then v + 65536 else v
  }

  /** The record byte by byte, and its int16 fields as two's complement with the low byte first. */
  lemma SlotLayout(s: Slot, pad: uint8)
    ensures var b := EncodeSlot(s, pad);
      && b[..6] == [s.active, s.hStart, s.mStart, s.hEnd, s.mEnd, pad]
      && TwosComplement(b[6], b[7], s.t0)
      && TwosComplement(b[8], b[9], s.t100)
  {
  }

  function ByteAt(slots: seq<Slot>, pad: Padding, k: nat): uint8
    requires k < 10 * |slots|
  {
    EncodeSlot(slots[k / 10], pad(k / 10))[k % 10]
  }

  function Encode(slots: seq<Slot>, pad: Padding): (b: Bytes)
    ensures |b| == 10 * |slots|
  {
    seq(10 * |slots|, k requires 0 <= k < 10 * |slots| => ByteAt(slots, pad, k))
  }

  function SlotBytes(b: Bytes, i: nat): (r: Bytes)
    requires 10 * i + 10 <= |b|
    ensures |r| == 10
  {
    b[10 * i..10 * i + 10]
  }

  function Decode(b: Bytes, n: nat): (slots: seq<Slot>)
    requires |b| == 10 * n
    ensures |slots| == n
  {
    seq(n, i requires 0 <= i < n => DecodeSlot(SlotBytes(b, i)))
  }

  lemma EncodedSlotBytes(slots: seq<Slot>, pad: Padding, i: nat)
    requires i < |slots|
    ensures SlotBytes(Encode(slots, pad), i) == EncodeSlot(slots[i], pad(i))
  {
  }

  /** The table is its records one after the other. */
  lemma TableLayout(slots: seq<Slot>, pad: Padding, i: nat)
    requires i < |slots|
    ensures |Encode(slots, pad)| == 10 * |slots|
    ensures var b := Encode(slots, pad)[10 * i..10 * i + 10];
      && b[..6] == [slots[i].active, slots[i].hStart, slots[i].mStart, slots[i].hEnd, slots[i].mEnd, pad(i)]
      && TwosComplement(b[6], b[7], slots[i].t0)
      && TwosComplement(b[8], b[9], slots[i].t100)
  {
    EncodedSlotBytes(slots, pad, i);
    SlotLayout(slots[i], pad(i));
  }

  /** What nvs_get_blob leaves in a buffer holding base: the blob over the first |blob| bytes. */
  function Overlay(base: seq<Slot>, blob: Bytes): (slots: seq<Slot>)
    requires |blob| <= 10 * |base|
    ensures |slots| == |base|
  {
    Decode(OverlayBytes(base, blob), |base|)
  }

  function OverlayBytes(base: seq<Slot>, blob: Bytes): (b: Bytes)
    requires |blob| <= 10 * |base|
    ensures |b| == 10 * |base|
  {
    blob + Encode(base, NoPadding)[|blob|..]
  }

  function Defaults(n: nat): (slots: seq<Slot>)
    ensures |slots| == n && forall i | 0 <= i < n :: slots[i] == DEFAULT_SLOT
  {
    seq(n, _ => DEFAULT_SLOT)
  }

  /** Any blob that fits: whole slots inside it come from it, and slots past it keep the base. */
  lemma OverlayBySlot(base: seq<Slot>, blob: Bytes, i: nat)
    requires |blob| <= 10 * |base| && i < |base|
    ensures 10 * i + 10 <= |blob| ==> Overlay(base, blob)[i] == DecodeSlot(SlotBytes(blob, i))
    ensures |blob| <= 10 * i ==> Overlay(base, blob)[i] == base[i]
  {
    var bytes := OverlayBytes(base, blob);
    if 10 * i + 10 <= |blob| {
      assert SlotBytes(bytes, i) == SlotBytes(blob, i);
    } else if |blob| <= 10 * i {
      assert SlotBytes(bytes, i) == SlotBytes(Encode(base, NoPadding), i);
      EncodedSlotBytes(base, NoPadding, i);
      SlotImage(base[i], 0, SlotBytes(bytes, i));
    }
  }

  /** Byte for byte: the image of the loaded table, with the padding it was given, is the blob
      followed by what the base image holds past it. */
  lemma OverlayImage(base: seq<Slot>, blob: Bytes)
    requires |blob| <= 10 * |base|
    ensures Encode(Overlay(base, blob), PaddingOf(OverlayBytes(base, blob)))
         == blob + Encode(base, NoPadding)[|blob|..]
  {
    EncodeDecode(OverlayBytes(base, blob), |base|);
  }

  function PaddingOf(b: Bytes): Padding {
    (i: nat) => if 10 * i + 10 <= |b| then SlotBytes(b, i)[5] else 0
  }

  lemma SlotAgain(b: Bytes, n: nat, i: nat)
    requires |b| == 10 * n && i < n
    ensures SlotBytes(Encode(Decode(b, n), PaddingOf(b)), i) == SlotBytes(b, i)
  {
    EncodedSlotBytes(Decode(b, n), PaddingOf(b), i);
    SlotImage(DEFAULT_SLOT, 0, SlotBytes(b, i));
  }

  lemma ByteOfSlot(a: Bytes, b: Bytes, k: nat)
    requires k < |a| == |b| && |a| % 10 == 0
    requires SlotBytes(a, k / 10) == SlotBytes(b, k / 10)
    ensures a[k] == b[k]
  {
    var i := k / 10;
    assert SlotBytes(a, i)[k - 10 * i] == a[k] && SlotBytes(b, i)[k - 10 * i] == b[k];
  }

  /** Re-encoding decoded bytes with their own padding gives the bytes back. */
  lemma EncodeDecode(b: Bytes, n: nat)
    requires |b| == 10 * n
    ensures Encode(Decode(b, n), PaddingOf(b)) == b
  {
    var again := Encode(Decode(b, n), PaddingOf(b));
    forall k: nat | k < |b| ensures again[k] == b[k] {
      SlotAgain(b, n, k / 10);
      ByteOfSlot(again, b, k);
    }
  }

  lemma SavedSlotLoaded(slots: seq<Slot>, pad: Padding, n: nat, i: nat)
    requires |slots| <= n && i < n
    ensures Overlay(Defaults(n), Encode(slots, pad))[i] == if i < |slots| then slots[i] else DEFAULT_SLOT
  {
    var blob := Encode(slots, pad);
    OverlayBySlot(Defaults(n), blob, i);
    if i < |slots| {
      EncodedSlotBytes(slots, pad, i);
      SlotImage(slots[i], pad(i), SlotBytes(blob, i));
    }
  }

  lemma ThenDefaults(loaded: seq<Slot>, slots: seq<Slot>)
    requires |slots| <= |loaded|
    requires forall i: nat | i < |loaded| :: loaded[i] == if i < |slots| then slots[i] else DEFAULT_SLOT
    ensures loaded == slots + Defaults(|loaded| - |slots|)
  {
  }

  /** Saving m slots and loading into a buffer of n >= m gives them back, then defaults, whatever
      the padding bytes were. */
  lemma SaveThenLoad(slots: seq<Slot>, pad: Padding, n: nat)
    requires |slots| <= n
    ensures Overlay(Defaults(n), Encode(slots, pad)) == slots + Defaults(n - |slots|)
  {
    var loaded := Overlay(Defaults(n), Encode(slots, pad));
    forall i: nat | i < n ensures loaded[i] == if i < |slots| then slots[i] else DEFAULT_SLOT {
      SavedSlotLoaded(slots, pad, n, i);
    }
    ThenDefaults(loaded, slots);
  }

  /** The slots a successful read leaves in a table of n: defaults under the blob, and only the
      defaults when there is no blob or it does not fit. */
  function LoadView(blob: Option<Bytes>, n: nat): (slots: seq<Slot>)
    ensures |slots| == n
  {
    match blob
    case Some(b) => if |b| <= 10 * n then Overlay(Defaults(n), b) else Defaults(n)
    case None => Defaults(n)
  }

  lemma LoadOfSave(slots: seq<Slot>, pad: Padding)
    ensures LoadView(Some(Encode(slots, pad)), |slots|) == slots
  {
    SaveThenLoad(slots, pad, |slots|);
    assert slots + Defaults(0) == slots;
  }

  /** What a successful load makes of slot i: its ten stored bytes; the default record past the end of the
      blob; and the default record everywhere if nothing is stored or the blob exceeds the table. */
  lemma LoadedSlot(blob: Option<Bytes>, n: nat, i: nat)
    requires i < n
    ensures blob.None? || |blob.value| > 10 * n || |blob.value| <= 10 * i
      ==> LoadView(blob, n)[i] == Slot(0, 0, 0, 0, 0, 24, 28)
    ensures blob.Some? && 10 * i + 10 <= |blob.value| <= 10 * n ==>
      var (s, b) := (LoadView(blob, n)[i], blob.value[10 * i..10 * i + 10]);
      && [s.active, s.hStart, s.mStart, s.hEnd, s.mEnd] == b[..5]
      && TwosComplement(b[6], b[7], s.t0)
      && TwosComplement(b[8], b[9], s.t100)
  {
    if blob.Some? && |blob.value| <= 10 * n {
      OverlayBySlot(Defaults(n), blob.value, i);
    }
  }
}
