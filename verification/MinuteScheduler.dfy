/** The polling scheduler of main/wifi_app.c: one clock read per pass, every register compared with
    it, 40 s after each match and 30 s after each pass. Time is local, in milliseconds. */
module MinuteScheduler {
  import opened FirmwareTypes
  import opened Registers

  const MINUTE := 60_000
  const FIRE_DELAY := 40_000
  const PASS_DELAY := 30_000
  // vTaskDelay may return up to one tick early.
  const TICK := 10

  function MinuteOf(t: nat): nat { t / MINUTE }

  /** localtime_r of a minute; day 0 is a Thursday. */
  function TmOfMinute(m: nat): (tm: Tm)
    ensures IsTm(tm)
  {
    Tm((m / 1440 + 4) % 7, m / 60 % 24, m % 60)
  }

  function MinuteAfter(t: nat, d: nat): nat { MinuteOf(t) + d }

  function TmOf(t: nat): Tm { TmOfMinute(MinuteOf(t)) }

  /** One pass: when it read the clock, whether that succeeded, the time it then compared with, and
      which registers it fired, in order. */
  datatype Pass = Pass(readAt: nat, ok: bool, tm: Tm, fired: seq<nat>)

  /** A failed read leaves the time of the pass before, and before the first pass anything. */
  predicate Heard(last: Tm, pass: Pass) {
    pass.tm == if pass.ok then TmOf(pass.readAt) else last
  }

  function Fired(regs: seq<Register>, tm: Tm): seq<nat> {
    if regs == [] then []
    else Fired(regs[..|regs| - 1], tm) + if Matches(tm, regs[|regs| - 1]) then [|regs| - 1] else []
  }

  lemma {:induction false} FiredExactly(regs: seq<Register>, tm: Tm)
    ensures forall i :: i in Fired(regs, tm) <==> 0 <= i < |regs| && Matches(tm, regs[i])
    ensures forall j, k | 0 <= j < k < |Fired(regs, tm)| :: Fired(regs, tm)[j] < Fired(regs, tm)[k]
  {
    if regs != [] {
      var front := regs[..|regs| - 1];
      FiredExactly(front, tm);
      assert forall i | 0 <= i < |front| :: front[i] == regs[i];
      assert forall k | 0 <= k < |Fired(front, tm)| :: Fired(front, tm)[k] in Fired(front, tm);
    }
  }

  /** The least pause between two reads when the first fired n registers: n delays of 40 s and one of
      30 s, each up to a tick short. */
  function LeastGap(n: nat): nat {
    (FIRE_DELAY - TICK) * n + PASS_DELAY - TICK
  }

  predicate Follows(last: Pass, next: Pass) {
    Heard(last.tm, next) && next.readAt >= last.readAt + LeastGap(|last.fired|)
  }

  ghost predicate ValidTrace(regs: seq<Register>, trace: seq<Pass>) {
    && (forall k | 0 <= k < |trace| :: trace[k].fired == Fired(regs, trace[k].tm))
    && (trace != [] && trace[0].ok ==> trace[0].tm == TmOf(trace[0].readAt))
    && (forall k | 0 < k < |trace| :: Follows(trace[k - 1], trace[k]))
  }

  function TotalFired(trace: seq<Pass>): nat {
    if trace == [] then 0 else TotalFired(trace[..|trace| - 1]) + |trace[|trace| - 1].fired|
  }

  /** An LED toggled n times. */
  predicate Toggled(led: bool, n: nat) {
    led != (n % 2 == 1)
  }

  lemma ToggledTwice(led: bool, m: nat, n: nat)
    ensures Toggled(Toggled(led, m), n) == Toggled(led, m + n)
  {
  }

  /** The earliest time of the next read. */
  function Due(trace: seq<Pass>): nat {
    if trace == [] then 0
    else var last := trace[|trace| - 1]; last.readAt + LeastGap(|last.fired|)
  }

  /** A valid trace with the given results of its clock reads, and where it leaves the task. */
  ghost predicate UpTo(regs: seq<Register>, trace: seq<Pass>, clockOk: seq<bool>, clock: nat, timeinfo: Tm) {
    && ValidTrace(regs, trace) && |trace| <= |clockOk|
    && (forall k | 0 <= k < |trace| :: trace[k].ok == clockOk[k])
    && clock >= Due(trace) && (trace != [] ==> timeinfo == trace[|trace| - 1].tm)
  }

  lemma ValidExtends(regs: seq<Register>, trace: seq<Pass>, pass: Pass)
    requires ValidTrace(regs, trace) && pass.fired == Fired(regs, pass.tm)
    requires if trace == [] then pass.ok ==> pass.tm == TmOf(pass.readAt) else Follows(trace[|trace| - 1], pass)
    ensures ValidTrace(regs, trace + [pass])
  {
    var longer := trace + [pass];
    forall k | 0 < k < |longer| ensures Follows(longer[k - 1], longer[k]) {
      if k < |trace| { assert Follows(trace[k - 1], trace[k]); }
    }
  }

  /** One pass of the task: what it is handed, and the clock it leaves. */
  ghost predicate PassFrom(regs: seq<Register>, clock: nat, timeinfo: Tm, pass: Pass, resumed: nat) {
    && pass.readAt >= clock && Heard(timeinfo, pass) && pass.fired == Fired(regs, pass.tm)
    && resumed >= pass.readAt + LeastGap(|pass.fired|)
  }

  lemma TraceExtends(regs: seq<Register>, trace: seq<Pass>, clockOk: seq<bool>, clock: nat, timeinfo: Tm,
                     pass: Pass, resumed: nat)
    requires UpTo(regs, trace, clockOk, clock, timeinfo) && |trace| < |clockOk|
    requires pass.ok == clockOk[|trace|] && PassFrom(regs, clock, timeinfo, pass, resumed)
    ensures UpTo(regs, trace + [pass], clockOk, resumed, pass.tm)
    ensures TotalFired(trace + [pass]) == TotalFired(trace) + |pass.fired|
  {
    ValidExtends(regs, trace, pass);
    Extended(trace, pass);
  }

  lemma Extended(trace: seq<Pass>, pass: Pass)
    ensures Due(trace + [pass]) == pass.readAt + LeastGap(|pass.fired|)
    ensures TotalFired(trace + [pass]) == TotalFired(trace) + |pass.fired|
  {
    assert (trace + [pass])[..|trace|] == trace;
  }

  /** The calendar of TmOfMinute: it starts on a Thursday at 0:00, and each next minute carries into the
      hour and the weekday. */
  lemma Calendar(m: nat)
    ensures TmOfMinute(0) == Tm(4, 0, 0)
    ensures var (now, next) := (TmOfMinute(m), TmOfMinute(m + 1));
      && next.min == (if now.min == 59 then 0 else now.min + 1)
      && next.hour == (if now.min < 59 then now.hour else if now.hour == 23 then 0 else now.hour + 1)
      && next.wday == (if now.min < 59 || now.hour < 23 then now.wday else if now.wday == 6 then 0 else now.wday + 1)
  {
    var (h, d) := (m / 60, m / 1440);
    assert m == 60 * h + m % 60 && h == 24 * d + h % 24;
    assert m % 60 < 59 ==> (m + 1) / 60 == h && (m + 1) % 60 == m % 60 + 1;
    assert m % 60 == 59 ==> (m + 1) / 60 == h + 1 && (m + 1) % 60 == 0;
  }

  /** The pauses in milliseconds: 40 s for each firing and 30 s for the pass, each at most 10 ms short. */
  lemma Pauses(n: nat, busy: nat)
    ensures LeastGap(n) == 39_990 * n + 29_990
    ensures MostGap(n, busy) == 40_000 * n + 30_000 + busy
  {
  }

  // ------------------------------------------------------------ the imperative task

  /** The read buffer after a run of stored registers. */
  function BufferAfter(stack: string, stored: seq<Stored>): (b: string)
    requires IsBuffer(stack) && forall s | s in stored :: Fits(s)
    ensures IsBuffer(b)
  {
    if stored == [] then stack
    else Received(BufferAfter(stack, stored[..|stored| - 1]), stored[|stored| - 1])
  }

  /** What register i is read as. */
  function RegisterRead(stack: string, stored: seq<Stored>, i: nat): Register
    requires IsBuffer(stack) && i < |stored| && forall s | s in stored :: Fits(s)
  {
    if stored[i].Missing? then SENTINEL else ParseBuffer(BufferAfter(stack, stored[..i + 1]))
  }

  lemma BufferNext(stack: string, stored: seq<Stored>, i: nat)
    requires IsBuffer(stack) && i < |stored| && forall s | s in stored :: Fits(s)
    ensures stored[i] in stored
    ensures BufferAfter(stack, stored[..i + 1]) == Received(BufferAfter(stack, stored[..i]), stored[i])
  {
    assert stored[..i + 1][..i] == stored[..i];
  }

  /** A stored record is read as it is, whatever was read into the buffer before it. */
  lemma RecordReadBack(stack: string, stored: seq<Stored>, i: nat)
    requires IsBuffer(stack) && forall s | s in stored :: Fits(s)
    requires i < |stored| && stored[i].Text? && IsRecord(stored[i].text)
    ensures RegisterRead(stack, stored, i) == Parse(stored[i].text)
  {
    BufferNext(stack, stored, i);
    RecordReceived(BufferAfter(stack, stored[..i]), stored[i].text);
  }

  /** What the reader copies of a stored register, by position. */
  function CopiedChar(s: Stored, k: nat): char
    requires k < Copied(s)
  {
    match s
    case Text(text) => if k < |text| then text[k] else '\0'
    case Unread(heap) => if '\0' in heap[..k + 1] then '\0' else heap[k]
  }

  /** Each position of the buffer holds what the last register long enough for it put there, or what the
      stack held. */
  lemma {:induction false} LastCopyCounts(stack: string, stored: seq<Stored>, j: int, k: nat)
    requires IsBuffer(stack) && (forall s | s in stored :: Fits(s)) && k < 12
    requires -1 <= j < |stored| && (forall i | j < i < |stored| :: Copied(stored[i]) <= k)
    requires j >= 0 ==> Copied(stored[j]) > k
    ensures BufferAfter(stack, stored)[k] == if j < 0 then stack[k] else CopiedChar(stored[j], k)
    decreases |stored|
  {
    if stored != [] {
      var front, last := stored[..|stored| - 1], stored[|stored| - 1];
      assert last in stored;
      if j < |front| {
        assert Copied(last) <= k;
        LastCopyCounts(stack, front, j, k);
      } else if last.Unread? {
        CutExactly(last.heap, k);
      }
    }
  }

  class Scheduler {
    const registers: array<Register>
    var clock: nat
    var timeinfo: Tm
    var led: bool

    // C leaves the first timeinfo as the stack had it.
    constructor (n: nat, clock: nat, timeinfo: Tm)
      ensures fresh(registers) && registers.Length == n && this.clock == clock && !led
    {
      registers := new Register[n](_ => SENTINEL);
      this.clock, this.timeinfo, led := clock, timeinfo, false;
    }

    /** Reads every stored register into one buffer; a missing one becomes the sentinel, and a short one
        is followed in the buffer by bytes of the register before it. */
    method InitializeRegisters(stored: seq<Stored>, stack: string)
      requires |stored| == registers.Length && IsBuffer(stack)
      requires forall s | s in stored :: Fits(s)
      modifies registers
      ensures forall i | 0 <= i < registers.Length :: registers[i] == RegisterRead(stack, stored, i)
      ensures forall i | 0 <= i < registers.Length && stored[i].Missing? ::
        registers[i] == Register(99, 99, 0, 0, 0, 0, 0, 0, 0)
    {
      var i := 0;
      var buffer := stack;
      while i < registers.Length
        invariant 0 <= i <= registers.Length
        invariant IsBuffer(buffer) && buffer == BufferAfter(stack, stored[..i])
        invariant forall k | 0 <= k < i :: registers[k] == RegisterRead(stack, stored, k)
      {
        BufferNext(stack, stored, i);
        buffer := Received(buffer, stored[i]);
        registers[i] := if stored[i].Missing? then SENTINEL else ParseBuffer(buffer);
        i := i + 1;
      }
    }

    /** Re-reads one register into a buffer of its own; a missing one keeps its old value. */
    method UpdateRegister(number: nat, stored: Stored, stack: string)
      requires 1 <= number <= registers.Length && IsBuffer(stack) && Fits(stored)
      modifies registers
      ensures stored.Missing? ==> registers[..] == old(registers[..])
      ensures !stored.Missing? ==>
        registers[..] == old(registers[..])[number - 1 := ParseBuffer(Received(stack, stored))]
      ensures stored.Text? && IsRecord(stored.text) ==>
        registers[..] == old(registers[..])[number - 1 := Parse(stored.text)]
    {
      if !stored.Missing? {
        registers[number - 1] := ParseBuffer(Received(stack, stored));
        if stored.Text? && IsRecord(stored.text) { RecordReceived(stack, stored.text); }
      }
    }

    method Delay(ms: nat)
      requires ms >= TICK
      modifies this`clock
      ensures clock >= old(clock) + ms - TICK
    {
      var early: nat :| early <= TICK;
      var late: nat :| late >= 0;
      clock := clock + ms - early + late;
    }

    /** compare_hour_day_structs: on a match it toggles the LED and sleeps 40 s. */
    method CompareHourDay(tm: Tm, r: Register) returns (fired: bool)
      modifies this`clock, this`led
      ensures fired <==> Matches(tm, r)
      ensures led == if fired then !old(led) else old(led)
      ensures clock >= old(clock) + if fired then 39_990 else 0
    {
      if tm.wday == 0 && r.sunday != 1 { return false; }
      if tm.wday == 1 && r.monday != 1 { return false; }
      if tm.wday == 2 && r.tuesday != 1 { return false; }
      if tm.wday == 3 && r.wednesday != 1 { return false; }
      if tm.wday == 4 && r.thursday != 1 { return false; }
      if tm.wday == 5 && r.friday != 1 { return false; }
      if tm.wday == 6 && r.saturday != 1 { return false; }
      if tm.hour == r.hour {
        if tm.min == r.min {
          led := !led;
          Delay(FIRE_DELAY);
          return true;
        } else {
          return false;
        }
      } else {
        return false;
      }
    }

    /** One pass of the endless loop: read, compare all, sleep. */
    method RunPass(ok: bool) returns (pass: Pass)
      modifies this`clock, this`led, this`timeinfo
      ensures pass.ok == ok && timeinfo == pass.tm
      ensures PassFrom(registers[..], old(clock), old(timeinfo), pass, clock)
      ensures led == Toggled(old(led), |pass.fired|)
    {
      var late: nat :| late >= 0;
      clock := clock + late;
      var readAt := clock;
      if ok { timeinfo := TmOf(readAt); }
      var tm := timeinfo;
      var fired: seq<nat> := [];
      var i := 0;
      while i < registers.Length
        invariant 0 <= i <= registers.Length
        invariant fired == Fired(registers[..i], tm)
        invariant clock >= readAt + (FIRE_DELAY - TICK) * |fired|
        invariant led == Toggled(old(led), |fired|) && timeinfo == tm
      {
        var hit := CompareHourDay(tm, registers[i]);
        assert registers[..i + 1][..i] == registers[..i];
        if hit { fired := fired + [i]; }
        i := i + 1;
      }
      assert registers[..i] == registers[..];
      Delay(PASS_DELAY);
      pass := Pass(readAt, ok, tm, fired);
    }

    /** One pass for every entry of clockOk: a valid trace, and the LED has toggled once per firing. */
    method Run(clockOk: seq<bool>) returns (trace: seq<Pass>)
      modifies this`clock, this`led, this`timeinfo
      ensures |trace| == |clockOk| && ValidTrace(registers[..], trace)
      ensures forall k | 0 <= k < |trace| :: trace[k].ok == clockOk[k]
      ensures led == Toggled(old(led), TotalFired(trace))
    {
      trace := [];
      ghost var regs := registers[..];
      while |trace| < |clockOk|
        invariant registers[..] == regs && UpTo(regs, trace, clockOk, clock, timeinfo)
        invariant led == Toggled(old(led), TotalFired(trace))
      {
        ghost var (before, last) := (clock, timeinfo);
        var pass := RunPass(clockOk[|trace|]);
        TraceExtends(regs, trace, clockOk, before, last, pass, clock);
        ToggledTwice(old(led), TotalFired(trace), |pass.fired|);
        trace := trace + [pass];
      }
    }
  }

  // ------------------------------------------------------------ at most once, and no miss

  lemma {:induction false} ReadsIncrease(regs: seq<Register>, trace: seq<Pass>, a: nat, b: nat)
    requires ValidTrace(regs, trace) && a < b < |trace|
    ensures trace[b].readAt >= trace[a].readAt + LeastGap(|trace[a].fired|)
    decreases b
  {
    if a < b - 1 {
      ReadsIncrease(regs, trace, a, b - 1);
    }
  }

  lemma LaterMinute(s: nat, t: nat, d: nat)
    requires t >= s + d && d >= MINUTE
    ensures MinuteOf(t) > MinuteOf(s)
  {
  }

  /** A pass that fires anything owns its minute: no other pass reads the clock in it later. */
  lemma FiringPassOwnsMinute(regs: seq<Register>, trace: seq<Pass>, a: nat, b: nat)
    requires ValidTrace(regs, trace) && a < b < |trace| && trace[a].fired != []
    ensures MinuteOf(trace[b].readAt) > MinuteOf(trace[a].readAt)
  {
    ReadsIncrease(regs, trace, a, b);
    LaterMinute(trace[a].readAt, trace[b].readAt, LeastGap(|trace[a].fired|));
  }

  /** At most once: in any run, two firings of a register, whether by one pass or by two, never fall
      in the same occurrence of a minute. */
  lemma AtMostOncePerMinute(regs: seq<Register>, trace: seq<Pass>, a: nat, j: nat, b: nat, k: nat)
    requires ValidTrace(regs, trace) && a < |trace| && b < |trace|
    requires j < |trace[a].fired| && k < |trace[b].fired| && trace[a].fired[j] == trace[b].fired[k]
    requires MinuteOf(trace[a].readAt) == MinuteOf(trace[b].readAt)
    ensures a == b && j == k
  {
    FiredExactly(regs, trace[a].tm);
    if a < b {
      FiringPassOwnsMinute(regs, trace, a, b);
    } else if b < a {
      FiringPassOwnsMinute(regs, trace, b, a);
    }
  }

  ghost predicate FiresIn(trace: seq<Pass>, i: nat, minute: nat, j: nat) {
    j < |trace| && MinuteOf(trace[j].readAt) == minute && i in trace[j].fired
  }

  lemma ReadBetween(regs: seq<Register>, trace: seq<Pass>, k: nat, minute: nat, j: nat)
    requires ValidTrace(regs, trace) && k + 1 < |trace| && j < |trace|
    requires trace[k].readAt < minute * MINUTE <= trace[k + 1].readAt
    requires MinuteOf(trace[j].readAt) == minute
    ensures j >= k + 1 && trace[k + 1].readAt < (minute + 1) * MINUTE
  {
    if j < k { ReadsIncrease(regs, trace, j, k); }
    if j > k + 1 { ReadsIncrease(regs, trace, k + 1, j); }
  }

  lemma InMinute(t: nat, minute: nat)
    ensures MinuteOf(t) == minute <==> minute * MINUTE <= t < (minute + 1) * MINUTE
  {
  }

  /** Passes k and k + 1 read the clock before and not before a minute, and pass k + 1 can read it. A
      register that matches the minute fires in it exactly if pass k + 1 reads within it; then pass
      k + 1 fires it and no other pass does. */
  lemma FiresOnceExactly(regs: seq<Register>, trace: seq<Pass>, k: nat, minute: nat, i: nat)
    requires ValidTrace(regs, trace) && k + 1 < |trace| && i < |regs| && trace[k + 1].ok
    requires trace[k].readAt < minute * MINUTE <= trace[k + 1].readAt
    requires Matches(TmOfMinute(minute), regs[i])
    ensures forall j: nat ::
      FiresIn(trace, i, minute, j) <==> j == k + 1 && trace[k + 1].readAt < (minute + 1) * MINUTE
  {
    assert Follows(trace[k], trace[k + 1]);
    InMinute(trace[k + 1].readAt, minute);
    FiredExactly(regs, TmOf(trace[k + 1].readAt));
    forall j: nat | FiresIn(trace, i, minute, j)
      ensures j == k + 1 && trace[k + 1].readAt < (minute + 1) * MINUTE
    {
      ReadBetween(regs, trace, k, minute, j);
      if j > k + 1 { FiringPassOwnsMinute(regs, trace, k + 1, j); }
    }
  }

  /** No miss: if the last pass before a minute fired nothing and took under 30 s besides its delay,
      every register that matches the minute fires in it exactly once. */
  lemma QuietPassMissesNothing(regs: seq<Register>, trace: seq<Pass>, k: nat, minute: nat, i: nat, busy: nat)
    requires ValidTrace(regs, trace) && k + 1 < |trace| && i < |regs| && trace[k + 1].ok
    requires trace[k].readAt < minute * MINUTE <= trace[k + 1].readAt
    requires trace[k].fired == [] && trace[k + 1].readAt <= trace[k].readAt + PASS_DELAY + busy && busy < MINUTE - PASS_DELAY
    requires Matches(TmOfMinute(minute), regs[i])
    ensures forall j: nat :: FiresIn(trace, i, minute, j) <==> j == k + 1
  {
    FiresOnceExactly(regs, trace, k, minute, i);
  }

  /** The latest next read of a pass that takes busy ms besides its delays. */
  function MostGap(n: nat, busy: nat): nat {
    FIRE_DELAY * n + PASS_DELAY + busy
  }

  /** A pass after which the next read is bound to fall in the d-th minute from its own misses nothing
      there: every register that matches that minute fires in it exactly once. A pass that fires is such
      a pass for the next minute if its delays end before that minute does. */
  lemma EarlyFiringMissesNothing(regs: seq<Register>, trace: seq<Pass>, k: nat, i: nat, busy: nat, d: nat)
    requires ValidTrace(regs, trace) && k + 1 < |trace| && i < |regs| && trace[k + 1].ok && d >= 1
    requires trace[k + 1].readAt <= trace[k].readAt + MostGap(|trace[k].fired|, busy)
    requires d * MINUTE <= trace[k].readAt % MINUTE + LeastGap(|trace[k].fired|) || (d == 1 && trace[k].fired != [])
    requires trace[k].readAt % MINUTE + MostGap(|trace[k].fired|, busy) < (d + 1) * MINUTE
    requires Matches(TmOfMinute(MinuteAfter(trace[k].readAt, d)), regs[i])
    ensures forall j: nat :: FiresIn(trace, i, MinuteAfter(trace[k].readAt, d), j) <==> j == k + 1
  {
    ReadsIncrease(regs, trace, k, k + 1);
    FiresOnceExactly(regs, trace, k, MinuteAfter(trace[k].readAt, d), i);
  }

  /** A pass that fires n registers late enough in its minute sleeps through the whole d-th minute from it:
      no pass reads the clock in it, so nothing in it fires. */
  lemma LateFiringSkipsMinute(regs: seq<Register>, trace: seq<Pass>, k: nat, j: nat, d: nat)
    requires ValidTrace(regs, trace) && k < |trace| && j < |trace| && d >= 1
    requires trace[k].readAt % MINUTE + LeastGap(|trace[k].fired|) >= (d + 1) * MINUTE
    ensures MinuteOf(trace[j].readAt) != MinuteAfter(trace[k].readAt, d)
  {
    if j < k {
      ReadsIncrease(regs, trace, j, k);
    } else if j > k {
      ReadsIncrease(regs, trace, k, j);
    }
  }

  ghost predicate NextReadIn(readAt: nat, n: nat, busy: nat, minute: nat) {
    forall next: nat | readAt + LeastGap(n) <= next <= readAt + MostGap(n, busy) :: MinuteOf(next) == minute
  }

  ghost predicate NextReadNotIn(readAt: nat, n: nat, busy: nat, minute: nat) {
    forall next: nat | readAt + LeastGap(n) <= next <= readAt + MostGap(n, busy) :: MinuteOf(next) != minute
  }

  /** The conditions are exact: after a pass that fires n registers, the next read is bound to fall in the
      d-th minute from its own exactly under the first, and bound not to exactly under the second; only
      the jitter of the delays and the busy time lies between them. */
  lemma NextReadExactly(readAt: nat, n: nat, busy: nat, d: nat)
    requires d >= 1
    ensures var start := readAt % MINUTE;
      && (NextReadIn(readAt, n, busy, MinuteAfter(readAt, d))
          <==> d * MINUTE <= start + LeastGap(n) && start + MostGap(n, busy) < (d + 1) * MINUTE)
      && (NextReadNotIn(readAt, n, busy, MinuteAfter(readAt, d))
          <==> start + MostGap(n, busy) < d * MINUTE || start + LeastGap(n) >= (d + 1) * MINUTE)
  {
    var (m, start, lo, hi) := (MinuteAfter(readAt, d), readAt % MINUTE, LeastGap(n), MostGap(n, busy));
    forall next: nat | readAt + lo <= next <= readAt + hi
      ensures MinuteOf(next) == m <==> d * MINUTE <= start + (next - readAt) < (d + 1) * MINUTE
    {
      InMinute(next, m);
    }
    assert MinuteOf(readAt + lo) == m <==> d * MINUTE <= start + lo < (d + 1) * MINUTE;
    assert MinuteOf(readAt + hi) == m <==> d * MINUTE <= start + hi < (d + 1) * MINUTE;
    if start + lo < d * MINUTE <= start + hi {
      assert MinuteOf(readAt + (d * MINUTE - start)) == m;
    }
  }

  // ------------------------------------------------------------ whole runs

  /** Every clock read succeeds, and every pass takes at most busy ms besides its delays and reads the
      clock early enough for them to end in the next minute. */
  ghost predicate Punctual(trace: seq<Pass>, busy: nat) {
    && (forall k | 0 <= k < |trace| :: trace[k].ok)
    && (forall k | 0 <= k < |trace| ::
          trace[k].readAt % MINUTE + MostGap(|trace[k].fired|, busy) < 2 * MINUTE)
    && (forall k | 0 < k < |trace| ::
          trace[k].readAt <= trace[k - 1].readAt + MostGap(|trace[k - 1].fired|, busy))
  }

  ghost predicate FiresOnlyIn(trace: seq<Pass>, i: nat, minute: nat, j: nat) {
    forall l: nat :: FiresIn(trace, i, minute, l) <==> l == j
  }

  lemma {:induction false} FirstReadFrom(regs: seq<Register>, trace: seq<Pass>, minute: nat, n: nat) returns (j: nat)
    requires ValidTrace(regs, trace) && n < |trace| && trace[n].readAt >= minute * MINUTE
    ensures j <= n && trace[j].readAt >= minute * MINUTE
    ensures j > 0 ==> trace[j - 1].readAt < minute * MINUTE
  {
    if n > 0 && trace[n - 1].readAt >= minute * MINUTE {
      j := FirstReadFrom(regs, trace, minute, n - 1);
    } else {
      j := n;
    }
  }

  lemma FiresAtStart(regs: seq<Register>, trace: seq<Pass>, minute: nat, i: nat)
    requires ValidTrace(regs, trace) && trace != [] && trace[0].ok && i < |regs|
    requires MinuteOf(trace[0].readAt) == minute && Matches(TmOfMinute(minute), regs[i])
    ensures FiresOnlyIn(trace, i, minute, 0)
  {
    FiredExactly(regs, TmOf(trace[0].readAt));
    assert i in trace[0].fired;
    forall l: nat | FiresIn(trace, i, minute, l) ensures l == 0 {
      if l > 0 { FiringPassOwnsMinute(regs, trace, 0, l); }
    }
  }

  lemma FiresAtNext(regs: seq<Register>, trace: seq<Pass>, busy: nat, minute: nat, i: nat, j: nat)
    requires ValidTrace(regs, trace) && Punctual(trace, busy) && 0 < j < |trace| && i < |regs|
    requires trace[j - 1].readAt < minute * MINUTE <= trace[j].readAt
    requires Matches(TmOfMinute(minute), regs[i])
    ensures FiresOnlyIn(trace, i, minute, j)
  {
    FiresOnceExactly(regs, trace, j - 1, minute, i);
    WithinNextMinute(trace[j - 1].readAt, trace[j].readAt, minute);
  }

  lemma WithinNextMinute(s: nat, t: nat, minute: nat)
    requires s < minute * MINUTE && s % MINUTE + (t - s) < 2 * MINUTE
    ensures t < (minute + 1) * MINUTE
  {
  }

  /** Over every punctual run, a register fires exactly once in every minute it matches, from the minute of
      the first read to the minute of the last. */
  lemma EveryMinuteServed(regs: seq<Register>, trace: seq<Pass>, busy: nat, minute: nat, i: nat)
    requires ValidTrace(regs, trace) && Punctual(trace, busy) && trace != [] && i < |regs|
    requires MinuteOf(trace[0].readAt) <= minute <= MinuteOf(trace[|trace| - 1].readAt)
    requires Matches(TmOfMinute(minute), regs[i])
    ensures exists j: nat :: FiresOnlyIn(trace, i, minute, j)
  {
    FromMinute(trace[|trace| - 1].readAt, minute);
    FromMinute(trace[0].readAt, minute);
    var j := FirstReadFrom(regs, trace, minute, |trace| - 1);
    if j == 0 {
      FiresAtStart(regs, trace, minute, i);
    } else {
      FiresAtNext(regs, trace, busy, minute, i, j);
    }
    assert FiresOnlyIn(trace, i, minute, j);
  }

  lemma FromMinute(t: nat, minute: nat)
    ensures MinuteOf(t) >= minute <==> t >= minute * MINUTE
  {
  }

  function EveryDay(hour: uint8, min: uint8): Register {
    Register(hour, min, 1, 1, 1, 1, 1, 1, 1)
  }

  /** Registers at 12:00 and 12:01 on every day, and a first pass that reads the clock at 12:00:51: there
      is such a run, and in every such run the second register does not fire in its minute. */
  lemma NoonSkipsNextMinute(trace: seq<Pass>)
    ensures var (noon, after, regs) := (43_251_000, 43_321_000, [EveryDay(12, 0), EveryDay(12, 1)]);
      && Matches(TmOfMinute(MinuteAfter(noon, 1)), regs[1])
      && ValidTrace(regs, [Pass(noon, true, TmOf(noon), [0]), Pass(after, true, TmOf(after), [])])
      && (ValidTrace(regs, trace) && trace != [] && trace[0].readAt == noon && trace[0].ok
          ==> forall j: nat :: !FiresIn(trace, 1, MinuteAfter(noon, 1), j))
  {
    var (noon, after, regs) := (43_251_000, 43_321_000, [EveryDay(12, 0), EveryDay(12, 1)]);
    assert TmOf(noon) == Tm(4, 12, 0) && TmOf(after) == Tm(4, 12, 2);
    FiredOfTwo(regs[0], regs[1], TmOf(noon));
    FiredOfTwo(regs[0], regs[1], TmOf(after));
    if ValidTrace(regs, trace) && trace != [] && trace[0].readAt == noon && trace[0].ok {
      forall j: nat | j < |trace| ensures MinuteOf(trace[j].readAt) != MinuteAfter(noon, 1) {
        LateFiringSkipsMinute(regs, trace, 0, j, 1);
      }
    }
  }

  lemma FiredOfTwo(r: Register, q: Register, tm: Tm)
    ensures Fired([r, q], tm) == (if Matches(tm, r) then [0] else []) + if Matches(tm, q) then [1] else []
  {
    assert [r, q][..1] == [r] && [r][..0] == [];
    assert Fired([r], tm) == if Matches(tm, r) then [0] else [];
  }

  // ------------------------------------------------------------ when the clock cannot be read

  ghost predicate InItsMinute(regs: seq<Register>, pass: Pass) {
    forall i | i in pass.fired :: 0 <= i < |regs| && Matches(TmOf(pass.readAt), regs[i])
  }

  lemma MinuteOfDay(m: nat)
    ensures m % 1440 == 60 * (m / 60 % 24) + m % 60
  {
    var (h, r) := (m / 60, 60 * (m / 60 % 24) + m % 60);
    assert m == 60 * h + m % 60 && h == 24 * (h / 24) + h % 24;
    assert m == 1440 * (h / 24) + r && 0 <= r < 1440;
  }

  lemma {:induction false} FailedReadsKeepTime(regs: seq<Register>, trace: seq<Pass>, g: nat, k: nat)
    requires ValidTrace(regs, trace) && g <= k < |trace|
    requires forall l | g < l <= k :: !trace[l].ok
    ensures trace[k].tm == trace[g].tm
  {
    if g < k {
      FailedReadsKeepTime(regs, trace, g, k - 1);
      assert Follows(trace[k - 1], trace[k]);
    }
  }

  /** A pass whose clock read fails fires again exactly what the last pass with a clock fired, however many
      failures lie between. Less than a day after it, that is right exactly if there was nothing to repeat. */
  lemma FailedReadFiresAgain(regs: seq<Register>, trace: seq<Pass>, g: nat, k: nat)
    requires ValidTrace(regs, trace) && g < k < |trace| && trace[g].ok
    requires forall l | g < l <= k :: !trace[l].ok
    ensures trace[k].fired == trace[g].fired
    ensures MinuteOf(trace[k].readAt) < MinuteOf(trace[g].readAt) + 1440
      ==> (InItsMinute(regs, trace[k]) <==> trace[g].fired == [])
  {
    var (last, next) := (trace[g], trace[k]);
    FailedReadsKeepTime(regs, trace, g, k);
    if g > 0 { assert Follows(trace[g - 1], last); }
    assert last.tm == TmOf(last.readAt);
    if last.fired != [] && MinuteOf(next.readAt) < MinuteOf(last.readAt) + 1440 {
      FiringPassOwnsMinute(regs, trace, g, k);
      FiredExactly(regs, last.tm);
      assert last.fired[0] in Fired(regs, last.tm) && last.fired[0] in next.fired;
      OtherMinute(MinuteOf(last.readAt), MinuteOf(next.readAt), regs[last.fired[0]]);
    }
  }

  /** Two minutes less than a day apart never match the same register. */
  lemma OtherMinute(m: nat, n: nat, r: Register)
    requires m < n < m + 1440 && Matches(TmOfMinute(m), r)
    ensures !Matches(TmOfMinute(n), r)
  {
    MinuteOfDay(m);
    MinuteOfDay(n);
    assert m % 1440 != n % 1440;
  }
}
