/** Program slots, their daily windows, and the first-match rule over them. */
module Schedule {
  import opened FirmwareTypes

  const DAY := 1440

  datatype Slot = Slot(active: uint8,
                       hStart: uint8, mStart: uint8, hEnd: uint8, mEnd: uint8,
                       t0: int16, t100: int16)

  const DEFAULT_SLOT := Slot(0, 0, 0, 0, 0, 24, 28)

  function StartMin(s: Slot): int { s.hStart * 60 + s.mStart }

  function EndMin(s: Slot): int { s.hEnd * 60 + s.mEnd }

  predicate WellFormed(s: Slot) {
    s.hStart < 24 && s.mStart < 60 && s.hEnd < 24 && s.mEnd < 60
  }

  /** The three-branch test of the control task. */
  predicate Inside(start: int, end: int, cur: int) {
    if start == end then false
    else if start < end then start <= cur < end
    else start <= cur || cur < end
  }

  predicate Covers(s: Slot, cur: int) {
    s.active != 0 && Inside(StartMin(s), EndMin(s), cur)
  }

  // ------------------------------------------------------------ windows on the circle

  /** The window as an arc of the 1440-minute circle. */
  predicate OnArc(start: int, end: int, cur: int) {
    (cur - start) % DAY < (end - start) % DAY
  }

  predicate InDay(m: int) { 0 <= m < DAY }

  /** The endpoints for which the branch test and the arc are the same set of minutes. */
  predicate DayAligned(start: int, end: int) {
    || (start < DAY && end < DAY)
    || start == end
    || (0 < start < DAY <= end && end % DAY == 0)
    || (DAY <= start < end && start % DAY == end % DAY)
    || (end < DAY <= start && start % DAY == 0)
  }

  lemma ArcInDay(start: int, end: int, cur: int)
    requires InDay(start) && InDay(end) && InDay(cur)
    ensures Inside(start, end, cur) <==> OnArc(start, end, cur)
  {
  }

  lemma ModInDay(d: int)
    requires -DAY < d < DAY
    ensures d % DAY == if d >= 0 then d else d + DAY
  {
  }

  /** On a day's minutes the branch test is the arc exactly for day-aligned endpoints; every
      well-formed slot is day-aligned (SlotIsArc). The POST handler accepts other endpoints too. */
  lemma ArcExactly(start: nat, end: nat)
    ensures (forall cur | InDay(cur) :: Inside(start, end, cur) <==> OnArc(start, end, cur))
      <==> DayAligned(start, end)
  {
    if DayAligned(start, end) {
      forall cur | InDay(cur) ensures Inside(start, end, cur) <==> OnArc(start, end, cur) {
        AlignedIsArc(start, end, cur);
      }
    } else {
      var cur := MisalignedMinute(start, end);
      MisalignedDiffers(start, end);
      assert InDay(cur);
    }
  }

  lemma Shift(a: int, s: int)
    ensures (a - s) % DAY == (a - s % DAY) % DAY
  {
    assert s == s / DAY * DAY + s % DAY;
    ShiftBy(a - s, s / DAY);
  }

  lemma {:induction false} ShiftBy(x: int, k: int)
    ensures (x + k * DAY) % DAY == x % DAY
  {
    var q, r := x / DAY, x % DAY;
    assert x + k * DAY == (q + k) * DAY + r;
  }

  lemma AlignedIsArc(start: nat, end: nat, cur: int)
    requires DayAligned(start, end) && InDay(cur)
    ensures Inside(start, end, cur) <==> OnArc(start, end, cur)
  {
    ArcReduced(start, end, cur);
    ArcInDay(start % DAY, end % DAY, cur);
  }

  lemma ArcReduced(start: int, end: int, cur: int)
    ensures OnArc(start, end, cur) <==> OnArc(start % DAY, end % DAY, cur)
  {
    Shift(cur, start);
    Shift(end, start);
    var e := end / DAY;
    assert end - start % DAY == (end % DAY - start % DAY) + e * DAY;
    ShiftBy(end % DAY - start % DAY, e);
  }

  /** A minute at which a misaligned window and its arc disagree. */
  function MisalignedMinute(start: nat, end: nat): int {
    var s, e := start % DAY, end % DAY;
    if start < DAY <= end then (if s == e then s else if e < s then 0 else e)
    else if start >= DAY && start < end then s
    else if end < DAY then (if e == 0 then s else if s <= e then 0 else s)
    else (if s == e then 0 else e)
  }

  lemma MisalignedDiffers(start: nat, end: nat)
    requires !DayAligned(start, end)
    ensures var cur := MisalignedMinute(start, end);
      InDay(cur) && (Inside(start, end, cur) <==> !OnArc(start, end, cur))
  {
    var cur := MisalignedMinute(start, end);
    ArcReduced(start, end, cur);
    ArcInDay(start % DAY, end % DAY, cur);
  }

  lemma SlotIsArc(s: Slot, cur: int)
    requires WellFormed(s) && InDay(cur)
    ensures Covers(s, cur) <==> s.active != 0 && OnArc(StartMin(s), EndMin(s), cur)
  {
    ArcInDay(StartMin(s), EndMin(s), cur);
  }

  /** A stored slot, well-formed or not, covers its arc of the day exactly if it is inactive or its
      endpoints are day-aligned. */
  lemma SlotArcExactly(s: Slot)
    ensures (forall cur | InDay(cur) :: Covers(s, cur) <==> s.active != 0 && OnArc(StartMin(s), EndMin(s), cur))
      <==> s.active == 0 || DayAligned(StartMin(s), EndMin(s))
  {
    ArcExactly(StartMin(s), EndMin(s));
  }

  // ------------------------------------------------------------ windows on the clock face

  predicate Earlier(h: int, m: int, hour: int, minute: int) {
    h < hour || (h == hour && m < minute)
  }

  /** The window as hours and minutes on the clock: from its start to just before its end, past midnight
      if the end comes first, and never if they are the same. */
  predicate InWindow(s: Slot, h: int, m: int) {
    var started := !Earlier(h, m, s.hStart, s.mStart);
    var ended := !Earlier(h, m, s.hEnd, s.mEnd);
    && s.active != 0
    && if Earlier(s.hStart, s.mStart, s.hEnd, s.mEnd) then started && !ended
       else Earlier(s.hEnd, s.mEnd, s.hStart, s.mStart) && (started || !ended)
  }

  /** At every time of day a well-formed slot covers exactly its window on the clock. */
  lemma WindowOnClock(s: Slot, h: int, m: int)
    requires WellFormed(s) && 0 <= h < 24 && 0 <= m < 60
    ensures Covers(s, h * 60 + m) <==> InWindow(s, h, m)
  {
  }

  /** Sixty minutes too many are an hour: with WindowOnClock this places every slot the table can hold, up
      to hours beyond 23. */
  lemma MinutesCarry(s: Slot, cur: int)
    ensures s.mStart >= 60 && s.hStart < 0xff
      ==> (Covers(s.(hStart := s.hStart + 1, mStart := s.mStart - 60), cur) <==> Covers(s, cur))
    ensures s.mEnd >= 60 && s.hEnd < 0xff
      ==> (Covers(s.(hEnd := s.hEnd + 1, mEnd := s.mEnd - 60), cur) <==> Covers(s, cur))
  {
  }

  /** Turning start, end and the clock by the same amount changes nothing. */
  lemma RotationInvariant(start: int, end: int, cur: int, k: int)
    requires InDay(start) && InDay(end) && InDay(cur)
    ensures Inside((start + k) % DAY, (end + k) % DAY, (cur + k) % DAY) <==> Inside(start, end, cur)
  {
    var s, e, c := (start + k) % DAY, (end + k) % DAY, (cur + k) % DAY;
    ArcInDay(start, end, cur);
    ArcInDay(s, e, c);
    RotatedDifference(cur, start, k);
    RotatedDifference(end, start, k);
  }

  lemma RotatedDifference(a: int, b: int, k: int)
    ensures ((a + k) % DAY - (b + k) % DAY) % DAY == (a - b) % DAY
  {
  }

  /** For arbitrary integers, swapping distinct endpoints gives the exact complement. */
  lemma SwappedIsComplement(start: int, end: int, cur: int)
    requires start != end
    ensures Inside(end, start, cur) <==> !Inside(start, end, cur)
  {
  }

  // ------------------------------------------------------------ first match

  /** Slot i wins a minute: it covers it and no earlier slot does. */
  predicate Wins(slots: seq<Slot>, i: int, cur: int) {
    && 0 <= i < |slots|
    && Covers(slots[i], cur)
    && forall j | 0 <= j < i :: !Covers(slots[j], cur)
  }

  predicate Uncovered(slots: seq<Slot>, cur: int) {
    forall j | 0 <= j < |slots| :: !Covers(slots[j], cur)
  }

  function Scheduled(slots: seq<Slot>, cur: int): Option<Slot> {
    if slots == [] then None
    else if Covers(slots[0], cur) then Some(slots[0])
    else Scheduled(slots[1..], cur)
  }

  lemma {:induction false} WinnerIsScheduled(slots: seq<Slot>, i: nat, cur: int)
    requires Wins(slots, i, cur)
    ensures Scheduled(slots, cur) == Some(slots[i])
  {
    if i > 0 {
      assert forall j | 0 <= j < i - 1 :: slots[1..][j] == slots[j + 1];
      WinnerIsScheduled(slots[1..], i - 1, cur);
    }
  }

  /** A minute is scheduled to the least-index active slot that covers it, or to none. */
  lemma {:induction false} ScheduledIsLeastIndex(slots: seq<Slot>, cur: int)
    ensures Scheduled(slots, cur).None? <==> Uncovered(slots, cur)
    ensures Scheduled(slots, cur).Some?
      <==> exists i :: Wins(slots, i, cur) && Scheduled(slots, cur) == Some(slots[i])
  {
    if slots != [] {
      var rest := slots[1..];
      ScheduledIsLeastIndex(rest, cur);
      assert forall j | 1 <= j < |slots| :: slots[j] == rest[j - 1];
      if Covers(slots[0], cur) {
        assert Wins(slots, 0, cur);
      } else if Scheduled(rest, cur).Some? {
        var i :| Wins(rest, i, cur) && Scheduled(rest, cur) == Some(rest[i]);
        assert forall j | 0 <= j < i + 1 :: j == 0 || slots[j] == rest[j - 1];
        assert Wins(slots, i + 1, cur);
      }
    }
  }

  /** Replacing slot k leaves every minute won by a lower index with its winner. */
  lemma HigherSlotsDoNotMatter(slots: seq<Slot>, i: nat, k: nat, s: Slot, cur: int)
    requires i < k < |slots| && Wins(slots, i, cur)
    ensures Wins(slots[k := s], i, cur)
    ensures Scheduled(slots[k := s], cur) == Scheduled(slots, cur)
  {
    WinnerIsScheduled(slots, i, cur);
    WinnerIsScheduled(slots[k := s], i, cur);
  }

  function ActiveOnly(slots: seq<Slot>): seq<Slot> {
    if slots == [] then []
    else (if slots[0].active != 0 then [slots[0]] else []) + ActiveOnly(slots[1..])
  }

  /** Deleting the inactive slots does not change the schedule. */
  lemma {:induction false} InactiveSlotsDoNotMatter(slots: seq<Slot>, cur: int)
    ensures Scheduled(ActiveOnly(slots), cur) == Scheduled(slots, cur)
  {
    if slots != [] {
      InactiveSlotsDoNotMatter(slots[1..], cur);
      if slots[0].active != 0 {
        assert ActiveOnly(slots)[1..] == ActiveOnly(slots[1..]);
      } else {
        assert ActiveOnly(slots) == ActiveOnly(slots[1..]);
      }
    }
  }

  // ------------------------------------------------------------ how the day is shared out

  /** Minutes below k that slot i wins. */
  function MinutesWon(slots: seq<Slot>, i: int, k: nat): nat {
    if k == 0 then 0 else MinutesWon(slots, i, k - 1) + if Wins(slots, i, k - 1) then 1 else 0
  }

  function MinutesUncovered(slots: seq<Slot>, k: nat): nat {
    if k == 0 then 0 else MinutesUncovered(slots, k - 1) + if Uncovered(slots, k - 1) then 1 else 0
  }

  /** Minutes below k won by the first n slots together. */
  function TotalWon(slots: seq<Slot>, n: nat, k: nat): nat {
    if n == 0 then 0 else TotalWon(slots, n - 1, k) + MinutesWon(slots, n - 1, k)
  }

  lemma {:induction false} TotalWonStep(slots: seq<Slot>, n: nat, k: nat)
    ensures TotalWon(slots, n, k + 1)
         == TotalWon(slots, n, k) + if exists i :: 0 <= i < n && Wins(slots, i, k) then 1 else 0
  {
    if n > 0 {
      TotalWonStep(slots, n - 1, k);
      if i :| 0 <= i < n - 1 && Wins(slots, i, k) {
        assert !Wins(slots, n - 1, k);
      }
    }
  }

  lemma {:induction false} MinutesConserved(slots: seq<Slot>, k: nat)
    ensures TotalWon(slots, |slots|, k) + MinutesUncovered(slots, k) == k
  {
    if k == 0 {
      NothingWon(slots, |slots|);
    } else {
      var cur := k - 1;
      MinutesConserved(slots, cur);
      TotalWonStep(slots, |slots|, cur);
      ScheduledIsLeastIndex(slots, cur);
      assert Uncovered(slots, cur) <==> !exists i :: 0 <= i < |slots| && Wins(slots, i, cur);
    }
  }

  lemma {:induction false} NothingWon(slots: seq<Slot>, n: nat)
    ensures TotalWon(slots, n, 0) == 0
  {
    if n > 0 {
      NothingWon(slots, n - 1);
    }
  }

  /** Every minute of the day is won exactly once or uncovered, for any number of any slots. */
  lemma DayConservation(slots: seq<Slot>)
    ensures TotalWon(slots, |slots|, DAY) + MinutesUncovered(slots, DAY) == DAY
  {
    MinutesConserved(slots, DAY);
  }

  function Excess(a: int, b: int): nat { if a > b then a - b else 0 }

  lemma {:induction false} WindowMinutes(s: Slot, k: nat)
    requires s.active != 0
    ensures var (a, b) := (StartMin(s), EndMin(s));
      MinutesWon([s], 0, k) == if a == b then 0
                               else if a < b then Excess(Min(k, b), a)
                               else Min(k, b) + Excess(k, a)
  {
    if k > 0 {
      WindowMinutes(s, k - 1);
      assert Wins([s], 0, k - 1) <==> Inside(StartMin(s), EndMin(s), k - 1);
    }
  }

  /** A single well-formed active window holds (end - start) mod 1440 minutes of the day. */
  lemma WindowSize(s: Slot)
    requires WellFormed(s) && s.active != 0
    ensures MinutesWon([s], 0, DAY) == (EndMin(s) - StartMin(s)) % DAY
  {
    WindowMinutes(s, DAY);
    ModInDay(EndMin(s) - StartMin(s));
  }
}
