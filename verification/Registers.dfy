/** The register table of main/wifi_app.c: eleven stored digits per register, and the week it names. */
module Registers {
  import opened FirmwareTypes

  datatype Register = Register(hour: uint8, min: uint8,
                               monday: uint8, tuesday: uint8, wednesday: uint8, thursday: uint8,
                               friday: uint8, saturday: uint8, sunday: uint8)

  const SENTINEL := Register(99, 99, 0, 0, 0, 0, 0, 0, 0)

  /** The fields of struct tm that are used; tm_wday counts from Sunday. */
  datatype Tm = Tm(wday: int, hour: int, min: int)

  predicate IsTm(tm: Tm) {
    0 <= tm.wday < 7 && 0 <= tm.hour < 24 && 0 <= tm.min < 60
  }

  /** The day flag a weekday looks at. */
  function DayFlag(r: Register, wday: int): uint8 {
    match wday
    case 0 => r.sunday
    case 1 => r.monday
    case 2 => r.tuesday
    case 3 => r.wednesday
    case 4 => r.thursday
    case 5 => r.friday
    case 6 => r.saturday
    case _ => 1
  }

  predicate Matches(tm: Tm, r: Register) {
    DayFlag(r, tm.wday) == 1 && tm.hour == r.hour && tm.min == r.min
  }

  /** A register can never fire exactly when no day is set or its time is no time of day; the sentinel
      written for an unreadable register is one. */
  lemma NeverFiresExactly(r: Register)
    ensures (forall tm | IsTm(tm) :: !Matches(tm, r))
      <==> r.hour >= 24 || r.min >= 60 || forall d | 0 <= d < 7 :: DayFlag(r, d) != 1
    ensures forall tm | IsTm(tm) :: !Matches(tm, SENTINEL)
  {
    if d :| 0 <= d < 7 && DayFlag(r, d) == 1 && r.hour < 24 && r.min < 60 {
      assert Matches(Tm(d, r.hour, r.min), r);
    }
  }

  // ------------------------------------------------------------ the stored form

  predicate IsDigit(c: char) { '0' <= c <= '9' }

  predicate IsRecord(s: string) {
    |s| == 11 && forall k | 0 <= k < 11 :: IsDigit(s[k])
  }

  function Digit(c: char): (d: nat)
    requires IsDigit(c)
    ensures d < 10
  {
    (c - '0') as nat
  }

  function Parse(s: string): Register
    requires IsRecord(s)
  {
    Register(10 * Digit(s[0]) + Digit(s[1]), 10 * Digit(s[2]) + Digit(s[3]),
             Digit(s[4]), Digit(s[5]), Digit(s[6]), Digit(s[7]), Digit(s[8]), Digit(s[9]), Digit(s[10]))
  }

  function DigitChar(d: nat): (c: char)
    requires d < 10
    ensures IsDigit(c) && Digit(c) == d
  {
    '0' + d as char
  }

  predicate Printable(r: Register) {
    && r.hour < 100 && r.min < 100 && r.monday < 10 && r.tuesday < 10 && r.wednesday < 10
    && r.thursday < 10 && r.friday < 10 && r.saturday < 10 && r.sunday < 10
  }

  function Print(r: Register): (s: string)
    requires Printable(r)
    ensures IsRecord(s)
  {
    [DigitChar(r.hour / 10), DigitChar(r.hour % 10), DigitChar(r.min / 10), DigitChar(r.min % 10),
     DigitChar(r.monday), DigitChar(r.tuesday), DigitChar(r.wednesday), DigitChar(r.thursday),
     DigitChar(r.friday), DigitChar(r.saturday), DigitChar(r.sunday)]
  }

  lemma DigitUnique(c: char)
    requires IsDigit(c)
    ensures DigitChar(Digit(c)) == c
  {
  }

  /** Parsing loses nothing: registers that fit the stored form and records are in bijection. */
  lemma ParsePrint(r: Register, s: string)
    ensures Printable(r) ==> Parse(Print(r)) == r
    ensures IsRecord(s) ==> Printable(Parse(s)) && Print(Parse(s)) == s
  {
    if IsRecord(s) {
      forall k | 0 <= k < 11 ensures DigitChar(Digit(s[k])) == s[k] {
        DigitUnique(s[k]);
      }
      var p := Parse(s);
      assert p.hour / 10 == Digit(s[0]) && p.hour % 10 == Digit(s[1]);
      assert p.min / 10 == Digit(s[2]) && p.min % 10 == Digit(s[3]);
      assert Print(p) == s;
    }
  }

  /** When a stored record fires, from its digits: two for the hour, two for the minute, and seven flags
      from Monday to Sunday, of which a day looks at its own. */
  lemma RecordMatches(tm: Tm, s: string)
    requires IsTm(tm) && IsRecord(s)
    ensures Matches(tm, Parse(s))
      <==> && s[4 + (tm.wday + 6) % 7] == '1'
           && tm.hour == 10 * Digit(s[0]) + Digit(s[1]) && tm.min == 10 * Digit(s[2]) + Digit(s[3])
  {
  }

  // ------------------------------------------------------------ reading through the buffer

  /** The twelve characters a register is read into. */
  predicate IsBuffer(b: string) {
    |b| == 12
  }

  /** What the flash holds for a register, as its reader meets it: nothing it can find or open, a string,
      or a string whose size it finds and whose read then fails unnoticed, so that it goes on with
      bytes of that size from the heap. */
  datatype Stored = Missing | Text(text: string) | Unread(heap: string)

  /** Longer strings overrun the reader's buffer. */
  predicate Fits(s: Stored) {
    match s
    case Missing => true
    case Text(text) => |text| <= 11
    case Unread(heap) => |heap| <= 12
  }

  /** strncpy: from the first NUL on, NULs. */
  function CutAtNul(s: string): (r: string)
    ensures |r| == |s|
  {
    if s == [] then []
    else if s[0] == '\0' then seq(|s|, _ => '\0')
    else [s[0]] + CutAtNul(s[1..])
  }

  lemma {:induction false} CutExactly(s: string, k: nat)
    requires k < |s|
    ensures CutAtNul(s)[k] == if '\0' in s[..k + 1] then '\0' else s[k]
  {
    assert s[..k + 1] == [s[0]] + s[1..][..k];
    if s[0] != '\0' && k > 0 {
      CutExactly(s[1..], k - 1);
    }
  }

  /** What the reader copies into the buffer, over whatever the buffer held. */
  function Received(b: string, s: Stored): (r: string)
    requires IsBuffer(b) && Fits(s)
    ensures IsBuffer(r)
  {
    match s
    case Missing => b
    case Text(text) => text + ['\0'] + b[|text| + 1..]
    case Unread(heap) => CutAtNul(heap) + b[|heap|..]
  }

  predicate IsSpace(c: char) {
    c == ' ' || '\t' <= c <= '\r'
  }

  function AtoiOne(c: char): (v: nat)
    ensures v < 10
  {
    if IsDigit(c) then Digit(c) else 0
  }

  /** atoi of two characters; a NUL counts as the end. */
  function AtoiTwo(c: char, d: char): int {
    if IsDigit(c) then (if IsDigit(d) then 10 * Digit(c) + Digit(d) else Digit(c))
    else if IsSpace(c) || c == '+' then AtoiOne(d)
    else if c == '-' then 0 - AtoiOne(d)
    else 0
  }

  /** atoi in general: white space, a sign, then digits up to anything else. */
  function Atoi(s: string): int {
    if s == [] then 0
    else if IsSpace(s[0]) then Atoi(s[1..])
    else if s[0] == '-' then 0 - Digits(0, s[1..])
    else if s[0] == '+' then Digits(0, s[1..])
    else Digits(0, s)
  }

  function Digits(n: nat, s: string): nat
    decreases |s|
  {
    if s == [] || !IsDigit(s[0]) then n else Digits(10 * n + Digit(s[0]), s[1..])
  }

  lemma DigitsOne(n: nat, c: char)
    ensures Digits(n, [c]) == if IsDigit(c) then 10 * n + Digit(c) else n
  {
    assert [c][1..] == [];
  }

  /** The fields are read as atoi reads them. */
  lemma FieldsAreAtoi(c: char, d: char)
    ensures AtoiOne(c) == Atoi([c])
    ensures AtoiTwo(c, d) == Atoi([c, d])
  {
    DigitsOne(0, c);
    DigitsOne(0, d);
    assert [c, d][1..] == [d] && [c][1..] == [] && [d][1..] == [];
    if IsDigit(c) { DigitsOne(Digit(c), d); }
  }

  function ParseBuffer(b: string): Register
    requires IsBuffer(b)
  {
    Register(AtoiTwo(b[0], b[1]) % 0x100, AtoiTwo(b[2], b[3]) % 0x100,
             AtoiOne(b[4]), AtoiOne(b[5]), AtoiOne(b[6]), AtoiOne(b[7]), AtoiOne(b[8]), AtoiOne(b[9]), AtoiOne(b[10]))
  }

  /** Eleven stored digits are read as they are, whatever the buffer held before. */
  lemma RecordReceived(b: string, s: string)
    requires IsBuffer(b) && IsRecord(s)
    ensures ParseBuffer(Received(b, Text(s))) == Parse(s)
  {
    var r := Received(b, Text(s));
    assert forall k | 0 <= k < 11 :: r[k] == s[k] && IsDigit(r[k]);
  }

  ghost predicate ReadsTheSame(s: Stored)
    requires Fits(s)
  {
    forall b, c | IsBuffer(b) && IsBuffer(c) :: ParseBuffer(Received(b, s)) == ParseBuffer(Received(c, s))
  }

  /** How many characters the reader copies, with the terminator. */
  function Copied(s: Stored): nat {
    match s
    case Missing => 0
    case Text(text) => |text| + 1
    case Unread(heap) => |heap|
  }

  /** What a register is read as depends on the register read before it exactly when the reader copies
      fewer than eleven characters: a string shorter than ten, or as short a failed read. */
  lemma StaleBytesExactly(s: Stored)
    requires Fits(s)
    ensures ReadsTheSame(s) <==> Copied(s) >= 11
  {
    if Copied(s) >= 11 {
      forall b, c | IsBuffer(b) && IsBuffer(c)
        ensures ParseBuffer(Received(b, s)) == ParseBuffer(Received(c, s))
      {
        assert forall k | 0 <= k < 11 :: Received(b, s)[k] == Received(c, s)[k];
      }
    } else {
      var (b, c) := ("000000000000", "000000000010");
      assert Received(b, s)[10] == '0' && Received(c, s)[10] == '1';
      assert ParseBuffer(Received(b, s)) != ParseBuffer(Received(c, s));
    }
  }
}
