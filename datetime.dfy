/**
 * The date and time library behaviour the reservation guards rely on:
 * moment's strict `YYYY-MM-DD` and `HH:mm` parsing, the instant of a
 * date-only ISO string (UTC midnight), and `Date.prototype.getDay()` in a
 * local time zone with a fixed offset.
 */
module DateTime {
  import opened Js

  predicate IsDigit(c: char) {
    '0' <= c <= '9'
  }

  function Digit(c: char): (d: nat)
    requires IsDigit(c)
    ensures d <= 9
  {
    (c as int) - ('0' as int)
  }

  predicate IsLeapYear(y: int) {
    y % 4 == 0 && (y % 100 != 0 || y % 400 == 0)
  }

  function DaysInMonth(y: int, m: int): (n: int)
    requires 1 <= m <= 12
    ensures 28 <= n <= 31
  {
    if m == 2 then (if IsLeapYear(y) then 29 else 28)
    else if m == 4 || m == 6 || m == 9 || m == 11 then 30
    else 31
  }

  /** Four digits, a dash, two digits, a dash, two digits. */
  predicate HasDateShape(s: string) {
    |s| == 10 && s[4] == '-' && s[7] == '-' &&
    IsDigit(s[0]) && IsDigit(s[1]) && IsDigit(s[2]) && IsDigit(s[3]) &&
    IsDigit(s[5]) && IsDigit(s[6]) && IsDigit(s[8]) && IsDigit(s[9])
  }

  function Year(s: string): nat
    requires HasDateShape(s)
  {
    1000 * Digit(s[0]) + 100 * Digit(s[1]) + 10 * Digit(s[2]) + Digit(s[3])
  }

  function Month(s: string): nat
    requires HasDateShape(s)
  {
    10 * Digit(s[5]) + Digit(s[6])
  }

  function Day(s: string): nat
    requires HasDateShape(s)
  {
    10 * Digit(s[8]) + Digit(s[9])
  }

  /** `moment(s, 'YYYY-MM-DD', true).isValid()`: exact shape and an existing calendar day. */
  predicate IsStrictDate(s: string) {
    HasDateShape(s) && 1 <= Month(s) <= 12 && 1 <= Day(s) <= DaysInMonth(Year(s), Month(s))
  }

  /** Two digits, a colon, two digits. */
  predicate HasTimeShape(s: string) {
    |s| == 5 && s[2] == ':' && IsDigit(s[0]) && IsDigit(s[1]) && IsDigit(s[3]) && IsDigit(s[4])
  }

  function Hour(s: string): nat
    requires HasTimeShape(s)
  {
    10 * Digit(s[0]) + Digit(s[1])
  }

  function Minute(s: string): nat
    requires HasTimeShape(s)
  {
    10 * Digit(s[3]) + Digit(s[4])
  }

  /** `moment(s, 'HH:mm', true).isValid()`: hours 00-23, minutes 00-59, and also `24:00`. */
  predicate IsStrictTime(s: string) {
    HasTimeShape(s) && Minute(s) <= 59 && (Hour(s) <= 23 || (Hour(s) == 24 && Minute(s) == 0))
  }

  function MinutesOfDay(s: string): nat
    requires HasTimeShape(s)
  {
    60 * Hour(s) + Minute(s)
  }

  /** Days from 1970-01-01 to the given proleptic Gregorian date. */
  function DaysFromCivil(y: int, m: int, d: int): int
    requires 1 <= m <= 12
  {
    var y' := if m <= 2 then y - 1 else y;
    var era := y' / 400;
    var yoe := y' - era * 400;
    var mp := if m > 2 then m - 3 else m + 9;
    var doy := (153 * mp + 2) / 5 + d - 1;
    var doe := yoe * 365 + yoe / 4 - yoe / 100 + doy;
    era * 146097 + doe - 719468
  }

  function DayNumber(s: string): int
    requires IsStrictDate(s)
  {
    DaysFromCivil(Year(s), Month(s), Day(s))
  }

  const MsPerDay: int := 86400000

  /** `new Date(s).getTime()` for a strict date: a date-only ISO string is read as UTC midnight. */
  function MidnightUtc(s: string): int
    requires IsStrictDate(s)
  {
    DayNumber(s) * MsPerDay
  }

  /** The weekday of a calendar date, 0 for Sunday (1970-01-01 was a Thursday). */
  function CivilWeekday(s: string): (w: nat)
    requires IsStrictDate(s)
    ensures w < 7
  {
    (DayNumber(s) + 4) % 7
  }

  /** `getDay()` of an instant, in a time zone `offset` milliseconds ahead of UTC. */
  function LocalWeekday(instant: int, offset: int): (w: nat)
    ensures w < 7
  {
    ((instant + offset) / MsPerDay + 4) % 7
  }

  /** Integer division by a day, of a whole number of days plus a remainder. */
  lemma DivDays(d: int, r: int)
    requires 0 <= r < MsPerDay
    ensures (d * MsPerDay + r) / MsPerDay == d
  {
  }

  /** Where the local zone is UTC, `getDay()` of a date's midnight is that date's weekday. */
  lemma WeekdayInUtc(s: string)
    requires IsStrictDate(s)
    ensures LocalWeekday(MidnightUtc(s), 0) == CivilWeekday(s)
  {
    DivDays(DayNumber(s), 0);
  }

  lemma WeekdayOfDayWestOfUtc(d: int, offset: int)
    requires -MsPerDay <= offset < 0
    ensures LocalWeekday(d * MsPerDay, offset) == ((d + 4) % 7 + 6) % 7
  {
    assert d * MsPerDay + offset == (d - 1) * MsPerDay + (offset + MsPerDay);
    DivDays(d - 1, offset + MsPerDay);
  }

  /**
   * West of UTC (a negative offset of less than a day), `getDay()` of a date's
   * UTC midnight is the weekday of the day before.
   */
  lemma WeekdayWestOfUtc(s: string, offset: int)
    requires IsStrictDate(s)
    requires -MsPerDay <= offset < 0
    ensures LocalWeekday(MidnightUtc(s), offset) == (CivilWeekday(s) + 6) % 7
  {
    WeekdayOfDayWestOfUtc(DayNumber(s), offset);
  }

  /**
   * On strings shaped `HH:mm` with minutes below 60, JavaScript's string `<`
   * agrees with the order of the clock times they name.
   */
  lemma {:induction false} TimeStringOrder(a: string, b: string)
    requires HasTimeShape(a) && HasTimeShape(b) && Minute(a) <= 59 && Minute(b) <= 59
    ensures StrLess(a, b) <==> MinutesOfDay(a) < MinutesOfDay(b)
  {
    var a1, b1 := a[1..], b[1..];
    var a2, b2 := a1[1..], b1[1..];
    var a3, b3 := a2[1..], b2[1..];
    var a4, b4 := a3[1..], b3[1..];
    assert a4[1..] == [] && b4[1..] == [];
    assert StrLess(a4, b4) <==> a[4] < b[4];
    assert StrLess(a3, b3) <==> a[3] < b[3] || (a[3] == b[3] && a[4] < b[4]);
    assert StrLess(a2, b2) == StrLess(a3, b3);
    assert StrLess(a1, b1) <==> a[1] < b[1] || (a[1] == b[1] && StrLess(a2, b2));
    assert StrLess(a, b) <==> a[0] < b[0] || (a[0] == b[0] && StrLess(a1, b1));
    var ha, hb, ma, mb := Hour(a), Hour(b), Minute(a), Minute(b);
    assert ha < hb <==> a[0] < b[0] || (a[0] == b[0] && a[1] < b[1]);
    assert ma < mb <==> a[3] < b[3] || (a[3] == b[3] && a[4] < b[4]);
    assert ha == hb <==> a[0] == b[0] && a[1] == b[1];
  }
}
