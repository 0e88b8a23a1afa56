/**
 * The part of ECMAScript's Date arithmetic that `new Date(year, monthIndex,
 * day, hours, minutes)` uses (ECMA-262, section 21.4.2.1 "Date ( ...values )",
 * with the helpers of section 21.4.1: DayFromYear, DaysInYear, MakeDay,
 * MakeTime, MakeDate, UTC, TimeClip and MakeFullYear).
 *
 * All values are integers: every input the date normaliser passes is an
 * integer, and every intermediate value stays far below 2^53, so IEEE double
 * arithmetic is exact on them. The host's time zone is a fixed offset `tz`
 * in minutes east of UTC (local time = UTC + tz).
 */
module EcmaDate {
  import opened Wrappers

  /** Largest magnitude TimeClip lets through: 8.64e15 milliseconds. */
  const MaxTimeValue: int := 8_640_000_000_000_000

  /** Day number (days since 1970-01-01) of January 1st of year y. */
  function DayFromYear(y: int): int
  {
    // Dafny's / with a positive divisor is floor division, as in the standard.
    365 * (y - 1970) + (y - 1969) / 4 - (y - 1901) / 100 + (y - 1601) / 400
  }

  predicate InLeapYear(y: int)
  {
    y % 4 == 0 && (y % 100 != 0 || y % 400 == 0)
  }

  function DaysInYear(y: int): int
  {
    if InLeapYear(y) then 366 else 365
  }

  /** Length of month mn (0 = January) of year y. */
  function DaysInMonth(y: int, mn: int): int
    requires 0 <= mn < 12
  {
    if mn == 1 then (if InLeapYear(y) then 29 else 28)
    else if mn == 3 || mn == 5 || mn == 8 || mn == 10 then 30
    else 31
  }

  /** Days of year y that precede month mn (0 = January): the cumulative table of the standard's MonthFromTime. */
  function DaysBeforeMonth(y: int, mn: int): int
    requires 0 <= mn < 12
  {
    var table := [0, 31, 59, 90, 120, 151, 181, 212, 243, 273, 304, 334];
    table[mn] + (if mn >= 2 && InLeapYear(y) then 1 else 0)
  }

  /** Day number of day d of month m (1 = January) of year y; d may lie outside the month. */
  function DaysFromCivil(y: int, m: int, d: int): int
    requires 1 <= m <= 12
  {
    DayFromYear(y) + DaysBeforeMonth(y, m - 1) + d - 1
  }

  /** MakeDay: month indices outside 0..11 carry into the year. */
  function MakeDay(year: int, month: int, date: int): int
  {
    DaysFromCivil(year + month / 12, month % 12 + 1, date)
  }

  function MakeTime(hour: int, min: int, sec: int, ms: int): int
  {
    hour * 3_600_000 + min * 60_000 + sec * 1_000 + ms
  }

  function MakeDate(day: int, time: int): int
  {
    day * 86_400_000 + time
  }

  /** MakeFullYear: two-digit years 0..99 denote 1900..1999. */
  function MakeFullYear(y: int): int
  {
    if 0 <= y <= 99 then 1900 + y else y
  }

  /** UTC(t) for a host whose local time is tz minutes ahead of UTC. */
  function Utc(t: int, tz: int): int
  {
    t - tz * 60_000
  }

  /** TimeClip: None stands for NaN, the value of an invalid Date. */
  function TimeClip(t: int): (r: Option<int>)
    ensures r.Some? <==> -MaxTimeValue <= t <= MaxTimeValue
    ensures r.Some? ==> r.value == t
  {
    if -MaxTimeValue <= t <= MaxTimeValue then Some(t) else None
  }

  /** The time value of `new Date(year, monthIndex, day, hours, minutes)`. */
  function NewDate(year: int, monthIndex: int, day: int, hours: int, minutes: int, tz: int): Option<int>
  {
    TimeClip(Utc(MakeDate(MakeDay(MakeFullYear(year), monthIndex, day), MakeTime(hours, minutes, 0, 0)), tz))
  }

  // ---------------------------------------------------------------------
  // The calendar: DayFromYear against a year-by-year count.

  /** Reference definition: days from 1970-01-01 to January 1st of y, counted year by year. */
  function CountedDays(y: int): int
    decreases if y >= 1970 then y - 1970 else 1970 - y
  {
    if y == 1970 then 0
    else if y > 1970 then CountedDays(y - 1) + DaysInYear(y - 1)
    else CountedDays(y + 1) - DaysInYear(y)
  }

  /** Floor division by 4 steps up exactly when a + 1 is a multiple of 4; likewise for 100 and 400 below. */
  lemma FloorStep4(a: int, k: int)
    ensures (a + 1) / 4 == a / 4 + (if (a + 1 + 4 * k) % 4 == 0 then 1 else 0)
  {
    assert (a + 1 + 4 * k) % 4 == (a + 1) % 4;
  }

  lemma FloorStep100(a: int, k: int)
    ensures (a + 1) / 100 == a / 100 + (if (a + 1 + 100 * k) % 100 == 0 then 1 else 0)
  {
    assert (a + 1 + 100 * k) % 100 == (a + 1) % 100;
  }

  lemma FloorStep400(a: int, k: int)
    ensures (a + 1) / 400 == a / 400 + (if (a + 1 + 400 * k) % 400 == 0 then 1 else 0)
  {
    assert (a + 1 + 400 * k) % 400 == (a + 1) % 400;
  }

  /** Every multiple of 400 is a multiple of 100, every multiple of 100 a multiple of 4. */
  lemma DivisibilityChain(y: int)
    ensures y % 400 == 0 ==> y % 100 == 0
    ensures y % 100 == 0 ==> y % 4 == 0
  {
    if y % 400 == 0 {
      var q := y / 400;
      assert y == 100 * (4 * q) + 0;
    }
    if y % 100 == 0 {
      var q := y / 100;
      assert y == 4 * (25 * q) + 0;
    }
  }

  /** Each year starts exactly DaysInYear days after the previous one. */
  lemma DayFromYearStep(y: int)
    ensures DayFromYear(y + 1) == DayFromYear(y) + DaysInYear(y)
  {
    FloorStep4(y - 1969, 492);
    FloorStep100(y - 1901, 19);
    FloorStep400(y - 1601, 4);
    var s4 := if y % 4 == 0 then 1 else 0;
    var s100 := if y % 100 == 0 then 1 else 0;
    var s400 := if y % 400 == 0 then 1 else 0;
    assert DayFromYear(y + 1) - DayFromYear(y) == 365 + s4 - s100 + s400;
    DivisibilityChain(y);
  }

  /** The closed form of the standard agrees with counting year lengths from 1970. */
  lemma {:induction false} DayFromYearCounts(y: int)
    ensures DayFromYear(y) == CountedDays(y)
    decreases if y >= 1970 then y - 1970 else 1970 - y
  {
    if y > 1970 {
      DayFromYearCounts(y - 1);
      DayFromYearStep(y - 1);
    } else if y < 1970 {
      DayFromYearCounts(y + 1);
      DayFromYearStep(y);
    }
  }

  /** Each month starts where the previous one ends. */
  lemma MonthsTile(y: int, mn: int)
    requires 0 <= mn < 11
    ensures DaysBeforeMonth(y, mn + 1) == DaysBeforeMonth(y, mn) + DaysInMonth(y, mn)
  {
  }

  /** The twelve months fill the year exactly. */
  lemma MonthsFillYear(y: int)
    ensures DaysBeforeMonth(y, 11) + DaysInMonth(y, 11) == DaysInYear(y)
  {
  }

  // ---------------------------------------------------------------------
  // Roll-over: out-of-range fields are normalised, never rejected.

  /** A month index 12 higher is the same month of the next year (e.g. month "13" is January). */
  lemma MonthCarry(year: int, month: int, date: int)
    ensures MakeDay(year, month + 12, date) == MakeDay(year + 1, month, date)
  {
    assert (month + 12) / 12 == month / 12 + 1;
    assert (month + 12) % 12 == month % 12;
  }

  /** Day DaysInMonth + d of a month is day d of the next month (e.g. 32/01 is 01/02, 32/12 is 01/01 of the next year). */
  lemma DayCarry(year: int, mn: int, d: int)
    requires 0 <= mn < 12
    ensures MakeDay(year, mn, DaysInMonth(year, mn) + d) == MakeDay(year, mn + 1, d)
  {
    assert mn / 12 == 0 && mn % 12 == mn;
    if mn == 11 {
      assert (mn + 1) / 12 == 1 && (mn + 1) % 12 == 0;
      MonthsFillYear(year);
      DayFromYearStep(year);
    } else {
      assert (mn + 1) / 12 == 0 && (mn + 1) % 12 == mn + 1;
    }
  }

  /** Hour h + 24 is hour h of the next day (e.g. "25h00" is 01h00 the day after). */
  lemma HourCarry(year: int, month: int, day: int, h: int, min: int, tz: int)
    ensures NewDate(year, month, day, h + 24, min, tz) == NewDate(year, month, day + 1, h, min, tz)
  {
    var y := MakeFullYear(year);
    assert MakeDay(y, month, day + 1) == MakeDay(y, month, day) + 1;
  }

  /** Minute 60 + m is minute m of the next hour. */
  lemma MinuteCarry(year: int, month: int, day: int, h: int, min: int, tz: int)
    ensures NewDate(year, month, day, h, min + 60, tz) == NewDate(year, month, day, h + 1, min, tz)
  {
  }

  /** With seconds and milliseconds zero and a whole-minute offset, every Date is a whole number of minutes. */
  lemma WholeMinutes(year: int, month: int, day: int, h: int, min: int, tz: int)
    requires NewDate(year, month, day, h, min, tz).Some?
    ensures NewDate(year, month, day, h, min, tz).value % 60_000 == 0
  {
    var d := MakeDay(MakeFullYear(year), month, day);
    assert Utc(MakeDate(d, MakeTime(h, min, 0, 0)), tz) == 60_000 * (d * 1440 + h * 60 + min - tz);
  }

  /** Rough bounds of DayFromYear over a range of years wider than four digits allow. */
  lemma DayFromYearBounds(y: int)
    requires 0 <= y <= 20_000
    ensures -720_000 <= DayFromYear(y) <= 6_600_000
  {
  }

  lemma DaysBeforeMonthBounds(y: int, mn: int)
    requires 0 <= mn < 12
    ensures 0 <= DaysBeforeMonth(y, mn) <= 335
  {
  }

  /**
   * Dates whose fields come from the date pattern (a year of four digits, a
   * month index -1..98, a day, hour and minute of at most two digits) are never
   * clipped to NaN when the offset is at most a day.
   */
  lemma NoClip(year: int, month: int, day: int, h: int, min: int, tz: int)
    requires 0 <= year <= 9999 && -1 <= month <= 98
    requires 0 <= day <= 99 && 0 <= h <= 99 && 0 <= min <= 99
    requires -1440 <= tz <= 1440
    ensures NewDate(year, month, day, h, min, tz).Some?
  {
    var y := MakeFullYear(year);
    var ym := y + month / 12;
    assert 0 <= ym <= 20_000;
    DayFromYearBounds(ym);
    DaysBeforeMonthBounds(ym, month % 12);
    var d := MakeDay(y, month, day);
    assert -800_000 <= d <= 7_000_000;
    var t := Utc(MakeDate(d, MakeTime(h, min, 0, 0)), tz);
    assert t == d * 86_400_000 + h * 3_600_000 + min * 60_000 - tz * 60_000;
  }

  /** The same dates as a number of seconds: midnight of the rolled-over day plus the hour and minute, minus the offset. */
  lemma NewDateSeconds(year: int, month: int, day: int, h: int, min: int, tz: int)
    requires 0 <= year <= 9999 && -1 <= month <= 98
    requires 0 <= day <= 99 && 0 <= h <= 99 && 0 <= min <= 99
    requires -1440 <= tz <= 1440
    ensures NewDate(year, month, day, h, min, tz)
      == Some(1000 * (MakeDay(MakeFullYear(year), month, day) * 86400 + h * 3600 + min * 60 - tz * 60))
  {
    NoClip(year, month, day, h, min, tz);
  }
}
