/**
  The Julian Date conversion pair of the moment plug-in: `toJD` turns the accessor values
  of a date-time into a Julian Date (days since noon UTC of 1 January 4713 BCE, Julian
  calendar), and `fromJD` turns a Julian Date back into the fields it hands to the
  date-time's setters. Both follow the Julian Period algorithm of Claus Tøndering's
  Calendar FAQ; Julian Dates are exact rationals here.
 */
module JulianDate {
  import opened Wrappers
  import opened JsArith

  type PositiveInt = n: int | n > 0 witness 1

  /** The accessor values toJD reads from the date-time; `month` is 0-based. */
  datatype DateInput = DateInput(
    year: int,
    month: int,
    date: int,
    hour: int,
    minute: int,
    second: int,
    millisecond: int,
    isUTC: bool,
    utcOffset: int,
    daysInMonth: PositiveInt)

  /**
    The fields fromJD computes for the setters of a UTC date-time, in the order it calls
    them: `month` is the 1-based month, which the month setter receives less one, and
    `day` may lie outside the month, for the setters to carry over.
   */
  datatype Fields = Fields(
    year: int,
    month: int,
    day: int,
    hour: int,
    minute: int,
    second: int,
    millisecond: int)

  /** The decimal year the source takes as the end of the Julian calendar, 1582-10-05. */
  const JULIAN_CALENDAR_END: real := 1582.994623655914

  /** The Julian Date of 1582-10-15 00:00 UTC, where fromJD switches to the Gregorian inversion. */
  const GREGORIAN_START_JD: real := 2299160.5

  // ---------------------------------------------------------------- years

  /**
    The year the day-count formulas use: a negative input year n stands for the year |n|
    BCE, which is the astronomical year n + 1; other years are taken as they are.
   */
  function FormulaYear(year: int): int
  {
    if year < 0 then year + 1 else year
  }

  /** The year fromJD reports: astronomical years up to 0 are lowered by one (no year 0). */
  function EncodeYear(year: int): (r: int)
    ensures r != 0
    ensures FormulaYear(r) == year
    ensures year > 0 ==> r == year
  {
    if year <= 0 then year - 1 else year
  }

  // ---------------------------------------------------------------- toJD

  /** The ten days 1582-10-05 .. 1582-10-14 that the Gregorian reform dropped. */
  predicate InReformGap(d: DateInput)
  {
    FormulaYear(d.year) == 1582 && d.month == 9 && d.date <= 14 && d.date >= 5
  }

  /** The decimal-year estimate of d that toJD compares against JULIAN_CALENDAR_END. */
  function DecimalYear(d: DateInput): real
  {
    d.year as real + (d.month + 1) as real / 12.0 + d.date as real / d.daysInMonth as real
  }

  /** toJD's choice of the Julian day count. */
  predicate UsesJulianCalendar(d: DateInput)
  {
    DecimalYear(d) < JULIAN_CALENDAR_END
  }

  /** Tøndering's shift of the year to start in March: 1 for January and February, else 0. */
  function MarchShift(month: int): int
  {
    (14 - (month + 1)) / 12
  }

  /**
    The month term both day counts share: the days from March 1 to the first of the
    0-based month, in the year that starts in March.
   */
  function MonthTerm(month: int): int
  {
    (153 * ((month + 1) + 12 * MarchShift(month) - 3) + 2) / 5
  }

  /**
    The Julian-calendar day number (the Julian Date of noon) of year, 0-based month and date,
    the year astronomical.
   */
  function JulianDayNumber(year: int, month: int, date: int): int
  {
    var y := year + 4800 - MarchShift(month);
    date + MonthTerm(month) + 365 * y + y / 4 - 32083
  }

  /** The Gregorian-calendar day number of year, 0-based month and date, the year astronomical. */
  function GregorianDayNumber(year: int, month: int, date: int): int
  {
    var y := year + 4800 - MarchShift(month);
    date + MonthTerm(month) + 365 * y + y / 4 - y / 100 + y / 400 - 32045
  }

  /** The hour in UTC: the local hour less the offset, which is in minutes. */
  function UtcHour(d: DateInput): real
  {
    if d.isUTC then d.hour as real else d.hour as real - d.utcOffset as real / 60.0
  }

  /** The time since noon, in days, as the Julian branch computes it: without milliseconds. */
  function JulianTimeOfDay(d: DateInput): real
  {
    (UtcHour(d) - 12.0) / 24.0 + d.minute as real / 1440.0 + d.second as real / 86400.0
  }

  /** The time since noon, in days, as the Gregorian branch computes it. */
  function GregorianTimeOfDay(d: DateInput): real
  {
    (UtcHour(d) - 12.0) / 24.0 + d.minute as real / 1440.0
    + (d.second as real + d.millisecond as real / 1000.0) / 86400.0
  }

  /** toJD: the Julian Date of d, or None for a date in the reform gap. */
  function ToJD(d: DateInput): (r: Option<real>)
    ensures r.None? <==> d.year == 1582 && d.month == 9 && 5 <= d.date <= 14
  {
    if InReformGap(d) then None
    else if UsesJulianCalendar(d) then
      Some(JulianDayNumber(FormulaYear(d.year), d.month, d.date) as real + JulianTimeOfDay(d))
    else
      Some(GregorianDayNumber(FormulaYear(d.year), d.month, d.date) as real + GregorianTimeOfDay(d))
  }

  // ---------------------------------------------------------------- fromJD

  /**
    The first stage of the inversion: whole centuries since March of 4801 BCE (`b`) and the
    days that remain in the current century (`c`).
   */
  datatype Split = Split(centuries: int, rest: real)

  /** The Julian branch of fromJD: no centuries. */
  function JulianSplit(jd: real): Split
  {
    Split(0, jd + 32082.0)
  }

  /** The Gregorian branch of fromJD, applied to the fractional Julian Date as written. */
  function GregorianSplit(jd: real): Split
  {
    var a := jd + 32044.0;
    var b := ((4.0 * a + 3.0) / 146097.0).Floor;
    Split(b, a - ((146097 * b) / 4) as real)
  }

  /** The calendar part of the inversion: astronomical year, 1-based month, fractional day. */
  datatype Civil = Civil(year: int, month: int, day: real)

  /** The rest of a split is at least the day count of the whole four-year cycles it holds. */
  lemma RestBounds(c: real)
    ensures 0.0 <= c - ((1461 * (4.0 * c / 1461.0).Floor) / 4) as real < 366.0
  {
    var d := (4.0 * c / 1461.0).Floor;
    var q := (1461 * d) / 4;
    assert 4 * q <= 1461 * d < 4 * q + 4;
    assert d as real <= 4.0 * c / 1461.0 < d as real + 1.0;
    assert 1461.0 * d as real <= 4.0 * c < 1461.0 * d as real + 1461.0;
  }

  /** The shared inversion of the day count, from a split to year, month and day. */
  function CivilFromSplit(s: Split): (r: Civil)
    ensures 1 <= r.month <= 12
    ensures 0.2 <= r.day < 31.6
  {
    var d := (4.0 * s.rest / 1461.0).Floor;
    var e := s.rest - ((1461 * d) / 4) as real;
    var m := ((5.0 * e + 2.0) / 153.0).Floor;
    RestBounds(s.rest);
    assert 0 <= m <= 11 by {
      assert 2.0 <= 5.0 * e + 2.0 < 1832.0;
    }
    assert 153.0 * m as real <= 5.0 * e + 2.0 < 153.0 * m as real + 153.0;
    Civil(100 * s.centuries + d - 4800 + m / 10,
          m + 3 - 12 * (m / 10),
          e - ((153 * m + 2) / 5) as real + 1.0)
  }

  /** The time-of-day part of fromJD: the day it lands on and hour, minute, second, millisecond. */
  datatype TimeSplit = TimeSplit(day: int, hour: int, minute: int, second: int, millisecond: int)

  /**
    Splits a fractional day number: an integer day is noon; a half is the midnight that
    starts the next day; below a half is the afternoon and evening of the same day, above a
    half the early hours of the next one.
   */
  function SplitDay(day: real): TimeSplit
  {
    var f := JsRem(day, 1.0);
    if f != 0.0 then
      if f == 0.5 then
        TimeSplit(day.Floor + 1, 0, 0, 0, 0)
      else
        var hour := (if f < 0.5 then f * 24.0 + 12.0 else f * 24.0 - 12.0).Floor;
        var minutes := f * 1440.0;
        var minute := JsRem(minutes - JsRem(minutes, 1.0), 60.0).Floor;
        var seconds := f * 86400.0;
        var second := JsRem(seconds - JsRem(seconds, 1.0), 60.0).Floor;
        var millisecond := ToFixed0(1000.0 * (JsRem(seconds, 60.0) - second as real));
        var whole := if f < 0.5 then day - f else day - f + 1.0;
        TimeSplit(whole.Floor, hour, minute, second, millisecond)
    else
      TimeSplit(day.Floor, 12, 0, 0, 0)
  }

  /** The ranges of the fields SplitDay produces from a positive day. */
  lemma SplitDayRanges(day: real)
    requires day > 0.0
    ensures var t := SplitDay(day);
      && 0 <= t.hour <= 23 && 0 <= t.minute <= 59 && 0 <= t.second <= 59
      && 0 <= t.millisecond <= 1000
      && day.Floor <= t.day <= day.Floor + 1
  {
    RemOneIsFrac(day);
    var f := Frac(day);
    if f != 0.0 && f != 0.5 {
      WholeRemSixty(f * 1440.0);
      WholeRemSixty(f * 86400.0);
      RemSixtyResidual(f * 86400.0);
    }
  }

  /** The provisional fields of a split, with the year re-encoded. */
  function FieldsFromSplit(s: Split): (r: Fields)
    ensures 1 <= r.month <= 12
    ensures r.year != 0
    ensures 0 <= r.hour <= 23 && 0 <= r.minute <= 59 && 0 <= r.second <= 59
    ensures 0 <= r.millisecond <= 1000
    ensures 0 <= r.day <= 32
  {
    var civil := CivilFromSplit(s);
    var t := SplitDay(civil.day);
    SplitDayRanges(civil.day);
    Fields(EncodeYear(civil.year), civil.month, t.day, t.hour, t.minute, t.second, t.millisecond)
  }

  /** fromJD up to the fields handed to the UTC date-time's setters. */
  function FromJD(jd: real): (r: Fields)
    ensures 1 <= r.month <= 12
    ensures r.year != 0
    ensures 0 <= r.hour <= 23 && 0 <= r.minute <= 59 && 0 <= r.second <= 59
    ensures 0 <= r.millisecond <= 1000
    ensures 0 <= r.day <= 32
  {
    FieldsFromSplit(if jd < GREGORIAN_START_JD then JulianSplit(jd) else GregorianSplit(jd))
  }

  // ---------------------------------------------------------------- corrected variants

  /**
    The Gregorian split computed from the whole part of a = jd + 32044, as Tøndering's
    integer algorithm expects, with the fraction carried in the rest.
   */
  function GregorianSplitFixed(jd: real): (s: Split)
    ensures 0.0 <= s.rest < 36525.0
  {
    var a := jd + 32044.0;
    var n := a.Floor;
    var b := (4 * n + 3) / 146097;
    var q := (146097 * b) / 4;
    assert 0 <= n - q <= 36524 by {
      assert 4 * q <= 146097 * b < 4 * q + 4;
      assert 146097 * b <= 4 * n + 3 < 146097 * b + 146097;
    }
    assert 0.0 <= a - q as real < 36525.0 by {
      assert n as real <= a < n as real + 1.0;
    }
    Split(b, a - q as real)
  }

  /** fromJD with the Gregorian split taken from the whole part of the Julian Date. */
  function FromJDFixed(jd: real): (r: Fields)
    ensures 1 <= r.month <= 12
    ensures r.year != 0
    ensures 0 <= r.hour <= 23 && 0 <= r.minute <= 59 && 0 <= r.second <= 59
    ensures 0 <= r.millisecond <= 1000
    ensures 0 <= r.day <= 32
  {
    FieldsFromSplit(if jd < GREGORIAN_START_JD then JulianSplit(jd) else GregorianSplitFixed(jd))
  }

  /** The dates before the reform, compared as (year, month, date) rather than by decimal year. */
  predicate BeforeReform(year: int, month: int, date: int)
  {
    year < 1582 || (year == 1582 && (month < 9 || (month == 9 && date < 5)))
  }

  /** toJD choosing the Julian day count for exactly the dates before 1582-10-05. */
  function ToJDReformAware(d: DateInput): (r: Option<real>)
    ensures r.None? <==> d.year == 1582 && d.month == 9 && 5 <= d.date <= 14
  {
    if InReformGap(d) then None
    else if BeforeReform(FormulaYear(d.year), d.month, d.date) then
      Some(JulianDayNumber(FormulaYear(d.year), d.month, d.date) as real + JulianTimeOfDay(d))
    else
      Some(GregorianDayNumber(FormulaYear(d.year), d.month, d.date) as real + GregorianTimeOfDay(d))
  }
}
