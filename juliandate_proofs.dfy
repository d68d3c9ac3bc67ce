/**
  What the conversion pair guarantees: the day counts number consecutive days, toJD places
  an instant in its civil day, fromJD's provisional fields denote the instant they came
  from, the two directions invert each other within each calendar's range, and the
  known values and counterexamples of the algorithm.
 */
module JulianDateProofs {
  import opened Wrappers
  import opened JsArith
  import opened JulianDate
  import opened DayClock
  import opened SplitDayProofs

  // ---------------------------------------------------------------- vocabulary

  /** A time of day the date-time accessors can report. */
  predicate ValidTime(d: DateInput)
  {
    0 <= d.hour <= 23 && 0 <= d.minute <= 59 && 0 <= d.second <= 59 && 0 <= d.millisecond <= 999
  }

  /** A month index and a date within the month the accessors report. */
  predicate ValidMonthDate(d: DateInput)
  {
    0 <= d.month <= 11 && 1 <= d.date <= d.daysInMonth <= 31
  }

  /** The day count of the calendar the flag selects. */
  function DayNumber(julian: bool, year: int, month: int, date: int): int
  {
    if julian then JulianDayNumber(year, month, date) else GregorianDayNumber(year, month, date)
  }

  /** The date-time fromJD's fields would give back to toJD, in UTC, taken before any carry-over. */
  function AsInput(r: Fields, daysInMonth: PositiveInt): DateInput
  {
    DateInput(r.year, r.month - 1, r.day, r.hour, r.minute, r.second, r.millisecond, true, 0, daysInMonth)
  }

  // ---------------------------------------------------------------- small facts

  /** A date no larger than the month length adds at most 1 to the decimal year. */
  lemma RatioAtMostOne(n: int, k: int)
    requires 0 <= n <= k && k > 0
    ensures 0.0 <= n as real / k as real <= 1.0
  {
    var q := n as real / k as real;
    assert q * k as real == n as real;
  }

  /** A provisional day up to 32 in a month of at least 28 days adds less than 1.2. */
  lemma RatioBelowOneAndAFifth(n: int, k: int)
    requires 0 <= n <= 32 && k >= 28
    ensures 0.0 <= n as real / k as real < 1.2
  {
    var q := n as real / k as real;
    assert q * k as real == n as real;
  }

  /** A date not below zero adds nothing negative to the decimal year. */
  lemma RatioNonNegative(n: int, k: int)
    requires 0 <= n && k > 0
    ensures 0.0 <= n as real / k as real
  {
    var q := n as real / k as real;
    assert q * k as real == n as real;
  }

  /** The day counts are linear in the date, whatever the date's range. */
  lemma DayNumberLinear(julian: bool, year: int, month: int, date: int)
    ensures DayNumber(julian, year, month, date) == DayNumber(julian, year, month, 0) + date
  {
  }

  // ---------------------------------------------------------------- years

  /**
    The two year shifts undo each other: an input year other than 0 comes back unchanged,
    and 0, read as astronomical year 0 (1 BCE), comes back as -1.
   */
  lemma YearShiftsRoundTrip(year: int)
    ensures EncodeYear(FormulaYear(year)) == (if year == 0 then -1 else year)
    ensures FormulaYear(EncodeYear(year)) == year
  {
  }

  // ---------------------------------------------------------------- toJD: regime

  /** Every valid date of a year up to 1580 takes the Julian count. */
  lemma JulianUpTo1580(d: DateInput)
    requires ValidMonthDate(d) && d.year <= 1580
    ensures UsesJulianCalendar(d)
  {
    RatioAtMostOne(d.date, d.daysInMonth);
  }

  /** Every date from 1583 on with a month index and date not below zero takes the Gregorian count. */
  lemma GregorianFrom1583(d: DateInput)
    requires d.month >= 0 && d.date >= 0 && d.year >= 1583
    ensures !UsesJulianCalendar(d)
  {
    RatioNonNegative(d.date, d.daysInMonth);
  }

  /** The first valid Gregorian date, 1582-10-15, and the last Julian date, 1582-10-04. */
  lemma ReformBoundaryDates()
    ensures !UsesJulianCalendar(DateInput(1582, 9, 15, 0, 0, 0, 0, true, 0, 31))
    ensures UsesJulianCalendar(DateInput(1582, 9, 4, 0, 0, 0, 0, true, 0, 31))
  {
  }

  // ---------------------------------------------------------------- toJD: values

  /** Known values of toJD at 00:00 UTC. */
  lemma KnownValues()
    ensures ToJD(DateInput(1582, 9, 15, 0, 0, 0, 0, true, 0, 31)) == Some(2299160.5)
    ensures ToJD(DateInput(1582, 9, 4, 0, 0, 0, 0, true, 0, 31)) == Some(2299159.5)
    ensures ToJD(DateInput(2000, 0, 1, 0, 0, 0, 0, true, 0, 31)) == Some(2451544.5)
  {
    var reform := DateInput(1582, 9, 15, 0, 0, 0, 0, true, 0, 31);
    var eve := DateInput(1582, 9, 4, 0, 0, 0, 0, true, 0, 31);
    var epoch := DateInput(2000, 0, 1, 0, 0, 0, 0, true, 0, 31);
    assert MarchShift(9) == 0 && MonthTerm(9) == 214;
    assert MarchShift(0) == 1 && MonthTerm(0) == 306;
    assert !UsesJulianCalendar(reform) && GregorianTimeOfDay(reform) == -0.5;
    assert GregorianDayNumber(1582, 9, 15) == 2299161;
    assert UsesJulianCalendar(eve) && JulianTimeOfDay(eve) == -0.5;
    assert JulianDayNumber(1582, 9, 4) == 2299160;
    assert !UsesJulianCalendar(epoch) && GregorianTimeOfDay(epoch) == -0.5;
    assert GregorianDayNumber(2000, 0, 1) == 2451545;
  }

  /**
    toJD places the instant in the civil UTC day of the day count and the clock time since
    its midnight, the milliseconds counted only by the Gregorian branch.
   */
  lemma ToJDPlacesInstant(d: DateInput)
    requires !InReformGap(d) && d.isUTC && ValidTime(d)
    ensures ToJD(d).Some?
    ensures var x := ToJD(d).value;
      var julian := UsesJulianCalendar(d);
      && CivilDay(x) == DayNumber(julian, FormulaYear(d.year), d.month, d.date)
      && SecondsOfDay(x)
         == ClockSeconds(d.hour, d.minute, d.second) as real
            + (if julian then 0.0 else d.millisecond as real / 1000.0)
  {
    var julian := UsesJulianCalendar(d);
    var n := DayNumber(julian, FormulaYear(d.year), d.month, d.date);
    var t := ClockSeconds(d.hour, d.minute, d.second) as real
             + (if julian then 0.0 else d.millisecond as real / 1000.0);
    assert 0.0 <= t < 86400.0;
    var x := ToJD(d).value;
    assert x + 0.5 == n as real + t / 86400.0;
    FloorOfWholePlus(n, t / 86400.0);
  }

  /** A local time at a UTC offset of k minutes is the same UTC time k minutes earlier. */
  lemma ToJDHonoursOffset(d: DateInput)
    requires !InReformGap(d) && !d.isUTC
    ensures ToJD(d).Some? && ToJD(d.(isUTC := true)).Some?
    ensures ToJD(d).value == ToJD(d.(isUTC := true)).value - d.utcOffset as real / 1440.0
  {
  }

  /** Milliseconds move the Gregorian result by a millisecond each and the Julian one not at all. */
  lemma MillisecondsOnlyGregorian(d: DateInput, ms: int)
    requires !InReformGap(d)
    ensures ToJD(d).Some? && ToJD(d.(millisecond := ms)).Some?
    ensures UsesJulianCalendar(d) ==> ToJD(d.(millisecond := ms)) == ToJD(d)
    ensures !UsesJulianCalendar(d) ==>
      ToJD(d.(millisecond := ms)).value - ToJD(d).value == (ms - d.millisecond) as real / 86400000.0
  {
    assert UsesJulianCalendar(d.(millisecond := ms)) == UsesJulianCalendar(d);
  }

  // ---------------------------------------------------------------- day counts number consecutive days

  /** A date of an astronomical year and a 0-based month. */
  datatype CalendarDate = CalendarDate(year: int, month: int, date: int)

  predicate JulianLeap(year: int)
  {
    year % 4 == 0
  }

  predicate GregorianLeap(year: int)
  {
    (year % 4 == 0 && year % 100 != 0) || year % 400 == 0
  }

  function MonthLength(month: int, leap: bool): int
  {
    if month == 1 then (if leap then 29 else 28)
    else if month == 3 || month == 5 || month == 8 || month == 10 then 30
    else 31
  }

  /** The next day, in a calendar whose current month has the given length. */
  function NextDate(c: CalendarDate, length: int): CalendarDate
  {
    if c.date < length then c.(date := c.date + 1)
    else if c.month < 11 then CalendarDate(c.year, c.month + 1, 1)
    else CalendarDate(c.year + 1, 0, 1)
  }

  lemma DivStep(y: int)
    ensures y / 4 - (y - 1) / 4 == (if y % 4 == 0 then 1 else 0)
    ensures y / 100 - (y - 1) / 100 == (if y % 100 == 0 then 1 else 0)
    ensures y / 400 - (y - 1) / 400 == (if y % 400 == 0 then 1 else 0)
  {
    assert y == 4 * (y / 4) + y % 4;
    assert y == 100 * (y / 100) + y % 100;
    assert y == 400 * (y / 400) + y % 400;
  }

  /** The year terms of both counts grow by the leap day when the March-based year advances. */
  lemma LeapStep(year: int)
    ensures var y := year + 4800;
      y / 4 - (y - 1) / 4 == (if JulianLeap(year) then 1 else 0)
    ensures var y := year + 4800;
      y / 4 - y / 100 + y / 400 - ((y - 1) / 4 - (y - 1) / 100 + (y - 1) / 400)
      == (if GregorianLeap(year) then 1 else 0)
  {
    var y := year + 4800;
    DivStep(y);
    ShiftModFour(year);
    ShiftModHundred(year);
    ShiftModFourHundred(year);
    DivisorsNest(y);
  }

  /** A multiple of 400 is a multiple of 100, and a multiple of 100 a multiple of 4. */
  lemma DivisorsNest(y: int)
    ensures y % 400 == 0 ==> y % 100 == 0
    ensures y % 100 == 0 ==> y % 4 == 0
  {
    if y % 400 == 0 {
      var k := y / 400;
      assert y == 400 * k;
      assert y / 100 == 4 * k;
    }
    if y % 100 == 0 {
      var k := y / 100;
      assert y == 100 * k;
      assert y / 4 == 25 * k;
    }
  }

  /** 4800 years are a whole number of leap cycles of either calendar. */
  lemma ShiftModFour(year: int)
    ensures (year + 4800) % 4 == year % 4
  {
    assert year + 4800 == 4 * (year / 4 + 1200) + year % 4;
  }

  lemma ShiftModHundred(year: int)
    ensures (year + 4800) % 100 == year % 100
  {
    assert year + 4800 == 100 * (year / 100 + 48) + year % 100;
  }

  lemma ShiftModFourHundred(year: int)
    ensures (year + 4800) % 400 == year % 400
  {
    assert year + 4800 == 400 * (year / 400 + 12) + year % 400;
  }

  /** The last day of a Julian month and the day after it get consecutive day numbers. */
  lemma JulianMonthEnd(year: int, month: int)
    requires 0 <= month <= 11
    ensures var len := MonthLength(month, JulianLeap(year));
      var n := NextDate(CalendarDate(year, month, len), len);
      JulianDayNumber(n.year, n.month, n.date) == JulianDayNumber(year, month, len) + 1
  {
    if month == 1 {
      LeapStep(year);
    } else {
      MonthEndSameYearTerms(year, month);
    }
  }

  /** The last day of a Gregorian month and the day after it get consecutive day numbers. */
  lemma GregorianMonthEnd(year: int, month: int)
    requires 0 <= month <= 11
    ensures var len := MonthLength(month, GregorianLeap(year));
      var n := NextDate(CalendarDate(year, month, len), len);
      GregorianDayNumber(n.year, n.month, n.date) == GregorianDayNumber(year, month, len) + 1
  {
    if month == 1 {
      GregorianFebruaryEnd(year);
    } else {
      MonthEndSameYearTerms(year, month);
    }
  }

  /** The Gregorian count passes from the last of February to March 1 in one day. */
  lemma GregorianFebruaryEnd(year: int)
    ensures var len := MonthLength(1, GregorianLeap(year));
      GregorianDayNumber(year, 2, 1) == GregorianDayNumber(year, 1, len) + 1
  {
    var y := year + 4800;
    var len := MonthLength(1, GregorianLeap(year));
    LeapStep(year);
    assert MarchShift(1) == 1 && MonthTerm(1) == 337;
    assert MarchShift(2) == 0 && MonthTerm(2) == 0;
    assert GregorianDayNumber(year, 1, len)
      == len + 337 + 365 * (y - 1) + (y - 1) / 4 - (y - 1) / 100 + (y - 1) / 400 - 32045;
    assert GregorianDayNumber(year, 2, 1) == 1 + 365 * y + y / 4 - y / 100 + y / 400 - 32045;
  }

  /**
    Except at the end of February, the day after a month's last day has the same
    March-based year, and its month term is larger by the month's length less one.
   */
  lemma MonthEndSameYearTerms(year: int, month: int)
    requires 0 <= month <= 11 && month != 1
    ensures var len := MonthLength(month, false);
      var n := NextDate(CalendarDate(year, month, len), len);
      && n.year + 4800 - MarchShift(n.month) == year + 4800 - MarchShift(month)
      && MonthTerm(n.month) + n.date == MonthTerm(month) + len + 1
  {
  }

  /** Consecutive Julian-calendar dates get consecutive Julian day numbers. */
  lemma JulianNextDay(c: CalendarDate)
    requires 0 <= c.month <= 11 && 1 <= c.date <= MonthLength(c.month, JulianLeap(c.year))
    ensures var n := NextDate(c, MonthLength(c.month, JulianLeap(c.year)));
      JulianDayNumber(n.year, n.month, n.date) == JulianDayNumber(c.year, c.month, c.date) + 1
  {
    if c.date == MonthLength(c.month, JulianLeap(c.year)) {
      JulianMonthEnd(c.year, c.month);
    }
  }

  /** Consecutive Gregorian-calendar dates get consecutive Gregorian day numbers. */
  lemma GregorianNextDay(c: CalendarDate)
    requires 0 <= c.month <= 11 && 1 <= c.date <= MonthLength(c.month, GregorianLeap(c.year))
    ensures var n := NextDate(c, MonthLength(c.month, GregorianLeap(c.year)));
      GregorianDayNumber(n.year, n.month, n.date) == GregorianDayNumber(c.year, c.month, c.date) + 1
  {
    if c.date == MonthLength(c.month, GregorianLeap(c.year)) {
      GregorianMonthEnd(c.year, c.month);
    }
  }

  // ---------------------------------------------------------------- day counts tell dates apart

  /** The leap rule of the calendar the flag selects. */
  predicate Leap(julian: bool, year: int)
  {
    if julian then JulianLeap(year) else GregorianLeap(year)
  }

  /** A month index and a date within that month's length, in the calendar the flag selects. */
  predicate ValidDate(julian: bool, c: CalendarDate)
  {
    0 <= c.month <= 11 && 1 <= c.date <= MonthLength(c.month, Leap(julian, c.year))
  }

  /**
    The count of the day before March 1 of year, where that year's March-based count starts:
    the year terms of the count the flag selects.
   */
  function YearStart(julian: bool, year: int): int
  {
    var y := year + 4800;
    if julian then 365 * y + y / 4 - 32083 else 365 * y + y / 4 - y / 100 + y / 400 - 32045
  }

  /** A March-based year holds 365 days, and one more when the February it ends with is leap. */
  lemma YearStartStep(julian: bool, year: int)
    ensures YearStart(julian, year + 1)
      == YearStart(julian, year) + 365 + (if Leap(julian, year + 1) then 1 else 0)
  {
    LeapStep(year + 1);
  }

  /** Later March-based years start later. */
  lemma {:induction false} YearStartIncreasing(julian: bool, w: int, z: int)
    requires w < z
    ensures YearStart(julian, w) < YearStart(julian, z)
    decreases z - w
  {
    YearStartStep(julian, z - 1);
    if w < z - 1 {
      YearStartIncreasing(julian, w, z - 1);
    }
  }

  /** A day number lies in the March-based year that starts at s. */
  predicate InMarchYear(julian: bool, s: int, n: int)
  {
    YearStart(julian, s) < n <= YearStart(julian, s + 1)
  }

  /** A date's count is its March-based year's start plus the month term and the date. */
  lemma CountFromYearStart(julian: bool, c: CalendarDate)
    ensures DayNumber(julian, c.year, c.month, c.date)
      == YearStart(julian, c.year - MarchShift(c.month)) + MonthTerm(c.month) + c.date
  {
  }

  /** The month term and date of a valid date stay within the length of its March-based year. */
  lemma DayOfMarchYearBound(julian: bool, c: CalendarDate)
    requires ValidDate(julian, c)
    ensures 1 <= MonthTerm(c.month) + c.date
      <= 365 + (if Leap(julian, c.year - MarchShift(c.month) + 1) then 1 else 0)
  {
    assert c.month == 1 ==> c.year - MarchShift(c.month) + 1 == c.year;
  }

  /** A valid date's count n is its month term plus its date into its own March-based year. */
  lemma PlacedInYear(julian: bool, c: CalendarDate, n: int)
    requires ValidDate(julian, c) && n == DayNumber(julian, c.year, c.month, c.date)
    ensures InMarchYear(julian, c.year - MarchShift(c.month), n)
    ensures n == YearStart(julian, c.year - MarchShift(c.month)) + MonthTerm(c.month) + c.date
  {
    CountFromYearStart(julian, c);
    DayOfMarchYearBound(julian, c);
    YearStartStep(julian, c.year - MarchShift(c.month));
  }

  /** The 0-based month on which a day of the March-based year falls, day 1 being March 1. */
  function MonthOfDay(day: int): int
  {
    if day <= 31 then 2 else if day <= 61 then 3 else if day <= 92 then 4
    else if day <= 122 then 5 else if day <= 153 then 6 else if day <= 184 then 7
    else if day <= 214 then 8 else if day <= 245 then 9 else if day <= 275 then 10
    else if day <= 306 then 11 else if day <= 337 then 0 else 1
  }

  /** The month term and the date place a valid date in its own month. */
  lemma MonthOfDayInverts(julian: bool, c: CalendarDate)
    requires ValidDate(julian, c)
    ensures MonthOfDay(MonthTerm(c.month) + c.date) == c.month
  {
  }

  /** A day number lies in exactly one March-based year. */
  lemma OneMarchYear(julian: bool, sc: int, se: int, n: int)
    requires InMarchYear(julian, sc, n) && InMarchYear(julian, se, n)
    ensures sc == se
  {
    if sc + 1 < se {
      YearStartIncreasing(julian, sc + 1, se);
    } else if se + 1 < sc {
      YearStartIncreasing(julian, se + 1, sc);
    }
  }

  /** The only March-based year holding a valid date's count is the date's own. */
  lemma MarchYearUnique(julian: bool, c: CalendarDate, n: int, s: int)
    requires ValidDate(julian, c) && n == DayNumber(julian, c.year, c.month, c.date)
    requires InMarchYear(julian, s, n)
    ensures s == c.year - MarchShift(c.month)
    ensures n == YearStart(julian, s) + MonthTerm(c.month) + c.date
  {
    PlacedInYear(julian, c, n);
    OneMarchYear(julian, s, c.year - MarchShift(c.month), n);
  }

  /** A valid date is fixed by its March-based year and the day of that year it falls on. */
  lemma DateOfDayOfMarchYear(julian: bool, c: CalendarDate, e: CalendarDate)
    requires ValidDate(julian, c) && ValidDate(julian, e)
    requires c.year - MarchShift(c.month) == e.year - MarchShift(e.month)
    requires MonthTerm(c.month) + c.date == MonthTerm(e.month) + e.date
    ensures c == e
  {
    MonthOfDayInverts(julian, c);
    MonthOfDayInverts(julian, e);
  }

  /** Different valid dates of one calendar get different day numbers. */
  lemma DayNumberInjective(julian: bool, c: CalendarDate, e: CalendarDate)
    requires ValidDate(julian, c) && ValidDate(julian, e)
    requires DayNumber(julian, c.year, c.month, c.date) == DayNumber(julian, e.year, e.month, e.date)
    ensures c == e
  {
    var n := DayNumber(julian, c.year, c.month, c.date);
    PlacedInYear(julian, c, n);
    MarchYearUnique(julian, e, n, c.year - MarchShift(c.month));
    DateOfDayOfMarchYear(julian, c, e);
  }

  // ---------------------------------------------------------------- the reform-aware count

  /** The day count of the historical calendar: Julian before 1582-10-05, Gregorian after. */
  function ReformDayNumber(c: CalendarDate): int
  {
    DayNumber(BeforeReform(c.year, c.month, c.date), c.year, c.month, c.date)
  }

  /** The length of a month in the historical calendar, October 1582 counted as its Julian 31. */
  function ReformMonthLength(c: CalendarDate): int
  {
    if BeforeReform(c.year, c.month, c.date) then MonthLength(c.month, JulianLeap(c.year))
    else MonthLength(c.month, GregorianLeap(c.year))
  }

  predicate ValidReformDate(c: CalendarDate)
  {
    && 0 <= c.month <= 11 && 1 <= c.date <= ReformMonthLength(c)
    && !(c.year == 1582 && c.month == 9 && 5 <= c.date <= 14)
  }

  /** The next day of the historical calendar: 1582-10-04 is followed by 1582-10-15. */
  function NextReformDate(c: CalendarDate): CalendarDate
  {
    if c == CalendarDate(1582, 9, 4) then CalendarDate(1582, 9, 15)
    else NextDate(c, ReformMonthLength(c))
  }

  /** The next day of a valid date of the historical calendar is a valid date in the same count. */
  lemma NextReformDateValid(c: CalendarDate)
    requires ValidReformDate(c)
    ensures ValidReformDate(NextReformDate(c))
    ensures c != CalendarDate(1582, 9, 4) ==>
      BeforeReform(NextReformDate(c).year, NextReformDate(c).month, NextReformDate(c).date)
      == BeforeReform(c.year, c.month, c.date)
  {
    var n := NextReformDate(c);
    if c != CalendarDate(1582, 9, 4) {
      if BeforeReform(c.year, c.month, c.date) {
        assert BeforeReform(n.year, n.month, n.date);
      } else {
        assert c.year > 1582 || (c.year == 1582 && (c.month > 9 || (c.month == 9 && c.date >= 15)));
        assert !BeforeReform(n.year, n.month, n.date);
      }
    }
  }

  /** The historical count numbers consecutive days, across the reform too. */
  lemma ReformDayNumberConsecutive(c: CalendarDate)
    requires ValidReformDate(c)
    ensures ValidReformDate(NextReformDate(c))
    ensures ReformDayNumber(NextReformDate(c)) == ReformDayNumber(c) + 1
  {
    NextReformDateValid(c);
    if c == CalendarDate(1582, 9, 4) {
      assert ReformDayNumber(c) == 2299160;
      assert ReformDayNumber(CalendarDate(1582, 9, 15)) == 2299161;
    } else if BeforeReform(c.year, c.month, c.date) {
      JulianNextDay(c);
    } else {
      GregorianNextDay(c);
    }
  }

  /**
    The reform-aware toJD advances by exactly one day from each date of the historical
    calendar to the next, at the same whole-second UTC time.
   */
  lemma ReformAwareCountsConsecutively(d: DateInput, t: DateInput)
    requires ValidReformDate(CalendarDate(FormulaYear(d.year), d.month, d.date))
    requires d.millisecond == 0
    requires var n := NextReformDate(CalendarDate(FormulaYear(d.year), d.month, d.date));
      t == d.(year := EncodeYear(n.year), month := n.month, date := n.date)
    ensures ToJDReformAware(d).Some? && ToJDReformAware(t).Some?
    ensures ToJDReformAware(t).value == ToJDReformAware(d).value + 1.0
  {
    var c := CalendarDate(FormulaYear(d.year), d.month, d.date);
    ReformDayNumberConsecutive(c);
    assert JulianTimeOfDay(d) == GregorianTimeOfDay(d);
    assert JulianTimeOfDay(t) == JulianTimeOfDay(d);
    assert GregorianTimeOfDay(t) == GregorianTimeOfDay(d);
  }

  /**
    The decimal-year proxy as written sends 1581-12-31 to the Gregorian count, so toJD's
    Julian Date steps back nine days from 1581-12-30 to 1581-12-31.
   */
  lemma ProxyBreaksDayOrder()
    ensures UsesJulianCalendar(DateInput(1581, 11, 30, 0, 0, 0, 0, true, 0, 31))
    ensures !UsesJulianCalendar(DateInput(1581, 11, 31, 0, 0, 0, 0, true, 0, 31))
    ensures ToJD(DateInput(1581, 11, 30, 0, 0, 0, 0, true, 0, 31)) == Some(2298881.5)
    ensures ToJD(DateInput(1581, 11, 31, 0, 0, 0, 0, true, 0, 31)) == Some(2298872.5)
    ensures ToJDReformAware(DateInput(1581, 11, 31, 0, 0, 0, 0, true, 0, 31)) == Some(2298882.5)
    ensures !UsesJulianCalendar(DateInput(1582, 0, 29, 0, 0, 0, 0, true, 0, 31))
  {
  }

  /**
    The decimal-year proxy is wrong somewhere: some date before the reform takes the
    Gregorian count, and toJD then differs from the reform-aware count.
   */
  lemma ProxyMisplacesSomeDate()
    ensures exists d: DateInput ::
              BeforeReform(d.year, d.month, d.date) && !UsesJulianCalendar(d)
              && ToJD(d) != ToJDReformAware(d)
  {
    ProxyBreaksDayOrder();
    var d := DateInput(1581, 11, 31, 0, 0, 0, 0, true, 0, 31);
    assert BeforeReform(d.year, d.month, d.date) && !UsesJulianCalendar(d);
    assert ToJD(d) != ToJDReformAware(d);
  }

  // ---------------------------------------------------------------- fromJD: the day count

  /** The intermediate values of the shared inversion, and how year and month encode them. */
  lemma CivilShape(s: Split)
    ensures var d := (4.0 * s.rest / 1461.0).Floor;
      var e := s.rest - ((1461 * d) / 4) as real;
      var m := ((5.0 * e + 2.0) / 153.0).Floor;
      var v := CivilFromSplit(s);
      && 0 <= m <= 11
      && MarchShift(v.month - 1) == m / 10
      && v.month + 12 * (m / 10) - 3 == m
      && v.year + 4800 - m / 10 == 100 * s.centuries + d
      && v.day == e - ((153 * m + 2) / 5) as real + 1.0
  {
    var d := (4.0 * s.rest / 1461.0).Floor;
    var e := s.rest - ((1461 * d) / 4) as real;
    RestBounds(s.rest);
    assert 2.0 <= 5.0 * e + 2.0 < 1832.0;
  }

  /** The Julian inversion undoes the Julian day count, fraction of the day included. */
  lemma JulianInversion(jd: real)
    ensures var v := CivilFromSplit(JulianSplit(jd));
      JulianDayNumber(v.year, v.month - 1, 0) as real + v.day == jd
  {
    var s := JulianSplit(jd);
    CivilShape(s);
    var d := (4.0 * s.rest / 1461.0).Floor;
    assert (1461 * d) / 4 == 365 * d + d / 4;
  }

  /** The days of b whole centuries and d whole years of the current one, as the Gregorian count has them. */
  lemma GregorianYearDays(b: int, d: int)
    requires 0 <= d <= 99
    ensures var y := 100 * b + d;
      365 * y + y / 4 - y / 100 + y / 400 == (146097 * b) / 4 + (1461 * d) / 4
  {
    var y := 100 * b + d;
    assert y / 4 == 25 * b + d / 4;
    assert y / 100 == b;
    assert y / 400 == b / 4;
    assert (146097 * b) / 4 == 36524 * b + b / 4;
    assert (1461 * d) / 4 == 365 * d + d / 4;
  }

  /** The Gregorian inversion undoes the Gregorian count when the rest is a whole number of years short of a century. */
  lemma GregorianInversion(jd: real, s: Split)
    requires jd + 32044.0 == ((146097 * s.centuries) / 4) as real + s.rest
    requires 0.0 <= s.rest < 36525.0
    ensures var v := CivilFromSplit(s);
      GregorianDayNumber(v.year, v.month - 1, 0) as real + v.day == jd
  {
    CivilShape(s);
    var d := (4.0 * s.rest / 1461.0).Floor;
    assert 0 <= d <= 99 by {
      assert 0.0 <= 4.0 * s.rest / 1461.0 < 100.0;
    }
    GregorianYearDays(s.centuries, d);
  }

  /** Whenever the Gregorian split as written leaves a rest that is not negative, it is the corrected split. */
  lemma SplitAgreesWhenRestNonNegative(jd: real)
    requires GregorianSplit(jd).rest >= 0.0
    ensures GregorianSplit(jd) == GregorianSplitFixed(jd)
  {
    var a := jd + 32044.0;
    var n := a.Floor;
    var b1 := ((4.0 * a + 3.0) / 146097.0).Floor;
    var b2 := (4 * n + 3) / 146097;
    var q := (146097 * b1) / 4;
    assert 146097 * b2 <= 4 * n + 3 < 146097 * b2 + 146097;
    assert 146097.0 * b1 as real <= 4.0 * a + 3.0 < 146097.0 * b1 as real + 146097.0;
    assert n as real <= a < n as real + 1.0;
    // the rest a - q is not negative, so q is at most the whole part of a
    assert q <= n by {
      assert q as real <= a;
    }
    assert 146097 * b1 <= 4 * n + 3 by {
      assert 4 * q <= 146097 * b1 < 4 * q + 4;
    }
    assert b1 <= b2;
    assert b2 <= b1 by {
      assert (4 * n + 3) as real <= 4.0 * a + 3.0;
    }
  }

  /**
    r denotes the instant jd under the chosen day count: its day count is the civil day of
    jd, its clock fields the whole seconds since that day's midnight, and its milliseconds
    the rest rounded.
   */
  predicate DenotesInstant(r: Fields, julian: bool, jd: real)
  {
    && DayNumber(julian, FormulaYear(r.year), r.month - 1, r.day) == CivilDay(jd)
    && ClockSeconds(r.hour, r.minute, r.second) == SecondsOfDay(jd).Floor
    && r.millisecond == ToFixed0(1000.0 * Frac(SecondsOfDay(jd)))
  }

  /** The provisional fields of a split denote, under the matching day count, the instant jd. */
  lemma FieldsDenoteInstant(jd: real, s: Split, julian: bool)
    requires julian ==> s == JulianSplit(jd)
    requires !julian ==> jd + 32044.0 == ((146097 * s.centuries) / 4) as real + s.rest
    requires !julian ==> 0.0 <= s.rest < 36525.0
    ensures DenotesInstant(FieldsFromSplit(s), julian, jd)
  {
    var v := CivilFromSplit(s);
    InversionOffset(jd, s, julian);
    SplitDayIsClockTime(v.day);
    FieldsOfSplit(s);
    PiecesDenoteInstant(jd, julian, v, SplitDay(v.day), FieldsFromSplit(s));
  }

  /** The fractional day of v is the time from day 0 of v's month, in the chosen count, to jd. */
  predicate DayOfMonthIs(v: Civil, julian: bool, jd: real)
  {
    v.day == jd - DayNumber(julian, v.year, v.month - 1, 0) as real
  }

  /** The civil date of a split lies k whole days after day 0 of its month, k its day count. */
  lemma InversionOffset(jd: real, s: Split, julian: bool)
    requires julian ==> s == JulianSplit(jd)
    requires !julian ==> jd + 32044.0 == ((146097 * s.centuries) / 4) as real + s.rest
    requires !julian ==> 0.0 <= s.rest < 36525.0
    ensures DayOfMonthIs(CivilFromSplit(s), julian, jd)
  {
    if julian {
      JulianOffset(jd);
    } else {
      GregorianOffset(jd, s);
    }
  }

  /** The Julian case: the split's civil date lies its day count after day 0 of its month. */
  lemma JulianOffset(jd: real)
    ensures DayOfMonthIs(CivilFromSplit(JulianSplit(jd)), true, jd)
  {
    JulianInversion(jd);
  }

  /** The Gregorian case, for a split whose rest lies within one century. */
  lemma GregorianOffset(jd: real, s: Split)
    requires jd + 32044.0 == ((146097 * s.centuries) / 4) as real + s.rest
    requires 0.0 <= s.rest < 36525.0
    ensures DayOfMonthIs(CivilFromSplit(s), false, jd)
  {
    GregorianInversion(jd, s);
  }

  /** The provisional fields of a split are its civil date's year and month and the time split of its day. */
  lemma FieldsOfSplit(s: Split)
    ensures var v := CivilFromSplit(s);
      FieldsAre(FieldsFromSplit(s), v, SplitDay(v.day))
  {
  }

  /** r holds the year and month of v and the day and clock fields of t. */
  predicate FieldsAre(r: Fields, v: Civil, t: TimeSplit)
  {
    && FormulaYear(r.year) == v.year && r.month == v.month && r.day == t.day
    && r.hour == t.hour && r.minute == t.minute && r.second == t.second
    && r.millisecond == t.millisecond
  }

  /**
    Fields made of a civil date v whose fractional day lies whole days after jd's, counted
    from day 0 of v's month, and of t, the clock reading of that fractional day, denote jd.
   */
  lemma PiecesDenoteInstant(jd: real, julian: bool, v: Civil, t: TimeSplit, r: Fields)
    requires DayOfMonthIs(v, julian, jd)
    requires ClockTimeOf(v.day, t) && FieldsAre(r, v, t)
    ensures DenotesInstant(r, julian, jd)
  {
    ClockTimeOfShift(v.day, jd, DayNumber(julian, v.year, v.month - 1, 0), t);
    FieldsDayNumber(julian, r, v, t);
  }

  /** The day count of fields r holding v's year and month and t's day. */
  lemma FieldsDayNumber(julian: bool, r: Fields, v: Civil, t: TimeSplit)
    requires FieldsAre(r, v, t)
    ensures DayNumber(julian, FormulaYear(r.year), r.month - 1, r.day)
      == DayNumber(julian, v.year, v.month - 1, 0) + t.day
  {
    DayNumberLinear(julian, v.year, v.month - 1, t.day);
  }

  /**
    The corrected fromJD's provisional fields denote the instant jd exactly, at millisecond
    rounding: their day count is the civil day of jd and their clock time its time since
    midnight.
   */
  lemma FromJDFixedDenotesInstant(jd: real)
    ensures DenotesInstant(FromJDFixed(jd), jd < GREGORIAN_START_JD, jd)
  {
    if jd < GREGORIAN_START_JD {
      FieldsDenoteInstant(jd, JulianSplit(jd), true);
    } else {
      FieldsDenoteInstant(jd, GregorianSplitFixed(jd), false);
    }
  }

  /**
    fromJD as written does the same on the Julian branch and wherever its Gregorian split
    leaves a rest that is not negative.
   */
  lemma FromJDDenotesInstant(jd: real)
    requires jd < GREGORIAN_START_JD || GregorianSplit(jd).rest >= 0.0
    ensures DenotesInstant(FromJD(jd), jd < GREGORIAN_START_JD, jd)
  {
    FromJDAgreesWithFixed(jd);
    FromJDFixedDenotesInstant(jd);
  }

  /** Where the split as written leaves no negative rest, fromJD and the corrected fromJD agree. */
  lemma FromJDAgreesWithFixed(jd: real)
    requires jd < GREGORIAN_START_JD || GregorianSplit(jd).rest >= 0.0
    ensures FromJD(jd) == FromJDFixed(jd)
  {
    if jd >= GREGORIAN_START_JD {
      SplitAgreesWhenRestNonNegative(jd);
    }
  }

  // ---------------------------------------------------------------- fromJD: examples

  /** The example of the source's documentation: 1582-10-03 15:23 (Julian). */
  lemma DocumentedExample()
    ensures var r := FromJD(2299159.1414699075);
      r.year == 1582 && r.month == 10 && r.day == 3 && r.hour == 15
  {
    var s := JulianSplit(2299159.1414699075);
    assert s.rest == 2331241.1414699075;
    assert (4.0 * s.rest / 1461.0).Floor == 6382;
    assert ((5.0 * 216.1414699075 + 2.0) / 153.0).Floor == 7;
    var v := CivilFromSplit(s);
    assert v.day == 3.1414699075;
    RemOneIsFrac(v.day);
    assert Frac(v.day) == 0.1414699075;
  }

  /** Noon of the J2000.0 epoch. */
  lemma J2000Noon()
    ensures FromJD(2451545.0) == Fields(2000, 1, 1, 12, 0, 0, 0)
  {
    J2000Steps();
    FromJDBySteps(2451545.0, Split(67, 36465.0), Civil(2000, 1, 1.0), TimeSplit(1, 12, 0, 0, 0));
  }

  /** The split, civil date and time split of 2451545.0. */
  lemma J2000Steps()
    ensures GregorianSplit(2451545.0) == Split(67, 36465.0)
    ensures CivilFromSplit(Split(67, 36465.0)) == Civil(2000, 1, 1.0)
    ensures SplitDay(1.0) == TimeSplit(1, 12, 0, 0, 0)
  {
    assert (4.0 * 36465.0 / 1461.0).Floor == 99;
    assert ((5.0 * 306.0 + 2.0) / 153.0).Floor == 10;
    NoonAndMidnight(1.0);
  }

  /**
    The provisional fields may name a day past the end of the month, 2001-02-29, which
    under the day count is 2001-03-01; the date-time's setters carry it over.
   */
  lemma LeapDayOverflow()
    ensures FromJD(2451970.0) == Fields(2001, 2, 29, 12, 0, 0, 0)
    ensures GregorianDayNumber(2001, 1, 29) == GregorianDayNumber(2001, 2, 1)
  {
    LeapDaySteps();
    FromJDBySteps(2451970.0, Split(68, 365.0), Civil(2001, 2, 29.0), TimeSplit(29, 12, 0, 0, 0));
    GregorianFebruaryEnd(2001);
  }

  /** The split, civil date and time split of 2451970.0. */
  lemma LeapDaySteps()
    ensures GregorianSplit(2451970.0) == Split(68, 365.0)
    ensures CivilFromSplit(Split(68, 365.0)) == Civil(2001, 2, 29.0)
    ensures SplitDay(29.0) == TimeSplit(29, 12, 0, 0, 0)
  {
    assert (4.0 * 365.0 / 1461.0).Floor == 0;
    assert ((5.0 * 365.0 + 2.0) / 153.0).Floor == 11;
    NoonAndMidnight(29.0);
  }

  /** fromJD of jd, through the split, civil date and time-of-day split it produces. */
  lemma FromJDBySteps(jd: real, s: Split, c: Civil, t: TimeSplit)
    requires (if jd < GREGORIAN_START_JD then JulianSplit(jd) else GregorianSplit(jd)) == s
    requires CivilFromSplit(s) == c && SplitDay(c.day) == t
    ensures FromJD(jd) == Fields(EncodeYear(c.year), c.month, t.day, t.hour, t.minute, t.second, t.millisecond)
  {
  }

  /**
    The provisional day may be 0: 19:12 on 1000-03-31 (Julian) comes out as day 0 of April,
    which under the day count is the same day.
   */
  lemma DayZero()
    ensures var r := FromJD(2086398.3);
      r.year == 1000 && r.month == 4 && r.day == 0 && r.hour == 19 && r.minute == 12
    ensures JulianDayNumber(1000, 3, 0) == JulianDayNumber(1000, 2, 31)
  {
    var s := JulianSplit(2086398.3);
    assert s.rest == 2118480.3;
    assert (4.0 * s.rest / 1461.0).Floor == 5800;
    assert ((5.0 * 30.3 + 2.0) / 153.0).Floor == 1;
    var v := CivilFromSplit(s);
    assert v.day == 0.3;
    RemOneIsFrac(v.day);
    WholeRemSixty(0.3 * 1440.0);
  }

  /**
    At the midnight that starts 1700-03-01 the Gregorian split as written leaves a negative
    rest and the provisional fields name 1700-02-30, one day late under the day count;
    the corrected split names 1700-02-29, which is 1700-03-01.
   */
  lemma CenturyMidnightOffByOne()
    ensures ToJD(DateInput(1700, 2, 1, 0, 0, 0, 0, true, 0, 31)) == Some(2342031.5)
    ensures GregorianSplit(2342031.5).rest < 0.0
    ensures FromJD(2342031.5) == Fields(1700, 2, 30, 0, 0, 0, 0)
    ensures GregorianDayNumber(1700, 1, 30) == GregorianDayNumber(1700, 2, 1) + 1
    ensures FromJDFixed(2342031.5) == Fields(1700, 2, 29, 0, 0, 0, 0)
    ensures GregorianDayNumber(1700, 1, 29) == GregorianDayNumber(1700, 2, 1)
  {
    CenturyMidnightSplitAsWritten();
    CenturyMidnightSplitFixed();
    CenturyDayNumbers();
  }

  /**
    The Gregorian split as written leaves some Julian Date of its branch a negative rest,
    outside one century, and fromJD then differs from the corrected one.
   */
  lemma WrittenSplitLeavesCentury()
    ensures exists jd ::
              jd >= GREGORIAN_START_JD && GregorianSplit(jd).rest < 0.0
              && FromJD(jd) != FromJDFixed(jd)
  {
    CenturyMidnightOffByOne();
    assert 2342031.5 >= GREGORIAN_START_JD;
    assert FromJD(2342031.5) != FromJDFixed(2342031.5);
  }

  /** 1700-02-29 and 1700-03-01 name day 2342032 of the Gregorian count; 1700-02-30 the next. */
  lemma CenturyDayNumbers()
    ensures GregorianDayNumber(1700, 2, 1) == 2342032
    ensures GregorianDayNumber(1700, 1, 29) == 2342032
    ensures GregorianDayNumber(1700, 1, 30) == 2342033
  {
    assert MarchShift(1) == 1 && MarchShift(2) == 0;
  }

  /** The split as written: a rest of -1/2, read as 1700-02-29.5, midnight of day 30. */
  lemma CenturyMidnightSplitAsWritten()
    ensures GregorianSplit(2342031.5) == Split(65, -0.5)
    ensures FromJD(2342031.5) == Fields(1700, 2, 30, 0, 0, 0, 0)
  {
    CenturyAsWrittenSteps();
    FromJDBySteps(2342031.5, Split(65, -0.5), Civil(1700, 2, 29.5), TimeSplit(30, 0, 0, 0, 0));
  }

  /** The written split of 1700-03-01 00:00, its civil date 1700-02-29.5 and its time split. */
  lemma CenturyAsWrittenSteps()
    ensures GregorianSplit(2342031.5) == Split(65, -0.5)
    ensures CivilFromSplit(Split(65, -0.5)) == Civil(1700, 2, 29.5)
    ensures SplitDay(29.5) == TimeSplit(30, 0, 0, 0, 0)
  {
    assert (4.0 * -0.5 / 1461.0).Floor == -1;
    assert ((5.0 * 365.5 + 2.0) / 153.0).Floor == 11;
    SplitDayMidnight(30);
  }

  /** The corrected split: a rest of 36523.5, read as 1700-02-28.5, midnight of day 29. */
  lemma CenturyMidnightSplitFixed()
    ensures FromJDFixed(2342031.5) == Fields(1700, 2, 29, 0, 0, 0, 0)
  {
    CenturyFixedSteps();
    assert FromJDFixed(2342031.5) == FieldsFromSplit(Split(64, 36523.5));
  }

  /** The corrected split of 1700-03-01 00:00, its civil date 1700-02-28.5 and its time split. */
  lemma CenturyFixedSteps()
    ensures GregorianSplitFixed(2342031.5) == Split(64, 36523.5)
    ensures CivilFromSplit(Split(64, 36523.5)) == Civil(1700, 2, 28.5)
    ensures SplitDay(28.5) == TimeSplit(29, 0, 0, 0, 0)
  {
    assert (4.0 * 36523.5 / 1461.0).Floor == 99;
    assert ((5.0 * 364.5 + 2.0) / 153.0).Floor == 11;
    SplitDayMidnight(29);
  }

  /**
    The written split is a day late for the whole morning of 1700-03-01, not only at its
    midnight: at 06:00 UTC (2342031.75) it leaves a rest of -1/4 and names 1700-02-30,
    where the corrected split names 1700-02-29. At 06:00 on 1800-03-01 (2378555.75) it
    leaves a negative rest as well.
   */
  lemma CenturyMorningOffByOne()
    ensures GregorianSplit(2342031.75) == Split(65, -0.25)
    ensures FromJD(2342031.75) == Fields(1700, 2, 30, 6, 0, 0, 0)
    ensures FromJDFixed(2342031.75) == Fields(1700, 2, 29, 6, 0, 0, 0)
    ensures GregorianSplit(2378555.75) == Split(66, -0.25)
  {
    CenturyMorningAsWrittenSteps();
    FromJDBySteps(2342031.75, Split(65, -0.25), Civil(1700, 2, 29.75), TimeSplit(30, 6, 0, 0, 0));
    CenturyMorningFixedSteps();
    assert FromJDFixed(2342031.75) == FieldsFromSplit(Split(64, 36523.75));
    assert (4.0 * (2378555.75 + 32044.0) + 3.0) / 146097.0 == 66.0;
  }

  /** The written split of 1700-03-01 06:00, its civil date 1700-02-29.75 and its time split. */
  lemma CenturyMorningAsWrittenSteps()
    ensures GregorianSplit(2342031.75) == Split(65, -0.25)
    ensures CivilFromSplit(Split(65, -0.25)) == Civil(1700, 2, 29.75)
    ensures SplitDay(29.75) == TimeSplit(30, 6, 0, 0, 0)
  {
    assert ((4.0 * (2342031.75 + 32044.0) + 3.0) / 146097.0).Floor == 65;
    assert (4.0 * -0.25 / 1461.0).Floor == -1;
    assert ((5.0 * 365.75 + 2.0) / 153.0).Floor == 11;
    SixInTheMorning(30);
  }

  /** The corrected split of 1700-03-01 06:00, its civil date 1700-02-28.75 and its time split. */
  lemma CenturyMorningFixedSteps()
    ensures GregorianSplitFixed(2342031.75) == Split(64, 36523.75)
    ensures CivilFromSplit(Split(64, 36523.75)) == Civil(1700, 2, 28.75)
    ensures SplitDay(28.75) == TimeSplit(29, 6, 0, 0, 0)
  {
    assert (4.0 * 36523.75 / 1461.0).Floor == 99;
    assert ((5.0 * 364.75 + 2.0) / 153.0).Floor == 11;
    SixInTheMorning(29);
  }

  /** The fractional day k - 1/4 is 06:00:00.000 of day k. */
  lemma SixInTheMorning(k: int)
    requires k > 0
    ensures SplitDay(k as real - 0.25) == TimeSplit(k, 6, 0, 0, 0)
  {
    var day := k as real - 0.25;
    RemOneIsFrac(day);
    assert day.Floor == k - 1;
    assert Frac(day) == 0.75;
    RemOneIsFrac(1080.0);
    RemOneIsFrac(64800.0);
    RemSixty(1080.0);
    RemSixty(64800.0);
  }

  /**
    A negative rest does not always mean a wrong date: at 2000-03-01 00:00 UTC (2451604.5)
    the written split leaves -1/2, yet fromJD names 2000-02-30, as the corrected one does,
    which in the leap year 2000 is 2000-03-01.
   */
  lemma LeapCenturyMidnightAgrees()
    ensures GregorianSplit(2451604.5).rest < 0.0
    ensures FromJD(2451604.5) == Fields(2000, 2, 30, 0, 0, 0, 0)
    ensures FromJDFixed(2451604.5) == FromJD(2451604.5)
    ensures GregorianDayNumber(2000, 1, 30) == GregorianDayNumber(2000, 2, 1)
  {
    LeapCenturyAsWrittenSteps();
    FromJDBySteps(2451604.5, Split(68, -0.5), Civil(2000, 2, 29.5), TimeSplit(30, 0, 0, 0, 0));
    LeapCenturyFixedSteps();
    assert FromJDFixed(2451604.5) == FieldsFromSplit(Split(67, 36524.5));
    GregorianFebruaryEnd(2000);
  }

  /** The written split of 2000-03-01 00:00, its civil date 2000-02-29.5 and its time split. */
  lemma LeapCenturyAsWrittenSteps()
    ensures GregorianSplit(2451604.5) == Split(68, -0.5)
    ensures CivilFromSplit(Split(68, -0.5)) == Civil(2000, 2, 29.5)
    ensures SplitDay(29.5) == TimeSplit(30, 0, 0, 0, 0)
  {
    assert ((4.0 * (2451604.5 + 32044.0) + 3.0) / 146097.0).Floor == 68;
    assert (4.0 * -0.5 / 1461.0).Floor == -1;
    assert ((5.0 * 365.5 + 2.0) / 153.0).Floor == 11;
    SplitDayMidnight(30);
  }

  /** The corrected split of 2000-03-01 00:00 and its civil date, also 2000-02-29.5. */
  lemma LeapCenturyFixedSteps()
    ensures GregorianSplitFixed(2451604.5) == Split(67, 36524.5)
    ensures CivilFromSplit(Split(67, 36524.5)) == Civil(2000, 2, 29.5)
  {
    assert (4.0 * 36524.5 / 1461.0).Floor == 99;
    assert ((5.0 * 365.5 + 2.0) / 153.0).Floor == 11;
  }

  // ---------------------------------------------------------------- round trips

  /** Every date from 1583 on has a Gregorian day number of at least 2299239, that of 1583-01-01. */
  lemma GregorianDayNumberFrom1583(year: int, month: int, date: int)
    requires year >= 1583 && 0 <= month <= 11 && date >= 1
    ensures GregorianDayNumber(year, month, date) >= 2299239
  {
    var a := MarchShift(month);
    var y := year + 4800 - a;
    assert y >= 6382;
    assert y / 4 - y / 100 >= 1595 - 63;
    assert y / 400 >= 15;
  }

  /** Every date up to 1580 with a date of at most 31 has a Julian day number of at most 2298583. */
  lemma JulianDayNumberUpTo1580(year: int, month: int, date: int)
    requires year <= 1580 && 0 <= month <= 11 && date <= 31
    ensures JulianDayNumber(year, month, date) <= 2298583
  {
    var a := MarchShift(month);
    var m := (month + 1) + 12 * a - 3;
    assert 0 <= m <= 11;
    assert (153 * m + 2) / 5 <= 337;
  }

  /** Fields that read as day n of the chosen count at h:m:sec and ms milliseconds. */
  predicate FieldsRead(r: Fields, julian: bool, n: int, h: int, m: int, sec: int, ms: int)
  {
    && r.hour == h && r.minute == m && r.second == sec && r.millisecond == ms
    && DayNumber(julian, FormulaYear(r.year), r.month - 1, r.day) == n
  }

  /**
    An instant on the Gregorian branch whose civil day and clock reading are known: the
    corrected fromJD reads them back.
   */
  lemma FixedReadsClock(x: real, day: int, h: int, m: int, sec: int, ms: int)
    requires x >= GREGORIAN_START_JD
    requires 0 <= h <= 23 && 0 <= m <= 59 && 0 <= sec <= 59 && 0 <= ms <= 999
    requires CivilDay(x) == day
    requires SecondsOfDay(x) == ClockSeconds(h, m, sec) as real + ms as real / 1000.0
    ensures FieldsRead(FromJDFixed(x), false, day, h, m, sec, ms)
  {
    var secs := ClockSeconds(h, m, sec);
    assert !(x < GREGORIAN_START_JD);
    FromJDFixedDenotesInstant(x);
    var r := FromJDFixed(x);
    assert SecondsOfDay(x).Floor == secs && 1000.0 * Frac(SecondsOfDay(x)) == ms as real by {
      FloorOfWholePlus(secs, ms as real / 1000.0);
    }
    ClockSecondsInjective(r.hour, r.minute, r.second, h, m, sec);
  }

  /**
    A valid UTC date-time from 1583 on comes back through toJD and the corrected fromJD with
    the same time of day to the millisecond, on a date with the same Gregorian day number.
   */
  lemma GregorianRoundTrip(d: DateInput)
    requires d.isUTC && ValidTime(d) && ValidMonthDate(d) && d.year >= 1583
    ensures ToJD(d).Some?
    ensures FieldsRead(FromJDFixed(ToJD(d).value), false, GregorianDayNumber(d.year, d.month, d.date),
      d.hour, d.minute, d.second, d.millisecond)
  {
    GregorianFrom1583(d);
    ToJDPlacesInstant(d);
    var x := ToJD(d).value;
    GregorianDayNumberFrom1583(d.year, d.month, d.date);
    FixedReadsClock(x, GregorianDayNumber(d.year, d.month, d.date),
      d.hour, d.minute, d.second, d.millisecond);
  }

  /**
    An instant on the Julian branch at a whole second whose civil day and clock reading are
    known: fromJD reads them back.
   */
  lemma JulianReadsClock(x: real, day: int, h: int, m: int, sec: int)
    requires x < GREGORIAN_START_JD
    requires 0 <= h <= 23 && 0 <= m <= 59 && 0 <= sec <= 59
    requires CivilDay(x) == day
    requires SecondsOfDay(x) == ClockSeconds(h, m, sec) as real
    ensures FieldsRead(FromJD(x), true, day, h, m, sec, 0)
  {
    var secs := ClockSeconds(h, m, sec);
    assert x < GREGORIAN_START_JD;
    FromJDDenotesInstant(x);
    var r := FromJD(x);
    assert SecondsOfDay(x).Floor == secs && Frac(SecondsOfDay(x)) == 0.0 by {
      FloorOfWholePlus(secs, 0.0);
    }
    ClockSecondsInjective(r.hour, r.minute, r.second, h, m, sec);
  }

  /**
    A valid UTC date-time up to 1580 comes back through toJD and fromJD with the same whole
    seconds of the day, the milliseconds dropped, on a date with the same Julian day number.
   */
  lemma JulianRoundTrip(d: DateInput)
    requires d.isUTC && ValidTime(d) && ValidMonthDate(d) && d.year <= 1580
    ensures ToJD(d).Some?
    ensures FieldsRead(FromJD(ToJD(d).value), true, JulianDayNumber(FormulaYear(d.year), d.month, d.date),
      d.hour, d.minute, d.second, 0)
  {
    JulianUpTo1580(d);
    ToJDPlacesInstant(d);
    var x := ToJD(d).value;
    JulianDayNumberUpTo1580(FormulaYear(d.year), d.month, d.date);
    JulianReadsClock(x, JulianDayNumber(FormulaYear(d.year), d.month, d.date),
      d.hour, d.minute, d.second);
  }

  /** From noon of 1600-03-01 on, the corrected fromJD's provisional year is at least 1600. */
  lemma FixedYearFrom1600(jd: real)
    requires jd >= 2305508.0
    ensures FormulaYear(FromJDFixed(jd).year) >= 1600
  {
    var s := GregorianSplitFixed(jd);
    var a := jd + 32044.0;
    assert a.Floor >= 2337552;
    assert s.centuries >= 64;
    CivilShape(s);
    assert (4.0 * s.rest / 1461.0).Floor >= 0;
  }

  /** Up to 1580, fromJD's provisional year is at most 1580. */
  lemma JulianYearUpTo1580(jd: real)
    requires jd < 2298213.0
    ensures FormulaYear(FromJD(jd).year) <= 1580
  {
    var s := JulianSplit(jd);
    CivilShape(s);
    assert (4.0 * s.rest / 1461.0).Floor <= 6379 by {
      assert 4.0 * s.rest / 1461.0 < 6380.0;
    }
  }

  /** toJD of a UTC date-time on the Gregorian branch, as day count and clock reading. */
  lemma GregorianToJDValue(i: DateInput)
    requires !InReformGap(i) && !UsesJulianCalendar(i) && i.isUTC
    ensures ToJD(i).Some?
    ensures ToJD(i).value == GregorianDayNumber(FormulaYear(i.year), i.month, i.date) as real
      + (ClockSeconds(i.hour, i.minute, i.second) as real + i.millisecond as real / 1000.0) / 86400.0 - 0.5
  {
  }

  /** toJD of a UTC date-time on the Julian branch, as day count and clock reading. */
  lemma JulianToJDValue(i: DateInput)
    requires !InReformGap(i) && UsesJulianCalendar(i) && i.isUTC
    ensures ToJD(i).Some?
    ensures ToJD(i).value == JulianDayNumber(FormulaYear(i.year), i.month, i.date) as real
      + ClockSeconds(i.hour, i.minute, i.second) as real / 86400.0 - 0.5
  {
  }

  /** Rounding the milliseconds moves an instant by at most half a millisecond. */
  lemma RoundedMillisecondBound(x: real, jd: real, day: int, secs: int, f: real, ms: int)
    requires 0.0 <= f < 1.0 && ms == ToFixed0(1000.0 * f)
    requires x == day as real + (secs as real + ms as real / 1000.0) / 86400.0 - 0.5
    requires jd == day as real - 0.5 + (secs as real + f) / 86400.0
    ensures -1.0 / 172800000.0 < x - jd <= 1.0 / 172800000.0
  {
    assert x - jd == (ms as real - 1000.0 * f) / 86400000.0;
  }

  /**
    Fields from 1600 on that name the civil day and the clock time of jd, at millisecond
    rounding: toJD gives back jd to within half a millisecond.
   */
  lemma GregorianFieldsBack(r: Fields, jd: real, daysInMonth: PositiveInt)
    requires FormulaYear(r.year) >= 1600 && r.month >= 1 && r.day >= 0
    requires 0 <= r.hour && 0 <= r.minute && 0 <= r.second && 0 <= r.millisecond
    requires DenotesInstant(r, false, jd)
    ensures ToJD(AsInput(r, daysInMonth)).Some?
    ensures var x := ToJD(AsInput(r, daysInMonth)).value;
      -1.0 / 172800000.0 < x - jd <= 1.0 / 172800000.0
  {
    var i := AsInput(r, daysInMonth);
    var s := SecondsOfDay(jd);
    GregorianFrom1583(i);
    GregorianToJDValue(i);
    assert jd == CivilDay(jd) as real - 0.5 + (s.Floor as real + Frac(s)) / 86400.0 by {
      InstantFromClock(jd);
      assert s == s.Floor as real + Frac(s);
    }
    RoundedMillisecondBound(ToJD(i).value, jd, CivilDay(jd), s.Floor, Frac(s), r.millisecond);
  }

  /**
    From noon of 1600-03-01 on, toJD of the corrected fromJD's fields gives back the Julian Date to
    within half a millisecond.
   */
  lemma GregorianRoundTripFromJD(jd: real, daysInMonth: PositiveInt)
    requires jd >= 2305508.0
    ensures ToJD(AsInput(FromJDFixed(jd), daysInMonth)).Some?
    ensures var x := ToJD(AsInput(FromJDFixed(jd), daysInMonth)).value;
      -1.0 / 172800000.0 < x - jd <= 1.0 / 172800000.0
  {
    FixedYearFrom1600(jd);
    FromJDFixedDenotesInstant(jd);
    assert !(jd < GREGORIAN_START_JD);
    GregorianFieldsBack(FromJDFixed(jd), jd, daysInMonth);
  }

  /**
    Fields up to 1580 whose whole-second clock time and Julian day count name jd's civil day
    and seconds: toJD gives back jd cut down to the whole second.
   */
  lemma JulianFieldsBack(r: Fields, jd: real, daysInMonth: PositiveInt)
    requires FormulaYear(r.year) <= 1580 && 1 <= r.month <= 12 && 0 <= r.day <= 32
    requires daysInMonth >= 28
    requires 0 <= r.hour && 0 <= r.minute && 0 <= r.second
    requires DenotesInstant(r, true, jd)
    ensures ToJD(AsInput(r, daysInMonth)).Some?
    ensures var x := ToJD(AsInput(r, daysInMonth)).value;
      x <= jd < x + 1.0 / 86400.0
  {
    var i := AsInput(r, daysInMonth);
    var s := SecondsOfDay(jd);
    assert UsesJulianCalendar(i) && !InReformGap(i) by {
      RatioBelowOneAndAFifth(r.day, daysInMonth);
    }
    JulianToJDValue(i);
    assert jd == CivilDay(jd) as real - 0.5 + (s.Floor as real + Frac(s)) / 86400.0 by {
      InstantFromClock(jd);
      assert s == s.Floor as real + Frac(s);
    }
    WholeSecondBound(ToJD(i).value, jd, CivilDay(jd), s.Floor, Frac(s));
  }

  /** Dropping the fraction of a second moves an instant back by less than a second. */
  lemma WholeSecondBound(x: real, jd: real, day: int, secs: int, f: real)
    requires 0.0 <= f < 1.0
    requires x == day as real + secs as real / 86400.0 - 0.5
    requires jd == day as real - 0.5 + (secs as real + f) / 86400.0
    ensures x <= jd < x + 1.0 / 86400.0
  {
    assert jd - x == f / 86400.0;
  }

  /**
    Up to 1580, toJD of fromJD's fields gives back the Julian Date cut down to the whole
    second, for any month length from 28 days.
   */
  lemma JulianRoundTripFromJD(jd: real, daysInMonth: PositiveInt)
    requires jd < 2298213.0 && daysInMonth >= 28
    ensures ToJD(AsInput(FromJD(jd), daysInMonth)).Some?
    ensures var x := ToJD(AsInput(FromJD(jd), daysInMonth)).value;
      x <= jd < x + 1.0 / 86400.0
  {
    JulianYearUpTo1580(jd);
    assert jd < GREGORIAN_START_JD;
    FromJDDenotesInstant(jd);
    JulianFieldsBack(FromJD(jd), jd, daysInMonth);
  }
}
