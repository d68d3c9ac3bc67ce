/**
  How fromJD's time-of-day split reads the fraction of the intermediate day number: noon
  and midnight exactly, and otherwise the whole seconds since midnight with the rounded
  milliseconds left over.
 */
module SplitDayProofs {
  import opened JsArith
  import opened JulianDate
  import opened DayClock

  /**
    The noon and midnight cases: a whole day number is 12:00:00.000 of that day, a half
    is 00:00:00.000 of the next day.
   */
  lemma NoonAndMidnight(day: real)
    requires day > 0.0
    ensures Frac(day) == 0.0 ==> SplitDay(day) == TimeSplit(day.Floor, 12, 0, 0, 0)
    ensures Frac(day) == 0.5 ==> SplitDay(day) == TimeSplit(day.Floor + 1, 0, 0, 0, 0)
  {
    RemOneIsFrac(day);
  }

  /**
    The other fractions: below a half, an hour from 12 to 23 of the same day; above a half,
    an hour from 0 to 11 of the next day; minutes and seconds below 60, and the rounded
    milliseconds from 0 to 1000.
   */
  lemma AfternoonAndMorning(day: real)
    requires day > 0.0 && Frac(day) != 0.0 && Frac(day) != 0.5
    ensures var t := SplitDay(day);
      && (Frac(day) < 0.5 ==> t.day == day.Floor && 12 <= t.hour <= 23)
      && (Frac(day) > 0.5 ==> t.day == day.Floor + 1 && 0 <= t.hour <= 11)
      && 0 <= t.minute <= 59 && 0 <= t.second <= 59 && 0 <= t.millisecond <= 1000
  {
    RemOneIsFrac(day);
    SplitDayRanges(day);
  }

  /** The clock fields SplitDay computes from a fraction f of a day, in whole seconds of f. */
  lemma ClockOfFraction(f: real)
    requires 0.0 < f < 1.0
    ensures var x := f * 86400.0;
      var secs := x.Floor;
      && (f * 24.0).Floor == secs / 3600
      && JsRem(f * 1440.0 - JsRem(f * 1440.0, 1.0), 60.0).Floor == (secs / 60) % 60
      && JsRem(x - JsRem(x, 1.0), 60.0).Floor == secs % 60
      && JsRem(x, 60.0) - (secs % 60) as real == Frac(x)
      && secs == 3600 * (secs / 3600) + 60 * ((secs / 60) % 60) + secs % 60
  {
    var x := f * 86400.0;
    var secs := x.Floor;
    WholeRemSixty(f * 1440.0);
    WholeRemSixty(x);
    RemSixtyResidual(x);
    FloorDivSixty(x);
    FloorDivSixty(f * 1440.0);
    assert x / 60.0 == f * 1440.0;
    assert (f * 1440.0) / 60.0 == f * 24.0;
    assert (secs / 60) / 60 == secs / 3600;
  }

  /**
    Off noon and midnight, SplitDay's hour is the whole hours of the fraction f shifted by
    twelve toward the civil day.
   */
  lemma SplitDayHalfHour(day: real)
    requires day > 0.0 && Frac(day) != 0.0 && Frac(day) != 0.5
    ensures var f := Frac(day);
      SplitDay(day).hour == (f * 86400.0).Floor / 3600 + (if f < 0.5 then 12 else -12)
  {
    RemOneIsFrac(day);
    var f := Frac(day);
    var shift := if f < 0.5 then 12 else -12;
    ClockOfFraction(f);
    assert f * 24.0 + shift as real == if f < 0.5 then f * 24.0 + 12.0 else f * 24.0 - 12.0;
    ShiftByWhole(f * 24.0, shift);
  }

  /** Off noon and midnight, SplitDay's minute, second and millisecond are those of the fraction f. */
  lemma SplitDayHalfFields(day: real)
    requires day > 0.0 && Frac(day) != 0.0 && Frac(day) != 0.5
    ensures var f := Frac(day);
      var secs := (f * 86400.0).Floor;
      var t := SplitDay(day);
      && t.minute == (secs / 60) % 60 && t.second == secs % 60
      && t.millisecond == ToFixed0(1000.0 * Frac(f * 86400.0))
  {
    RemOneIsFrac(day);
    ClockOfFraction(Frac(day));
  }

  /**
    Off noon and midnight, SplitDay's day is the civil day holding day, and the seconds
    since that day's midnight are those of the fraction f shifted by twelve hours.
   */
  lemma SplitDayHalfInstant(day: real)
    requires day > 0.0 && Frac(day) != 0.0 && Frac(day) != 0.5
    ensures var f := Frac(day);
      && SplitDay(day).day == CivilDay(day)
      && SecondsOfDay(day) == f * 86400.0 + (3600 * (if f < 0.5 then 12 else -12)) as real
  {
    RemOneIsFrac(day);
    var f := Frac(day);
    var shift := if f < 0.5 then 12 else -12;
    var w := if shift > 0 then day.Floor else day.Floor + 1;
    var g := f + shift as real / 24.0;
    assert 0.0 <= g < 1.0;
    assert day + 0.5 == w as real + g;
    FloorOfWholePlus(w, g);
    assert 86400.0 * g == f * 86400.0 + (3600 * shift) as real;
  }

  /**
    A time split reads day as a clock when its fields are the whole seconds x.Floor split
    into hours shifted by shift, minutes and seconds, and day's seconds since midnight
    are x shifted by shift hours.
   */
  lemma ClockTimeFromShift(day: real, t: TimeSplit, x: real, shift: int)
    requires 0.0 <= x
    requires t.day == CivilDay(day) && SecondsOfDay(day) == x + (3600 * shift) as real
    requires t.hour == x.Floor / 3600 + shift
    requires t.minute == (x.Floor / 60) % 60 && t.second == x.Floor % 60
    requires t.millisecond == ToFixed0(1000.0 * Frac(x))
    ensures ClockTimeOf(day, t)
  {
    var secs := x.Floor;
    assert secs == 3600 * (secs / 3600) + 60 * ((secs / 60) % 60) + secs % 60;
    ShiftByWhole(x, 3600 * shift);
  }

  /** The clock time of a day whose fraction lies strictly before or after midnight's half. */
  lemma SplitDayHalf(day: real)
    requires day > 0.0 && Frac(day) != 0.0 && Frac(day) != 0.5
    ensures ClockTimeOf(day, SplitDay(day))
  {
    var f := Frac(day);
    SplitDayHalfHour(day);
    SplitDayHalfFields(day);
    SplitDayHalfInstant(day);
    ClockTimeFromShift(day, SplitDay(day), f * 86400.0, if f < 0.5 then 12 else -12);
  }

  /** The clock time of a day that is a whole: noon of that civil day. */
  lemma SplitDayNoon(k: int)
    requires k > 0
    ensures ClockTimeOf(k as real, SplitDay(k as real))
  {
    FloorOfWholePlus(k, 0.0);
    NoonAndMidnight(k as real);
    FloorOfWholePlus(k, 0.5);
    FloorOfWholePlus(43200, 0.0);
  }

  /** A day number n - 1/2 is the midnight opening civil day n. */
  lemma SplitDayMidnight(n: int)
    requires n >= 1
    ensures SplitDay(n as real - 0.5) == TimeSplit(n, 0, 0, 0, 0)
  {
    FloorOfWholePlus(n - 1, 0.5);
    assert n as real - 0.5 == (n - 1) as real + 0.5;
    NoonAndMidnight(n as real - 0.5);
  }

  /** The fractional day n - 1/2 is the clock reading of the midnight that opens day n. */
  lemma HalfDayMidnight(n: int)
    requires n >= 1
    ensures ClockTimeOf(n as real - 0.5, SplitDay(n as real - 0.5))
  {
    SplitDayMidnight(n);
    MidnightClock(n);
  }

  /** A whole fractional day is the clock reading of noon of that civil day. */
  lemma SplitDayWholeNoon(day: real)
    requires day > 0.0 && Frac(day) == 0.0
    ensures ClockTimeOf(day, SplitDay(day))
  {
    var k := day.Floor;
    assert day == k as real;
    SplitDayNoon(k);
  }

  /** Midnight opening civil day n, read as a clock. */
  lemma MidnightClock(n: int)
    ensures ClockTimeOf(n as real - 0.5, TimeSplit(n, 0, 0, 0, 0))
  {
    MidnightClockSeconds(n);
    MidnightDayAndMillisecond(n);
  }

  /** The instant n - 1/2 opens civil day n, with no seconds elapsed. */
  lemma MidnightOfDay(n: int)
    ensures CivilDay(n as real - 0.5) == n && SecondsOfDay(n as real - 0.5) == 0.0
  {
    FloorOfWholePlus(n, 0.0);
    assert n as real - 0.5 + 0.5 == n as real + 0.0;
  }

  /** At the midnight that opens day n, 00:00:00 counts the seconds elapsed since it. */
  lemma MidnightClockSeconds(n: int)
    ensures var t := TimeSplit(n, 0, 0, 0, 0);
      ClockSeconds(t.hour, t.minute, t.second) == SecondsOfDay(n as real - 0.5).Floor
  {
    MidnightOfDay(n);
    ZeroClock();
  }

  /** At the midnight that opens day n, the civil day is n and no milliseconds remain. */
  lemma MidnightDayAndMillisecond(n: int)
    ensures var t := TimeSplit(n, 0, 0, 0, 0);
      && t.day == CivilDay(n as real - 0.5)
      && t.millisecond == ToFixed0(1000.0 * Frac(SecondsOfDay(n as real - 0.5)))
  {
    MidnightOfDay(n);
    ZeroClock();
  }

  /** Zero seconds past midnight reads as 00:00:00.000. */
  lemma ZeroClock()
    ensures (0.0).Floor == 0 && ToFixed0(1000.0 * Frac(0.0)) == 0
  {
    assert Frac(0.0) == 0.0;
  }

  /** A fractional day ending in a half is the clock reading of the next day's midnight. */
  lemma SplitDayHalfMidnight(day: real)
    requires day > 0.0 && Frac(day) == 0.5
    ensures ClockTimeOf(day, SplitDay(day))
  {
    var n := day.Floor + 1;
    assert day == n as real - 0.5;
    HalfDayMidnight(n);
  }

  /**
    Whatever the fraction, SplitDay gives the civil day holding the instant day, the whole
    seconds since its midnight as hour, minute and second, and the rounded milliseconds
    left over.
   */
  lemma SplitDayIsClockTime(day: real)
    requires day > 0.0
    ensures ClockTimeOf(day, SplitDay(day))
  {
    if Frac(day) == 0.0 {
      SplitDayWholeNoon(day);
    } else if Frac(day) == 0.5 {
      SplitDayHalfMidnight(day);
    } else {
      SplitDayHalf(day);
    }
  }
}
