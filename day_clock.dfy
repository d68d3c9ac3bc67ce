/**
  The clock reading of an instant: the civil day holding a Julian Date, the seconds elapsed
  in it, and how fromJD's time-of-day split reports them.
 */
module DayClock {
  import opened JsArith
  import opened JulianDate

  /** Whole seconds since midnight of the clock fields. */
  function ClockSeconds(hour: int, minute: int, second: int): int
  {
    hour * 3600 + minute * 60 + second
  }

  /** The noon-based day number of the civil (midnight-to-midnight) UTC day holding instant jd. */
  function CivilDay(jd: real): int
  {
    (jd + 0.5).Floor
  }

  /** The seconds elapsed in that civil day. */
  function SecondsOfDay(jd: real): (r: real)
    ensures 0.0 <= r < 86400.0
  {
    86400.0 * Frac(jd + 0.5)
  }

  /** Clock fields are determined by their seconds since midnight. */
  lemma ClockSecondsInjective(h1: int, m1: int, s1: int, h2: int, m2: int, s2: int)
    requires 0 <= h1 <= 23 && 0 <= m1 <= 59 && 0 <= s1 <= 59
    requires 0 <= h2 <= 23 && 0 <= m2 <= 59 && 0 <= s2 <= 59
    requires ClockSeconds(h1, m1, s1) == ClockSeconds(h2, m2, s2)
    ensures h1 == h2 && m1 == m2 && s1 == s2
  {
  }

  /** An instant and the Julian Date rebuilt from its civil day and clock time. */
  lemma InstantFromClock(jd: real)
    ensures jd == CivilDay(jd) as real - 0.5 + SecondsOfDay(jd) / 86400.0
  {
  }

  /** Moving an instant back by k whole days moves its civil day by k and keeps its clock time. */
  lemma ClockOfShift(jd: real, k: int)
    ensures CivilDay(jd - k as real) == CivilDay(jd) - k
    ensures SecondsOfDay(jd - k as real) == SecondsOfDay(jd)
  {
    ShiftByWhole(jd + 0.5, -k);
    assert jd - k as real + 0.5 == (jd + 0.5) + (-k) as real;
  }

  /** A clock reading of an instant k whole days before jd reads jd's clock time, k days earlier. */
  lemma ClockTimeOfShift(day: real, jd: real, k: int, t: TimeSplit)
    requires day == jd - k as real && ClockTimeOf(day, t)
    ensures t.day == CivilDay(jd) - k
    ensures ClockSeconds(t.hour, t.minute, t.second) == SecondsOfDay(jd).Floor
    ensures t.millisecond == ToFixed0(1000.0 * Frac(SecondsOfDay(jd)))
  {
    ClockOfShift(jd, k);
  }

  /**
    t reads the instant day as a clock: t.day is the civil day holding it, and hour, minute
    and second are the whole seconds since that day's midnight, with the rounded
    milliseconds left over.
   */
  ghost predicate ClockTimeOf(day: real, t: TimeSplit)
  {
    && t.day == CivilDay(day)
    && ClockSeconds(t.hour, t.minute, t.second) == SecondsOfDay(day).Floor
    && t.millisecond == ToFixed0(1000.0 * Frac(SecondsOfDay(day)))
  }
}
