/**
  The few JavaScript number operations the conversion uses, over exact rationals:
  Math.floor is `.Floor`, the `%` operator truncates toward zero, and
  Number.prototype.toFixed(0) rounds halves away from zero. The lemmas relate them to
  floor arithmetic on non-negative operands, the only case the conversion reaches.
 */
module JsArith {

  /** Fractional part: what remains of x above the largest integer not exceeding it. */
  function Frac(x: real): (r: real)
    ensures 0.0 <= r < 1.0
  {
    x - x.Floor as real
  }

  /** Math.trunc: drop the fractional digits, rounding toward zero. */
  function Trunc(t: real): (r: int)
    ensures t >= 0.0 ==> r as real <= t < r as real + 1.0
    ensures t < 0.0 ==> r as real - 1.0 < t <= r as real
  {
    if t >= 0.0 then t.Floor else -((-t).Floor)
  }

  /** The `%` operator on numbers: x - k * trunc(x / k), carrying the sign of x. */
  function JsRem(x: real, k: real): real
    requires k > 0.0
  {
    x - k * Trunc(x / k) as real
  }

  /** toFixed(0) read back as a number: the nearest integer, a half rounding away from zero. */
  function ToFixed0(x: real): (r: int)
    ensures x >= 0.0 ==> -0.5 < r as real - x <= 0.5
    ensures x < 0.0 ==> -0.5 <= r as real - x < 0.5
    ensures x >= 0.0 ==> r >= 0
  {
    if x < 0.0 then -((-x + 0.5).Floor) else (x + 0.5).Floor
  }

  /** x % 1 is the fractional part of a non-negative x. */
  lemma RemOneIsFrac(x: real)
    requires x >= 0.0
    ensures JsRem(x, 1.0) == Frac(x)
  {
    assert x / 1.0 == x;
  }

  /** x % 60 for a non-negative x, in terms of floor division. */
  lemma RemSixty(x: real)
    requires x >= 0.0
    ensures JsRem(x, 60.0) == x - 60.0 * (x / 60.0).Floor as real
    ensures JsRem(x, 60.0) == x - 60.0 * (x.Floor / 60) as real
  {
    FloorDivSixty(x);
  }

  /** Dividing by 60 commutes with taking the floor. */
  lemma FloorDivSixty(x: real)
    ensures (x / 60.0).Floor == x.Floor / 60
  {
    var k := x.Floor;
    var q := k / 60;
    assert 60 * q <= k < 60 * q + 60;
    assert (60 * q) as real <= x < (60 * q + 60) as real;
    assert q as real <= x / 60.0 < q as real + 1.0;
  }

  /**
    The JavaScript expression (x - x % 1) % 60, for a non-negative x, is the integer
    floor(x) mod 60.
   */
  lemma WholeRemSixty(x: real)
    requires x >= 0.0
    ensures JsRem(x - JsRem(x, 1.0), 60.0) == (x.Floor % 60) as real
    ensures JsRem(x - JsRem(x, 1.0), 60.0).Floor == x.Floor % 60
  {
    RemOneIsFrac(x);
    var w := x.Floor as real;
    assert x - JsRem(x, 1.0) == w;
    RemSixty(w);
    assert w.Floor == x.Floor;
  }

  /**
    The JavaScript expression x % 60 - (x - x % 1) % 60, for a non-negative x, is the
    fractional part of x.
   */
  lemma RemSixtyResidual(x: real)
    requires x >= 0.0
    ensures JsRem(x, 60.0) - (x.Floor % 60) as real == Frac(x)
  {
    RemSixty(x);
    var k := x.Floor;
    assert k == 60 * (k / 60) + k % 60;
  }

  /** A whole number plus a fraction below one: the floor and the fractional part. */
  lemma FloorOfWholePlus(n: int, t: real)
    requires 0.0 <= t < 1.0
    ensures (n as real + t).Floor == n
    ensures Frac(n as real + t) == t
  {
  }

  /** Adding a whole number moves the floor by it and keeps the fractional part. */
  lemma ShiftByWhole(x: real, k: int)
    ensures (x + k as real).Floor == x.Floor + k
    ensures Frac(x + k as real) == Frac(x)
  {
    FloorOfWholePlus(x.Floor + k, Frac(x));
  }
}
