/**
 * Global time (world.py): a tick counter, the day counter it drives, and the
 * clock readings derived from the position inside the current day. The float
 * expressions of the source are written as exact integer or real arithmetic.
 */
module Worlds {

  /** `day_length or tick_rate * 24`: an absent (or zero) day length falls back to 24 ticks per hour. */
  function DayLengthFor(tickRate: int, dayLength: int): (dl: int)
    ensures dayLength != 0 ==> dl == dayLength
    ensures dayLength == 0 ==> dl == 24 * tickRate
    ensures dayLength >= 0 && tickRate > 0 ==> dl > 0
  {
    if dayLength != 0 then dayLength else tickRate * 24
  }

  /** `day_fraction`: the position inside the current day, in [0, 1). */
  function DayFraction(tickCount: int, dayLength: int): (f: real)
    requires dayLength > 0
    ensures 0.0 <= f < 1.0
    ensures f == 0.0 <==> tickCount % dayLength == 0
  {
    (tickCount % dayLength) as real / dayLength as real
  }

  /** `int(day_fraction * 24)`: the whole hour of the day. */
  function Hour(tickCount: int, dayLength: int): (h: int)
    requires dayLength > 0
    ensures 0 <= h < 24
    ensures h * dayLength <= 24 * (tickCount % dayLength) < (h + 1) * dayLength
  {
    DivBounds(24 * (tickCount % dayLength), dayLength);
    (24 * (tickCount % dayLength)) / dayLength
  }

  /** `int((day_fraction * 24 - hours) * 60)`: the whole minutes past the hour. */
  function Minute(tickCount: int, dayLength: int): (m: int)
    requires dayLength > 0
    ensures 0 <= m < 60
  {
    (60 * ((24 * (tickCount % dayLength)) % dayLength)) / dayLength
  }

  /** `is_night`: the hour is before 03:00. */
  predicate IsNight(tickCount: int, dayLength: int)
    requires dayLength > 0
  {
    Hour(tickCount, dayLength) < 3
  }

  /** `q == n / d` is pinned down by the two bounds around `n`. */
  lemma DivBounds(n: int, d: int)
    requires d > 0
    ensures (n / d) * d <= n < (n / d + 1) * d
  {
  }

  lemma {:induction false} DivUnique(n: int, d: int, q: int)
    requires d > 0 && q * d <= n < (q + 1) * d
    ensures n / d == q && n % d == n - q * d
  {
    DivBounds(n, d);
    var r := n / d;
    if r < q {
      MulLe(r + 1, q, d);
      assert false;
    } else if r > q {
      MulLe(q + 1, r, d);
      assert false;
    }
  }

  lemma MulLe(a: int, b: int, d: int)
    requires a <= b && d > 0
    ensures a * d <= b * d
  {
    assert b * d - a * d == (b - a) * d;
  }

  /** Night is exactly the first eighth of the day. */
  lemma NightIsFirstEighth(tickCount: int, dayLength: int)
    requires dayLength > 0
    ensures IsNight(tickCount, dayLength) <==> 8 * (tickCount % dayLength) < dayLength
  {
    var h := Hour(tickCount, dayLength);
    if 8 * (tickCount % dayLength) < dayLength {
      assert h * dayLength < 3 * dayLength;
    } else {
      assert 3 * dayLength <= (h + 1) * dayLength;
    }
  }

  /** The minutes since midnight read off the clock are the exact elapsed fraction of 1440 minutes. */
  lemma ClockReading(tickCount: int, dayLength: int)
    requires dayLength > 0
    ensures Hour(tickCount, dayLength) * 60 + Minute(tickCount, dayLength)
         == (1440 * (tickCount % dayLength)) / dayLength
  {
    var n := 24 * (tickCount % dayLength);
    var h := n / dayLength;
    var r := n % dayLength;
    var m := (60 * r) / dayLength;
    DivBounds(60 * r, dayLength);
    assert n == h * dayLength + r;
    assert 1440 * (tickCount % dayLength) == 60 * h * dayLength + 60 * r;
    DivUnique(1440 * (tickCount % dayLength), dayLength, 60 * h + m);
  }

  /** Half-way through an even-length day the clock reads 12 o'clock. */
  lemma NoonAtHalfDay(dayLength: int, days: nat)
    requires dayLength > 0 && dayLength % 2 == 0
    ensures Hour(days * dayLength + dayLength / 2, dayLength) == 12
  {
    var t := days * dayLength + dayLength / 2;
    DivUnique(t, dayLength, days);
    assert t % dayLength == dayLength / 2;
    DivUnique(24 * (dayLength / 2), dayLength, 12);
  }

  /** On an odd-length day of at least 13 ticks the half-way tick still reads 11 o'clock. */
  lemma NoNoonAtOddHalfDay(dayLength: int)
    requires dayLength >= 13 && dayLength % 2 == 1
    ensures Hour(dayLength / 2, dayLength) == 11
  {
    var m := dayLength / 2;
    DivUnique(dayLength, 2, m);
    DivUnique(m, dayLength, 0);
    DivUnique(24 * m, dayLength, 11);
  }

  /** One tick moves `tickCount / dayLength` up by one exactly when the new count is a multiple of the day length. */
  lemma {:induction false} DayStep(t: int, dl: int)
    requires dl > 0
    ensures (t + 1) / dl == t / dl + (if (t + 1) % dl == 0 then 1 else 0)
  {
    DivBounds(t, dl);
    var q := t / dl;
    var s := t - q * dl;
    if s + 1 == dl {
      DivUnique(t + 1, dl, q + 1);
    } else {
      DivUnique(t + 1, dl, q);
    }
  }

  class World {
    const tickRate: int
    const dayLength: int
    var tickCount: int
    var day: int

    /** The day counter is the number of whole days elapsed since tick 0. */
    ghost predicate Valid()
      reads this
    {
      dayLength > 0 && tickCount >= 0 && day == tickCount / dayLength
    }

    /** `World(tick_rate, day_length)`, where a `day_length` of 0 stands for "not given". */
    constructor (tickRate: int, dayLength: int)
      requires DayLengthFor(tickRate, dayLength) > 0
      ensures this.tickRate == tickRate && this.dayLength == DayLengthFor(tickRate, dayLength)
      ensures tickCount == 0 && day == 0
      ensures Valid()
    {
      this.tickRate := tickRate;
      this.dayLength := DayLengthFor(tickRate, dayLength);
      tickCount := 0;
      day := 0;
    }

    /** `tick`: one more tick, and one more day when it crosses a day boundary. */
    method Tick()
      requires dayLength > 0
      modifies this
      ensures tickCount == old(tickCount) + 1
      ensures day == old(day) + (if tickCount / dayLength > old(tickCount) / dayLength then 1 else 0)
      ensures old(Valid()) ==> Valid()
    {
      var prev := tickCount / dayLength;
      tickCount := tickCount + 1;
      if tickCount / dayLength > prev {
        day := day + 1;
      }
      DayStep(old(tickCount), dayLength);
    }

    predicate IsNightNow()
      requires dayLength > 0
      reads this
    {
      IsNight(tickCount, dayLength)
    }

    function DayFractionNow(): real
      requires dayLength > 0
      reads this
    {
      DayFraction(tickCount, dayLength)
    }

    /** `time_of_day` as the pair (hours, minutes) its "HH:MM" text shows. */
    function TimeOfDay(): (hm: (int, int))
      requires dayLength > 0
      reads this
      ensures 0 <= hm.0 < 24 && 0 <= hm.1 < 60
      ensures hm.0 * 60 + hm.1 == (1440 * (tickCount % dayLength)) / dayLength
    {
      ClockReading(tickCount, dayLength);
      (Hour(tickCount, dayLength), Minute(tickCount, dayLength))
    }
  }
}
