/** Instants are integer milliseconds since the Unix epoch, the unit of a
    JavaScript `Date`. The server scopes "today" to the civil day of Indian
    Standard Time, a fixed UTC+05:30 zone with no daylight saving. */
module IstTime {

  /** Milliseconds in one civil day. */
  const DayMs: int := 86_400_000

  /** UTC+05:30 in milliseconds. */
  const IstOffsetMs: int := 19_800_000

  /** Number of the IST civil day holding instant `t` (day 0 starts at
      1970-01-01T00:00 IST). Dafny's `/` floors for a positive divisor, which
      is what `startOf('day')` does for instants before the epoch too. */
  function IstDay(t: int): int {
    (t + IstOffsetMs) / DayMs
  }

  /** Number of the UTC civil day holding instant `t`. */
  function UtcDay(t: int): int {
    t / DayMs
  }

  /** A closed interval of instants, as queried with `$gte` and `$lte`. */
  datatype Window = Window(start: int, end: int) {
    predicate Contains(t: int) {
      start <= t <= end
    }
  }

  /** `startOf('day')` and `endOf('day')` of `now` in Asia/Kolkata: IST
      00:00:00.000 and IST 23:59:59.999 of the IST day holding `now`. The
      window holds exactly the instants on the same IST civil day as `now`. */
  function TodayWindow(now: int): (w: Window)
    ensures w.start <= now <= w.end
    ensures w.end - w.start == DayMs - 1
    ensures (w.start + IstOffsetMs) % DayMs == 0
    ensures forall t :: w.Contains(t) <==> IstDay(t) == IstDay(now)
  {
    var day := IstDay(now);
    var start := day * DayMs - IstOffsetMs;
    var w := Window(start, start + DayMs - 1);
    forall t ensures w.Contains(t) <==> IstDay(t) == day {
      SameDayIffInRange(t, day);
    }
    w
  }

  /** Instant `t` falls on IST day `day` iff it lies between that day's
      first and last millisecond. */
  lemma SameDayIffInRange(t: int, day: int)
    ensures IstDay(t) == day <==>
      day * DayMs - IstOffsetMs <= t <= day * DayMs - IstOffsetMs + DayMs - 1
  {
    var q := (t + IstOffsetMs) / DayMs;
    var r := (t + IstOffsetMs) % DayMs;
    assert t + IstOffsetMs == q * DayMs + r && 0 <= r < DayMs;
    if q < day {
      assert q * DayMs <= (day - 1) * DayMs;
    } else if q > day {
      assert q * DayMs >= (day + 1) * DayMs;
    }
  }

  /** The UTC day of an instant is the IST day, except in the first five
      and a half hours of an IST day, which still belong to the previous UTC
      day. */
  lemma UtcDayLagsIstDay(t: int)
    ensures (t + IstOffsetMs) % DayMs < IstOffsetMs ==> UtcDay(t) == IstDay(t) - 1
    ensures (t + IstOffsetMs) % DayMs >= IstOffsetMs ==> UtcDay(t) == IstDay(t)
  {
    var q := IstDay(t);
    var r := (t + IstOffsetMs) % DayMs;
    assert t == q * DayMs + (r - IstOffsetMs);
    if r < IstOffsetMs {
      assert t == (q - 1) * DayMs + (r - IstOffsetMs + DayMs);
      DivIs(t, q - 1, r - IstOffsetMs + DayMs);
    } else {
      DivIs(t, q, r - IstOffsetMs);
    }
  }

  /** Division by a day is determined by quotient and in-range remainder. */
  lemma DivIs(t: int, q: int, r: int)
    requires t == q * DayMs + r && 0 <= r < DayMs
    ensures t / DayMs == q
  {
  }
}
