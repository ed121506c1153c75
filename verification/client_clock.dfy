/** The time strings the student client sends, as the server reads them.
    The client shifts its clock reading by `istOffset + getTimezoneOffset()`
    minutes, renders the shifted instant with `toISOString().slice(0, 16)`
    (the UTC wall-clock minute), and the server reads that string with
    `moment.tz(s, 'Asia/Kolkata')` as IST wall-clock time. */
module ClientClock {
  import opened IstTime

  const MinuteMs: int := 60_000

  /** IST's offset from UTC in minutes, the client's `istOffset`. */
  const IstOffsetMinutes: int := 330

  /** The instant `t` truncated to its minute, as `slice(0, 16)` drops
      seconds and milliseconds. */
  function MinuteFloor(t: int): (f: int)
    ensures f <= t < f + MinuteMs
    ensures f % MinuteMs == 0
  {
    t - t % MinuteMs
  }

  /** The instant the server stores for the string a browser sends at
      instant `now`, where `localOffset` is that browser's
      `getTimezoneOffset()` in minutes (UTC minus local time, so -330 in
      India). The string is the UTC wall-clock minute of the shifted
      instant; reading it as IST wall-clock time moves it back by the IST
      offset. */
  function SentInstant(now: int, localOffset: int): int {
    MinuteFloor(now + (IstOffsetMinutes + localOffset) * MinuteMs) - IstOffsetMs
  }

  /** The instant the client means to send: the IST wall-clock minute of
      `now`, read back as IST, is `now` truncated to its minute. It lies on
      the IST day of `now`. */
  function IntendedInstant(now: int): (t: int)
    ensures t <= now < t + MinuteMs
    ensures t % MinuteMs == 0
    ensures IstDay(t) == IstDay(now)
  {
    MinuteDay(now);
    MinuteFloor(now)
  }

  /** Truncating to the minute keeps an instant on its IST and UTC day,
      since days and the IST offset are whole minutes. */
  lemma MinuteDay(t: int)
    ensures IstDay(MinuteFloor(t)) == IstDay(t)
    ensures UtcDay(MinuteFloor(t)) == UtcDay(t)
  {
    var n, r := t / MinuteMs, t % MinuteMs;
    assert t == MinuteMs * n + r && MinuteFloor(t) == MinuteMs * n;
    assert t + IstOffsetMs == MinuteMs * (n + 330) + r;
    MinuteQuotient(n + 330, r);
    MinuteQuotient(n, r);
  }

  /** Adding less than a minute to a whole minute stays in its day. */
  lemma MinuteQuotient(a: int, r: int)
    requires 0 <= r < MinuteMs
    ensures (MinuteMs * a + r) / DayMs == (MinuteMs * a) / DayMs
  {
    var k, j := a / 1440, a % 1440;
    assert MinuteMs * a == k * DayMs + MinuteMs * j;
    DivIs(MinuteMs * a + r, k, MinuteMs * j + r);
    DivIs(MinuteMs * a, k, MinuteMs * j);
  }

  /** A browser running in UTC (`getTimezoneOffset()` is 0) sends exactly
      the intended instant. */
  lemma UtcBrowserSendsIntended(now: int)
    ensures SentInstant(now, 0) == IntendedInstant(now)
  {
    assert now + IstOffsetMinutes * MinuteMs == now + IstOffsetMs;
    assert (now + IstOffsetMs) % MinuteMs == now % MinuteMs by {
      assert IstOffsetMs == MinuteMs * 330;
    }
  }

  /** A browser in India (`getTimezoneOffset()` is -330) sends the UTC
      wall-clock minute, which the server stores 5 h 30 min early: on the UTC
      day of `now`, which is the IST day before `now`'s during the first
      5 h 30 min of every IST day. */
  lemma IndianBrowserSendsUtcMinute(now: int)
    ensures SentInstant(now, -330) == IntendedInstant(now) - IstOffsetMs
    ensures IstDay(SentInstant(now, -330)) == UtcDay(now)
    ensures IstDay(SentInstant(now, -330)) == IstDay(now) - 1 <==>
      (now + IstOffsetMs) % DayMs < IstOffsetMs
  {
    var t := SentInstant(now, -330);
    assert t + IstOffsetMs == MinuteFloor(now);
    MinuteDay(now);
    assert IstDay(t) == MinuteFloor(now) / DayMs;
    UtcDayLagsIstDay(now);
  }
}
