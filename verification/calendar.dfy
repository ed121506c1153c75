/** The proleptic Gregorian calendar, as used by `Date.prototype.toISOString`.
    Days are numbered from 1970-01-01 (day 0). The conversion follows the
    era/year-of-era decomposition: an era is 400 years (146,097 days), and a
    year inside an era is counted from March 1 so that the leap day is the
    last day of the counted year. */
module Calendar {

  datatype Date = Date(year: int, month: int, day: int)

  predicate IsLeapYear(y: int) {
    y % 4 == 0 && (y % 100 != 0 || y % 400 == 0)
  }

  function DaysInMonth(y: int, m: int): int
    requires 1 <= m <= 12
  {
    if m == 2 then (if IsLeapYear(y) then 29 else 28)
    else if m == 4 || m == 6 || m == 9 || m == 11 then 30
    else 31
  }

  predicate ValidDate(d: Date) {
    1 <= d.month <= 12 && 1 <= d.day <= DaysInMonth(d.year, d.month)
  }

  /** Days from 0000-03-01 of an era to March 1 of its year `yoe`. */
  function DaysBeforeYear(yoe: int): int {
    365 * yoe + yoe / 4 - yoe / 100
  }

  /** The year of era holding day of era `doe`. */
  function YearOfEra(doe: int): int {
    (doe - doe / 1460 + doe / 36524 - doe / 146096) / 365
  }

  /** Days from March 1 to the first day of shifted month `mp`
      (0 = March, ..., 11 = February). */
  function DaysBeforeMonth(mp: int): int {
    (153 * mp + 2) / 5
  }

  /** The year counted from March: January and February belong to the
      year before. */
  function ShiftedYear(d: Date): int {
    if d.month <= 2 then d.year - 1 else d.year
  }

  /** The month counted from March (0 = March, ..., 11 = February). */
  function ShiftedMonth(d: Date): int {
    if d.month > 2 then d.month - 3 else d.month + 9
  }

  function EraOf(d: Date): int {
    ShiftedYear(d) / 400
  }

  function YearOfEraOf(d: Date): int {
    ShiftedYear(d) - EraOf(d) * 400
  }

  /** Days from March 1 of the shifted year to the date. */
  function DayOfYearOf(d: Date): int {
    DaysBeforeMonth(ShiftedMonth(d)) + d.day - 1
  }

  function DayOfEraOf(d: Date): int {
    DaysBeforeYear(YearOfEraOf(d)) + DayOfYearOf(d)
  }

  /** Day number of a calendar date; 0000-03-01 is day -719,468. */
  function DaysFromCivil(d: Date): int {
    EraOf(d) * 146097 + DayOfEraOf(d) - 719468
  }

  /** The calendar date of day number `z`: a valid date whose day number is
      `z`. */
  function CivilFromDays(z: int): (d: Date)
    ensures ValidDate(d)
    ensures DaysFromCivil(d) == z
  {
    var era := (z + 719468) / 146097;
    var doe := z + 719468 - era * 146097;
    EraDayCorrect(era, doe);
    EraDay(era, doe)
  }

  /** The date of day `doe` of era `era`. */
  function EraDay(era: int, doe: int): Date {
    var yoe := YearOfEra(doe);
    DateOf(era, yoe, doe - DaysBeforeYear(yoe))
  }

  lemma EraDayCorrect(era: int, doe: int)
    requires 0 <= doe <= 146096
    ensures ValidDate(EraDay(era, doe))
    ensures DaysFromCivil(EraDay(era, doe)) == era * 146097 + doe - 719468
  {
    YearOfEraBounds(doe);
    var yoe := YearOfEra(doe);
    var doy := doe - DaysBeforeYear(yoe);
    assert EraDay(era, doe) == DateOf(era, yoe, doy);
    EraDayValid(era, yoe, doy);
    EraDayNumber(era, yoe, doy);
  }

  /** `EraDay` from its year of era and day of year. */
  function DateOf(era: int, yoe: int, doy: int): Date {
    var mp := (5 * doy + 2) / 153;
    var month := if mp < 10 then mp + 3 else mp - 9;
    Date(yoe + era * 400 + (if month <= 2 then 1 else 0), month, doy - DaysBeforeMonth(mp) + 1)
  }

  lemma EraDayValid(era: int, yoe: int, doy: int)
    requires 0 <= yoe <= 399 && 0 <= doy <= 365
    requires doy == 365 ==> yoe % 4 == 3 && (yoe % 100 != 99 || yoe == 399)
    ensures ValidDate(DateOf(era, yoe, doy))
  {
    MonthOfYearBounds(doy);
    var d := DateOf(era, yoe, doy);
    if d.month == 2 && d.day == 29 {
      assert doy == 365;
      assert d.year == (yoe + 1) + 400 * era;
      LeapYearPeriod(yoe + 1, era);
    }
  }

  lemma EraDayNumber(era: int, yoe: int, doy: int)
    requires 0 <= yoe <= 399 && 0 <= doy <= 365
    ensures DaysFromCivil(DateOf(era, yoe, doy)) == era * 146097 + DaysBeforeYear(yoe) + doy - 719468
  {
    MonthOfYearBounds(doy);
    var mp := (5 * doy + 2) / 153;
    var d := DateOf(era, yoe, doy);
    var y := if d.month <= 2 then d.year - 1 else d.year;
    assert y == yoe + era * 400;
    assert y / 400 == era;
  }

  /** The year of era of every day of an era lies in 0..399, the day of
      that year in 0..365, and day 365 occurs only when the following
      March-to-February year ends in a leap February. */
  lemma YearOfEraBounds(doe: int)
    requires 0 <= doe <= 146096
    ensures 0 <= YearOfEra(doe) <= 399
    ensures 0 <= doe - DaysBeforeYear(YearOfEra(doe)) <= 365
    ensures doe - DaysBeforeYear(YearOfEra(doe)) == 365 ==>
      YearOfEra(doe) % 4 == 3 && (YearOfEra(doe) % 100 != 99 || YearOfEra(doe) == 399)
  {
    if doe == 146096 {
      assert YearOfEra(doe) == 399;
    } else {
      // doe = 36524 c + 1461 k + 365 j + doy: century, leap cycle, year, day
      var c := doe / 36524;
      var rc := doe % 36524;
      assert doe == 36524 * c + rc;
      assert 0 <= c <= 3;
      var k := rc / 1461;
      var rk := rc % 1461;
      assert rc == 1461 * k + rk;
      assert 0 <= k <= 24;
      var j := if rk / 365 < 3 then rk / 365 else 3;
      var doy := rk - 365 * j;
      assert 0 <= doy <= 365;
      assert doy == 365 ==> j == 3 && k < 24;
      var y := 100 * c + 4 * k + j;
      assert doe == 36524 * c + 1461 * k + 365 * j + doy;
      var e := if j == 3 && doy >= 365 - 24 * c - k then 1 else 0;
      assert doe / 1460 == 25 * c + k + e;
      assert doe / 36524 == c;
      assert doe / 146096 == 0;
      assert doe - doe / 1460 + doe / 36524 - doe / 146096 == 365 * y + doy - e;
      assert YearOfEra(doe) == y;
      assert y / 4 == 25 * c + k;
      assert y / 100 == c;
      assert DaysBeforeYear(y) == 365 * y + 24 * c + k;
    }
  }

  /** Within a March-to-February year, day `doy` falls in shifted month
      `(5 doy + 2) / 153`, at a day of month no larger than that month's
      length; only day 365 is a February 29. */
  lemma MonthOfYearBounds(doy: int)
    requires 0 <= doy <= 365
    ensures var mp := (5 * doy + 2) / 153;
      && 0 <= mp <= 11
      && DaysBeforeMonth(mp) <= doy
      && doy - DaysBeforeMonth(mp) < DaysBeforeMonth(mp + 1) - DaysBeforeMonth(mp)
      && (mp == 11 ==> doy - DaysBeforeMonth(mp) < 28 || doy == 365)
  {
  }

  /** Days `doy` into year `100 c + 4 k + j` of an era: that year is the
      year of era of the day, and the years before it hold
      `36524 c + 1461 k + 365 j` days. The year has a 366th day (index 365)
      when the February that ends it is a leap February. */
  lemma YearOfEraOfParts(c: int, k: int, j: int, doy: int)
    requires 0 <= c <= 3 && 0 <= k <= 24 && 0 <= j <= 3
    requires 0 <= doy <= (if j == 3 && (k < 24 || c == 3) then 365 else 364)
    ensures DaysBeforeYear(100 * c + 4 * k + j) == 36524 * c + 1461 * k + 365 * j
    ensures YearOfEra(36524 * c + 1461 * k + 365 * j + doy) == 100 * c + 4 * k + j
  {
    var y := 100 * c + 4 * k + j;
    var doe := 36524 * c + 1461 * k + 365 * j + doy;
    assert y / 4 == 25 * c + k;
    assert y / 100 == c;
    if doe == 146096 {
      assert YearOfEra(doe) == 399;
    } else {
      var e := if j == 3 && doy >= 365 - 24 * c - k then 1 else 0;
      assert doe / 1460 == 25 * c + k + e;
      assert doe / 36524 == c;
      assert doe / 146096 == 0;
      assert doe - doe / 1460 + doe / 36524 - doe / 146096 == 365 * y + doy - e;
    }
  }

  /** Day `day` of shifted month `mp` lies in that month. */
  lemma MonthOfDay(mp: int, day: int)
    requires 0 <= mp <= 11
    requires 1 <= day <= DaysBeforeMonth(mp + 1) - DaysBeforeMonth(mp)
    ensures (5 * (DaysBeforeMonth(mp) + day - 1) + 2) / 153 == mp
  {
  }

  /** The day number of a valid date converts back to that date, so no two
      valid dates share a day number. */
  lemma CivilRoundTrip(d: Date)
    requires ValidDate(d)
    ensures CivilFromDays(DaysFromCivil(d)) == d
  {
    DayOfEraBounds(d);
    CivilFromEraDay(DaysFromCivil(d), EraOf(d), DayOfEraOf(d));
    EraDayOf(EraOf(d), YearOfEraOf(d), DayOfYearOf(d));
    DateOfParts(d);
  }

  /** The day of era of a valid date is in range and has the date's year
      of era. */
  lemma DayOfEraBounds(d: Date)
    requires ValidDate(d)
    ensures 0 <= DayOfEraOf(d) <= 146096
    ensures YearOfEra(DayOfEraOf(d)) == YearOfEraOf(d)
  {
    var yoe, doy := YearOfEraOf(d), DayOfYearOf(d);
    DayOfShiftedYear(d);
    if doy == 365 {
      LeapFebruaryParts(yoe, EraOf(d));
    }
    YearOfEraOfYear(yoe, doy);
  }

  /** `YearOfEraOfParts` for a year of era given as a number. */
  lemma YearOfEraOfYear(yoe: int, doy: int)
    requires 0 <= yoe <= 399 && 0 <= doy <= 365
    requires doy == 365 ==> yoe % 4 == 3 && ((yoe % 100) / 4 < 24 || yoe / 100 == 3)
    ensures DaysBeforeYear(yoe) + doy <= 146096
    ensures YearOfEra(DaysBeforeYear(yoe) + doy) == yoe
  {
    var c, k, j := yoe / 100, (yoe % 100) / 4, yoe % 4;
    assert yoe == 100 * c + 4 * k + j;
    YearOfEraOfParts(c, k, j, doy);
  }

  lemma EraDayOf(era: int, yoe: int, doy: int)
    requires YearOfEra(DaysBeforeYear(yoe) + doy) == yoe
    ensures EraDay(era, DaysBeforeYear(yoe) + doy) == DateOf(era, yoe, doy)
  {
  }

  lemma CivilFromEraDay(z: int, era: int, doe: int)
    requires 0 <= doe <= 146096 && z + 719468 == era * 146097 + doe
    ensures CivilFromDays(z) == EraDay(era, doe)
  {
    assert (z + 719468) / 146097 == era;
  }

  /** Rebuilding a valid date from its era, year of era and day of year. */
  lemma DateOfParts(d: Date)
    requires ValidDate(d)
    ensures DateOf(EraOf(d), YearOfEraOf(d), DayOfYearOf(d)) == d
  {
    DayOfShiftedYear(d);
    MonthOfDay(ShiftedMonth(d), d.day);
  }

  /** A valid date lies inside its March-to-February year, on its last
      (366th) day only when it is February 29 of a leap year. */
  lemma DayOfShiftedYear(d: Date)
    requires ValidDate(d)
    ensures 0 <= DayOfYearOf(d) <= 365
    ensures 1 <= d.day <= DaysBeforeMonth(ShiftedMonth(d) + 1) - DaysBeforeMonth(ShiftedMonth(d))
    ensures DayOfYearOf(d) == 365 ==> IsLeapYear(d.year) && d.month == 2
  {
  }

  /** The leap February closing year `yoe` of an era closes a year of era
      of the form `100 c + 4 k + 3` with `k < 24`, or year 399. */
  lemma LeapFebruaryParts(yoe: int, era: int)
    requires 0 <= yoe <= 399
    requires IsLeapYear(yoe + era * 400 + 1)
    ensures yoe % 4 == 3
    ensures (yoe % 100) / 4 < 24 || yoe / 100 == 3
  {
    LeapYearPeriod(yoe + 1, era);
    assert IsLeapYear(yoe + 1);
  }

  /** Day 0 is the Unix epoch, 1970-01-01. */
  lemma UnixEpoch()
    ensures DaysFromCivil(Date(1970, 1, 1)) == 0
  {
  }

  /** The calendar date after a valid date. */
  function NextDate(d: Date): (n: Date)
    requires ValidDate(d)
    ensures ValidDate(n)
  {
    if d.day < DaysInMonth(d.year, d.month) then Date(d.year, d.month, d.day + 1)
    else if d.month < 12 then Date(d.year, d.month + 1, 1)
    else Date(d.year + 1, 1, 1)
  }

  /** Consecutive dates have consecutive day numbers. */
  lemma NextDateIsNextDay(d: Date)
    requires ValidDate(d)
    ensures DaysFromCivil(NextDate(d)) == DaysFromCivil(d) + 1
  {
    var n := NextDate(d);
    YearStartOf(d);
    YearStartOf(n);
    if d.day < DaysInMonth(d.year, d.month) {
      assert ShiftedYear(n) == ShiftedYear(d) && ShiftedMonth(n) == ShiftedMonth(d);
    } else if d.month == 2 {
      assert ShiftedYear(n) == ShiftedYear(d) + 1 && DayOfYearOf(n) == 0;
      YearLength(d.year - 1);
    } else {
      assert ShiftedYear(n) == ShiftedYear(d) && ShiftedMonth(n) == ShiftedMonth(d) + 1;
      MonthLength(d.year, d.month);
    }
  }

  /** The date whose day number follows that of `d` is the next date. */
  lemma NextDayIsNextDate(d: Date, e: Date)
    requires ValidDate(d) && ValidDate(e)
    ensures DaysFromCivil(e) == DaysFromCivil(d) + 1 <==> e == NextDate(d)
  {
    NextDateIsNextDay(d);
    DaysFromCivilInjective(e, NextDate(d));
  }

  /** Day number of March 1 of March-to-February year `y`. */
  function YearStart(y: int): int {
    (y / 400) * 146097 + DaysBeforeYear(y - (y / 400) * 400) - 719468
  }

  lemma YearStartOf(d: Date)
    ensures DaysFromCivil(d) == YearStart(ShiftedYear(d)) + DayOfYearOf(d)
  {
  }

  /** A March-to-February year has 366 days when the February that ends it
      is a leap February, and 365 otherwise. */
  lemma YearLength(y: int)
    ensures YearStart(y + 1) == YearStart(y) + (if IsLeapYear(y + 1) then 366 else 365)
  {
    var e := y / 400;
    var yoe := y - e * 400;
    if yoe == 399 {
      assert (y + 1) / 400 == e + 1;
      LeapYearPeriod(0, e + 1);
    } else {
      assert (y + 1) / 400 == e;
      LeapYearPeriod(yoe + 1, e);
      QuotientStep(yoe);
    }
  }

  /** Counting multiples of 4 and of 100 up to `n + 1` instead of `n`. */
  lemma QuotientStep(n: int)
    requires 0 <= n < 399
    ensures (n + 1) / 4 - n / 4 == (if (n + 1) % 4 == 0 then 1 else 0)
    ensures (n + 1) / 100 - n / 100 == (if (n + 1) % 100 == 0 then 1 else 0)
    ensures (n + 1) % 400 != 0
  {
  }

  /** A month other than February ends where the next shifted month
      begins. */
  lemma MonthLength(y: int, m: int)
    requires 1 <= m <= 12 && m != 2
    ensures DaysBeforeMonth(ShiftedMonth(Date(y, m, 1)) + 1)
      - DaysBeforeMonth(ShiftedMonth(Date(y, m, 1))) == DaysInMonth(y, m)
  {
  }

  /** The leap-year rule repeats every 400 years. */
  lemma LeapYearPeriod(y: int, e: int)
    ensures IsLeapYear(y + 400 * e) == IsLeapYear(y)
  {
    Shift4(y, 100 * e);
    Shift100(y, 4 * e);
    Shift400(y, e);
  }

  // each remainder differs by a multiple of its divisor smaller than it
  lemma Shift4(y: int, k: int)
    ensures (y + 4 * k) % 4 == y % 4
  {
    var n := y + 4 * k;
    assert 4 * (n / 4 - y / 4 - k) == y % 4 - n % 4;
  }

  lemma Shift100(y: int, k: int)
    ensures (y + 100 * k) % 100 == y % 100
  {
    var n := y + 100 * k;
    assert 100 * (n / 100 - y / 100 - k) == y % 100 - n % 100;
  }

  lemma Shift400(y: int, k: int)
    ensures (y + 400 * k) % 400 == y % 400
  {
    var n := y + 400 * k;
    assert 400 * (n / 400 - y / 400 - k) == y % 400 - n % 400;
  }

  /** Valid dates with the same day number are the same date. */
  lemma DaysFromCivilInjective(d1: Date, d2: Date)
    requires ValidDate(d1) && ValidDate(d2)
    ensures DaysFromCivil(d1) == DaysFromCivil(d2) <==> d1 == d2
  {
    CivilRoundTrip(d1);
    CivilRoundTrip(d2);
  }
}
