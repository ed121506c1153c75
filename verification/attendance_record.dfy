/** The attendance document: one per student and day, created with the
    check-in instant and completed once with the check-out instant, topic and
    staff name. */
module AttendanceRecord {
  import opened Base
  import opened IstTime
  import opened Calendar
  import opened IsoFormat

  /** Identifier of the owning user. */
  type UserId = string

  /** A stored record. At the schema level every data field may be absent;
      `createdAt` always has a value because the schema supplies a default. */
  datatype Record = Record(
    studentId: Option<UserId>,
    intime: Option<int>,
    outtime: Option<int>,
    topic: Option<string>,
    staffName: Option<string>,
    createdAt: int)

  /** The fields a new document is constructed with; `createdAt` may be
      left out. */
  datatype RecordInit = RecordInit(
    studentId: Option<UserId>,
    intime: Option<int>,
    outtime: Option<int>,
    topic: Option<string>,
    staffName: Option<string>,
    createdAt: Option<int>)

  /** Constructing a document at instant `now`: supplied fields are kept and
      `createdAt` defaults to `now`. */
  function NewRecord(init: RecordInit, now: int): (r: Record)
    ensures r.studentId == init.studentId && r.intime == init.intime
    ensures r.outtime == init.outtime && r.topic == init.topic && r.staffName == init.staffName
    ensures init.createdAt.None? ==> r.createdAt == now
    ensures init.createdAt.Some? ==> r.createdAt == init.createdAt.value
  {
    Record(init.studentId, init.intime, init.outtime, init.topic, init.staffName,
           init.createdAt.GetOr(now))
  }

  /** 0000-01-01T00:00:00.000Z and 9999-12-31T23:59:59.999Z: the instants
      whose ISO rendering has a plain four-digit year. */
  const FirstPlainIsoTime: int := -62_167_219_200_000
  const LastPlainIsoTime: int := 253_402_300_799_999

  /** The `dateString` virtual: the first ten characters of the ISO (UTC)
      rendering of `intime`, or null when there is no `intime`. It is a
      function of the record and is not one of its fields, so reading it
      cannot change what is stored. In years 0 to 9999 it reads back as the
      UTC calendar date of `intime`. */
  function DateString(r: Record): (ds: Option<string>)
    ensures ds.None? <==> r.intime.None?
    ensures ds.Some? ==> |ds.value| == 10
    ensures ds.Some? && FirstPlainIsoTime <= r.intime.value <= LastPlainIsoTime ==>
      var d := ParseIsoDate(ds.value);
      d.Some? && ValidDate(d.value) && DaysFromCivil(d.value) == UtcDay(r.intime.value)
  {
    match r.intime
    case None => None
    case Some(t) =>
      var date := CivilFromDays(UtcDay(t));
      assert FirstPlainIsoTime <= t <= LastPlainIsoTime ==>
        ParseIsoDate(IsoDate(date)[..10]) == Some(date) by {
        if FirstPlainIsoTime <= t <= LastPlainIsoTime {
          PlainIsoYears(UtcDay(t));
          IsoDateRoundTrip(date);
        }
      }
      Some(IsoDate(date)[..10])
  }

  /** For every `intime`, `dateString` is the first ten characters of the
      ISO rendering of the one valid date whose day number is the UTC day of
      `intime`. */
  lemma DateStringRendersUtcDate(r: Record, d: Date)
    requires r.intime.Some? && ValidDate(d) && DaysFromCivil(d) == UtcDay(r.intime.value)
    ensures DateString(r) == Some(IsoDate(d)[..10])
  {
    CivilRoundTrip(d);
  }

  /** Days 0000-01-01 through 9999-12-31 have four-digit years. */
  lemma PlainIsoYears(z: int)
    requires -719_528 <= z <= 2_932_896
    ensures 0 <= CivilFromDays(z).year <= 9999
  {
    var era := (z + 719468) / 146097;
    var doe := z + 719468 - era * 146097;
    assert -1 <= era <= 24;
    CivilFromEraDay(z, era, doe);
    YearOfEraBounds(doe);
    var yoe := YearOfEra(doe);
    var doy := doe - DaysBeforeYear(yoe);
    MonthOfYearBounds(doy);
    if era == -1 {
      // January and February of year 0 close the era before the epoch's
      EraTail(doe);
    } else if era == 24 {
      // the epoch's era + 24 ends with March to December of year 9999
      assert doe <= 146036;
      assert yoe == 399 ==> doy <= 305;
    }
  }

  /** The last 60 days of an era are January and February of its year 399. */
  lemma EraTail(doe: int)
    requires 146037 <= doe <= 146096
    ensures YearOfEra(doe) == 399
    ensures (5 * (doe - DaysBeforeYear(399)) + 2) / 153 >= 10
  {
    assert doe / 1460 == 100;
    assert DaysBeforeYear(399) == 145731;
  }
}
