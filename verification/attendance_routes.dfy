/** The two attendance routes. `/submit` is a per-student, per-day state
    machine (no record today, checked in, completed) that either rejects
    without writing, creates a record (201) or completes the record (200).
    `/check-today` reports whether the calling student's record for today
    is complete.

    The store is the collection of attendance documents in natural order;
    `findOne` returns the first matching document. The request's clock
    reading, the time-string parser and the distance computation are
    parameters. */
module AttendanceRoutes {
  import opened Base
  import opened IstTime
  import opened Geofence
  import opened AttendanceRecord

  /** A JSON value in a coordinate position: a number or anything else
      (missing, a string, an object, ...). `JSON.parse` yields no NaN, but
      an overflowing literal such as `1e400` becomes an infinity, which passes
      the `typeof` test. An infinite coordinate has no real value here: the
      haversine of an infinity is NaN, which a `Number` coordinate reaches
      through a distance parameter answering `NotANumber`. */
  datatype Coordinate = Number(value: real) | NotNumber

  /** A truthy `location` value; one that is not an object has no numeric
      members and reads as `Location(NotNumber, NotNumber)`. */
  datatype Location = Location(latitude: Coordinate, longitude: Coordinate)

  /** The request body. `None` is a missing or falsy member. */
  datatype Payload = Payload(
    intime: Option<string>,
    outtime: Option<string>,
    topic: Option<string>,
    staffName: Option<string>,
    location: Option<Location>)

  /** JavaScript truthiness of a string member: present and non-empty. */
  predicate Given(f: Option<string>) {
    f.Some? && f.value != ""
  }

  /** Collaborators the route calls but this model does not define: the
      haversine distance and `moment.tz(s, 'Asia/Kolkata')`, which reads a
      local date-time string as IST wall-clock time and yields an instant,
      or `None` for an Invalid Date. */
  datatype Env = Env(distance: DistanceFn, parseIst: string -> Option<int>)

  datatype Rejection =
    | InvalidLocation
    | OutsideGeofence
    | InTimeRequired
    | AlreadySubmitted
    | OutFieldsRequired

  datatype Response =
    | Created
    | Updated
    | Rejected(reason: Rejection)
    /** `save()` failed: Mongoose refuses to cast an Invalid Date. */
    | InternalError

  function StatusCode(r: Response): int {
    match r
    case Created => 201
    case Updated => 200
    case Rejected(_) => 400
    case InternalError => 500
  }

  function Message(r: Response): string {
    match r
    case Created => "In-time marked successfully"
    case Updated => "Attendance submitted successfully"
    case Rejected(InvalidLocation) => "Location data is required and must be numbers"
    case Rejected(OutsideGeofence) => "You are not in the allowed location for attendance"
    case Rejected(InTimeRequired) => "In-time is required"
    case Rejected(AlreadySubmitted) => "Attendance already fully submitted today"
    case Rejected(OutFieldsRequired) => "Out-time, topic, and staff name are required"
    case InternalError => "Internal server error"
  }

  /** The outcome of one request and the store after it. */
  datatype Step = Step(response: Response, store: seq<Record>)

  predicate HasNumericLocation(loc: Option<Location>) {
    loc.Some? && loc.value.latitude.Number? && loc.value.longitude.Number?
  }

  /** The location is well formed and within `AllowedRadius` metres of the
      allowed point. */
  predicate InGeofence(loc: Option<Location>, env: Env) {
    HasNumericLocation(loc)
    && IsWithinRange(loc.value.latitude.value, loc.value.longitude.value,
                     AllowedLat, AllowedLng, AllowedRadius, env.distance)
  }

  /** The lookup filter: owned by `caller`, with an `intime` inside `w`
      (both bounds inclusive). */
  predicate MatchesToday(r: Record, caller: UserId, w: Window) {
    r.studentId == Some(caller) && r.intime.Some? && w.Contains(r.intime.value)
  }

  /** `findOne`: the position of the first record matching the filter. */
  function FindToday(store: seq<Record>, caller: UserId, w: Window): (found: Option<nat>)
    ensures found.Some? ==>
      && found.value < |store|
      && MatchesToday(store[found.value], caller, w)
      && forall j :: 0 <= j < found.value ==> !MatchesToday(store[j], caller, w)
    ensures found.None? ==> forall j :: 0 <= j < |store| ==> !MatchesToday(store[j], caller, w)
  {
    if |store| == 0 then None
    else if MatchesToday(store[0], caller, w) then Some(0)
    else
      match FindToday(store[1..], caller, w)
      case None => None
      case Some(i) => Some(i + 1)
  }

  /** The day's state as `/submit` sees it. */
  datatype DayState = NotStarted | CheckedIn | Completed

  function TodayState(store: seq<Record>, caller: UserId, now: int): DayState {
    match FindToday(store, caller, TodayWindow(now))
    case None => NotStarted
    case Some(i) => if store[i].outtime.Some? then Completed else CheckedIn
  }

  /** The record `/submit` creates: owned by the caller, checked in at `t`,
      nothing else set, created at `now`. */
  function CheckInRecord(caller: UserId, t: int, now: int): Record {
    NewRecord(RecordInit(Some(caller), Some(t), None, None, None, None), now)
  }

  /** POST /attendance/submit.

      Validation runs in a fixed order and every rejection leaves the store
      as it was: a location without numeric coordinates, a location outside
      the geofence, then the branch on today's record. With no record today,
      a check-in instant is required and one record is appended. With an
      incomplete record, check-out instant, topic and staff name are all
      required and are written together onto that record. A completed record
      admits nothing more. */
  function Submit(store: seq<Record>, caller: UserId, now: int, p: Payload, env: Env): (res: Step)
    // no write on any failure path
    ensures !(res.response.Created? || res.response.Updated?) ==> res.store == store
    // location shape first, independent of geofence and store
    ensures !HasNumericLocation(p.location) <==> res.response == Rejected(InvalidLocation)
    ensures HasNumericLocation(p.location) && !InGeofence(p.location, env) <==>
      res.response == Rejected(OutsideGeofence)
    // a write happens only from inside the geofence
    ensures res.response.Created? || res.response.Updated? ==> InGeofence(p.location, env)
    // NotStarted: check-in required, then exactly one record appended
    ensures res.response == Rejected(InTimeRequired) <==>
      InGeofence(p.location, env) && TodayState(store, caller, now) == NotStarted && !Given(p.intime)
    ensures res.response.Created? <==>
      && InGeofence(p.location, env) && TodayState(store, caller, now) == NotStarted
      && Given(p.intime) && env.parseIst(p.intime.value).Some?
    ensures res.response.Created? ==>
      && |res.store| == |store| + 1 && res.store[..|store|] == store
      && var r := res.store[|store|];
         && r.studentId == Some(caller)
         && r.intime == env.parseIst(p.intime.value)
         && r.outtime.None? && r.topic.None? && r.staffName.None?
         && r.createdAt == now
    // Completed is terminal
    ensures res.response == Rejected(AlreadySubmitted) <==>
      InGeofence(p.location, env) && TodayState(store, caller, now) == Completed
    // CheckedIn: all three fields required, then written together
    ensures res.response == Rejected(OutFieldsRequired) <==>
      && InGeofence(p.location, env) && TodayState(store, caller, now) == CheckedIn
      && !(Given(p.outtime) && Given(p.topic) && Given(p.staffName))
    ensures res.response.Updated? <==>
      && InGeofence(p.location, env) && TodayState(store, caller, now) == CheckedIn
      && Given(p.outtime) && Given(p.topic) && Given(p.staffName)
      && env.parseIst(p.outtime.value).Some?
    // a time string the parser refuses fails the save
    ensures res.response == InternalError <==>
      && InGeofence(p.location, env)
      && ((TodayState(store, caller, now) == NotStarted && Given(p.intime)
           && env.parseIst(p.intime.value).None?)
          || (TodayState(store, caller, now) == CheckedIn
              && Given(p.outtime) && Given(p.topic) && Given(p.staffName)
              && env.parseIst(p.outtime.value).None?))
    // the record completed is the one the lookup returned: the first match
    ensures res.response.Updated? ==>
      exists i :: 0 <= i < |store| && FindToday(store, caller, TodayWindow(now)) == Some(i)
        && MatchesToday(store[i], caller, TodayWindow(now))
        && store[i].outtime.None?
        && res.store == store[i := store[i].(outtime := env.parseIst(p.outtime.value),
                                            topic := p.topic, staffName := p.staffName)]
  {
    if !HasNumericLocation(p.location) then
      Step(Rejected(InvalidLocation), store)
    else if !InGeofence(p.location, env) then
      Step(Rejected(OutsideGeofence), store)
    else
      var today := TodayWindow(now);
      match FindToday(store, caller, today)
      case None =>
        if !Given(p.intime) then
          Step(Rejected(InTimeRequired), store)
        else
          (match env.parseIst(p.intime.value)
           case None => Step(InternalError, store)
           case Some(t) => Step(Created, store + [CheckInRecord(caller, t, now)]))
      case Some(i) =>
        if store[i].outtime.Some? then
          Step(Rejected(AlreadySubmitted), store)
        else if !Given(p.outtime) || !Given(p.topic) || !Given(p.staffName) then
          Step(Rejected(OutFieldsRequired), store)
        else
          (match env.parseIst(p.outtime.value)
           case None => Step(InternalError, store)
           case Some(t) =>
             Step(Updated, store[i := store[i].(outtime := Some(t), topic := p.topic,
                                                staffName := p.staffName)]))
  }

  /** GET /attendance/check-today: whether some record of `caller` in
      today's window has an `outtime`. */
  function CheckToday(store: seq<Record>, caller: UserId, now: int): (submitted: bool)
    ensures submitted <==>
      exists i :: 0 <= i < |store| && MatchesToday(store[i], caller, TodayWindow(now))
        && store[i].outtime.Some?
  {
    CompletedIn(store, caller, TodayWindow(now))
  }

  /** Some record of `caller` inside `w` has an `outtime`. */
  function CompletedIn(store: seq<Record>, caller: UserId, w: Window): (found: bool)
    ensures found <==>
      exists i :: 0 <= i < |store| && MatchesToday(store[i], caller, w) && store[i].outtime.Some?
  {
    if |store| == 0 then false
    else if MatchesToday(store[0], caller, w) && store[0].outtime.Some? then true
    else
      var rest := CompletedIn(store[1..], caller, w);
      assert rest ==> exists i :: 0 <= i < |store| && MatchesToday(store[i], caller, w) && store[i].outtime.Some? by {
        if rest {
          var k :| 0 <= k < |store| - 1 && MatchesToday(store[1..][k], caller, w) && store[1..][k].outtime.Some?;
          assert store[k + 1] == store[1..][k];
        }
      }
      rest
  }
}
