/** Properties of `/submit` and `/check-today` over one request and over
    runs of requests: the two-phase round trip, records that only move
    forward, the one-record-per-day invariant and when it holds, and the
    day `dateString` names for a record found by today's lookup. */
module AttendanceProperties {
  import opened Base
  import opened IstTime
  import opened Calendar
  import opened IsoFormat
  import opened Geofence
  import opened AttendanceRecord
  import opened AttendanceRoutes
  import opened ClientClock

  /** A record as `/submit` leaves it: owned and checked in, and either
      open, or completed with a non-empty topic and staff name. */
  predicate WellFormed(r: Record) {
    && r.studentId.Some? && r.intime.Some?
    && (|| (r.outtime.None? && r.topic.None? && r.staffName.None?)
        || (r.outtime.Some? && Given(r.topic) && Given(r.staffName)))
  }

  predicate AllWellFormed(store: seq<Record>) {
    forall i :: 0 <= i < |store| ==> WellFormed(store[i])
  }

  /** `after` is `before`, or `before` completed: `outtime`, `topic` and
      `staffName` written together onto an open record, owner, check-in and
      creation instant untouched. */
  predicate Advances(before: Record, after: Record) {
    || after == before
    || (&& before.outtime.None? && after.outtime.Some?
        && Given(after.topic) && Given(after.staffName)
        && after.studentId == before.studentId && after.intime == before.intime
        && after.createdAt == before.createdAt)
  }

  /** Every request keeps all existing records in place, changes at most
      one of them, and only by completing it; a completed record, in
      particular, never changes again. */
  lemma SubmitOnlyAdvances(store: seq<Record>, caller: UserId, now: int, p: Payload, env: Env)
    ensures var res := Submit(store, caller, now, p, env).store;
      && |store| <= |res| <= |store| + 1
      && (forall j :: 0 <= j < |store| ==> Advances(store[j], res[j]))
      && (forall j, k :: 0 <= j < k < |store| && res[j] != store[j] ==> res[k] == store[k])
  {
    var step := Submit(store, caller, now, p, env);
    if step.response.Updated? {
      var i :| 0 <= i < |store| && MatchesToday(store[i], caller, TodayWindow(now))
        && store[i].outtime.None?
        && step.store == store[i := store[i].(outtime := env.parseIst(p.outtime.value),
                                              topic := p.topic, staffName := p.staffName)];
      assert forall j :: 0 <= j < |store| && j != i ==> step.store[j] == store[j];
    }
  }

  /** A request as the server receives it. */
  datatype Request = Request(caller: UserId, now: int, payload: Payload)

  /** The store after serving `reqs` in order. */
  function Run(store: seq<Record>, reqs: seq<Request>, env: Env): seq<Record>
    decreases |reqs|
  {
    if |reqs| == 0 then store
    else
      var q := reqs[0];
      Run(Submit(store, q.caller, q.now, q.payload, env).store, reqs[1..], env)
  }

  /** Over any run, no record disappears and a completed record keeps its
      value: `outtime` is set at most once, with `topic` and `staffName`. */
  lemma {:induction false} CompletedRecordsAreFrozen(store: seq<Record>, reqs: seq<Request>, env: Env)
    ensures |store| <= |Run(store, reqs, env)|
    ensures forall j :: 0 <= j < |store| && store[j].outtime.Some? ==>
      Run(store, reqs, env)[j] == store[j]
    decreases |reqs|
  {
    if |reqs| > 0 {
      var q := reqs[0];
      var next := Submit(store, q.caller, q.now, q.payload, env).store;
      SubmitOnlyAdvances(store, q.caller, q.now, q.payload, env);
      CompletedRecordsAreFrozen(next, reqs[1..], env);
      forall j | 0 <= j < |store| && store[j].outtime.Some?
        ensures Run(store, reqs, env)[j] == store[j]
      {
        assert Advances(store[j], next[j]);
      }
    }
  }

  /** One request keeps every record well formed. */
  lemma SubmitKeepsWellFormed(store: seq<Record>, caller: UserId, now: int, p: Payload, env: Env)
    requires AllWellFormed(store)
    ensures AllWellFormed(Submit(store, caller, now, p, env).store)
  {
    var res := Submit(store, caller, now, p, env).store;
    SubmitOnlyAdvances(store, caller, now, p, env);
    forall j | 0 <= j < |res| ensures WellFormed(res[j]) {
      if j < |store| {
        assert Advances(store[j], res[j]);
      }
    }
  }

  /** Any run keeps every record well formed: `topic` and `staffName` are
      set exactly when `outtime` is. */
  lemma {:induction false} RunKeepsWellFormed(store: seq<Record>, reqs: seq<Request>, env: Env)
    requires AllWellFormed(store)
    ensures AllWellFormed(Run(store, reqs, env))
    decreases |reqs|
  {
    if |reqs| > 0 {
      var q := reqs[0];
      SubmitKeepsWellFormed(store, q.caller, q.now, q.payload, env);
      RunKeepsWellFormed(Submit(store, q.caller, q.now, q.payload, env).store, reqs[1..], env);
    }
  }

  /** At most one record per student and IST civil day of `intime`. */
  predicate OnePerDay(store: seq<Record>) {
    forall i, j :: 0 <= i < j < |store| && store[i].studentId.Some?
      && store[i].studentId == store[j].studentId
      && store[i].intime.Some? && store[j].intime.Some?
      ==> IstDay(store[i].intime.value) != IstDay(store[j].intime.value)
  }

  /** The check-in time string, when it parses, names an instant on the IST
      day of the request. The client's intended time, its IST wall-clock
      minute, does (`IntendedInstant`); what a browser in India actually
      sends does not between 00:00 and 05:30 IST
      (`IndianBrowserSendsUtcMinute`). */
  predicate CheckInIsToday(p: Payload, now: int, env: Env) {
    Given(p.intime) && env.parseIst(p.intime.value).Some? ==>
      IstDay(env.parseIst(p.intime.value).value) == IstDay(now)
  }

  /** One request keeps one record per student and day, provided its
      check-in instant lies on the request's IST day. */
  lemma SubmitKeepsOnePerDay(store: seq<Record>, caller: UserId, now: int, p: Payload, env: Env)
    requires OnePerDay(store)
    requires CheckInIsToday(p, now, env)
    ensures OnePerDay(Submit(store, caller, now, p, env).store)
  {
    var step := Submit(store, caller, now, p, env);
    var res := step.store;
    SubmitOnlyAdvances(store, caller, now, p, env);
    if step.response.Created? {
      var w := TodayWindow(now);
      assert FindToday(store, caller, w).None?;
      var r := res[|store|];
      forall i | 0 <= i < |store| && store[i].studentId == r.studentId && store[i].intime.Some?
        ensures IstDay(store[i].intime.value) != IstDay(r.intime.value)
      {
        assert !MatchesToday(store[i], caller, w);
      }
      forall i, j | 0 <= i < j < |res| && res[i].studentId.Some?
        && res[i].studentId == res[j].studentId
        && res[i].intime.Some? && res[j].intime.Some?
        ensures IstDay(res[i].intime.value) != IstDay(res[j].intime.value)
      {
        if j < |store| {
          assert res[i] == store[i] && res[j] == store[j];
        } else {
          assert res[i] == store[i] && res[j] == r;
        }
      }
    } else {
      forall i, j | 0 <= i < j < |res| && res[i].studentId.Some?
        && res[i].studentId == res[j].studentId
        && res[i].intime.Some? && res[j].intime.Some?
        ensures IstDay(res[i].intime.value) != IstDay(res[j].intime.value)
      {
        assert Advances(store[i], res[i]) && Advances(store[j], res[j]);
      }
    }
  }

  /** A check-in time string for an earlier day creates a second record on
      that day: the lookup is keyed on the request's day, the stored
      `intime` on the string. */
  lemma BackdatedCheckInDuplicatesDay()
    ensures var yesterday := 1_700_000_000_000 - DayMs;
      var prior := Record(Some("s1"), Some(yesterday), Some(yesterday + 3_600_000),
                        Some("T"), Some("S"), yesterday);
      var env := Env((a, b, c, d) => Meters(0.0), s => Some(yesterday));
      var p := Payload(Some("backdated"), None, None, None,
                       Some(Location(Number(AllowedLat), Number(AllowedLng))));
      var step := Submit([prior], "s1", 1_700_000_000_000, p, env);
      && OnePerDay([prior])
      && step.response == Created
      && !OnePerDay(step.store)
  {
    var now := 1_700_000_000_000;
    var yesterday := now - DayMs;
    var prior := Record(Some("s1"), Some(yesterday), Some(yesterday + 3_600_000),
                      Some("T"), Some("S"), yesterday);
    var env := Env((a, b, c, d) => Meters(0.0), s => Some(yesterday));
    var p := Payload(Some("backdated"), None, None, None,
                     Some(Location(Number(AllowedLat), Number(AllowedLng))));
    assert IstDay(yesterday) == IstDay(now) - 1;
    assert !MatchesToday(prior, "s1", TodayWindow(now));
    assert FindToday([prior], "s1", TodayWindow(now)) == None;
    var step := Submit([prior], "s1", now, p, env);
    assert step.store[1].intime == Some(yesterday);
  }

  /** Every request of a run whose check-in instants lie on their own IST
      day. */
  predicate CheckInsAreToday(reqs: seq<Request>, env: Env) {
    forall k :: 0 <= k < |reqs| ==> CheckInIsToday(reqs[k].payload, reqs[k].now, env)
  }

  /** A run keeps one record per student and day when every check-in
      instant lies on its request's IST day. */
  lemma {:induction false} RunKeepsOnePerDay(store: seq<Record>, reqs: seq<Request>, env: Env)
    requires OnePerDay(store)
    requires CheckInsAreToday(reqs, env)
    ensures OnePerDay(Run(store, reqs, env))
    decreases |reqs|
  {
    if |reqs| > 0 {
      var q := reqs[0];
      assert CheckInIsToday(q.payload, q.now, env);
      SubmitKeepsOnePerDay(store, q.caller, q.now, q.payload, env);
      assert CheckInsAreToday(reqs[1..], env) by {
        forall k | 0 <= k < |reqs| - 1
          ensures CheckInIsToday(reqs[1..][k].payload, reqs[1..][k].now, env)
        {
          assert reqs[1..][k] == reqs[k + 1];
        }
      }
      RunKeepsOnePerDay(Submit(store, q.caller, q.now, q.payload, env).store, reqs[1..], env);
    }
  }

  /** `/check-today` reports a completed day exactly when `/submit` sees
      today's record as completed, as long as there is one record per
      student and day; a completed day is always reported. */
  lemma CheckTodayAgreesWithSubmit(store: seq<Record>, caller: UserId, now: int)
    ensures TodayState(store, caller, now) == Completed ==> CheckToday(store, caller, now)
    ensures OnePerDay(store) ==>
      (CheckToday(store, caller, now) <==> TodayState(store, caller, now) == Completed)
  {
    var w := TodayWindow(now);
    if OnePerDay(store) && CheckToday(store, caller, now) {
      var i :| 0 <= i < |store| && MatchesToday(store[i], caller, w) && store[i].outtime.Some?;
      var k := FindToday(store, caller, w).value;
      assert k == i;
    }
  }

  /** Two submissions on one IST day complete the day: the first (check-in
      only, on that day) creates the record and `/check-today` still says
      false; the second (check-out instant, topic, staff name) completes
      exactly that record and `/check-today` says true; a third, whatever it
      carries, writes nothing and, from inside the geofence, is refused as
      already submitted. */
  lemma TwoPhaseRoundTrip(store: seq<Record>, caller: UserId, now1: int, now2: int, now3: int,
                          p1: Payload, p2: Payload, p3: Payload, env: Env)
    requires TodayState(store, caller, now1) == NotStarted
    requires IstDay(now2) == IstDay(now1) && IstDay(now3) == IstDay(now1)
    requires InGeofence(p1.location, env) && Given(p1.intime)
    requires env.parseIst(p1.intime.value).Some?
    requires IstDay(env.parseIst(p1.intime.value).value) == IstDay(now1)
    requires InGeofence(p2.location, env)
    requires Given(p2.outtime) && Given(p2.topic) && Given(p2.staffName)
    requires env.parseIst(p2.outtime.value).Some?
    ensures var s1 := Submit(store, caller, now1, p1, env);
      var s2 := Submit(s1.store, caller, now2, p2, env);
      var s3 := Submit(s2.store, caller, now3, p3, env);
      && s1.response == Created && StatusCode(s1.response) == 201
      && !CheckToday(s1.store, caller, now2)
      && s2.response == Updated && StatusCode(s2.response) == 200
      && CheckToday(s2.store, caller, now3)
      && |s2.store| == |store| + 1 && s2.store[..|store|] == store
      && s2.store[|store|] == Record(Some(caller), env.parseIst(p1.intime.value),
                                     env.parseIst(p2.outtime.value), p2.topic, p2.staffName, now1)
      && s3.store == s2.store
      && (InGeofence(p3.location, env) ==> s3.response == Rejected(AlreadySubmitted))
  {
    var w := TodayWindow(now1);
    assert TodayWindow(now2) == w && TodayWindow(now3) == w;
    var s1 := Submit(store, caller, now1, p1, env);
    assert s1.response == Created;
    var r := s1.store[|store|];
    assert MatchesToday(r, caller, w);
    assert FindToday(s1.store, caller, w) == Some(|store|) by {
      assert forall j :: 0 <= j < |store| ==> s1.store[j] == store[j];
    }
    assert !CheckToday(s1.store, caller, now2);
    var s2 := Submit(s1.store, caller, now2, p2, env);
    assert s2.response == Updated;
    var i :| 0 <= i < |s1.store| && MatchesToday(s1.store[i], caller, w)
      && s1.store[i].outtime.None?
      && s2.store == s1.store[i := s1.store[i].(outtime := env.parseIst(p2.outtime.value),
                                                topic := p2.topic, staffName := p2.staffName)];
    assert i == |store|;
    assert s2.store[..|store|] == store;
    assert MatchesToday(s2.store[|store|], caller, w);
    assert CheckToday(s2.store, caller, now3);
    assert FindToday(s2.store, caller, w) == Some(|store|) by {
      assert forall j :: 0 <= j < |store| ==> s2.store[j] == store[j];
    }
  }

  /** Sending the check-in alone again while checked in is refused as a
      missing check-out field, and writes nothing. */
  lemma CheckInResubmissionRefused(store: seq<Record>, caller: UserId, now: int, p: Payload, env: Env)
    requires TodayState(store, caller, now) == CheckedIn
    requires InGeofence(p.location, env) && !Given(p.outtime)
    ensures Submit(store, caller, now, p, env) == Step(Rejected(OutFieldsRequired), store)
  {
  }

  /** The `dateString` of a record found by today's lookup names the UTC
      date of its `intime`, which is the IST day of the lookup window except
      in its first five and a half hours, where it is the day before. */
  lemma DateStringOfTodaysRecord(r: Record, now: int)
    requires r.intime.Some? && TodayWindow(now).Contains(r.intime.value)
    requires FirstPlainIsoTime <= r.intime.value <= LastPlainIsoTime
    ensures ParseIsoDate(DateString(r).value).Some?
    ensures var named := DaysFromCivil(ParseIsoDate(DateString(r).value).value);
      && (r.intime.value - TodayWindow(now).start < IstOffsetMs ==> named == IstDay(now) - 1)
      && (r.intime.value - TodayWindow(now).start >= IstOffsetMs ==> named == IstDay(now))
  {
    var t := r.intime.value;
    var w := TodayWindow(now);
    UtcDayLagsIstDay(t);
    assert IstDay(t) == IstDay(now);
    assert (t + IstOffsetMs) % DayMs == t - w.start by {
      assert t + IstOffsetMs == IstDay(now) * DayMs + (t - w.start);
    }
  }

  /** 2024-05-01 02:00 IST is 2024-04-30 20:30 UTC: a record checked in then
      is found by the lookup of IST day 2024-05-01, two hours into it, yet
      its `dateString` reads 2024-04-30. */
  lemma EarlyMorningDateString(r: Record)
    requires r.intime == Some(1_714_509_000_000)
    ensures IstDay(r.intime.value) == DaysFromCivil(Date(2024, 5, 1))
    ensures r.intime.value - TodayWindow(r.intime.value).start == 2 * 3_600_000
    ensures ParseIsoDate(DateString(r).value) == Some(Date(2024, 4, 30))
  {
    var t := r.intime.value;
    DaysOfMay2024();
    assert UtcDay(t) == 19843 && IstDay(t) == 19844;
    var d := ParseIsoDate(DateString(r).value).value;
    DaysFromCivilInjective(d, Date(2024, 4, 30));
  }

  lemma DaysOfMay2024()
    ensures DaysFromCivil(Date(2024, 4, 30)) == 19843
    ensures DaysFromCivil(Date(2024, 5, 1)) == 19844
  {
  }

  /** A browser in India that checks in before 05:30 IST sends an instant
      on the previous IST day. Its check-in is accepted, but the check-out
      later that IST day (which re-sends the saved check-in string) finds no
      record today, so it creates a second record instead of completing the
      first, and the day is never reported complete. */
  lemma IndianBrowserCheckOutCreatesSecondRecord(store: seq<Record>, caller: UserId, now1: int, now2: int,
                                                 p1: Payload, p2: Payload, env: Env)
    requires TodayState(store, caller, now1) == NotStarted
    requires IstDay(now2) == IstDay(now1)
    requires (now1 + IstOffsetMs) % DayMs < IstOffsetMs
    requires InGeofence(p1.location, env) && InGeofence(p2.location, env)
    requires Given(p1.intime) && env.parseIst(p1.intime.value) == Some(SentInstant(now1, -330))
    requires p2.intime == p1.intime
    ensures var s1 := Submit(store, caller, now1, p1, env);
      var s2 := Submit(s1.store, caller, now2, p2, env);
      && s1.response == Created
      && s2.response == Created
      && |s2.store| == |store| + 2
      && !CheckToday(s2.store, caller, now2)
  {
    var w := TodayWindow(now1);
    assert TodayWindow(now2) == w;
    var t := SentInstant(now1, -330);
    IndianBrowserSendsUtcMinute(now1);
    assert !w.Contains(t);
    var s1 := Submit(store, caller, now1, p1, env);
    assert FindToday(s1.store, caller, w) == None by {
      forall i | 0 <= i < |s1.store| ensures !MatchesToday(s1.store[i], caller, w) {
        if i < |store| {
          assert s1.store[i] == store[i];
        }
      }
    }
    var s2 := Submit(s1.store, caller, now2, p2, env);
    forall i | 0 <= i < |s2.store| ensures !MatchesToday(s2.store[i], caller, w) {
      if i < |s1.store| {
        assert s2.store[i] == s1.store[i];
      }
    }
  }

  /** With the intended client time, the same two requests check in and
      then complete that record, and the day is reported complete. */
  lemma IntendedClientCompletesDay(store: seq<Record>, caller: UserId, now1: int, now2: int,
                                   p1: Payload, p2: Payload, env: Env)
    requires TodayState(store, caller, now1) == NotStarted
    requires IstDay(now2) == IstDay(now1)
    requires InGeofence(p1.location, env) && InGeofence(p2.location, env)
    requires Given(p1.intime) && env.parseIst(p1.intime.value) == Some(IntendedInstant(now1))
    requires Given(p2.outtime) && Given(p2.topic) && Given(p2.staffName)
    requires env.parseIst(p2.outtime.value) == Some(IntendedInstant(now2))
    ensures var s1 := Submit(store, caller, now1, p1, env);
      var s2 := Submit(s1.store, caller, now2, p2, env);
      && s1.response == Created
      && s2.response == Updated
      && |s2.store| == |store| + 1
      && CheckToday(s2.store, caller, now2)
  {
    TwoPhaseRoundTrip(store, caller, now1, now2, now2, p1, p2, p2, env);
  }
}
