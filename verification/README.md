# Attendance engine: a Dafny model

This project models the server-side attendance engine of a student
attendance tracker. A student submits attendance twice a day from inside a
fixed geofence. The first submission checks in with a local IST date-time.
The second checks out with a date-time, a topic and a staff name. A
second route tells the calling student whether their own attendance for
today is complete; the student form calls it to block a resubmission.

The engine lives in `server/routes/attendance.js` and stores documents of
the shape in `server/models/Attendance.js`. The model has these parts:

- `AttendanceRoutes.Submit` is `POST /attendance/submit`. It is a pure
  function from a store, the caller's id, the request instant, the request
  body and the collaborators it calls, to a response and the new store. It
  models the per-student, per-day state machine: no record today
  (`NotStarted`), checked in (`CheckedIn`), or completed (`Completed`).
- `AttendanceRoutes.CheckToday` is `GET /attendance/check-today`.
- `IstTime.TodayWindow` is the IST day window
  `startOf('day')`..`endOf('day')` in Asia/Kolkata. Instants are integer
  milliseconds and IST is a fixed +19,800,000 ms offset.
- `AttendanceRecord.Record` is the stored document. `AttendanceRecord.DateString`
  is the `dateString` virtual. `Calendar` and `IsoFormat` give the
  proleptic Gregorian calendar and the `YYYY-MM-DD` rendering that
  `toISOString().slice(0, 10)` produces.
- `AttendanceProperties` holds the properties that span requests: the
  two-phase round trip, records that only move forward, the
  one-record-per-day invariant, agreement of the two routes, and the UTC/IST
  skew of `dateString`.

These are parameters rather than code:

- The store is a `seq<Record>` in natural order. `findOne` returns the
  first matching document.
- The clock reading is the integer `now`.
- The haversine distance is an `Env.distance` function that returns metres
  or NaN. Only the comparison `distance <= 100` is modelled.
- `moment.tz(s, 'Asia/Kolkata')` is an `Env.parseIst` function. It returns
  an instant, or `None` for an Invalid Date.

Behaviour of the code worth noting:

- Re-sending only the check-in while checked in is refused with "Out-time,
  topic, and staff name are required" (`OutFieldsRequired`). It is not an
  already-completed rejection. See `CheckInResubmissionRefused`.
- The out-of-range message is the fixed text "You are not in the allowed
  location for attendance". The server does not report the distance; only
  the client does.
- The day window is closed, 00:00:00.000 to 23:59:59.999 IST, with `$gte`
  and `$lte`. With millisecond instants this is the same set as a half-open
  window that ends at the next midnight.
- An unparseable date-time string is not a separate 400 error. The Invalid
  Date fails Mongoose's cast on `save()`, so the request ends in the 500
  catch-all with nothing written.
- "One record per student and civil day" is not enforced by the code. The
  lookup is keyed on the day of the request, but the stored `intime` comes
  from the client's string. The invariant holds when every check-in instant
  lies on its request's IST day (`SubmitKeepsOnePerDay`,
  `RunKeepsOnePerDay`). That premise is an assumption about the client, and
  the shipped client does not meet it between 00:00 and 05:30 IST (see
  "## Findings"). A back-dated string breaks the invariant
  (`BackdatedCheckInDuplicatesDay`).
- The student client's time strings are modelled in `ClientClock`: the
  instant the server stores for the string a browser sends, as a function
  of the clock reading and the browser's `getTimezoneOffset()`.

## Model

| member | source | states |
|---|---|---|
| `IstTime.TodayWindow` | server/routes/attendance.js:44-45 | The window starts at or before `now` and ends at or after it. It spans exactly 86,399,999 ms and starts at an IST midnight. It contains an instant iff that instant is on the same IST civil day as `now`. |
| `IstTime.UtcDayLagsIstDay` | server/models/Attendance.js:14 | The UTC day of an instant is the IST day minus one in the first 5 h 30 min of an IST day, and the IST day otherwise. |
| `AttendanceRecord.NewRecord` | server/models/Attendance.js:3-10 | A new document keeps every supplied field. `createdAt` is the supplied value, or the construction instant when none is supplied. |
| `AttendanceRecord.DateString` | server/models/Attendance.js:13-15 | `dateString` is null exactly when `intime` is absent. Otherwise it has 10 characters. For instants in years 0 to 9999 it reads back as a valid calendar date whose day number is the UTC day of `intime`. It is a function of the record, not a stored field. |
| `AttendanceRecord.DateStringRendersUtcDate` | server/models/Attendance.js:14 | For every `intime`, `dateString` is the first ten characters of the ISO rendering of the valid date whose day number is the UTC day of `intime`. |
| `AttendanceRecord.PlainIsoYears` | server/models/Attendance.js:14 | Days from 0000-01-01 to 9999-12-31 convert to years 0 to 9999, where the ISO year field has four plain digits. |
| `Calendar.CivilFromDays` | server/models/Attendance.js:14 | The calendar date of a day number is a valid Gregorian date: month 1 to 12, and day within the month's length, leap Februaries included. Its day number converts back to the input. |
| `Calendar.CivilRoundTrip` | server/models/Attendance.js:14 | Converting a valid date to its day number and back gives the same date. |
| `Calendar.DaysFromCivilInjective` | server/models/Attendance.js:14 | Two valid dates have the same day number iff they are the same date, so the date `dateString` names is unique. |
| `Calendar.UnixEpoch` | server/models/Attendance.js:14 | Day number 0 is 1970-01-01, the day `toISOString` renders for instant 0. |
| `Calendar.NextDate` | server/models/Attendance.js:14 | The day after a valid date is a valid date. |
| `Calendar.NextDateIsNextDay` | server/models/Attendance.js:14 | Consecutive calendar dates have consecutive day numbers, across month ends, year ends and leap Februaries. |
| `Calendar.NextDayIsNextDate` | server/models/Attendance.js:14 | A valid date has the day number after that of `d` iff it is the date after `d`. |
| `Calendar.YearLength` | server/models/Attendance.js:14 | A March-to-February year has 366 days when the February that ends it has a 29th, and 365 otherwise. |
| `Calendar.LeapYearPeriod` | server/models/Attendance.js:14 | The Gregorian leap-year rule repeats every 400 years. |
| `IsoFormat.PadDigitsRoundTrip` | server/models/Attendance.js:14 | Zero-padding a number below 10^w gives exactly w digits that read back as the number. |
| `IsoFormat.IsoDateRoundTrip` | server/models/Attendance.js:14 | For a valid date in years 0 to 9999, the first ten characters of its ISO rendering parse back as `YYYY-MM-DD` to that date. |
| `Geofence.IsWithinRange` | server/routes/attendance.js:21 | True iff the distance is a number no larger than the radius; a NaN distance gives false. |
| `AttendanceRoutes.FindToday` | server/routes/attendance.js:48-51 | The lookup returns the first record that belongs to the caller and has an `intime` inside the closed window. No earlier record matches. It finds nothing iff no record matches. |
| `AttendanceRoutes.Submit` | server/routes/attendance.js:30-85 | The checks run in order and every path ends in exactly one outcome. A non-numeric or missing location gives 400 `InvalidLocation`, whatever the store and distance. A numeric location is rejected with 400 `OutsideGeofence` iff the distance is NaN or more than 100 m. With no record today, a missing or empty check-in gives 400 `InTimeRequired`. Otherwise one record is appended, owned by the caller, with the parsed `intime`, no check-out fields and `createdAt = now` (201). A completed record gives 400 `AlreadySubmitted`. An open record needs all of check-out, topic and staff name, else 400 `OutFieldsRequired`. When all three are given, the record the lookup returned (the first match) gets all three and every other record is unchanged (200). An unparseable time string gives 500. Every response other than 201/200 leaves the store unchanged. |
| `AttendanceRoutes.CheckToday` | server/routes/attendance.js:88-104 | The result is true iff some record of the caller with `intime` in today's window has an `outtime`. |
| `AttendanceProperties.SubmitOnlyAdvances` | server/routes/attendance.js:53-79 | A submission never removes or reorders records and adds at most one. It changes at most one existing record, and only by completing an open one. Owner, `intime` and `createdAt` stay the same, and `outtime`, topic and staff name are set together. |
| `AttendanceProperties.CompletedRecordsAreFrozen` | server/routes/attendance.js:66-68 | Over any sequence of submissions, no record disappears and a record that has an `outtime` never changes again. So `outtime` is set at most once. |
| `AttendanceProperties.SubmitKeepsWellFormed` | server/routes/attendance.js:57-76 | If every record is owned and checked in, with its three check-out fields either all unset or all set (topic and staff name non-empty), one submission keeps it that way. |
| `AttendanceProperties.RunKeepsWellFormed` | server/routes/attendance.js:57-76 | The same holds over any sequence of submissions. |
| `AttendanceProperties.SubmitKeepsOnePerDay` | server/routes/attendance.js:44-63 | If the store has at most one record per student and IST day of `intime`, and the check-in instant lies on the request's IST day, one submission keeps that. |
| `AttendanceProperties.RunKeepsOnePerDay` | server/routes/attendance.js:44-63 | The same holds over any sequence of such submissions. |
| `AttendanceProperties.BackdatedCheckInDuplicatesDay` | server/routes/attendance.js:48-60 | Start from one completed record for yesterday. A check-in today whose string parses to yesterday is accepted (201) and leaves two records for yesterday. |
| `AttendanceProperties.CheckTodayAgreesWithSubmit` | server/routes/attendance.js:88-99 | A completed record for today always makes `/check-today` true. With at most one record per student and day, `/check-today` is true iff `/submit` sees today as `Completed`. |
| `AttendanceProperties.TwoPhaseRoundTrip` | server/routes/attendance.js:53-79 | Take a student with no record today. A valid check-in on that day gives 201, and `/check-today` stays false. A valid check-out gives 200, completes that same record and nothing else, and `/check-today` becomes true. A third submission that day writes nothing, and from inside the geofence it is 400 `AlreadySubmitted`. |
| `AttendanceProperties.CheckInResubmissionRefused` | server/routes/attendance.js:70-72 | While checked in, a submission from inside the geofence without a check-out (such as the check-in alone again) gives 400 `OutFieldsRequired` and writes nothing. |
| `AttendanceProperties.DateStringOfTodaysRecord` | server/models/Attendance.js:14 | Take a record found by today's lookup, with `intime` in years 0 to 9999. Its `dateString` names the IST day before the window's day when `intime` falls in the first 5 h 30 min of the window, and the window's own day otherwise. |
| `ClientClock.IntendedInstant` | client/src/components/StudentForm.jsx:68-75 | The instant the client means to send, its IST wall-clock minute read back as IST, is `now` truncated to the minute and lies on the IST day of `now`. |
| `ClientClock.MinuteDay` | client/src/components/StudentForm.jsx:74 | Truncating an instant to its minute keeps it on its IST day and its UTC day. |
| `ClientClock.UtcBrowserSendsIntended` | client/src/components/StudentForm.jsx:68-75 | A browser whose `getTimezoneOffset()` is 0 sends exactly the intended instant. |
| `ClientClock.IndianBrowserSendsUtcMinute` | client/src/components/StudentForm.jsx:68-75 | A browser in India (offset -330) sends an instant 5 h 30 min before the intended one, on the UTC day of the clock reading; that is the previous IST day iff the reading is in the first 5 h 30 min of an IST day. |
| `AttendanceProperties.IndianBrowserCheckOutCreatesSecondRecord` | server/routes/attendance.js:48-63 | Take a student with no record today, and two requests from inside the geofence. A check-in before 05:30 IST from a browser in India is accepted (201), and the check-out later that IST day, which re-sends the same check-in string, also creates a record (201); the store grows by two and `/check-today` stays false. |
| `AttendanceProperties.IntendedClientCompletesDay` | server/routes/attendance.js:53-79 | With the intended client time, the same check-in and check-out give 201 then 200, the store grows by one, and `/check-today` becomes true. |
| `AttendanceProperties.EarlyMorningDateString` | server/models/Attendance.js:14 | A check-in at 2024-05-01 02:00 IST falls in the window of 2024-05-01, two hours after its start. Its `dateString` reads 2024-04-30. |

## Left out

- Documents with an explicit `null` in a field are not modelled: an `Option` field cannot tell a stored `null` from an absent field. `/check-today` filters with `outtime: { $exists: true }`, which a `null` `outtime` would match, while `/submit` treats it as open. Neither route writes `null`, so every store these routes produce is covered.
- Coordinates that `JSON.parse` turns into an infinity (a literal such as `1e400`) pass the `typeof` test but have no real value in the model. The haversine of an infinity is NaN, the same outcome as a number coordinate whose distance is `NotANumber`.
- The haversine arithmetic (server/routes/attendance.js:9-20) is floating-point trigonometry. It is the `Env.distance` parameter; only `distance <= radius` is modelled, with NaN comparing false. The allowed centre and the 100 m radius are constants.
- `moment.tz` parsing of local date-time strings belongs to a foreign library. It is the `Env.parseIst` parameter.
- Mongoose and MongoDB I/O are left out. The store is a value, and storage failures other than the Invalid Date cast are not modelled. The 500 catch-all appears only for that cast.
- The check-then-act race between `findOne` and `save` involves concurrency, which this sequential model does not have.
- Each request reads the clock up to three times: lines 44, 45 and 57. The model uses one `now` for all of them, so a request that straddles IST midnight is not modelled.
- Asia/Kolkata has used +05:30 only since 1945-10-15. Earlier instants, where moment-timezone would apply historical offsets, are modelled with +05:30 as well.
- Instants outside the JavaScript `Date` range (±8.64e15 ms) are not modelled. There `toISOString` throws.
- MongoDB does not promise natural order. `findOne` is modelled as returning the first match in the store's sequence.
- Request-body members are modelled as strings (or missing). Numbers or objects in `intime`, `topic` and the other text fields, and Mongoose's casting of them, are not modelled.
- Express routing, the `auth` middleware, roles and app setup are left out. The caller id is a parameter. These two routes do not check the role.
- The React components are UI and are left out, including their copies of the distance check. Only the time strings the student client sends are modelled (`ClientClock`), because the server stores instants read from them. `moment.tz` reading such a string as IST wall-clock time is assumed, as in `Env.parseIst`.
- `server/models/User.js` is a schema with no logic.
- Record listing, pagination and Excel export are left out. The dashboard calls `/attendance/records` and `/attendance/export`, but those routes are not part of this model. ExcelJS is imported in the routes file but not used there.

## Findings

| source | as written | input that shows it | evidently intended | confidence | as-written member | corrected member |
|---|---|---|---|---|---|---|
| client/src/components/StudentForm.jsx:68-75 | The clock is shifted by `istOffset + getTimezoneOffset()` minutes and rendered with `toISOString`. In a browser in India the two offsets cancel, so the string is the UTC wall-clock minute, which the server reads as IST and stores 5 h 30 min early. The same code is at client/src/components/MarkInComponent.jsx:25-31. | A browser in India checks in at 2024-05-01 03:00 IST and checks out at 04:00 IST: both requests create a record (201, 201), and the day is never reported complete. | The string is the IST wall-clock minute (a shift by `istOffset` alone), so the stored instant is the check-in time truncated to the minute. | not executed | `AttendanceProperties.IndianBrowserCheckOutCreatesSecondRecord` | `AttendanceProperties.IntendedClientCompletesDay` |
