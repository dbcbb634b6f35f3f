# ClassSync attendance core in Dafny

This project models the class-session lifecycle of the ClassSync attendance
backend and proves properties about it. The three session operations are covered:

- `startSession`: the schedule check against the nested weekly timetable,
  superseding the teacher's earlier sessions, and the new session with its
  OTP and QR token.
- `getActiveSession`.
- `endSession`: absentee reconciliation, archiving to the class history and
  deletion of the live session.

The model also covers:

- the seeding script's timetable builder and historical records;
- the duplicate-email guard of `register`;
- the password gate and student device (MAC address) binding of `login`;
- the duplicate-attendance diagnostic;
- the period toggle and submit logic of the on-duty (OD) application form.

The database is a value `Records.Db` with one sequence per collection, kept
in storage order. The controllers are pure functions. `Sessions.StartSession`
and `Sessions.EndSession` take a request and the store and return a pair
`(Response, Db)`, where a `Response` is either `Success(status, body)` or
`Failure(status, message)`. `Auth.Register` and `Auth.Login` work on the
user collection alone: they take a `seq<User>` and return a `Response` with
the updated sequence. `Sessions.GetActiveSession` reads the session
collection and returns an `Option<Session>`, which the route sends back as
the document or `null` with status 200. Parameters stand in for the clock, the random
sources, password comparison and token signing. The current time is a
`LocalNow`: weekday name, hour, minute and an abstract timestamp. The OTP is
drawn as an integer below 9000, and the QR token from 16 random bytes.

Modules:

- `Common`: options, responses, identifiers, `NoDuplicates`.
- `Clock`: decimal rendering, `padStart`, "HH:MM" strings, JavaScript string
  ordering (`LexLess`) and the inclusive time window.
- `Credentials`: OTP and lower-case hex QR token.
- `Timetable`: routines, the `$unwind`/`$match` pipeline as `Unwind`, and
  the first-match search.
- `Records`: users, sessions, attendance rows, histories, the store.
- `Sessions`: the three session controllers.
- `Seed`: the seeding script.
- `Auth`: register and login.
- `Dupes`: the duplicate tally.
- `OdApply`: the OD form.

Behaviour the model reproduces as the code has it, even where the comments
or the surrounding design suggest otherwise:

- `presentCount` is the number of attendance rows of the session, of any
  status and with repeats. It is not the number of distinct present
  students (backend/controllers/sessionController.js:117-121, 149).
  `Sessions.EndSessionCountsAddUp` states the extra assumptions under which
  present plus absent equals the enrollment.
- Enrollment is every student of the session's section. The department is
  not consulted (backend/controllers/sessionController.js:109-114).
- `endSession` never looks at `isActive`. A session that a later
  `startSession` superseded can still be ended and archived
  (`Sessions.SupersededSessionCanStillBeEnded`).
- The archive reuses the session's id. If an archive with that id already
  exists, the insert fails with a duplicate-key error and the reply is 500.
  This happens for the inactive sessions the seeding script creates, since
  each already has its archive. At that point the absent rows have already
  been written, and the live session is not deleted.
- `startSession` supersedes earlier active sessions without running any
  reconciliation for them.
- The archives of the past semesters always count one present and no
  absent, whatever their attendance row says (`Seed.PastArchiveIgnoresStatus`).

## Model

| member | source | states |
|---|---|---|
| Clock.FormatTime | backend/controllers/sessionController.js:17-19 | the padded current time is a well-formed 5-character "HH:MM" whose hour and minute are the inputs and whose minute of day is 60·hour + minute |
| Clock.TimeOrder | backend/controllers/sessionController.js:37-40 | for well-formed "HH:MM" strings, JavaScript's string `<` agrees with the order of minutes of the day |
| Clock.LexLess | backend/controllers/sessionController.js:39 | JavaScript's string `<`: a string is never below itself, so the order is strict |
| Clock.InWindow | backend/controllers/sessionController.js:39 | `now >= start && now <= end` on well-formed "HH:MM" strings holds exactly when start ≤ now ≤ end in minutes, inclusive at both ends, so a minute where one window ends and the next starts passes both |
| Timetable.Unwind | backend/controllers/sessionController.js:25-35 | the unwound records are exactly the (routine, day, period) triples of the stored routines |
| Timetable.MatchPeriod | backend/controllers/sessionController.js:25-40 | no match exactly when no record has the weekday, caller, subject and a window containing now; otherwise the match is the first such record in unwind order |
| Timetable.FirstMatchIsUnique | backend/controllers/sessionController.js:37-40 | when at most one record qualifies, the first match is that record |
| Credentials.Otp | backend/controllers/sessionController.js:60 | the OTP is 4 decimal digits without a leading zero, reading as 1000 + draw, within [1000, 9999] |
| Credentials.HexRoundTrip | backend/controllers/sessionController.js:61 | decoding the hex rendering of bytes gives the bytes back |
| Credentials.QrToken | backend/controllers/sessionController.js:61 | the QR code is 32 lower-case hex characters that decode to the 16 random bytes |
| Sessions.Supersede | backend/controllers/sessionController.js:54-58 | afterwards the teacher has no active session; the teacher's active sessions change in `isActive` (to false) and `endTime` only; all others are untouched |
| Sessions.Launch | backend/controllers/sessionController.js:54-73 | after superseding, the new active session is appended: ids are kept, other teachers' and the teacher's inactive sessions are untouched, the teacher's active ones are closed at the given time, and the new session is the teacher's only active one |
| Sessions.LaunchKeepsOneActive | backend/controllers/sessionController.js:54-73 | superseding then appending keeps at most one active session per teacher |
| Sessions.NewSession | backend/controllers/sessionController.js:60-73 | the created session belongs to the caller, is active, carries the request's subject, section, BSSID and SSID, links the matched routine, and has a valid OTP and a QR token decoding to the random bytes |
| Sessions.StartSession | backend/controllers/sessionController.js:8-75 | 400 with the subject/time/day message and an untouched store exactly when no period matches; otherwise 201 with a new active session of the caller linked to the matched routine, with a valid OTP and QR code, appended after superseding the caller's active sessions, other teachers' sessions and other collections unchanged |
| Sessions.StartSucceedsIffScheduled | backend/controllers/sessionController.js:25-46 | with well-formed period times, `startSession` succeeds exactly when a period of the caller for the subject on the weekday has start ≤ now ≤ end in minutes |
| Sessions.StartSessionKeepsOneActive | backend/controllers/sessionController.js:54-73 | at most one active session per teacher is preserved |
| Sessions.StartSessionKeepsUniqueIds | backend/controllers/sessionController.js:63-73 | with a fresh id, session ids stay unique |
| Sessions.GetActiveSession | backend/controllers/sessionController.js:168-175 | nothing exactly when the teacher has no active session; otherwise an active session of that teacher from the store |
| Sessions.GetActiveFindsTheActiveSession | backend/controllers/sessionController.js:170 | under the one-active invariant the lookup returns the teacher's only active session |
| Sessions.StartThenGetActive | backend/controllers/sessionController.js:54-75 | right after a successful start, the active-session lookup returns the new session |
| Sessions.SessionIndex | backend/controllers/sessionController.js:94-97 | the lookup finds nothing exactly when no session has the id, and otherwise a session with that id |
| Sessions.Enrolled | backend/controllers/sessionController.js:109-114 | the enrolled ids are exactly the ids of users with role student in the section, without repeats when user ids are unique |
| Sessions.RowsOf | backend/controllers/sessionController.js:117-119 | the session's attendance rows: every row of that session, with its multiplicity, and no row of another session |
| Sessions.AbsentRowsFor | backend/controllers/sessionController.js:117-133 | the inserted rows are absent, manual and verified rows of the session; their students are exactly the enrolled students named by no row of the session, one row each |
| Sessions.EndSession | backend/controllers/sessionController.js:90-163 | 404 or 403 with the store untouched; otherwise absent rows appended; with an archive already present 500 and the session kept; else 200 with an archive under the session's id, presentCount = number of the session's rows, absentCount = number of absentees, start = createdAt, end = now, and the live session deleted |
| Sessions.RemoveAt | backend/controllers/sessionController.js:154 | deleting the session at a position leaves one session fewer, the others in their order |
| Sessions.EndSessionTwiceNotFound | backend/controllers/sessionController.js:94-154 | after a successful end, ending the same id again is 404 |
| Sessions.EndSessionKeepsInvariants | backend/controllers/sessionController.js:136-154 | unique session ids and one active session per teacher survive every outcome |
| Sessions.SupersededSessionCanStillBeEnded | backend/controllers/sessionController.js:94-154 | a session superseded by a later start is inactive yet still found and owned; when it has no archive yet, ending it succeeds and archives it under its own id for the caller |
| Sessions.EndSessionCountsAddUp | backend/controllers/sessionController.js:121-150 | when each row of the session is from a different enrolled student, presentCount + absentCount equals the number of enrolled students |
| Sessions.EndKeepsOneRowPerStudent | backend/controllers/sessionController.js:117-133 | with unique user ids, `endSession` keeps "one attendance row per student" for every session, since it writes rows only for students with no row of the ended session, one each |
| Seed.SlotFacts | backend/scripts/seed.js:28-35 | each of the six slots is a well-formed "HH:MM" window with start before end, ending no later than the next slot starts |
| Seed.SlotsAreOrdered | backend/scripts/seed.js:28-35 | any earlier slot ends no later than any later slot starts |
| Seed.DeptSubjects | backend/scripts/seed.js:83-87 | each department has six pairwise distinct subjects |
| Seed.SeedPeriods | backend/scripts/seed.js:96-108 | six periods; slot s is period s + 1 with the slot's window and subject, taught by the first teacher in even slots and the second in odd ones |
| Seed.SeedTimetable | backend/scripts/seed.js:93-112 | Monday to Saturday in order, six periods a day; slot s is period s + 1 with the slot's window, subject s and teacher s mod 2 |
| Seed.SeedRoutines | backend/scripts/seed.js:89-121 | one routine per department, in order, with its store id, department, batch 2022-2026, semester 3, class 2 and the seeded timetable; every period's subject and teacher belong to that department |
| Seed.SeedDepartments | backend/scripts/seed.js:83-91 | the three departments in order, each with its routine id, its two teachers and six distinct subjects |
| Seed.SeedDepartmentsAreUnambiguous | backend/scripts/seed.js:43-61 | separate teacher accounts per department make the seeded departments unambiguous |
| Seed.SeedSlotsAreOrdered | backend/scripts/seed.js:98-110 | within a seeded day every period is a well-formed window with start before end, and an earlier period ends no later than a later one starts |
| Seed.SlotBoundary | backend/scripts/seed.js:28-35 | outside the lunch break, a slot ends at the very time the next starts, and that minute passes the window test of both slots |
| Seed.SeedIsWellFormed | backend/scripts/seed.js:93-112 | every period bound of the seeded routines is a valid "HH:MM" time, which is what `Sessions.StartSucceedsIffScheduled` assumes |
| Seed.SeededMatchIsUnique | backend/scripts/seed.js:99-108 | on the seeded timetable a teacher has at most one period of a subject on a given day |
| Seed.SeededMatchIsTheQualifyingPeriod | backend/scripts/seed.js:99-108 | on the seeded timetable the schedule matcher returns the one qualifying period |
| Seed.RecentTriple | backend/scripts/seed.js:140-196 | the session, its single attendance row and its archive share one id; the session is inactive; the archive counts (1,0) for a present row and (0,1) for an absent one; the row is verified only when present |
| Seed.RecentHistory | backend/scripts/seed.js:132-198 | six triples per past day that is not a Sunday, each with its id shared, inactive, and counts summing to one that agree with the row |
| Seed.PastSemester | backend/scripts/seed.js:205-233 | one row and archive per class, sharing the dummy id, subject i mod 6, the semester, a verified row, and counts (1,0) regardless of the row's status |
| Seed.PastSemesters | backend/scripts/seed.js:200-235 | fifty classes for semester 1 followed by fifty for semester 2 |
| Seed.PastArchiveIgnoresStatus | backend/scripts/seed.js:213-233 | an absent past-semester row still has an archive counting it present |
| Auth.FindByEmail | backend/controllers/authController.js:53 | the lookup finds nothing exactly when no account has the email, and otherwise an account with it |
| Auth.Register | backend/controllers/authController.js:11-44 | an existing email gives 400 "User already exists" and no new account; otherwise 201 with exactly one appended account, no bound device, and a token for the new id |
| Auth.RegisterKeepsEmailsUnique | backend/controllers/authController.js:15-28 | registering keeps emails unique |
| Auth.Login | backend/controllers/authController.js:49-85 | unknown email or failed password gives 401 with accounts unchanged; a student without a bound device who sends one gets it bound; a student sending a device different from the bound one gets 403 with nothing changed; every other case logs in with the stored device unchanged |
| Auth.LoginBindsAtMostOnce | backend/controllers/authController.js:56-68 | a bound device is never changed, non-students are never changed, and nothing but a device id ever changes |
| Auth.LoginRetryIsStable | backend/controllers/authController.js:53-81 | a refused login is a 401 or 403 and leaves the accounts unchanged; repeating any login with the same credentials and device gets the same reply and changes nothing further |
| Auth.BoundStudentOtherDeviceRefused | backend/controllers/authController.js:57-66 | after a student logged in with one device, the same credentials from another device are refused with 403 |
| Dupes.BumpEffect | backend/check_dupes.js:22 | one increment raises the key's count by one, keeps other counts and the distinct keys, and adds one to the total |
| Dupes.TallySessions | backend/check_dupes.js:19-23 | each session's tally is the number of rows of that session, keys are distinct and exactly the sessions that occur, and the tallies sum to the number of rows |
| Dupes.CountDuplicates | backend/check_dupes.js:25-31 | the count is the number of distinct keys whose tally exceeds one |
| Dupes.CheckDupes | backend/check_dupes.js:19-39 | the reported count is the number of sessions with more than one row, and it is zero exactly when no two rows share a session |
| Dupes.RepeatedEmptyIffDistinct | backend/check_dupes.js:33-38 | no session repeats exactly when the rows' sessions are pairwise distinct |
| OdApply.TogglePeriod | frontend/screens/ODApplyScreen.js:46-52 | a selected period is removed entirely and nothing else changes membership; an unselected one is appended |
| OdApply.ToggleKeepsNoDuplicates | frontend/screens/ODApplyScreen.js:46-52 | a selection without repeats stays without repeats |
| OdApply.ToggleTwiceRestores | frontend/screens/ODApplyScreen.js:46-52 | toggling an unselected period twice gives the original selection back |
| OdApply.Trim | frontend/screens/ODApplyScreen.js:55 | the trimmed reason is no longer than the reason and, when not empty, starts and ends with a character that is not white space |
| OdApply.TrimCutsOnlySpace | frontend/screens/ODApplyScreen.js:55 | the trimmed reason is a slice of the reason, and everything cut off before and after it is white space |
| OdApply.TrimEmptyIffBlank | frontend/screens/ODApplyScreen.js:55-58 | the trimmed reason is empty exactly when the reason is all white space |
| OdApply.Submit | frontend/screens/ODApplyScreen.js:54-71 | a blank reason is refused first, then a per-period application without periods; otherwise the body keeps the untrimmed reason and fromDate, and is FullDay with no periods and the chosen toDate, or Period with toDate = fromDate and the selection |
| OdApply.Settle | frontend/screens/ODApplyScreen.js:72-78 | an accepted request clears the reason and the selection and keeps the dates and mode; a failed one keeps the form |
| OdApply.SettleThenSubmit | frontend/screens/ODApplyScreen.js:54-78 | after an accepted request, submitting again is refused for a missing reason; after a failed one, submitting again builds the same request |
| OdApply.TapsKeepNoDuplicates | frontend/screens/ODApplyScreen.js:46-52 | any run of taps keeps a selection without repeats free of them |
| OdApply.PeriodApplicationIsOneDay | frontend/screens/ODApplyScreen.js:16-74 | the selection starts empty and changes only by taps, so a posted per-period application covers one day, at least one period, and lists no period twice |

## Left out

- MongoDB itself is left out: queries, the aggregation engine, indexes other than the unique `_id`, and the `createdAt`/`timestamp` schema defaults. The collections are sequences in storage order. Rows that rely on a default timestamp carry `None`. The Session, Attendance, ClassHistory, User and ClassRoutine model files are not part of this model.
- `Date`, `toLocaleDateString`, time zones and daylight saving are not modelled. The weekday name, hour, minute and timestamps are inputs.
- Sessions.StartSession reads the clock once. The source reads it three times: for the weekday and time, for the `endTime` of the superseded sessions, and for the new session's `createdAt`. The weekday and time already come from one `Date` object (backend/controllers/sessionController.js:13-18). In the model the two later reads are the same `now`, so the matched minute, the superseded sessions' `endTime` (line 57) and the new session's `createdAt` cannot straddle a minute change, and a superseded session's `endTime` always equals the new session's start.
- Seed.AtTime places a seeded time at the day's midnight plus the slot's minutes. `setHours(h, m, 0)` keeps the milliseconds of the moment the script runs; that offset below one second is dropped.
- Sessions.EndSession replies with only the fixed beginning of the store's duplicate-key error text (`E11000 duplicate key error`). The real text goes on to name the collection, the index and the key.
- `Math.random` and `crypto.randomBytes` are not modelled. The OTP draw is an integer below 9000 and the token takes 16 bytes as inputs. The seed's presence draws (`Math.random() > 0.2`, `> 0.3`, `> 0.1`) are given booleans.
- JWT signing and bcrypt comparison are abstract function parameters.
- Concurrency is not modelled. The update-then-create of `startSession` and the insert-then-create of `endSession` run sequentially, with no atomicity claimed.
- The generic 500 replies for thrown errors are left out, except for the duplicate `_id` on archiving. This covers lost connections and casting errors. The `Invalid user data` branch of `register` is also left out, because `User.create` either returns a document or throws.
- The seed's user creation (backend/scripts/seed.js:37-78) is not modelled, and neither is the clearing of the collections. Teacher ids per department enter as parameters to `Seed.SeedDepartments`.
- `verify` in the auth controller is out of the model, and so are the login and app screens, the OD form's date pickers, rendering and history fetch, `check_db.js`, `debug_dashboard.js` and `add_demo_dept.js`.
- The diagnostic's console output and the `sort({timestamp: -1})` of its query are not modelled. The tally does not depend on row order except for key order.
- Seed.PastArchiveIgnoresStatus follows directly from the contract of `Seed.PastSemester`. It is stated for the reader.
