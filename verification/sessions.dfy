/** The class-session lifecycle: `startSession`, `endSession` and
    `getActiveSession`, as pure transitions from a store to a reply and a new
    store. The store operations run one after the other; nothing here claims
    the atomicity the source does not provide. */
module Sessions {
  import opened Common
  import opened Clock
  import opened Credentials
  import opened Timetable
  import opened Records

  /** The request body of `startSession`. */
  datatype StartRequest = StartRequest(subject: string, section: string, bssid: Option<string>, ssid: Option<string>)

  /** The server clock at request time: the `en-US` long weekday name,
      `getHours()`, `getMinutes()` and `Date.now()`. */
  datatype LocalNow = LocalNow(weekday: string, hour: nat, minute: nat, stamp: Stamp)

  predicate ValidNow(now: LocalNow) {
    now.hour < 24 && now.minute < 60
  }

  function NoClassMessage(subject: string, time: string, day: string): string {
    "No active class found for " + subject + " at " + time + " on " + day
  }

  const NotFoundMessage := "Session not found"
  const ForbiddenMessage := "Not authorized"

  /** The error text the store reports when an insert reuses an existing
      `_id`. Only its fixed beginning is modelled; the full text goes on to
      name the collection, the index and the key. */
  const DuplicateKeyMessage := "E11000 duplicate key error"

  // ---------------------------------------------------------------------------
  // startSession

  /** Closing the teacher's active sessions with end time `at`: afterwards
      the teacher has no active session, and only the teacher's active
      sessions changed, in exactly the two updated fields. */
  function Supersede(sessions: seq<Session>, teacher: UserId, at: Stamp): (r: seq<Session>)
    ensures |r| == |sessions|
    ensures forall i :: 0 <= i < |r| ==> !(r[i].isActive && r[i].teacher == teacher)
    ensures forall i :: 0 <= i < |r| && !(sessions[i].isActive && sessions[i].teacher == teacher) ==>
      r[i] == sessions[i]
    ensures forall i :: 0 <= i < |r| && sessions[i].isActive && sessions[i].teacher == teacher ==>
      r[i] == sessions[i].(isActive := false, endTime := Some(at))
  {
    seq(|sessions|, i requires 0 <= i < |sessions| =>
      if sessions[i].isActive && sessions[i].teacher == teacher
      then sessions[i].(isActive := false, endTime := Some(at))
      else sessions[i])
  }

  /** Superseding the teacher's active sessions, then appending the new
      active session `s` of that teacher: the earlier positions keep their
      documents except for the superseded ones, and the teacher's only
      active session is the new one at the end. */
  function Launch(sessions: seq<Session>, s: Session, at: Stamp): (ss: seq<Session>)
    requires s.isActive
    ensures |ss| == |sessions| + 1 && ss[|sessions|] == s
    ensures forall i :: 0 <= i < |sessions| ==> ss[i].id == sessions[i].id
    ensures forall i :: 0 <= i < |sessions| && sessions[i].teacher != s.teacher ==> ss[i] == sessions[i]
    ensures forall i :: 0 <= i < |sessions| && sessions[i].teacher == s.teacher && !sessions[i].isActive ==>
      ss[i] == sessions[i]
    ensures forall i :: 0 <= i < |sessions| && sessions[i].teacher == s.teacher && sessions[i].isActive ==>
      ss[i] == sessions[i].(isActive := false, endTime := Some(at))
    ensures forall i :: 0 <= i < |ss| ==> (ss[i].isActive && ss[i].teacher == s.teacher <==> i == |sessions|)
  {
    var r := Supersede(sessions, s.teacher, at);
    assert forall i :: 0 <= i < |sessions| ==> (r + [s])[i] == r[i];
    r + [s]
  }

  /** The document `Session.create` receives: an active session of the
      caller for the request, with the OTP and QR token and the routine link. */
  function NewSession(caller: UserId, req: StartRequest, routine: RoutineId, draw: nat, random: seq<Byte>,
                      newId: SessionId, at: Stamp): (s: Session)
    requires draw < 9000 && |random| == 16
    ensures s.id == newId && s.teacher == caller && s.isActive && s.routineId == Some(routine)
    ensures s.subject == req.subject && s.section == req.section && s.bssid == req.bssid && s.ssid == req.ssid
    ensures s.otp.Some? && |s.otp.value| == 4 && AllDigits(s.otp.value) && 1000 <= ParseDecimal(s.otp.value) <= 9999
    ensures s.qrCode.Some? && |s.qrCode.value| == 32 && IsLowerHex(s.qrCode.value) && HexDecode(s.qrCode.value) == random
  {
    Session(newId, caller, req.subject, req.section, req.bssid, req.ssid,
            Some(Otp(draw)), Some(QrToken(random)), true, Some(routine), None, None, None, at)
  }

  /** `startSession`. The current time is rendered as "HH:MM" and matched
      against the timetable; without a match the reply is 400 and the store
      is untouched. Otherwise the teacher's active sessions are superseded
      and one new active session, linked to the matched routine and carrying
      a fresh OTP and QR token, is appended. */
  function StartSession(db: Db, caller: UserId, req: StartRequest, now: LocalNow,
                        draw: nat, random: seq<Byte>, newId: SessionId): (out: (Response<Session>, Db))
    requires ValidNow(now) && draw < 9000 && |random| == 16
    ensures out.1.routines == db.routines && out.1.users == db.users
    ensures out.1.attendance == db.attendance && out.1.histories == db.histories
    ensures var time := FormatTime(now.hour, now.minute);
      var m := MatchPeriod(db.routines, now.weekday, caller, req.subject, time);
      && (out.0.Failure? <==> m.None?)
      && (m.None? ==> out == (Failure(400, NoClassMessage(req.subject, time, now.weekday)), db))
      && (m.Some? ==> out.0.Success? && out.0.status == 201 && out.0.body.routineId == Some(m.value.routineId))
    ensures out.0.Success? ==>
      var s := out.0.body;
      && s.id == newId && s.teacher == caller && s.isActive
      && s.subject == req.subject && s.section == req.section
      && s.bssid == req.bssid && s.ssid == req.ssid
      && s.otp.Some? && |s.otp.value| == 4 && AllDigits(s.otp.value)
      && 1000 <= ParseDecimal(s.otp.value) <= 9999
      && s.qrCode.Some? && |s.qrCode.value| == 32 && IsLowerHex(s.qrCode.value)
      && HexDecode(s.qrCode.value) == random
    ensures out.0.Success? ==>
      var ss := out.1.sessions;
      && |ss| == |db.sessions| + 1 && ss[|db.sessions|] == out.0.body
      && (forall i :: 0 <= i < |db.sessions| && db.sessions[i].teacher != caller ==> ss[i] == db.sessions[i])
      && (forall i :: 0 <= i < |db.sessions| && db.sessions[i].teacher == caller && !db.sessions[i].isActive ==>
            ss[i] == db.sessions[i])
      && (forall i :: 0 <= i < |db.sessions| && db.sessions[i].teacher == caller && db.sessions[i].isActive ==>
            ss[i] == db.sessions[i].(isActive := false, endTime := Some(now.stamp)))
      && (forall i :: 0 <= i < |ss| ==> (ss[i].isActive && ss[i].teacher == caller <==> i == |db.sessions|))
  {
    var time := FormatTime(now.hour, now.minute);
    match MatchPeriod(db.routines, now.weekday, caller, req.subject, time)
    case None => (Failure(400, NoClassMessage(req.subject, time, now.weekday)), db)
    case Some(u) =>
      var s := NewSession(caller, req, u.routineId, draw, random, newId, now.stamp);
      (Success(201, s), db.(sessions := Launch(db.sessions, s, now.stamp)))
  }

  /** On a timetable with well-formed times, `startSession` succeeds exactly
      when some period of the caller, for the subject, on the current weekday
      has a window containing the current minute, both bounds inclusive. */
  lemma StartSucceedsIffScheduled(db: Db, caller: UserId, req: StartRequest, now: LocalNow,
                                  draw: nat, random: seq<Byte>, newId: SessionId)
    requires ValidNow(now) && draw < 9000 && |random| == 16
    requires WellFormedTimes(db.routines)
    ensures StartSession(db, caller, req, now, draw, random, newId).0.Success? <==>
      exists u :: u in Unwind(db.routines) && Selected(u, now.weekday, caller, req.subject) &&
        MinuteOfDay(u.period.startTime) <= 60 * now.hour + now.minute <= MinuteOfDay(u.period.endTime)
  {
    MatchIffWindow(db.routines, now.weekday, caller, req.subject, now);
  }

  /** The period lookup finds a record exactly when a selected record's
      window contains the current minute. */
  lemma MatchIffWindow(routines: seq<Routine>, day: string, teacher: UserId, subject: string, now: LocalNow)
    requires ValidNow(now) && WellFormedTimes(routines)
    ensures MatchPeriod(routines, day, teacher, subject, FormatTime(now.hour, now.minute)).Some? <==>
      exists u :: u in Unwind(routines) && Selected(u, day, teacher, subject) &&
        MinuteOfDay(u.period.startTime) <= 60 * now.hour + now.minute <= MinuteOfDay(u.period.endTime)
  {
    var m := MatchPeriod(routines, day, teacher, subject, FormatTime(now.hour, now.minute));
    if m.Some? {
      MatchHasWindow(routines, day, teacher, subject, now);
    } else {
      NoMatchNoWindow(routines, day, teacher, subject, now);
    }
  }

  lemma MatchHasWindow(routines: seq<Routine>, day: string, teacher: UserId, subject: string, now: LocalNow)
    requires ValidNow(now) && WellFormedTimes(routines)
    requires MatchPeriod(routines, day, teacher, subject, FormatTime(now.hour, now.minute)).Some?
    ensures var u := MatchPeriod(routines, day, teacher, subject, FormatTime(now.hour, now.minute)).value;
      u in Unwind(routines) && Selected(u, day, teacher, subject) &&
      MinuteOfDay(u.period.startTime) <= 60 * now.hour + now.minute <= MinuteOfDay(u.period.endTime)
  {
    var time := FormatTime(now.hour, now.minute);
    var us := Unwind(routines);
    var i :| FirstQualifying(us, i, day, teacher, subject, time) && us[i] == MatchPeriod(routines, day, teacher, subject, time).value;
    CurrentIffWindow(routines, us[i], now);
  }

  lemma NoMatchNoWindow(routines: seq<Routine>, day: string, teacher: UserId, subject: string, now: LocalNow)
    requires ValidNow(now) && WellFormedTimes(routines)
    requires MatchPeriod(routines, day, teacher, subject, FormatTime(now.hour, now.minute)).None?
    ensures forall u :: u in Unwind(routines) && Selected(u, day, teacher, subject) ==>
      !(MinuteOfDay(u.period.startTime) <= 60 * now.hour + now.minute <= MinuteOfDay(u.period.endTime))
  {
    forall u | u in Unwind(routines) && Selected(u, day, teacher, subject)
      ensures !(MinuteOfDay(u.period.startTime) <= 60 * now.hour + now.minute <= MinuteOfDay(u.period.endTime))
    {
      NotCurrent(routines, day, teacher, subject, FormatTime(now.hour, now.minute), u);
      CurrentIffWindow(routines, u, now);
    }
  }

  lemma NotCurrent(routines: seq<Routine>, day: string, teacher: UserId, subject: string, time: string, u: Unwound)
    requires MatchPeriod(routines, day, teacher, subject, time).None?
    requires u in Unwind(routines) && Selected(u, day, teacher, subject)
    ensures !Current(u, time)
  {
    var us := Unwind(routines);
    var i :| 0 <= i < |us| && us[i] == u;
    assert !Qualifies(us[i], day, teacher, subject, time);
  }

  /** For an unwound record of well-formed routines, the string test of the
      lookup is the minute-of-day test. */
  lemma CurrentIffWindow(routines: seq<Routine>, u: Unwound, now: LocalNow)
    requires ValidNow(now) && WellFormedTimes(routines) && u in Unwind(routines)
    ensures Current(u, FormatTime(now.hour, now.minute)) <==>
      MinuteOfDay(u.period.startTime) <= 60 * now.hour + now.minute <= MinuteOfDay(u.period.endTime)
  {
    var rt, d :| rt in routines && d in rt.timetable && u.routineId == rt.id && u.day == d.day && u.period in d.periods;
  }

  /** `startSession` keeps "at most one active session per teacher": the
      caller ends with exactly the new one, other teachers are untouched. */
  lemma StartSessionKeepsOneActive(db: Db, caller: UserId, req: StartRequest, now: LocalNow,
                                   draw: nat, random: seq<Byte>, newId: SessionId)
    requires ValidNow(now) && draw < 9000 && |random| == 16
    requires OneActivePerTeacher(db.sessions)
    ensures OneActivePerTeacher(StartSession(db, caller, req, now, draw, random, newId).1.sessions)
  {
    var out := StartSession(db, caller, req, now, draw, random, newId);
    if out.0.Success? {
      assert out.1.sessions == Launch(db.sessions, out.0.body, now.stamp);
      LaunchKeepsOneActive(db.sessions, out.0.body, now.stamp);
    }
  }

  lemma LaunchKeepsOneActive(sessions: seq<Session>, s: Session, at: Stamp)
    requires s.isActive && OneActivePerTeacher(sessions)
    ensures OneActivePerTeacher(Launch(sessions, s, at))
  {
    var ss := Launch(sessions, s, at);
    var n := |sessions|;
    forall i, j | 0 <= i < |ss| && 0 <= j < |ss| && ss[i].isActive && ss[j].isActive && ss[i].teacher == ss[j].teacher
      ensures i == j
    {
      if ss[i].teacher == s.teacher {
        assert i == n && j == n;
      } else {
        assert i < n && j < n;
        assert ss[i] == sessions[i] && ss[j] == sessions[j];
      }
    }
  }

  lemma LaunchKeepsUniqueIds(sessions: seq<Session>, s: Session, at: Stamp)
    requires s.isActive && UniqueSessionIds(sessions)
    requires forall x :: x in sessions ==> x.id != s.id
    ensures UniqueSessionIds(Launch(sessions, s, at))
  {
    var ss := Launch(sessions, s, at);
    var n := |sessions|;
    forall i, j | 0 <= i < j < |ss| ensures ss[i].id != ss[j].id {
      assert ss[i].id == sessions[i].id;
      if j == n {
        assert sessions[i] in sessions;
      } else {
        assert ss[j].id == sessions[j].id;
      }
    }
  }

  /** A fresh id keeps session ids unique. */
  lemma StartSessionKeepsUniqueIds(db: Db, caller: UserId, req: StartRequest, now: LocalNow,
                                   draw: nat, random: seq<Byte>, newId: SessionId)
    requires ValidNow(now) && draw < 9000 && |random| == 16
    requires UniqueSessionIds(db.sessions)
    requires forall s :: s in db.sessions ==> s.id != newId
    ensures UniqueSessionIds(StartSession(db, caller, req, now, draw, random, newId).1.sessions)
  {
    var out := StartSession(db, caller, req, now, draw, random, newId);
    if out.0.Success? {
      LaunchKeepsUniqueIds(db.sessions, out.0.body, now.stamp);
    }
  }

  // ---------------------------------------------------------------------------
  // getActiveSession

  /** The active-session lookup: the first active session of
      the teacher in storage order, or nothing when there is none. The HTTP
      reply is 200 with this document or `null`. */
  function GetActiveSession(sessions: seq<Session>, teacher: UserId): (r: Option<Session>)
    ensures r.None? <==> forall i :: 0 <= i < |sessions| ==> !(sessions[i].isActive && sessions[i].teacher == teacher)
    ensures r.Some? ==>
      (exists i :: 0 <= i < |sessions| && sessions[i] == r.value && r.value.isActive && r.value.teacher == teacher)
  {
    if |sessions| == 0 then None
    else if sessions[0].isActive && sessions[0].teacher == teacher then Some(sessions[0])
    else
      var r := GetActiveSession(sessions[1..], teacher);
      assert forall i :: 1 <= i < |sessions| ==> sessions[i] == sessions[1..][i - 1];
      r
  }

  /** Under the one-active-session invariant the lookup returns the teacher's
      only active session. */
  lemma GetActiveFindsTheActiveSession(sessions: seq<Session>, teacher: UserId, k: nat)
    requires OneActivePerTeacher(sessions)
    requires k < |sessions| && sessions[k].isActive && sessions[k].teacher == teacher
    ensures GetActiveSession(sessions, teacher) == Some(sessions[k])
  {
    var r := GetActiveSession(sessions, teacher);
    var i :| 0 <= i < |sessions| && sessions[i] == r.value && r.value.isActive && r.value.teacher == teacher;
    assert i == k;
  }

  /** After a successful `startSession` the active-session read returns the
      session just created. */
  lemma StartThenGetActive(db: Db, caller: UserId, req: StartRequest, now: LocalNow,
                           draw: nat, random: seq<Byte>, newId: SessionId)
    requires ValidNow(now) && draw < 9000 && |random| == 16
    requires StartSession(db, caller, req, now, draw, random, newId).0.Success?
    ensures var out := StartSession(db, caller, req, now, draw, random, newId);
      GetActiveSession(out.1.sessions, caller) == Some(out.0.body)
  {
    var out := StartSession(db, caller, req, now, draw, random, newId);
    var r := GetActiveSession(out.1.sessions, caller);
    var i :| 0 <= i < |out.1.sessions| && out.1.sessions[i] == r.value && r.value.isActive && r.value.teacher == caller;
    assert i == |db.sessions|;
  }

  // ---------------------------------------------------------------------------
  // endSession

  /** Position of the first session with the given id at or after `from`. */
  function FindFrom(sessions: seq<Session>, id: SessionId, from: nat): (r: Option<nat>)
    requires from <= |sessions|
    ensures r.None? <==> forall i :: from <= i < |sessions| ==> sessions[i].id != id
    ensures r.Some? ==>
      (from <= r.value < |sessions| && sessions[r.value].id == id &&
       forall j :: from <= j < r.value ==> sessions[j].id != id)
    decreases |sessions| - from
  {
    if from == |sessions| then None
    else if sessions[from].id == id then Some(from)
    else FindFrom(sessions, id, from + 1)
  }

  /** `Session.findById(id)`, as a position in the collection. */
  function SessionIndex(sessions: seq<Session>, id: SessionId): (r: Option<nat>)
    ensures r.None? <==> forall i :: 0 <= i < |sessions| ==> sessions[i].id != id
    ensures r.Some? ==> r.value < |sessions| && sessions[r.value].id == id
  {
    FindFrom(sessions, id, 0)
  }

  /** The enrollment query: ids of the students of the
      section, in storage order. The department is not consulted. */
  function Enrolled(users: seq<User>, section: string): (r: seq<UserId>)
    ensures forall x :: x in r <==> exists u :: u in users && u.role == Student && u.section == Some(section) && u.id == x
    ensures UniqueUserIds(users) ==> NoDuplicates(r)
  {
    if |users| == 0 then []
    else
      var rest := Enrolled(users[1..], section);
      assert forall u :: u in users[1..] ==> u in users;
      assert UniqueUserIds(users) ==> UniqueUserIds(users[1..]) && forall u :: u in users[1..] ==> u.id != users[0].id by {
        if UniqueUserIds(users) {
          forall u | u in users[1..] ensures u.id != users[0].id {
            var k :| 0 <= k < |users[1..]| && users[1..][k] == u;
            assert users[k + 1] == u;
          }
        }
      }
      assert UniqueUserIds(users) ==> users[0].id !in rest;
      if users[0].role == Student && users[0].section == Some(section) then [users[0].id] + rest else rest
  }

  /** The attendance query: every row of the session, whatever its
      status, with multiplicity. */
  function RowsOf(rows: seq<AttendanceRow>, id: SessionId): (r: seq<AttendanceRow>)
    ensures forall a :: multiset(r)[a] == if a.session == id then multiset(rows)[a] else 0
  {
    if |rows| == 0 then []
    else
      assert rows == [rows[0]] + rows[1..];
      if rows[0].session == id then [rows[0]] + RowsOf(rows[1..], id) else RowsOf(rows[1..], id)
  }

  /** The student of each row, in order. */
  function StudentsOf(rows: seq<AttendanceRow>): (r: seq<UserId>)
    ensures |r| == |rows|
    ensures forall x :: x in r <==> exists a :: a in rows && a.student == x
  {
    var r := seq(|rows|, i requires 0 <= i < |rows| => rows[i].student);
    assert forall a :: a in rows ==> a.student in r by {
      forall a | a in rows ensures a.student in r {
        var i :| 0 <= i < |rows| && rows[i] == a;
        assert r[i] == a.student;
      }
    }
    r
  }

  /** The enrolled students that have no row, in enrollment order. */
  function Absentees(enrolled: seq<UserId>, present: seq<UserId>): (r: seq<UserId>)
    ensures forall x :: x in r <==> x in enrolled && x !in present
    ensures NoDuplicates(enrolled) ==> NoDuplicates(r)
  {
    if |enrolled| == 0 then []
    else
      var rest := Absentees(enrolled[1..], present);
      assert forall x :: x in enrolled[1..] ==> x in enrolled;
      assert NoDuplicates(enrolled) ==> NoDuplicates(enrolled[1..]) && enrolled[0] !in enrolled[1..] by {
        if NoDuplicates(enrolled) {
          forall k | 0 <= k < |enrolled[1..]| ensures enrolled[1..][k] != enrolled[0] {
            assert enrolled[1..][k] == enrolled[k + 1];
          }
        }
      }
      if enrolled[0] !in present then [enrolled[0]] + rest else rest
  }

  /** The rows written for absentees: absent, manual, verified. */
  function AbsentRows(id: SessionId, absent: seq<UserId>): seq<AttendanceRow> {
    seq(|absent|, k requires 0 <= k < |absent| => AttendanceRow(id, absent[k], Absent, Manual, true, None))
  }

  /** `x` is a student of the session's section with no attendance row for
      the session. */
  predicate IsAbsentee(db: Db, s: Session, x: UserId) {
    && (exists u :: u in db.users && u.role == Student && u.section == Some(s.section) && u.id == x)
    && !(exists a :: a in db.attendance && a.session == s.id && a.student == x)
  }

  /** The reconciliation step of `endSession`: the absent rows it inserts.
      Each is absent, manual and verified; their students are exactly the
      absentees; with unique user ids no student gets two. */
  function AbsentRowsFor(db: Db, s: Session): (written: seq<AttendanceRow>)
    ensures forall a :: a in written ==>
      a.session == s.id && a.status == Absent && a.capture == Manual && a.verified && a.timestamp.None?
    ensures forall x :: (exists a :: a in written && a.student == x) <==> IsAbsentee(db, s, x)
    ensures UniqueUserIds(db.users) ==>
      forall k, l :: 0 <= k < l < |written| ==> written[k].student != written[l].student
  {
    var enrolled := Enrolled(db.users, s.section);
    var present := StudentsOf(RowsOf(db.attendance, s.id));
    var absent := Absentees(enrolled, present);
    PresentStudents(db.attendance, s.id);
    var written := AbsentRows(s.id, absent);
    AbsentRowsStudents(s.id, absent);
    assert forall x :: x in absent <==> IsAbsentee(db, s, x);
    written
  }

  /** The students of a session's rows are the students some row of that
      session names. */
  lemma PresentStudents(rows: seq<AttendanceRow>, id: SessionId)
    ensures forall x :: x in StudentsOf(RowsOf(rows, id)) <==>
      exists a :: a in rows && a.session == id && a.student == x
  {
    var mine := RowsOf(rows, id);
    forall x ensures x in StudentsOf(mine) <==> exists a :: a in rows && a.session == id && a.student == x {
      if x in StudentsOf(mine) {
        var a :| a in mine && a.student == x;
        assert multiset(mine)[a] > 0;
      }
      if a :| a in rows && a.session == id && a.student == x {
        assert multiset(mine)[a] > 0;
      }
    }
  }

  /** The absent rows name exactly the given students, each once when the
      students are distinct. */
  lemma AbsentRowsStudents(id: SessionId, absent: seq<UserId>)
    ensures forall x :: (exists a :: a in AbsentRows(id, absent) && a.student == x) <==> x in absent
    ensures NoDuplicates(absent) ==>
      forall k, l :: 0 <= k < l < |absent| ==> AbsentRows(id, absent)[k].student != AbsentRows(id, absent)[l].student
  {
    var written := AbsentRows(id, absent);
    forall x ensures (exists a :: a in written && a.student == x) <==> x in absent {
      if x in absent {
        var j :| 0 <= j < |absent| && absent[j] == x;
        assert written[j] in written;
      }
    }
  }

  /** The session exists and belongs to the caller: `endSession` gets past
      both of its checks. */
  predicate Owned(db: Db, caller: UserId, id: SessionId) {
    var k := SessionIndex(db.sessions, id);
    k.Some? && db.sessions[k.value].teacher == caller
  }

  function RemoveAt(sessions: seq<Session>, k: nat): (r: seq<Session>)
    requires k < |sessions|
    ensures |r| == |sessions| - 1
    ensures forall i :: 0 <= i < |r| ==> r[i] == sessions[if i < k then i else i + 1]
  {
    sessions[..k] + sessions[k + 1..]
  }

  /** `endSession`. Unknown id: 404; another teacher's session: 403; in both
      cases the store is untouched. Otherwise the absent rows are appended,
      and the session is archived under its own id, with the number of its
      attendance rows as present count, and deleted. If an archive with that
      id already exists the archive insert fails after the absent rows were
      written: 500, and the live session stays. `isActive` is never
      consulted. */
  function EndSession(db: Db, caller: UserId, id: SessionId, at: Stamp): (out: (Response<History>, Db))
    ensures out.1.routines == db.routines && out.1.users == db.users
    ensures SessionIndex(db.sessions, id).None? ==> out == (Failure(404, NotFoundMessage), db)
    ensures var k := SessionIndex(db.sessions, id);
      k.Some? && db.sessions[k.value].teacher != caller ==> out == (Failure(403, ForbiddenMessage), db)
    ensures Owned(db, caller, id) ==>
      out.1.attendance == db.attendance + AbsentRowsFor(db, db.sessions[SessionIndex(db.sessions, id).value])
    ensures Owned(db, caller, id) && HasHistory(db.histories, id) ==>
      && out.0 == Failure(500, DuplicateKeyMessage)
      && out.1.sessions == db.sessions && out.1.histories == db.histories
    ensures Owned(db, caller, id) && !HasHistory(db.histories, id) ==>
      var k := SessionIndex(db.sessions, id).value;
      var s := db.sessions[k];
      && out.0.Success? && out.0.status == 200
      && var h := out.0.body;
      && h.id == id && h.teacher == s.teacher && h.subject == s.subject && h.section == s.section
      && h.otp == s.otp && h.qrCode == s.qrCode && h.bssid == s.bssid && h.ssid == s.ssid
      && h.startTime == s.createdAt && h.endTime == at && h.semester.None?
      && h.presentCount == |RowsOf(db.attendance, id)|
      && h.absentCount == |AbsentRowsFor(db, s)|
      && out.1.histories == db.histories + [h]
      && out.1.sessions == RemoveAt(db.sessions, k)
  {
    match SessionIndex(db.sessions, id)
    case None => (Failure(404, NotFoundMessage), db)
    case Some(k) =>
      var s := db.sessions[k];
      if s.teacher != caller then (Failure(403, ForbiddenMessage), db)
      else
        var written := AbsentRowsFor(db, s);
        var rows := db.attendance + written;
        if HasHistory(db.histories, id) then (Failure(500, DuplicateKeyMessage), db.(attendance := rows))
        else
          var h := History(id, s.teacher, s.subject, s.section, None, s.otp, s.qrCode, s.bssid, s.ssid,
                           s.createdAt, at, |RowsOf(db.attendance, id)|, |written|);
          (Success(200, h), db.(attendance := rows, histories := db.histories + [h], sessions := RemoveAt(db.sessions, k)))
  }

  /** The live session is gone after a successful `endSession`, so repeating
      the call on the same id is answered 404. */
  lemma EndSessionTwiceNotFound(db: Db, caller: UserId, id: SessionId, at: Stamp, caller2: UserId, at2: Stamp)
    requires UniqueSessionIds(db.sessions)
    requires EndSession(db, caller, id, at).0.Success?
    ensures var db2 := EndSession(db, caller, id, at).1;
      EndSession(db2, caller2, id, at2) == (Failure(404, NotFoundMessage), db2)
  {
    var out := EndSession(db, caller, id, at);
    var k := SessionIndex(db.sessions, id).value;
    var ss := out.1.sessions;
    forall i | 0 <= i < |ss| ensures ss[i].id != id {
      if i < k {
        assert ss[i] == db.sessions[i];
      } else {
        assert ss[i] == db.sessions[i + 1];
      }
    }
  }

  /** Removing one session keeps both store invariants. */
  lemma RemoveAtKeepsInvariants(sessions: seq<Session>, k: nat)
    requires k < |sessions|
    requires UniqueSessionIds(sessions) && OneActivePerTeacher(sessions)
    ensures UniqueSessionIds(RemoveAt(sessions, k)) && OneActivePerTeacher(RemoveAt(sessions, k))
  {
    var r := RemoveAt(sessions, k);
    forall i, j | 0 <= i < |r| && 0 <= j < |r| && i != j
      ensures r[i].id != r[j].id
      ensures !(r[i].isActive && r[j].isActive && r[i].teacher == r[j].teacher)
    {
      var i' := if i < k then i else i + 1;
      var j' := if j < k then j else j + 1;
      assert r[i] == sessions[i'] && r[j] == sessions[j'] && i' != j';
    }
  }

  /** `endSession` keeps session ids unique and at most one active session
      per teacher, on every outcome. */
  lemma EndSessionKeepsInvariants(db: Db, caller: UserId, id: SessionId, at: Stamp)
    requires UniqueSessionIds(db.sessions) && OneActivePerTeacher(db.sessions)
    ensures var ss := EndSession(db, caller, id, at).1.sessions;
      UniqueSessionIds(ss) && OneActivePerTeacher(ss)
  {
    if Owned(db, caller, id) && !HasHistory(db.histories, id) {
      RemoveAtKeepsInvariants(db.sessions, SessionIndex(db.sessions, id).value);
    }
  }

  /** `endSession` never consults `isActive`: a session that a later
      `startSession` superseded is still found, still owned by its teacher,
      and can still be archived. */
  lemma SupersededSessionCanStillBeEnded(db: Db, caller: UserId, req: StartRequest, now: LocalNow,
                                         draw: nat, random: seq<Byte>, newId: SessionId, k: nat, at: Stamp)
    requires ValidNow(now) && draw < 9000 && |random| == 16
    requires UniqueSessionIds(db.sessions)
    requires forall s :: s in db.sessions ==> s.id != newId
    requires k < |db.sessions| && db.sessions[k].isActive && db.sessions[k].teacher == caller
    requires StartSession(db, caller, req, now, draw, random, newId).0.Success?
    ensures var db2 := StartSession(db, caller, req, now, draw, random, newId).1;
      && !db2.sessions[k].isActive
      && SessionIndex(db2.sessions, db.sessions[k].id) == Some(k)
      && Owned(db2, caller, db.sessions[k].id)
    ensures var db2 := StartSession(db, caller, req, now, draw, random, newId).1;
      var id := db.sessions[k].id;
      !HasHistory(db.histories, id) ==>
        var out := EndSession(db2, caller, id, at);
        out.0.Success? && out.0.body.id == id && out.0.body.teacher == caller
  {
    var db2 := StartSession(db, caller, req, now, draw, random, newId).1;
    StartSessionKeepsUniqueIds(db, caller, req, now, draw, random, newId);
    var id := db.sessions[k].id;
    assert db2.sessions[k].id == id;
    var j := SessionIndex(db2.sessions, id).value;
    assert j == k;
  }

  /** Every row of the session names a different student. */
  predicate OneRowPerStudent(rows: seq<AttendanceRow>, id: SessionId) {
    forall i, j :: 0 <= i < j < |rows| && rows[i].session == id && rows[j].session == id ==>
      rows[i].student != rows[j].student
  }

  /** `endSession` is the only core operation that writes attendance rows,
      and it keeps "one row per student" for every session: the rows it adds
      are for students that had no row of the ended session, one each. */
  lemma EndKeepsOneRowPerStudent(db: Db, caller: UserId, id: SessionId, at: Stamp, sid: SessionId)
    requires UniqueUserIds(db.users) && OneRowPerStudent(db.attendance, sid)
    ensures OneRowPerStudent(EndSession(db, caller, id, at).1.attendance, sid)
  {
    if Owned(db, caller, id) {
      var s := db.sessions[SessionIndex(db.sessions, id).value];
      var written := AbsentRowsFor(db, s);
      var rows := db.attendance + written;
      var n := |db.attendance|;
      forall i, j | 0 <= i < j < |rows| && rows[i].session == sid && rows[j].session == sid
        ensures rows[i].student != rows[j].student
      {
        if j < n {
          assert rows[i] == db.attendance[i] && rows[j] == db.attendance[j];
        } else if i < n {
          NewRowStudentIsNew(db, s, rows[i], written[j - n]);
        } else {
          assert rows[i] == written[i - n] && rows[j] == written[j - n];
        }
      }
    }
  }

  /** An absent row written for session `s` names a student with no row of
      `s` yet. */
  lemma NewRowStudentIsNew(db: Db, s: Session, prior: AttendanceRow, w: AttendanceRow)
    requires prior in db.attendance && w in AbsentRowsFor(db, s) && prior.session == w.session
    ensures prior.student != w.student
  {
    assert IsAbsentee(db, s, w.student);
  }

  /** The ids of the students of a section. */
  function EnrolledIds(users: seq<User>, section: string): set<UserId> {
    set u | u in users && u.role == Student && u.section == Some(section) :: u.id
  }

  /** The students with at least one row for the session. */
  function PresentIds(rows: seq<AttendanceRow>, id: SessionId): set<UserId> {
    set a | a in rows && a.session == id :: a.student
  }

  /** With one row per student, the number of rows is the number of students
      with a row. */
  lemma {:induction false} PresentSide(rows: seq<AttendanceRow>, id: SessionId)
    requires OneRowPerStudent(rows, id)
    ensures |RowsOf(rows, id)| == |PresentIds(rows, id)|
  {
    if |rows| > 0 {
      var tail := rows[1..];
      OneRowPerStudentTail(rows, id);
      PresentSide(tail, id);
      PresentIdsCons(rows, id);
      if rows[0].session == id {
        FirstStudentNotInTail(rows, id);
      }
    }
  }

  lemma OneRowPerStudentTail(rows: seq<AttendanceRow>, id: SessionId)
    requires |rows| > 0 && OneRowPerStudent(rows, id)
    ensures OneRowPerStudent(rows[1..], id)
  {
    var tail := rows[1..];
    forall i, j | 0 <= i < j < |tail| && tail[i].session == id && tail[j].session == id
      ensures tail[i].student != tail[j].student
    {
      assert tail[i] == rows[i + 1] && tail[j] == rows[j + 1];
    }
  }

  lemma PresentIdsCons(rows: seq<AttendanceRow>, id: SessionId)
    requires |rows| > 0
    ensures PresentIds(rows, id) ==
      (if rows[0].session == id then {rows[0].student} else {}) + PresentIds(rows[1..], id)
  {
    assert forall a :: a in rows <==> a == rows[0] || a in rows[1..];
  }

  lemma FirstStudentNotInTail(rows: seq<AttendanceRow>, id: SessionId)
    requires |rows| > 0 && rows[0].session == id && OneRowPerStudent(rows, id)
    ensures rows[0].student !in PresentIds(rows[1..], id)
  {
    var tail := rows[1..];
    forall a | a in tail && a.session == id ensures a.student != rows[0].student {
      var j :| 0 <= j < |tail| && tail[j] == a;
      assert rows[j + 1] == a;
    }
  }

  /** Rows that name pairwise different students, and name exactly the
      students of `names`, are as many as those students. */
  lemma {:induction false} DistinctNamesCount(rows: seq<AttendanceRow>, names: set<UserId>)
    requires forall k, l :: 0 <= k < l < |rows| ==> rows[k].student != rows[l].student
    requires forall x :: (exists a :: a in rows && a.student == x) <==> x in names
    ensures |rows| == |names|
  {
    var students := StudentsOf(rows);
    forall i, j | 0 <= i < j < |students| ensures students[i] != students[j] {
      assert students[i] == rows[i].student && students[j] == rows[j].student;
    }
    DistinctCardinality(students, names);
  }

  /** An absentee is exactly an enrolled student without a row. */
  lemma AbsenteesAreTheDifference(db: Db, s: Session)
    ensures forall x :: IsAbsentee(db, s, x) <==>
      x in EnrolledIds(db.users, s.section) - PresentIds(db.attendance, s.id)
  {
  }

  /** With unique user ids, there are as many absent rows as enrolled
      students without a row. */
  lemma AbsentSide(db: Db, s: Session)
    requires UniqueUserIds(db.users)
    ensures |AbsentRowsFor(db, s)| == |EnrolledIds(db.users, s.section) - PresentIds(db.attendance, s.id)|
  {
    AbsenteesAreTheDifference(db, s);
    DistinctNamesCount(AbsentRowsFor(db, s), EnrolledIds(db.users, s.section) - PresentIds(db.attendance, s.id));
  }

  /** When every attendance row of the session comes from a different
      enrolled student, the archive's counts add up to the enrollment of the
      section. */
  lemma EndSessionCountsAddUp(db: Db, caller: UserId, id: SessionId, at: Stamp)
    requires Owned(db, caller, id) && !HasHistory(db.histories, id)
    requires UniqueUserIds(db.users)
    requires OneRowPerStudent(db.attendance, id)
    requires forall a :: a in db.attendance && a.session == id ==>
      a.student in EnrolledIds(db.users, db.sessions[SessionIndex(db.sessions, id).value].section)
    ensures var h := EndSession(db, caller, id, at).0.body;
      h.presentCount + h.absentCount ==
        |EnrolledIds(db.users, db.sessions[SessionIndex(db.sessions, id).value].section)|
  {
    var s := db.sessions[SessionIndex(db.sessions, id).value];
    var enrolled := EnrolledIds(db.users, s.section);
    var present := PresentIds(db.attendance, id);
    PresentSide(db.attendance, id);
    AbsentSide(db, s);
    assert present <= enrolled;
    assert |enrolled - present| == |enrolled| - |present|;
  }
}
