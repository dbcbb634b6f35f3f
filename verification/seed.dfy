/** The seeding script as pure builders: the nested weekly timetable of each
    department, and the historical (session, attendance, archive) records.
    Document ids, the random presence draws and the calendar enter as
    parameters. */
module Seed {
  import opened Common
  import opened Clock
  import opened Timetable
  import opened Records

  const WeekDays: seq<string> := ["Monday", "Tuesday", "Wednesday", "Thursday", "Friday", "Saturday"]

  datatype Slot = Slot(start: string, end: string)

  /** The six daily slots. */
  function TimeSlots(): (slots: seq<Slot>)
    ensures |slots| == 6
  {
    [ Slot("09:00", "10:00"), Slot("10:00", "11:00"), Slot("11:00", "12:00"),
      Slot("13:00", "14:00"), Slot("14:00", "15:00"), Slot("15:00", "16:00") ]
  }

  /** The clock readings of the slot bounds. */
  lemma SlotClock()
    ensures ValidTime("09:00") && MinuteOfDay("09:00") == 540
    ensures ValidTime("10:00") && MinuteOfDay("10:00") == 600
    ensures ValidTime("11:00") && MinuteOfDay("11:00") == 660
    ensures ValidTime("12:00") && MinuteOfDay("12:00") == 720
    ensures ValidTime("13:00") && MinuteOfDay("13:00") == 780
    ensures ValidTime("14:00") && MinuteOfDay("14:00") == 840
    ensures ValidTime("15:00") && MinuteOfDay("15:00") == 900
    ensures ValidTime("16:00") && MinuteOfDay("16:00") == 960
  {
    ClockValue("09:00", 0, 9, 0, 0);
    ClockValue("10:00", 1, 0, 0, 0);
    ClockValue("11:00", 1, 1, 0, 0);
    ClockValue("12:00", 1, 2, 0, 0);
    ClockValue("13:00", 1, 3, 0, 0);
    ClockValue("14:00", 1, 4, 0, 0);
    ClockValue("15:00", 1, 5, 0, 0);
    ClockValue("16:00", 1, 6, 0, 0);
  }

  /** Each slot is a well-formed "HH:MM" window of positive length, and it
      ends no later than the next slot starts. Apart from the lunch break
      after the third slot, a slot ends in the very minute the next starts. */
  lemma SlotFacts(s: nat)
    requires s < 6
    ensures var slot := TimeSlots()[s];
      ValidTime(slot.start) && ValidTime(slot.end) && MinuteOfDay(slot.start) < MinuteOfDay(slot.end)
    ensures s < 5 ==> MinuteOfDay(TimeSlots()[s].end) <= MinuteOfDay(TimeSlots()[s + 1].start)
    ensures s < 5 && s != 2 ==> TimeSlots()[s].end == TimeSlots()[s + 1].start
  {
    SlotClock();
  }

  /** Hence every earlier slot ends no later than any later one starts. */
  lemma {:induction false} SlotsAreOrdered(a: nat, b: nat)
    requires a < b < 6
    ensures MinuteOfDay(TimeSlots()[a].end) <= MinuteOfDay(TimeSlots()[b].start)
    decreases b - a
  {
    SlotFacts(a);
    if a + 1 < b {
      SlotFacts(a + 1);
      SlotsAreOrdered(a + 1, b);
    }
  }

  const Departments: seq<string> := ["CSE", "ECE", "MECH"]

  /** The six subjects of each seeded department; within a department they
      are pairwise distinct. */
  function DeptSubjects(dept: string): (subjects: seq<string>)
    requires dept in Departments
    ensures |subjects| == 6 && NoDuplicates(subjects)
  {
    if dept == "CSE" then
      ["Data Structures", "Algorithms", "Database Systems", "Operating Systems", "Computer Networks", "Software Engineering"]
    else if dept == "ECE" then
      ["Circuit Theory", "Digital Logic", "Signals & Systems", "Microprocessors", "Analog Electronics", "Control Systems"]
    else
      ["Thermodynamics", "Fluid Mechanics", "Strength of Materials", "Machine Design", "Manufacturing Tech", "Heat Transfer"]
  }

  /** What the timetable loop needs of one department: the id its routine
      document receives, its name, its two teachers and its six subjects. */
  datatype DeptSeed = DeptSeed(routineId: RoutineId, dept: string, teachers: seq<UserId>, subjects: seq<string>)

  predicate ValidDeptSeed(d: DeptSeed) {
    |d.teachers| == 2 && |d.subjects| == 6
  }

  /** The period pushed for slot `slot`. */
  function SeedPeriod(d: DeptSeed, slot: nat): (p: Period)
    requires ValidDeptSeed(d) && slot < 6
  {
    Period(slot + 1, TimeSlots()[slot].start, TimeSlots()[slot].end, d.subjects[slot], d.teachers[slot % 2])
  }

  /** The inner loop: slots 0 to 5 in order, the period of slot `s` is
      number `s + 1`, spans the slot's window and is the slot's subject,
      taught by the department's first teacher in even slots and its second
      in odd ones. */
  function SeedPeriods(d: DeptSeed): (ps: seq<Period>)
    requires ValidDeptSeed(d)
    ensures |ps| == 6
    ensures forall s :: 0 <= s < 6 ==>
      && ps[s].periodNo == s + 1
      && ps[s].startTime == TimeSlots()[s].start
      && ps[s].endTime == TimeSlots()[s].end
      && ps[s].subject == d.subjects[s]
      && ps[s].teacher == d.teachers[s % 2]
  {
    seq(6, s requires 0 <= s < 6 => SeedPeriod(d, s))
  }

  /** The day loop: Monday to Saturday in order, each day with six periods;
      the period of slot `s` is number `s + 1`, spans the slot's window, and
      is the slot's subject taught by teacher `s % 2`. */
  function SeedTimetable(d: DeptSeed): (days: seq<DayPlan>)
    requires ValidDeptSeed(d)
    ensures |days| == 6
    ensures forall i :: 0 <= i < 6 ==> days[i].day == WeekDays[i] && |days[i].periods| == 6
    ensures forall i, s :: 0 <= i < 6 && 0 <= s < 6 ==>
      && days[i].periods[s].periodNo == s + 1
      && days[i].periods[s].startTime == TimeSlots()[s].start
      && days[i].periods[s].endTime == TimeSlots()[s].end
      && days[i].periods[s].subject == d.subjects[s]
      && days[i].periods[s].teacher == d.teachers[s % 2]
    ensures forall i :: 0 <= i < 6 ==> days[i] == DayPlan(WeekDays[i], SeedPeriods(d))
  {
    var ps := SeedPeriods(d);
    var days := seq(6, i requires 0 <= i < 6 => DayPlan(WeekDays[i], ps));
    assert forall i :: 0 <= i < 6 ==> days[i].periods == ps;
    days
  }

  function SeedRoutine(d: DeptSeed): (r: Routine)
    requires ValidDeptSeed(d)
  {
    Routine(d.routineId, d.dept, "2022-2026", 3, 2, SeedTimetable(d))
  }

  /** The department loop: one routine per department, in order, under the
      id the store assigned, for batch 2022-2026, semester 3, class 2. Every
      period of a department's routine is one of that department's subjects,
      taught by one of that department's two teachers. */
  function SeedRoutines(depts: seq<DeptSeed>): (rs: seq<Routine>)
    requires forall i :: 0 <= i < |depts| ==> ValidDeptSeed(depts[i])
    ensures |rs| == |depts|
    ensures forall i :: 0 <= i < |depts| ==>
      && rs[i].id == depts[i].routineId && rs[i].dept == depts[i].dept
      && rs[i].batch == "2022-2026" && rs[i].semester == 3 && rs[i].classNo == 2
      && rs[i].timetable == SeedTimetable(depts[i])
    ensures forall i, d, p :: 0 <= i < |depts| && d in rs[i].timetable && p in d.periods ==>
      p.teacher in depts[i].teachers && p.subject in depts[i].subjects
  {
    var rs := seq(|depts|, i requires 0 <= i < |depts| => SeedRoutine(depts[i]));
    assert forall i, d, p :: 0 <= i < |depts| && d in rs[i].timetable && p in d.periods ==>
      p.teacher in depts[i].teachers && p.subject in depts[i].subjects by {
      forall i, d, p | 0 <= i < |depts| && d in rs[i].timetable && p in d.periods
        ensures p.teacher in depts[i].teachers && p.subject in depts[i].subjects
      {
        var days := SeedTimetable(depts[i]);
        var k :| 0 <= k < 6 && days[k] == d;
        var s :| 0 <= s < 6 && d.periods[s] == p;
        assert p.teacher == depts[i].teachers[s % 2];
        assert p.subject == depts[i].subjects[s];
      }
    }
    rs
  }

  /** The seed's three departments, given the ids the store assigned to the
      routines and to each department's two teachers. */
  function SeedDepartments(routineIds: seq<RoutineId>, teacherIds: seq<seq<UserId>>): (depts: seq<DeptSeed>)
    requires |routineIds| == 3 && |teacherIds| == 3
    requires forall i :: 0 <= i < 3 ==> |teacherIds[i]| == 2
    ensures |depts| == 3
    ensures forall i :: 0 <= i < 3 ==> ValidDeptSeed(depts[i]) && depts[i].dept == Departments[i]
    ensures forall i :: 0 <= i < 3 ==> depts[i].routineId == routineIds[i] && depts[i].teachers == teacherIds[i]
    ensures forall i :: 0 <= i < 3 ==> NoDuplicates(depts[i].subjects)
  {
    seq(3, i requires 0 <= i < 3 =>
      DeptSeed(routineIds[i], Departments[i], teacherIds[i], DeptSubjects(Departments[i])))
  }

  /** The conditions under which the seeded timetable is unambiguous: every
      department's subjects are distinct, and no teacher serves two
      departments (the seed creates separate teacher accounts per department). */
  predicate UnambiguousSeed(depts: seq<DeptSeed>) {
    && (forall i :: 0 <= i < |depts| ==> ValidDeptSeed(depts[i]) && NoDuplicates(depts[i].subjects))
    && (forall i, j, a, b :: 0 <= i < |depts| && 0 <= j < |depts| && i != j && 0 <= a < 2 && 0 <= b < 2 ==>
          depts[i].teachers[a] != depts[j].teachers[b])
  }

  /** Distinct teacher accounts make the seed's own three departments
      unambiguous. */
  lemma SeedDepartmentsAreUnambiguous(routineIds: seq<RoutineId>, teacherIds: seq<seq<UserId>>)
    requires |routineIds| == 3 && |teacherIds| == 3
    requires forall i :: 0 <= i < 3 ==> |teacherIds[i]| == 2
    requires forall i, j, a, b :: 0 <= i < 3 && 0 <= j < 3 && i != j && 0 <= a < 2 && 0 <= b < 2 ==>
      teacherIds[i][a] != teacherIds[j][b]
    ensures UnambiguousSeed(SeedDepartments(routineIds, teacherIds))
  {
  }

  /** Within every seeded day the periods are well-formed "HH:MM" windows
      in slot order: an earlier period ends no later than a later one
      starts. */
  lemma SeedSlotsAreOrdered(d: DeptSeed, i: nat, a: nat, b: nat)
    requires ValidDeptSeed(d) && i < 6 && a < b < 6
    ensures var ps := SeedTimetable(d)[i].periods;
      && ValidTime(ps[a].startTime) && ValidTime(ps[a].endTime)
      && ValidTime(ps[b].startTime) && ValidTime(ps[b].endTime)
      && MinuteOfDay(ps[a].startTime) < MinuteOfDay(ps[a].endTime)
      && MinuteOfDay(ps[b].startTime) < MinuteOfDay(ps[b].endTime)
      && MinuteOfDay(ps[a].endTime) <= MinuteOfDay(ps[b].startTime)
  {
    SlotFacts(a);
    SlotFacts(b);
    SlotsAreOrdered(a, b);
  }

  /** The windows are closed at both ends, so two consecutive slots outside
      the lunch break share their boundary time, and that minute lies in
      both windows. `SeedTimetable` gives consecutive slots teachers of
      different parity, so one teacher's lookup still finds one period. */
  lemma SlotBoundary(a: nat)
    requires a < 5 && a != 2
    ensures var here, next := TimeSlots()[a], TimeSlots()[a + 1];
      here.end == next.start && InWindow(here.end, here.start, here.end) && InWindow(here.end, next.start, next.end)
  {
    var here, next := TimeSlots()[a], TimeSlots()[a + 1];
    SlotFacts(a);
    SlotFacts(a + 1);
  }

  /** The seeded routines satisfy the well-formedness `startSession`'s
      schedule characterisation assumes: every period bound is a valid
      "HH:MM" time. */
  lemma SeedIsWellFormed(depts: seq<DeptSeed>)
    requires forall i :: 0 <= i < |depts| ==> ValidDeptSeed(depts[i])
    ensures WellFormedTimes(SeedRoutines(depts))
  {
    var rs := SeedRoutines(depts);
    forall rt, d, p | rt in rs && d in rt.timetable && p in d.periods
      ensures ValidTime(p.startTime) && ValidTime(p.endTime)
    {
      var i :| 0 <= i < |rs| && rs[i] == rt;
      var s := SeedDayPeriod(depts[i], d, p);
      SlotFacts(s);
    }
  }

  /** A record of the seeded timetable is the period of some slot of some
      department, on a weekday. */
  lemma SeededRecord(depts: seq<DeptSeed>, u: Unwound) returns (i: nat, s: nat)
    requires forall i :: 0 <= i < |depts| ==> ValidDeptSeed(depts[i])
    requires u in Unwind(SeedRoutines(depts))
    ensures i < |depts| && s < 6
    ensures u.routineId == depts[i].routineId && u.period == SeedPeriod(depts[i], s)
  {
    var rs := SeedRoutines(depts);
    var rt, d :| rt in rs && d in rt.timetable && u.routineId == rt.id && u.day == d.day && u.period in d.periods;
    i :| 0 <= i < |rs| && rs[i] == rt;
    s := SeedDayPeriod(depts[i], d, u.period);
  }

  /** A period of a day of a seeded timetable is the period of some slot. */
  lemma SeedDayPeriod(dept: DeptSeed, d: DayPlan, p: Period) returns (s: nat)
    requires ValidDeptSeed(dept) && d in SeedTimetable(dept) && p in d.periods
    ensures s < 6 && p == SeedPeriod(dept, s)
  {
    var days := SeedTimetable(dept);
    var k :| 0 <= k < |days| && days[k] == d;
    assert d.periods == SeedPeriods(dept);
    s :| 0 <= s < 6 && d.periods[s] == p;
  }

  /** Two seeded periods with the same teacher and subject are the same
      slot of the same department. */
  lemma SeedPeriodsDiffer(depts: seq<DeptSeed>, i: nat, s: nat, j: nat, t: nat)
    requires UnambiguousSeed(depts) && i < |depts| && j < |depts| && s < 6 && t < 6
    requires SeedPeriod(depts[i], s).teacher == SeedPeriod(depts[j], t).teacher
    requires SeedPeriod(depts[i], s).subject == SeedPeriod(depts[j], t).subject
    ensures i == j && s == t
  {
    assert depts[i].teachers[s % 2] == depts[j].teachers[t % 2];
    assert i == j;
    assert depts[i].subjects[s] == depts[i].subjects[t];
  }

  /** Two selected records of a seeded timetable are the same record. */
  lemma SeededSelectionIsUnique(depts: seq<DeptSeed>, day: string, teacher: UserId, subject: string, u: Unwound, v: Unwound)
    requires UnambiguousSeed(depts)
    requires u in Unwind(SeedRoutines(depts)) && v in Unwind(SeedRoutines(depts))
    requires Selected(u, day, teacher, subject) && Selected(v, day, teacher, subject)
    ensures u == v
  {
    var i, s := SeededRecord(depts, u);
    var j, t := SeededRecord(depts, v);
    SeedPeriodsDiffer(depts, i, s, j, t);
  }

  /** On a seeded timetable a teacher has at most one period of a subject on
      a given day, so the matcher's "first match" is the only match. */
  lemma SeededMatchIsUnique(depts: seq<DeptSeed>, day: string, teacher: UserId, subject: string)
    requires UnambiguousSeed(depts)
    ensures forall u, v ::
      (u in Unwind(SeedRoutines(depts)) && v in Unwind(SeedRoutines(depts)) &&
       Selected(u, day, teacher, subject) && Selected(v, day, teacher, subject)) ==> u == v
  {
    forall u, v | u in Unwind(SeedRoutines(depts)) && v in Unwind(SeedRoutines(depts)) &&
                  Selected(u, day, teacher, subject) && Selected(v, day, teacher, subject)
      ensures u == v
    {
      SeededSelectionIsUnique(depts, day, teacher, subject, u, v);
    }
  }

  /** Hence `startSession` on the seeded timetable picks the one period that
      qualifies, whatever the iteration order. */
  lemma SeededMatchIsTheQualifyingPeriod(depts: seq<DeptSeed>, day: string, teacher: UserId, subject: string, now: string, u: Unwound)
    requires UnambiguousSeed(depts)
    requires u in Unwind(SeedRoutines(depts)) && Qualifies(u, day, teacher, subject, now)
    ensures MatchPeriod(SeedRoutines(depts), day, teacher, subject, now) == Some(u)
  {
    SeededMatchIsUnique(depts, day, teacher, subject);
    FirstMatchIsUnique(SeedRoutines(depts), day, teacher, subject, now);
  }

  // ---------------------------------------------------------------------------
  // Historical data

  /** One past calendar day of the recent-history loop: its `en-US` weekday
      name, the stamp of its local midnight, the ids the six sessions receive
      and the six presence draws (each one present when the uniform random
      real exceeds 0.2). */
  datatype PastDay = PastDay(name: string, midnight: Stamp, sessionIds: seq<SessionId>, present: seq<bool>)

  predicate ValidPastDay(day: PastDay) {
    |day.sessionIds| == 6 && |day.present| == 6
  }

  datatype Triple = Triple(session: Session, row: AttendanceRow, history: History)

  /** A clock time on a past day: the day's midnight plus the time's minutes,
      in milliseconds. */
  function AtTime(day: PastDay, time: string): Stamp
    requires ClockShape(time)
  {
    day.midnight + MinuteOfDay(time) * 60000
  }

  /** The three documents the seed writes for one slot of one past day: an
      inactive session, one attendance row of the student and its archive,
      all under the same id. The archive counts one present or one absent,
      matching the row. */
  function RecentTriple(teacher: UserId, student: UserId, subjects: seq<string>, day: PastDay,
                        slot: nat, seededAt: Stamp): (t: Triple)
    requires |subjects| == 6 && ValidPastDay(day) && slot < 6
    ensures t.session.id == t.row.session == t.history.id == day.sessionIds[slot]
    ensures !t.session.isActive && t.session.teacher == t.history.teacher == teacher
    ensures t.row.student == student
    ensures t.history.presentCount + t.history.absentCount == 1
    ensures t.history.presentCount == 1 <==> t.row.status == Present
    ensures t.row.verified <==> t.row.status == Present
    ensures t.row.status == Present <==> day.present[slot]
  {
    var id := day.sessionIds[slot];
    var isPresent := day.present[slot];
    SlotFacts(slot);
    var start := AtTime(day, TimeSlots()[slot].start);
    var end := AtTime(day, TimeSlots()[slot].end);
    var session := Session(id, teacher, subjects[slot], "A", None, None, None, None, false, None,
                           Some(slot + 1), Some(start), Some(end), seededAt);
    var row := if isPresent
      then AttendanceRow(id, student, Present, Manual, true, Some(start))
      else AttendanceRow(id, student, Absent, Manual, false, Some(start));
    var history := History(id, teacher, subjects[slot], "A", Some(3), None, None, None, None, start, end,
                           if isPresent then 1 else 0, if isPresent then 0 else 1);
    Triple(session, row, history)
  }

  /** The six triples of one past day; Sundays are skipped. */
  function RecentDay(teacher: UserId, student: UserId, subjects: seq<string>, day: PastDay, seededAt: Stamp): (ts: seq<Triple>)
    requires |subjects| == 6 && ValidPastDay(day)
    ensures |ts| == if day.name == "Sunday" then 0 else 6
  {
    if day.name == "Sunday" then []
    else seq(6, s requires 0 <= s < 6 => RecentTriple(teacher, student, subjects, day, s, seededAt))
  }

  /** Days of the list that are not Sundays. */
  function WorkingDays(days: seq<PastDay>): nat {
    if |days| == 0 then 0 else (if days[0].name == "Sunday" then 0 else 1) + WorkingDays(days[1..])
  }

  /** The loop over the past seven days: six consistent triples per working
      day, none for a Sunday. */
  function RecentHistory(teacher: UserId, student: UserId, subjects: seq<string>, days: seq<PastDay>, seededAt: Stamp): (ts: seq<Triple>)
    requires |subjects| == 6 && forall i :: 0 <= i < |days| ==> ValidPastDay(days[i])
    ensures |ts| == 6 * WorkingDays(days)
    ensures forall t :: t in ts ==>
      && t.session.id == t.row.session == t.history.id
      && !t.session.isActive
      && t.history.presentCount + t.history.absentCount == 1
      && (t.history.presentCount == 1 <==> t.row.status == Present)
  {
    if |days| == 0 then []
    else RecentDay(teacher, student, subjects, days[0], seededAt) + RecentHistory(teacher, student, subjects, days[1..], seededAt)
  }

  /** One simulated class of a past semester: the id of its dummy session,
      the presence draw and the back-dated stamp. */
  datatype PastClass = PastClass(sessionId: SessionId, present: bool, date: Stamp)

  datatype Pair = Pair(row: AttendanceRow, history: History)

  /** The past-semester loop for one semester: class `i` is for subject
      `i % 6`; its archive always counts one present and no absent, whatever
      the row says. */
  function PastSemester(teacher: UserId, student: UserId, subjects: seq<string>, sem: nat, classes: seq<PastClass>): (ps: seq<Pair>)
    requires |subjects| == 6
    ensures |ps| == |classes|
    ensures forall i :: 0 <= i < |ps| ==>
      && ps[i].history.id == ps[i].row.session == classes[i].sessionId
      && ps[i].history.subject == subjects[i % 6]
      && ps[i].history.semester == Some(sem)
      && ps[i].row.verified
      && (ps[i].row.status == Present <==> classes[i].present)
      && ps[i].history.presentCount == 1 && ps[i].history.absentCount == 0
  {
    seq(|classes|, i requires 0 <= i < |classes| =>
      var c := classes[i];
      Pair(AttendanceRow(c.sessionId, student, if c.present then Present else Absent, Manual, true, Some(c.date)),
           History(c.sessionId, teacher, subjects[i % 6], "A", Some(sem), None, None, None, None, c.date, c.date, 1, 0)))
  }

  /** Semesters 1 and 2, fifty classes each. */
  function PastSemesters(teacher: UserId, student: UserId, subjects: seq<string>, sem1: seq<PastClass>, sem2: seq<PastClass>): (ps: seq<Pair>)
    requires |subjects| == 6 && |sem1| == 50 && |sem2| == 50
    ensures |ps| == 100
    ensures forall i :: 0 <= i < 100 ==> ps[i].history.semester == Some(if i < 50 then 1 else 2)
  {
    PastSemester(teacher, student, subjects, 1, sem1) + PastSemester(teacher, student, subjects, 2, sem2)
  }

  /** The past-semester archives overstate attendance: an absent row still
      has an archive that counts it present. */
  lemma PastArchiveIgnoresStatus(teacher: UserId, student: UserId, subjects: seq<string>, sem: nat, classes: seq<PastClass>, i: nat)
    requires |subjects| == 6 && i < |classes| && !classes[i].present
    ensures var p := PastSemester(teacher, student, subjects, sem, classes)[i];
      p.row.status == Absent && p.history.presentCount == 1 && p.history.absentCount == 0
  {
  }
}
