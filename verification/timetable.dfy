/** The nested weekly timetable and the schedule matcher of `startSession`.
    A routine holds, per day, an ordered list of periods. The matcher
    unwinds routines into one record per (routine, day, period), keeps the
    records of the current day, the calling teacher and the requested
    subject, and picks the first whose "HH:MM" window contains the current
    time. */
module Timetable {
  import opened Common
  import opened Clock

  datatype Period = Period(
    periodNo: int,
    startTime: string,
    endTime: string,
    subject: string,
    teacher: UserId)

  datatype DayPlan = DayPlan(day: string, periods: seq<Period>)

  datatype Routine = Routine(
    id: RoutineId,
    dept: string,
    batch: string,
    semester: int,
    classNo: int,
    timetable: seq<DayPlan>)

  /** One document of the unwound aggregation: the routine's id, the day and
      a single period of that day. */
  datatype Unwound = Unwound(routineId: RoutineId, day: string, period: Period)

  /** The aggregation's unwinding of one day's periods: one record per
      period, in order. */
  function UnwindDay(id: RoutineId, d: DayPlan): seq<Unwound> {
    seq(|d.periods|, k requires 0 <= k < |d.periods| => Unwound(id, d.day, d.periods[k]))
  }

  function UnwindDays(id: RoutineId, days: seq<DayPlan>): seq<Unwound> {
    if |days| == 0 then [] else UnwindDay(id, days[0]) + UnwindDays(id, days[1..])
  }

  /** Both unwinding stages of the aggregation over every routine, in
      storage order. Every record comes from a period of a day of a routine,
      and every such period yields a record. */
  function Unwind(routines: seq<Routine>): (r: seq<Unwound>)
    ensures forall u :: u in r ==>
      (exists rt, d :: rt in routines && d in rt.timetable &&
         u.routineId == rt.id && u.day == d.day && u.period in d.periods)
    ensures forall rt, d, p :: rt in routines && d in rt.timetable && p in d.periods ==>
      Unwound(rt.id, d.day, p) in r
  {
    if |routines| == 0 then []
    else
      UnwindDaysMembers(routines[0].id, routines[0].timetable);
      UnwindDays(routines[0].id, routines[0].timetable) + Unwind(routines[1..])
  }

  lemma {:induction false} UnwindDaysMembers(id: RoutineId, days: seq<DayPlan>)
    ensures forall u :: u in UnwindDays(id, days) ==>
      (u.routineId == id && exists d :: d in days && u.day == d.day && u.period in d.periods)
    ensures forall d, p :: d in days && p in d.periods ==> Unwound(id, d.day, p) in UnwindDays(id, days)
  {
    if |days| > 0 {
      UnwindDaysMembers(id, days[1..]);
      var here := UnwindDay(id, days[0]);
      forall p | p in days[0].periods ensures Unwound(id, days[0].day, p) in here {
        var k :| 0 <= k < |days[0].periods| && days[0].periods[k] == p;
        assert here[k] == Unwound(id, days[0].day, p);
      }
    }
  }

  /** Every period of every routine has well-formed "HH:MM" bounds. */
  predicate WellFormedTimes(routines: seq<Routine>) {
    forall rt, d, p :: rt in routines && d in rt.timetable && p in d.periods ==>
      ValidTime(p.startTime) && ValidTime(p.endTime)
  }

  /** The `$match` stages: the record is on the current day, taught by the
      caller and for the requested subject. */
  predicate Selected(u: Unwound, day: string, teacher: UserId, subject: string) {
    u.day == day && u.period.teacher == teacher && u.period.subject == subject
  }

  /** The test the first-match search applies: the current time lies in the
      period's window, both ends included. */
  predicate Current(u: Unwound, now: string) {
    InWindow(now, u.period.startTime, u.period.endTime)
  }

  predicate Qualifies(u: Unwound, day: string, teacher: UserId, subject: string, now: string) {
    Selected(u, day, teacher, subject) && Current(u, now)
  }

  /** The aggregation result: the selected records in unwind order. */
  function Aggregate(us: seq<Unwound>, day: string, teacher: UserId, subject: string): seq<Unwound> {
    if |us| == 0 then []
    else if Selected(us[0], day, teacher, subject) then [us[0]] + Aggregate(us[1..], day, teacher, subject)
    else Aggregate(us[1..], day, teacher, subject)
  }

  /** `Array.prototype.find` with the window test. */
  function FirstCurrent(us: seq<Unwound>, now: string): Option<Unwound> {
    if |us| == 0 then None
    else if Current(us[0], now) then Some(us[0])
    else FirstCurrent(us[1..], now)
  }

  /** `us[i]` is the first position of `us` that qualifies. */
  predicate FirstQualifying(us: seq<Unwound>, i: int, day: string, teacher: UserId, subject: string, now: string) {
    && 0 <= i < |us|
    && Qualifies(us[i], day, teacher, subject, now)
    && forall j :: 0 <= j < i ==> !Qualifies(us[j], day, teacher, subject, now)
  }

  lemma {:induction false} FindInAggregate(us: seq<Unwound>, day: string, teacher: UserId, subject: string, now: string)
    ensures var r := FirstCurrent(Aggregate(us, day, teacher, subject), now);
      && (r.None? <==> forall i :: 0 <= i < |us| ==> !Qualifies(us[i], day, teacher, subject, now))
      && (r.Some? ==> exists i :: FirstQualifying(us, i, day, teacher, subject, now) && us[i] == r.value)
  {
    if |us| > 0 {
      FindInAggregate(us[1..], day, teacher, subject, now);
      var r := FirstCurrent(Aggregate(us, day, teacher, subject), now);
      var tail := us[1..];
      if Qualifies(us[0], day, teacher, subject, now) {
        assert FirstQualifying(us, 0, day, teacher, subject, now);
      } else {
        assert r == FirstCurrent(Aggregate(tail, day, teacher, subject), now);
        if r.Some? {
          var i :| FirstQualifying(tail, i, day, teacher, subject, now) && tail[i] == r.value;
          assert FirstQualifying(us, i + 1, day, teacher, subject, now);
        } else {
          forall i | 0 <= i < |us| ensures !Qualifies(us[i], day, teacher, subject, now) {
            if i > 0 { assert us[i] == tail[i - 1]; }
          }
        }
      }
    }
  }

  /** The schedule matcher of `startSession`: on the routines' unwind order it
      finds nothing exactly when no record qualifies, and otherwise returns
      the first qualifying record. */
  function MatchPeriod(routines: seq<Routine>, day: string, teacher: UserId, subject: string, now: string): (r: Option<Unwound>)
    ensures var us := Unwind(routines);
      r.None? <==> forall i :: 0 <= i < |us| ==> !Qualifies(us[i], day, teacher, subject, now)
    ensures r.Some? ==>
      (exists i :: FirstQualifying(Unwind(routines), i, day, teacher, subject, now) &&
         Unwind(routines)[i] == r.value)
  {
    var us := Unwind(routines);
    FindInAggregate(us, day, teacher, subject, now);
    FirstCurrent(Aggregate(us, day, teacher, subject), now)
  }

  /** When the timetable admits at most one qualifying record, the first
      match is that record. */
  lemma FirstMatchIsUnique(routines: seq<Routine>, day: string, teacher: UserId, subject: string, now: string)
    requires forall u, v ::
      (u in Unwind(routines) && v in Unwind(routines) &&
       Qualifies(u, day, teacher, subject, now) && Qualifies(v, day, teacher, subject, now)) ==> u == v
    ensures forall u :: u in Unwind(routines) && Qualifies(u, day, teacher, subject, now) ==>
      MatchPeriod(routines, day, teacher, subject, now) == Some(u)
  {
    forall u | u in Unwind(routines) && Qualifies(u, day, teacher, subject, now)
      ensures MatchPeriod(routines, day, teacher, subject, now) == Some(u)
    {
      var us := Unwind(routines);
      var k :| 0 <= k < |us| && us[k] == u;
      var r := MatchPeriod(routines, day, teacher, subject, now);
      assert r.Some?;
      var i :| FirstQualifying(us, i, day, teacher, subject, now) && us[i] == r.value;
    }
  }
}
