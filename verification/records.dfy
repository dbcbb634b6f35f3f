/** The persisted documents the controllers read and write, and the store
    that holds one collection of each in storage (natural) order. */
module Records {
  import opened Common
  import opened Timetable

  datatype Role = Student | Teacher | OtherRole(name: string)

  /** A user account. `password` is the stored credential; how it is hashed
      and compared is not part of this model. */
  datatype User = User(
    id: UserId,
    name: string,
    email: string,
    password: string,
    role: Role,
    rollNumber: Option<string>,
    department: Option<string>,
    section: Option<string>,
    macAddress: Option<string>)

  datatype Status = Present | Absent

  datatype CaptureMethod = Manual | ByOtp | ByQr

  /** One attendance row. `timestamp` is `None` where the writer leaves it to
      the schema default. */
  datatype AttendanceRow = AttendanceRow(
    session: SessionId,
    student: UserId,
    status: Status,
    capture: CaptureMethod,
    verified: bool,
    timestamp: Option<Stamp>)

  /** A live class session. Fields a writer does not set are `None`. */
  datatype Session = Session(
    id: SessionId,
    teacher: UserId,
    subject: string,
    section: string,
    bssid: Option<string>,
    ssid: Option<string>,
    otp: Option<string>,
    qrCode: Option<string>,
    isActive: bool,
    routineId: Option<RoutineId>,
    periodNo: Option<nat>,
    startTime: Option<Stamp>,
    endTime: Option<Stamp>,
    createdAt: Stamp)

  /** An archived class, keyed by the id its live session had. */
  datatype History = History(
    id: SessionId,
    teacher: UserId,
    subject: string,
    section: string,
    semester: Option<nat>,
    otp: Option<string>,
    qrCode: Option<string>,
    bssid: Option<string>,
    ssid: Option<string>,
    startTime: Stamp,
    endTime: Stamp,
    presentCount: nat,
    absentCount: nat)

  /** The database: one sequence per collection, in natural order. */
  datatype Db = Db(
    routines: seq<Routine>,
    users: seq<User>,
    sessions: seq<Session>,
    attendance: seq<AttendanceRow>,
    histories: seq<History>)

  /** MongoDB's unique `_id` index on the sessions collection. */
  predicate UniqueSessionIds(sessions: seq<Session>) {
    forall i, j :: 0 <= i < j < |sessions| ==> sessions[i].id != sessions[j].id
  }

  /** MongoDB's unique `_id` index on the users collection. */
  predicate UniqueUserIds(users: seq<User>) {
    forall i, j :: 0 <= i < j < |users| ==> users[i].id != users[j].id
  }

  /** The live-session invariant: at most one active session per teacher. */
  predicate OneActivePerTeacher(sessions: seq<Session>) {
    forall i, j ::
      (0 <= i < |sessions| && 0 <= j < |sessions| &&
       sessions[i].isActive && sessions[j].isActive && sessions[i].teacher == sessions[j].teacher) ==> i == j
  }

  predicate HasHistory(histories: seq<History>, id: SessionId) {
    exists h :: h in histories && h.id == id
  }
}
