/** The stored records (exam series, exams, users, student profiles, hall
    tickets), the store holding them, and the unique keys the database
    enforces on them. */
module Entities {
  import opened Outcomes
  import opened Seqs

  // ---------------------------------------------------------------------------
  // Calendar values
  // ---------------------------------------------------------------------------

  /** `DateOnly.DayNumber` of 9999-12-31, `DateOnly.MaxValue`. */
  const MaxDay: int := 3652058

  /** A `DateOnly`, as its day number counted from 0001-01-01. */
  type Date = d: int | 0 <= d <= MaxDay

  const SecondsPerDay: int := 86400

  /** A `TimeOnly`, as seconds since midnight. */
  type TimeOfDay = t: int | 0 <= t < SecondsPerDay

  /** A `DateTime`, as seconds since 0001-01-01T00:00 UTC. */
  type Instant = int

  /** `date.ToDateTime(TimeOnly.MinValue)`: the instant a day begins. */
  function Midnight(d: Date): Instant {
    d * SecondsPerDay
  }

  /** `DayOfWeek.ToString()`. Day 0 (0001-01-01) was a Monday and the .NET
      enumeration starts from Sunday. */
  function DayOfWeekName(d: Date): string {
    ["Sunday", "Monday", "Tuesday", "Wednesday", "Thursday", "Friday", "Saturday"][(d + 1) % 7]
  }

  // ---------------------------------------------------------------------------
  // Records
  // ---------------------------------------------------------------------------

  /** A `Guid`; `EmptyGuid` stands for `Guid.Empty`. */
  type SeriesId = int

  const EmptyGuid: SeriesId := 0

  /** The integer identity key `Users.Id` (not the textual `UserId`). */
  type UserKey = int

  const StudentRole: string := "Student"
  const ReleasedStatus: string := "Released"

  /** `ExamType` is stored as its integer value (1 Semester, 2 Midterm,
      3 Internal Lab, 4 External Lab). */
  datatype ExamSeries = ExamSeries(
    id: SeriesId,
    name: string,
    examType: int,
    year: int,
    branches: seq<string>,
    startDate: Date,
    endDate: Date,
    createdBy: string,
    createdAt: Instant)

  datatype Exam = Exam(
    seriesId: SeriesId,
    subject: string,
    date: Date,
    startTime: TimeOfDay,
    endTime: TimeOfDay,
    branch: string,
    year: int,
    isHoliday: bool)

  datatype User = User(
    id: UserKey,
    userId: string,
    fullName: string,
    email: string,
    passwordHash: string,
    role: string,
    isActive: bool)

  datatype StudentProfile = StudentProfile(
    studentId: UserKey,
    rollNumber: string,
    department: string,
    year: string,
    section: string,
    createdAt: Instant)

  datatype HallTicket = HallTicket(
    studentId: UserKey,
    seriesId: SeriesId,
    number: string,
    issuedAt: Instant,
    status: string,
    remarks: Option<string>)

  /** The tables the services read and write. */
  datatype Db = Db(
    users: seq<User>,
    profiles: seq<StudentProfile>,
    series: seq<ExamSeries>,
    exams: seq<Exam>,
    tickets: seq<HallTicket>)

  // ---------------------------------------------------------------------------
  // Unique keys
  // ---------------------------------------------------------------------------

  /** The key of each unique index. */
  function SeriesKey(s: ExamSeries): SeriesId { s.id }
  function ExamKey(e: Exam): (SeriesId, string, Date) { (e.seriesId, e.branch, e.date) }
  function TicketKey(t: HallTicket): (UserKey, SeriesId) { (t.studentId, t.seriesId) }
  function ProfileKey(p: StudentProfile): UserKey { p.studentId }
  function UserKeyOf(u: User): UserKey { u.id }

  /** The textual `UserId` of a user. */
  function UserIdOf(u: User): string { u.userId }

  /** The primary key of ExamSeries. */
  predicate SeriesKeysUnique(ss: seq<ExamSeries>) {
    UniqueBy(ss, SeriesKey)
  }

  /** The unique index on (ExamSeriesId, Branch, ExamDate). */
  predicate ExamKeysUnique(es: seq<Exam>) {
    UniqueBy(es, ExamKey)
  }

  /** The unique index on (StudentId, ExamSeriesId). */
  predicate TicketKeysUnique(ts: seq<HallTicket>) {
    UniqueBy(ts, TicketKey)
  }

  /** The unique index on StudentProfiles.StudentId (one profile per user). */
  predicate ProfileKeysUnique(ps: seq<StudentProfile>) {
    UniqueBy(ps, ProfileKey)
  }

  /** The primary key of Users. */
  predicate UserKeysUnique(us: seq<User>) {
    UniqueBy(us, UserKeyOf)
  }

  predicate Valid(db: Db) {
    && UserKeysUnique(db.users)
    && ProfileKeysUnique(db.profiles)
    && SeriesKeysUnique(db.series)
    && ExamKeysUnique(db.exams)
    && TicketKeysUnique(db.tickets)
  }

  // ---------------------------------------------------------------------------
  // Lookups by key
  // ---------------------------------------------------------------------------

  function FindSeries(db: Db, id: SeriesId): Option<ExamSeries> {
    Find(db.series, (s: ExamSeries) => s.id == id)
  }

  function FindUser(db: Db, key: UserKey): Option<User> {
    Find(db.users, (u: User) => u.id == key)
  }

  /** The profile of a user (the `StudentProfile` navigation). */
  function ProfileOf(db: Db, key: UserKey): Option<StudentProfile> {
    Find(db.profiles, (p: StudentProfile) => p.studentId == key)
  }
}
