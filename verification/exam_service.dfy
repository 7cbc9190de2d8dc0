/** Exam-series scheduling (ExamService): creating a series, reporting which
    of its branches are scheduled, the day-by-day calendar of a branch,
    replacing a branch's schedule, the series summary, and the two student
    views of the schedule. Every operation maps the store and a request to an
    error or to a new store and a response. */
module ExamService {
  import opened Outcomes
  import opened Text
  import opened Seqs
  import opened BranchCatalog
  import opened Entities
  import opened Requests

  const SeriesNotFound: string := "Exam series not found"

  function NotInSeries(branch: string): string {
    "Branch " + branch + " not included in this exam series"
  }

  // ---------------------------------------------------------------------------
  // Queries over the exam table
  // ---------------------------------------------------------------------------

  /** The exams of one branch of one series, in table order. */
  function BranchExams(es: seq<Exam>, sid: SeriesId, branch: string): seq<Exam> {
    Filter(es, (e: Exam) => e.seriesId == sid && e.branch == branch)
  }

  /** Every exam outside one branch of one series, in table order. */
  function OtherExams(es: seq<Exam>, sid: SeriesId, branch: string): seq<Exam> {
    Filter(es, (e: Exam) => !(e.seriesId == sid && e.branch == branch))
  }

  /** The exams of a series (the `Exams` navigation). */
  function SeriesExams(es: seq<Exam>, sid: SeriesId): seq<Exam> {
    Filter(es, (e: Exam) => e.seriesId == sid)
  }

  /** `examSeries.Exams.Count(e => e.Branch == branch)`. */
  function CountBranch(es: seq<Exam>, sid: SeriesId, branch: string): (n: nat)
    ensures n == |BranchExams(es, sid, branch)|
  {
    if |es| == 0 then 0
    else (if es[0].seriesId == sid && es[0].branch == branch then 1 else 0) + CountBranch(es[1..], sid, branch)
  }

  // ---------------------------------------------------------------------------
  // CreateExamSeriesAsync
  // ---------------------------------------------------------------------------

  /** A Guid the store has not used: never `Guid.Empty`, never an existing id. */
  predicate FreshSeriesId(db: Db, id: SeriesId) {
    id != EmptyGuid && forall s :: s in db.series ==> s.id != id
  }

  /** Rejects an empty or reversed date range, then the first branch the
      catalogue does not know; otherwise appends a series holding the
      request's fields verbatim (duplicate branches included). */
  function CreateExamSeries(db: Db, req: CreateExamSeriesRequest, createdBy: string, id: SeriesId, now: Instant)
    : (r: Result<(Db, ExamSeries)>)
    ensures r.Err? <==> req.startDate >= req.endDate || exists b :: b in req.branches && !IsValidBranch(b)
    ensures req.startDate >= req.endDate ==> r == Err("Start date must be before end date")
    ensures r.Err? && req.startDate < req.endDate ==>
      exists k :: 0 <= k < |req.branches| && !IsValidBranch(req.branches[k])
        && (forall j :: 0 <= j < k ==> IsValidBranch(req.branches[j]))
        && r.msg == "Invalid branch: " + req.branches[k]
    ensures r.Ok? ==>
      var s := r.value.1;
      && s.id == id && s.name == req.name && s.examType == req.examType && s.year == req.year
      && s.branches == req.branches && s.startDate == req.startDate && s.endDate == req.endDate
      && s.createdBy == createdBy && s.createdAt == now
      && r.value.0 == db.(series := db.series + [s])
  {
    if req.startDate >= req.endDate then Err("Start date must be before end date")
    else
      match Find(req.branches, (b: string) => !IsValidBranch(b))
      case Some(b) =>
        FindFirst(req.branches, (b: string) => !IsValidBranch(b));
        Err("Invalid branch: " + b)
      case None =>
        var s := ExamSeries(id, req.name, req.examType, req.year, req.branches,
                            req.startDate, req.endDate, createdBy, now);
        Ok((db.(series := db.series + [s]), s))
  }

  /** With a fresh Guid, creation keeps every unique key. */
  lemma CreateExamSeriesKeepsKeys(db: Db, req: CreateExamSeriesRequest, createdBy: string, id: SeriesId, now: Instant)
    requires Valid(db) && FreshSeriesId(db, id)
    requires CreateExamSeries(db, req, createdBy, id, now).Ok?
    ensures Valid(CreateExamSeries(db, req, createdBy, id, now).value.0)
    ensures FindSeries(CreateExamSeries(db, req, createdBy, id, now).value.0, id)
         == Some(CreateExamSeries(db, req, createdBy, id, now).value.1)
  {
    var db' := CreateExamSeries(db, req, createdBy, id, now).value.0;
    var s := CreateExamSeries(db, req, createdBy, id, now).value.1;
    assert db'.series[|db.series|] == s;
    FindConcat(db.series, [s], (x: ExamSeries) => x.id == id);
  }

  // ---------------------------------------------------------------------------
  // GetUnscheduledBranchesAsync
  // ---------------------------------------------------------------------------

  datatype BranchStatus = BranchStatus(branch: string, isScheduled: bool, scheduledCount: nat)

  /** One status per declared branch, in declaration order. */
  function GetUnscheduledBranches(db: Db, sid: SeriesId): (r: Result<seq<BranchStatus>>)
    ensures r.Err? <==> FindSeries(db, sid).None?
    ensures r.Ok? ==>
      var bs := FindSeries(db, sid).value.branches;
      && |r.value| == |bs|
      && forall i :: 0 <= i < |bs| ==>
        && r.value[i].branch == bs[i]
        && r.value[i].scheduledCount == |BranchExams(db.exams, sid, bs[i])|
        && (r.value[i].isScheduled <==> BranchExams(db.exams, sid, bs[i]) != [])
  {
    match FindSeries(db, sid)
    case None => Err(SeriesNotFound)
    case Some(s) =>
      Ok(seq(|s.branches|, i requires 0 <= i < |s.branches| =>
        var n := CountBranch(db.exams, sid, s.branches[i]);
        BranchStatus(s.branches[i], n > 0, n)))
  }

  // ---------------------------------------------------------------------------
  // GetAvailableDatesAsync
  // ---------------------------------------------------------------------------

  datatype AvailableDate = AvailableDate(date: Date, dayOfWeek: string, isScheduled: bool, scheduledSubject: Option<string>)

  predicate ExamOnDay(es: seq<Exam>, d: int) {
    exists e :: e in es && e.date == d
  }

  /** The walk lo `lo` hi `hi` inclusive, one entry per day. */
  function Calendar(es: seq<Exam>, lo: int, hi: Date): (r: seq<AvailableDate>)
    requires 0 <= lo
    ensures |r| == if lo <= hi then hi - lo + 1 else 0
    ensures forall i :: 0 <= i < |r| ==> r[i].date == lo + i && r[i].dayOfWeek == DayOfWeekName(r[i].date)
    ensures forall i :: 0 <= i < |r| ==> (r[i].isScheduled <==> ExamOnDay(es, lo + i))
    ensures forall i :: 0 <= i < |r| ==> (r[i].scheduledSubject.Some? <==> r[i].isScheduled)
    ensures forall i :: 0 <= i < |r| && r[i].isScheduled ==>
      exists e :: e in es && e.date == lo + i && e.subject == r[i].scheduledSubject.value
    decreases hi + 1 - lo
  {
    if lo > hi then []
    else
      var found := Find(es, (e: Exam) => e.date == lo);
      var subject := if found.Some? then Some(found.value.subject) else None;
      [AvailableDate(lo, DayOfWeekName(lo), found.Some?, subject)] + Calendar(es, lo + 1, hi)
  }

  /** `DateOnly.AddDays(1)` past 9999-12-31 throws. */
  const DateOverflow: string := "The resulting DateOnly is out of range."

  /** Every day of the series, marked with the branch's exam on that day. */
  function GetAvailableDates(db: Db, sid: SeriesId, branch: string): (r: Result<seq<AvailableDate>>)
    ensures r.Err? <==>
      || FindSeries(db, sid).None?
      || branch !in FindSeries(db, sid).value.branches
      || FindSeries(db, sid).value.endDate == MaxDay
    ensures r.Ok? ==>
      var s := FindSeries(db, sid).value;
      && |r.value| == (if s.startDate <= s.endDate then s.endDate - s.startDate + 1 else 0)
      && (forall i :: 0 <= i < |r.value| ==> r.value[i].date == s.startDate + i)
      && (forall i :: 0 <= i < |r.value| ==> r.value[i].dayOfWeek == DayOfWeekName(s.startDate + i))
      && (forall i :: 0 <= i < |r.value| ==>
            (r.value[i].isScheduled <==> ExamOnDay(BranchExams(db.exams, sid, branch), s.startDate + i)))
      && (forall i :: 0 <= i < |r.value| && r.value[i].isScheduled ==>
            && r.value[i].scheduledSubject.Some?
            && exists e :: e in db.exams && e.seriesId == sid && e.branch == branch
                        && e.date == s.startDate + i && e.subject == r.value[i].scheduledSubject.value)
      && (forall i :: 0 <= i < |r.value| && !r.value[i].isScheduled ==> r.value[i].scheduledSubject == None)
  {
    match FindSeries(db, sid)
    case None => Err(SeriesNotFound)
    case Some(s) =>
      if branch !in s.branches then Err(NotInSeries(branch))
      else if s.endDate == MaxDay then Err(DateOverflow)
      else Ok(Calendar(BranchExams(db.exams, sid, branch), s.startDate, s.endDate))
  }

  // ---------------------------------------------------------------------------
  // GetBranchSubjectsAsync
  // ---------------------------------------------------------------------------

  function GetBranchSubjects(branch: string): (r: Result<seq<string>>)
    ensures r.Err? <==> !IsValidBranch(branch)
    ensures r.Ok? ==> branch in Subjects && r.value == Subjects[branch] && |r.value| > 0
  {
    SubjectsCoverBranches(branch);
    if !IsValidBranch(branch) then Err("Invalid branch: " + branch) else Ok(GetSubjects(branch))
  }

  // ---------------------------------------------------------------------------
  // ScheduleBranchExamsAsync
  // ---------------------------------------------------------------------------

  /** An item that produces an exam: it carries a non-blank subject. */
  predicate HasSubject(it: ExamScheduleItem) {
    !IsNullOrWhiteSpace(it.subject)
  }

  /** An item that makes the whole call fail. */
  predicate ItemRejected(it: ExamScheduleItem, s: ExamSeries) {
    || it.examDate < s.startDate || it.examDate > s.endDate
    || (!it.isHoliday && IsNullOrWhiteSpace(it.subject))
  }

  /** The exam an item with a subject becomes. */
  function ExamFor(it: ExamScheduleItem, s: ExamSeries, branch: string, start: TimeOfDay, end: TimeOfDay): Exam
    requires it.subject.Some?
  {
    Exam(s.id, it.subject.value, it.examDate, start, end, branch, s.year, it.isHoliday)
  }

  /** The items that produce exams, in request order. */
  function KeptItems(items: seq<ExamScheduleItem>): seq<ExamScheduleItem> {
    Filter(items, HasSubject)
  }

  /** The loop over the request: items are checked in order and the first
      rejected one decides the error; a holiday without a subject is skipped. */
  function StageItems(items: seq<ExamScheduleItem>, s: ExamSeries, branch: string, start: TimeOfDay, end: TimeOfDay)
    : (r: Result<seq<Exam>>)
    ensures r.Ok? ==> |r.value| <= |items|
    decreases |items|
  {
    if |items| == 0 then Ok([])
    else
      var it := items[0];
      if it.examDate < s.startDate || it.examDate > s.endDate then
        Err("Exam date is outside the exam series date range")
      else if it.isHoliday && IsNullOrWhiteSpace(it.subject) then
        StageItems(items[1..], s, branch, start, end)
      else if !it.isHoliday && IsNullOrWhiteSpace(it.subject) then
        Err("Subject is required for exam")
      else
        var e := Exam(s.id, it.subject.GetOr("Holiday"), it.examDate, start, end, branch, s.year, it.isHoliday);
        var tail := StageItems(items[1..], s, branch, start, end);
        if tail.Err? then Err(tail.msg) else Ok([e] + tail.value)
  }

  /** Staging fails exactly when some item is rejected. */
  lemma {:induction false} StagingFails(items: seq<ExamScheduleItem>, s: ExamSeries, branch: string, start: TimeOfDay, end: TimeOfDay)
    ensures StageItems(items, s, branch, start, end).Err? <==> exists it :: it in items && ItemRejected(it, s)
    decreases |items|
  {
    if |items| > 0 {
      var it, rest := items[0], items[1..];
      StagingFails(rest, s, branch, start, end);
      assert items == [it] + rest;
      if ItemRejected(it, s) {
        assert it in items;
      } else {
        assert StageItems(items, s, branch, start, end).Err? <==> StageItems(rest, s, branch, start, end).Err?;
        forall x | x in items && ItemRejected(x, s)
          ensures x in rest
        {
        }
      }
    }
  }

  /** A successful staging turns the items carrying a subject, in order, into
      exams. */
  lemma {:induction false} StagedExams(items: seq<ExamScheduleItem>, s: ExamSeries, branch: string, start: TimeOfDay, end: TimeOfDay)
    requires StageItems(items, s, branch, start, end).Ok?
    ensures var r := StageItems(items, s, branch, start, end).value;
      && |r| == |KeptItems(items)|
      && forall k :: 0 <= k < |r| ==>
           KeptItems(items)[k].subject.Some? && r[k] == ExamFor(KeptItems(items)[k], s, branch, start, end)
    decreases |items|
  {
    if |items| > 0 {
      var it := items[0];
      assert items == [it] + items[1..];
      if it.isHoliday && IsNullOrWhiteSpace(it.subject) {
        StagedExams(items[1..], s, branch, start, end);
        assert KeptItems(items) == KeptItems(items[1..]);
      } else {
        StagedExams(items[1..], s, branch, start, end);
        var e := Exam(s.id, it.subject.GetOr("Holiday"), it.examDate, start, end, branch, s.year, it.isHoliday);
        var rest := StageItems(items[1..], s, branch, start, end).value;
        assert StageItems(items, s, branch, start, end).value == [e] + rest;
        assert KeptItems(items) == [it] + KeptItems(items[1..]);
        StagedCons(it, KeptItems(items[1..]), e, rest, s, branch, start, end);
      }
    }
  }

  lemma StagedCons(it: ExamScheduleItem, kept: seq<ExamScheduleItem>, e: Exam, rest: seq<Exam>,
                   s: ExamSeries, branch: string, start: TimeOfDay, end: TimeOfDay)
    requires it.subject.Some? && e == ExamFor(it, s, branch, start, end)
    requires |rest| == |kept|
    requires forall k :: 0 <= k < |rest| ==> kept[k].subject.Some? && rest[k] == ExamFor(kept[k], s, branch, start, end)
    ensures var r, ks := [e] + rest, [it] + kept;
      |r| == |ks| && forall k :: 0 <= k < |r| ==> ks[k].subject.Some? && r[k] == ExamFor(ks[k], s, branch, start, end)
  {
    var r, ks := [e] + rest, [it] + kept;
    forall k | 1 <= k < |r|
      ensures ks[k].subject.Some? && r[k] == ExamFor(ks[k], s, branch, start, end)
    {
      assert ks[k] == kept[k - 1] && r[k] == rest[k - 1];
    }
  }

  /** No two exams of the list fall on the same day. */
  predicate DistinctDates(es: seq<Exam>) {
    forall i, j :: 0 <= i < j < |es| ==> es[i].date != es[j].date
  }

  /** Some item carrying a subject falls on day `d`. */
  predicate KeptOnDay(items: seq<ExamScheduleItem>, d: int) {
    exists it :: it in KeptItems(items) && it.examDate == d
  }

  /** No two items carrying a subject fall on the same day. */
  predicate KeptDatesDistinct(items: seq<ExamScheduleItem>) {
    var kept := KeptItems(items);
    forall i, j :: 0 <= i < j < |kept| ==> kept[i].examDate != kept[j].examDate
  }

  /** The staged exams fall on distinct days exactly when the items they come
      from do. */
  lemma StagedDatesDistinct(items: seq<ExamScheduleItem>, s: ExamSeries, branch: string, start: TimeOfDay, end: TimeOfDay)
    requires StageItems(items, s, branch, start, end).Ok?
    ensures DistinctDates(StageItems(items, s, branch, start, end).value) <==> KeptDatesDistinct(items)
  {
    StagedExams(items, s, branch, start, end);
  }

  const UniqueViolation: string := "duplicate key value violates unique constraint \"IX_Exams_ExamSeriesId_Branch_ExamDate\""

  /** Replaces one branch's schedule. The series, the branch and the time
      window are checked first, then every item; only then is the branch's old
      schedule removed and the new one inserted, in one commit that the unique
      index rejects when two kept items share a day. */
  function ScheduleBranchExams(db: Db, sid: SeriesId, branch: string, req: ScheduleBranchRequest)
    : (r: Result<(Db, seq<Exam>)>)
    ensures r.Err? <==>
      || FindSeries(db, sid).None?
      || branch !in FindSeries(db, sid).value.branches
      || req.globalStartTime >= req.globalEndTime
      || (exists i :: 0 <= i < |req.exams| && ItemRejected(req.exams[i], FindSeries(db, sid).value))
      || !KeptDatesDistinct(req.exams)
    ensures r.Ok? ==>
      var s := FindSeries(db, sid).value;
      var created := r.value.1;
      && r.value.0 == db.(exams := OtherExams(db.exams, sid, branch) + created)
      && DistinctDates(created)
      && forall e :: e in created ==>
        && e.seriesId == sid && e.branch == branch && e.year == s.year
        && s.startDate <= e.date <= s.endDate
        && e.startTime == req.globalStartTime && e.endTime == req.globalEndTime
        && !IsBlank(e.subject)
  {
    match FindSeries(db, sid)
    case None => Err(SeriesNotFound)
    case Some(s) =>
      if branch !in s.branches then Err(NotInSeries(branch))
      else if req.globalStartTime >= req.globalEndTime then Err("Start time must be before end time")
      else
        StagingFails(req.exams, s, branch, req.globalStartTime, req.globalEndTime);
        var created :- StageItems(req.exams, s, branch, req.globalStartTime, req.globalEndTime);
        StagedDatesDistinct(req.exams, s, branch, req.globalStartTime, req.globalEndTime);
        if !DistinctDates(created) then Err(UniqueViolation)
        else
          StagedExamsInRange(req.exams, s, branch, req.globalStartTime, req.globalEndTime);
          Ok((db.(exams := OtherExams(db.exams, sid, branch) + created), created))
  }

  /** What staging produces: exams of this series and branch, inside the
      series' dates, in the request's time window, with non-blank subjects. */
  lemma StagedExamsInRange(items: seq<ExamScheduleItem>, s: ExamSeries, branch: string, start: TimeOfDay, end: TimeOfDay)
    requires StageItems(items, s, branch, start, end).Ok?
    ensures forall e :: e in StageItems(items, s, branch, start, end).value ==>
      && e.seriesId == s.id && e.branch == branch && e.year == s.year
      && s.startDate <= e.date <= s.endDate
      && e.startTime == start && e.endTime == end
      && !IsBlank(e.subject)
  {
    StagedExams(items, s, branch, start, end);
    var created := StageItems(items, s, branch, start, end).value;
    var kept := KeptItems(items);
    forall e | e in created
      ensures e.seriesId == s.id && e.branch == branch && e.year == s.year
      ensures s.startDate <= e.date <= s.endDate && e.startTime == start && e.endTime == end
      ensures !IsBlank(e.subject)
    {
      var k :| 0 <= k < |created| && created[k] == e;
      assert kept[k] in items;
      var i :| 0 <= i < |items| && items[i] == kept[k];
      assert !ItemRejected(items[i], s);
    }
  }

  // ---------------------------------------------------------------------------
  // GetExamSeriesSummaryAsync
  // ---------------------------------------------------------------------------

  datatype Summary = Summary(seriesId: SeriesId, name: string, exams: seq<Exam>, branchCounts: map<string, nat>)

  /** `OrderBy(e => e.ExamDate).ThenBy(e => e.Branch)`. */
  predicate ByDateThenBranch(a: Exam, b: Exam) {
    a.date < b.date || (a.date == b.date && LexLe(a.branch, b.branch))
  }

  lemma ByDateThenBranchOrders()
    ensures TotalPreorder(ByDateThenBranch)
  {
    forall a: Exam, b: Exam
      ensures ByDateThenBranch(a, b) || ByDateThenBranch(b, a)
    {
      LexLeTotal(a.branch, b.branch);
    }
    forall a: Exam, b: Exam, c: Exam | ByDateThenBranch(a, b) && ByDateThenBranch(b, c)
      ensures ByDateThenBranch(a, c)
    {
      if a.date == b.date == c.date {
        LexLeTransitive(a.branch, b.branch, c.branch);
      }
    }
  }

  /** The series' exams ordered by (date, branch), and the exam count of every
      declared branch. Building the count dictionary throws when a branch is
      declared twice. */
  function GetExamSeriesSummary(db: Db, sid: SeriesId): (r: Result<Summary>)
    ensures r.Err? <==> FindSeries(db, sid).None? || !NoDups(FindSeries(db, sid).value.branches)
    ensures r.Ok? ==>
      var s := FindSeries(db, sid).value;
      && r.value.seriesId == sid && r.value.name == s.name
      && SortedBy(r.value.exams, ByDateThenBranch)
      && multiset(r.value.exams) == multiset(SeriesExams(db.exams, sid))
      && r.value.branchCounts.Keys == Elems(s.branches)
      && forall b :: b in r.value.branchCounts ==> r.value.branchCounts[b] == |BranchExams(db.exams, sid, b)|
  {
    match FindSeries(db, sid)
    case None => Err(SeriesNotFound)
    case Some(s) =>
      if !NoDups(s.branches) then Err("An item with the same key has already been added.")
      else
        ByDateThenBranchOrders();
        var counts := map b | b in s.branches :: CountBranch(db.exams, sid, b);
        Ok(Summary(sid, s.name, SortBy(SeriesExams(db.exams, sid), ByDateThenBranch), counts))
  }

  // ---------------------------------------------------------------------------
  // GetStudentExamSeriesAsync
  // ---------------------------------------------------------------------------

  datatype StudentSeriesView = StudentSeriesView(
    id: SeriesId,
    name: string,
    examType: int,
    year: int,
    branch: string,
    startDate: Date,
    endDate: Date,
    totalExams: nat,
    upcomingExams: nat,
    completedExams: nat,
    createdAt: Instant)

  /** `OrderByDescending(es => es.CreatedAt)`. */
  predicate CreatedNoEarlier(a: ExamSeries, b: ExamSeries) {
    a.createdAt >= b.createdAt
  }

  lemma CreatedNoEarlierOrders()
    ensures TotalPreorder(CreatedNoEarlier)
  {
  }

  /** The non-holiday exams of one branch of one series. */
  function SittingExams(es: seq<Exam>, sid: SeriesId, code: string): seq<Exam> {
    Filter(es, (e: Exam) => e.seriesId == sid && e.branch == code && !e.isHoliday)
  }

  function UpcomingOf(es: seq<Exam>, today: Date): seq<Exam> {
    Filter(es, (e: Exam) => e.date >= today)
  }

  function CompletedOf(es: seq<Exam>, today: Date): seq<Exam> {
    Filter(es, (e: Exam) => e.date < today)
  }

  /** Each exam is either upcoming or completed. */
  lemma {:induction false} UpcomingCompletedSplit(es: seq<Exam>, today: Date)
    ensures |UpcomingOf(es, today)| + |CompletedOf(es, today)| == |es|
    decreases |es|
  {
    if |es| > 0 {
      UpcomingCompletedSplit(es[1..], today);
    }
  }

  /** The view of one series: its non-holiday exams for `code`, split at
      `today`. */
  function ViewOf(es: seq<Exam>, s: ExamSeries, code: string, today: Date): (v: StudentSeriesView)
    ensures v.id == s.id && v.createdAt == s.createdAt && v.branch == code
    ensures CopiesSeries(v, s)
    ensures v.totalExams == |SittingExams(es, s.id, code)|
    ensures v.upcomingExams == |UpcomingOf(SittingExams(es, s.id, code), today)|
    ensures v.upcomingExams + v.completedExams == v.totalExams
  {
    var sitting := SittingExams(es, s.id, code);
    UpcomingCompletedSplit(sitting, today);
    StudentSeriesView(s.id, s.name, s.examType, s.year, code, s.startDate, s.endDate,
                      |sitting|, |UpcomingOf(sitting, today)|, |CompletedOf(sitting, today)|, s.createdAt)
  }

  /** A view carries its series' id, name, type, year, dates and creation
      time. */
  predicate CopiesSeries(v: StudentSeriesView, s: ExamSeries) {
    && v.id == s.id && v.name == s.name && v.examType == s.examType && v.year == s.year
    && v.startDate == s.startDate && v.endDate == s.endDate && v.createdAt == s.createdAt
  }

  /** The series of `list` with at least one non-holiday exam for `code`. */
  function WithSittings(es: seq<Exam>, list: seq<ExamSeries>, code: string): seq<ExamSeries> {
    Filter(list, (s: ExamSeries) => SittingExams(es, s.id, code) != [])
  }

  /** The views of the series in `list` that have sittings for `code`, in
      list order. */
  function SeriesViews(es: seq<Exam>, list: seq<ExamSeries>, code: string, today: Date): (r: seq<StudentSeriesView>)
    ensures |r| == |WithSittings(es, list, code)|
    ensures forall i :: 0 <= i < |r| ==> CopiesSeries(r[i], WithSittings(es, list, code)[i])
    ensures forall v :: v in r ==>
      && v.branch == code && v.totalExams > 0
      && v.upcomingExams + v.completedExams == v.totalExams
      && v.totalExams == |SittingExams(es, v.id, code)|
      && v.upcomingExams == |UpcomingOf(SittingExams(es, v.id, code), today)|
  {
    var taking := WithSittings(es, list, code);
    var f := (s: ExamSeries) => ViewOf(es, s, code, today);
    MapMembers(taking, f);
    Map(taking, f)
  }

  /** Each view comes from a series of the list that has a sitting, and copies
      its fields; each series of the list with a sitting has a view. */
  lemma SeriesViewsMatchList(es: seq<Exam>, list: seq<ExamSeries>, code: string, today: Date)
    ensures forall v :: v in SeriesViews(es, list, code, today) ==>
      exists s :: s in list && SittingExams(es, s.id, code) != [] && CopiesSeries(v, s)
    ensures forall s :: s in list && SittingExams(es, s.id, code) != [] ==>
      exists v :: v in SeriesViews(es, list, code, today) && v.id == s.id
  {
    var taking := WithSittings(es, list, code);
    MapMembers(taking, (s: ExamSeries) => ViewOf(es, s, code, today));
  }

  /** A list sorted newest first yields views sorted newest first. */
  lemma SeriesViewsSorted(es: seq<Exam>, list: seq<ExamSeries>, code: string, today: Date)
    requires SortedBy(list, CreatedNoEarlier)
    ensures forall i, j :: 0 <= i < j < |SeriesViews(es, list, code, today)| ==>
      SeriesViews(es, list, code, today)[i].createdAt >= SeriesViews(es, list, code, today)[j].createdAt
  {
    var taking := WithSittings(es, list, code);
    CreatedNoEarlierOrders();
    FilterSorted(list, (s: ExamSeries) => SittingExams(es, s.id, code) != [], CreatedNoEarlier);
    assert SortedBy(taking, CreatedNoEarlier);
  }

  /** `OrderByDescending(es => es.CreatedAt)` over the series the branch
      code takes part in. */
  function SeriesTakenBy(db: Db, code: string): (r: seq<ExamSeries>)
    ensures SortedBy(r, CreatedNoEarlier)
    ensures forall s :: s in r <==> s in db.series && code in s.branches
    ensures multiset(r) == multiset(Filter(db.series, (s: ExamSeries) => code in s.branches))
  {
    var taking := Filter(db.series, (s: ExamSeries) => code in s.branches);
    CreatedNoEarlierOrders();
    SortByElems(taking, CreatedNoEarlier);
    SortBy(taking, CreatedNoEarlier)
  }

  /** The series a student's department takes part in, newest first, each with
      its count of non-holiday exams split at `today`. The department name is
      translated to its branch code first. */
  function GetStudentExamSeries(db: Db, department: string, today: Date): (r: seq<StudentSeriesView>)
    ensures forall v :: v in r ==>
      && v.branch == GetBranchCode(department)
      && v.totalExams > 0 && v.upcomingExams + v.completedExams == v.totalExams
      && v.totalExams == |SittingExams(db.exams, v.id, GetBranchCode(department))|
      && v.upcomingExams == |UpcomingOf(SittingExams(db.exams, v.id, GetBranchCode(department)), today)|
  {
    SeriesViews(db.exams, SeriesTakenBy(db, GetBranchCode(department)), GetBranchCode(department), today)
  }

  /** A series that lists `code` and holds a non-holiday exam for it. */
  predicate SeatedSeries(db: Db, code: string, s: ExamSeries) {
    s in db.series && code in s.branches && SittingExams(db.exams, s.id, code) != []
  }

  /** Which series the student sees: exactly those that list the student's
      branch and hold at least one non-holiday exam for it, one view per
      such series, newest first, each view copying its series' fields. */
  lemma StudentExamSeriesSelection(db: Db, department: string, today: Date)
    ensures var code := GetBranchCode(department);
      var r := GetStudentExamSeries(db, department, today);
      && (forall v :: v in r ==> exists s :: SeatedSeries(db, code, s) && CopiesSeries(v, s))
      && (forall s :: SeatedSeries(db, code, s) ==> exists v :: v in r && v.id == s.id)
      && (forall i, j :: 0 <= i < j < |r| ==> r[i].createdAt >= r[j].createdAt)
      && |r| == Count(db.series, (s: ExamSeries) => code in s.branches && SittingExams(db.exams, s.id, code) != [])
  {
    SelectionFor(db, GetBranchCode(department), today);
  }

  /** The selection for one branch code. */
  lemma SelectionFor(db: Db, code: string, today: Date)
    ensures var r := SeriesViews(db.exams, SeriesTakenBy(db, code), code, today);
      && (forall v :: v in r ==> exists s :: SeatedSeries(db, code, s) && CopiesSeries(v, s))
      && (forall s :: SeatedSeries(db, code, s) ==> exists v :: v in r && v.id == s.id)
      && (forall i, j :: 0 <= i < j < |r| ==> r[i].createdAt >= r[j].createdAt)
      && |r| == Count(db.series, (s: ExamSeries) => code in s.branches && SittingExams(db.exams, s.id, code) != [])
  {
    var list := SeriesTakenBy(db, code);
    SeriesViewsMatchList(db.exams, list, code, today);
    SeriesViewsSorted(db.exams, list, code, today);
    var takes := (s: ExamSeries) => code in s.branches;
    var sits := (s: ExamSeries) => SittingExams(db.exams, s.id, code) != [];
    var seated := (s: ExamSeries) => code in s.branches && SittingExams(db.exams, s.id, code) != [];
    assert WithSittings(db.exams, list, code) == Filter(list, sits);
    FilterCongruent(list, sits, seated);
    FilterPermutation(list, Filter(db.series, takes), seated);
    FilterOfFilter(db.series, takes, seated);
  }

  // ---------------------------------------------------------------------------
  // GetStudentExamsAsync
  // ---------------------------------------------------------------------------

  /** `OrderBy(e => e.ExamDate).ThenBy(e => e.StartTime)`. */
  predicate ByDateThenStart(a: Exam, b: Exam) {
    a.date < b.date || (a.date == b.date && a.startTime <= b.startTime)
  }

  lemma ByDateThenStartOrders()
    ensures TotalPreorder(ByDateThenStart)
  {
  }

  /** The exams (holidays included) of the student's branch in one series,
      ordered by date and start time; the department is translated to its
      branch code first. */
  function GetStudentExams(db: Db, sid: SeriesId, department: string): (r: Result<seq<Exam>>)
    ensures r.Err? <==> FindSeries(db, sid).None? || GetBranchCode(department) !in FindSeries(db, sid).value.branches
    ensures r.Ok? ==>
      && SortedBy(r.value, ByDateThenStart)
      && multiset(r.value) == multiset(BranchExams(db.exams, sid, GetBranchCode(department)))
      && forall e :: e in r.value ==> e.seriesId == sid && e.branch == GetBranchCode(department)
  {
    var code := GetBranchCode(department);
    match FindSeries(db, sid)
    case None => Err(SeriesNotFound)
    case Some(s) =>
      if code !in s.branches then Err("This exam series is not available for " + department + " branch")
      else
        ByDateThenStartOrders();
        var r := SortBy(BranchExams(db.exams, sid, code), ByDateThenStart);
        SortByElems(BranchExams(db.exams, sid, code), ByDateThenStart);
        Ok(r)
  }

  // ---------------------------------------------------------------------------
  // What a schedule replacement leaves behind
  // ---------------------------------------------------------------------------

  /** After a successful replacement the branch holds exactly the created
      exams, every other (series, branch) pair keeps its exams, the other
      tables are untouched and every unique key still holds. */
  lemma ScheduleReplacesBranch(db: Db, sid: SeriesId, branch: string, req: ScheduleBranchRequest)
    requires ScheduleBranchExams(db, sid, branch, req).Ok?
    ensures var (db', created) := ScheduleBranchExams(db, sid, branch, req).value;
      && BranchExams(db'.exams, sid, branch) == created
      && (forall sid', b' :: (sid', b') != (sid, branch) ==>
            BranchExams(db'.exams, sid', b') == BranchExams(db.exams, sid', b'))
      && db'.users == db.users && db'.profiles == db.profiles
      && db'.series == db.series && db'.tickets == db.tickets
      && (Valid(db) ==> Valid(db'))
  {
    var (db', created) := ScheduleBranchExams(db, sid, branch, req).value;
    var others := OtherExams(db.exams, sid, branch);
    FilterConcat(others, created, (e: Exam) => e.seriesId == sid && e.branch == branch);
    FilterKeepsNone(others, (e: Exam) => e.seriesId == sid && e.branch == branch);
    FilterKeepsAll(created, (e: Exam) => e.seriesId == sid && e.branch == branch);
    forall sid', b' | (sid', b') != (sid, branch)
      ensures BranchExams(db'.exams, sid', b') == BranchExams(db.exams, sid', b')
    {
      FilterConcat(others, created, (e: Exam) => e.seriesId == sid' && e.branch == b');
      FilterKeepsNone(created, (e: Exam) => e.seriesId == sid' && e.branch == b');
      FilterOfFilter(db.exams, (e: Exam) => !(e.seriesId == sid && e.branch == branch),
                     (e: Exam) => e.seriesId == sid' && e.branch == b');
    }
    if Valid(db) {
      UniqueByFilter(db.exams, (e: Exam) => !(e.seriesId == sid && e.branch == branch), ExamKey);
      UniqueByConcat(others, created, ExamKey);
    }
  }

  /** An empty request is accepted for a declared branch with a proper time
      window, and clears that branch. */
  lemma EmptyScheduleClearsBranch(db: Db, sid: SeriesId, branch: string, start: TimeOfDay, end: TimeOfDay)
    requires FindSeries(db, sid).Some? && branch in FindSeries(db, sid).value.branches && start < end
    ensures ScheduleBranchExams(db, sid, branch, ScheduleBranchRequest([], start, end)).Ok?
    ensures BranchExams(ScheduleBranchExams(db, sid, branch, ScheduleBranchRequest([], start, end)).value.0.exams, sid, branch) == []
  {
    ScheduleReplacesBranch(db, sid, branch, ScheduleBranchRequest([], start, end));
  }

  /** Scheduling then asking for the branch statuses reports the new count
      for the branch and the old one for every other branch. */
  lemma ScheduleThenStatus(db: Db, sid: SeriesId, branch: string, req: ScheduleBranchRequest)
    requires ScheduleBranchExams(db, sid, branch, req).Ok?
    ensures var (db', created) := ScheduleBranchExams(db, sid, branch, req).value;
      var before := GetUnscheduledBranches(db, sid);
      var after := GetUnscheduledBranches(db', sid);
      && before.Ok? && after.Ok? && |after.value| == |before.value|
      && forall i :: 0 <= i < |after.value| ==>
        if after.value[i].branch == branch
        then after.value[i].scheduledCount == |created| && (after.value[i].isScheduled <==> created != [])
        else after.value[i] == before.value[i]
  {
    ScheduleReplacesBranch(db, sid, branch, req);
  }

  /** The days staging fills are the days of the items carrying a subject. */
  lemma StagedDays(items: seq<ExamScheduleItem>, s: ExamSeries, branch: string, start: TimeOfDay, end: TimeOfDay, d: int)
    requires StageItems(items, s, branch, start, end).Ok?
    ensures ExamOnDay(StageItems(items, s, branch, start, end).value, d) <==> KeptOnDay(items, d)
  {
    StagedExams(items, s, branch, start, end);
    var created := StageItems(items, s, branch, start, end).value;
    var kept := KeptItems(items);
    if ExamOnDay(created, d) {
      var e :| e in created && e.date == d;
      var k :| 0 <= k < |created| && created[k] == e;
      assert kept[k] in kept;
    }
    if KeptOnDay(items, d) {
      var it :| it in kept && it.examDate == d;
      var k :| 0 <= k < |kept| && kept[k] == it;
      assert created[k] in created;
    }
  }

  /** Scheduling then reading the branch calendar marks exactly the days of
      the request's items that carry a subject. */
  lemma ScheduleThenCalendar(db: Db, sid: SeriesId, branch: string, req: ScheduleBranchRequest)
    requires ScheduleBranchExams(db, sid, branch, req).Ok?
    requires FindSeries(db, sid).value.endDate != MaxDay
    ensures var db' := ScheduleBranchExams(db, sid, branch, req).value.0;
      var s := FindSeries(db, sid).value;
      && GetAvailableDates(db', sid, branch).Ok?
      && forall i :: 0 <= i < |GetAvailableDates(db', sid, branch).value| ==>
        (GetAvailableDates(db', sid, branch).value[i].isScheduled <==>
           KeptOnDay(req.exams, s.startDate + i))
  {
    var db' := ScheduleBranchExams(db, sid, branch, req).value.0;
    var s := FindSeries(db, sid).value;
    ScheduledCalendar(db, sid, branch, req);
    var cal := GetAvailableDates(db', sid, branch).value;
    CalendarOfStaged(cal, req.exams, s, branch, req.globalStartTime, req.globalEndTime);
  }

  /** A calendar marking the staged exams' days marks the kept items' days. */
  lemma CalendarOfStaged(cal: seq<AvailableDate>, items: seq<ExamScheduleItem>, s: ExamSeries, branch: string,
                         start: TimeOfDay, end: TimeOfDay)
    requires StageItems(items, s, branch, start, end).Ok?
    requires forall i :: 0 <= i < |cal| ==>
      (cal[i].isScheduled <==> ExamOnDay(StageItems(items, s, branch, start, end).value, s.startDate + i))
    ensures forall i :: 0 <= i < |cal| ==>
      (cal[i].isScheduled <==> KeptOnDay(items, s.startDate + i))
  {
    forall i | 0 <= i < |cal|
      ensures cal[i].isScheduled <==> KeptOnDay(items, s.startDate + i)
    {
      StagedDays(items, s, branch, start, end, s.startDate + i);
    }
  }

  /** After scheduling, the calendar marks the days of the created exams. */
  lemma ScheduledCalendar(db: Db, sid: SeriesId, branch: string, req: ScheduleBranchRequest)
    requires ScheduleBranchExams(db, sid, branch, req).Ok?
    requires FindSeries(db, sid).value.endDate != MaxDay
    ensures var s := FindSeries(db, sid).value;
      var staged := StageItems(req.exams, s, branch, req.globalStartTime, req.globalEndTime);
      var cal := GetAvailableDates(ScheduleBranchExams(db, sid, branch, req).value.0, sid, branch);
      && staged.Ok? && cal.Ok?
      && forall i :: 0 <= i < |cal.value| ==> (cal.value[i].isScheduled <==> ExamOnDay(staged.value, s.startDate + i))
  {
    var out := ScheduleBranchExams(db, sid, branch, req).value;
    ScheduledFromStaging(db, sid, branch, req);
    ScheduleReplacesBranch(db, sid, branch, req);
    assert BranchExams(out.0.exams, sid, branch) == out.1;
    assert FindSeries(out.0, sid) == FindSeries(db, sid);
  }

  /** The exams a schedule creates are, in request order, one per item that
      carries a subject: that item's day, subject and holiday flag, in the
      series' year and the request's time window. */
  lemma ScheduleCreatesKeptItems(db: Db, sid: SeriesId, branch: string, req: ScheduleBranchRequest)
    requires ScheduleBranchExams(db, sid, branch, req).Ok?
    ensures var s := FindSeries(db, sid).value;
      var created := ScheduleBranchExams(db, sid, branch, req).value.1;
      var kept := KeptItems(req.exams);
      && |created| == |kept|
      && forall k :: 0 <= k < |created| ==>
        kept[k].subject.Some? && created[k] == ExamFor(kept[k], s, branch, req.globalStartTime, req.globalEndTime)
  {
    ScheduledFromStaging(db, sid, branch, req);
    StagedExams(req.exams, FindSeries(db, sid).value, branch, req.globalStartTime, req.globalEndTime);
  }

  /** Unfolding step for the two lemmas above: the exams a schedule creates
      are the staged items. */
  lemma ScheduledFromStaging(db: Db, sid: SeriesId, branch: string, req: ScheduleBranchRequest)
    requires ScheduleBranchExams(db, sid, branch, req).Ok?
    ensures var s := FindSeries(db, sid).value;
      var staged := StageItems(req.exams, s, branch, req.globalStartTime, req.globalEndTime);
      staged.Ok? && ScheduleBranchExams(db, sid, branch, req).value.1 == staged.value
  {
  }
}
