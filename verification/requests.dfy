/** The request bodies of the exam-series and student-profile endpoints and
    the data-annotation rules model binding checks before a service runs.

    `[Required]` on a string rejects null, "" and white-space-only text;
    `[MaxLength(n)]` bounds the length in UTF-16 code units; `[Range(a, b)]` bounds a number;
    `[MinLength(1)]` on a list demands an element. `[Required]` on a value
    type (a number, a date, a time) always holds. */
module Requests {
  import opened Outcomes
  import opened Text
  import opened Entities

  /** `[Required]` on a string. */
  predicate RequiredText(s: string) {
    !IsBlank(s)
  }

  // ---------------------------------------------------------------------------
  // Exam series
  // ---------------------------------------------------------------------------

  datatype CreateExamSeriesRequest = CreateExamSeriesRequest(
    name: string,
    examType: int,
    year: int,
    branches: seq<string>,
    startDate: Date,
    endDate: Date)

  predicate CreateExamSeriesRequestValid(r: CreateExamSeriesRequest) {
    && RequiredText(r.name) && Utf16Length(r.name) <= 100
    && 1 <= r.year <= 4
    && |r.branches| >= 1
  }

  /** One day of a branch schedule; a missing subject is `None`. */
  datatype ExamScheduleItem = ExamScheduleItem(examDate: Date, subject: Option<string>, isHoliday: bool)

  /** An item as JSON without `subject` or `isHoliday` binds to. */
  function ItemWithDateOnly(d: Date): (i: ExamScheduleItem)
    ensures i.subject.None? && !i.isHoliday
  {
    ExamScheduleItem(d, None, false)
  }

  predicate ExamScheduleItemValid(i: ExamScheduleItem) {
    i.subject.None? || Utf16Length(i.subject.value) <= 100
  }

  datatype ScheduleBranchRequest = ScheduleBranchRequest(
    exams: seq<ExamScheduleItem>,
    globalStartTime: TimeOfDay,
    globalEndTime: TimeOfDay)

  /** Model binding validates every element of the `Exams` list. */
  predicate ScheduleBranchRequestValid(r: ScheduleBranchRequest) {
    forall i :: 0 <= i < |r.exams| ==> ExamScheduleItemValid(r.exams[i])
  }

  /** What the series request accepts and rejects: a non-blank name of at most
      100 UTF-16 units, a year from 1 to 4, at least one branch, and nothing
      about duplicate branches. */
  lemma CreateExamSeriesRequestRules(r: CreateExamSeriesRequest)
    ensures CreateExamSeriesRequestValid(r) ==>
      0 < |r.name| && Utf16Length(r.name) <= 100 && 1 <= r.year <= 4 && r.branches != []
    ensures Utf16Length(r.name) > 100 ==> !CreateExamSeriesRequestValid(r)
    ensures !CreateExamSeriesRequestValid(r.(name := "   "))
    ensures !CreateExamSeriesRequestValid(r.(year := 0)) && !CreateExamSeriesRequestValid(r.(year := 5))
    ensures !CreateExamSeriesRequestValid(r.(branches := []))
    ensures CreateExamSeriesRequestValid(CreateExamSeriesRequest("Finals", 1, 2, ["CSE", "CSE"], 10, 20))
  {
    assert IsWhiteSpace("   "[0]);
    assert !IsWhiteSpace("Finals"[0]);
    Utf16LengthBmp("Finals");
  }

  /** A schedule item may omit its subject, and a subject of more than 100
      UTF-16 units is rejected: one of at most 50 characters always passes,
      one of more than 100 characters never does. */
  lemma ExamScheduleItemRules(d: Date, s: string)
    ensures ExamScheduleItemValid(ItemWithDateOnly(d))
    ensures ExamScheduleItemValid(ExamScheduleItem(d, Some(s), true)) <==> Utf16Length(s) <= 100
    ensures |s| <= 50 ==> ExamScheduleItemValid(ExamScheduleItem(d, Some(s), false))
    ensures |s| > 100 ==> !ExamScheduleItemValid(ExamScheduleItem(d, Some(s), false))
  {
  }

  // ---------------------------------------------------------------------------
  // Student profile
  // ---------------------------------------------------------------------------

  datatype StudentProfileRequest = StudentProfileRequest(
    rollNumber: string,
    department: string,
    year: string,
    section: string)

  predicate StudentProfileRequestValid(r: StudentProfileRequest) {
    && RequiredText(r.rollNumber) && Utf16Length(r.rollNumber) <= 20
    && RequiredText(r.department) && Utf16Length(r.department) <= 50
    && RequiredText(r.year) && Utf16Length(r.year) <= 10
    && RequiredText(r.section) && Utf16Length(r.section) <= 5
  }

  /** Every field is required (so none is empty) and bounded: 20, 50, 10 and 5
      UTF-16 units, hence at most that many characters. */
  lemma StudentProfileRequestRules(r: StudentProfileRequest)
    ensures StudentProfileRequestValid(r) ==>
      && 0 < |r.rollNumber| && Utf16Length(r.rollNumber) <= 20
      && 0 < |r.department| && Utf16Length(r.department) <= 50
      && 0 < |r.year| && Utf16Length(r.year) <= 10
      && 0 < |r.section| && Utf16Length(r.section) <= 5
    ensures StudentProfileRequestValid(r) ==>
      |r.rollNumber| <= 20 && |r.department| <= 50 && |r.year| <= 10 && |r.section| <= 5
    ensures !StudentProfileRequestValid(r.(section := ""))
    ensures !StudentProfileRequestValid(r.(rollNumber := Zeros(21)))
  {
  }
}
