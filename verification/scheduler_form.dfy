/** `BranchExamSchedulerComponent`: the admin form that lists every day of a
    series for one branch, lets each day carry a subject or a holiday mark, and
    builds the schedule request from the rows. */
module SchedulerForm {
  import opened Outcomes
  import opened Seqs
  import opened Text
  import opened Entities
  import opened Requests
  import ExamService

  /** The subject the backend stores for a holiday day. */
  const HolidaySubject: string := "Holiday"

  /** One row of the `examDates` form array. */
  datatype Row = Row(date: Date, dayOfWeek: string, subject: string, isHoliday: bool, isScheduled: bool)

  /** The whole form: the two "HH:MM" time inputs and the rows. */
  datatype FormValue = FormValue(globalStartTime: string, globalEndTime: string, rows: seq<Row>)

  /** The request the form sends: the items and the two times as strings. */
  datatype SchedulePayload = SchedulePayload(exams: seq<ExamScheduleItem>, globalStartTime: string, globalEndTime: string)

  /** The values the time inputs start with. */
  const InitialStartTime: string := "09:00"
  const InitialEndTime: string := "12:00"

  // ---------------------------------------------------------------------------
  // Loading the rows
  // ---------------------------------------------------------------------------

  /** A day whose stored subject is "Holiday" becomes a holiday row with an
      empty subject; any other day shows its subject, or nothing. */
  function RowOf(d: ExamService.AvailableDate): (r: Row)
    ensures r.date == d.date && r.dayOfWeek == d.dayOfWeek && r.isScheduled == d.isScheduled
    ensures r.isHoliday <==> d.scheduledSubject == Some(HolidaySubject)
  {
    var isHoliday := d.scheduledSubject == Some(HolidaySubject);
    var subject := if isHoliday || d.scheduledSubject.None? then "" else d.scheduledSubject.value;
    Row(d.date, d.dayOfWeek, subject, isHoliday, d.isScheduled)
  }

  /** A row never carries both a subject and the holiday mark. */
  predicate Consistent(r: Row) {
    r.isHoliday ==> r.subject == ""
  }

  /** `createDateFormControls`: one row per listed day, in order. */
  function CreateDateFormControls(dates: seq<ExamService.AvailableDate>): (rows: seq<Row>)
    ensures |rows| == |dates|
    ensures forall i :: 0 <= i < |rows| ==> rows[i] == RowOf(dates[i]) && Consistent(rows[i])
  {
    Map(dates, RowOf)
  }

  // ---------------------------------------------------------------------------
  // Editing a row
  // ---------------------------------------------------------------------------

  /** `onHolidayChange`: a row marked holiday loses its subject. */
  function OnHolidayChange(rows: seq<Row>, index: int): (r: seq<Row>)
    requires 0 <= index < |rows|
    ensures |r| == |rows| && forall j :: 0 <= j < |rows| && j != index ==> r[j] == rows[j]
    ensures r[index].isHoliday == rows[index].isHoliday && Consistent(r[index])
    ensures !rows[index].isHoliday ==> r[index] == rows[index]
  {
    if rows[index].isHoliday then rows[index := rows[index].(subject := "")] else rows
  }

  /** `onSubjectChange`: a row given a non-empty subject stops being a
      holiday. */
  function OnSubjectChange(rows: seq<Row>, index: int): (r: seq<Row>)
    requires 0 <= index < |rows|
    ensures |r| == |rows| && forall j :: 0 <= j < |rows| && j != index ==> r[j] == rows[j]
    ensures r[index].subject == rows[index].subject
    ensures rows[index].subject != "" ==> !r[index].isHoliday
    ensures rows[index].subject == "" ==> r[index] == rows[index]
  {
    if rows[index].subject != "" then rows[index := rows[index].(isHoliday := false)] else rows
  }

  /** Ticking or clearing the holiday box of a row, which fires
      `onHolidayChange`. */
  function MarkHoliday(rows: seq<Row>, index: int, checked: bool): seq<Row>
    requires 0 <= index < |rows|
  {
    OnHolidayChange(rows[index := rows[index].(isHoliday := checked)], index)
  }

  /** Choosing a subject for a row, which fires `onSubjectChange`. */
  function ChooseSubject(rows: seq<Row>, index: int, subject: string): seq<Row>
    requires 0 <= index < |rows|
  {
    OnSubjectChange(rows[index := rows[index].(subject := subject)], index)
  }

  /** The two edits keep every row consistent, touch only their own row, and
      the last edit wins: a ticked holiday box clears the subject, a chosen
      subject clears the box. */
  lemma EditsKeepRowsConsistent(rows: seq<Row>, index: int, checked: bool, subject: string)
    requires 0 <= index < |rows|
    requires forall j :: 0 <= j < |rows| ==> Consistent(rows[j])
    ensures var r := MarkHoliday(rows, index, checked);
      && (forall j :: 0 <= j < |r| ==> Consistent(r[j]))
      && (forall j :: 0 <= j < |r| && j != index ==> r[j] == rows[j])
      && r[index].isHoliday == checked
      && (checked ==> r[index].subject == "")
      && (!checked ==> r[index].subject == rows[index].subject)
    ensures var r := ChooseSubject(rows, index, subject);
      && (forall j :: 0 <= j < |r| ==> Consistent(r[j]))
      && (forall j :: 0 <= j < |r| && j != index ==> r[j] == rows[j])
      && r[index].subject == subject
      && (subject != "" ==> !r[index].isHoliday)
      && (subject == "" ==> r[index].isHoliday == rows[index].isHoliday)
  {
  }

  // ---------------------------------------------------------------------------
  // Submitting
  // ---------------------------------------------------------------------------

  /** A row is sent when it has a subject or the holiday mark. */
  predicate IsSent(r: Row) {
    r.subject != "" || r.isHoliday
  }

  /** A sent row as a request item: holidays carry the subject "Holiday". */
  function ItemOf(r: Row): (i: ExamScheduleItem)
    ensures i.examDate == r.date && i.isHoliday == r.isHoliday && i.subject.Some?
    ensures i.subject.value == if r.isHoliday then HolidaySubject else r.subject
  {
    ExamScheduleItem(r.date, Some(if r.isHoliday then HolidaySubject else r.subject), r.isHoliday)
  }

  /** The items the sent rows become, in row order. */
  function SentItems(rows: seq<Row>): seq<ExamScheduleItem> {
    Map(Filter(rows, IsSent), ItemOf)
  }

  /** The items of one more row. */
  lemma SentItemsStep(rows: seq<Row>, k: int)
    requires 0 <= k < |rows|
    ensures SentItems(rows[..k + 1]) == SentItems(rows[..k]) + (if IsSent(rows[k]) then [ItemOf(rows[k])] else [])
  {
    assert rows[..k + 1] == rows[..k] + [rows[k]];
    FilterConcat(rows[..k], [rows[k]], IsSent);
    MapConcat(Filter(rows[..k], IsSent), Filter([rows[k]], IsSent), ItemOf);
  }

  /** The `forEach` that builds `examScheduleItems`. */
  method BuildItems(rows: seq<Row>) returns (items: seq<ExamScheduleItem>)
    ensures items == SentItems(rows)
    ensures forall i :: 0 <= i < |items| ==> items[i].subject.Some? && items[i].subject.value != ""
  {
    items := [];
    var k := 0;
    while k < |rows|
      invariant 0 <= k <= |rows|
      invariant items == SentItems(rows[..k])
    {
      var r := rows[k];
      SentItemsStep(rows, k);
      if r.subject != "" || r.isHoliday {
        items := items + [ItemOf(r)];
      }
      k := k + 1;
    }
    assert rows[..|rows|] == rows;
    SentItemsNamed(rows);
  }

  /** Every sent item names a subject. */
  lemma SentItemsNamed(rows: seq<Row>)
    ensures forall i :: 0 <= i < |SentItems(rows)| ==>
      SentItems(rows)[i].subject.Some? && SentItems(rows)[i].subject.value != ""
  {
    var kept := Filter(rows, IsSent);
    forall i | 0 <= i < |SentItems(rows)|
      ensures SentItems(rows)[i].subject.value != ""
    {
      assert kept[i] in kept;
    }
  }

  const FillRequired: string := "Please fill all required fields"
  const TimesOutOfOrder: string := "Start time must be before end time"
  const NothingScheduled: string := "Please schedule at least one exam or mark days as holidays"

  /** `onSubmit`: a cleared time input, a start not before the end (compared
      as strings), or no sent row stops the submission; otherwise the
      request carries the sent items and both times with ":00" appended. */
  method OnSubmit(form: FormValue) returns (r: Result<SchedulePayload>)
    ensures (form.globalStartTime == "" || form.globalEndTime == "") ==> r == Err(FillRequired)
    ensures form.globalStartTime != "" && form.globalEndTime != "" && LexLe(form.globalEndTime, form.globalStartTime)
            ==> r == Err(TimesOutOfOrder)
    ensures r.Ok? <==>
      form.globalStartTime != "" && form.globalEndTime != ""
      && !LexLe(form.globalEndTime, form.globalStartTime) && |SentItems(form.rows)| > 0
    ensures r.Err? && r.msg == NothingScheduled ==> |SentItems(form.rows)| == 0
    ensures r.Ok? ==> r.value == SchedulePayload(SentItems(form.rows), form.globalStartTime + ":00", form.globalEndTime + ":00")
  {
    if form.globalStartTime == "" || form.globalEndTime == "" {
      return Err(FillRequired);
    }
    if LexLe(form.globalEndTime, form.globalStartTime) {
      return Err(TimesOutOfOrder);
    }
    var items := BuildItems(form.rows);
    if |items| == 0 {
      return Err(NothingScheduled);
    }
    r := Ok(SchedulePayload(items, form.globalStartTime + ":00", form.globalEndTime + ":00"));
  }

  /** The initial times are in order, so a form with a sent row and untouched
      times submits. */
  lemma InitialTimesInOrder()
    ensures !LexLe(InitialEndTime, InitialStartTime)
  {
    assert InitialEndTime[0] == '1' && InitialStartTime[0] == '0';
  }

  // ---------------------------------------------------------------------------
  // Round trip with the backend listing
  // ---------------------------------------------------------------------------

  /** A listed day that has an exam. */
  predicate HasSubject(d: ExamService.AvailableDate) {
    d.scheduledSubject.Some?
  }

  /** What the listing stores for a scheduled day, as a request item: its
      subject, flagged as a holiday exactly when that subject is "Holiday". */
  function StoredItem(d: ExamService.AvailableDate): ExamScheduleItem {
    ExamScheduleItem(d.date, d.scheduledSubject, d.scheduledSubject == Some(HolidaySubject))
  }

  /** Loading a stored schedule and submitting it untouched re-sends exactly
      the scheduled days, in order, with their subjects; a day counts as a
      holiday exactly when its stored subject is "Holiday". Stored subjects
      are never empty (the backend refuses blank ones). */
  lemma {:induction false} LoadThenSubmitRoundTrip(dates: seq<ExamService.AvailableDate>)
    requires forall i :: 0 <= i < |dates| ==> dates[i].scheduledSubject != Some("")
    ensures SentItems(CreateDateFormControls(dates)) == Map(Filter(dates, HasSubject), StoredItem)
    decreases |dates|
  {
    if |dates| > 0 {
      var d, rest := dates[0], dates[1..];
      assert CreateDateFormControls(dates) == [RowOf(d)] + CreateDateFormControls(rest);
      LoadThenSubmitRoundTrip(rest);
      SentItemsConcat([RowOf(d)], CreateDateFormControls(rest));
      assert dates == [d] + rest;
      FilterConcat([d], rest, HasSubject);
      MapConcat(Filter([d], HasSubject), Filter(rest, HasSubject), StoredItem);
      LoadOneDay(d);
    }
  }

  /** The items of two row lists one after the other. */
  lemma SentItemsConcat(a: seq<Row>, b: seq<Row>)
    ensures SentItems(a + b) == SentItems(a) + SentItems(b)
  {
    FilterConcat(a, b, IsSent);
    MapConcat(Filter(a, IsSent), Filter(b, IsSent), ItemOf);
  }

  /** One listed day, loaded and submitted. */
  lemma LoadOneDay(d: ExamService.AvailableDate)
    requires d.scheduledSubject != Some("")
    ensures SentItems([RowOf(d)]) == Map(Filter([d], HasSubject), StoredItem)
  {
    assert IsSent(RowOf(d)) <==> HasSubject(d);
    if HasSubject(d) {
      assert ItemOf(RowOf(d)) == StoredItem(d);
    }
  }
}
