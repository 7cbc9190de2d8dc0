/** `ExamsComponent`: the student's exam page — the department-to-branch
    lookup it requests with, the exam-type labels, the 12-hour time display
    and the status of one exam. Strings are read the way JavaScript's
    `split(':')` and `parseInt` read them. */
module StudentExams {
  import opened Outcomes
  import opened Text
  import opened Entities
  import BranchCatalog
  import HallTicketService

  // ---------------------------------------------------------------------------
  // Department lookup and labels
  // ---------------------------------------------------------------------------

  /** The page's own copy of the department table. */
  const DepartmentTable: map<string, string> := map[
    "Computer Science" := "CSE",
    "Information Technology" := "IT",
    "Electronics and Communication" := "ECE",
    "Electrical Engineering" := "EEE",
    "Mechanical Engineering" := "MECH",
    "Civil Engineering" := "CIVIL",
    "Chemical Engineering" := "CHEM"
  ]

  /** `departmentToBranch[department] || department`. */
  function BranchCodeOf(department: string): (r: string)
    ensures r == BranchCatalog.GetBranchCode(department)
  {
    if department in DepartmentTable then DepartmentTable[department] else department
  }

  /** The page sends the translated code, and the server translates again;
      since translation is idempotent the server sees the same code. */
  lemma ServerSeesPageCode(department: string)
    ensures BranchCatalog.GetBranchCode(BranchCodeOf(department)) == BranchCodeOf(department)
  {
    BranchCatalog.BranchCodeValidAndIdempotent(department);
  }

  const ExamTypeLabels: map<int, string> := map[1 := "Semester", 2 := "Midterm", 3 := "Internal Lab", 4 := "External Lab"]

  /** `getExamTypeLabel`: the label of a known type, "Unknown" otherwise; the
      same names the hall-ticket service gives. */
  function GetExamTypeLabel(examType: int): (r: string)
    ensures r == HallTicketService.ExamTypeName(examType)
  {
    if examType in ExamTypeLabels then ExamTypeLabels[examType] else "Unknown"
  }

  // ---------------------------------------------------------------------------
  // split(':') and parseInt
  // ---------------------------------------------------------------------------

  /** The text before the first ':' (all of it when there is none). */
  function BeforeColon(s: string): (r: string)
    ensures ':' !in r && StartsWith(s, r)
  {
    if |s| == 0 || s[0] == ':' then [] else [s[0]] + BeforeColon(s[1..])
  }

  /** The text after the first ':', or none when there is no ':'. */
  function AfterColon(s: string): Option<string> {
    if |s| == 0 then None else if s[0] == ':' then Some(s[1..]) else AfterColon(s[1..])
  }

  /** The second field of `s.split(':')`, as a template literal or
      `parseInt` reads it: "undefined" when `s` has no ':'. */
  function SecondField(s: string): string {
    if AfterColon(s).Some? then BeforeColon(AfterColon(s).value) else "undefined"
  }

  lemma {:induction false} SplitAtColon(a: string, b: string)
    requires ':' !in a
    ensures BeforeColon(a + ":" + b) == a && AfterColon(a + ":" + b) == Some(b)
    decreases |a|
  {
    if |a| > 0 {
      assert (a + ":" + b)[1..] == a[1..] + ":" + b;
      SplitAtColon(a[1..], b);
      assert a == [a[0]] + a[1..];
    }
  }

  /** The white space `parseInt` skips: the ECMAScript white space and line
      terminators. */
  predicate IsJsSpace(c: char) {
    || '\t' <= c <= '\r'
    || c == ' '
    || c == '\U{00A0}'
    || c == '\U{1680}'
    || '\U{2000}' <= c <= '\U{200A}'
    || c == '\U{2028}'
    || c == '\U{2029}'
    || c == '\U{202F}'
    || c == '\U{205F}'
    || c == '\U{3000}'
    || c == '\U{FEFF}'
  }

  /** The longest run of decimal digits at the start of `s`. */
  function LeadingDigits(s: string): (r: string)
    ensures AllDigits(r) && StartsWith(s, r)
    ensures |r| < |s| ==> !IsDigit(s[|r|])
  {
    if |s| == 0 || !IsDigit(s[0]) then []
    else
      var rest := LeadingDigits(s[1..]);
      assert s[1..][..|rest|] == s[1..|rest| + 1];
      [s[0]] + rest
  }

  lemma {:induction false} AllLeadingDigits(s: string)
    requires AllDigits(s)
    ensures LeadingDigits(s) == s
    decreases |s|
  {
    if |s| > 0 {
      AllLeadingDigits(s[1..]);
      assert s == [s[0]] + s[1..];
    }
  }

  /** `parseInt(s)` in base ten: skip white space, take an optional sign and
      the digits that follow; `None` stands for `NaN` (no digit). */
  function ParseInt(s: string): (r: Option<int>)
    ensures r.Some? ==> |s| > 0
  {
    var t := TrimStartBy(s, IsJsSpace);
    var signed := |t| > 0 && (t[0] == '-' || t[0] == '+');
    var digits := LeadingDigits(if signed then t[1..] else t);
    if |digits| == 0 then None
    else
      var v: int := DigitsValue(digits);
      Some(if signed && t[0] == '-' then -v else v)
  }

  lemma ParseTwoDigits(n: int)
    requires 0 <= n < 100
    ensures ParseInt(TwoDigits(n)) == Some(n)
  {
    var d := TwoDigits(n);
    assert !IsJsSpace(d[0]);
    assert TrimStartBy(d, IsJsSpace) == d;
    AllLeadingDigits(d);
  }

  // ---------------------------------------------------------------------------
  // formatTime
  // ---------------------------------------------------------------------------

  /** The hour shown on a 12-hour clock. */
  function DisplayHour(hour: int): (r: int)
    ensures 0 <= hour <= 23 ==> 1 <= r <= 12
    ensures 0 <= hour <= 23 ==> r == (if hour % 12 == 0 then 12 else hour % 12)
  {
    if hour > 12 then hour - 12 else if hour == 0 then 12 else hour
  }

  /** The 24-hour clock hour a displayed hour and its half of the day stand
      for. */
  function HourOf(display: int, pm: bool): int {
    if pm then (if display == 12 then 12 else display + 12) else (if display == 12 then 0 else display)
  }

  /** For hours 0..23 the display loses nothing: the hour is recovered from
      the displayed hour and AM/PM. */
  lemma DisplayHourRoundTrip(hour: int)
    requires 0 <= hour <= 23
    ensures HourOf(DisplayHour(hour), hour >= 12) == hour
  {
  }

  /** `formatTime`: the first field read with `parseInt` and shown on a
      12-hour clock (`NaN` when it holds no number), the second field copied
      as it is ("undefined" when there is none), then AM or PM. */
  function FormatTime(timeStr: string): (r: string)
    ensures var hour := ParseInt(BeforeColon(timeStr));
      && (hour.None? ==> r == "NaN:" + SecondField(timeStr) + " AM")
      && (hour.Some? && 0 <= hour.value <= 23 ==>
            r == NatToString(DisplayHour(hour.value)) + ":" + SecondField(timeStr) + " "
                 + (if hour.value >= 12 then "PM" else "AM"))
  {
    var m := SecondField(timeStr);
    match ParseInt(BeforeColon(timeStr))
    case None => "NaN:" + m + " AM"
    case Some(h) => IntToString(DisplayHour(h)) + ":" + m + " " + (if h >= 12 then "PM" else "AM")
  }

  /** A `TimeOnly` as the server sends it: "HH:mm:ss". */
  function TimeText(t: TimeOfDay): string {
    TwoDigits(t / 3600) + ":" + TwoDigits((t / 60) % 60) + ":" + TwoDigits(t % 60)
  }

  lemma TimeFields(t: TimeOfDay)
    ensures 0 <= t / 3600 < 24 && 0 <= (t / 60) % 60 < 60
    ensures BeforeColon(TimeText(t)) == TwoDigits(t / 3600)
    ensures SecondField(TimeText(t)) == TwoDigits((t / 60) % 60)
  {
    var hh, mm, ss := TwoDigits(t / 3600), TwoDigits((t / 60) % 60), TwoDigits(t % 60);
    assert ':' !in hh && ':' !in mm by {
      assert forall i :: 0 <= i < 2 ==> IsDigit(hh[i]) && IsDigit(mm[i]);
    }
    assert TimeText(t) == hh + ":" + (mm + ":" + ss);
    SplitAtColon(hh, mm + ":" + ss);
    SplitAtColon(mm, ss);
  }

  /** `formatTime` of a string whose first field reads as an hour of the day. */
  lemma FormatParsed(s: string, h: int)
    requires ParseInt(BeforeColon(s)) == Some(h) && 0 <= h <= 23
    ensures FormatTime(s) == NatToString(DisplayHour(h)) + ":" + SecondField(s) + " " + (if h >= 12 then "PM" else "AM")
  {
  }

  /** A server time is shown as the hour on a 12-hour clock without a
      leading zero, the two-digit minutes and AM before noon, PM after; the
      seconds are not shown. */
  lemma FormatServerTime(t: TimeOfDay)
    ensures var h := t / 3600;
      && 1 <= DisplayHour(h) <= 12
      && FormatTime(TimeText(t)) == NatToString(DisplayHour(h)) + ":" + TwoDigits((t / 60) % 60) + " "
                                    + (if t < 43200 then "AM" else "PM")
  {
    var h, s := t / 3600, TimeText(t);
    TimeFields(t);
    ParseTwoDigits(h);
    assert ParseInt(BeforeColon(s)) == Some(h);
    assert h >= 12 <==> t >= 43200;
    FormatParsed(s, h);
  }

  // ---------------------------------------------------------------------------
  // getExamStatus
  // ---------------------------------------------------------------------------

  /** `examDate.setHours(hour, minute, 0, 0)` for the two first fields of a
      time string, from the local midnight `localDay` (in milliseconds) the
      exam date falls on; `None` is the invalid date a `NaN` field gives.
      Hours and minutes out of range carry into neighbouring days. */
  function ClockAt(localDay: int, timeStr: string): Option<int> {
    var h := ParseInt(BeforeColon(timeStr));
    var m := ParseInt(SecondField(timeStr));
    if h.Some? && m.Some? then Some(localDay + h.value * 3_600_000 + m.value * 60_000) else None
  }

  /** `getExamStatus`: "Upcoming" before the start, "Ongoing" up to and
      including the end, otherwise "Completed" — also when either time is
      invalid, since every comparison with an invalid date is false. */
  function GetExamStatus(now: int, localDay: int, startTime: string, endTime: string): (r: string)
    ensures r == "Upcoming" || r == "Ongoing" || r == "Completed"
    ensures r == "Upcoming" <==> ClockAt(localDay, startTime).Some? && now < ClockAt(localDay, startTime).value
    ensures r == "Ongoing" <==>
      ClockAt(localDay, startTime).Some? && ClockAt(localDay, endTime).Some?
      && ClockAt(localDay, startTime).value <= now <= ClockAt(localDay, endTime).value
  {
    var start := ClockAt(localDay, startTime);
    var end := ClockAt(localDay, endTime);
    if start.Some? && now < start.value then "Upcoming"
    else if start.Some? && end.Some? && now >= start.value && now <= end.value then "Ongoing"
    else "Completed"
  }

  /** A server time is read to the minute: the seconds are dropped. */
  lemma ClockAtServerTime(localDay: int, t: TimeOfDay)
    ensures ClockAt(localDay, TimeText(t)).Some?
    ensures ClockAt(localDay, TimeText(t)).value == localDay + (t / 60) * 60_000
  {
    var h, m := t / 3600, (t / 60) % 60;
    TimeFields(t);
    ParseTwoDigits(h);
    ParseTwoDigits(m);
    ClockAtFields(localDay, TimeText(t), h, m);
    HallTicketService.MinutesSplit(t);
  }

  /** The instant of a time string whose fields read as `h` and `m`. */
  lemma ClockAtFields(localDay: int, s: string, h: int, m: int)
    requires ParseInt(BeforeColon(s)) == Some(h) && ParseInt(SecondField(s)) == Some(m)
    ensures ClockAt(localDay, s).Some? && ClockAt(localDay, s).value == localDay + (h * 60 + m) * 60_000
  {
  }

  /** For an exam with server times, the status moves from "Upcoming" to
      "Ongoing" at the start minute and to "Completed" after the end minute. */
  lemma ExamStatusTimeline(now: int, localDay: int, startTime: TimeOfDay, endTime: TimeOfDay)
    requires startTime < endTime
    ensures var start := localDay + (startTime / 60) * 60_000;
      var end := localDay + (endTime / 60) * 60_000;
      var r := GetExamStatus(now, localDay, TimeText(startTime), TimeText(endTime));
      && (r == "Upcoming" <==> now < start)
      && (r == "Ongoing" <==> start <= now <= end)
      && (r == "Completed" <==> end < now)
  {
    ClockAtServerTime(localDay, startTime);
    ClockAtServerTime(localDay, endTime);
    MinuteMonotone(startTime, endTime);
    StatusInWindow(now, localDay, TimeText(startTime), TimeText(endTime),
                   localDay + (startTime / 60) * 60_000, localDay + (endTime / 60) * 60_000);
  }

  lemma MinuteMonotone(a: int, b: int)
    requires 0 <= a < b
    ensures a / 60 <= b / 60
  {
  }

  /** The status of an exam whose two times read as the instants `start` and
      `end`, in that order. */
  lemma StatusInWindow(now: int, localDay: int, startTime: string, endTime: string, start: int, end: int)
    requires ClockAt(localDay, startTime).Some? && ClockAt(localDay, startTime).value == start
    requires ClockAt(localDay, endTime).Some? && ClockAt(localDay, endTime).value == end
    requires start <= end
    ensures var r := GetExamStatus(now, localDay, startTime, endTime);
      && (r == "Upcoming" <==> now < start)
      && (r == "Ongoing" <==> start <= now <= end)
      && (r == "Completed" <==> end < now)
  {
  }
}
