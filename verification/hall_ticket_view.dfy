/** `HallTicketComponent`: the student's hall-ticket page — the completed
    series, whether each one's ticket is marked released in the browser's
    stored status map, and the two counters. */
module HallTicketView {
  import opened Seqs
  import opened ManageExams
  import StudentExams
  import BranchCatalog

  /** `filterCompletedExams`: the series whose end date is already past,
      in list order. */
  function FilterCompletedExams(list: seq<SeriesCard>, now: Millis): (r: seq<SeriesCard>)
    ensures forall s :: s in r <==> s in list && DateInstant(s.endDate) < now
  {
    Filter(list, (s: SeriesCard) => DateInstant(s.endDate) < now)
  }

  /** The page keeps the same series, in the same order, as the admin page's
      completed tab. */
  lemma {:induction false} CompletedMatchesAdminTab(list: seq<SeriesCard>, now: Millis)
    ensures FilterCompletedExams(list, now) == TabList(list, now, Completed)
    decreases |list|
  {
    if |list| > 0 {
      CompletedMatchesAdminTab(list[1..], now);
    }
  }

  /** `getExamSeriesStatus` repeats the admin page's three-way test, so every
      series kept as completed (and well formed) shows the status
      "completed". */
  lemma CompletedSeriesShowCompleted(list: seq<SeriesCard>, now: Millis)
    ensures forall s :: s in FilterCompletedExams(list, now) && WellFormed(s) ==>
      GetExamStatus(s, now) == Completed && PhaseName(GetExamStatus(s, now)) == "completed"
  {
  }

  /** `isHallTicketReleased`: the stored flag, false for a series the map
      does not mention. */
  predicate IsHallTicketReleased(status: map<string, bool>, seriesId: string) {
    seriesId in status && status[seriesId]
  }

  /** `releasedCount` and `pendingCount`. */
  function ReleasedCount(completed: seq<SeriesCard>, status: map<string, bool>): nat {
    |Filter(completed, (s: SeriesCard) => IsHallTicketReleased(status, s.id))|
  }

  function PendingCount(completed: seq<SeriesCard>, status: map<string, bool>): nat {
    |Filter(completed, (s: SeriesCard) => !IsHallTicketReleased(status, s.id))|
  }

  /** Every completed series is counted once: as released or as pending. */
  lemma {:induction false} CountsCoverCompleted(completed: seq<SeriesCard>, status: map<string, bool>)
    ensures ReleasedCount(completed, status) + PendingCount(completed, status) == |completed|
    decreases |completed|
  {
    if |completed| > 0 {
      CountsCoverCompleted(completed[1..], status);
    }
  }

  /** With no stored status every completed series is pending. */
  lemma NothingStoredAllPending(completed: seq<SeriesCard>)
    ensures ReleasedCount(completed, map[]) == 0
    ensures PendingCount(completed, map[]) == |completed|
  {
    FilterKeepsNone(completed, (s: SeriesCard) => IsHallTicketReleased(map[], s.id));
    CountsCoverCompleted(completed, map[]);
  }

  /** The page's own copy of the department table, with the same identity
      fallback: the code it requests with is the server's translation. */
  function BranchCodeOf(department: string): (r: string)
    ensures r == BranchCatalog.GetBranchCode(department)
    ensures r == StudentExams.BranchCodeOf(department)
  {
    var table := map[
      "Computer Science" := "CSE",
      "Information Technology" := "IT",
      "Electronics and Communication" := "ECE",
      "Electrical Engineering" := "EEE",
      "Mechanical Engineering" := "MECH",
      "Civil Engineering" := "CIVIL",
      "Chemical Engineering" := "CHEM"
    ];
    if department in table then table[department] else department
  }
}
