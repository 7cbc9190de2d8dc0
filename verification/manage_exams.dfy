/** `ManageExamsComponent`: the admin list of exam series, split into
    upcoming, ongoing and completed tabs, with counters per exam type. The
    browser clock is the parameter `now`. */
module ManageExams {
  import opened Seqs
  import opened Entities
  import HallTicketService

  /** A browser instant: milliseconds since 0001-01-01T00:00 UTC. */
  type Millis = int

  const MillisPerDay: int := 86_400_000

  /** `new Date("yyyy-mm-dd")`: a date-only string is read as UTC midnight. */
  function DateInstant(d: Date): Millis {
    d * MillisPerDay
  }

  /** The fields of a series response the page uses. */
  datatype SeriesCard = SeriesCard(id: string, examType: int, startDate: Date, endDate: Date)

  datatype Phase = Upcoming | Ongoing | Completed

  /** The tab names, which are also the status texts the page shows. */
  function PhaseName(p: Phase): string {
    match p
    case Upcoming => "upcoming"
    case Ongoing => "ongoing"
    case Completed => "completed"
  }

  // ---------------------------------------------------------------------------
  // categorizeExams
  // ---------------------------------------------------------------------------

  /** The test each tab's `filter` applies. */
  predicate InTab(s: SeriesCard, now: Millis, p: Phase) {
    match p
    case Upcoming => DateInstant(s.startDate) > now
    case Ongoing => DateInstant(s.startDate) <= now && DateInstant(s.endDate) >= now
    case Completed => DateInstant(s.endDate) < now
  }

  /** The series one tab keeps, in list order. */
  function TabList(list: seq<SeriesCard>, now: Millis, p: Phase): (r: seq<SeriesCard>)
    ensures |r| <= |list|
    ensures forall s :: s in r <==> s in list && InTab(s, now, p)
  {
    if |list| == 0 then []
    else (if InTab(list[0], now, p) then [list[0]] else []) + TabList(list[1..], now, p)
  }

  lemma {:induction false} TabListConcat(a: seq<SeriesCard>, b: seq<SeriesCard>, now: Millis, p: Phase)
    ensures TabList(a + b, now, p) == TabList(a, now, p) + TabList(b, now, p)
    decreases |a|
  {
    if |a| > 0 {
      assert (a + b)[1..] == a[1..] + b;
      TabListConcat(a[1..], b, now, p);
    } else {
      assert a + b == b;
    }
  }

  /** A tab's list over one more element of `list`. */
  lemma TabListStep(list: seq<SeriesCard>, k: int, now: Millis, p: Phase)
    requires 0 <= k < |list|
    ensures TabList(list[..k + 1], now, p)
      == TabList(list[..k], now, p) + (if InTab(list[k], now, p) then [list[k]] else [])
  {
    assert list[..k + 1] == list[..k] + [list[k]];
    TabListConcat(list[..k], [list[k]], now, p);
  }

  /** `categorizeExams`: the three `filter` passes over the list. */
  method CategorizeExams(list: seq<SeriesCard>, now: Millis)
    returns (upcoming: seq<SeriesCard>, ongoing: seq<SeriesCard>, completed: seq<SeriesCard>)
    ensures upcoming == TabList(list, now, Upcoming)
    ensures ongoing == TabList(list, now, Ongoing)
    ensures completed == TabList(list, now, Completed)
  {
    upcoming, ongoing, completed := [], [], [];
    var k := 0;
    while k < |list|
      invariant 0 <= k <= |list|
      invariant upcoming == TabList(list[..k], now, Upcoming)
      invariant ongoing == TabList(list[..k], now, Ongoing)
      invariant completed == TabList(list[..k], now, Completed)
    {
      var s := list[k];
      TabListStep(list, k, now, Upcoming);
      TabListStep(list, k, now, Ongoing);
      TabListStep(list, k, now, Completed);
      if DateInstant(s.startDate) > now {
        upcoming := upcoming + [s];
      }
      if DateInstant(s.startDate) <= now && DateInstant(s.endDate) >= now {
        ongoing := ongoing + [s];
      }
      if DateInstant(s.endDate) < now {
        completed := completed + [s];
      }
      k := k + 1;
    }
    assert list[..|list|] == list;
  }

  /** A series whose start is not after its end. */
  predicate WellFormed(s: SeriesCard) {
    s.startDate <= s.endDate
  }

  /** `getExamStatus`: upcoming before the start, ongoing up to and including
      the end, completed after. */
  function GetExamStatus(s: SeriesCard, now: Millis): (r: Phase)
    ensures r == Upcoming <==> DateInstant(s.startDate) > now
    ensures r == Completed <==> DateInstant(s.startDate) <= now && DateInstant(s.endDate) < now
  {
    if DateInstant(s.startDate) > now then Upcoming
    else if DateInstant(s.startDate) <= now && DateInstant(s.endDate) >= now then Ongoing
    else Completed
  }

  /** For a well-formed series the tab tests agree with `getExamStatus`: a
      series is in a tab exactly when its status names that tab, so it is in
      exactly one. */
  lemma StatusNamesTab(s: SeriesCard, now: Millis, p: Phase)
    requires WellFormed(s)
    ensures InTab(s, now, p) <==> GetExamStatus(s, now) == p
  {
  }

  /** A reversed series (start after end) can be both upcoming and completed. */
  lemma ReversedSeriesInTwoTabs()
    ensures var s := SeriesCard("s", 1, 10, 5);
      var now := DateInstant(7);
      InTab(s, now, Upcoming) && InTab(s, now, Completed)
  {
  }

  /** Over well-formed series the three tabs partition the list: every series
      is in exactly one, so the tab sizes add up to the list's. */
  lemma {:induction false} TabsPartition(list: seq<SeriesCard>, now: Millis)
    requires forall i :: 0 <= i < |list| ==> WellFormed(list[i])
    ensures |TabList(list, now, Upcoming)| + |TabList(list, now, Ongoing)| + |TabList(list, now, Completed)| == |list|
    decreases |list|
  {
    if |list| > 0 {
      StatusNamesTab(list[0], now, Upcoming);
      StatusNamesTab(list[0], now, Ongoing);
      StatusNamesTab(list[0], now, Completed);
      TabsPartition(list[1..], now);
    }
  }

  /** The page compares the same UTC midnights as the hall-ticket service, so
      at the same moment both report the same phase of a series. */
  lemma StatusAgreesWithService(s: SeriesCard, seconds: Instant)
    ensures var p := GetExamStatus(s, seconds * 1000);
      var service := HallTicketService.SeriesStatus(Midnight(s.startDate), Midnight(s.endDate), seconds);
      && (p == Upcoming <==> service == "Upcoming")
      && (p == Ongoing <==> service == "Ongoing")
      && (p == Completed <==> service == "Completed")
  {
  }

  // ---------------------------------------------------------------------------
  // Tabs and counters
  // ---------------------------------------------------------------------------

  datatype Tab = All | PhaseTab(phase: Phase)

  /** `getFilteredExams`: the active tab's list; "all" shows every series. */
  function GetFilteredExams(tab: Tab, list: seq<SeriesCard>, upcoming: seq<SeriesCard>,
                            ongoing: seq<SeriesCard>, completed: seq<SeriesCard>): seq<SeriesCard>
  {
    match tab
    case All => list
    case PhaseTab(Upcoming) => upcoming
    case PhaseTab(Ongoing) => ongoing
    case PhaseTab(Completed) => completed
  }

  /** After categorising, a phase tab shows exactly the series of that phase
      (for well-formed series), in list order, and "all" shows the list. */
  lemma FilteredTabShowsPhase(list: seq<SeriesCard>, now: Millis, tab: Tab)
    requires forall i :: 0 <= i < |list| ==> WellFormed(list[i])
    ensures var shown := GetFilteredExams(tab, list, TabList(list, now, Upcoming),
                                          TabList(list, now, Ongoing), TabList(list, now, Completed));
      && (tab == All ==> shown == list)
      && (tab.PhaseTab? ==> shown == TabList(list, now, tab.phase))
      && (tab.PhaseTab? ==> forall s :: s in list ==> (s in shown <==> GetExamStatus(s, now) == tab.phase))
  {
    if tab.PhaseTab? {
      forall s | s in list
        ensures s in TabList(list, now, tab.phase) <==> GetExamStatus(s, now) == tab.phase
      {
        var i :| 0 <= i < |list| && list[i] == s;
        StatusNamesTab(s, now, tab.phase);
      }
    }
  }

  /** The number of series whose type is in `types`. */
  function TypeCount(list: seq<SeriesCard>, types: set<int>): (r: nat)
    ensures r <= |list|
  {
    if |list| == 0 then 0 else (if list[0].examType in types then 1 else 0) + TypeCount(list[1..], types)
  }

  /** `semesterExamsCount`, `midtermExamsCount` and `labExamsCount`. */
  function SemesterCount(list: seq<SeriesCard>): nat { TypeCount(list, {1}) }
  function MidtermCount(list: seq<SeriesCard>): nat { TypeCount(list, {2}) }
  function LabCount(list: seq<SeriesCard>): nat { TypeCount(list, {3, 4}) }

  /** Counting two disjoint type sets counts their union. */
  lemma {:induction false} TypeCountUnion(list: seq<SeriesCard>, a: set<int>, b: set<int>)
    requires a !! b
    ensures TypeCount(list, a) + TypeCount(list, b) == TypeCount(list, a + b)
    decreases |list|
  {
    if |list| > 0 {
      TypeCountUnion(list[1..], a, b);
    }
  }

  /** The counters count disjoint types, so together they never exceed the
      number of series; series of any other type are counted by none. */
  lemma CountersWithinList(list: seq<SeriesCard>)
    ensures SemesterCount(list) + MidtermCount(list) + LabCount(list) == TypeCount(list, {1, 2, 3, 4})
    ensures SemesterCount(list) + MidtermCount(list) + LabCount(list) <= |list|
  {
    TypeCountUnion(list, {1}, {2});
    TypeCountUnion(list, {1, 2}, {3, 4});
    assert {1} + {2} == {1, 2};
    assert {1, 2} + {3, 4} == {1, 2, 3, 4};
  }
}
