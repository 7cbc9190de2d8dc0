/** Hall tickets (HallTicketService): releasing tickets for a series, the
    per-student eligibility list, the downloadable ticket, and the admin list
    of students with their ticket state. */
module HallTicketService {
  import opened Outcomes
  import opened Text
  import opened Seqs
  import opened Entities
  import ExamService
  import BranchCatalog

  // ---------------------------------------------------------------------------
  // Ticket numbers
  // ---------------------------------------------------------------------------

  /** `HT-{year}-{studentId:D5}`. */
  function TicketNumber(year: int, key: UserKey): string {
    "HT-" + IntToString(year) + "-" + FormatD(key, 5)
  }

  /** The position of the first `c` in `s`. */
  function IndexOf(s: string, c: char): (r: Option<nat>)
    ensures r.Some? ==> r.value < |s| && s[r.value] == c && forall i :: 0 <= i < r.value ==> s[i] != c
    ensures r.None? ==> forall i :: 0 <= i < |s| ==> s[i] != c
  {
    if |s| == 0 then None
    else if s[0] == c then Some(0)
    else match IndexOf(s[1..], c)
      case None => None
      case Some(k) => Some(k + 1)
  }

  /** Reads a ticket number back into its year and student key. */
  function ParseTicketNumber(s: string): Option<(int, UserKey)> {
    if |s| < 3 || s[..3] != "HT-" then None
    else
      var rest := s[3..];
      var dash := IndexOf(rest, '-');
      if dash.None? then None
      else
        var year := ParseInt32(rest[..dash.value]);
        var key := ParseInt32(rest[dash.value + 1..]);
        if year.Some? && key.Some? then Some((year.value, key.value)) else None
  }

  /** In "<digits>-<anything>" the first dash follows the digits. */
  lemma DashAfterDigits(y: string, d: string)
    requires AllDigits(y)
    ensures IndexOf(y + "-" + d, '-') == Some(|y|)
  {
    var rest := y + "-" + d;
    assert rest[|y|] == '-';
    assert forall i :: 0 <= i < |y| ==> rest[i] == y[i];
  }

  /** Reading "HT-<digits>-<rest>" parses the digits and the rest. */
  lemma ParseTicketParts(y: string, d: string)
    requires AllDigits(y)
    ensures var year, key := ParseInt32(y), ParseInt32(d);
      ParseTicketNumber("HT-" + y + "-" + d) == if year.Some? && key.Some? then Some((year.value, key.value)) else None
  {
    var rest := y + "-" + d;
    var s := "HT-" + y + "-" + d;
    assert s == "HT-" + rest;
    assert s[..3] == "HT-" && s[3..] == rest;
    DashAfterDigits(y, d);
    assert rest[..|y|] == y && rest[|y| + 1..] == d;
  }

  /** A ticket number names its year and student: reading it back gives both,
      for every non-negative year and every 32-bit key. */
  lemma TicketNumberRoundTrip(year: int, key: UserKey)
    requires 0 <= year && InInt32(year) && InInt32(key)
    ensures ParseTicketNumber(TicketNumber(year, key)) == Some((year, key))
  {
    ParseTicketParts(IntToString(year), FormatD(key, 5));
    ParseIntToString(year);
    ParseFormatD(key, 5);
  }

  /** Two different (year, student) pairs never share a ticket number. */
  lemma TicketNumbersDistinct(y1: int, k1: UserKey, y2: int, k2: UserKey)
    requires 0 <= y1 && InInt32(y1) && InInt32(k1)
    requires 0 <= y2 && InInt32(y2) && InInt32(k2)
    requires (y1, k1) != (y2, k2)
    ensures TicketNumber(y1, k1) != TicketNumber(y2, k2)
  {
    TicketNumberRoundTrip(y1, k1);
    TicketNumberRoundTrip(y2, k2);
  }

  /** A stored series year is 1 to 4, a single digit, so with a key below
      100000 every real ticket number has ten characters, as in "HT-2-00042". */
  lemma TicketNumberShape(year: int, key: UserKey)
    requires 1 <= year <= 4 && 0 <= key < 100000
    ensures |TicketNumber(year, key)| == 10
  {
    PadDigitsExactWidth(key, 5);
  }

  // ---------------------------------------------------------------------------
  // ReleaseHallTicketsAsync
  // ---------------------------------------------------------------------------

  datatype ReleaseRequest = ReleaseRequest(
    seriesId: SeriesId,
    branches: seq<string>,
    sections: seq<string>,
    studentIds: seq<UserKey>,
    selectAll: bool)

  datatype ReleaseResponse = ReleaseResponse(
    success: bool,
    message: string,
    totalStudents: nat,
    newlyReleased: nat,
    alreadyReleased: nat,
    releasedStudentIds: seq<string>)

  /** The "select all" filter: an active student with a profile of the series'
      year, in one of the listed departments and sections (an empty list
      admits every value). */
  predicate ReleaseFilterMatch(db: Db, u: User, s: ExamSeries, req: ReleaseRequest) {
    && u.role == StudentRole && u.isActive
    && ProfileOf(db, u.id).Some?
    && ProfileOf(db, u.id).value.year == IntToString(s.year)
    && (|req.branches| == 0 || ProfileOf(db, u.id).value.department in req.branches)
    && (|req.sections| == 0 || ProfileOf(db, u.id).value.section in req.sections)
  }

  function SelectStudents(db: Db, users: seq<User>, s: ExamSeries, req: ReleaseRequest): (r: seq<UserKey>)
    ensures forall k :: k in r <==> exists u :: u in users && u.id == k && ReleaseFilterMatch(db, u, s, req)
  {
    if |users| == 0 then []
    else
      assert forall u :: u in users <==> u == users[0] || u in users[1..] by {
        assert users == [users[0]] + users[1..];
      }
      (if ReleaseFilterMatch(db, users[0], s, req) then [users[0].id] else []) + SelectStudents(db, users[1..], s, req)
  }

  /** The keys a release is for: the filter's matches, or the explicit list
      taken as given (neither role, activity, profile nor year is checked). */
  function TargetIds(db: Db, s: ExamSeries, req: ReleaseRequest): seq<UserKey> {
    if req.selectAll then SelectStudents(db, db.users, s, req) else req.studentIds
  }

  /** A ticket of any status links the student to the series. */
  predicate HoldsTicket(ts: seq<HallTicket>, key: UserKey, sid: SeriesId) {
    exists t :: t in ts && t.studentId == key && t.seriesId == sid
  }

  /** The students of existing tickets of the series that are among `ids`, one
      entry per ticket. */
  function Holders(ts: seq<HallTicket>, sid: SeriesId, ids: seq<UserKey>): (r: seq<UserKey>)
    ensures forall k :: k in r <==> k in ids && HoldsTicket(ts, k, sid)
  {
    if |ts| == 0 then []
    else
      assert forall t :: t in ts <==> t == ts[0] || t in ts[1..] by {
        assert ts == [ts[0]] + ts[1..];
      }
      (if ts[0].seriesId == sid && ts[0].studentId in ids then [ts[0].studentId] else []) + Holders(ts[1..], sid, ids)
  }

  /** One ticket per student, in the given order. */
  function IssueTickets(students: seq<User>, sid: SeriesId, year: int, now: Instant): (r: seq<HallTicket>)
    ensures |r| == |students|
    ensures forall i :: 0 <= i < |r| ==>
      r[i] == HallTicket(students[i].id, sid, TicketNumber(year, students[i].id), now, ReleasedStatus, None)
  {
    if |students| == 0 then []
    else [HallTicket(students[0].id, sid, TicketNumber(year, students[0].id), now, ReleasedStatus, None)]
         + IssueTickets(students[1..], sid, year, now)
  }

  /** Users whose key is among `keys`, in table order. */
  function UsersWithKeys(users: seq<User>, keys: seq<UserKey>): (r: seq<User>)
    ensures forall u :: u in r <==> u in users && u.id in keys
  {
    Filter(users, (u: User) => u.id in keys)
  }

  /** The intermediate lists of a release: the selected keys, the selected
      keys that already hold a ticket (one entry per ticket), the distinct
      keys without one, the users behind those keys, and their new tickets. */
  datatype ReleasePlan = ReleasePlan(
    ids: seq<UserKey>,
    existing: seq<UserKey>,
    newKeys: seq<UserKey>,
    students: seq<User>,
    issued: seq<HallTicket>)

  function PlanRelease(db: Db, s: ExamSeries, req: ReleaseRequest, now: Instant): (p: ReleasePlan)
    ensures p.ids == TargetIds(db, s, req)
    ensures p.existing == Holders(db.tickets, req.seriesId, p.ids)
    ensures NoDups(p.newKeys)
    ensures forall k :: k in p.newKeys <==> k in p.ids && !HoldsTicket(db.tickets, k, req.seriesId)
    ensures forall u :: u in p.students <==> u in db.users && u.id in p.newKeys
    ensures |p.issued| == |p.students|
    ensures forall i :: 0 <= i < |p.issued| ==>
      p.issued[i] == HallTicket(p.students[i].id, req.seriesId, TicketNumber(s.year, p.students[i].id), now, ReleasedStatus, None)
  {
    var ids := TargetIds(db, s, req);
    var existing := Holders(db.tickets, req.seriesId, ids);
    var newKeys := Except(ids, existing);
    var students := UsersWithKeys(db.users, newKeys);
    ReleasePlan(ids, existing, newKeys, students, IssueTickets(students, req.seriesId, s.year, now))
  }

  function ReleaseMessage(newly: nat, already: nat): string {
    "Released " + IntToString(newly) + " new hall tickets. " + IntToString(already) + " were already released."
  }

  /** Releases tickets for a series: rejects an unknown series, then an empty
      selection; otherwise appends the plan's tickets and reports the counts.
      Nothing but the ticket table changes, and no ticket is removed. */
  function ReleaseHallTickets(db: Db, req: ReleaseRequest, now: Instant): (r: Result<(Db, ReleaseResponse)>)
    ensures r.Err? <==> FindSeries(db, req.seriesId).None? || TargetIds(db, FindSeries(db, req.seriesId).value, req) == []
    ensures FindSeries(db, req.seriesId).None? ==> r == Err("Exam series not found")
    ensures r.Ok? ==>
      var p := PlanRelease(db, FindSeries(db, req.seriesId).value, req, now);
      var (db', resp) := r.value;
      && db' == db.(tickets := db.tickets + p.issued)
      && resp.success && resp.totalStudents == |p.ids|
      && resp.alreadyReleased == |p.existing| && resp.newlyReleased == |p.newKeys|
      && resp.message == ReleaseMessage(resp.newlyReleased, resp.alreadyReleased)
      && |resp.releasedStudentIds| == |p.issued|
      && forall i :: 0 <= i < |p.issued| ==>
        resp.releasedStudentIds[i] == p.students[i].userId && p.issued[i].studentId == p.students[i].id
  {
    match FindSeries(db, req.seriesId)
    case None => Err("Exam series not found")
    case Some(s) =>
      var p := PlanRelease(db, s, req, now);
      if |p.ids| == 0 then Err("No students selected")
      else
        Ok((db.(tickets := db.tickets + p.issued),
            ReleaseResponse(true, ReleaseMessage(|p.newKeys|, |p.existing|), |p.ids|, |p.newKeys|, |p.existing|,
                            Map(p.students, UserIdOf))))
  }

  /** The reported ids are the textual user ids of exactly the users who got
      a new ticket. */
  lemma ReleaseReportsNewUsers(db: Db, req: ReleaseRequest, now: Instant)
    requires ReleaseHallTickets(db, req, now).Ok?
    ensures var p := PlanRelease(db, FindSeries(db, req.seriesId).value, req, now);
      var ids := ReleaseHallTickets(db, req, now).value.1.releasedStudentIds;
      forall x :: x in ids <==> exists u :: u in db.users && u.id in p.newKeys && u.userId == x
  {
    var p := PlanRelease(db, FindSeries(db, req.seriesId).value, req, now);
    var ids := ReleaseHallTickets(db, req, now).value.1.releasedStudentIds;
    UserIdsOf(db.users, p.newKeys, p.students, ids);
  }

  /** Ids read off, one by one, from the users with keys among `keys`. */
  lemma UserIdsOf(users: seq<User>, keys: seq<UserKey>, students: seq<User>, ids: seq<string>)
    requires |ids| == |students| && forall i :: 0 <= i < |ids| ==> ids[i] == students[i].userId
    requires forall u :: u in students <==> u in users && u.id in keys
    ensures forall x :: x in ids <==> exists u :: u in users && u.id in keys && u.userId == x
  {
    forall x | x in ids
      ensures exists u :: u in users && u.id in keys && u.userId == x
    {
      var i :| 0 <= i < |ids| && ids[i] == x;
      assert students[i] in students;
    }
    forall x | exists u :: u in users && u.id in keys && u.userId == x
      ensures x in ids
    {
      var u :| u in users && u.id in keys && u.userId == x;
      var i :| 0 <= i < |students| && students[i] == u;
      assert ids[i] == x;
    }
  }

  /** Each ticket a release adds is a Released ticket of the series, numbered
      from the series' year and the student's key, for a selected user with no
      ticket for the series. */
  lemma ReleaseAddsOnlyNewTickets(db: Db, req: ReleaseRequest, now: Instant)
    requires ReleaseHallTickets(db, req, now).Ok?
    ensures var db' := ReleaseHallTickets(db, req, now).value.0;
      var s := FindSeries(db, req.seriesId).value;
      && |db'.tickets| >= |db.tickets| && db'.tickets[..|db.tickets|] == db.tickets
      && forall t :: t in db'.tickets[|db.tickets|..] ==>
        && t.seriesId == req.seriesId && t.status == ReleasedStatus && t.remarks == None
        && t.issuedAt == now && t.number == TicketNumber(s.year, t.studentId)
        && t.studentId in TargetIds(db, s, req) && !HoldsTicket(db.tickets, t.studentId, req.seriesId)
        && exists u :: u in db.users && u.id == t.studentId
  {
    var s := FindSeries(db, req.seriesId).value;
    var p := PlanRelease(db, s, req, now);
    var all := db.tickets + p.issued;
    assert all[..|db.tickets|] == db.tickets && all[|db.tickets|..] == p.issued;
    forall t | t in p.issued
      ensures t.seriesId == req.seriesId && t.status == ReleasedStatus && t.remarks == None
      ensures t.issuedAt == now && t.number == TicketNumber(s.year, t.studentId)
      ensures t.studentId in p.ids && !HoldsTicket(db.tickets, t.studentId, req.seriesId)
      ensures exists u :: u in db.users && u.id == t.studentId
    {
      var i :| 0 <= i < |p.issued| && p.issued[i] == t;
      assert p.students[i] in p.students;
    }
  }

  /** Every selected user without a ticket for the series holds one after the
      release. */
  lemma ReleaseCoversSelection(db: Db, req: ReleaseRequest, now: Instant)
    requires ReleaseHallTickets(db, req, now).Ok?
    ensures var db' := ReleaseHallTickets(db, req, now).value.0;
      var ids := TargetIds(db, FindSeries(db, req.seriesId).value, req);
      forall u :: u in db.users && u.id in ids && !HoldsTicket(db.tickets, u.id, req.seriesId) ==>
        HoldsTicket(db'.tickets, u.id, req.seriesId)
  {
    var s := FindSeries(db, req.seriesId).value;
    var p := PlanRelease(db, s, req, now);
    forall u | u in db.users && u.id in p.ids && !HoldsTicket(db.tickets, u.id, req.seriesId)
      ensures HoldsTicket(db.tickets + p.issued, u.id, req.seriesId)
    {
      assert u in p.students;
      var i :| 0 <= i < |p.students| && p.students[i] == u;
      assert p.issued[i] in db.tickets + p.issued;
    }
  }

  /** Under the ticket index, each existing ticket of the series names a
      different student. */
  lemma {:induction false} HoldersNoDups(ts: seq<HallTicket>, sid: SeriesId, ids: seq<UserKey>)
    requires TicketKeysUnique(ts)
    ensures NoDups(Holders(ts, sid, ids))
    decreases |ts|
  {
    if |ts| > 0 {
      var tail := ts[1..];
      assert TicketKeysUnique(tail) by {
        forall i, j | 0 <= i < j < |tail|
          ensures TicketKey(tail[i]) != TicketKey(tail[j])
        {
          assert tail[i] == ts[i + 1] && tail[j] == ts[j + 1];
        }
      }
      HoldersNoDups(tail, sid, ids);
      var rest := Holders(tail, sid, ids);
      if ts[0].seriesId == sid && ts[0].studentId in ids {
        forall t | t in tail && t.seriesId == sid
          ensures t.studentId != ts[0].studentId
        {
          var k :| 0 <= k < |tail| && tail[k] == t;
          assert TicketKey(ts[0]) != TicketKey(ts[k + 1]);
        }
        assert ts[0].studentId !in rest;
        var r := [ts[0].studentId] + rest;
        forall i, j | 0 <= i < j < |r|
          ensures r[i] != r[j]
        {
          assert r[j] == rest[j - 1];
          if i > 0 {
            assert r[i] == rest[i - 1];
          }
        }
      }
    }
  }

  /** Every distinct selected key is counted once: either as newly released or
      as already released. Repeats in the selection are counted once. */
  lemma ReleaseCounts(db: Db, req: ReleaseRequest, now: Instant)
    requires TicketKeysUnique(db.tickets)
    requires ReleaseHallTickets(db, req, now).Ok?
    ensures var resp := ReleaseHallTickets(db, req, now).value.1;
      var ids := TargetIds(db, FindSeries(db, req.seriesId).value, req);
      && resp.newlyReleased + resp.alreadyReleased == |Elems(ids)|
      && resp.alreadyReleased == |HeldAmong(db.tickets, req.seriesId, ids)|
  {
    var p := PlanRelease(db, FindSeries(db, req.seriesId).value, req, now);
    PlanCounts(db.tickets, req.seriesId, p.ids, p.existing, p.newKeys);
  }

  /** The selected keys that hold a ticket for the series. */
  function HeldAmong(ts: seq<HallTicket>, sid: SeriesId, ids: seq<UserKey>): set<UserKey> {
    set k | k in ids && HoldsTicket(ts, k, sid)
  }

  lemma PlanCounts(ts: seq<HallTicket>, sid: SeriesId, ids: seq<UserKey>, existing: seq<UserKey>, newKeys: seq<UserKey>)
    requires TicketKeysUnique(ts)
    requires existing == Holders(ts, sid, ids)
    requires NoDups(newKeys)
    requires forall k :: k in newKeys <==> k in ids && !HoldsTicket(ts, k, sid)
    ensures |existing| == |HeldAmong(ts, sid, ids)|
    ensures |newKeys| + |existing| == |Elems(ids)|
  {
    var held := HeldAmong(ts, sid, ids);
    HoldersNoDups(ts, sid, ids);
    NoDupsCardinality(existing);
    NoDupsCardinality(newKeys);
    assert Elems(existing) == held;
    assert Elems(newKeys) == Elems(ids) - held;
    SubsetSplit(Elems(ids), held);
  }

  lemma SubsetSplit<T>(a: set<T>, b: set<T>)
    requires b <= a
    ensures |a - b| + |b| == |a|
  {
    assert a == (a - b) + b;
    assert (a - b) * b == {};
  }

  /** A release keeps every unique key, the ticket index included. */
  lemma ReleaseKeepsValid(db: Db, req: ReleaseRequest, now: Instant)
    requires Valid(db)
    requires ReleaseHallTickets(db, req, now).Ok?
    ensures Valid(ReleaseHallTickets(db, req, now).value.0)
  {
    var p := PlanRelease(db, FindSeries(db, req.seriesId).value, req, now);
    PlanTicketsUnique(db, FindSeries(db, req.seriesId).value, req, now);
    UniqueByConcat(db.tickets, p.issued, TicketKey);
  }

  /** The planned tickets have distinct keys, none shared with a stored ticket. */
  lemma PlanTicketsUnique(db: Db, s: ExamSeries, req: ReleaseRequest, now: Instant)
    requires UserKeysUnique(db.users)
    ensures var p := PlanRelease(db, s, req, now);
      && UniqueBy(p.issued, TicketKey)
      && forall x, y :: x in db.tickets && y in p.issued ==> TicketKey(x) != TicketKey(y)
  {
    var p := PlanRelease(db, s, req, now);
    UniqueByFilter(db.users, (u: User) => u.id in p.newKeys, UserKeyOf);
    assert p.issued == IssueTickets(p.students, req.seriesId, s.year, now);
    IssuedTicketsUnique(db.tickets, p.students, req.seriesId, s.year, now);
  }

  /** Tickets issued to distinct students without a ticket for the series
      have distinct keys, none shared with `ts`. */
  lemma IssuedTicketsUnique(ts: seq<HallTicket>, students: seq<User>, sid: SeriesId, year: int, now: Instant)
    requires UniqueBy(students, UserKeyOf)
    requires forall u :: u in students ==> !HoldsTicket(ts, u.id, sid)
    ensures var issued := IssueTickets(students, sid, year, now);
      && UniqueBy(issued, TicketKey)
      && forall x, y :: x in ts && y in issued ==> TicketKey(x) != TicketKey(y)
  {
    var issued := IssueTickets(students, sid, year, now);
    forall i, j | 0 <= i < j < |issued|
      ensures TicketKey(issued[i]) != TicketKey(issued[j])
    {
      assert UserKeyOf(students[i]) != UserKeyOf(students[j]);
    }
    forall x, y | x in ts && y in issued
      ensures TicketKey(x) != TicketKey(y)
    {
      var j :| 0 <= j < |issued| && issued[j] == y;
      assert students[j] in students;
    }
  }

  /** The filter reads only users and profiles, so a release does not change
      what it selects. */
  lemma SelectionIgnoresTickets(db: Db, ts: seq<HallTicket>, s: ExamSeries, req: ReleaseRequest)
    ensures TargetIds(db.(tickets := ts), s, req) == TargetIds(db, s, req)
  {
    if req.selectAll {
      SelectStudentsIgnoresTickets(db, ts, db.users, s, req);
    }
  }

  lemma {:induction false} SelectStudentsIgnoresTickets(db: Db, ts: seq<HallTicket>, users: seq<User>, s: ExamSeries, req: ReleaseRequest)
    ensures SelectStudents(db.(tickets := ts), users, s, req) == SelectStudents(db, users, s, req)
    decreases |users|
  {
    if |users| > 0 {
      SelectStudentsIgnoresTickets(db, ts, users[1..], s, req);
    }
  }

  /** Releasing the same request again inserts nothing, and reports nothing
      new once every selected key belongs to a user. */
  lemma ReleaseTwice(db: Db, req: ReleaseRequest, now: Instant, later: Instant)
    requires ReleaseHallTickets(db, req, now).Ok?
    ensures var db' := ReleaseHallTickets(db, req, now).value.0;
      var again := ReleaseHallTickets(db', req, later);
      && again.Ok?
      && again.value.0 == db'
      && ((forall k :: k in TargetIds(db, FindSeries(db, req.seriesId).value, req) ==> exists u :: u in db.users && u.id == k)
          ==> again.value.1.newlyReleased == 0)
  {
    var db' := ReleaseHallTickets(db, req, now).value.0;
    var s := FindSeries(db, req.seriesId).value;
    assert FindSeries(db', req.seriesId) == Some(s);
    SelectionIgnoresTickets(db, db'.tickets, s, req);
    ReleaseCoversSelection(db, req, now);
    var p := PlanRelease(db, s, req, now);
    var p2 := PlanRelease(db', s, req, later);
    assert p2.ids == p.ids;
    forall k | k in p.ids && HoldsTicket(db.tickets, k, req.seriesId)
      ensures HoldsTicket(db'.tickets, k, req.seriesId)
    {
      var t :| t in db.tickets && t.studentId == k && t.seriesId == req.seriesId;
      assert t in db'.tickets;
    }
    assert forall u :: u !in p2.students;
    NothingIn(p2.students);
    assert db'.tickets + p2.issued == db'.tickets;
    if forall k :: k in p.ids ==> exists u :: u in db.users && u.id == k {
      forall k | k in p.ids
        ensures HoldsTicket(db'.tickets, k, req.seriesId)
      {
        var u :| u in db.users && u.id == k;
      }
      NothingIn(p2.newKeys);
    }
  }

  /** An explicit list is taken as given: a user of any role without a ticket
      for the series gets one. */
  lemma ExplicitListIgnoresRole(db: Db, sid: SeriesId, u: User, now: Instant)
    requires FindSeries(db, sid).Some? && u in db.users && !HoldsTicket(db.tickets, u.id, sid)
    ensures var r := ReleaseHallTickets(db, ReleaseRequest(sid, [], [], [u.id], false), now);
      r.Ok? && HoldsTicket(r.value.0.tickets, u.id, sid) && r.value.1.newlyReleased == 1
  {
    var req := ReleaseRequest(sid, [], [], [u.id], false);
    var s := FindSeries(db, sid).value;
    assert TargetIds(db, s, req) == [u.id];
    SingleNewKey(db, s, req, now);
    ReleaseCoversSelection(db, req, now);
  }

  /** An explicit one-key list whose key holds no ticket plans exactly that key. */
  lemma SingleNewKey(db: Db, s: ExamSeries, req: ReleaseRequest, now: Instant)
    requires !req.selectAll && |req.studentIds| == 1 && !HoldsTicket(db.tickets, req.studentIds[0], req.seriesId)
    ensures PlanRelease(db, s, req, now).newKeys == req.studentIds
  {
    var key := req.studentIds[0];
    var p := PlanRelease(db, s, req, now);
    assert p.ids == [key];
    assert key in p.newKeys;
    assert Elems(p.newKeys) == {key};
    NoDupsCardinality(p.newKeys);
    assert p.newKeys[0] in p.newKeys;
  }

  // ---------------------------------------------------------------------------
  // Series status and exam type names
  // ---------------------------------------------------------------------------

  /** `GetExamSeriesStatus`: Upcoming before the start instant, Ongoing up to
      and including the end instant, Completed after. */
  function SeriesStatus(start: Instant, end: Instant, now: Instant): (r: string)
    ensures r == "Upcoming" <==> now < start
    ensures r == "Ongoing" <==> start <= now <= end
    ensures r == "Completed" <==> start <= now && end < now
  {
    if start > now then "Upcoming"
    else if start <= now && end >= now then "Ongoing"
    else "Completed"
  }

  /** Both instants are the midnights that begin the first and the last day,
      so a series is already reported Completed during its last day. */
  lemma LastDayReportedCompleted(s: ExamSeries, now: Instant)
    requires s.startDate <= s.endDate
    requires Midnight(s.endDate) < now < Midnight(s.endDate) + SecondsPerDay
    ensures SeriesStatus(Midnight(s.startDate), Midnight(s.endDate), now) == "Completed"
  {
  }

  function ExamTypeName(examType: int): (r: string)
    ensures r != "Unknown" <==> 1 <= examType <= 4
  {
    match examType
    case 1 => "Semester"
    case 2 => "Midterm"
    case 3 => "Internal Lab"
    case 4 => "External Lab"
    case _ => "Unknown"
  }

  // ---------------------------------------------------------------------------
  // GetExamSeriesWithEligibilityAsync
  // ---------------------------------------------------------------------------

  /** Some student of the department holds a Released ticket of the series. */
  predicate DepartmentEligible(db: Db, sid: SeriesId, department: string) {
    exists t :: t in db.tickets && t.seriesId == sid && t.status == ReleasedStatus
      && ProfileOf(db, t.studentId).Some? && ProfileOf(db, t.studentId).value.department == department
  }

  predicate HasReleasedTicket(db: Db, key: UserKey, sid: SeriesId) {
    exists t :: t in db.tickets && t.studentId == key && t.seriesId == sid && t.status == ReleasedStatus
  }

  /** A student's own Released ticket makes the student's department eligible. */
  lemma OwnTicketMakesEligible(db: Db, key: UserKey, sid: SeriesId)
    requires HasReleasedTicket(db, key, sid) && ProfileOf(db, key).Some?
    ensures DepartmentEligible(db, sid, ProfileOf(db, key).value.department)
  {
    var t :| t in db.tickets && t.studentId == key && t.seriesId == sid && t.status == ReleasedStatus;
    assert ProfileOf(db, t.studentId) == ProfileOf(db, key);
  }

  datatype Eligibility = Eligibility(
    id: SeriesId,
    name: string,
    examType: int,
    examTypeName: string,
    startDate: Instant,
    endDate: Instant,
    year: int,
    status: string,
    isEligible: bool,
    studentHasHallTicket: bool)

  function EligibilityOf(db: Db, key: UserKey, department: string, s: ExamSeries, now: Instant): Eligibility {
    Eligibility(s.id, s.name, s.examType, ExamTypeName(s.examType), Midnight(s.startDate), Midnight(s.endDate),
                s.year, SeriesStatus(Midnight(s.startDate), Midnight(s.endDate), now),
                DepartmentEligible(db, s.id, department), HasReleasedTicket(db, key, s.id))
  }

  function EligibilityList(db: Db, key: UserKey, department: string, list: seq<ExamSeries>, now: Instant)
    : (r: seq<Eligibility>)
    ensures |r| == |list|
    ensures forall i :: 0 <= i < |r| ==> r[i] == EligibilityOf(db, key, department, list[i], now)
  {
    if |list| == 0 then []
    else [EligibilityOf(db, key, department, list[0], now)] + EligibilityList(db, key, department, list[1..], now)
  }

  /** `OrderByDescending(es => es.StartDate)`. */
  predicate StartsNoEarlier(a: ExamSeries, b: ExamSeries) {
    a.startDate >= b.startDate
  }

  lemma StartsNoEarlierOrders()
    ensures TotalPreorder(StartsNoEarlier)
  {
  }

  function SeriesOfYear(db: Db, year: int): (r: seq<ExamSeries>)
    ensures SortedBy(r, StartsNoEarlier)
    ensures forall s :: s in r <==> s in db.series && s.year == year
    ensures multiset(r) == multiset(Filter(db.series, (s: ExamSeries) => s.year == year))
  {
    var same := Filter(db.series, (s: ExamSeries) => s.year == year);
    StartsNoEarlierOrders();
    SortByElems(same, StartsNoEarlier);
    SortBy(same, StartsNoEarlier)
  }

  /** Every series of the student's year, latest start first, with the
      department's eligibility and the student's own ticket. The student must
      exist with a profile whose year parses as a number. */
  function GetExamSeriesWithEligibility(db: Db, key: UserKey, now: Instant): (r: Result<seq<Eligibility>>)
    ensures r.Err? <==>
      FindUser(db, key).None? || ProfileOf(db, key).None? || ParseInt32(ProfileOf(db, key).value.year).None?
    ensures r.Ok? ==>
      var p := ProfileOf(db, key).value;
      var list := SeriesOfYear(db, ParseInt32(p.year).value);
      && |r.value| == |list|
      && forall i :: 0 <= i < |list| ==> r.value[i] == EligibilityOf(db, key, p.department, list[i], now)
  {
    if FindUser(db, key).None? || ProfileOf(db, key).None? then Err("Student profile not found")
    else
      var p := ProfileOf(db, key).value;
      match ParseInt32(p.year)
      case None => Err("Input string was not in a correct format.")
      case Some(y) => Ok(EligibilityList(db, key, p.department, SeriesOfYear(db, y), now))
  }

  /** The list holds one entry for each series of the student's year and
      nothing else, latest start first; a series the student holds a ticket
      for is always eligible. */
  lemma EligibilityListing(db: Db, key: UserKey, now: Instant)
    requires GetExamSeriesWithEligibility(db, key, now).Ok?
    ensures var r := GetExamSeriesWithEligibility(db, key, now).value;
      var p := ProfileOf(db, key).value;
      var y := ParseInt32(p.year).value;
      && (forall i, j :: 0 <= i < j < |r| ==> r[i].startDate >= r[j].startDate)
      && (forall e :: e in r ==> exists s :: s in db.series && s.year == y && e == EligibilityOf(db, key, p.department, s, now))
      && (forall s :: s in db.series && s.year == y ==> EligibilityOf(db, key, p.department, s, now) in r)
      && |r| == Count(db.series, (s: ExamSeries) => s.year == y)
      && (forall e :: e in r && e.studentHasHallTicket ==> e.isEligible)
  {
    var p := ProfileOf(db, key).value;
    var list := SeriesOfYear(db, ParseInt32(p.year).value);
    var r := GetExamSeriesWithEligibility(db, key, now).value;
    assert |list| == |multiset(list)|;
    assert r == EligibilityList(db, key, p.department, list, now);
    EligibilityListFacts(db, key, p.department, list, now);
    forall e | e in r && e.studentHasHallTicket
      ensures e.isEligible
    {
      var s :| s in list && e == EligibilityOf(db, key, p.department, s, now);
      OwnTicketMakesEligible(db, key, e.id);
    }
  }

  /** The entries follow the series list: same order, same members. */
  lemma EligibilityListFacts(db: Db, key: UserKey, department: string, list: seq<ExamSeries>, now: Instant)
    requires SortedBy(list, StartsNoEarlier)
    ensures var r := EligibilityList(db, key, department, list, now);
      && (forall i, j :: 0 <= i < j < |r| ==> r[i].startDate >= r[j].startDate)
      && (forall e :: e in r ==> exists s :: s in list && e == EligibilityOf(db, key, department, s, now))
      && (forall s :: s in list ==> EligibilityOf(db, key, department, s, now) in r)
  {
    var r := EligibilityList(db, key, department, list, now);
    forall i, j | 0 <= i < j < |r|
      ensures r[i].startDate >= r[j].startDate
    {
      assert StartsNoEarlier(list[i], list[j]);
    }
    forall e | e in r
      ensures exists s :: s in list && e == EligibilityOf(db, key, department, s, now)
    {
      var i :| 0 <= i < |r| && r[i] == e;
      assert list[i] in list;
    }
    forall s | s in list
      ensures EligibilityOf(db, key, department, s, now) in r
    {
      var i :| 0 <= i < |list| && list[i] == s;
      assert r[i] == EligibilityOf(db, key, department, s, now);
    }
  }

  // ---------------------------------------------------------------------------
  // GetHallTicketForDownloadAsync
  // ---------------------------------------------------------------------------

  /** `TimeOnly.ToString("hh:mm tt")`: the hour on a 12-hour clock (12 for
      midnight and noon), the minutes, and AM or PM. */
  function Clock12(t: TimeOfDay): (r: string)
    ensures |r| == 8 && r[2] == ':' && r[5] == ' '
    ensures r[6..] == (if t < 43200 then "AM" else "PM")
  {
    var h := t / 3600;
    var m := (t / 60) % 60;
    var h12 := if h % 12 == 0 then 12 else h % 12;
    TwoDigits(h12) + ":" + TwoDigits(m) + " " + (if h < 12 then "AM" else "PM")
  }

  /** Reads "hh:mm tt" back to minutes since midnight. */
  function ParseClock12(s: string): Option<int> {
    if |s| != 8 || s[2] != ':' || s[5] != ' ' || !AllDigits(s[..2]) || !AllDigits(s[3..5]) then None
    else
      var h12 := DigitsValue(s[..2]);
      var m := DigitsValue(s[3..5]);
      if h12 < 1 || h12 > 12 || m > 59 then None
      else if s[6..] == "AM" then Some((h12 % 12) * 60 + m)
      else if s[6..] == "PM" then Some((h12 % 12 + 12) * 60 + m)
      else None
  }

  /** Minutes since midnight are the whole hours and the minutes past. */
  lemma MinutesSplit(t: TimeOfDay)
    ensures t / 60 == (t / 3600) * 60 + (t / 60) % 60
    ensures 0 <= t / 3600 < 24
  {
    var q, r := t / 60, t % 60;
    var a, b := q / 60, q % 60;
    assert t == 60 * q + r && q == 60 * a + b;
    assert t == 3600 * a + (60 * b + r) && 0 <= 60 * b + r < 3600;
  }

  /** Reading back a well-formed clock text. */
  lemma ParseClockText(h12: int, m: int, pm: bool)
    requires 1 <= h12 <= 12 && 0 <= m < 60
    ensures ParseClock12(TwoDigits(h12) + ":" + TwoDigits(m) + " " + (if pm then "PM" else "AM"))
         == Some((h12 % 12 + (if pm then 12 else 0)) * 60 + m)
  {
    var s := TwoDigits(h12) + ":" + TwoDigits(m) + " " + (if pm then "PM" else "AM");
    assert s[..2] == TwoDigits(h12) && s[3..5] == TwoDigits(m);
    assert s[6..] == (if pm then "PM" else "AM");
  }

  /** The clock text keeps the time to the minute: seconds are dropped and
      nothing else is lost. */
  lemma Clock12RoundTrip(t: TimeOfDay)
    ensures ParseClock12(Clock12(t)) == Some(t / 60)
  {
    var h := t / 3600;
    var m := (t / 60) % 60;
    var h12 := if h % 12 == 0 then 12 else h % 12;
    MinutesSplit(t);
    HourOnClock12(h);
    assert Clock12(t) == TwoDigits(h12) + ":" + TwoDigits(m) + " " + (if h >= 12 then "PM" else "AM");
    ParseClockText(h12, m, h >= 12);
  }

  /** The 12-hour clock hour and AM/PM give back the hour of the day. */
  lemma HourOnClock12(h: int)
    requires 0 <= h < 24
    ensures var h12 := if h % 12 == 0 then 12 else h % 12;
      1 <= h12 <= 12 && h12 % 12 + (if h >= 12 then 12 else 0) == h
  {
  }

  datatype ScheduleLine = ScheduleLine(subjectName: string, subjectCode: string, examDate: Instant, examTime: string)

  datatype HallTicketDownload = HallTicketDownload(
    number: string,
    studentName: string,
    rollNumber: string,
    department: string,
    seriesName: string,
    issuedAt: Instant,
    schedule: seq<ScheduleLine>)

  /** The subject doubles as its code. */
  function LineOf(e: Exam): ScheduleLine {
    ScheduleLine(e.subject, e.subject, Midnight(e.date), Clock12(e.startTime) + " - " + Clock12(e.endTime))
  }

  /** `OrderBy(e => e.ExamDate)`. */
  predicate ByDate(a: Exam, b: Exam) {
    a.date <= b.date
  }

  lemma ByDateOrders()
    ensures TotalPreorder(ByDate)
  {
  }

  function IsReleasedTicketOf(key: UserKey, sid: SeriesId): HallTicket -> bool {
    (t: HallTicket) => t.studentId == key && t.seriesId == sid && t.status == ReleasedStatus
  }

  /** The printed schedule: one line per exam of the series whose branch is
      `department`, by date. */
  function ScheduleFor(db: Db, sid: SeriesId, department: string): (lines: seq<ScheduleLine>)
    ensures |lines| == |ExamService.BranchExams(db.exams, sid, department)|
    ensures forall l :: l in lines ==>
      exists e :: e in db.exams && e.seriesId == sid && e.branch == department && l == LineOf(e)
    ensures forall e :: e in db.exams && e.seriesId == sid && e.branch == department ==> LineOf(e) in lines
    ensures forall i, j :: 0 <= i < j < |lines| ==> lines[i].examDate <= lines[j].examDate
  {
    var exams := ExamService.BranchExams(db.exams, sid, department);
    ByDateOrders();
    SortByElems(exams, ByDate);
    var sorted := SortBy(exams, ByDate);
    MapMembers(sorted, LineOf);
    Map(sorted, LineOf)
  }

  /** The ticket to print, or nothing when the student has no profile, the
      department is not eligible, the student has no Released ticket, or the
      series is gone. The schedule compares exam branches with the profile's
      department text as stored. */
  function GetHallTicketForDownload(db: Db, key: UserKey, sid: SeriesId): (r: Option<HallTicketDownload>)
    ensures r.Some? <==>
      && FindUser(db, key).Some? && ProfileOf(db, key).Some?
      && DepartmentEligible(db, sid, ProfileOf(db, key).value.department)
      && HasReleasedTicket(db, key, sid)
      && FindSeries(db, sid).Some?
    ensures r.Some? ==>
      var p := ProfileOf(db, key).value;
      && (exists t :: t in db.tickets && t.studentId == key && t.seriesId == sid && t.status == ReleasedStatus
                   && t.number == r.value.number && t.issuedAt == r.value.issuedAt)
      && r.value.studentName == FindUser(db, key).value.fullName
      && r.value.rollNumber == p.rollNumber && r.value.department == p.department
      && r.value.seriesName == FindSeries(db, sid).value.name
      && r.value.schedule == ScheduleFor(db, sid, p.department)
  {
    if FindUser(db, key).None? || ProfileOf(db, key).None? then None
    else
      var u := FindUser(db, key).value;
      var p := ProfileOf(db, key).value;
      if !DepartmentEligible(db, sid, p.department) then None
      else
        var ticket := Find(db.tickets, IsReleasedTicketOf(key, sid));
        if ticket.None? || FindSeries(db, sid).None? then None
        else
          var t := ticket.value;
          Some(HallTicketDownload(t.number, u.fullName, p.rollNumber, p.department,
                                  FindSeries(db, sid).value.name, t.issuedAt, ScheduleFor(db, sid, p.department)))
  }

  /** A student without a Released ticket of their own gets nothing, even when
      the department is eligible; with one, the department is always
      eligible, so the ticket is printed whenever the series exists. */
  lemma DownloadNeedsOwnTicket(db: Db, key: UserKey, sid: SeriesId)
    requires FindUser(db, key).Some? && ProfileOf(db, key).Some? && FindSeries(db, sid).Some?
    ensures GetHallTicketForDownload(db, key, sid).Some? <==> HasReleasedTicket(db, key, sid)
  {
    if HasReleasedTicket(db, key, sid) {
      OwnTicketMakesEligible(db, key, sid);
    }
  }

  /** A student whose profile names the department in full ("Computer
      Science"), in a CSE series with one CSE exam and a Released ticket. */
  const FullNameDb: Db := Db(
    [User(7, "st0000001", "Asha", "asha@example.com", "h", "Student", true)],
    [StudentProfile(7, "R1", "Computer Science", "1", "A", 0)],
    [ExamSeries(1, "Winter", 1, 1, ["CSE"], 100, 110, "ad0000001", 0)],
    [Exam(1, "Maths", 101, 32400, 43200, "CSE", 1, false)],
    [HallTicket(7, 1, "HT-1-00007", 0, ReleasedStatus, None)])

  /** The exam listing translates the department to its branch code, the
      download compares exam branches with the department as stored: the same
      student sees the CSE exam in the listing and prints a ticket with an
      empty schedule. */
  lemma DownloadScheduleUsesStoredDepartment()
    ensures var listed := ExamService.GetStudentExams(FullNameDb, 1, "Computer Science");
      listed.Ok? && |listed.value| == 1
    ensures var ticket := GetHallTicketForDownload(FullNameDb, 7, 1);
      ticket.Some? && ticket.value.department == "Computer Science" && ticket.value.schedule == []
  {
    var db := FullNameDb;
    assert FindSeries(db, 1) == Some(db.series[0]);
    assert ProfileOf(db, 7) == Some(db.profiles[0]);
    assert FindUser(db, 7) == Some(db.users[0]);
    assert BranchCatalog.GetBranchCode("Computer Science") == "CSE";
    assert ExamService.BranchExams(db.exams, 1, "CSE") == db.exams;
    assert ExamService.BranchExams(db.exams, 1, "Computer Science") == [];
    assert DepartmentEligible(db, 1, "Computer Science") by {
      assert db.tickets[0] in db.tickets;
    }
    assert HasReleasedTicket(db, 7, 1) by {
      assert db.tickets[0] in db.tickets;
    }
  }

  // ---------------------------------------------------------------------------
  // GetStudentsForHallTicketAsync
  // ---------------------------------------------------------------------------

  datatype StudentRow = StudentRow(
    id: UserKey,
    userId: string,
    fullName: string,
    email: string,
    rollNumber: string,
    department: string,
    year: string,
    section: string,
    hallTicketReleased: bool)

  /** A list filter that is absent or empty admits every value. */
  predicate ListAdmits(f: Option<seq<string>>, v: string) {
    f.None? || |f.value| == 0 || v in f.value
  }

  /** An active student with a profile that passes the three filters; the year
      filter applies when it is present and not empty. */
  predicate Listed(db: Db, u: User, branches: Option<seq<string>>, sections: Option<seq<string>>, year: Option<string>) {
    && u.role == StudentRole && u.isActive && ProfileOf(db, u.id).Some?
    && ListAdmits(branches, ProfileOf(db, u.id).value.department)
    && ListAdmits(sections, ProfileOf(db, u.id).value.section)
    && (year.None? || year.value == "" || ProfileOf(db, u.id).value.year == year.value)
  }

  /** The ticket column is filled only for a present, non-empty series id. */
  predicate ReleasedFor(db: Db, seriesId: Option<SeriesId>, key: UserKey) {
    seriesId.Some? && seriesId.value != EmptyGuid && HasReleasedTicket(db, key, seriesId.value)
  }

  function RowOf(db: Db, u: User, seriesId: Option<SeriesId>): StudentRow
    requires ProfileOf(db, u.id).Some?
  {
    var p := ProfileOf(db, u.id).value;
    StudentRow(u.id, u.userId, u.fullName, u.email, p.rollNumber, p.department, p.year, p.section,
               ReleasedFor(db, seriesId, u.id))
  }

  function ListedRows(db: Db, users: seq<User>, seriesId: Option<SeriesId>, branches: Option<seq<string>>,
                      sections: Option<seq<string>>, year: Option<string>): (r: seq<StudentRow>)
    ensures forall row :: row in r <==>
      exists u :: u in users && Listed(db, u, branches, sections, year) && row == RowOf(db, u, seriesId)
    ensures |r| == |Filter(users, (u: User) => Listed(db, u, branches, sections, year))|
  {
    if |users| == 0 then []
    else
      assert forall u :: u in users <==> u == users[0] || u in users[1..] by {
        assert users == [users[0]] + users[1..];
      }
      var rest := ListedRows(db, users[1..], seriesId, branches, sections, year);
      if Listed(db, users[0], branches, sections, year) then [RowOf(db, users[0], seriesId)] + rest else rest
  }

  /** Strictly before in ordinal text order. */
  predicate TextBefore(a: string, b: string) {
    LexLe(a, b) && a != b
  }

  /** `OrderBy(Department).ThenBy(Section).ThenBy(RollNumber)`. */
  predicate RowOrder(a: StudentRow, b: StudentRow) {
    || TextBefore(a.department, b.department)
    || (a.department == b.department && TextBefore(a.section, b.section))
    || (a.department == b.department && a.section == b.section && LexLe(a.rollNumber, b.rollNumber))
  }

  lemma TextBeforeTransitive(a: string, b: string, c: string)
    requires (TextBefore(a, b) || a == b) && (TextBefore(b, c) || b == c)
    requires TextBefore(a, b) || TextBefore(b, c)
    ensures TextBefore(a, c)
  {
    if TextBefore(a, b) && TextBefore(b, c) {
      LexLeTransitive(a, b, c);
      if a == c {
        LexLeAntisymmetric(a, b);
      }
    }
  }

  lemma RowOrderOrders()
    ensures TotalPreorder(RowOrder)
  {
    forall a: StudentRow, b: StudentRow
      ensures RowOrder(a, b) || RowOrder(b, a)
    {
      LexLeTotal(a.department, b.department);
      LexLeTotal(a.section, b.section);
      LexLeTotal(a.rollNumber, b.rollNumber);
    }
    forall a: StudentRow, b: StudentRow, c: StudentRow | RowOrder(a, b) && RowOrder(b, c)
      ensures RowOrder(a, c)
    {
      if a.department == b.department == c.department {
        if a.section == b.section == c.section {
          LexLeTransitive(a.rollNumber, b.rollNumber, c.rollNumber);
        } else {
          TextBeforeTransitive(a.section, b.section, c.section);
        }
      } else {
        TextBeforeTransitive(a.department, b.department, c.department);
      }
    }
  }

  /** Every listed student once per user row, with the ticket column, ordered
      by department, section and roll number. */
  function GetStudentsForHallTicket(db: Db, seriesId: Option<SeriesId>, branches: Option<seq<string>>,
                                    sections: Option<seq<string>>, year: Option<string>): (r: seq<StudentRow>)
    ensures SortedBy(r, RowOrder)
    ensures multiset(r) == multiset(ListedRows(db, db.users, seriesId, branches, sections, year))
    ensures |r| == |Filter(db.users, (u: User) => Listed(db, u, branches, sections, year))|
    ensures forall row :: row in r <==>
      exists u :: u in db.users && Listed(db, u, branches, sections, year) && row == RowOf(db, u, seriesId)
    ensures forall row :: row in r ==>
      (row.hallTicketReleased <==> seriesId.Some? && seriesId.value != EmptyGuid && HasReleasedTicket(db, row.id, seriesId.value))
  {
    var rows := ListedRows(db, db.users, seriesId, branches, sections, year);
    RowOrderOrders();
    SortByElems(rows, RowOrder);
    SortBy(rows, RowOrder)
  }
}
