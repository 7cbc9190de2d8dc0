# ExamFlow core in Dafny

ExamFlow is a college examination system. Administrators create exam series
(a name, an exam type, a study year, a list of branches and a date range),
schedule each branch's exams day by day, and release hall tickets to
students. Students complete a profile (roll number, department, year,
section), browse the exams of their branch and download their hall ticket.

This project models the logic behind those operations as pure functions
over an in-memory store and proves what they promise:

- `Entities`: the five tables (users, student profiles, exam series, exams,
  hall tickets) as sequences in one `Db`, with the unique keys the database
  enforces stated as the invariant `Valid`. Dates are day numbers, times of
  day are seconds since midnight, series ids are integers (0 stands for the
  empty Guid).
- `BranchCatalog`: the branch and subject tables and their three lookups.
- `Requests`: the data-annotation rules of the request objects, as
  predicates.
- `Identity` and `UserRepository`: user-id generation, role resolution and
  the two user queries.
- `AuthService` and `StudentProfileService`: sign-up, sign-in and the
  student profile.
- `ExamService`: series creation, the branch status list, the day-by-day
  calendar, schedule replacement, the series summary and the two student
  views.
- `HallTicketService`: ticket numbers, release, eligibility, the
  downloadable ticket, series status and the admin student list.
- `SchedulerForm`, `SeriesForm`, `ManageExams`, `StudentExams` and
  `HallTicketView`: the pure helpers of the five web pages that build or
  classify the same data.
- `Outcomes`, `Seqs` and `Text` are shared building blocks: results and
  options, sequence filters and sorting, and the .NET/JavaScript string and
  number primitives the code relies on (trimming, lower-casing, `int.Parse`,
  `ToString("D6")`, ordinal comparison, `parseInt`).

Every operation that can fail returns `Result<T>`, carrying the message of
the exception the code throws. The clock (`DateTime.UtcNow`, `new Date()`),
password hashing and verification, token issuing and fresh Guids are
parameters.

A few behaviours of the code are kept as written and stated as lemmas:

- The hall-ticket download matches exams against the profile's department
  text as stored. The student exam views first translate it through
  `GetBranchCode`. So a student whose department reads "Computer Science"
  sees the CSE exams but downloads a ticket with an empty schedule
  (`HallTicketService.DownloadScheduleUsesStoredDepartment`).
- `GetExamSeriesStatus` receives the midnights that begin the first and the
  last day, so a series is already "Completed" during its last day
  (`HallTicketService.LastDayReportedCompleted`).
- `GetLastUserIdByRole` orders user ids as text. Once a counter passes
  999999, "st999999" stays the greatest id, and the generator issues
  "st1000000" again (`UserRepository.SevenDigitIdRepeats`).
- The ticket number embeds the series' study year (1 to 4), not a calendar
  year (`HallTicketService.TicketNumber`).
- The series form's "Please select at least one branch" message is never
  shown, because `required` already rejects an empty list
  (`SeriesForm.EmptyBranchesReportedAsIncomplete`).
- The form lets through a name made only of spaces, which the server's
  `[Required]` refuses (`SeriesForm.BlankNameSlipsThrough`).

## Model

| member | source | states |
|---|---|---|
| BranchCatalog.GetSubjects | ExamFlowWebApi/Models/BranchSubjects.cs:33-36 | a known branch gets a non-empty subject list; any other string gets the empty list |
| BranchCatalog.ValidBranches | ExamFlowWebApi/Models/BranchSubjects.cs:16-41 | exactly the seven codes CSE, ECE, IT, EEE, MECH, CIVIL and CHEM are valid, case-sensitively ("cse" and "Computer Science" are not) |
| BranchCatalog.BranchCodeTable | ExamFlowWebApi/Models/BranchSubjects.cs:22-48 | each of the seven department names maps to its code; any other string comes back unchanged |
| BranchCatalog.BranchCodeValidAndIdempotent | ExamFlowWebApi/Models/BranchSubjects.cs:16-48 | a mapped department yields a valid branch, a valid branch maps to itself, and translating twice equals translating once |
| BranchCatalog.SubjectsCoverBranches | ExamFlowWebApi/Models/BranchSubjects.cs:5-19 | the subject table's keys are exactly the branch list, so a branch is valid iff it has subjects |
| Requests.CreateExamSeriesRequestRules | ExamFlowWebApi/DTO/ExamSeries/ExamSeriesDTOs.cs:6-28 | a valid request has a non-empty name of at most 100 UTF-16 units (so more than 100 units is refused), a year from 1 to 4 and at least one branch; a blank name, year 0 or 5, or no branch is refused; duplicate branches are accepted |
| Requests.ExamScheduleItemRules | ExamFlowWebApi/DTO/ExamSeries/ExamSeriesDTOs.cs:55-64 | an item with only a date is valid (no subject, not a holiday); a subject is accepted iff it has at most 100 UTF-16 units, so always at 50 characters or fewer and never above 100 characters |
| Requests.StudentProfileRequestRules | ExamFlowWebApi/DTO/StudentProfile/StudentProfileDTOs.cs:5-22 | a valid request has all four fields non-blank and within 20, 50, 10 and 5 UTF-16 units (hence characters); an empty section or a 21-character roll number is refused |
| Text.Utf16LengthBmp | ExamFlowWebApi/DTO/ExamSeries/ExamSeriesDTOs.cs:9 | the length `MaxLength` checks counts UTF-16 units: one per character exactly when no character lies above U+FFFF, two for such a character |
| Identity.PrefixFromRole | ExamFlowWebApi/Helpers/UserIdGenerator.cs:24-34 | the role is matched case-insensitively against the four roles and yields that role's prefix; any other role fails with "Invalid role specified" |
| Identity.GenerateUserId | ExamFlowWebApi/Helpers/UserIdGenerator.cs:5-22 | for a known role the id starts with the role's prefix and has at least six characters after it (the exact id is given by `Identity.NextUserId` and `Identity.GeneratedIdParts`); an unknown role fails |
| Identity.FirstUserId | ExamFlowWebApi/Helpers/UserIdGenerator.cs:8-21 | with no last id, or one whose suffix does not parse, the first id prefix + "000001" is issued |
| Identity.NextUserId | ExamFlowWebApi/Helpers/UserIdGenerator.cs:10-21 | after prefix + n (any width) comes prefix + (n + 1), padded to six digits |
| Identity.IdSuccessor | ExamFlowWebApi/Helpers/UserIdGenerator.cs:10-21 | reading back the id issued after an id carrying n gives n + 1, below int.MaxValue |
| Identity.UserIdWrapsAtIntMax | ExamFlowWebApi/Helpers/UserIdGenerator.cs:14-21 | at int.MaxValue the unchecked increment wraps to int.MinValue, and the id then carries a minus sign |
| Identity.NthUserIdNumber | ExamFlowWebApi/Helpers/UserIdGenerator.cs:10-21 | feeding each issued id back in numbers the ids 1, 2, 3, ..., so repeated generation strictly increases |
| Identity.RoleFromUserId | ExamFlowWebApi/Helpers/RoleResolver.cs:5-13 | an id resolves iff it has at least two characters whose lower-case form is a role prefix; the result is that role's capitalised name; any other id fails with "Invalid User ID format" |
| Identity.RoleDependsOnFirstTwo | ExamFlowWebApi/Helpers/RoleResolver.cs:7-10 | two ids with the same lower-cased first two characters resolve alike |
| Identity.ResolvedRoleHasPrefix | ExamFlowWebApi/Helpers/RoleResolver.cs:7-10 | the two helpers are inverse: the prefix of a resolved role is the id's own lower-cased prefix |
| Identity.GeneratedIdResolves | ExamFlowWebApi/Helpers/RoleResolver.cs:7-10 | every generated id resolves to the capitalised form of the role it was generated for |
| UserRepository.GetUserByUserId | ExamFlowWebApi/Repositories/Implementations/UserRepository.cs:15-18 | a found user is in the table and has that textual id; nothing is found iff no user has it |
| UserRepository.GetLastUserIdByRole | ExamFlowWebApi/Repositories/Implementations/UserRepository.cs:25-46 | nothing for an unknown role; otherwise the greatest id, in ordinal order, among users whose role equals the argument exactly and whose id starts with the prefix, and nothing when there is none |
| UserRepository.LowerCaseRoleFindsNothing | ExamFlowWebApi/Repositories/Implementations/UserRepository.cs:36-45 | roles are stored capitalised, so the argument "student" finds no id |
| UserRepository.SevenDigitIdRepeats | ExamFlowWebApi/Repositories/Implementations/UserRepository.cs:40-45 | with "st999999" and "st1000000" stored, the query returns "st999999" and the generator then issues "st1000000" again |
| AuthService.SignUp | ExamFlowWebApi/Services/Implementations/AuthService.cs:46-70 | errors in order: password mismatch, id taken, unknown prefix; success iff none applies; then exactly one active user is appended with the request's fields, the password's hash, the resolved role and an unused key |
| AuthService.SignIn | ExamFlowWebApi/Services/Implementations/AuthService.cs:24-44 | an unknown id and a wrong password give the same error; success iff the user exists and the password verifies, returning the token and the stored role |
| AuthService.SignUpKeepsKeysUnique | ExamFlowWebApi/Services/Implementations/AuthService.cs:53-69 | sign-up keeps both the identity keys and the textual ids unique |
| AuthService.SignUpThenSignIn | ExamFlowWebApi/Services/Implementations/AuthService.cs:24-70 | a user who has just signed up signs in with the same password and receives the role the id's prefix names |
| AuthService.SignUpRoleMatchesPrefix | ExamFlowWebApi/Services/Implementations/AuthService.cs:58-66 | the stored role is the one the id's prefix names, and that role's prefix is the id's own |
| StudentProfileService.CheckProfileStatus | ExamFlowWebApi/Services/Implementations/StudentProfileService.cs:18-37 | hasProfile holds iff a profile with that student key exists, and the profile is returned exactly then |
| StudentProfileService.GetProfile | ExamFlowWebApi/Services/Implementations/StudentProfileService.cs:79-85 | nothing iff no profile has that student key; otherwise a stored profile of that student |
| StudentProfileService.StatusMatchesLookup | ExamFlowWebApi/Services/Implementations/StudentProfileService.cs:18-85 | the status check and the lookup agree on every key |
| StudentProfileService.CreateProfile | ExamFlowWebApi/Services/Implementations/StudentProfileService.cs:39-77 | an existing profile is reported before the user lookup; then a missing user, then a role other than exactly "Student"; otherwise one profile with the four trimmed fields is appended |
| StudentProfileService.CreateThenGet | ExamFlowWebApi/Services/Implementations/StudentProfileService.cs:63-85 | after a successful creation the lookup returns exactly the stored trimmed fields |
| StudentProfileService.CreateTwiceFails | ExamFlowWebApi/Services/Implementations/StudentProfileService.cs:42-48 | a second creation for the same student fails with "already exists" |
| StudentProfileService.CreateAllKeepsValid | ExamFlowWebApi/Services/Implementations/StudentProfileService.cs:42-74 | no sequence of creations gives a student two profiles or breaks any other unique key |
| StudentProfileService.StoredFieldsWithinLimits | ExamFlowWebApi/DTO/StudentProfile/StudentProfileDTOs.cs:7-21 | the length limits are checked before trimming, and trimming removes units without adding any, so the stored fields are non-empty and within the same UTF-16 limits |
| ExamService.CreateExamSeries | ExamFlowWebApi/Services/Implementations/ExamService.cs:20-56 | fails iff start is not before end or some branch is invalid; the date error comes first, and otherwise the message names the first invalid branch in request order (every earlier one is valid); otherwise appends a series holding the request's fields verbatim |
| ExamService.CreateExamSeriesKeepsKeys | ExamFlowWebApi/Services/Implementations/ExamService.cs:37-51 | with a fresh Guid, creation keeps every unique key and the new series is found under its id |
| ExamService.GetUnscheduledBranches | ExamFlowWebApi/Services/Implementations/ExamService.cs:58-83 | one status per declared branch, in declaration order, whose count is the number of that branch's exams and which is scheduled iff it has one |
| ExamService.GetAvailableDates | ExamFlowWebApi/Services/Implementations/ExamService.cs:85-120 | fails for a missing series, an undeclared branch or a series ending on the last representable day; otherwise one entry per day from start to end, consecutive, each with its day-of-week name; a day is scheduled iff the branch has an exam on it, and then carries that exam's subject, else none |
| ExamService.GetBranchSubjects | ExamFlowWebApi/Services/Implementations/ExamService.cs:122-132 | fails iff the branch is invalid; otherwise returns the branch's non-empty subject list |
| ExamService.StagingFails | ExamFlowWebApi/Services/Implementations/ExamService.cs:162-186 | checking the items fails iff some item lies outside the series' dates or is a non-holiday without a subject |
| ExamService.StagedExams | ExamFlowWebApi/Services/Implementations/ExamService.cs:162-197 | staging yields one exam per item carrying a subject, in request order; a holiday without a subject is skipped |
| ExamService.ScheduleBranchExams | ExamFlowWebApi/Services/Implementations/ExamService.cs:134-204 | fails iff the series is missing, the branch undeclared, the times out of order, some item rejected, or two kept items share a day (the unique index); otherwise the branch's exams are replaced by the created ones, which lie in the series' dates, carry the global times, the branch, the series year and a non-blank subject, on distinct days |
| ExamService.ScheduleReplacesBranch | ExamFlowWebApi/Services/Implementations/ExamService.cs:157-199 | afterwards the branch holds exactly the created exams, every other series and branch keeps its exams, the other tables are untouched, and the unique keys still hold |
| ExamService.ScheduleCreatesKeptItems | ExamFlowWebApi/Services/Implementations/ExamService.cs:162-199 | the created exams correspond one to one, in request order, to the items carrying a subject: each takes its item's day, subject and holiday flag, the series' id and year, the branch and the request's time window |
| ExamService.EmptyScheduleClearsBranch | ExamFlowWebApi/Services/Implementations/ExamService.cs:134-199 | an empty request for a declared branch with ordered times succeeds and leaves the branch with no exam |
| ExamService.ScheduleThenStatus | ExamFlowWebApi/Services/Implementations/ExamService.cs:157-199 | after scheduling, the status list (lines 58-83) reports the new count for the branch and the old status for every other branch |
| ExamService.ScheduleThenCalendar | ExamFlowWebApi/Services/Implementations/ExamService.cs:162-199 | after scheduling, the branch calendar (lines 101-117) marks exactly the days of the request's items that carry a subject |
| ExamService.GetExamSeriesSummary | ExamFlowWebApi/Services/Implementations/ExamService.cs:206-229 | fails for a missing series or a branch declared twice (the dictionary throws); otherwise the series' exams as a permutation sorted by date then branch, and the exam count of every declared branch |
| ExamService.UpcomingCompletedSplit | ExamFlowWebApi/Services/Implementations/ExamService.cs:301-303 | each exam is counted as either upcoming or completed, so the two counts add up to the total |
| ExamService.SeriesViewsMatchList | ExamFlowWebApi/Services/Implementations/ExamService.cs:292-319 | every view comes from a listed series that has a sitting and copies its id, name, type, year, dates and creation time; every such series has a view |
| ExamService.SeriesViewsSorted | ExamFlowWebApi/Services/Implementations/ExamService.cs:287-317 | views keep the newest-first order of the series list |
| ExamService.GetStudentExamSeries | ExamFlowWebApi/Services/Implementations/ExamService.cs:279-323 | each view is for the translated branch code; its total is the number of that branch's non-holiday exams in the series (never zero), split into upcoming (from today on) and completed |
| ExamService.StudentExamSeriesSelection | ExamFlowWebApi/Services/Implementations/ExamService.cs:282-317 | the views are exactly the series listing the translated branch code that have a non-holiday exam for it, one view per such series (the view count equals the number of such series in the table), each copying that series' fields, newest first |
| ExamService.GetStudentExams | ExamFlowWebApi/Services/Implementations/ExamService.cs:325-351 | fails iff the series is missing or does not list the translated branch code; otherwise that branch's exams of the series as a permutation sorted by date then start time |
| HallTicketService.TicketNumberRoundTrip | ExamFlowWebApi/Services/Implementations/HallTicketService.cs:313-317 | a ticket number reads back to its year and student key |
| HallTicketService.TicketNumbersDistinct | ExamFlowWebApi/Services/Implementations/HallTicketService.cs:313-317 | different (year, student) pairs never share a ticket number |
| HallTicketService.TicketNumberShape | ExamFlowWebApi/Services/Implementations/HallTicketService.cs:313-317 | for a stored series year (1 to 4) and a key below 100000 the number has 10 characters, such as HT-2-00042; the four-digit year of the HT-YYYY-XXXXX comment never occurs |
| HallTicketService.SelectStudents | ExamFlowWebApi/Services/Implementations/HallTicketService.cs:34-55 | the filter selects exactly the active "Student" users with a profile of the series' year (as text), within the department and section lists, where an empty list admits all |
| HallTicketService.ReleaseHallTickets | ExamFlowWebApi/Services/Implementations/HallTicketService.cs:18-113 | fails iff the series is missing or no student is selected; otherwise only the ticket table changes, existing tickets are kept; the counts are the selected, already-held and new tickets, the message is "Released n new hall tickets. m were already released." built from those counts, and the reported ids are the new ticket holders' user ids, one per issued ticket, in issue order |
| HallTicketService.ReleaseAddsOnlyNewTickets | ExamFlowWebApi/Services/Implementations/HallTicketService.cs:73-103 | each added ticket is a Released ticket of the series, numbered from the series year and the student, for an existing user without a ticket for the series |
| HallTicketService.ReleaseCoversSelection | ExamFlowWebApi/Services/Implementations/HallTicketService.cs:61-103 | every selected user without a ticket for the series holds one afterwards |
| HallTicketService.ReleaseCounts | ExamFlowWebApi/Services/Implementations/HallTicketService.cs:66-108 | newly released plus already released equals the number of distinct selected keys; a ticket of any status counts as already released |
| HallTicketService.ReleaseKeepsValid | ExamFlowWebApi/Services/Implementations/HallTicketService.cs:82-103 | a release keeps every unique key, the (student, series) ticket index included |
| HallTicketService.ReleaseTwice | ExamFlowWebApi/Services/Implementations/HallTicketService.cs:66-103 | repeating a release inserts nothing, and reports nothing new once every selected key is a user |
| HallTicketService.ExplicitListIgnoresRole | ExamFlowWebApi/Services/Implementations/HallTicketService.cs:56-79 | an explicit list is taken as given: a user of any role without a ticket for the series gets one |
| HallTicketService.SeriesStatus | ExamFlowWebApi/Services/Implementations/HallTicketService.cs:319-329 | "Upcoming" iff now is before the start, "Ongoing" iff now is within start and end inclusive, "Completed" iff both lie before now |
| HallTicketService.LastDayReportedCompleted | ExamFlowWebApi/Services/Implementations/HallTicketService.cs:319-329 | during the last day of a series its status (as listed at line 154) is already "Completed" |
| HallTicketService.ExamTypeName | ExamFlowWebApi/Services/Implementations/HallTicketService.cs:331-341 | types 1 to 4 have a name, every other value is "Unknown" |
| HallTicketService.OwnTicketMakesEligible | ExamFlowWebApi/Services/Implementations/HallTicketService.cs:141-152 | a student's own Released ticket makes the student's department eligible |
| HallTicketService.GetExamSeriesWithEligibility | ExamFlowWebApi/Services/Implementations/HallTicketService.cs:115-172 | fails iff the student has no profile or its year does not parse; otherwise one entry per series of that year, with the two existence checks and the status |
| HallTicketService.ReleaseReportsNewUsers | ExamFlowWebApi/Services/Implementations/HallTicketService.cs:110 | a user id is reported iff it belongs to a user who had no ticket for the series among the selected keys and now gets one |
| HallTicketService.EligibilityListing | ExamFlowWebApi/Services/Implementations/HallTicketService.cs:128-152 | the list holds exactly the series of the student's year, one entry per series (the entry count equals the number of that year's series), latest start first, and a series the student holds a ticket for is always eligible |
| HallTicketService.Clock12RoundTrip | ExamFlowWebApi/Services/Implementations/HallTicketService.cs:223 | the "hh:mm tt" text keeps a time to the minute: reading it back gives the minutes since midnight |
| HallTicketService.ScheduleFor | ExamFlowWebApi/Services/Implementations/HallTicketService.cs:213-225 | the printed lines are exactly the series' exams whose branch equals the given department text, by ascending date |
| HallTicketService.GetHallTicketForDownload | ExamFlowWebApi/Services/Implementations/HallTicketService.cs:174-237 | a ticket is returned iff the student and profile exist, the department is eligible, the student holds a Released ticket and the series exists; it carries that ticket's number, the profile's fields and the schedule for the department as stored |
| HallTicketService.DownloadNeedsOwnTicket | ExamFlowWebApi/Services/Implementations/HallTicketService.cs:188-211 | for an existing student and series, the ticket is printed iff the student holds a Released ticket of their own |
| HallTicketService.DownloadScheduleUsesStoredDepartment | ExamFlowWebApi/Services/Implementations/HallTicketService.cs:213-216 | a "Computer Science" student of a CSE series sees its CSE exam in the exam listing but downloads a ticket whose schedule is empty |
| HallTicketService.RowOrderOrders | ExamFlowWebApi/Services/Implementations/HallTicketService.cs:307-309 | ordering by department, section and roll number is a total preorder |
| HallTicketService.GetStudentsForHallTicket | ExamFlowWebApi/Services/Implementations/HallTicketService.cs:239-311 | exactly the active students with a profile passing each filter that is given and non-empty, sorted by department, section and roll number, one row per listed user (a permutation of the listed rows); the ticket column is set only for a given series id |
| SchedulerForm.CreateDateFormControls | Frontend/src/app/admin/branch-exam-scheduler/branch-exam-scheduler.component.ts:124-139 | one row per listed day, in order; a row is a holiday iff the stored subject is "Holiday", and no row carries both a subject and the holiday mark |
| SchedulerForm.EditsKeepRowsConsistent | Frontend/src/app/admin/branch-exam-scheduler/branch-exam-scheduler.component.ts:141-157 | ticking the holiday box clears the row's subject, choosing a subject clears the box, only the edited row changes, and every row stays consistent |
| SchedulerForm.BuildItems | Frontend/src/app/admin/branch-exam-scheduler/branch-exam-scheduler.component.ts:174-183 | the items are the rows with a subject or the holiday mark, in row order, holidays sent as "Holiday"; every item names a subject |
| SchedulerForm.OnSubmit | Frontend/src/app/admin/branch-exam-scheduler/branch-exam-scheduler.component.ts:159-215 | an empty time, an end not after the start as text, or no sent row stops the submission; otherwise the payload carries the sent items and both times with ":00" appended |
| SchedulerForm.InitialTimesInOrder | Frontend/src/app/admin/branch-exam-scheduler/branch-exam-scheduler.component.ts:40-46 | the initial times "09:00" and "12:00" pass the time-order check |
| SchedulerForm.LoadThenSubmitRoundTrip | Frontend/src/app/admin/branch-exam-scheduler/branch-exam-scheduler.component.ts:124-183 | loading a stored schedule and submitting it untouched re-sends exactly the scheduled days, in order, with their subjects and a holiday flag iff the subject is "Holiday" |
| SeriesForm.IndexOf | Frontend/src/app/admin/exam-series-form/exam-series-form.component.ts:67 | the position of the first occurrence, or -1 iff the branch is absent |
| SeriesForm.ToggleFlips | Frontend/src/app/admin/exam-series-form/exam-series-form.component.ts:65-81 | in a list without duplicates a toggle flips whether its branch is selected |
| SeriesForm.ToggleKeepsOthers | Frontend/src/app/admin/exam-series-form/exam-series-form.component.ts:65-76 | a toggle leaves every other branch's selection unchanged |
| SeriesForm.ToggleKeepsNoDups | Frontend/src/app/admin/exam-series-form/exam-series-form.component.ts:67-73 | toggling never creates a duplicate in a list without one |
| SeriesForm.ToggleTwice | Frontend/src/app/admin/exam-series-form/exam-series-form.component.ts:67-73 | toggling an absent branch twice restores the list; toggling a present one twice restores the selection but moves the branch to the end |
| SeriesForm.OnSubmit | Frontend/src/app/admin/exam-series-form/exam-series-form.component.ts:83-117 | an invalid form, then a start date not before the end date, stop the submission; otherwise the form value is sent as the creation request |
| SeriesForm.EmptyBranchesReportedAsIncomplete | Frontend/src/app/admin/exam-series-form/exam-series-form.component.ts:40-100 | an empty branch list is reported as an incomplete form, never with the branch message |
| SeriesForm.SubmittedFormMeetsServerRules | Frontend/src/app/admin/exam-series-form/exam-series-form.component.ts:83-117 | a sent request has start before end, and meets the server's annotations iff its name is not blank |
| SeriesForm.BlankNameSlipsThrough | Frontend/src/app/admin/exam-series-form/exam-series-form.component.ts:40-49 | a name of one space passes the form and fails the server's rules |
| ManageExams.CategorizeExams | Frontend/src/app/admin/manage-exams/manage-exams.component.ts:99-117 | the three lists are order-preserving filters: upcoming (start after now), ongoing (start to end inclusive) and completed (end before now) |
| ManageExams.StatusNamesTab | Frontend/src/app/admin/manage-exams/manage-exams.component.ts:99-131 | for a series with start not after end, the status names exactly the list the series was put in |
| ManageExams.TabsPartition | Frontend/src/app/admin/manage-exams/manage-exams.component.ts:99-117 | over well-formed series the three lists partition the list: their sizes add up to its size |
| ManageExams.ReversedSeriesInTwoTabs | Frontend/src/app/admin/manage-exams/manage-exams.component.ts:99-117 | a series whose start is after its end can be both upcoming and completed |
| ManageExams.GetExamStatus | Frontend/src/app/admin/manage-exams/manage-exams.component.ts:119-131 | upcoming iff the start is after now; completed iff start and end both lie before now |
| ManageExams.StatusAgreesWithService | Frontend/src/app/admin/manage-exams/manage-exams.component.ts:119-131 | at the same moment the page and the hall-ticket service report the same phase |
| ManageExams.FilteredTabShowsPhase | Frontend/src/app/admin/manage-exams/manage-exams.component.ts:141-152 | "all" shows the list; a phase tab shows exactly the series whose status is that phase |
| ManageExams.CountersWithinList | Frontend/src/app/admin/manage-exams/manage-exams.component.ts:87-97 | the three counters count the disjoint types 1, 2 and 3 or 4, so their sum never exceeds the number of series |
| StudentExams.BranchCodeOf | Frontend/src/app/student/exams/exams.component.ts:26-51 | the page's lookup with identity fallback agrees with the server's translation for every department |
| StudentExams.GetExamTypeLabel | Frontend/src/app/student/exams/exams.component.ts:156-164 | the label agrees with the server's type name for every type |
| StudentExams.DisplayHour | Frontend/src/app/student/exams/exams.component.ts:180 | for hours 0 to 23 the displayed hour lies in 1 to 12 and is the hour modulo 12, with 12 for 0 |
| StudentExams.DisplayHourRoundTrip | Frontend/src/app/student/exams/exams.component.ts:178-181 | the displayed hour and AM/PM together give back the hour |
| StudentExams.FormatTime | Frontend/src/app/student/exams/exams.component.ts:175-182 | the text is the displayed hour, the minutes field copied verbatim, and AM before noon and PM from noon |
| StudentExams.FormatServerTime | Frontend/src/app/student/exams/exams.component.ts:175-182 | a server time "HH:mm:ss" is shown as its 12-hour hour, its two minute digits and AM or PM |
| StudentExams.GetExamStatus | Frontend/src/app/student/exams/exams.component.ts:184-203 | exactly one of Upcoming (before the start), Ongoing (start to end inclusive) or Completed |
| StudentExams.ExamStatusTimeline | Frontend/src/app/student/exams/exams.component.ts:184-203 | for a server exam with start before end, the status moves from Upcoming to Ongoing at the start minute and to Completed after the end minute |
| HallTicketView.FilterCompletedExams | Frontend/src/app/student/hall-ticket/hall-ticket.component.ts:102-108 | keeps exactly the series whose end is before now |
| HallTicketView.CompletedMatchesAdminTab | Frontend/src/app/student/hall-ticket/hall-ticket.component.ts:102-108 | the kept list is, in order, the admin page's completed list |
| HallTicketView.CompletedSeriesShowCompleted | Frontend/src/app/student/hall-ticket/hall-ticket.component.ts:102-179 | every kept series with start not after end shows the status "completed" |
| HallTicketView.CountsCoverCompleted | Frontend/src/app/student/hall-ticket/hall-ticket.component.ts:194-200 | released and pending counts add up to the number of completed series |
| HallTicketView.NothingStoredAllPending | Frontend/src/app/student/hall-ticket/hall-ticket.component.ts:194-200 | with an empty status map (lines 117-119) every completed series is pending |
| HallTicketView.BranchCodeOf | Frontend/src/app/student/hall-ticket/hall-ticket.component.ts:25-49 | this page's lookup agrees with the server's translation and with the exams page's lookup |

## Left out

- HTTP controllers, routing, claims and the mapping of exceptions to status codes. The release endpoint in HallTicketController.cs persists nothing and is not the modelled release.
- Entity Framework: queries are sequence filters, tables are sequences, and the unique indexes are the invariant `Valid`. SQL collation is not modelled: text order is ordinal (`LexLe`).
- Password hashing, verification and JWT tokens are function parameters. The salt drawn per hash is left to the `hash` parameter.
- The clock: `DateTime.UtcNow`, `DateOnly.FromDateTime` and `new Date()` are parameters (`now`, `today`).
- The browser's local time zone: `setHours` on a date is modelled as a `localDay` parameter plus hours and minutes.
- Concurrency between simultaneous requests. Each request is one sequential step.
- Response objects' database ids, `CreatedAt` stamps of responses, and the `MapToResponse` copies. The model returns the stored entities.
- `GetAllExamSeriesAsync`, `GetExamSeriesByIdAsync` and `GetUserByEmail`: plain lookups that no modelled operation uses.
- ExamService.GetAvailableDates: the error text for a series ending on the last representable day approximates .NET's message.
- ExamService.ScheduleBranchExams: the exception texts drop the interpolated date. The unique-index failure is modelled as two kept items on the same day, the only clash a commit can meet.
- ExamService.GetExamSeriesSummary: culture-sensitive string ordering of branches is modelled as ordinal order.
- HallTicketService.GetExamSeriesWithEligibility: `int.Parse` throws different exception types for bad text and overflow; both are one error here.
- Identity.RoleFromUserId: the resolver's exception is a `Result` error; `ToLower` is modelled for ASCII letters only, and `StartsWith` as ordinal.
- StudentExams.ParseInt: JavaScript `parseInt` is modelled for decimal text only; the "0x" hex prefix is not modelled.
- StudentExams.FormatTime: `parseInt` yields a double, so an hour field above 2^53 loses precision and one of 22 or more digits prints in exponent form ("1e+21"); the model prints the exact integer.
- Text.ParseInt32: `int.Parse` and `int.TryParse` also accept trailing NUL characters after the number; the model refuses them. It reads user-id suffixes and the ticket's study year.
- Identity.PrefixFromRole: `ToLower` follows the current culture; under a Turkish culture "ADMIN" lower-cases to "admın" and is refused, while the model folds ASCII letters only and accepts it.
- Identity.GenerateUserId: the same ASCII-only folding of the role as `PrefixFromRole`.
- UserRepository.GetLastUserIdByRole: the same ASCII-only, culture-free folding of the role.
- HallTicketService.Clock12RoundTrip: the "tt" designators are fixed as "AM" and "PM"; a culture with other designators prints other text.
- HallTicketService.GetStudentsForHallTicket: the in-memory `OrderBy`/`ThenBy` compares text with the current culture; the model orders ordinally, so "B1" sorts before "a1" here but after it in an invariant or English culture.
- JavaScript object prototype keys (such as "constructor") in the department tables and the ticket status map are not modelled.
- The scheduler page's `getExamStatus` and `getStatusClass`, and the pages' `formatDate`, `getWeekday`, `getDaysUntilExam` and `getDepartmentEmoji`: display-only helpers that depend on locale or floating point.
- `localStorage` persistence of the admin ticket toggle (`toggleHallTicket`) and the admin page's `isHallTicketReleased`, which reads that store.
- The series form's fallback branch list, used when the branch request fails.
- Day-of-week names are computed from the day number and not localised.
