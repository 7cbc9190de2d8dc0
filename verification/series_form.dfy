/** `ExamSeriesFormComponent`: the admin form that creates an exam series —
    the branch check boxes and the checks made before the request is sent. */
module SeriesForm {
  import opened Outcomes
  import opened Seqs
  import opened Text
  import opened Entities
  import opened Requests

  // ---------------------------------------------------------------------------
  // Branch selection
  // ---------------------------------------------------------------------------

  /** `indexOf`: the position of the first occurrence, or -1. */
  function IndexOf(s: seq<string>, x: string): (r: int)
    ensures -1 <= r < |s|
    ensures r == -1 <==> x !in s
    ensures r >= 0 ==> s[r] == x && x !in s[..r]
  {
    if |s| == 0 then -1
    else if s[0] == x then 0
    else
      var k := IndexOf(s[1..], x);
      assert s[1..] == s[1..][..];
      if k == -1 then -1
      else
        assert s[..k + 1] == [s[0]] + s[1..][..k];
        k + 1
  }

  /** The list with the first occurrence of `x` spliced out. */
  function RemoveFirst(s: seq<string>, x: string): (r: seq<string>)
    requires x in s
    ensures |r| == |s| - 1
  {
    var i := IndexOf(s, x);
    s[..i] + s[i + 1..]
  }

  /** `onBranchToggle`: a selected branch is removed (its first occurrence),
      an unselected one is appended. */
  function OnBranchToggle(selected: seq<string>, branch: string): (r: seq<string>)
    ensures branch !in selected ==> r == selected + [branch]
    ensures branch in selected ==> r == RemoveFirst(selected, branch)
  {
    if IndexOf(selected, branch) > -1 then RemoveFirst(selected, branch) else selected + [branch]
  }

  /** `isBranchSelected`. */
  predicate IsBranchSelected(selected: seq<string>, branch: string) {
    branch in selected
  }

  /** Splicing out one occurrence keeps every other element and, in a list
      without duplicates, drops the spliced one. */
  lemma RemoveFirstMembers(s: seq<string>, x: string)
    requires x in s
    ensures forall c :: c != x ==> (c in RemoveFirst(s, x) <==> c in s)
    ensures NoDups(s) ==> x !in RemoveFirst(s, x) && NoDups(RemoveFirst(s, x))
  {
    var i := IndexOf(s, x);
    var r := RemoveFirst(s, x);
    assert forall j :: 0 <= j < i ==> r[j] == s[j];
    assert forall j :: i <= j < |r| ==> r[j] == s[j + 1];
    forall c | c != x && c in s
      ensures c in r
    {
      var j :| 0 <= j < |s| && s[j] == c;
      if j < i { assert r[j] == c; } else { assert r[j - 1] == c; }
    }
    if NoDups(s) {
      forall j | 0 <= j < |r|
        ensures r[j] != x
      {
        if j >= i { assert s[j + 1] == r[j]; }
      }
    }
  }

  /** A toggle flips the selection of its branch, when the list has no
      duplicates (as it cannot, by `ToggleKeepsNoDups`). */
  lemma ToggleFlips(selected: seq<string>, branch: string)
    requires NoDups(selected)
    ensures IsBranchSelected(OnBranchToggle(selected, branch), branch) == !IsBranchSelected(selected, branch)
  {
    if branch in selected {
      RemoveFirstMembers(selected, branch);
    }
  }

  /** A toggle leaves every other branch's selection as it was. */
  lemma ToggleKeepsOthers(selected: seq<string>, branch: string, other: string)
    requires other != branch
    ensures IsBranchSelected(OnBranchToggle(selected, branch), other) == IsBranchSelected(selected, other)
  {
    if branch in selected {
      RemoveFirstMembers(selected, branch);
    }
  }

  /** Starting from a list without duplicates, toggling never creates one. */
  lemma ToggleKeepsNoDups(selected: seq<string>, branch: string)
    requires NoDups(selected)
    ensures NoDups(OnBranchToggle(selected, branch))
  {
    if branch in selected {
      RemoveFirstMembers(selected, branch);
    }
  }

  /** Toggling an unselected branch twice restores the list exactly;
      toggling a selected one twice (in a list without duplicates) restores
      the selection but moves the branch to the end. */
  lemma ToggleTwice(selected: seq<string>, branch: string)
    ensures branch !in selected ==> OnBranchToggle(OnBranchToggle(selected, branch), branch) == selected
    ensures branch in selected && NoDups(selected) ==>
      var twice := OnBranchToggle(OnBranchToggle(selected, branch), branch);
      && twice == RemoveFirst(selected, branch) + [branch]
      && (forall c :: c in twice <==> c in selected)
  {
    if branch !in selected {
      var once := selected + [branch];
      assert IndexOf(once, branch) == |selected|;
      assert once[..|selected|] == selected;
    } else if NoDups(selected) {
      RemoveFirstMembers(selected, branch);
    }
  }

  // ---------------------------------------------------------------------------
  // Submitting
  // ---------------------------------------------------------------------------

  /** The form's value; an empty date input is `None`. */
  datatype SeriesFormValue = SeriesFormValue(
    name: string,
    examType: int,
    year: int,
    branches: seq<string>,
    startDate: Option<Date>,
    endDate: Option<Date>)

  /** The form's validators: `required` refuses only an empty value (an empty
      string, an empty list, no date), `maxLength(100)` bounds the name's
      `length` (UTF-16 units), and
      `min(1)`/`max(4)` bound the year. */
  predicate FormValid(f: SeriesFormValue) {
    && 0 < |f.name| && Utf16Length(f.name) <= 100
    && 1 <= f.year <= 4
    && |f.branches| > 0
    && f.startDate.Some? && f.endDate.Some?
  }

  const FillCorrectly: string := "Please fill all required fields correctly"
  const DatesOutOfOrder: string := "Start date must be before end date"
  const SelectBranch: string := "Please select at least one branch"

  /** `onSubmit`: an invalid form, then a start date not before the end date,
      then an empty branch list stop the submission; otherwise the form value
      is sent as the creation request. */
  function OnSubmit(f: SeriesFormValue): (r: Result<CreateExamSeriesRequest>)
    ensures !FormValid(f) ==> r == Err(FillCorrectly)
    ensures FormValid(f) && f.startDate.value >= f.endDate.value ==> r == Err(DatesOutOfOrder)
    ensures r.Ok? <==> FormValid(f) && f.startDate.value < f.endDate.value
    ensures r.Ok? ==> r.value == CreateExamSeriesRequest(f.name, f.examType, f.year, f.branches,
                                                          f.startDate.value, f.endDate.value)
  {
    if !FormValid(f) then Err(FillCorrectly)
    else if f.startDate.value >= f.endDate.value then Err(DatesOutOfOrder)
    else if |f.branches| == 0 then Err(SelectBranch)
    else Ok(CreateExamSeriesRequest(f.name, f.examType, f.year, f.branches, f.startDate.value, f.endDate.value))
  }

  /** `required` already refuses an empty branch list, so the branch message
      is never shown: an empty list is reported as an incomplete form. */
  lemma EmptyBranchesReportedAsIncomplete(f: SeriesFormValue)
    requires |f.branches| == 0
    ensures OnSubmit(f) == Err(FillCorrectly)
    ensures OnSubmit(f) != Err(SelectBranch)
  {
  }

  /** A request the form sends passes the server's date check and its
      annotations, except that the server's `[Required]` also refuses a
      name of only white space, which the form lets through. */
  lemma SubmittedFormMeetsServerRules(f: SeriesFormValue)
    requires OnSubmit(f).Ok?
    ensures var req := OnSubmit(f).value;
      && req.startDate < req.endDate
      && (CreateExamSeriesRequestValid(req) <==> !IsBlank(f.name))
  {
  }

  /** The white-space name the form accepts and the server refuses. */
  lemma BlankNameSlipsThrough()
    ensures var f := SeriesFormValue(" ", 1, 1, ["CSE"], Some(10), Some(11));
      OnSubmit(f).Ok? && !CreateExamSeriesRequestValid(OnSubmit(f).value)
  {
    var f := SeriesFormValue(" ", 1, 1, ["CSE"], Some(10), Some(11));
    assert IsBlank(f.name) by {
      assert IsWhiteSpace(' ');
    }
  }
}
