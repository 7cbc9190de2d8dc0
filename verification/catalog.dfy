/** The static branch catalogue: the subjects of each branch, the list of
    valid branch codes, and the translation of full department names to
    branch codes. */
module BranchCatalog {

  const Subjects: map<string, seq<string>> := map[
    "CSE" := ["Mathematics", "Physics", "Operating Systems", "Database Management Systems", "Data Structures", "Computer Networks"],
    "ECE" := ["Circuits", "Signals and Systems", "Networks", "Electronic Devices", "Communication Systems"],
    "IT" := ["Mathematics", "Web Technologies", "Software Engineering", "Database Systems", "Cloud Computing"],
    "EEE" := ["Electrical Circuits", "Power Systems", "Control Systems", "Electric Machines", "Power Electronics"],
    "MECH" := ["Thermodynamics", "Fluid Mechanics", "Machine Design", "Manufacturing Processes", "Heat Transfer"],
    "CIVIL" := ["Structural Analysis", "Concrete Technology", "Surveying", "Geotechnical Engineering", "Transportation Engineering"],
    "CHEM" := ["Chemical Process Principles", "Unit Operations", "Process Control", "Chemical Reaction Engineering", "Thermodynamics"]
  ]

  const AllBranches: seq<string> := ["CSE", "ECE", "IT", "EEE", "MECH", "CIVIL", "CHEM"]

  const DepartmentToBranch: map<string, string> := map[
    "Computer Science" := "CSE",
    "Information Technology" := "IT",
    "Electronics and Communication" := "ECE",
    "Electrical Engineering" := "EEE",
    "Mechanical Engineering" := "MECH",
    "Civil Engineering" := "CIVIL",
    "Chemical Engineering" := "CHEM"
  ]

  /** The subjects of a known branch; an empty list for anything else. */
  function GetSubjects(branch: string): (r: seq<string>)
    ensures branch in Subjects ==> |r| > 0
    ensures branch !in Subjects ==> r == []
  {
    if branch in Subjects then Subjects[branch] else []
  }

  predicate IsValidBranch(branch: string) {
    branch in AllBranches
  }

  /** A full department name becomes its branch code; any other string,
      including a branch code, passes through unchanged. */
  function GetBranchCode(departmentName: string): string {
    if departmentName in DepartmentToBranch then DepartmentToBranch[departmentName] else departmentName
  }

  /** Exactly seven codes are valid, compared case-sensitively. */
  lemma ValidBranches(b: string)
    ensures IsValidBranch(b) <==>
      b == "CSE" || b == "ECE" || b == "IT" || b == "EEE" || b == "MECH" || b == "CIVIL" || b == "CHEM"
    ensures !IsValidBranch("cse") && !IsValidBranch("Computer Science")
  {
  }

  /** The translation table, pair by pair, with the identity fallback. */
  lemma BranchCodeTable(d: string)
    ensures GetBranchCode("Computer Science") == "CSE"
    ensures GetBranchCode("Information Technology") == "IT"
    ensures GetBranchCode("Electronics and Communication") == "ECE"
    ensures GetBranchCode("Electrical Engineering") == "EEE"
    ensures GetBranchCode("Mechanical Engineering") == "MECH"
    ensures GetBranchCode("Civil Engineering") == "CIVIL"
    ensures GetBranchCode("Chemical Engineering") == "CHEM"
    ensures d !in DepartmentToBranch.Keys ==> GetBranchCode(d) == d
  {
  }

  /** Every department name translates to a valid branch, and no branch code
      is itself a department name, so translating twice changes nothing. */
  lemma BranchCodeValidAndIdempotent(d: string)
    ensures d in DepartmentToBranch ==> IsValidBranch(GetBranchCode(d))
    ensures IsValidBranch(d) ==> GetBranchCode(d) == d
    ensures GetBranchCode(GetBranchCode(d)) == GetBranchCode(d)
  {
    assert forall code :: code in DepartmentToBranch.Values ==> code !in DepartmentToBranch;
    assert forall b :: b in AllBranches ==> b !in DepartmentToBranch;
  }

  /** The subject table is keyed by exactly the valid branches, so a branch
      has subjects exactly when it is valid. */
  lemma SubjectsCoverBranches(b: string)
    ensures Subjects.Keys == set x | x in AllBranches
    ensures IsValidBranch(b) <==> |GetSubjects(b)| > 0
  {
  }
}
