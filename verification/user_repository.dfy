/** `UserRepository`: the two queries over the user table that the identity
    rules rely on. */
module UserRepository {
  import opened Outcomes
  import opened Seqs
  import opened Text
  import opened Entities
  import opened Identity

  /** `GetUserByUserID`: the first user with that textual id, or null. */
  function GetUserByUserId(users: seq<User>, userId: string): (r: Option<User>)
    ensures r.Some? ==> r.value in users && r.value.userId == userId
    ensures r.None? <==> forall u :: u in users ==> u.userId != userId
  {
    Find(users, (u: User) => u.userId == userId)
  }

  /** The greatest string of `s` in ordinal order, or none when `s` is empty. */
  function MaxByLex(s: seq<string>): (r: Option<string>)
    ensures r.None? <==> |s| == 0
    ensures r.Some? ==> r.value in s && forall x :: x in s ==> LexLe(x, r.value)
  {
    if |s| == 0 then None
    else
      var m := MaxByLex(s[1..]);
      assert forall x :: x in s ==> x == s[0] || x in s[1..] by {
        assert s == [s[0]] + s[1..];
      }
      if m.None? then
        LexLeTotal(s[0], s[0]);
        Some(s[0])
      else if LexLe(m.value, s[0]) then
        LexLeTotal(s[0], s[0]);
        forall x | x in s[1..]
          ensures LexLe(x, s[0])
        {
          LexLeTransitive(x, m.value, s[0]);
        }
        Some(s[0])
      else
        LexLeTotal(m.value, s[0]);
        Some(m.value)
  }

  /** A user of exactly the given role whose id starts with the prefix. */
  predicate OfRoleWithPrefix(u: User, role: string, prefix: string) {
    u.role == role && StartsWith(u.userId, prefix)
  }

  /** `GetLastUserIdByRole`: null for an unknown role; otherwise the greatest
      id, in ordinal order, among users whose stored role equals the argument
      exactly (case-sensitively) and whose id starts with the role's prefix. */
  function GetLastUserIdByRole(users: seq<User>, role: string): (r: Option<string>)
    ensures RoleNamed(ToLower(role)).None? ==> r.None?
    ensures RoleNamed(ToLower(role)).Some? ==>
      var prefix := Prefix(RoleNamed(ToLower(role)).value);
      && (r.None? <==> forall u :: u in users ==> !OfRoleWithPrefix(u, role, prefix))
      && (r.Some? ==> exists u :: u in users && OfRoleWithPrefix(u, role, prefix) && u.userId == r.value)
      && (r.Some? ==> forall u :: u in users && OfRoleWithPrefix(u, role, prefix) ==> LexLe(u.userId, r.value))
  {
    match PrefixFromRole(role)
    case Err(_) => None
    case Ok(prefix) =>
      var matching := Filter(users, (u: User) => OfRoleWithPrefix(u, role, prefix));
      MapMembers(matching, UserIdOf);
      MaxByLex(Map(matching, UserIdOf))
  }

  /** Roles are stored capitalised ("Student"), so the lower-case argument
      "student" passes the prefix switch but matches no stored user. */
  lemma LowerCaseRoleFindsNothing(users: seq<User>)
    requires forall u :: u in users ==> u.role != "student"
    ensures GetLastUserIdByRole(users, "student") == None
  {
    assert RoleNamed(ToLower("student")) == Some(Student) by {
      assert ToLower("student") == "student";
    }
  }

  /** Ordinal order is not numeric order: once a role's counter reaches seven
      digits, the greatest id is still the last six-digit one, and the id
      generated after it is one the table already holds. */
  lemma SevenDigitIdRepeats(a: User, b: User)
    requires a.role == "Student" && a.userId == "st999999"
    requires b.role == "Student" && b.userId == "st1000000"
    ensures GetLastUserIdByRole([a, b], "Student") == Some("st999999")
    ensures GenerateUserId("Student", GetLastUserIdByRole([a, b], "Student")) == Ok(b.userId)
  {
    LastIsSixDigit(a, b);
    AfterSixNines();
  }

  /** The id generated after "st999999". */
  lemma AfterSixNines()
    ensures GenerateUserId("Student", Some("st999999")) == Ok("st1000000")
  {
    SixNines();
    StudentSpelling();
    NextUserId("Student", Student, 999999, 6);
    StudentIds();
  }

  lemma StudentIds()
    ensures "st" + "999999" == "st999999" && "st" + "1000000" == "st1000000"
  {
  }

  lemma LastIsSixDigit(a: User, b: User)
    requires a.role == "Student" && a.userId == "st999999"
    requires b.role == "Student" && b.userId == "st1000000"
    ensures GetLastUserIdByRole([a, b], "Student") == Some("st999999")
  {
    StudentSpelling();
    StudentIds();
    LexLeCommonPrefix("st", "999999", "1000000");
    assert !LexLe(a.userId, b.userId);
    var r := GetLastUserIdByRole([a, b], "Student");
    assert OfRoleWithPrefix(a, "Student", "st");
    assert r.Some?;
    assert LexLe(a.userId, r.value);
    assert r.value != b.userId;
  }

  lemma StudentSpelling()
    ensures RoleNamed(ToLower("Student")) == Some(Student)
  {
    TitleLowers(Student);
  }

  /** "D6" of 999999 and of 1000000. */
  lemma SixNines()
    ensures FormatD(999999, 6) == "999999"
    ensures FormatD(1000000, 6) == "1000000"
  {
    assert NatToString(9) == "9";
    assert NatToString(99) == "99";
    assert NatToString(999) == "999";
    assert NatToString(9999) == "9999";
    assert NatToString(99999) == "99999";
    assert NatToString(999999) == "999999";
    assert NatToString(1) == "1";
    assert NatToString(10) == "10";
    assert NatToString(100) == "100";
    assert NatToString(1000) == "1000";
    assert NatToString(10000) == "10000";
    assert NatToString(100000) == "100000";
    assert NatToString(1000000) == "1000000";
  }
}
