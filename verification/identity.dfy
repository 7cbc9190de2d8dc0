/** User ids and roles: `UserIdGenerator` builds an id from a role and the
    last id issued for it, and `RoleResolver` reads the role back from the
    first two letters of an id. */
module Identity {
  import opened Outcomes
  import opened Text

  /** The four roles the two helpers know. */
  datatype Role = Student | Faculty | Admin | Digitizer

  /** The role as `role.ToLower()` must spell it. */
  function LowerName(r: Role): string {
    match r
    case Student => "student"
    case Faculty => "faculty"
    case Admin => "admin"
    case Digitizer => "digitizer"
  }

  /** The two letters that start every id of the role. */
  function Prefix(r: Role): string {
    match r
    case Student => "st"
    case Faculty => "fc"
    case Admin => "ad"
    case Digitizer => "dg"
  }

  /** The role name the resolver returns (and that `User.Role` stores). */
  function Title(r: Role): string {
    match r
    case Student => "Student"
    case Faculty => "Faculty"
    case Admin => "Admin"
    case Digitizer => "Digitizer"
  }

  /** The role whose lower-case name is `name`, if any: the `switch` on
      `role.ToLower()` both helpers share. */
  function RoleNamed(name: string): (r: Option<Role>)
    ensures r.Some? ==> LowerName(r.value) == name
    ensures r.None? ==> forall x: Role :: LowerName(x) != name
  {
    if name == "student" then Some(Student)
    else if name == "faculty" then Some(Faculty)
    else if name == "admin" then Some(Admin)
    else if name == "digitizer" then Some(Digitizer)
    else None
  }

  /** The role whose prefix is `p`, if any. */
  function RoleOfPrefix(p: string): (r: Option<Role>)
    ensures r.Some? ==> Prefix(r.value) == p
    ensures r.None? ==> forall x: Role :: Prefix(x) != p
  {
    if p == "st" then Some(Student)
    else if p == "fc" then Some(Faculty)
    else if p == "ad" then Some(Admin)
    else if p == "dg" then Some(Digitizer)
    else None
  }

  /** Lower-casing a prefix of a string is taking the prefix of its
      lower-cased form. */
  lemma LowerPrefix(s: string, k: nat)
    requires k <= |s|
    ensures ToLower(s)[..k] == ToLower(s[..k])
  {
  }

  /** Prefixes are already lower-case. */
  lemma PrefixIsLower(r: Role)
    ensures ToLower(Prefix(r)) == Prefix(r)
  {
    var p := Prefix(r);
    assert ToLower(p)[0] == p[0] && ToLower(p)[1] == p[1];
  }

  /** A title lower-cases to the role's lower-case name. */
  lemma TitleLowers(r: Role)
    ensures ToLower(Title(r)) == LowerName(r)
  {
    var t := Title(r);
    assert ToLower(t)[0] == LowerName(r)[0];
    assert forall i :: 1 <= i < |t| ==> ToLower(t)[i] == t[i];
  }

  // ---------------------------------------------------------------------------
  // UserIdGenerator
  // ---------------------------------------------------------------------------

  /** `GetPrefixFromRole`: the role is matched case-insensitively and an
      unknown role throws. */
  function PrefixFromRole(role: string): (r: Result<string>)
    ensures r.Ok? <==> RoleNamed(ToLower(role)).Some?
    ensures r.Ok? ==> r.value == Prefix(RoleNamed(ToLower(role)).value)
    ensures r.Err? ==> r.msg == "Invalid role specified"
  {
    var named := RoleNamed(ToLower(role));
    if named.Some? then Ok(Prefix(named.value)) else Err("Invalid role specified")
  }

  /** The number an id carries after `prefix`: `None` when the id does not
      start with the prefix or the rest is not a 32-bit integer. */
  function NumberOf(id: string, prefix: string): Option<int> {
    if StartsWith(id, prefix) then ParseInt32(id[|prefix|..]) else None
  }

  /** `nextNumber`: one more than the number in a non-empty last id that
      starts with the prefix and parses, otherwise 1. */
  function NextNumber(lastUserId: Option<string>, prefix: string): (r: int)
    ensures InInt32(r)
  {
    if lastUserId.Some? && |lastUserId.value| > 0 && StartsWith(lastUserId.value, prefix) then
      var parsed := ParseInt32(lastUserId.value[|prefix|..]);
      if parsed.Some? then Wrap32(parsed.value + 1) else 1
    else 1
  }

  /** The id that follows `lastUserId` among the ids starting with `prefix`:
      the prefix, then `nextNumber` zero-padded to six digits. */
  function IdAfter(prefix: string, lastUserId: Option<string>): (r: string)
    ensures StartsWith(r, prefix) && |r| >= |prefix| + 6
  {
    var id := prefix + FormatD(NextNumber(lastUserId, prefix), 6);
    assert id[..|prefix|] == prefix;
    id
  }

  /** `GenerateUserId(role, lastUserId)`: the prefix, then one more than the
      number in `lastUserId` (1 when it has none), zero-padded to six digits.
      The increment is unchecked 32-bit arithmetic. `None` is a null
      `lastUserId`. */
  function GenerateUserId(role: string, lastUserId: Option<string>): (r: Result<string>)
    ensures r.Ok? <==> RoleNamed(ToLower(role)).Some?
    ensures r.Err? ==> r.msg == "Invalid role specified"
    ensures r.Ok? ==> StartsWith(r.value, Prefix(RoleNamed(ToLower(role)).value))
    ensures r.Ok? ==> |r.value| >= 8
  {
    var prefix :- PrefixFromRole(role);
    Ok(IdAfter(prefix, lastUserId))
  }

  /** For a known role the generator issues the id after the last one among
      the role's prefix. */
  lemma GeneratedIdParts(role: string, r: Role, lastUserId: Option<string>)
    requires RoleNamed(ToLower(role)) == Some(r)
    ensures GenerateUserId(role, lastUserId) == Ok(IdAfter(Prefix(r), lastUserId))
  {
  }

  /** The number written after a prefix is read back after it. */
  lemma NumberAfterPrefix(p: string, n: int, width: nat)
    requires InInt32(n)
    ensures NumberOf(p + FormatD(n, width), p) == Some(n)
  {
    var id := p + FormatD(n, width);
    assert id[..|p|] == p && id[|p|..] == FormatD(n, width);
    ParseFormatD(n, width);
  }

  /** `nextNumber` continues from the number the last id carries. */
  lemma NextNumberOf(lastUserId: Option<string>, p: string)
    ensures var last := if lastUserId.Some? then NumberOf(lastUserId.value, p) else None;
      NextNumber(lastUserId, p) == if last.Some? then Wrap32(last.value + 1) else 1
  {
    if lastUserId.Some? && |lastUserId.value| == 0 {
      assert NumberOf(lastUserId.value, p).None?;
    }
  }

  lemma NextNumberAfter(last: string, p: string, n: int)
    requires NumberOf(last, p) == Some(n)
    ensures NextNumber(Some(last), p) == Wrap32(n + 1)
  {
    ParsedNonEmpty(last[|p|..]);
  }

  /** The number an issued id carries is the next number: one more than the
      last id's number, or 1 when the last id is null, empty, has another
      prefix or a suffix that is not an integer. */
  lemma IdAfterNumber(p: string, lastUserId: Option<string>)
    ensures var last := if lastUserId.Some? then NumberOf(lastUserId.value, p) else None;
      NumberOf(IdAfter(p, lastUserId), p) == Some(if last.Some? then Wrap32(last.value + 1) else 1)
  {
    NumberAfterPrefix(p, NextNumber(lastUserId, p), 6);
    NextNumberOf(lastUserId, p);
  }

  /** After an id carrying `n` comes the prefix and `n + 1` (unchecked) in
      "D6". */
  lemma IdAfterCarrying(p: string, last: string, n: int)
    requires NumberOf(last, p) == Some(n)
    ensures IdAfter(p, Some(last)) == p + FormatD(Wrap32(n + 1), 6)
  {
    NextNumberAfter(last, p, n);
  }

  /** Below `int.MaxValue` the successor's number is one more. */
  lemma IdSuccessor(p: string, last: string, n: int)
    requires NumberOf(last, p) == Some(n) && n < IntMax
    ensures NumberOf(IdAfter(p, Some(last)), p) == Some(n + 1)
  {
    IdAfterCarrying(p, last, n);
    assert InInt32(n + 1);
    WrapCongruent(n + 1);
    NumberAfterPrefix(p, n + 1, 6);
  }

  /** "D6" of 1. */
  lemma FormatOne()
    ensures FormatD(1, 6) == "000001"
  {
    assert NatToString(1) == "1";
    assert PadDigits(1, 6) == Zeros(5) + "1";
  }

  /** With no usable last id the first id of the role is issued. */
  lemma FirstUserId(role: string, r: Role, lastUserId: Option<string>)
    requires RoleNamed(ToLower(role)) == Some(r)
    requires lastUserId.None? || NumberOf(lastUserId.value, Prefix(r)).None?
    ensures GenerateUserId(role, lastUserId) == Ok(Prefix(r) + "000001")
  {
    GeneratedIdParts(role, r, lastUserId);
    NextNumberOf(lastUserId, Prefix(r));
    FormatOne();
  }

  /** After `prefix + n` (any width, even negative) comes `prefix + (n + 1)`
      in at least six digits. */
  lemma NextUserId(role: string, r: Role, n: int, width: nat)
    requires RoleNamed(ToLower(role)) == Some(r)
    requires InInt32(n) && n < IntMax
    ensures GenerateUserId(role, Some(Prefix(r) + FormatD(n, width))) == Ok(Prefix(r) + FormatD(n + 1, 6))
  {
    var last := Prefix(r) + FormatD(n, width);
    GeneratedIdParts(role, r, Some(last));
    NumberAfterPrefix(Prefix(r), n, width);
    IdAfterCarrying(Prefix(r), last, n);
    WrapCongruent(n + 1);
  }

  lemma WrapAtIntMax()
    ensures Wrap32(IntMax + 1) == IntMin
  {
    assert IntMax + 1 - IntMin == 0x1_0000_0000;
  }

  /** At `int.MaxValue` the unchecked increment wraps to `int.MinValue`, so
      the next id carries a minus sign. */
  lemma UserIdWrapsAtIntMax(role: string, r: Role, width: nat)
    requires RoleNamed(ToLower(role)) == Some(r)
    ensures GenerateUserId(role, Some(Prefix(r) + FormatD(IntMax, width))) == Ok(Prefix(r) + FormatD(IntMin, 6))
    ensures FormatD(IntMin, 6)[0] == '-'
  {
    var last := Prefix(r) + FormatD(IntMax, width);
    GeneratedIdParts(role, r, Some(last));
    NumberAfterPrefix(Prefix(r), IntMax, width);
    IdAfterCarrying(Prefix(r), last, IntMax);
    WrapAtIntMax();
  }

  /** The k-th id issued for a role when each id is fed back in as the last
      one, starting from none. */
  function NthUserId(role: string, k: nat): (r: Result<string>)
    requires k >= 1
    ensures r.Ok? <==> RoleNamed(ToLower(role)).Some?
    decreases k
  {
    if k == 1 then GenerateUserId(role, None)
    else
      var prev := NthUserId(role, k - 1);
      if prev.Err? then prev else GenerateUserId(role, Some(prev.value))
  }

  lemma NthUserIdStep(role: string, r: Role, k: nat)
    requires RoleNamed(ToLower(role)) == Some(r)
    requires 2 <= k <= IntMax
    requires NumberOf(NthUserId(role, k - 1).value, Prefix(r)) == Some(k - 1)
    ensures NumberOf(NthUserId(role, k).value, Prefix(r)) == Some(k)
  {
    var prev := NthUserId(role, k - 1).value;
    assert NthUserId(role, k) == GenerateUserId(role, Some(prev));
    GeneratedIdParts(role, r, Some(prev));
    IdSuccessor(Prefix(r), prev, k - 1);
  }

  /** Repeated generation numbers the ids 1, 2, 3, ...: strictly increasing
      while the count fits in 32 bits. */
  lemma {:induction false} NthUserIdNumber(role: string, r: Role, k: nat)
    requires RoleNamed(ToLower(role)) == Some(r)
    requires 1 <= k <= IntMax
    ensures NumberOf(NthUserId(role, k).value, Prefix(r)) == Some(k)
    decreases k
  {
    if k == 1 {
      GeneratedIdParts(role, r, None);
      IdAfterNumber(Prefix(r), None);
    } else {
      NthUserIdNumber(role, r, k - 1);
      NthUserIdStep(role, r, k);
    }
  }

  // ---------------------------------------------------------------------------
  // RoleResolver
  // ---------------------------------------------------------------------------

  /** `GetRoleFromUserId`: the role whose prefix starts the lower-cased id. */
  function RoleFromUserId(userId: string): (r: Result<string>)
    ensures r.Ok? <==> |userId| >= 2 && RoleOfPrefix(ToLower(userId[..2])).Some?
    ensures r.Ok? ==> r.value == Title(RoleOfPrefix(ToLower(userId[..2])).value)
    ensures r.Err? ==> r.msg == "Invalid User ID format"
  {
    var lower := ToLower(userId);
    assert |userId| >= 2 ==> lower[..2] == ToLower(userId[..2]);
    if StartsWith(lower, "st") then Ok("Student")
    else if StartsWith(lower, "fc") then Ok("Faculty")
    else if StartsWith(lower, "ad") then Ok("Admin")
    else if StartsWith(lower, "dg") then Ok("Digitizer")
    else Err("Invalid User ID format")
  }

  /** Only the first two characters, lower-cased, decide the role. */
  lemma RoleDependsOnFirstTwo(a: string, b: string)
    requires |a| >= 2 && |b| >= 2 && ToLower(a[..2]) == ToLower(b[..2])
    ensures RoleFromUserId(a) == RoleFromUserId(b)
  {
  }

  /** The resolver and the prefix table are inverse: a resolved role name
      maps back to the id's (lower-cased) prefix. */
  lemma ResolvedRoleHasPrefix(userId: string)
    requires RoleFromUserId(userId).Ok?
    ensures PrefixFromRole(RoleFromUserId(userId).value) == Ok(ToLower(userId[..2]))
  {
    TitleLowers(RoleOfPrefix(ToLower(userId[..2])).value);
  }

  /** An id that starts with a role's prefix resolves to that role. */
  lemma PrefixResolves(r: Role, id: string)
    requires StartsWith(id, Prefix(r))
    ensures RoleFromUserId(id) == Ok(Title(r))
  {
    assert id[..2] == Prefix(r);
    PrefixIsLower(r);
    assert RoleOfPrefix(ToLower(id[..2])) == Some(r);
  }

  /** Every id the generator issues resolves to the capitalised role it was
      issued for. */
  lemma GeneratedIdResolves(role: string, lastUserId: Option<string>)
    requires GenerateUserId(role, lastUserId).Ok?
    ensures RoleFromUserId(GenerateUserId(role, lastUserId).value)
      == Ok(Title(RoleNamed(ToLower(role)).value))
  {
    PrefixResolves(RoleNamed(ToLower(role)).value, GenerateUserId(role, lastUserId).value);
  }
}
