/** `StudentProfileService`: the profile status check, profile creation and
    profile lookup, over the in-memory store. */
module StudentProfileService {
  import opened Outcomes
  import opened Seqs
  import opened Text
  import opened Entities
  import opened Requests

  /** `ProfileStatusResponse`. The response's `Id` (the profile row's own
      identity) is not modelled; the profile record stands for the rest. */
  datatype ProfileStatus = ProfileStatus(hasProfile: bool, profile: Option<StudentProfile>)

  /** `CheckProfileStatusAsync`: whether the user has a profile, and the profile
      when it has one. */
  function CheckProfileStatus(db: Db, key: UserKey): (r: ProfileStatus)
    ensures r.hasProfile <==> exists p :: p in db.profiles && p.studentId == key
    ensures r.profile.Some? <==> r.hasProfile
    ensures r.profile.Some? ==> r.profile.value in db.profiles && r.profile.value.studentId == key
  {
    var p := ProfileOf(db, key);
    ProfileStatus(p.Some?, p)
  }

  /** `GetProfileAsync`: the user's profile, or null. */
  function GetProfile(db: Db, key: UserKey): (r: Option<StudentProfile>)
    ensures r.None? <==> forall p :: p in db.profiles ==> p.studentId != key
    ensures r.Some? ==> r.value in db.profiles && r.value.studentId == key
  {
    ProfileOf(db, key)
  }

  /** The status check and the lookup agree: the status carries the profile
      the lookup returns. */
  lemma StatusMatchesLookup(db: Db, key: UserKey)
    ensures CheckProfileStatus(db, key).hasProfile <==> GetProfile(db, key).Some?
    ensures CheckProfileStatus(db, key).profile == GetProfile(db, key)
  {
  }

  /** The profile built from a request: every text field trimmed. */
  function NewProfile(key: UserKey, req: StudentProfileRequest, now: Instant): StudentProfile {
    StudentProfile(key, Trim(req.rollNumber), Trim(req.department), Trim(req.year), Trim(req.section), now)
  }

  /** `CreateProfileAsync`: an existing profile is rejected first, then a
      missing user, then a user whose role is not exactly "Student"; otherwise
      the trimmed profile is added and returned. */
  function CreateProfile(db: Db, key: UserKey, req: StudentProfileRequest, now: Instant)
    : (r: Result<(Db, StudentProfile)>)
    ensures ProfileOf(db, key).Some? ==> r == Err("Student profile already exists")
    ensures ProfileOf(db, key).None? && FindUser(db, key).None? ==> r == Err("User not found")
    ensures ProfileOf(db, key).None? && FindUser(db, key).Some? && FindUser(db, key).value.role != StudentRole ==>
      r == Err("Only students can create student profiles")
    ensures r.Ok? <==>
      ProfileOf(db, key).None? && FindUser(db, key).Some? && FindUser(db, key).value.role == StudentRole
    ensures r.Ok? ==>
      && r.value.1.studentId == key && r.value.1.createdAt == now
      && r.value.0 == db.(profiles := db.profiles + [r.value.1])
  {
    if ProfileOf(db, key).Some? then Err("Student profile already exists")
    else
      match FindUser(db, key)
      case None => Err("User not found")
      case Some(u) =>
        if u.role != StudentRole then Err("Only students can create student profiles")
        else
          var p := NewProfile(key, req, now);
          Ok((db.(profiles := db.profiles + [p]), p))
  }

  /** After a creation the lookup returns exactly the stored, trimmed fields. */
  lemma CreateThenGet(db: Db, key: UserKey, req: StudentProfileRequest, now: Instant)
    requires CreateProfile(db, key, req, now).Ok?
    ensures var db' := CreateProfile(db, key, req, now).value.0;
      var p := GetProfile(db', key);
      && p.Some?
      && p.value.rollNumber == Trim(req.rollNumber) && p.value.department == Trim(req.department)
      && p.value.year == Trim(req.year) && p.value.section == Trim(req.section)
      && p.value == CreateProfile(db, key, req, now).value.1
  {
    var p := NewProfile(key, req, now);
    FindConcat(db.profiles, [p], (q: StudentProfile) => q.studentId == key);
  }

  /** A second creation for the same user is refused. */
  lemma CreateTwiceFails(db: Db, key: UserKey, req: StudentProfileRequest, req2: StudentProfileRequest,
                         now: Instant, later: Instant)
    requires CreateProfile(db, key, req, now).Ok?
    ensures CreateProfile(CreateProfile(db, key, req, now).value.0, key, req2, later)
      == Err("Student profile already exists")
  {
    CreateThenGet(db, key, req, now);
  }

  /** Creation keeps one profile per user, and every other table as it was. */
  lemma CreateKeepsValid(db: Db, key: UserKey, req: StudentProfileRequest, now: Instant)
    requires Valid(db)
    requires CreateProfile(db, key, req, now).Ok?
    ensures Valid(CreateProfile(db, key, req, now).value.0)
  {
    var p := NewProfile(key, req, now);
    assert forall x :: x in db.profiles ==> x.studentId != key;
    UniqueByConcat(db.profiles, [p], ProfileKey);
  }

  /** A run of creation calls, each applied to the store the previous one
      left; a refused call leaves the store unchanged. */
  datatype CreateCall = CreateCall(key: UserKey, req: StudentProfileRequest, at: Instant)

  function CreateAll(db: Db, calls: seq<CreateCall>): Db
    decreases |calls|
  {
    if |calls| == 0 then db
    else
      var c := calls[0];
      var r := CreateProfile(db, c.key, c.req, c.at);
      CreateAll(if r.Ok? then r.value.0 else db, calls[1..])
  }

  /** No sequence of creations gives a user two profiles. */
  lemma {:induction false} CreateAllKeepsValid(db: Db, calls: seq<CreateCall>)
    requires Valid(db)
    ensures Valid(CreateAll(db, calls))
    decreases |calls|
  {
    if |calls| > 0 {
      var c := calls[0];
      var r := CreateProfile(db, c.key, c.req, c.at);
      if r.Ok? {
        CreateKeepsValid(db, c.key, c.req, c.at);
      }
      CreateAllKeepsValid(if r.Ok? then r.value.0 else db, calls[1..]);
    }
  }

  /** Trimming a valid field keeps it non-empty and within its limit. */
  lemma TrimmedWithin(s: string, limit: nat)
    requires RequiredText(s) && Utf16Length(s) <= limit
    ensures 0 < |Trim(s)| && Utf16Length(Trim(s)) <= limit
  {
    TrimSpec(s);
    TrimUtf16(s);
  }

  /** The length limits are checked before the service trims, and trimming
      only shortens, so the stored fields keep the limits (and none is
      empty). */
  lemma StoredFieldsWithinLimits(db: Db, key: UserKey, req: StudentProfileRequest, now: Instant)
    requires StudentProfileRequestValid(req)
    requires CreateProfile(db, key, req, now).Ok?
    ensures var p := CreateProfile(db, key, req, now).value.1;
      && 0 < |p.rollNumber| && Utf16Length(p.rollNumber) <= 20
      && 0 < |p.department| && Utf16Length(p.department) <= 50
      && 0 < |p.year| && Utf16Length(p.year) <= 10
      && 0 < |p.section| && Utf16Length(p.section) <= 5
  {
    TrimmedWithin(req.rollNumber, 20);
    TrimmedWithin(req.department, 50);
    TrimmedWithin(req.year, 10);
    TrimmedWithin(req.section, 5);
  }
}
