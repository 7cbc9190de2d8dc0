/** `AuthService`: sign-up and sign-in over the user table. Hashing, password
    verification and token issuing are parameters: `hash` is the hash the
    password service produces for this call (it draws a fresh salt), `verify`
    its check of a password against a stored hash, `token` the token issued
    for a user. */
module AuthService {
  import opened Outcomes
  import opened Seqs
  import opened Text
  import opened Entities
  import opened Identity
  import opened UserRepository

  datatype SignUpRequest = SignUpRequest(
    userId: string,
    fullName: string,
    email: string,
    password: string,
    confirmPassword: string)

  datatype LoginRequest = LoginRequest(userId: string, password: string)

  datatype AuthResponse = AuthResponse(token: string, role: string)

  const PasswordMismatch: string := "Password and Confirm Password do not match."
  const UserExists: string := "User already exists."
  const BadCredentials: string := "Invalid UserID or Password."

  /** The identity key the database assigns to a new row: one more than every
      key in use. */
  function FreshKey(users: seq<User>): (k: UserKey)
    ensures forall u :: u in users ==> u.id < k
  {
    if |users| == 0 then 1
    else
      var rest := FreshKey(users[1..]);
      assert forall u :: u in users ==> u == users[0] || u in users[1..];
      if users[0].id < rest then rest else users[0].id + 1
  }

  /** `signUp`: the passwords must match, the id must be free, and the id's
      prefix must name a role; then one active user is added holding the
      hash of the password and the resolved role. */
  function SignUp(users: seq<User>, req: SignUpRequest, hash: string -> string): (r: Result<seq<User>>)
    ensures req.password != req.confirmPassword ==> r == Err(PasswordMismatch)
    ensures req.password == req.confirmPassword && GetUserByUserId(users, req.userId).Some? ==> r == Err(UserExists)
    ensures (req.password == req.confirmPassword && GetUserByUserId(users, req.userId).None?
             && RoleFromUserId(req.userId).Err?) ==> r == Err(RoleFromUserId(req.userId).msg)
    ensures r.Ok? <==>
      req.password == req.confirmPassword && GetUserByUserId(users, req.userId).None? && RoleFromUserId(req.userId).Ok?
    ensures r.Ok? ==>
      && |r.value| == |users| + 1 && r.value[..|users|] == users
      && var u := r.value[|users|];
      && u.userId == req.userId && u.fullName == req.fullName && u.email == req.email
      && u.passwordHash == hash(req.password) && u.role == RoleFromUserId(req.userId).value
      && u.isActive && forall v :: v in users ==> v.id != u.id
  {
    if req.password != req.confirmPassword then Err(PasswordMismatch)
    else if GetUserByUserId(users, req.userId).Some? then Err(UserExists)
    else
      var role :- RoleFromUserId(req.userId);
      var u := User(FreshKey(users), req.userId, req.fullName, req.email, hash(req.password), role, true);
      assert (users + [u])[..|users|] == users;
      Ok(users + [u])
  }

  /** `signIn`: an unknown id and a wrong password give the same error; a
      match returns a token and the stored role. */
  function SignIn(users: seq<User>, req: LoginRequest, verify: (string, string) -> bool, token: User -> string)
    : (r: Result<AuthResponse>)
    ensures r.Err? ==> r.msg == BadCredentials
    ensures r.Ok? <==>
      GetUserByUserId(users, req.userId).Some? && verify(req.password, GetUserByUserId(users, req.userId).value.passwordHash)
    ensures r.Ok? ==>
      var u := GetUserByUserId(users, req.userId).value;
      r.value == AuthResponse(token(u), u.role)
  {
    match GetUserByUserId(users, req.userId)
    case None => Err(BadCredentials)
    case Some(u) =>
      if !verify(req.password, u.passwordHash) then Err(BadCredentials)
      else Ok(AuthResponse(token(u), u.role))
  }

  /** The textual ids are unique (sign-up refuses a taken one). */
  predicate UserIdsUnique(users: seq<User>) {
    UniqueBy(users, UserIdOf)
  }

  /** Sign-up keeps both the identity keys and the textual ids unique. */
  lemma SignUpKeepsKeysUnique(users: seq<User>, req: SignUpRequest, hash: string -> string)
    requires UserKeysUnique(users) && UserIdsUnique(users)
    requires SignUp(users, req, hash).Ok?
    ensures UserKeysUnique(SignUp(users, req, hash).value)
    ensures UserIdsUnique(SignUp(users, req, hash).value)
  {
    var users' := SignUp(users, req, hash).value;
    var u := users'[|users|];
    assert users' == users + [u];
    UniqueByConcat(users, [u], UserKeyOf);
    UniqueByConcat(users, [u], UserIdOf);
  }

  /** A user who has just signed up signs in with the same password (when the
      password service verifies its own hash), and receives the role the id's
      prefix names. */
  lemma SignUpThenSignIn(users: seq<User>, req: SignUpRequest, hash: string -> string,
                         verify: (string, string) -> bool, token: User -> string)
    requires SignUp(users, req, hash).Ok?
    requires verify(req.password, hash(req.password))
    ensures var users' := SignUp(users, req, hash).value;
      var r := SignIn(users', LoginRequest(req.userId, req.password), verify, token);
      && r.Ok?
      && r.value.role == RoleFromUserId(req.userId).value
      && r.value.token == token(users'[|users|])
  {
    var users' := SignUp(users, req, hash).value;
    var u := users'[|users|];
    assert users' == users + [u];
    FindConcat(users, [u], (v: User) => v.userId == req.userId);
  }

  /** A signed-up user's stored role is the title of the role the prefix names,
      and that role's prefix is the id's own (lower-cased) prefix. */
  lemma SignUpRoleMatchesPrefix(users: seq<User>, req: SignUpRequest, hash: string -> string)
    requires SignUp(users, req, hash).Ok?
    ensures var u := SignUp(users, req, hash).value[|users|];
      && |req.userId| >= 2
      && u.role == Title(RoleOfPrefix(ToLower(req.userId[..2])).value)
      && PrefixFromRole(u.role) == Ok(ToLower(req.userId[..2]))
  {
    ResolvedRoleHasPrefix(req.userId);
  }
}
