/** The auth router: `POST /register` and `POST /login`.

    The libraries the handlers call are parameters of the model:
    `hash(password, salt)` is bcrypt's hash, with `salt` the value the random
    `genSalt(10)` produced; `compare(password, stored)` is bcrypt's compare;
    `sign(payload, secret, options)` is jsonwebtoken's sign, with `secret` the
    process's JWT secret. Nothing is assumed about any of them. */
module AuthRoutes {
  import opened Models
  import opened Http
  import opened Validation

  /** The claims a login token carries: `{ user: { id, role } }`. */
  datatype Claims = Claims(id: UserId, role: Role)
  datatype Payload = Payload(user: Claims)
  /** The options passed to `jwt.sign`; the lifetime stays data, not clock logic. */
  datatype SignOptions = SignOptions(expiresIn: string)

  const TokenLifetime := SignOptions("5h")
  const ServerErrorText := "Server error"
  const Registered := Response(201, Text("User registered"))
  const UserExists := Response(400, ErrorList([PlainError("User already exists")]))
  const InvalidCredentials := Response(400, ErrorList([PlainError("Invalid Credentials")]))

  /** The payload `{ user: { id, role } }` a login signs for the user `u`. */
  function PayloadOf(u: UserRecord): (p: Payload)
  {
    Payload(Claims(u.id, u.role))
  }

  /** The payload identifies exactly the id and the role: two users get the
      same payload when and only when they agree on both, so username, email
      and password hash never enter the token. */
  lemma PayloadIdentifiesIdAndRole(u: UserRecord, v: UserRecord)
    ensures PayloadOf(u) == PayloadOf(v) <==> u.id == v.id && u.role == v.role
  {
  }

  /** The handler of `/register`, on the store `db`.
      The outcome is one of: the validation errors; a duplicate email; or one
      new user whose password is the hash, and one empty profile for it. */
  method Register(db: Database, req: RegisterRequest, isEmail: string -> bool,
                  salt: string, hash: (string, string) -> string, fault: Option<Step>)
    returns (r: Response)
    requires db.Valid()
    modifies db
    ensures db.Valid()
    ensures db.courses == old(db.courses)
    // invalid input: 400 with every failed rule, nothing stored
    ensures RegisterErrors(req, isEmail) != [] ==>
      r == Response(400, ErrorList(RegisterErrors(req, isEmail))) && unchanged(db)
    ensures RegisterErrors(req, isEmail) == [] && fault == Some(FindUser) ==>
      r == ServerError(ServerErrorText) && unchanged(db)
    // duplicate email: 400, nothing stored
    ensures (RegisterErrors(req, isEmail) == [] && fault != Some(FindUser)
         && FindByEmail(old(db.users), req.email.value).Some?) ==>
      r == UserExists && unchanged(db)
    // new email, a throw before the user is saved: 500, nothing stored
    ensures (RegisterErrors(req, isEmail) == [] && FindByEmail(old(db.users), req.email.value).None?
         && fault in {Some(FindUser), Some(GenSalt), Some(HashPassword), Some(SaveUser)}) ==>
      r == ServerError(ServerErrorText) && db.users == old(db.users) && db.profiles == old(db.profiles)
    // new email, the profile save throws: the user stays without a profile
    ensures (RegisterErrors(req, isEmail) == [] && FindByEmail(old(db.users), req.email.value).None?
         && fault == Some(SaveProfile)) ==>
      && r == ServerError(ServerErrorText)
      && db.users == old(db.users) + [NewUser(old(db.nextId), req, salt, hash, db.defaultRole)]
      && db.profiles == old(db.profiles)
      && db.nextId == old(db.nextId) + 1
    // new email: 201, one user with the hashed password, one empty profile for it
    ensures (RegisterErrors(req, isEmail) == [] && FindByEmail(old(db.users), req.email.value).None?
         && fault !in {Some(FindUser), Some(GenSalt), Some(HashPassword), Some(SaveUser), Some(SaveProfile)}) ==>
      && r == Registered
      && db.users == old(db.users) + [NewUser(old(db.nextId), req, salt, hash, db.defaultRole)]
      && db.users[|old(db.users)|].password == hash(req.password.value, salt)
      && db.profiles == old(db.profiles) + [Profile(old(db.nextId), [])]
      && db.nextId == old(db.nextId) + 1
      && (forall i :: 0 <= i < |old(db.users)| ==> old(db.users)[i].id != old(db.nextId))
      && FindProfileOf(db.profiles, old(db.nextId)) == Some(|old(db.profiles)|)
    // the invariants the lookup-then-insert keeps in a sequential setting
    ensures old(EmailsUnique(db.users)) ==> EmailsUnique(db.users)
    ensures old(EnrollmentsDistinct(db.profiles)) ==> EnrollmentsDistinct(db.profiles)
  {
    var errs := RegisterErrors(req, isEmail);
    if errs != [] {
      return Response(400, ErrorList(errs));
    }
    var username, email, password := req.username.value, req.email.value, req.password.value;
    if fault == Some(FindUser) {
      return ServerError(ServerErrorText);
    }
    var existing := FindByEmail(db.users, email);
    if existing.Some? {
      return UserExists;
    }
    // `new User(...)`: the document gets its id when it is built
    var user := UserRecord(db.nextId, username, email, password, db.defaultRole);
    db.nextId := db.nextId + 1;
    if fault == Some(GenSalt) || fault == Some(HashPassword) {
      return ServerError(ServerErrorText);
    }
    user := user.(password := hash(password, salt));
    if fault == Some(SaveUser) {
      return ServerError(ServerErrorText);
    }
    if EmailsUnique(db.users) {
      InsertFreshEmail(db.users, user);
    }
    db.users := db.users + [user];
    var profile := Profile(user.id, []);
    if fault == Some(SaveProfile) {
      return ServerError(ServerErrorText);
    }
    AddProfileForFreshUser(db.profiles, profile);
    db.profiles := db.profiles + [profile];
    return Registered;
  }

  /** The user document `/register` stores, with the hash in place of the password. */
  function NewUser(id: UserId, req: RegisterRequest, salt: string, hash: (string, string) -> string, role: Role): (u: UserRecord)
    requires req.username.Some? && req.email.Some? && req.password.Some?
  {
    UserRecord(id, req.username.value, req.email.value, hash(req.password.value, salt), role)
  }

  /** A profile for a user id no stored profile has: the list stays
      duplicate-free and the lookup by that id finds the new profile. */
  lemma AddProfileForFreshUser(profiles: seq<Profile>, p: Profile)
    requires forall k :: 0 <= k < |profiles| ==> profiles[k].user != p.user
    requires p.enrolledCourses == []
    ensures FindProfileOf(profiles + [p], p.user) == Some(|profiles|)
    ensures EnrollmentsDistinct(profiles) ==> EnrollmentsDistinct(profiles + [p])
  {
    var ps := profiles + [p];
    assert forall k :: 0 <= k < |profiles| ==> ps[k] == profiles[k];
    assert ps[|profiles|] == p;
  }

  /** The handler of `/login`: it only reads the users collection. Unknown
      email and wrong password give the same answer. */
  function Login(users: seq<UserRecord>, req: LoginRequest, isEmail: string -> bool,
                 compare: (string, string) -> bool, sign: (Payload, string, SignOptions) -> string,
                 secret: string, fault: Option<Step>): (r: Response)
    ensures r.status == 200 || r.status == 400 || r.status == 500
    ensures LoginErrors(req, isEmail) != [] ==> r == Response(400, ErrorList(LoginErrors(req, isEmail)))
    ensures r.status == 400 ==> r == InvalidCredentials || r == Response(400, ErrorList(LoginErrors(req, isEmail)))
    ensures r.status == 500 ==> fault == Some(FindUser) || fault == Some(ComparePassword)
    // a throwing lookup, or a throwing compare once a user was found: 500
    ensures LoginErrors(req, isEmail) == [] && fault == Some(FindUser) ==> r == ServerError(ServerErrorText)
    ensures (LoginErrors(req, isEmail) == [] && fault == Some(ComparePassword)
         && FindByEmail(users, req.email.value).Some?) ==>
      r == ServerError(ServerErrorText)
    // success: a token over the matched record's id and role, with a 5-hour lifetime
    ensures r.status == 200 ==>
      && LoginErrors(req, isEmail) == []
      && exists i :: 0 <= i < |users| && users[i].email == req.email.value
           && compare(req.password.value, users[i].password)
           && r.body == TokenObject(sign(PayloadOf(users[i]), secret, TokenLifetime))
    // unknown email
    ensures (LoginErrors(req, isEmail) == [] && fault != Some(FindUser)
         && FindByEmail(users, req.email.value).None?) ==>
      r == InvalidCredentials
    // known email, wrong password: the very same response
    ensures (LoginErrors(req, isEmail) == [] && fault != Some(FindUser) && fault != Some(ComparePassword)
         && FindByEmail(users, req.email.value).Some?
         && !compare(req.password.value, users[FindByEmail(users, req.email.value).value].password)) ==>
      r == InvalidCredentials
  {
    var errs := LoginErrors(req, isEmail);
    if errs != [] then Response(400, ErrorList(errs))
    else if fault == Some(FindUser) then ServerError(ServerErrorText)
    else match FindByEmail(users, req.email.value)
      case None => InvalidCredentials
      case Some(i) =>
        if fault == Some(ComparePassword) then ServerError(ServerErrorText)
        else if !compare(req.password.value, users[i].password) then InvalidCredentials
        else Response(200, TokenObject(sign(PayloadOf(users[i]), secret, TokenLifetime)))
  }

  /** With unique emails, a valid login succeeds exactly when some stored user
      has that email and the password matches its stored hash. */
  lemma LoginSucceedsIff(users: seq<UserRecord>, req: LoginRequest, isEmail: string -> bool,
                         compare: (string, string) -> bool, sign: (Payload, string, SignOptions) -> string,
                         secret: string)
    requires EmailsUnique(users)
    requires LoginErrors(req, isEmail) == []
    ensures Login(users, req, isEmail, compare, sign, secret, None).status == 200 <==>
      exists i :: 0 <= i < |users| && users[i].email == req.email.value && compare(req.password.value, users[i].password)
  {
    if i :| 0 <= i < |users| && users[i].email == req.email.value && compare(req.password.value, users[i].password) {
      var k := FindByEmail(users, req.email.value).value;
      // unique emails make the first match the only one
      assert users[k].email == users[i].email;
    }
  }

  /** Registering and then logging in with the same email and password gives a
      token for the new user, provided bcrypt's compare accepts a password
      against its own hash. */
  lemma RegisterThenLogin(users: seq<UserRecord>, u: UserRecord, password: string, isEmail: string -> bool,
                          compare: (string, string) -> bool, sign: (Payload, string, SignOptions) -> string,
                          secret: string)
    requires FindByEmail(users, u.email).None?
    requires u.email != "" && isEmail(u.email)
    requires compare(password, u.password)
    ensures Login(users + [u], LoginRequest(Some(u.email), Some(password)), isEmail, compare, sign, secret, None)
         == Response(200, TokenObject(sign(PayloadOf(u), secret, TokenLifetime)))
  {
    FindAfterInsert(users, u);
  }
}
