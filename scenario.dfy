/** A client of the handlers: one user registers, registers again, logs in
    with a wrong and then the right password, and enrolls twice in one course.
    Its contract follows from the handlers' contracts and Login's definition. */
module Scenario {
  import opened Models
  import opened Http
  import opened Validation
  import AuthRoutes
  import UserRoutes

  const Ada := RegisterRequest(Some("ada"), Some("ada@x.com"), Some("secret1"))

  /** Registration of a new email succeeds once; the same request again is a duplicate. */
  method RegisterTwice(isEmail: string -> bool, salt: string, hash: (string, string) -> string,
                       role: Role, course: CourseId)
    returns (db: Database, r1: Response, r2: Response)
    requires isEmail("ada@x.com")
    ensures fresh(db) && db.Valid() && db.courses == {course} && db.nextId == 1
    ensures db.users == [AuthRoutes.NewUser(0, Ada, salt, hash, role)]
    ensures db.profiles == [Profile(0, [])]
    ensures r1 == AuthRoutes.Registered
    ensures r2 == AuthRoutes.UserExists
  {
    db := new Database({course}, role);
    assert RegisterErrors(Ada, isEmail) == [];
    r1 := AuthRoutes.Register(db, Ada, isEmail, salt, hash, None);
    assert FindByEmail(db.users, "ada@x.com") == Some(0);
    r2 := AuthRoutes.Register(db, Ada, isEmail, salt, hash, None);
  }

  method Walkthrough(isEmail: string -> bool, salt: string, hash: (string, string) -> string,
                     compare: (string, string) -> bool,
                     sign: (AuthRoutes.Payload, string, AuthRoutes.SignOptions) -> string,
                     secret: string, role: Role, course: CourseId, canon: string -> Option<CourseId>)
    returns (r1: Response, r2: Response, r3: Response, r4: Response, r5: Response, r6: Response)
    requires isEmail("ada@x.com")
    requires compare("secret1", hash("secret1", salt))
    requires !compare("wrong", hash("secret1", salt))
    requires canon(course) == Some(course)
    ensures r1 == AuthRoutes.Registered
    ensures r2 == AuthRoutes.UserExists
    ensures r3 == AuthRoutes.InvalidCredentials
    ensures r4 == Response(200, TokenObject(sign(AuthRoutes.Payload(AuthRoutes.Claims(0, role)), secret, AuthRoutes.TokenLifetime)))
    ensures r5 == Response(200, ProfileDoc(Profile(0, [Enrollment(course)])))
    ensures r6 == UserRoutes.AlreadyEnrolled
  {
    var db;
    db, r1, r2 := RegisterTwice(isEmail, salt, hash, role, course);
    var u := db.users[0];
    var wrong := LoginRequest(Some("ada@x.com"), Some("wrong"));
    var right := LoginRequest(Some("ada@x.com"), Some("secret1"));
    assert LoginErrors(wrong, isEmail) == [] && LoginErrors(right, isEmail) == [];
    r3 := AuthRoutes.Login(db.users, wrong, isEmail, compare, sign, secret, None);
    assert db.users == [] + [u];
    AuthRoutes.RegisterThenLogin([], u, "secret1", isEmail, compare, sign, secret);
    r4 := AuthRoutes.Login(db.users, right, isEmail, compare, sign, secret, None);
    assert FindProfileOf(db.profiles, 0) == Some(0);
    assert !Enrolled(db.profiles[0].enrolledCourses, course);
    r5 := UserRoutes.Enroll(db, 0, course, canon, None);
    assert db.profiles[0].enrolledCourses == [Enrollment(course)];
    r6 := UserRoutes.Enroll(db, 0, course, canon, None);
  }
}
