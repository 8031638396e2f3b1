# Stellar backend: registration, login and enrollment

This project models the business rules of three request handlers of the
Stellar education-platform backend and proves what they promise:

- `POST /register` validates the body, refuses an email that is already
  stored, and otherwise stores one user whose password field holds the bcrypt
  hash, then one empty profile linked to the new user id, and answers
  `201 'User registered'`.
- `POST /login` looks the user up by email, compares the password with the
  stored hash, and on success answers `{ token }`, a JWT over
  `{ user: { id, role } }` with `expiresIn: '5h'`. An unknown email and a
  wrong password give the same `400 { errors: [{ msg: 'Invalid Credentials' }] }`.
- `POST /enroll/:course_id` answers 404 for an unknown course, 400 when the
  course is already in the caller's `enrolledCourses`, and otherwise puts
  the course at the front of that list (`unshift`), saves, and answers
  with the profile.

The document database is replaced by an in-memory store, the class
`Models.Database`: a users collection and a profiles collection (sequences
in store order, so that `findOne` means "first match"), the set of course
ids, and a counter standing for the store's id generation. `/register` and
`/enroll` are methods that change that store step by step; `/login` only
reads, so it is a function of the users collection.

Foreign code is a parameter of the model, and nothing is assumed about it:
`hash` and `compare` stand for bcrypt, `salt` for the value the random
`genSalt(10)` returned, `sign` and `secret` for jsonwebtoken and the
process's JWT secret, `isEmail` for the validator's email syntax check. The
one fact stated concretely about that check is that it rejects the empty
string, which is how a missing field reaches it. A call that throws is the
parameter `fault: Option<Step>`: `Some(s)` means that the awaited call `s`
throws when the handler reaches it, and the `catch` answers 500.

Files: `models.dfy` (documents, store, queries, their lemmas), `http.dfy`
(responses and the calls that can throw), `validation.dfy` (the validation
chains), `auth_routes.dfy` (`/register`, `/login`), `user_routes.dfy`
(`/enroll`), `scenario.dfy` (a client that registers, logs in and enrolls,
proved from the handlers' contracts and Login's definition).

Three details of the responses: `/register` answers 201 with the text
`'User registered'`; a `/login` body that fails validation gets the
validator's error list; and the two routers answer 500 with different texts
(`'Server error'` in the auth router, route.js:34 and 57, `'Server Error'`
in the users router, route.js:156).

## Model

| member | source | states |
|---|---|---|
| `Models.FindFirst` | route.js:23 | `findOne(filter)` yields the position of the first document matching the filter, or None exactly when no document matches |
| `Models.FindByEmail` | route.js:23 | `findOne({ email })` yields the position of the first user with that email, or None exactly when no stored user has it |
| `Models.FindProfileOf` | route.js:147 | `findOne({ user })` yields the position of the first profile of that user, or None exactly when the user has no profile |
| `Models.EnrolledAfterUnshift` | route.js:148-151 | the `some(...)` test (`Enrolled`) on a list after an `unshift` holds exactly for the new course or a course the old list already held |
| `Models.InsertFreshEmail` | route.js:23-28 | inserting a user whose email the lookup did not find keeps emails unique |
| `Models.FindAfterInsert` | route.js:46 | after such an insert, the lookup of that email finds exactly the new user |
| `Models.UnshiftFresh` | route.js:148-151 | putting a course that `some(...)` did not find at the front of a duplicate-free list keeps it duplicate-free, and the course is then enrolled |
| `Validation.RegisterErrors` | route.js:14-20 | the error list is empty exactly when the username is non-empty, the email is accepted and the password has at least 6 characters; each rule's error is present exactly when that rule fails, and the list holds one entry per failed rule; passing implies all three fields are present |
| `Validation.LoginErrors` | route.js:38-43 | the error list is empty exactly when the email is accepted and a password is present; each rule's error is present exactly when that rule fails, and the list holds one entry per failed rule |
| `AuthRoutes.PayloadIdentifiesIdAndRole` | route.js:50 | the signed payload `{ user: { id, role } }` (`PayloadOf`) is the same for two users exactly when they agree on id and role, so username, email and password hash never enter the token |
| `AuthRoutes.Register` | route.js:14-36 | invalid input: 400 with the error list, store unchanged; duplicate email: 400 'User already exists', store unchanged; a throw before the user is saved: 500, no user and no profile; a throw at the profile save: the user is stored without a profile; otherwise 201, exactly one user appended (the document `NewUser` builds from the request, lines 25-27) with `password == hash(password, salt)` and a fresh id, exactly one empty profile appended for that id and found by it; email uniqueness and duplicate-free enrollments are preserved |
| `AuthRoutes.AddProfileForFreshUser` | route.js:29-30 | a profile for an id no stored profile has is the one the lookup by that id finds, and an empty list keeps enrollments duplicate-free |
| `AuthRoutes.Login` | route.js:38-59 | invalid input gives the validator's errors; an unknown email and a known email whose password `compare` rejects both give the identical 400 'Invalid Credentials'; 200 only with a stored user of that email whose hash `compare` accepts, and then the token is `sign` over that user's `{ user: { id, role } }` with `expiresIn: '5h'`; 500 only from a thrown lookup or compare, and a thrown lookup, or a thrown compare once a user was found, does give 500 |
| `AuthRoutes.LoginSucceedsIff` | route.js:46-53 | with unique emails and valid input, login succeeds exactly when some stored user has the email and `compare` accepts the password against its hash |
| `AuthRoutes.RegisterThenLogin` | route.js:25-53 | a user stored under a fresh email logs in with a password `compare` accepts against its stored hash, and gets the token over its own id and role |
| `UserRoutes.EnrollList` | route.js:148-151 | with the membership test made on the cast id: the course is enrolled afterwards, an enrolled course leaves the list unchanged, otherwise it is added once at the front and the old entries follow in order; a duplicate-free list stays duplicate-free |
| `UserRoutes.EnrollListAsWritten` | route.js:148-151 | the list as the code leaves it, testing the raw parameter; with the canonical spelling it equals `EnrollList` |
| `UserRoutes.UpperCaseIdDuplicatesEnrollment` | route.js:145-151 | an upper-case spelling of an enrolled id misses the test and the list ends with the same course twice |
| `UserRoutes.Enroll` | route.js:143-158 | a parameter that is no ObjectId, or a failing lookup: 500 'Server Error', store unchanged; unknown course: 404 'Course not found', store unchanged; no profile: 500, unchanged; course already in the list: 400, unchanged; a throw at the save: 500, unchanged; otherwise only the caller's profile changes, its new list is `EnrollList` of the old one: the cast id followed by the old list (one longer, new entry first, old entries in order), the course is enrolled and the response is that profile; duplicate-free enrollments are preserved; users and courses never change |
| `Scenario.RegisterTwice` | route.js:23-31 | on an empty store the first registration answers 201 and stores one user and one empty profile; the same request again answers 'User already exists' |
| `Scenario.Walkthrough` | route.js:14-158 | register, register again, wrong password, right password, enroll, enroll again give 201, the duplicate error, 'Invalid Credentials', the token for the new user, the profile with the one course, and 'User already enrolled in this course' |

## Left out

- bcrypt's `genSalt`, `hash` and `compare` are parameters; salting is random, so `hash` is not claimed to be deterministic across calls, and no claim is made that a hash differs from its plaintext.
- jsonwebtoken's `sign` is a parameter; token verification, expiry arithmetic and the auth middleware that checks tokens (`../../middleware/auth`, not part of this model) are left out. `caller` in `Enroll` is the id that middleware puts on the request.
- A `throw` inside the `jwt.sign` callback escapes the `try`/`catch`; that path cannot answer at all and is not modelled.
- express-validator: `isEmail` is a parameter; `check` also looks at query, params, cookies and headers, while the model reads only the body; the `value` and `location` fields of each error entry are not modelled; `isLength` counts Dafny characters, while validator.js also discounts variation selectors.
- The User and UserProfile schemas are not part of this model: the default role is a parameter of the store, and a profile holds only its user id and `enrolledCourses`. The `course` path of an `enrolledCourses` entry is assumed to be an ObjectId, so an entry stores the cast id and its `toString()` is lower-case hex.
- UserRoutes.Enroll: makes the membership test on the cast id, as `EnrollList` does, not on the raw parameter as route.js:148 does (see Findings); the duplicate-free guarantee and the 400 branch hold for the source only when the client sends the canonical spelling. The cast itself is the parameter `canon`, not modelled further.
- Body fields are modelled as strings or absent. JSON null, numbers, arrays and objects are not, and on those the source answers differently: a `null` password passes `exists()` and then makes `bcrypt.compare` throw (500 for a known email), and a numeric password passes `isLength` but makes `bcrypt.hash` throw (500 rather than 201).
- The lookup-then-insert of `/register` is not atomic under concurrent requests; concurrency is out of scope, so email uniqueness is proved for sequential calls only. The user-then-profile creation is not transactional; the model shows the orphaned user that a failed profile save leaves.
- The AI proxy (`/generate`), the course listing, the `/me` profile read and server.js bootstrap are I/O or plain database reads and are not modelled.

## Findings

| source | as written | input that shows it | evidently intended | confidence | as-written member | corrected member |
|---|---|---|---|---|---|---|
| route.js:145-151 | `findById` casts the parameter to an ObjectId, accepting upper-case hex, but the guard compares each stored entry's lower-case `toString()` with the raw parameter | a profile enrolled in `65a1b2c3d4e5f60718293a4b`, then `POST /enroll/65A1B2C3D4E5F60718293A4B`: the course is found, the guard misses, and a second entry for the same course is stored | compare the stored entries with the id the lookup found, so a course is enrolled at most once | not executed; high for the stated input, given the ObjectId cast's acceptance of either case | `UserRoutes.EnrollListAsWritten`, `UserRoutes.UpperCaseIdDuplicatesEnrollment` | `UserRoutes.EnrollList` |
