/** The documents the route handlers read and write (users, user profiles,
    courses), the in-memory store that replaces the document database, and
    the queries the handlers run against it. */
module Models {

  datatype Option<T> = None | Some(value: T)

  /** The store assigns user ids; the model draws them from a counter. */
  type UserId = nat
  type CourseId = string
  type Role = string

  /** A user document. After registration `password` holds the bcrypt hash,
      never the plaintext. */
  datatype UserRecord = UserRecord(id: UserId, username: string, email: string, password: string, role: Role)

  /** One entry of a profile's `enrolledCourses` list. */
  datatype Enrollment = Enrollment(course: CourseId)

  /** A user profile document, linked to its user by id. */
  datatype Profile = Profile(user: UserId, enrolledCourses: seq<Enrollment>)

  /** `findOne(filter)` on a collection: the position of the first document,
      in store order, that matches `p`, or None when none does. */
  function FindFirst<T>(s: seq<T>, p: T -> bool): (r: Option<nat>)
    ensures r.Some? ==> r.value < |s| && p(s[r.value])
    ensures r.Some? ==> forall j :: 0 <= j < r.value ==> !p(s[j])
    ensures r.None? <==> forall j :: 0 <= j < |s| ==> !p(s[j])
  {
    if |s| == 0 then None
    else if p(s[0]) then Some(0)
    else match FindFirst(s[1..], p)
      case None => None
      case Some(i) => Some(i + 1)
  }

  /** `User.findOne({ email })`. */
  function FindByEmail(users: seq<UserRecord>, email: string): (r: Option<nat>)
    ensures r.Some? ==> r.value < |users| && users[r.value].email == email
    ensures r.Some? ==> forall j :: 0 <= j < r.value ==> users[j].email != email
    ensures r.None? <==> forall j :: 0 <= j < |users| ==> users[j].email != email
  {
    FindFirst(users, (u: UserRecord) => u.email == email)
  }

  /** `UserProfile.findOne({ user })`. */
  function FindProfileOf(profiles: seq<Profile>, user: UserId): (r: Option<nat>)
    ensures r.Some? ==> r.value < |profiles| && profiles[r.value].user == user
    ensures r.Some? ==> forall j :: 0 <= j < r.value ==> profiles[j].user != user
    ensures r.None? <==> forall j :: 0 <= j < |profiles| ==> profiles[j].user != user
  {
    FindFirst(profiles, (p: Profile) => p.user == user)
  }

  /** No two user documents share an email. The handlers keep this only
      through a lookup before the insert; the store itself does not enforce it. */
  ghost predicate EmailsUnique(users: seq<UserRecord>)
  {
    forall i, j :: 0 <= i < j < |users| ==> users[i].email != users[j].email
  }

  /** `enrolledCourses.some(c => c.course === courseId)`. */
  predicate Enrolled(list: seq<Enrollment>, course: CourseId)
  {
    exists i :: 0 <= i < |list| && list[i].course == course
  }

  /** The `some(...)` test after an `unshift`: the new head, or an old entry. */
  lemma {:induction false} EnrolledAfterUnshift(list: seq<Enrollment>, c: CourseId, d: CourseId)
    ensures Enrolled([Enrollment(c)] + list, d) <==> c == d || Enrolled(list, d)
  {
    var l := [Enrollment(c)] + list;
    assert l[0].course == c;
    if Enrolled(list, d) {
      var i :| 0 <= i < |list| && list[i].course == d;
      assert l[i + 1] == list[i];
    }
    if Enrolled(l, d) && c != d {
      var i :| 0 <= i < |l| && l[i].course == d;
      assert i > 0;
      assert list[i - 1] == l[i];
    }
  }

  /** No course appears twice in one enrollment list. */
  ghost predicate DistinctCourses(list: seq<Enrollment>)
  {
    forall i, j :: 0 <= i < j < |list| ==> list[i].course != list[j].course
  }

  /** Every profile's enrollment list is duplicate-free. */
  ghost predicate EnrollmentsDistinct(profiles: seq<Profile>)
  {
    forall k :: 0 <= k < |profiles| ==> DistinctCourses(profiles[k].enrolledCourses)
  }

  /** Inserting a user whose email no stored user has keeps emails unique. */
  lemma InsertFreshEmail(users: seq<UserRecord>, u: UserRecord)
    requires EmailsUnique(users)
    requires FindByEmail(users, u.email).None?
    ensures EmailsUnique(users + [u])
  {
    var us := users + [u];
    forall i, j | 0 <= i < j < |us| ensures us[i].email != us[j].email {
      if j == |users| {
        assert us[i] == users[i];
      } else {
        assert us[i] == users[i] && us[j] == users[j];
      }
    }
  }

  /** After inserting a user whose email no stored user has, the lookup of
      that email finds exactly the new document. */
  lemma FindAfterInsert(users: seq<UserRecord>, u: UserRecord)
    requires FindByEmail(users, u.email).None?
    ensures FindByEmail(users + [u], u.email) == Some(|users|)
  {
    var us := users + [u];
    assert forall j :: 0 <= j < |users| ==> us[j] == users[j];
    assert us[|users|] == u;
  }

  /** Putting a course not yet enrolled at the front of a duplicate-free list
      keeps it duplicate-free, and the course is then enrolled. */
  lemma {:induction false} UnshiftFresh(list: seq<Enrollment>, course: CourseId)
    requires !Enrolled(list, course)
    ensures DistinctCourses(list) ==> DistinctCourses([Enrollment(course)] + list)
    ensures Enrolled([Enrollment(course)] + list, course)
  {
    var l := [Enrollment(course)] + list;
    forall i, j | 0 <= i < j < |l| && DistinctCourses(list) ensures l[i].course != l[j].course {
      assert l[j] == list[j - 1];
      if i > 0 {
        assert l[i] == list[i - 1];
      }
    }
    assert l[0].course == course;
  }

  /** The document store: the users, profiles and courses collections, plus the
      id allocator that stands for the store's id generation. */
  class Database {
    var users: seq<UserRecord>
    var profiles: seq<Profile>
    var courses: set<CourseId>
    var nextId: UserId
    /** The User schema's default role; the schema is not part of this model. */
    const defaultRole: Role

    /** Every stored id was drawn from the allocator, so the next id is fresh. */
    ghost predicate Valid()
      reads this
    {
      && (forall i :: 0 <= i < |users| ==> users[i].id < nextId)
      && (forall k :: 0 <= k < |profiles| ==> profiles[k].user < nextId)
    }

    constructor (courses: set<CourseId>, defaultRole: Role)
      ensures Valid()
      ensures this.users == [] && this.profiles == [] && this.nextId == 0
      ensures this.courses == courses && this.defaultRole == defaultRole
    {
      this.users := [];
      this.profiles := [];
      this.courses := courses;
      this.nextId := 0;
      this.defaultRole := defaultRole;
    }
  }
}
