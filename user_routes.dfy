/** The users router: `POST /enroll/:course_id`. The auth middleware in front
    of it is not part of this model; `caller` is the user id it puts on the
    request.

    `courseParam` is the raw `:course_id` path parameter and `canon` the
    store's cast of it to an ObjectId: None when the text is no ObjectId
    (then `findById` throws), otherwise the canonical id the store keys
    courses and enrollment entries by. Several spellings can cast to one id
    (hex digits in either case). */
module UserRoutes {
  import opened Models
  import opened Http

  const ServerErrorText := "Server Error"
  const CourseNotFound := Response(404, MsgObject("Course not found"))
  const AlreadyEnrolled := Response(400, MsgObject("User already enrolled in this course"))

  /** The list an enrollment leaves, with the membership test made on the id
      the course lookup found: a course is added once, at the front. */
  function EnrollList(list: seq<Enrollment>, id: CourseId): (r: seq<Enrollment>)
    ensures Enrolled(r, id)
    ensures DistinctCourses(list) ==> DistinctCourses(r)
    ensures Enrolled(list, id) ==> r == list
    ensures !Enrolled(list, id) ==> |r| == |list| + 1 && r[0] == Enrollment(id) && r[1..] == list
  {
    if Enrolled(list, id) then list
    else
      UnshiftFresh(list, id);
      [Enrollment(id)] + list
  }

  /** The list lines 148-151 leave as written: the test compares each stored
      id's `toString()` with the raw parameter, while the entry added is the
      cast id. */
  function EnrollListAsWritten(list: seq<Enrollment>, courseParam: string, id: CourseId): (r: seq<Enrollment>)
    // with the canonical spelling it does what was meant
    ensures courseParam == id ==> r == EnrollList(list, id)
  {
    if Enrolled(list, courseParam) then list else [Enrollment(id)] + list
  }

  /** An upper-case spelling of an enrolled id casts to that id, misses the
      test and is stored a second time. */
  lemma UpperCaseIdDuplicatesEnrollment()
    ensures var id := "65a1b2c3d4e5f60718293a4b";
      var list := EnrollListAsWritten([Enrollment(id)], "65A1B2C3D4E5F60718293A4B", id);
      list == [Enrollment(id), Enrollment(id)] && !DistinctCourses(list)
  {
    var id := "65a1b2c3d4e5f60718293a4b";
    var raw := "65A1B2C3D4E5F60718293A4B";
    assert raw[2] != id[2];
    assert !Enrolled([Enrollment(id)], raw);
    var list := [Enrollment(id), Enrollment(id)];
    assert list[0].course == list[1].course;
  }

  /** The handler of `/enroll/:course_id`, on the store `db`, with the
      membership test of `EnrollList`. A known course that is not yet in the
      caller's profile goes to the front of its `enrolledCourses`; every
      other outcome stores nothing. */
  method Enroll(db: Database, caller: UserId, courseParam: string, canon: string -> Option<CourseId>,
                fault: Option<Step>)
    returns (r: Response)
    requires db.Valid()
    modifies db
    ensures db.Valid()
    ensures db.users == old(db.users) && db.courses == old(db.courses) && db.nextId == old(db.nextId)
    ensures |db.profiles| == |old(db.profiles)|
    // the course lookup throws (store failure, or a parameter that is no ObjectId): 500
    ensures (fault == Some(FindCourse) || canon(courseParam).None?) ==>
      r == ServerError(ServerErrorText) && unchanged(db)
    // unknown course: 404, nothing stored
    ensures (fault != Some(FindCourse) && canon(courseParam).Some? && canon(courseParam).value !in old(db.courses)) ==>
      r == CourseNotFound && unchanged(db)
    // no profile for the caller: reading its list throws, 500
    ensures (fault != Some(FindCourse) && canon(courseParam).Some? && canon(courseParam).value in old(db.courses)
             && (fault == Some(FindProfile) || FindProfileOf(old(db.profiles), caller).None?)) ==>
      r == ServerError(ServerErrorText) && unchanged(db)
    // already enrolled: 400, the list is unchanged
    ensures var found := FindProfileOf(old(db.profiles), caller);
      (fault !in {Some(FindCourse), Some(FindProfile)} && canon(courseParam).Some?
       && canon(courseParam).value in old(db.courses) && found.Some?
       && Enrolled(old(db.profiles)[found.value].enrolledCourses, canon(courseParam).value)) ==>
      r == AlreadyEnrolled && unchanged(db)
    // not yet enrolled, the save throws: 500, nothing stored
    ensures var found := FindProfileOf(old(db.profiles), caller);
      (fault == Some(SaveProfile) && canon(courseParam).Some?
       && canon(courseParam).value in old(db.courses) && found.Some?
       && !Enrolled(old(db.profiles)[found.value].enrolledCourses, canon(courseParam).value)) ==>
      r == ServerError(ServerErrorText) && unchanged(db)
    // not yet enrolled: the course becomes the first entry, the rest keep their order
    ensures var found := FindProfileOf(old(db.profiles), caller);
      (fault !in {Some(FindCourse), Some(FindProfile), Some(SaveProfile)} && canon(courseParam).Some?
       && canon(courseParam).value in old(db.courses) && found.Some?
       && !Enrolled(old(db.profiles)[found.value].enrolledCourses, canon(courseParam).value)) ==>
      var id := canon(courseParam).value;
      var k := found.value;
      var before := old(db.profiles)[k].enrolledCourses;
      var after := db.profiles[k].enrolledCourses;
      && db.profiles == old(db.profiles)[k := old(db.profiles)[k].(enrolledCourses := after)]
      && after == EnrollList(before, id)
      && after == [Enrollment(id)] + before
      && |after| == |before| + 1
      && after[0] == Enrollment(id)
      && after[1..] == before
      && Enrolled(after, id)
      && r == Response(200, ProfileDoc(db.profiles[k]))
    ensures old(EnrollmentsDistinct(db.profiles)) ==> EnrollmentsDistinct(db.profiles)
  {
    if fault == Some(FindCourse) {
      return ServerError(ServerErrorText);
    }
    var cast := canon(courseParam);
    if cast.None? {
      // `findById` cannot cast the parameter and throws
      return ServerError(ServerErrorText);
    }
    var id := cast.value;
    if id !in db.courses {
      return CourseNotFound;
    }
    if fault == Some(FindProfile) {
      return ServerError(ServerErrorText);
    }
    var found := FindProfileOf(db.profiles, caller);
    if found.None? {
      // `profile` is null, so `profile.enrolledCourses` throws
      return ServerError(ServerErrorText);
    }
    var k := found.value;
    var profile := db.profiles[k];
    if Enrolled(profile.enrolledCourses, id) {
      return AlreadyEnrolled;
    }
    var before := profile.enrolledCourses;
    profile := profile.(enrolledCourses := [Enrollment(id)] + before);
    if fault == Some(SaveProfile) {
      return ServerError(ServerErrorText);
    }
    UnshiftFresh(before, id);
    db.profiles := db.profiles[k := profile];
    return Response(200, ProfileDoc(profile));
  }
}
