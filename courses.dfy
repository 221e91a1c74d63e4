/**
 * The courses router. A course names its department by id; create and
 * update insist that the department exists at that moment. The body is
 * validated first (semester 1..8, non-negative lecture hours), then the path
 * id, then the department, and only then is the store written. The body puts
 * no upper bound on the lecture hours, but the store's encoder refuses an
 * integer wider than 8 bytes: that write raises, and the request fails with
 * nothing written.
 */
module Courses {
  import opened Common
  import opened Models
  import opened DocumentStore
  import opened Crud
  import opened Departments

  const InvalidCourseId: string := "Invalid course ID"
  const CourseNotFound: string := "Course not found"

  /** The document `create_course` inserts for a body. */
  function NewCourse(body: CourseCreate, at: Timestamp): Course {
    Course(body.courseName, body.departmentId, body.semester, body.classLabel, body.lectureHours, System, at)
  }

  /** The `$set` of `update_course`: the five body fields and `updated_at`; the submitter stays. */
  function SetCourseFields(c: Course, body: CourseCreate, at: Timestamp): Course {
    c.(courseName := body.courseName, departmentId := body.departmentId, semester := body.semester,
       classLabel := body.classLabel, lectureHours := body.lectureHours, updatedAt := at)
  }

  /**
   * `create_course`: 422 for a body out of range; an unhandled error when the
   * department id is not an object id; 404 when the department is absent; an
   * unhandled error when the lecture hours do not fit the encoder; otherwise
   * exactly one course is inserted, and nothing in any failure.
   */
  method CreateCourse(db: Database, body: CourseCreate, at: Timestamp, newId: Id) returns (r: Response<CourseView>)
    requires db.Valid()
    requires IsOid(newId) && newId !in db.courses.docs
    modifies db.courses
    ensures db.Valid()
    ensures !ValidateCourse(body).Ok? ==> r.Unprocessable?
    ensures ValidateCourse(body).Ok? && !ValidId(body.departmentId) ==> r == Unhandled(InvalidObjectId)
    ensures ValidateCourse(body).Ok? && ValidId(body.departmentId) && Oid(body.departmentId) !in db.departments.docs ==>
              r == NotFound(DepartmentNotFound)
    ensures (ValidateCourse(body).Ok? && ValidId(body.departmentId) && Oid(body.departmentId) in db.departments.docs &&
             !FitsInt64(body.lectureHours)) ==> r == Unhandled(IntTooWide)
    ensures r.Ok? <==> && ValidateCourse(body).Ok? && ValidId(body.departmentId)
                       && Oid(body.departmentId) in db.departments.docs && FitsInt64(body.lectureHours)
    ensures !r.Ok? ==> db.courses.docs == old(db.courses.docs)
    ensures r.Ok? ==>
              && db.courses.docs == old(db.courses.docs)[newId := NewCourse(body, at)]
              && GetCourse(db.courses.docs, newId) == r
    ensures ReferencesResolve(db.departments.docs, old(db.courses.docs), db.students.docs) ==>
              ReferencesResolve(db.departments.docs, db.courses.docs, db.students.docs)
  {
    var valid := ValidateCourse(body);
    if !valid.Ok? {
      return Unprocessable(valid.msg);
    }
    if !ValidId(body.departmentId) {
      return Unhandled(InvalidObjectId);
    }
    if Oid(body.departmentId) !in db.departments.docs {
      return NotFound(DepartmentNotFound);
    }
    if !FitsInt64(body.lectureHours) {
      return Unhandled(IntTooWide);
    }
    db.courses.InsertOne(NewCourse(body, at), newId);
    var created := db.courses.docs[newId];
    r := Ok(CourseViewOf(newId, created));
    FindAfterInsert(old(db.courses.docs), newId, created, CourseViewOf, InvalidCourseId, CourseNotFound);
  }

  /** `get_all_courses`: every stored course and nothing else. */
  function ListCourses(courses: map<Id, Course>): (r: map<Id, CourseView>)
    ensures r.Keys == courses.Keys
    ensures forall k :: k in r ==> r[k] == CourseViewOf(k, courses[k])
  {
    ListAll(courses, CourseViewOf)
  }

  /** `get_course`: 400 for a malformed id, 404 for a missing course, else the stored course. */
  function GetCourse(courses: map<Id, Course>, courseId: string): (r: Response<CourseView>)
    ensures !ValidId(courseId) ==> r == BadRequest(InvalidCourseId)
    ensures ValidId(courseId) && Oid(courseId) !in courses ==> r == NotFound(CourseNotFound)
    ensures ValidId(courseId) && Oid(courseId) in courses ==> r == Ok(CourseViewOf(Oid(courseId), courses[Oid(courseId)]))
  {
    FindById(courses, courseId, CourseViewOf, InvalidCourseId, CourseNotFound)
  }

  /**
   * `update_course`: 422 for a body out of range, then 400 for a malformed
   * path id, then the department check, then an unhandled error when the
   * lecture hours do not fit the encoder (the `$set` is encoded before any
   * match), and only then 404 when no course matched. A matched course gets
   * the five body fields and the new `updated_at`; its submitter is kept.
   */
  method UpdateCourse(db: Database, courseId: string, body: CourseCreate, at: Timestamp) returns (r: Response<CourseView>)
    requires db.Valid()
    modifies db.courses
    ensures db.Valid()
    ensures !ValidateCourse(body).Ok? ==> r.Unprocessable?
    ensures ValidateCourse(body).Ok? && !ValidId(courseId) ==> r == BadRequest(InvalidCourseId)
    ensures ValidateCourse(body).Ok? && ValidId(courseId) && !ValidId(body.departmentId) ==> r == Unhandled(InvalidObjectId)
    ensures ValidateCourse(body).Ok? && ValidId(courseId) && ValidId(body.departmentId) ==>
              && (Oid(body.departmentId) !in db.departments.docs ==> r == NotFound(DepartmentNotFound))
              && (Oid(body.departmentId) in db.departments.docs && !FitsInt64(body.lectureHours) ==>
                    r == Unhandled(IntTooWide))
              && ((Oid(body.departmentId) in db.departments.docs && FitsInt64(body.lectureHours) &&
                   Oid(courseId) !in old(db.courses.docs)) ==> r == NotFound(CourseNotFound))
    ensures r.Ok? <==> && ValidateCourse(body).Ok? && ValidId(courseId) && ValidId(body.departmentId)
                       && Oid(body.departmentId) in db.departments.docs && FitsInt64(body.lectureHours)
                       && Oid(courseId) in old(db.courses.docs)
    ensures !r.Ok? ==> db.courses.docs == old(db.courses.docs)
    ensures r.Ok? ==>
              var k := Oid(courseId);
              var c' := SetCourseFields(old(db.courses.docs)[k], body, at);
              && db.courses.docs == old(db.courses.docs)[k := c']
              && r == Ok(CourseViewOf(k, c'))
    ensures ReferencesResolve(db.departments.docs, old(db.courses.docs), db.students.docs) ==>
              ReferencesResolve(db.departments.docs, db.courses.docs, db.students.docs)
  {
    var valid := ValidateCourse(body);
    if !valid.Ok? {
      return Unprocessable(valid.msg);
    }
    if !ValidId(courseId) {
      return BadRequest(InvalidCourseId);
    }
    if !ValidId(body.departmentId) {
      return Unhandled(InvalidObjectId);
    }
    if Oid(body.departmentId) !in db.departments.docs {
      return NotFound(DepartmentNotFound);
    }
    if !FitsInt64(body.lectureHours) {
      return Unhandled(IntTooWide);
    }
    var k := Oid(courseId);
    var matchedCount := db.courses.UpdateOne(k, (c: Course) => SetCourseFields(c, body, at));
    if matchedCount == 0 {
      return NotFound(CourseNotFound);
    }
    var updated := db.courses.docs[k];
    r := Ok(CourseViewOf(k, updated));
  }

  /**
   * `delete_course`: removes that course and no other document; the
   * attendance records that name it stay in the log.
   */
  method DeleteCourse(db: Database, courseId: string) returns (r: Response<()>)
    requires db.Valid()
    modifies db.courses
    ensures db.Valid()
    ensures !ValidId(courseId) ==> r == BadRequest(InvalidCourseId) && db.courses.docs == old(db.courses.docs)
    ensures ValidId(courseId) && Oid(courseId) !in old(db.courses.docs) ==>
              r == NotFound(CourseNotFound) && db.courses.docs == old(db.courses.docs)
    ensures ValidId(courseId) && Oid(courseId) in old(db.courses.docs) ==>
              r == Ok(()) && db.courses.docs == old(db.courses.docs) - {Oid(courseId)}
    ensures db.attendanceLog.docs == old(db.attendanceLog.docs)
  {
    r := DeleteById(db.courses, courseId, InvalidCourseId, CourseNotFound);
  }
}
