/**
 * The students router. A student names its department by id; create and
 * update insist that the department exists at that moment. The body has no
 * field constraints, so the order is: path id, department, then the store.
 */
module Students {
  import opened Common
  import opened Models
  import opened DocumentStore
  import opened Crud
  import opened Departments

  const InvalidStudentId: string := "Invalid student ID"
  const StudentNotFound: string := "Student not found"

  /** The document `create_student` inserts for a body. */
  function NewStudent(body: StudentCreate, at: Timestamp): Student {
    Student(body.fullName, body.departmentId, body.classLabel, System, at)
  }

  /** The `$set` of `update_student`: full name, department, class and `updated_at`; the submitter stays. */
  function SetStudentFields(s: Student, body: StudentCreate, at: Timestamp): Student {
    s.(fullName := body.fullName, departmentId := body.departmentId, classLabel := body.classLabel, updatedAt := at)
  }

  /**
   * `create_student`: an unhandled error when the department id is not an
   * object id; 404 when the department is absent; otherwise exactly one
   * student is inserted, and nothing in either failure.
   */
  method CreateStudent(db: Database, body: StudentCreate, at: Timestamp, newId: Id) returns (r: Response<StudentView>)
    requires db.Valid()
    requires IsOid(newId) && newId !in db.students.docs
    modifies db.students
    ensures db.Valid()
    ensures !ValidId(body.departmentId) ==> r == Unhandled(InvalidObjectId)
    ensures ValidId(body.departmentId) && Oid(body.departmentId) !in db.departments.docs ==> r == NotFound(DepartmentNotFound)
    ensures r.Ok? <==> ValidId(body.departmentId) && Oid(body.departmentId) in db.departments.docs
    ensures !r.Ok? ==> db.students.docs == old(db.students.docs)
    ensures r.Ok? ==>
              && db.students.docs == old(db.students.docs)[newId := NewStudent(body, at)]
              && GetStudent(db.students.docs, newId) == r
    ensures ReferencesResolve(db.departments.docs, db.courses.docs, old(db.students.docs)) ==>
              ReferencesResolve(db.departments.docs, db.courses.docs, db.students.docs)
  {
    if !ValidId(body.departmentId) {
      return Unhandled(InvalidObjectId);
    }
    if Oid(body.departmentId) !in db.departments.docs {
      return NotFound(DepartmentNotFound);
    }
    db.students.InsertOne(NewStudent(body, at), newId);
    var created := db.students.docs[newId];
    r := Ok(StudentViewOf(newId, created));
    FindAfterInsert(old(db.students.docs), newId, created, StudentViewOf, InvalidStudentId, StudentNotFound);
  }

  /** `get_all_students`: every stored student and nothing else. */
  function ListStudents(students: map<Id, Student>): (r: map<Id, StudentView>)
    ensures r.Keys == students.Keys
    ensures forall k :: k in r ==> r[k] == StudentViewOf(k, students[k])
  {
    ListAll(students, StudentViewOf)
  }

  /** `get_student`: 400 for a malformed id, 404 for a missing student, else the stored student. */
  function GetStudent(students: map<Id, Student>, studentId: string): (r: Response<StudentView>)
    ensures !ValidId(studentId) ==> r == BadRequest(InvalidStudentId)
    ensures ValidId(studentId) && Oid(studentId) !in students ==> r == NotFound(StudentNotFound)
    ensures ValidId(studentId) && Oid(studentId) in students ==>
              r == Ok(StudentViewOf(Oid(studentId), students[Oid(studentId)]))
  {
    FindById(students, studentId, StudentViewOf, InvalidStudentId, StudentNotFound)
  }

  /**
   * `update_student`: 400 for a malformed path id, then the department
   * check, and only then 404 when no student matched. A matched student gets
   * the three body fields and the new `updated_at`; its submitter is kept.
   */
  method UpdateStudent(db: Database, studentId: string, body: StudentCreate, at: Timestamp) returns (r: Response<StudentView>)
    requires db.Valid()
    modifies db.students
    ensures db.Valid()
    ensures !ValidId(studentId) ==> r == BadRequest(InvalidStudentId)
    ensures ValidId(studentId) && !ValidId(body.departmentId) ==> r == Unhandled(InvalidObjectId)
    ensures ValidId(studentId) && ValidId(body.departmentId) ==>
              && (Oid(body.departmentId) !in db.departments.docs ==> r == NotFound(DepartmentNotFound))
              && (Oid(body.departmentId) in db.departments.docs && Oid(studentId) !in old(db.students.docs) ==>
                    r == NotFound(StudentNotFound))
    ensures r.Ok? <==> && ValidId(studentId) && ValidId(body.departmentId)
                       && Oid(body.departmentId) in db.departments.docs && Oid(studentId) in old(db.students.docs)
    ensures !r.Ok? ==> db.students.docs == old(db.students.docs)
    ensures r.Ok? ==>
              var k := Oid(studentId);
              var s' := SetStudentFields(old(db.students.docs)[k], body, at);
              && db.students.docs == old(db.students.docs)[k := s']
              && r == Ok(StudentViewOf(k, s'))
    ensures ReferencesResolve(db.departments.docs, db.courses.docs, old(db.students.docs)) ==>
              ReferencesResolve(db.departments.docs, db.courses.docs, db.students.docs)
  {
    if !ValidId(studentId) {
      return BadRequest(InvalidStudentId);
    }
    if !ValidId(body.departmentId) {
      return Unhandled(InvalidObjectId);
    }
    if Oid(body.departmentId) !in db.departments.docs {
      return NotFound(DepartmentNotFound);
    }
    var k := Oid(studentId);
    var matchedCount := db.students.UpdateOne(k, (s: Student) => SetStudentFields(s, body, at));
    if matchedCount == 0 {
      return NotFound(StudentNotFound);
    }
    var updated := db.students.docs[k];
    r := Ok(StudentViewOf(k, updated));
  }

  /**
   * `delete_student`: removes that student and no other document; the
   * student's attendance records stay in the log.
   */
  method DeleteStudent(db: Database, studentId: string) returns (r: Response<()>)
    requires db.Valid()
    modifies db.students
    ensures db.Valid()
    ensures !ValidId(studentId) ==> r == BadRequest(InvalidStudentId) && db.students.docs == old(db.students.docs)
    ensures ValidId(studentId) && Oid(studentId) !in old(db.students.docs) ==>
              r == NotFound(StudentNotFound) && db.students.docs == old(db.students.docs)
    ensures ValidId(studentId) && Oid(studentId) in old(db.students.docs) ==>
              r == Ok(()) && db.students.docs == old(db.students.docs) - {Oid(studentId)}
    ensures db.attendanceLog.docs == old(db.attendanceLog.docs)
  {
    r := DeleteById(db.students, studentId, InvalidStudentId, StudentNotFound);
  }
}
