/**
 * The documents kept in each collection, the request bodies that create or
 * replace them, and the response shapes the routers return.
 *
 * Request bodies are validated before a handler runs; a body that breaks a
 * field constraint is answered with 422 and never reaches the handler.
 * Response shapes are field whitelists: whatever a stored document holds
 * beyond them (the user's password digest, the attendance date) is dropped.
 */
module Models {
  import opened Common

  // Stored documents, one datatype per collection.

  datatype Department = Department(departmentName: string, submittedBy: string, updatedAt: Timestamp)

  datatype Course = Course(
    courseName: string,
    departmentId: string,
    semester: int,
    classLabel: string,
    lectureHours: int,
    submittedBy: string,
    updatedAt: Timestamp)

  datatype Student = Student(
    fullName: string,
    departmentId: string,
    classLabel: string,
    submittedBy: string,
    updatedAt: Timestamp)

  /** `password` holds the digest of the password, never the plaintext. */
  datatype User = User(
    fullName: string,
    username: string,
    email: string,
    password: string,
    userType: string,
    submittedBy: string,
    updatedAt: Timestamp)

  /** `date` is the epoch second at which the mark was made. */
  datatype AttendanceRecord = AttendanceRecord(
    studentId: string,
    courseId: string,
    present: bool,
    date: int,
    submittedBy: string,
    updatedAt: Timestamp)

  // Request bodies.

  datatype DepartmentCreate = DepartmentCreate(departmentName: string)

  datatype CourseCreate = CourseCreate(
    courseName: string,
    departmentId: string,
    semester: int,
    classLabel: string,
    lectureHours: int)

  datatype StudentCreate = StudentCreate(fullName: string, departmentId: string, classLabel: string)

  datatype UserCreate = UserCreate(
    fullName: string,
    username: string,
    email: string,
    password: string,
    userType: string)

  /** The client names the student, the course and the mark; the server chooses the date. */
  datatype AttendanceCreate = AttendanceCreate(studentId: string, courseId: string, present: bool)

  // Response shapes.

  datatype DepartmentView = DepartmentView(id: Id, departmentName: string, submittedBy: string, updatedAt: Timestamp)

  datatype CourseView = CourseView(
    id: Id,
    courseName: string,
    departmentId: string,
    semester: int,
    classLabel: string,
    lectureHours: int,
    submittedBy: string,
    updatedAt: Timestamp)

  datatype StudentView = StudentView(
    id: Id,
    fullName: string,
    departmentId: string,
    classLabel: string,
    submittedBy: string,
    updatedAt: Timestamp)

  /** No password field. */
  datatype UserView = UserView(
    id: Id,
    fullName: string,
    username: string,
    email: string,
    userType: string,
    submittedBy: string,
    updatedAt: Timestamp)

  /** No date field. */
  datatype AttendanceView = AttendanceView(
    id: Id,
    studentId: string,
    courseId: string,
    present: bool,
    submittedBy: string,
    updatedAt: Timestamp)

  function DepartmentViewOf(id: Id, d: Department): DepartmentView {
    DepartmentView(id, d.departmentName, d.submittedBy, d.updatedAt)
  }

  function CourseViewOf(id: Id, c: Course): CourseView {
    CourseView(id, c.courseName, c.departmentId, c.semester, c.classLabel, c.lectureHours, c.submittedBy, c.updatedAt)
  }

  function StudentViewOf(id: Id, s: Student): StudentView {
    StudentView(id, s.fullName, s.departmentId, s.classLabel, s.submittedBy, s.updatedAt)
  }

  function UserViewOf(id: Id, u: User): UserView {
    UserView(id, u.fullName, u.username, u.email, u.userType, u.submittedBy, u.updatedAt)
  }

  function AttendanceViewOf(id: Id, a: AttendanceRecord): AttendanceView {
    AttendanceView(id, a.studentId, a.courseId, a.present, a.submittedBy, a.updatedAt)
  }

  // Field constraints of the request bodies.

  predicate SemesterInRange(semester: int) {
    1 <= semester <= 8
  }

  predicate IsUserType(t: string) {
    t == "admin" || t == "faculty" || t == "student"
  }

  /** Validation of a course body: semester in 1..8 and non-negative lecture hours, or 422. */
  function ValidateCourse(c: CourseCreate): (r: Response<CourseCreate>)
    ensures r.Ok? <==> SemesterInRange(c.semester) && c.lectureHours >= 0
    ensures r.Ok? ==> r.value == c
    ensures !r.Ok? ==> r.Unprocessable?
  {
    if !SemesterInRange(c.semester) then Unprocessable("semester")
    else if c.lectureHours < 0 then Unprocessable("lecture_hours")
    else Ok(c)
  }

  /**
   * Validation of a user body, field by field in declaration order: the
   * email must be an address and the type exactly admin, faculty or student,
   * or 422. `parseEmail` is the email-syntax library behind `EmailStr`: it
   * gives the normalised spelling of an address, or `None` for a string that
   * is not one. The body that passes carries the normalised email.
   */
  function ValidateUser(u: UserCreate, parseEmail: string -> Option<string>): (r: Response<UserCreate>)
    ensures r.Ok? <==> parseEmail(u.email).Some? && IsUserType(u.userType)
    ensures r.Ok? ==> r.value == u.(email := parseEmail(u.email).value)
    ensures !r.Ok? ==> r.Unprocessable?
  {
    match parseEmail(u.email)
    case None => Unprocessable("email")
    case Some(address) =>
      if IsUserType(u.userType) then Ok(u.(email := address)) else Unprocessable("type")
  }

  /** Two users look the same to every client exactly when they differ at most in their password. */
  lemma UserViewHidesExactlyPassword(id: Id, u: User, u': User)
    ensures UserViewOf(id, u) == UserViewOf(id, u') <==> u.(password := u'.password) == u'
  {
  }

  /** Two attendance records look the same to every client exactly when they differ at most in their date. */
  lemma AttendanceViewHidesExactlyDate(id: Id, a: AttendanceRecord, a': AttendanceRecord)
    ensures AttendanceViewOf(id, a) == AttendanceViewOf(id, a') <==> a.(date := a'.date) == a'
  {
  }
}
