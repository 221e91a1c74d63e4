# Attendance records service — a Dafny model

This project models the request handlers of a small records service for academic attendance. The service stores departments, courses, students, users and attendance marks in a document store. Each entity has create, list, get, update and delete endpoints, and one report gives attendance statistics for a course.

Every handler runs one request as one sequential step against an in-memory store:

- `DocumentStore.Collection<T>` is one collection. It is a map from a canonical object id to a document. Its three methods are the driver calls the handlers make: `insert_one`, `update_one` with a `$set` patch (returning the matched count) and `delete_one` (returning the deleted count).
- `DocumentStore.Database` holds the five collections. Its `Valid()` invariant is kept by every write. It requires canonical keys, the `"system"` submitter on every document, every stored course within the course body's constraints, and an allowed type on every stored user. Every stored course also has lecture hours that fit a signed 8-byte integer. The email syntax is not part of the invariant, because the email check is a parameter of each user handler.
- Each router is one module: `Departments`, `Courses`, `Students`, `Users`, `Attendance`. Handlers that write are methods that modify exactly one collection. Handlers that only read are functions of the collections. The exception is `Users.GetAllUsers`, a method whose loop mirrors the loop of `get_all_users`.
- `Models` holds the stored documents, the request bodies with their field constraints, and the response shapes. `UserView` has no password field and `AttendanceView` has no date field.
- The four list handlers (`ListDepartments`, `ListCourses`, `ListStudents`, `GetAllUsers`) cannot fail and return the map of responses directly. Every other handler returns a `Common.Response`:
  - `Ok` for 200, 201 or 204;
  - `BadRequest` and `NotFound` for the 400 and 404 the handlers raise;
  - `Unprocessable` for the 422 raised by body validation, which runs before the handler;
  - `Unhandled` for the 500 produced when an exception escapes a handler. This happens when `ObjectId(...)` raises on a malformed id: the mark, attendance-update, course and student handlers convert body ids without checking them first. It also happens when the store's encoder refuses a course's lecture hours wider than 8 bytes.

Object ids: `Common.ValidId` is `ObjectId.is_valid` on a string, meaning exactly 24 hex digits in either case. `Common.Oid` is `str(ObjectId(s))`, the lower-case spelling that the store's keys use. Lookups by id go through `Oid`, so an upper-case spelling finds the same document. The attendance filters compare the raw `student_id`/`course_id` strings stored in the marks. A student looked up by an upper-case id is therefore found, but the marks stored under the lower-case id are not listed for it. The model keeps this behaviour.

The attendance core:

- **Mark.** A mark checks the student and then the course. A second mark for the same student and course with the same `date` is refused, and `date` is the epoch second of the request. So the "today" of the error message is one second, not one calendar day (`Attendance.MarkTwice`).
- **Update.** An update re-checks the student and the course but not the duplicate key, so it can create duplicates (`Attendance.UpdateCanDuplicateMark`).
- **Stats.** Statistics count the course's records and the present ones among them.

Users:

- Registration refuses a taken username, checked before a taken email.
- Update refuses only a username held by another user. It never checks emails, so it can create duplicate emails (`Users.UpdateCanDuplicateEmail`).

Deletes never cascade. Deleting a department can leave courses and students pointing at nothing (`Departments.DeleteDepartmentOrphans`). Deleting a course or a student leaves its attendance marks in the log.

Behaviours of the service that are easy to miss:

- A duplicate mark, a taken username and a taken email all answer 400; the service has no separate conflict status.
- A malformed student, course or department id in a request body is not answered with 400 or 404. It raises inside the handler, which gives 500.
- The course body puts no upper bound on `lecture_hours`, but the store's BSON encoder cannot write an integer wider than 8 bytes. A larger value makes the insert or update raise, which gives 500 with nothing written.

## Model

| member | source | states |
|---|---|---|
| `Common.CanonicalIdRoundTrip` | app/routers/courses.py:27-29 | the id string a create returns is accepted by `ObjectId.is_valid` and converts back to itself |
| `Common.OidIgnoresCase` | app/routers/courses.py:40-43 | two spellings of an id that differ only in letter case look up the same document |
| `Models.ValidateCourse` | app/models.py:22-27 | a course body passes exactly when 1 ≤ semester ≤ 8 and lecture_hours ≥ 0; otherwise 422 |
| `Models.ValidateUser` | app/models.py:64-69 | a user body passes exactly when its email is an address and its type is admin, faculty or student; otherwise 422; the body that passes carries the normalised email |
| `Models.UserViewHidesExactlyPassword` | app/models.py:72-82 | two users give the same response exactly when they differ at most in the password |
| `Models.AttendanceViewHidesExactlyDate` | app/models.py:97-106 | two attendance records give the same response exactly when they differ at most in the date |
| `Crud.FindById` | app/routers/courses.py:39-47 | a get answers 400 exactly for a malformed id, 404 exactly for a valid id with no document, and otherwise the shaped document at that id |
| `Crud.ListAll` | app/routers/courses.py:33-35 | a list holds one shaped entry for every stored document and for nothing else |
| `Crud.FindAfterInsert` | app/routers/courses.py:27-29 | the id returned by an insert reads back exactly the inserted document |
| `Crud.ListAgreesWithFind` | app/routers/courses.py:33-47 | every entry of a list is what a get of its id returns |
| `Crud.FindAfterDelete` | app/routers/courses.py:80-87 | after a delete, a get of that id, in any spelling, is 404 |
| `Crud.DeleteById` | app/routers/courses.py:80-87 | a delete answers 400 for a malformed id and 404 when nothing was removed; otherwise it removes exactly that document |
| `Departments.CreateDepartment` | app/routers/departments.py:16-24 | create always inserts exactly one department with submitted_by "system", and a get of the returned id gives the same response |
| `Departments.ListDepartments` | app/routers/departments.py:28-30 | the list holds every stored department and only those |
| `Departments.GetDepartment` | app/routers/departments.py:34-42 | 400 for a malformed id, 404 for a missing department, else that department |
| `Departments.UpdateDepartment` | app/routers/departments.py:46-63 | 400, then 404 when nothing matched; on success only the name and updated_at of that department change |
| `Departments.DeleteDepartment` | app/routers/departments.py:67-76 | removes only that department; courses and students are unchanged |
| `Departments.DeleteDepartmentOrphans` | app/routers/departments.py:67-76 | deleting a department that some course or student names breaks referential integrity, so dangling references are possible |
| `Courses.CreateCourse` | app/routers/courses.py:11-29 | order of checks: 422 body, 500 for a malformed department id, 404 "Department not found", 500 when lecture_hours does not fit 8 bytes; nothing inserted on failure; on success exactly one course with the five body fields and submitted_by "system"; keeps department references resolved |
| `Courses.ListCourses` | app/routers/courses.py:33-35 | the list holds every stored course and only those |
| `Courses.GetCourse` | app/routers/courses.py:39-47 | 400 for a malformed id, 404 for a missing course, else the stored course |
| `Courses.UpdateCourse` | app/routers/courses.py:51-76 | order of checks: 422, 400 course id, department check, 500 when lecture_hours does not fit 8 bytes, then 404 course; on success the five body fields and updated_at are replaced and submitted_by is kept; nothing changes on failure |
| `Courses.DeleteCourse` | app/routers/courses.py:80-87 | removes only that course; the attendance log is unchanged |
| `Students.CreateStudent` | app/routers/students.py:11-27 | 500 for a malformed department id, 404 for a missing department, nothing inserted on failure; otherwise one student with full_name, department_id, class and submitted_by "system" |
| `Students.ListStudents` | app/routers/students.py:31-33 | the list holds every stored student and only those |
| `Students.GetStudent` | app/routers/students.py:37-45 | 400 for a malformed id, 404 for a missing student, else the stored student |
| `Students.UpdateStudent` | app/routers/students.py:49-72 | order of checks: 400, department, then 404 student; on success only full_name, department_id, class and updated_at change |
| `Students.DeleteStudent` | app/routers/students.py:76-83 | removes only that student; that student's attendance records stay |
| `Users.CreateUser` | app/routers/users.py:19-45 | 422 for a malformed email or a bad type, then 400 "Username already exists" when any user has the username, then 400 "Email already registered" for the normalised email; nothing inserted on failure; the stored email is the normalised one and the stored password is hash_password(password); the response has no password; username and email uniqueness are kept |
| `Users.GetAllUsers` | app/routers/users.py:49-55 | the loop returns every stored user, and only those, each shaped without its password |
| `Users.GetUser` | app/routers/users.py:59-68 | 400 for a malformed id, 404 for a missing user, else the user without its password |
| `Users.UpdateUser` | app/routers/users.py:72-101 | order of checks: 422 (email syntax, type), 400 id, 400 username held by another user (before any 404), then 404; emails are not checked against other users; on success the password is re-digested, the email is stored normalised, the other fields are replaced and submitted_by is kept; username uniqueness is kept |
| `Users.DeleteUser` | app/routers/users.py:105-112 | 400 for a malformed id, 404 when nothing was removed, else removes only that user |
| `Users.OwnUsernameNeverConflicts` | app/routers/users.py:76-81 | re-submitting a user's own username never trips the exclusion check |
| `Users.UpdateKeepsUsernamesUnique` | app/routers/users.py:76-97 | once the exclusion check has passed, writing the user keeps usernames unique |
| `Users.UpdateCanDuplicateEmail` | app/routers/users.py:83-97 | an update that passes every check can give two users the same email |
| `Attendance.MarkAttendance` | app/routers/attendance.py:12-52 | order of checks: student (500 malformed, 404 missing) before course, then 400 for an existing mark with the same student, course and date = now; the log is unchanged on failure; on success exactly one record is added with the body's fields, date = now and submitted_by "system", and no other record changes; keeps marks unique |
| `Attendance.MarkedAtAfterInsert` | app/routers/attendance.py:26-38 | a new mark blocks exactly its own student, course and second; every other key is as free as before |
| `Attendance.MarkTwice` | app/routers/attendance.py:26-38 | a second mark in the same second is refused, while a mark in any other free second, even on the same day, succeeds |
| `Attendance.StudentAttendance` | app/routers/attendance.py:56-68 | 400 before any lookup for a malformed id, 404 for a missing student, else exactly the records whose student_id is that string |
| `Attendance.CourseAttendance` | app/routers/attendance.py:72-84 | 400 before any lookup for a malformed id, 404 for a missing course, else exactly the records whose course_id is that string |
| `Attendance.AttendanceStats` | app/routers/attendance.py:88-120 | 400 and 404 as for the course list; total = number of the course's records, present = number of present ones, present + absent = total, percentage·total = 100·present, percentage in [0, 100], all zero for a course without records |
| `Attendance.PresentAtMostTotal` | app/routers/attendance.py:110-111 | the present count never exceeds the record count, so absent is never negative |
| `Attendance.Percentage` | app/routers/attendance.py:112 | present/total·100 lies in [0, 100] and times total gives 100·present |
| `Attendance.StatsOfTwoPresentOneAbsent` | app/routers/attendance.py:110-119 | two present marks and one absent mark give 3 records, 2 present, 1 absent and 200/3 percent |
| `Attendance.UpdateAttendance` | app/routers/attendance.py:124-154 | order of checks: 400 id, student, course, then 404 record; on success student_id, course_id, present and updated_at are replaced while date and submitted_by stay; nothing changes on failure |
| `Attendance.UpdateCanDuplicateMark` | app/routers/attendance.py:139-148 | update does not re-check the key, so it can turn a log with unique marks into one with a duplicate |
| `Attendance.DeleteAttendance` | app/routers/attendance.py:158-167 | 400 for a malformed id, 404 when nothing was removed; otherwise exactly that record leaves the log |

## Left out

- app/main.py is not part of this model. It builds the FastAPI app, the CORS middleware, the router wiring and the root and health endpoints.
- app/system/database.py is not part of this model. It creates the MongoDB client and reads the environment. `DocumentStore` replaces it.
- `get_db` in app/routers/departments.py is not modelled. It returns the global handle and no handler calls it.
- The `UserLogin` model is not modelled. No handler uses it.
- Concurrency is not modelled. Each request runs as one atomic step, so the read-then-write races are outside the model: two concurrent duplicate marks, or two concurrent registrations of one username or email, could both pass their checks.
- SHA-256 inside `hash_password` is a foreign library call. The handlers take the digest function as a parameter, and the model only uses that it is a function of the plaintext.
- Wall-clock reads are parameters. `now` is the epoch second of `time.time()`, and `at` is the `updated_at` instant of `datetime.utcnow()`.
- Attendance.AttendanceStats: states the exact ratio 100·present/total. `round(..., 2)` on a floating-point value is not modelled, so the model has 200/3 where the service answers 66.67.
- Fresh object ids are a parameter of every create. The requirement that the id is canonical and unused stands for the driver's id generator.
- Lists are returned as maps from id to response. The store's scan order, and the list it implies, are not modelled.
- `ObjectId.is_valid` is modelled as "24 hex digits". Its acceptance of whitespace inside the string, which `bytes.fromhex` skips, is left out.
- The email-syntax library behind `EmailStr` is a foreign call. `Models.ValidateUser` and the two user handlers take it as a parameter that yields the normalised address or nothing; the model relies on no property of its rules.
- pydantic's other input handling is not modelled. This covers type coercion (a numeric string given for `semester`, for example), the `class`/`_id` aliases and the exact wording of 422 messages, which the model replaces with the field name.
