/**
 * The attendance router. A mark names a student and a course, both of which
 * must exist; the server stamps it with the current epoch second, and a
 * second mark for the same student and course in that same second is
 * refused. The "same day" of the message is therefore the same second.
 * Lists filter the log by the raw student or course id string; statistics
 * count a course's records and the present ones among them.
 */
module Attendance {
  import opened Common
  import opened Models
  import opened DocumentStore
  import opened Crud
  import Students
  import Courses

  const InvalidAttendanceId: string := "Invalid attendance ID"
  const RecordNotFound: string := "Attendance record not found"
  const AlreadyMarked: string := "Attendance already marked for this student today"

  /** `find_one({"student_id": s, "course_id": c, "date": date})` finds a record. */
  predicate MarkedAt(log: map<Id, AttendanceRecord>, studentId: string, courseId: string, date: int) {
    exists k | k in log :: log[k].studentId == studentId && log[k].courseId == courseId && log[k].date == date
  }

  /** At most one record per student, course and second. */
  ghost predicate UniqueMarks(log: map<Id, AttendanceRecord>) {
    forall j, k :: j in log && k in log && j != k ==>
      !(log[j].studentId == log[k].studentId && log[j].courseId == log[k].courseId && log[j].date == log[k].date)
  }

  /** The document `mark_attendance` inserts: the body's three fields, the date `now`, the placeholder submitter. */
  function NewRecord(body: AttendanceCreate, now: int, at: Timestamp): AttendanceRecord {
    AttendanceRecord(body.studentId, body.courseId, body.present, now, System, at)
  }

  /** The `$set` of `update_attendance`: student, course, mark and `updated_at`; the date and submitter stay. */
  function SetRecordFields(a: AttendanceRecord, body: AttendanceCreate, at: Timestamp): AttendanceRecord {
    a.(studentId := body.studentId, courseId := body.courseId, present := body.present, updatedAt := at)
  }

  /**
   * `mark_attendance`. The student is checked before the course; for each,
   * a string that is not an object id makes `ObjectId(...)` raise, and an
   * absent document gives 404. Then a record for the same student, course
   * and second gives 400. Otherwise exactly one record is added, dated
   * `now`, and no other record changes. The log is untouched on failure.
   */
  method MarkAttendance(db: Database, body: AttendanceCreate, now: int, at: Timestamp, newId: Id)
    returns (r: Response<AttendanceView>)
    requires db.Valid()
    requires IsOid(newId) && newId !in db.attendanceLog.docs
    modifies db.attendanceLog
    ensures db.Valid()
    ensures !ValidId(body.studentId) ==> r == Unhandled(InvalidObjectId)
    ensures ValidId(body.studentId) && Oid(body.studentId) !in db.students.docs ==> r == NotFound(Students.StudentNotFound)
    ensures ValidId(body.studentId) && Oid(body.studentId) in db.students.docs ==>
              && (!ValidId(body.courseId) ==> r == Unhandled(InvalidObjectId))
              && (ValidId(body.courseId) && Oid(body.courseId) !in db.courses.docs ==> r == NotFound(Courses.CourseNotFound))
              && ((ValidId(body.courseId) && Oid(body.courseId) in db.courses.docs &&
                   MarkedAt(old(db.attendanceLog.docs), body.studentId, body.courseId, now)) ==> r == BadRequest(AlreadyMarked))
    ensures r.Ok? <==> && ValidId(body.studentId) && Oid(body.studentId) in db.students.docs
                       && ValidId(body.courseId) && Oid(body.courseId) in db.courses.docs
                       && !MarkedAt(old(db.attendanceLog.docs), body.studentId, body.courseId, now)
    ensures !r.Ok? ==> db.attendanceLog.docs == old(db.attendanceLog.docs)
    ensures r.Ok? ==>
              var a := NewRecord(body, now, at);
              && db.attendanceLog.docs == old(db.attendanceLog.docs)[newId := a]
              && |db.attendanceLog.docs| == |old(db.attendanceLog.docs)| + 1
              && r == Ok(AttendanceViewOf(newId, a))
    ensures UniqueMarks(old(db.attendanceLog.docs)) ==> UniqueMarks(db.attendanceLog.docs)
  {
    if !ValidId(body.studentId) {
      return Unhandled(InvalidObjectId);
    }
    if Oid(body.studentId) !in db.students.docs {
      return NotFound(Students.StudentNotFound);
    }
    if !ValidId(body.courseId) {
      return Unhandled(InvalidObjectId);
    }
    if Oid(body.courseId) !in db.courses.docs {
      return NotFound(Courses.CourseNotFound);
    }
    var today := now;
    if MarkedAt(db.attendanceLog.docs, body.studentId, body.courseId, today) {
      return BadRequest(AlreadyMarked);
    }
    db.attendanceLog.InsertOne(NewRecord(body, today, at), newId);
    var created := db.attendanceLog.docs[newId];
    r := Ok(AttendanceViewOf(newId, created));
  }

  /** A mark dated `now` blocks exactly its own student, course and second; every other key is as free as before. */
  lemma {:induction false} MarkedAtAfterInsert(log: map<Id, AttendanceRecord>, k: Id, a: AttendanceRecord,
                                               studentId: string, courseId: string, date: int)
    requires k !in log
    ensures MarkedAt(log[k := a], studentId, courseId, date) <==>
              MarkedAt(log, studentId, courseId, date) || (a.studentId == studentId && a.courseId == courseId && a.date == date)
  {
    var log' := log[k := a];
    if MarkedAt(log', studentId, courseId, date) && !(a.studentId == studentId && a.courseId == courseId && a.date == date) {
      var j :| j in log' && log'[j].studentId == studentId && log'[j].courseId == courseId && log'[j].date == date;
      assert j != k && j in log;
    }
    if MarkedAt(log, studentId, courseId, date) {
      var j :| j in log && log[j].studentId == studentId && log[j].courseId == courseId && log[j].date == date;
      assert j in log' && log'[j] == log[j];
    }
    if a.studentId == studentId && a.courseId == courseId && a.date == date {
      assert k in log' && log'[k] == a;
    }
  }

  /**
   * Marking twice: a second mark for the same student and course in the same
   * second is refused, while one in any other second (a second later on the
   * same day, say) is accepted when that second is free.
   */
  method MarkTwice(db: Database, body: AttendanceCreate, now: int, later: int, at: Timestamp, id1: Id, id2: Id)
    returns (first: Response<AttendanceView>, second: Response<AttendanceView>)
    requires db.Valid()
    requires IsOid(id1) && IsOid(id2) && id1 != id2
    requires id1 !in db.attendanceLog.docs && id2 !in db.attendanceLog.docs
    modifies db.attendanceLog
    ensures first.Ok? && later == now ==> second == BadRequest(AlreadyMarked)
    ensures first.Ok? && later != now && !MarkedAt(old(db.attendanceLog.docs), body.studentId, body.courseId, later) ==>
              second.Ok?
  {
    ghost var log0 := db.attendanceLog.docs;
    first := MarkAttendance(db, body, now, at, id1);
    if first.Ok? {
      MarkedAtAfterInsert(log0, id1, NewRecord(body, now, at), body.studentId, body.courseId, later);
    }
    second := MarkAttendance(db, body, later, at, id2);
  }

  /** The records of a log whose raw student id string is `studentId`. */
  function RecordsOfStudent(log: map<Id, AttendanceRecord>, studentId: string): map<Id, AttendanceRecord> {
    map k | k in log && log[k].studentId == studentId :: log[k]
  }

  /** The records of a log whose raw course id string is `courseId`. */
  function RecordsOfCourse(log: map<Id, AttendanceRecord>, courseId: string): map<Id, AttendanceRecord> {
    map k | k in log && log[k].courseId == courseId :: log[k]
  }

  /**
   * `get_student_attendance`: 400 for a malformed id before any lookup, 404
   * when the student is absent, else exactly the records naming that student.
   */
  function StudentAttendance(students: map<Id, Student>, log: map<Id, AttendanceRecord>, studentId: string)
    : (r: Response<map<Id, AttendanceView>>)
    ensures !ValidId(studentId) ==> r == BadRequest(Students.InvalidStudentId)
    ensures ValidId(studentId) && Oid(studentId) !in students ==> r == NotFound(Students.StudentNotFound)
    ensures r.Ok? <==> ValidId(studentId) && Oid(studentId) in students
    ensures r.Ok? ==> forall k :: k in r.value <==> k in log && log[k].studentId == studentId
    ensures r.Ok? ==> forall k :: k in r.value ==> r.value[k] == AttendanceViewOf(k, log[k])
  {
    if !ValidId(studentId) then BadRequest(Students.InvalidStudentId)
    else if Oid(studentId) !in students then NotFound(Students.StudentNotFound)
    else Ok(ListAll(RecordsOfStudent(log, studentId), AttendanceViewOf))
  }

  /**
   * `get_course_attendance`: 400 for a malformed id before any lookup, 404
   * when the course is absent, else exactly the records naming that course.
   */
  function CourseAttendance(courses: map<Id, Course>, log: map<Id, AttendanceRecord>, courseId: string)
    : (r: Response<map<Id, AttendanceView>>)
    ensures !ValidId(courseId) ==> r == BadRequest(Courses.InvalidCourseId)
    ensures ValidId(courseId) && Oid(courseId) !in courses ==> r == NotFound(Courses.CourseNotFound)
    ensures r.Ok? <==> ValidId(courseId) && Oid(courseId) in courses
    ensures r.Ok? ==> forall k :: k in r.value <==> k in log && log[k].courseId == courseId
    ensures r.Ok? ==> forall k :: k in r.value ==> r.value[k] == AttendanceViewOf(k, log[k])
  {
    if !ValidId(courseId) then BadRequest(Courses.InvalidCourseId)
    else if Oid(courseId) !in courses then NotFound(Courses.CourseNotFound)
    else Ok(ListAll(RecordsOfCourse(log, courseId), AttendanceViewOf))
  }

  /** The statistics object; `attendancePercentage` is the exact ratio, before rounding. */
  datatype Stats = Stats(courseId: string, totalRecords: nat, present: nat, absent: nat, attendancePercentage: real)

  /** The ids of the present records among `records`: what `sum(1 for r in records if r["present"])` counts. */
  function PresentIds(records: map<Id, AttendanceRecord>): set<Id> {
    set k | k in records && records[k].present
  }

  lemma PresentAtMostTotal(records: map<Id, AttendanceRecord>)
    ensures |PresentIds(records)| <= |records|
  {
    assert PresentIds(records) <= records.Keys;
    SubsetCardinality(PresentIds(records), records.Keys);
  }

  lemma {:induction false} SubsetCardinality<X>(a: set<X>, b: set<X>)
    requires a <= b
    ensures |a| <= |b|
  {
    if a != {} {
      var x :| x in a;
      SubsetCardinality(a - {x}, b - {x});
    }
  }

  /**
   * `get_attendance_stats`: 400 for a malformed id, 404 for a missing course;
   * otherwise the number of the course's records, the number of present ones,
   * the rest as absent, and the present share as a percentage, which is 0 for
   * a course without records and otherwise lies between 0 and 100.
   */
  function AttendanceStats(courses: map<Id, Course>, log: map<Id, AttendanceRecord>, courseId: string): (r: Response<Stats>)
    ensures !ValidId(courseId) ==> r == BadRequest(Courses.InvalidCourseId)
    ensures ValidId(courseId) && Oid(courseId) !in courses ==> r == NotFound(Courses.CourseNotFound)
    ensures r.Ok? <==> ValidId(courseId) && Oid(courseId) in courses
    ensures r.Ok? ==>
              && r.value.courseId == courseId
              && r.value.totalRecords == |RecordsOfCourse(log, courseId)|
              && r.value.present == |PresentIds(RecordsOfCourse(log, courseId))|
              && r.value.present + r.value.absent == r.value.totalRecords
              && 0.0 <= r.value.attendancePercentage <= 100.0
              && (r.value.totalRecords == 0 ==> r.value.present == 0 && r.value.absent == 0 && r.value.attendancePercentage == 0.0)
              && (r.value.totalRecords > 0 ==>
                    r.value.attendancePercentage * r.value.totalRecords as real == 100.0 * r.value.present as real)
  {
    if !ValidId(courseId) then BadRequest(Courses.InvalidCourseId)
    else if Oid(courseId) !in courses then NotFound(Courses.CourseNotFound)
    else
      var records := RecordsOfCourse(log, courseId);
      if |records| == 0 then
        Ok(Stats(courseId, 0, 0, 0, 0.0))
      else
        var presentCount := |PresentIds(records)|;
        PresentAtMostTotal(records);
        var absentCount := |records| - presentCount;
        Ok(Stats(courseId, |records|, presentCount, absentCount, Percentage(presentCount, |records|)))
  }

  /** `present / total * 100`, exactly. */
  function Percentage(present: nat, total: nat): (p: real)
    requires 0 < total && present <= total
    ensures 0.0 <= p <= 100.0
    ensures p * total as real == 100.0 * present as real
  {
    var ratio := present as real / total as real;
    assert ratio * total as real == present as real;
    assert ratio <= 1.0 by {
      if ratio > 1.0 {
        assert ratio * total as real > 1.0 * total as real;
      }
    }
    ratio * 100.0
  }

  /**
   * Two present marks and one absent mark for a course give 3 records, 2
   * present, 1 absent and 200/3 percent (66.67 once rounded to two places).
   */
  lemma StatsOfTwoPresentOneAbsent(courses: map<Id, Course>, c: string, s: string, k1: Id, k2: Id, k3: Id)
    requires ValidId(c) && Oid(c) in courses
    requires k1 != k2 && k2 != k3 && k1 != k3
    ensures
      var log := map[k1 := AttendanceRecord(s, c, true, 1, System, 0),
                     k2 := AttendanceRecord(s, c, true, 2, System, 0),
                     k3 := AttendanceRecord(s, c, false, 3, System, 0)];
      AttendanceStats(courses, log, c) == Ok(Stats(c, 3, 2, 1, 200.0 / 3.0))
  {
    var log := map[k1 := AttendanceRecord(s, c, true, 1, System, 0),
                   k2 := AttendanceRecord(s, c, true, 2, System, 0),
                   k3 := AttendanceRecord(s, c, false, 3, System, 0)];
    var records := RecordsOfCourse(log, c);
    assert records.Keys == {k1, k2, k3};
    assert |records.Keys| == 3;
    assert PresentIds(records) == {k1, k2};
    var r := AttendanceStats(courses, log, c);
    assert r.value.attendancePercentage * 3.0 == 200.0;
  }

  /**
   * `update_attendance`: 400 for a malformed record id; then the student and
   * the course, named by the body and checked as in marking; then 404 when
   * no record matched. A matched record gets the body's student, course and
   * mark and the new `updated_at`; its date and submitter stay. The
   * student-course-second key is not checked again.
   */
  method UpdateAttendance(db: Database, attendanceId: string, body: AttendanceCreate, at: Timestamp)
    returns (r: Response<AttendanceView>)
    requires db.Valid()
    modifies db.attendanceLog
    ensures db.Valid()
    ensures !ValidId(attendanceId) ==> r == BadRequest(InvalidAttendanceId)
    ensures ValidId(attendanceId) && !ValidId(body.studentId) ==> r == Unhandled(InvalidObjectId)
    ensures ValidId(attendanceId) && ValidId(body.studentId) && Oid(body.studentId) !in db.students.docs ==>
              r == NotFound(Students.StudentNotFound)
    ensures ValidId(attendanceId) && ValidId(body.studentId) && Oid(body.studentId) in db.students.docs ==>
              && (!ValidId(body.courseId) ==> r == Unhandled(InvalidObjectId))
              && (ValidId(body.courseId) && Oid(body.courseId) !in db.courses.docs ==> r == NotFound(Courses.CourseNotFound))
              && ((ValidId(body.courseId) && Oid(body.courseId) in db.courses.docs &&
                   Oid(attendanceId) !in old(db.attendanceLog.docs)) ==> r == NotFound(RecordNotFound))
    ensures r.Ok? <==> && ValidId(attendanceId) && Oid(attendanceId) in old(db.attendanceLog.docs)
                       && ValidId(body.studentId) && Oid(body.studentId) in db.students.docs
                       && ValidId(body.courseId) && Oid(body.courseId) in db.courses.docs
    ensures !r.Ok? ==> db.attendanceLog.docs == old(db.attendanceLog.docs)
    ensures r.Ok? ==>
              var k := Oid(attendanceId);
              var a' := SetRecordFields(old(db.attendanceLog.docs)[k], body, at);
              && db.attendanceLog.docs == old(db.attendanceLog.docs)[k := a']
              && r == Ok(AttendanceViewOf(k, a'))
  {
    if !ValidId(attendanceId) {
      return BadRequest(InvalidAttendanceId);
    }
    if !ValidId(body.studentId) {
      return Unhandled(InvalidObjectId);
    }
    if Oid(body.studentId) !in db.students.docs {
      return NotFound(Students.StudentNotFound);
    }
    if !ValidId(body.courseId) {
      return Unhandled(InvalidObjectId);
    }
    if Oid(body.courseId) !in db.courses.docs {
      return NotFound(Courses.CourseNotFound);
    }
    var k := Oid(attendanceId);
    var matchedCount := db.attendanceLog.UpdateOne(k, (a: AttendanceRecord) => SetRecordFields(a, body, at));
    if matchedCount == 0 {
      return NotFound(RecordNotFound);
    }
    var updated := db.attendanceLog.docs[k];
    r := Ok(AttendanceViewOf(k, updated));
  }

  /**
   * Because update does not check the key, it can move a record onto the
   * student, course and second of another record: two records of one
   * student in one second, for different courses, become duplicates when
   * one is updated to the other's course.
   */
  lemma UpdateCanDuplicateMark()
    ensures exists log: map<Id, AttendanceRecord>, k: Id, body: AttendanceCreate ::
              && UniqueMarks(log) && k in log
              && !UniqueMarks(log[k := SetRecordFields(log[k], body, 0)])
  {
    var j := "000000000000000000000001";
    var k := "000000000000000000000002";
    var log := map[j := AttendanceRecord("s", "c1", true, 7, System, 0),
                   k := AttendanceRecord("s", "c2", true, 7, System, 0)];
    var body := AttendanceCreate("s", "c1", false);
    var log' := log[k := SetRecordFields(log[k], body, 0)];
    assert log'[j].courseId == log'[k].courseId && j != k;
  }

  /**
   * `delete_attendance`: 400 for a malformed id, 404 when nothing was
   * removed; otherwise exactly that record leaves the log.
   */
  method DeleteAttendance(db: Database, attendanceId: string) returns (r: Response<()>)
    requires db.Valid()
    modifies db.attendanceLog
    ensures db.Valid()
    ensures !ValidId(attendanceId) ==> r == BadRequest(InvalidAttendanceId) && db.attendanceLog.docs == old(db.attendanceLog.docs)
    ensures ValidId(attendanceId) && Oid(attendanceId) !in old(db.attendanceLog.docs) ==>
              r == NotFound(RecordNotFound) && db.attendanceLog.docs == old(db.attendanceLog.docs)
    ensures ValidId(attendanceId) && Oid(attendanceId) in old(db.attendanceLog.docs) ==>
              && r == Ok(())
              && db.attendanceLog.docs == old(db.attendanceLog.docs) - {Oid(attendanceId)}
              && |db.attendanceLog.docs| == |old(db.attendanceLog.docs)| - 1
  {
    r := DeleteById(db.attendanceLog, attendanceId, InvalidAttendanceId, RecordNotFound);
  }
}
