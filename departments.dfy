/**
 * The departments router. Departments have no parent, so create has nothing
 * to check; delete does not look at the courses and students that name the
 * department, which may therefore be left pointing at nothing.
 */
module Departments {
  import opened Common
  import opened Models
  import opened DocumentStore
  import opened Crud

  const InvalidDepartmentId: string := "Invalid department ID"
  const DepartmentNotFound: string := "Department not found"

  /** Every course and student names a department that exists. The routers check this on write only. */
  ghost predicate ReferencesResolve(departments: map<Id, Department>, courses: map<Id, Course>, students: map<Id, Student>) {
    && (forall k :: k in courses ==> ValidId(courses[k].departmentId) && Oid(courses[k].departmentId) in departments)
    && (forall k :: k in students ==> ValidId(students[k].departmentId) && Oid(students[k].departmentId) in departments)
  }

  /** The document `create_department` inserts for a body. */
  function NewDepartment(body: DepartmentCreate, at: Timestamp): Department {
    Department(body.departmentName, System, at)
  }

  /** The `$set` of `update_department`: the name and `updated_at`; the submitter stays. */
  function SetDepartmentFields(d: Department, body: DepartmentCreate, at: Timestamp): Department {
    d.(departmentName := body.departmentName, updatedAt := at)
  }

  /** `create_department`: always inserts one department stamped by the placeholder submitter. */
  method CreateDepartment(db: Database, body: DepartmentCreate, at: Timestamp, newId: Id) returns (r: Response<DepartmentView>)
    requires db.Valid()
    requires IsOid(newId) && newId !in db.departments.docs
    modifies db.departments
    ensures db.Valid()
    ensures db.departments.docs == old(db.departments.docs)[newId := NewDepartment(body, at)]
    ensures r == Ok(DepartmentView(newId, body.departmentName, System, at))
    ensures GetDepartment(db.departments.docs, newId) == r
  {
    db.departments.InsertOne(NewDepartment(body, at), newId);
    var created := db.departments.docs[newId];
    r := Ok(DepartmentViewOf(newId, created));
    FindAfterInsert(old(db.departments.docs), newId, created, DepartmentViewOf, InvalidDepartmentId, DepartmentNotFound);
  }

  /** `get_all_departments`: every stored department and nothing else. */
  function ListDepartments(departments: map<Id, Department>): (r: map<Id, DepartmentView>)
    ensures r.Keys == departments.Keys
    ensures forall k :: k in r ==> r[k] == DepartmentViewOf(k, departments[k])
  {
    ListAll(departments, DepartmentViewOf)
  }

  /** `get_department`: 400 for a malformed id, 404 for a missing department, else the stored department. */
  function GetDepartment(departments: map<Id, Department>, deptId: string): (r: Response<DepartmentView>)
    ensures !ValidId(deptId) ==> r == BadRequest(InvalidDepartmentId)
    ensures ValidId(deptId) && Oid(deptId) !in departments ==> r == NotFound(DepartmentNotFound)
    ensures ValidId(deptId) && Oid(deptId) in departments ==>
              r == Ok(DepartmentViewOf(Oid(deptId), departments[Oid(deptId)]))
  {
    FindById(departments, deptId, DepartmentViewOf, InvalidDepartmentId, DepartmentNotFound)
  }

  /**
   * `update_department`: replaces the name and bumps `updated_at`, keeping
   * the submitter; 404 when `update_one` matched nothing.
   */
  method UpdateDepartment(db: Database, deptId: string, body: DepartmentCreate, at: Timestamp)
    returns (r: Response<DepartmentView>)
    requires db.Valid()
    modifies db.departments
    ensures db.Valid()
    ensures !ValidId(deptId) ==> r == BadRequest(InvalidDepartmentId) && db.departments.docs == old(db.departments.docs)
    ensures ValidId(deptId) && Oid(deptId) !in old(db.departments.docs) ==>
              r == NotFound(DepartmentNotFound) && db.departments.docs == old(db.departments.docs)
    ensures ValidId(deptId) && Oid(deptId) in old(db.departments.docs) ==>
              var k := Oid(deptId);
              var d := SetDepartmentFields(old(db.departments.docs)[k], body, at);
              && db.departments.docs == old(db.departments.docs)[k := d]
              && r == Ok(DepartmentViewOf(k, d))
  {
    if !ValidId(deptId) {
      return BadRequest(InvalidDepartmentId);
    }
    var k := Oid(deptId);
    var matchedCount := db.departments.UpdateOne(k, (d: Department) => SetDepartmentFields(d, body, at));
    if matchedCount == 0 {
      return NotFound(DepartmentNotFound);
    }
    var updated := db.departments.docs[k];
    r := Ok(DepartmentViewOf(k, updated));
  }

  /**
   * `delete_department`: removes that department and no other document; the
   * courses and students that name it stay as they were.
   */
  method DeleteDepartment(db: Database, deptId: string) returns (r: Response<()>)
    requires db.Valid()
    modifies db.departments
    ensures db.Valid()
    ensures !ValidId(deptId) ==> r == BadRequest(InvalidDepartmentId) && db.departments.docs == old(db.departments.docs)
    ensures ValidId(deptId) && Oid(deptId) !in old(db.departments.docs) ==>
              r == NotFound(DepartmentNotFound) && db.departments.docs == old(db.departments.docs)
    ensures ValidId(deptId) && Oid(deptId) in old(db.departments.docs) ==>
              r == Ok(()) && db.departments.docs == old(db.departments.docs) - {Oid(deptId)}
    ensures db.courses.docs == old(db.courses.docs) && db.students.docs == old(db.students.docs)
  {
    r := DeleteById(db.departments, deptId, InvalidDepartmentId, DepartmentNotFound);
  }

  /**
   * Deleting a department that a course or a student names leaves that
   * course or student pointing at nothing: the store allows dangling
   * department references.
   */
  lemma DeleteDepartmentOrphans(departments: map<Id, Department>, courses: map<Id, Course>, students: map<Id, Student>, deptId: string)
    requires ValidId(deptId) && Oid(deptId) in departments
    requires (exists c :: c in courses && courses[c].departmentId == deptId)
          || (exists s :: s in students && students[s].departmentId == deptId)
    ensures !ReferencesResolve(departments - {Oid(deptId)}, courses, students)
  {
  }
}
