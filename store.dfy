/**
 * The document store the routers talk to: one collection per entity, each a
 * map from a canonical object id to a document. The three mutating
 * primitives are those the routers call on a collection: `insert_one`,
 * `update_one` with a `$set` patch (reporting how many documents matched)
 * and `delete_one` (reporting how many were removed). Lookups by id and
 * scans by field are reads of `docs`. The driver encodes every document as
 * BSON, whose widest integer is a signed 8-byte one; the handlers that write
 * an unbounded integer check that limit before the write.
 */
module DocumentStore {
  import opened Common
  import opened Models

  class Collection<T> {
    var docs: map<Id, T>

    /** Every key is the canonical spelling of an object id. */
    ghost predicate Valid()
      reads this
    {
      forall k :: k in docs ==> IsOid(k)
    }

    constructor ()
      ensures Valid() && docs == map[]
    {
      docs := map[];
    }

    /**
     * `insert_one`: the driver generates a fresh object id for the new
     * document; here that id is supplied by the caller, fresh by requirement.
     */
    method InsertOne(doc: T, id: Id)
      requires Valid()
      requires IsOid(id) && id !in docs
      modifies this
      ensures Valid()
      ensures docs == old(docs)[id := doc]
    {
      docs := docs[id := doc];
    }

    /** `update_one({"_id": key}, {"$set": ...})`: at most one document matches its id. */
    method UpdateOne(key: Id, patch: T -> T) returns (matchedCount: nat)
      requires Valid()
      modifies this
      ensures Valid()
      ensures matchedCount == if key in old(docs) then 1 else 0
      ensures key in old(docs) ==> docs == old(docs)[key := patch(old(docs)[key])]
      ensures key !in old(docs) ==> docs == old(docs)
    {
      if key in docs {
        docs := docs[key := patch(docs[key])];
        matchedCount := 1;
      } else {
        matchedCount := 0;
      }
    }

    /** `delete_one({"_id": key})`. */
    method DeleteOne(key: Id) returns (deletedCount: nat)
      requires Valid()
      modifies this
      ensures Valid()
      ensures deletedCount == if key in old(docs) then 1 else 0
      ensures docs == old(docs) - {key}
    {
      deletedCount := if key in docs then 1 else 0;
      docs := docs - {key};
    }
  }

  /** The application's database handle. */
  class Database {
    const departments: Collection<Department>
    const courses: Collection<Course>
    const students: Collection<Student>
    const users: Collection<User>
    const attendanceLog: Collection<AttendanceRecord>

    /**
     * What every write keeps: canonical keys, the placeholder submitter on
     * every document, the course body's constraints on every stored course
     * (with lecture hours that fit the encoder), and an allowed type on every
     * stored user; all are checked on create and on update. The email syntax
     * is not kept here: its check is a parameter of each user handler.
     */
    ghost predicate Valid()
      reads this, departments, courses, students, users, attendanceLog
    {
      && departments.Valid() && courses.Valid() && students.Valid() && users.Valid() && attendanceLog.Valid()
      && (forall k :: k in departments.docs ==> departments.docs[k].submittedBy == System)
      && (forall k :: k in courses.docs ==> CourseStored(courses.docs[k]))
      && (forall k :: k in students.docs ==> students.docs[k].submittedBy == System)
      && (forall k :: k in users.docs ==> UserStored(users.docs[k]))
      && (forall k :: k in attendanceLog.docs ==> attendanceLog.docs[k].submittedBy == System)
    }

    constructor ()
      ensures Valid()
      ensures fresh(departments) && fresh(courses) && fresh(students) && fresh(users) && fresh(attendanceLog)
      ensures departments.docs == map[] && courses.docs == map[] && students.docs == map[]
      ensures users.docs == map[] && attendanceLog.docs == map[]
    {
      departments := new Collection();
      courses := new Collection();
      students := new Collection();
      users := new Collection();
      attendanceLog := new Collection();
    }
  }

  /** The widest integer the driver's BSON encoder writes: a signed 8-byte int. */
  const MaxInt64: int := 0x7fff_ffff_ffff_ffff

  predicate FitsInt64(n: int) {
    -MaxInt64 - 1 <= n <= MaxInt64
  }

  /** The encoder's error for a wider integer, which escapes the handler as a 500. */
  const IntTooWide: string := "Internal Server Error"

  predicate CourseStored(c: Course) {
    SemesterInRange(c.semester) && c.lectureHours >= 0 && FitsInt64(c.lectureHours) && c.submittedBy == System
  }

  predicate UserStored(u: User) {
    IsUserType(u.userType) && u.submittedBy == System
  }
}
