/** The mutations in the shape of the source: statements that lock and read, check, write,
    re-read and append to the audit log, over tables that they change in place
    (admin_academic_data/service.py:57-346 and repository.py:188-322). Every refusal
    precedes the first write, so rolling back has nothing to undo. */
module AcademicService {
  import opened Wrappers
  import opened AcademicData
  import opened AcademicHistory
  import opened AcademicOutcomes
  import opened AcademicAudit

  // ----- the tables and the repository's writing statements

  lemma DeletedSoFar(rows: seq<Assignment>, kept: seq<Assignment>, i: nat, id: Id)
    requires i < |rows|
    requires kept + WithoutOffering(rows[i..], id) == WithoutOffering(rows, id)
    ensures (if rows[i].offeringId == id then kept else kept + [rows[i]]) + WithoutOffering(rows[i + 1..], id)
         == WithoutOffering(rows, id)
  {
    assert rows[i..][1..] == rows[i + 1..];
  }

  class AcademicDatabase {
    const refs: References
    var courses: map<Id, Course>
    var offerings: map<Id, Offering>
    var courseLecturers: seq<Assignment>
    var courseEnrolments: seq<Enrolment>
    var timetableEntries: map<Id, TimetableEntry>
    var auditLog: seq<AuditEntry>

    function Rows(): Tables
      reads this
    {
      Tables(courses, offerings, courseLecturers, courseEnrolments, timetableEntries)
    }

    function Contents(): Store
      reads this
    {
      Store(Rows(), auditLog)
    }

    // The tables are well formed, and the log is their complete history: it rebuilds them,
    // its old values are right, and the enrolment counts can be read off it.
    ghost predicate Valid()
      reads this
    {
      WellFormed(refs, Rows()) && History(Contents())
    }

    constructor (refs: References)
      ensures Valid() && this.refs == refs && Contents() == Store(EMPTY_TABLES, [])
    {
      this.refs := refs;
      courses, offerings, timetableEntries := map[], map[], map[];
      courseLecturers, courseEnrolments, auditLog := [], [], [];
      new;
      EmptyHistory();
    }

    method InsertCourse(id: Id, course: Course) returns (violation: bool)
      modifies this`courses
      ensures violation <==> id in old(courses)
      ensures courses == if violation then old(courses) else old(courses)[id := course]
    {
      violation := id in courses;
      if !violation {
        courses := courses[id := course];
      }
    }

    method UpdateCourse(id: Id, course: Course) returns (updated: bool)
      modifies this`courses
      ensures updated <==> id in old(courses)
      ensures courses == if updated then old(courses)[id := course] else old(courses)
    {
      updated := id in courses;
      if updated {
        courses := courses[id := course];
      }
    }

    method InsertOffering(id: Id, offering: Offering) returns (violation: bool)
      modifies this`offerings
      ensures violation <==> id in old(offerings)
      ensures offerings == if violation then old(offerings) else old(offerings)[id := offering]
    {
      violation := id in offerings;
      if !violation {
        offerings := offerings[id := offering];
      }
    }

    method UpdateOffering(id: Id, offering: Offering) returns (updated: bool)
      modifies this`offerings
      ensures updated <==> id in old(offerings)
      ensures offerings == if updated then old(offerings)[id := offering] else old(offerings)
    {
      updated := id in offerings;
      if updated {
        offerings := offerings[id := offering];
      }
    }

    // DELETE every assignment of the offering, then INSERT the new one.
    method SetOfferingLecturer(id: Id, lecturerId: Id)
      modifies this`courseLecturers
      ensures Rows() == AcademicData.SetOfferingLecturer(old(Rows()), id, lecturerId)
    {
      var rows, kept: seq<Assignment> := courseLecturers, [];
      for i := 0 to |rows|
        invariant kept + WithoutOffering(rows[i..], id) == WithoutOffering(rows, id)
      {
        DeletedSoFar(rows, kept, i, id);
        if rows[i].offeringId != id {
          kept := kept + [rows[i]];
        }
      }
      assert kept + [] == kept;
      courseLecturers := kept + [Assignment(id, lecturerId)];
    }

    method EnrolStudent(id: Id, offeringId: Id, studentId: Id) returns (violation: bool)
      modifies this`courseEnrolments
      ensures violation <==> UpsertEnrolment(old(Rows()), id, offeringId, studentId).Err?
      ensures violation ==> courseEnrolments == old(courseEnrolments)
      ensures !violation ==> UpsertEnrolment(old(Rows()), id, offeringId, studentId) == Ok(Rows())
    {
      violation := false;
      var i := EnrolmentIndex(courseEnrolments, offeringId, studentId);
      if i < |courseEnrolments| {
        courseEnrolments := courseEnrolments[i := courseEnrolments[i].(status := "enrolled")];
      } else if EnrolmentIdTaken(courseEnrolments, id) {
        violation := true;
      } else {
        courseEnrolments := courseEnrolments + [Enrolment(id, offeringId, studentId, "enrolled")];
      }
    }

    // UPDATE every row of the pair; there is at most one.
    method DropEnrolment(offeringId: Id, studentId: Id) returns (updated: bool)
      requires Valid()
      modifies this`courseEnrolments
      ensures Rows() == AcademicData.DropEnrolment(old(Rows()), offeringId, studentId)
      ensures updated <==> EnrolmentIndex(old(courseEnrolments), offeringId, studentId) < |old(courseEnrolments)|
    {
      var at := EnrolmentIndex(courseEnrolments, offeringId, studentId);
      ghost var start := courseEnrolments;
      updated := false;
      for i := 0 to |courseEnrolments|
        invariant |courseEnrolments| == |start|
        invariant updated <==> at < i
        invariant courseEnrolments == if at < i then start[at := start[at].(status := "dropped")] else start
      {
        if courseEnrolments[i].offeringId == offeringId && courseEnrolments[i].studentId == studentId {
          assert start[i].offeringId == offeringId && start[i].studentId == studentId;
          courseEnrolments := courseEnrolments[i := courseEnrolments[i].(status := "dropped")];
          updated := true;
        }
      }
    }

    method InsertTimetableEntry(id: Id, entry: TimetableEntry) returns (violation: bool)
      modifies this`timetableEntries
      ensures violation <==> id in old(timetableEntries)
      ensures timetableEntries == if violation then old(timetableEntries) else old(timetableEntries)[id := entry]
    {
      violation := id in timetableEntries;
      if !violation {
        timetableEntries := timetableEntries[id := entry];
      }
    }

    method UpdateTimetableEntry(id: Id, entry: TimetableEntry) returns (updated: bool)
      modifies this`timetableEntries
      ensures updated <==> id in old(timetableEntries)
      ensures timetableEntries == if updated then old(timetableEntries)[id := entry] else old(timetableEntries)
    {
      updated := id in timetableEntries;
      if updated {
        timetableEntries := timetableEntries[id := entry];
      }
    }

    method DeactivateTimetableEntry(id: Id) returns (updated: bool)
      modifies this`timetableEntries
      ensures updated <==> id in old(timetableEntries)
      ensures timetableEntries
           == if updated then old(timetableEntries)[id := old(timetableEntries)[id].(status := "inactive")]
              else old(timetableEntries)
    {
      updated := id in timetableEntries;
      if updated {
        timetableEntries := timetableEntries[id := timetableEntries[id].(status := "inactive")];
      }
    }

    method WriteAuditLog(actor: Id, action: Action, id: Id, oldValues: Option<Snapshot>, newValues: Snapshot)
      modifies this`auditLog
      ensures auditLog == old(auditLog) + [AuditEntry(actor, action, id, oldValues, newValues)]
    {
      auditLog := auditLog + [AuditEntry(actor, action, id, oldValues, newValues)];
    }
  }

  // ----- the service

  function Answer(result: Result<Change, AcademicError>): Result<Snapshot, AcademicError> {
    match result
    case Ok(change) => Ok(change.newValues)
    case Err(error) => Err(error)
  }

  // The call committed the transaction of `op`, or refused it and changed nothing, and
  // returned the snapshot that the log now ends with.
  ghost predicate Transacted(refs: References, before: Store, actor: Id, op: Operation, now: Store,
                             result: Result<Snapshot, AcademicError>)
  {
    && now == Transact(refs, before, actor, op)
    && result == Answer(Execute(refs, before.tables, op))
  }

  lemma TransactedMeans(refs: References, before: Store, actor: Id, op: Operation, now: Store,
                        result: Result<Snapshot, AcademicError>)
    requires WellFormed(refs, before.tables) && Transacted(refs, before, actor, op, now, result)
    ensures WellFormed(refs, now.tables) && result != Err(AssertionFailed)
    ensures result.Err? ==> now == before
    ensures result.Ok? ==> |now.log| == |before.log| + 1 && now.log[..|before.log|] == before.log
                           && now.log[|before.log|].actor == actor && now.log[|before.log|].newValues == result.value
    ensures result.Ok? ==> Delivers(before.tables, op, result.value)
                           && Labels(op, now.log[|before.log|].action, now.log[|before.log|].entityId, result.value)
    ensures forall entity :: result == Err(NotFound(entity)) <==> Misses(refs, before.tables, op, entity)
    ensures result.Ok? <==> !Clashes(before.tables, op) && forall entity :: !Misses(refs, before.tables, op, entity)
  {
    ExecuteKeeps(refs, before.tables, op);
    CommitsWhatWasAsked(refs, before.tables, op);
    OutcomesAreExact(refs, before.tables, op);
  }

  class AdminAcademicDataService {
    const database: AcademicDatabase

    constructor (database: AcademicDatabase)
      ensures this.database == database
    {
      this.database := database;
    }

    method CreateCourse(actor: Id, newId: Id, course: Course) returns (result: Result<Snapshot, AcademicError>)
      requires database.Valid()
      modifies database
      ensures database.Valid()
      ensures Transacted(database.refs, old(database.Contents()), actor, Operation.CreateCourse(newId, course),
                         database.Contents(), result)
    {
      TransactKeeps(database.refs, database.Contents(), actor, Operation.CreateCourse(newId, course));
      if course.departmentId !in database.refs.departments {
        return Err(NotFound("department"));
      }
      if CourseCodeExists(database.Rows(), course.code, None) {
        return Err(Conflict);
      }
      var violation := database.InsertCourse(newId, course.(code := Upper(course.code)));
      if violation {
        return Err(Conflict);
      }
      var created := FindCourse(database.Rows(), newId);
      assert created.Some?;
      database.WriteAuditLog(actor, CourseCreate, newId, None, created.value);
      return Ok(created.value);
    }

    method UpdateCourse(actor: Id, id: Id, course: Course) returns (result: Result<Snapshot, AcademicError>)
      requires database.Valid()
      modifies database
      ensures database.Valid()
      ensures Transacted(database.refs, old(database.Contents()), actor, Operation.UpdateCourse(id, course),
                         database.Contents(), result)
    {
      TransactKeeps(database.refs, database.Contents(), actor, Operation.UpdateCourse(id, course));
      var before := FindCourse(database.Rows(), id);
      if before.None? {
        return Err(NotFound("course"));
      }
      if course.departmentId !in database.refs.departments {
        return Err(NotFound("department"));
      }
      if CourseCodeExists(database.Rows(), course.code, Some(id)) {
        return Err(Conflict);
      }
      var _ := database.UpdateCourse(id, course.(code := Upper(course.code)));
      var after := FindCourse(database.Rows(), id);
      assert after.Some?;
      database.WriteAuditLog(actor, CourseUpdate, id, before, after.value);
      return Ok(after.value);
    }

    method CreateOffering(actor: Id, newId: Id, offering: Offering, lecturerId: Id) returns (result: Result<Snapshot, AcademicError>)
      requires database.Valid()
      modifies database
      ensures database.Valid()
      ensures Transacted(database.refs, old(database.Contents()), actor, Operation.CreateOffering(newId, offering, lecturerId),
                         database.Contents(), result)
    {
      TransactKeeps(database.refs, database.Contents(), actor, Operation.CreateOffering(newId, offering, lecturerId));
      if offering.courseId !in database.courses {
        return Err(NotFound("course"));
      }
      if offering.semesterId !in database.refs.semesters {
        return Err(NotFound("semester"));
      }
      if lecturerId !in database.refs.lecturers {
        return Err(NotFound("lecturer"));
      }
      if NaturalKeyExists(database.Rows(), offering, None) {
        return Err(Conflict);
      }
      var violation := database.InsertOffering(newId, offering);
      if violation {
        return Err(Conflict);
      }
      database.SetOfferingLecturer(newId, lecturerId);
      var created := FindOffering(database.refs, database.Rows(), newId);
      assert created.Some?;
      database.WriteAuditLog(actor, OfferingCreate, newId, None, created.value);
      return Ok(created.value);
    }

    method UpdateOffering(actor: Id, id: Id, offering: Offering, lecturerId: Id) returns (result: Result<Snapshot, AcademicError>)
      requires database.Valid()
      modifies database
      ensures database.Valid()
      ensures Transacted(database.refs, old(database.Contents()), actor, Operation.UpdateOffering(id, offering, lecturerId),
                         database.Contents(), result)
    {
      TransactKeeps(database.refs, database.Contents(), actor, Operation.UpdateOffering(id, offering, lecturerId));
      var before := FindOffering(database.refs, database.Rows(), id);
      if before.None? {
        return Err(NotFound("course offering"));
      }
      if offering.courseId !in database.courses {
        return Err(NotFound("course"));
      }
      if offering.semesterId !in database.refs.semesters {
        return Err(NotFound("semester"));
      }
      if lecturerId !in database.refs.lecturers {
        return Err(NotFound("lecturer"));
      }
      if NaturalKeyExists(database.Rows(), offering, Some(id)) {
        return Err(Conflict);
      }
      var _ := database.UpdateOffering(id, offering);
      database.SetOfferingLecturer(id, lecturerId);
      var after := FindOffering(database.refs, database.Rows(), id);
      assert after.Some?;
      database.WriteAuditLog(actor, OfferingUpdate, id, before, after.value);
      return Ok(after.value);
    }

    method AssignLecturer(actor: Id, id: Id, lecturerId: Id) returns (result: Result<Snapshot, AcademicError>)
      requires database.Valid()
      modifies database
      ensures database.Valid()
      ensures Transacted(database.refs, old(database.Contents()), actor, Operation.AssignLecturer(id, lecturerId),
                         database.Contents(), result)
    {
      TransactKeeps(database.refs, database.Contents(), actor, Operation.AssignLecturer(id, lecturerId));
      var before := FindOffering(database.refs, database.Rows(), id);
      if before.None? {
        return Err(NotFound("course offering"));
      }
      if lecturerId !in database.refs.lecturers {
        return Err(NotFound("lecturer"));
      }
      database.SetOfferingLecturer(id, lecturerId);
      var after := FindOffering(database.refs, database.Rows(), id);
      assert after.Some?;
      database.WriteAuditLog(actor, OfferingAssignLecturer, id, before, after.value);
      return Ok(after.value);
    }

    method EnrolStudent(actor: Id, newId: Id, offeringId: Id, studentId: Id) returns (result: Result<Snapshot, AcademicError>)
      requires database.Valid()
      modifies database
      ensures database.Valid()
      ensures Transacted(database.refs, old(database.Contents()), actor, Operation.EnrolStudent(newId, offeringId, studentId),
                         database.Contents(), result)
    {
      TransactKeeps(database.refs, database.Contents(), actor, Operation.EnrolStudent(newId, offeringId, studentId));
      if offeringId !in database.offerings {
        return Err(NotFound("course offering"));
      }
      if studentId !in database.refs.students {
        return Err(NotFound("student"));
      }
      var before := FindEnrolment(database.refs, database.Rows(), offeringId, studentId);
      if before.Some? && before.value.enrolment.status == "enrolled" {
        return Err(Conflict);
      }
      var enrolmentId := if before.Some? then before.value.enrolment.id else newId;
      ghost var upserted := UpsertEnrolment(database.Rows(), enrolmentId, offeringId, studentId);
      var violation := database.EnrolStudent(enrolmentId, offeringId, studentId);
      if violation {
        return Err(Conflict);
      }
      assert database.Rows() == upserted.value;
      var after := FindEnrolment(database.refs, database.Rows(), offeringId, studentId);
      assert after.Some?;
      database.WriteAuditLog(actor, EnrolmentEnrol, after.value.enrolment.id, before, after.value);
      return Ok(after.value);
    }

    method DropStudent(actor: Id, offeringId: Id, studentId: Id) returns (result: Result<Snapshot, AcademicError>)
      requires database.Valid()
      modifies database
      ensures database.Valid()
      ensures Transacted(database.refs, old(database.Contents()), actor, Operation.DropStudent(offeringId, studentId),
                         database.Contents(), result)
    {
      TransactKeeps(database.refs, database.Contents(), actor, Operation.DropStudent(offeringId, studentId));
      var before := FindEnrolment(database.refs, database.Rows(), offeringId, studentId);
      if before.None? {
        return Err(NotFound("enrolment"));
      }
      var _ := database.DropEnrolment(offeringId, studentId);
      var after := FindEnrolment(database.refs, database.Rows(), offeringId, studentId);
      assert after.Some?;
      database.WriteAuditLog(actor, EnrolmentDrop, after.value.enrolment.id, before, after.value);
      return Ok(after.value);
    }

    method CreateTimetableEntry(actor: Id, newId: Id, entry: TimetableEntry) returns (result: Result<Snapshot, AcademicError>)
      requires database.Valid()
      modifies database
      ensures database.Valid()
      ensures Transacted(database.refs, old(database.Contents()), actor, Operation.CreateTimetableEntry(newId, entry),
                         database.Contents(), result)
    {
      TransactKeeps(database.refs, database.Contents(), actor, Operation.CreateTimetableEntry(newId, entry));
      if entry.offeringId !in database.offerings {
        return Err(NotFound("course offering"));
      }
      if entry.classroomId !in database.refs.classrooms {
        return Err(NotFound("classroom"));
      }
      if SlotExists(database.Rows(), entry, None) {
        return Err(Conflict);
      }
      var violation := database.InsertTimetableEntry(newId, entry);
      if violation {
        return Err(Conflict);
      }
      var created := FindTimetableEntry(database.Rows(), newId);
      assert created.Some?;
      database.WriteAuditLog(actor, TimetableCreate, newId, None, created.value);
      return Ok(created.value);
    }

    method UpdateTimetableEntry(actor: Id, id: Id, entry: TimetableEntry) returns (result: Result<Snapshot, AcademicError>)
      requires database.Valid()
      modifies database
      ensures database.Valid()
      ensures Transacted(database.refs, old(database.Contents()), actor, Operation.UpdateTimetableEntry(id, entry),
                         database.Contents(), result)
    {
      TransactKeeps(database.refs, database.Contents(), actor, Operation.UpdateTimetableEntry(id, entry));
      var before := FindTimetableEntry(database.Rows(), id);
      if before.None? {
        return Err(NotFound("timetable entry"));
      }
      if entry.offeringId !in database.offerings {
        return Err(NotFound("course offering"));
      }
      if entry.classroomId !in database.refs.classrooms {
        return Err(NotFound("classroom"));
      }
      if SlotExists(database.Rows(), entry, Some(id)) {
        return Err(Conflict);
      }
      var _ := database.UpdateTimetableEntry(id, entry);
      var after := FindTimetableEntry(database.Rows(), id);
      assert after.Some?;
      database.WriteAuditLog(actor, TimetableUpdate, id, before, after.value);
      return Ok(after.value);
    }

    method DeactivateTimetableEntry(actor: Id, id: Id) returns (result: Result<Snapshot, AcademicError>)
      requires database.Valid()
      modifies database
      ensures database.Valid()
      ensures Transacted(database.refs, old(database.Contents()), actor, Operation.DeactivateTimetableEntry(id),
                         database.Contents(), result)
    {
      TransactKeeps(database.refs, database.Contents(), actor, Operation.DeactivateTimetableEntry(id));
      var before := FindTimetableEntry(database.Rows(), id);
      if before.None? {
        return Err(NotFound("timetable entry"));
      }
      var _ := database.DeactivateTimetableEntry(id);
      var after := FindTimetableEntry(database.Rows(), id);
      assert after.Some?;
      database.WriteAuditLog(actor, TimetableDeactivate, id, before, after.value);
      return Ok(after.value);
    }
  }
}
