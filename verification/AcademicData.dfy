/** The academic tables and the audit log behind the administrator's screens, with each
    mutation as one transaction (admin_academic_data/service.py and repository.py).
    A course, offering or timetable row is keyed by its primary key; enrolments and
    lecturer assignments are rows in insertion order. Departments, semesters, lecturers,
    students and classrooms belong to others and do not change here. */
module AcademicData {
  import opened Wrappers

  type Id = nat

  datatype References = References(departments: set<Id>, semesters: set<Id>, lecturers: set<Id>,
                                   students: set<Id>, classrooms: set<Id>)

  datatype Course = Course(code: string, name: string, departmentId: Id, credits: real, status: string)

  datatype Offering = Offering(courseId: Id, semesterId: Id, batchYear: int, courseType: string,
                               attendanceThreshold: real, status: string)

  datatype Assignment = Assignment(offeringId: Id, lecturerId: Id)

  datatype Enrolment = Enrolment(id: Id, offeringId: Id, studentId: Id, status: string)

  datatype TimetableEntry = TimetableEntry(offeringId: Id, classroomId: Id, dayOfWeek: int, startTime: int, endTime: int,
                                           courseType: string, validFrom: int, validUntil: Option<int>, status: string)

  datatype Tables = Tables(courses: map<Id, Course>, offerings: map<Id, Offering>, assignments: seq<Assignment>,
                           enrolments: seq<Enrolment>, timetable: map<Id, TimetableEntry>)

  // A record's own columns as the audit log keeps them; an offering's include its lecturer.
  datatype Snapshot =
    | CourseSnapshot(course: Course)
    | OfferingSnapshot(offering: Offering, lecturerId: Option<Id>)
    | EnrolmentSnapshot(enrolment: Enrolment)
    | TimetableSnapshot(entry: TimetableEntry)

  datatype Action = CourseCreate | CourseUpdate | OfferingCreate | OfferingUpdate | OfferingAssignLecturer
                  | EnrolmentEnrol | EnrolmentDrop | TimetableCreate | TimetableUpdate | TimetableDeactivate

  datatype AuditEntry = AuditEntry(actor: Id, action: Action, entityId: Id, oldValues: Option<Snapshot>,
                                   newValues: Snapshot)

  datatype Store = Store(tables: Tables, log: seq<AuditEntry>)

  datatype AcademicError = NotFound(entity: string) | Conflict | AssertionFailed

  datatype Operation =
    | CreateCourse(newId: Id, course: Course)
    | UpdateCourse(id: Id, course: Course)
    | CreateOffering(newId: Id, offering: Offering, lecturerId: Id)
    | UpdateOffering(id: Id, offering: Offering, lecturerId: Id)
    | AssignLecturer(id: Id, lecturerId: Id)
    | EnrolStudent(newId: Id, offeringId: Id, studentId: Id)
    | DropStudent(offeringId: Id, studentId: Id)
    | CreateTimetableEntry(newId: Id, entry: TimetableEntry)
    | UpdateTimetableEntry(id: Id, entry: TimetableEntry)
    | DeactivateTimetableEntry(id: Id)

  // What a transaction that does not raise commits.
  datatype Change = Change(tables: Tables, action: Action, entityId: Id, oldValues: Option<Snapshot>,
                           newValues: Snapshot)

  const EMPTY_TABLES := Tables(map[], map[], [], [], map[])

  // ----- the repository's reads

  function UpperChar(c: char): char {
    if 'a' <= c <= 'z' then c - 32 as char else c
  }

  function Upper(s: string): string {
    if s == "" then "" else [UpperChar(s[0])] + Upper(s[1..])
  }

  // Another course has the code, whatever its case.
  predicate CourseCodeExists(t: Tables, code: string, exclude: Option<Id>) {
    exists id :: id in t.courses && Upper(t.courses[id].code) == Upper(code) && Some(id) != exclude
  }

  predicate SameNaturalKey(a: Offering, b: Offering) {
    a.courseId == b.courseId && a.semesterId == b.semesterId && a.batchYear == b.batchYear && a.courseType == b.courseType
  }

  predicate NaturalKeyExists(t: Tables, offering: Offering, exclude: Option<Id>) {
    exists id :: id in t.offerings && SameNaturalKey(t.offerings[id], offering) && Some(id) != exclude
  }

  predicate SameSlot(a: TimetableEntry, b: TimetableEntry) {
    a.offeringId == b.offeringId && a.dayOfWeek == b.dayOfWeek && a.startTime == b.startTime && a.validFrom == b.validFrom
  }

  predicate SlotExists(t: Tables, entry: TimetableEntry, exclude: Option<Id>) {
    exists id :: id in t.timetable && SameSlot(t.timetable[id], entry) && Some(id) != exclude
  }

  function LecturersOf(assignments: seq<Assignment>, offeringId: Id): seq<Id> {
    if assignments == [] then []
    else (if assignments[0].offeringId == offeringId then [assignments[0].lecturerId] else [])
         + LecturersOf(assignments[1..], offeringId)
  }

  // The lateral join: the earliest assignment, if any.
  function LecturerOf(t: Tables, offeringId: Id): Option<Id> {
    var lecturers := LecturersOf(t.assignments, offeringId);
    if lecturers == [] then None else Some(lecturers[0])
  }

  function FindCourse(t: Tables, id: Id): Option<Snapshot> {
    if id in t.courses then Some(CourseSnapshot(t.courses[id])) else None
  }

  // Inner joins: a row whose course or semester is missing is not found.
  function FindOffering(refs: References, t: Tables, id: Id): Option<Snapshot> {
    if id in t.offerings && t.offerings[id].courseId in t.courses && t.offerings[id].semesterId in refs.semesters
    then Some(OfferingSnapshot(t.offerings[id], LecturerOf(t, id))) else None
  }

  function FindTimetableEntry(t: Tables, id: Id): Option<Snapshot> {
    if id in t.timetable && t.timetable[id].offeringId in t.offerings
       && t.offerings[t.timetable[id].offeringId].courseId in t.courses
    then Some(TimetableSnapshot(t.timetable[id])) else None
  }

  function EnrolmentIndex(rows: seq<Enrolment>, offeringId: Id, studentId: Id): (i: nat)
    ensures i <= |rows|
    ensures i < |rows| ==> rows[i].offeringId == offeringId && rows[i].studentId == studentId
    ensures forall k :: 0 <= k < i ==> !(rows[k].offeringId == offeringId && rows[k].studentId == studentId)
  {
    if rows == [] then 0
    else if rows[0].offeringId == offeringId && rows[0].studentId == studentId then 0
    else 1 + EnrolmentIndex(rows[1..], offeringId, studentId)
  }

  function FindEnrolment(refs: References, t: Tables, offeringId: Id, studentId: Id): Option<Snapshot> {
    var i := EnrolmentIndex(t.enrolments, offeringId, studentId);
    if i < |t.enrolments| && studentId in refs.students && offeringId in t.offerings
       && t.offerings[offeringId].courseId in t.courses && t.offerings[offeringId].semesterId in refs.semesters
    then Some(EnrolmentSnapshot(t.enrolments[i])) else None
  }

  function EnrolledCount(rows: seq<Enrolment>, offeringId: Id): nat {
    if rows == [] then 0
    else (if rows[0].offeringId == offeringId && rows[0].status == "enrolled" then 1 else 0)
         + EnrolledCount(rows[1..], offeringId)
  }

  // ----- the repository's writes

  function WithoutOffering(assignments: seq<Assignment>, offeringId: Id): seq<Assignment> {
    if assignments == [] then []
    else (if assignments[0].offeringId == offeringId then [] else [assignments[0]])
         + WithoutOffering(assignments[1..], offeringId)
  }

  // DELETE the offering's assignments, then INSERT one.
  function SetOfferingLecturer(t: Tables, offeringId: Id, lecturerId: Id): Tables {
    t.(assignments := WithoutOffering(t.assignments, offeringId) + [Assignment(offeringId, lecturerId)])
  }

  predicate EnrolmentIdTaken(rows: seq<Enrolment>, id: Id) {
    exists i :: 0 <= i < |rows| && rows[i].id == id
  }

  // Marks the pair's row as enrolled, or adds one under the given id.
  function UpsertEnrolment(t: Tables, id: Id, offeringId: Id, studentId: Id): Result<Tables, AcademicError> {
    var i := EnrolmentIndex(t.enrolments, offeringId, studentId);
    if i < |t.enrolments| then Ok(t.(enrolments := t.enrolments[i := t.enrolments[i].(status := "enrolled")]))
    else if EnrolmentIdTaken(t.enrolments, id) then Err(Conflict)
    else Ok(t.(enrolments := t.enrolments + [Enrolment(id, offeringId, studentId, "enrolled")]))
  }

  function DropEnrolment(t: Tables, offeringId: Id, studentId: Id): Tables {
    var i := EnrolmentIndex(t.enrolments, offeringId, studentId);
    if i < |t.enrolments| then t.(enrolments := t.enrolments[i := t.enrolments[i].(status := "dropped")]) else t
  }

  // ----- the transactions

  // Re-read after the write; the service asserts that it finds something.
  function Committed(t: Tables, action: Action, id: Id, before: Option<Snapshot>, after: Option<Snapshot>)
    : Result<Change, AcademicError>
  {
    if after.None? then Err(AssertionFailed) else Ok(Change(t, action, id, before, after.value))
  }

  function DoCreateCourse(refs: References, t: Tables, newId: Id, course: Course): Result<Change, AcademicError> {
    if course.departmentId !in refs.departments then Err(NotFound("department"))
    else if CourseCodeExists(t, course.code, None) then Err(Conflict)
    else if newId in t.courses then Err(Conflict)
    else
      var after := t.(courses := t.courses[newId := course.(code := Upper(course.code))]);
      Committed(after, CourseCreate, newId, None, FindCourse(after, newId))
  }

  function DoUpdateCourse(refs: References, t: Tables, id: Id, course: Course): Result<Change, AcademicError> {
    var before := FindCourse(t, id);
    if before.None? then Err(NotFound("course"))
    else if course.departmentId !in refs.departments then Err(NotFound("department"))
    else if CourseCodeExists(t, course.code, Some(id)) then Err(Conflict)
    else
      var after := t.(courses := t.courses[id := course.(code := Upper(course.code))]);
      Committed(after, CourseUpdate, id, before, FindCourse(after, id))
  }

  function MissingOfferingReference(refs: References, t: Tables, offering: Offering, lecturerId: Id): Option<AcademicError> {
    if offering.courseId !in t.courses then Some(NotFound("course"))
    else if offering.semesterId !in refs.semesters then Some(NotFound("semester"))
    else if lecturerId !in refs.lecturers then Some(NotFound("lecturer"))
    else None
  }

  function DoCreateOffering(refs: References, t: Tables, newId: Id, offering: Offering, lecturerId: Id)
    : Result<Change, AcademicError>
  {
    var missing := MissingOfferingReference(refs, t, offering, lecturerId);
    if missing.Some? then Err(missing.value)
    else if NaturalKeyExists(t, offering, None) then Err(Conflict)
    else if newId in t.offerings then Err(Conflict)
    else
      var inserted := t.(offerings := t.offerings[newId := offering]);
      var after := SetOfferingLecturer(inserted, newId, lecturerId);
      Committed(after, OfferingCreate, newId, None, FindOffering(refs, after, newId))
  }

  function DoUpdateOffering(refs: References, t: Tables, id: Id, offering: Offering, lecturerId: Id)
    : Result<Change, AcademicError>
  {
    var before := FindOffering(refs, t, id);
    var missing := MissingOfferingReference(refs, t, offering, lecturerId);
    if before.None? then Err(NotFound("course offering"))
    else if missing.Some? then Err(missing.value)
    else if NaturalKeyExists(t, offering, Some(id)) then Err(Conflict)
    else
      var after := SetOfferingLecturer(t.(offerings := t.offerings[id := offering]), id, lecturerId);
      Committed(after, OfferingUpdate, id, before, FindOffering(refs, after, id))
  }

  function DoAssignLecturer(refs: References, t: Tables, id: Id, lecturerId: Id): Result<Change, AcademicError> {
    var before := FindOffering(refs, t, id);
    if before.None? then Err(NotFound("course offering"))
    else if lecturerId !in refs.lecturers then Err(NotFound("lecturer"))
    else
      var after := SetOfferingLecturer(t, id, lecturerId);
      Committed(after, OfferingAssignLecturer, id, before, FindOffering(refs, after, id))
  }

  function DoEnrolStudent(refs: References, t: Tables, newId: Id, offeringId: Id, studentId: Id)
    : Result<Change, AcademicError>
  {
    if offeringId !in t.offerings then Err(NotFound("course offering"))
    else if studentId !in refs.students then Err(NotFound("student"))
    else
      var before := FindEnrolment(refs, t, offeringId, studentId);
      if before.Some? && before.value.enrolment.status == "enrolled" then Err(Conflict)
      else
        match UpsertEnrolment(t, if before.Some? then before.value.enrolment.id else newId, offeringId, studentId)
        case Err(error) => Err(error)
        case Ok(after) =>
          var found := FindEnrolment(refs, after, offeringId, studentId);
          if found.None? then Err(AssertionFailed)
          else Committed(after, EnrolmentEnrol, found.value.enrolment.id, before, found)
  }

  function DoDropStudent(refs: References, t: Tables, offeringId: Id, studentId: Id): Result<Change, AcademicError> {
    var before := FindEnrolment(refs, t, offeringId, studentId);
    if before.None? then Err(NotFound("enrolment"))
    else
      var after := DropEnrolment(t, offeringId, studentId);
      var found := FindEnrolment(refs, after, offeringId, studentId);
      if found.None? then Err(AssertionFailed)
      else Committed(after, EnrolmentDrop, found.value.enrolment.id, before, found)
  }

  function MissingTimetableReference(refs: References, t: Tables, entry: TimetableEntry): Option<AcademicError> {
    if entry.offeringId !in t.offerings then Some(NotFound("course offering"))
    else if entry.classroomId !in refs.classrooms then Some(NotFound("classroom"))
    else None
  }

  function DoCreateTimetableEntry(refs: References, t: Tables, newId: Id, entry: TimetableEntry)
    : Result<Change, AcademicError>
  {
    var missing := MissingTimetableReference(refs, t, entry);
    if missing.Some? then Err(missing.value)
    else if SlotExists(t, entry, None) then Err(Conflict)
    else if newId in t.timetable then Err(Conflict)
    else
      var after := t.(timetable := t.timetable[newId := entry]);
      Committed(after, TimetableCreate, newId, None, FindTimetableEntry(after, newId))
  }

  function DoUpdateTimetableEntry(refs: References, t: Tables, id: Id, entry: TimetableEntry): Result<Change, AcademicError> {
    var before := FindTimetableEntry(t, id);
    var missing := MissingTimetableReference(refs, t, entry);
    if before.None? then Err(NotFound("timetable entry"))
    else if missing.Some? then Err(missing.value)
    else if SlotExists(t, entry, Some(id)) then Err(Conflict)
    else
      var after := t.(timetable := t.timetable[id := entry]);
      Committed(after, TimetableUpdate, id, before, FindTimetableEntry(after, id))
  }

  function DoDeactivateTimetableEntry(t: Tables, id: Id): Result<Change, AcademicError> {
    var before := FindTimetableEntry(t, id);
    if before.None? then Err(NotFound("timetable entry"))
    else
      var after := t.(timetable := t.timetable[id := t.timetable[id].(status := "inactive")]);
      Committed(after, TimetableDeactivate, id, before, FindTimetableEntry(after, id))
  }

  function Execute(refs: References, t: Tables, op: Operation): Result<Change, AcademicError> {
    match op
    case CreateCourse(newId, course) => DoCreateCourse(refs, t, newId, course)
    case UpdateCourse(id, course) => DoUpdateCourse(refs, t, id, course)
    case CreateOffering(newId, offering, lecturerId) => DoCreateOffering(refs, t, newId, offering, lecturerId)
    case UpdateOffering(id, offering, lecturerId) => DoUpdateOffering(refs, t, id, offering, lecturerId)
    case AssignLecturer(id, lecturerId) => DoAssignLecturer(refs, t, id, lecturerId)
    case EnrolStudent(newId, offeringId, studentId) => DoEnrolStudent(refs, t, newId, offeringId, studentId)
    case DropStudent(offeringId, studentId) => DoDropStudent(refs, t, offeringId, studentId)
    case CreateTimetableEntry(newId, entry) => DoCreateTimetableEntry(refs, t, newId, entry)
    case UpdateTimetableEntry(id, entry) => DoUpdateTimetableEntry(refs, t, id, entry)
    case DeactivateTimetableEntry(id) => DoDeactivateTimetableEntry(t, id)
  }

  function EntryOf(actor: Id, change: Change): AuditEntry {
    AuditEntry(actor, change.action, change.entityId, change.oldValues, change.newValues)
  }

  // A transaction either commits its rows together with its log entry, or leaves no trace.
  function Transact(refs: References, store: Store, actor: Id, op: Operation): Store {
    var result := Execute(refs, store.tables, op);
    if result.Ok? then Store(result.value.tables, store.log + [EntryOf(actor, result.value)]) else store
  }

  datatype Request = Request(actor: Id, op: Operation)

  function After(refs: References, requests: seq<Request>): Store {
    if requests == [] then Store(EMPTY_TABLES, [])
    else
      var last := requests[|requests| - 1];
      Transact(refs, After(refs, requests[..|requests| - 1]), last.actor, last.op)
  }
}
