/** What each academic operation delivers when it commits, and why it refuses: the rows are
    the ones asked for, and every conflict is one that the tables could not have absorbed. */
module AcademicOutcomes {
  import opened Wrappers
  import opened AcademicData
  import opened AcademicHistory
  import opened PythonText

  predicate OfPair(row: Enrolment, offeringId: Id, studentId: Id) {
    row.offeringId == offeringId && row.studentId == studentId
  }

  ghost predicate PairHasRow(t: Tables, offeringId: Id, studentId: Id) {
    exists k :: 0 <= k < |t.enrolments| && OfPair(t.enrolments[k], offeringId, studentId)
  }

  // The pair's row keeps its id; a first row gets the generated one.
  ghost predicate HasPairsId(t: Tables, row: Enrolment, newId: Id) {
    && (forall k :: 0 <= k < |t.enrolments| && OfPair(t.enrolments[k], row.offeringId, row.studentId) ==>
          row.id == t.enrolments[k].id)
    && (!PairHasRow(t, row.offeringId, row.studentId) ==> row.id == newId)
  }

  // The course as it was given, but for the case of its code, which is upper.
  ghost predicate IsCourse(snapshot: Snapshot, course: Course) {
    && snapshot.CourseSnapshot?
    && snapshot.course == course.(code := snapshot.course.code)
    && NoLowerCase(snapshot.course.code) && SameText(snapshot.course.code, course.code)
  }

  // The row is the one the operation asks for, over tables where its references exist.
  ghost predicate Delivers(t: Tables, op: Operation, row: Snapshot) {
    match op
    case CreateCourse(_, course) => IsCourse(row, course)
    case UpdateCourse(_, course) => IsCourse(row, course)
    case CreateOffering(_, offering, lecturerId) => row == OfferingSnapshot(offering, Some(lecturerId))
    case UpdateOffering(_, offering, lecturerId) => row == OfferingSnapshot(offering, Some(lecturerId))
    case AssignLecturer(id, lecturerId) => id in t.offerings && row == OfferingSnapshot(t.offerings[id], Some(lecturerId))
    case EnrolStudent(newId, offeringId, studentId) =>
      && row.EnrolmentSnapshot? && OfPair(row.enrolment, offeringId, studentId)
      && row.enrolment.status == "enrolled" && HasPairsId(t, row.enrolment, newId)
    case DropStudent(offeringId, studentId) =>
      && row.EnrolmentSnapshot? && OfPair(row.enrolment, offeringId, studentId)
      && row.enrolment.status == "dropped" && HasPairsId(t, row.enrolment, row.enrolment.id)
      && PairHasRow(t, offeringId, studentId)
    case CreateTimetableEntry(_, entry) => row == TimetableSnapshot(entry)
    case UpdateTimetableEntry(_, entry) => row == TimetableSnapshot(entry)
    case DeactivateTimetableEntry(id) =>
      id in t.timetable && row == TimetableSnapshot(t.timetable[id].(status := "inactive"))
  }

  // What the log calls the operation, and the row it names.
  ghost predicate Labels(op: Operation, action: Action, id: Id, row: Snapshot) {
    match op
    case CreateCourse(newId, _) => action == CourseCreate && id == newId
    case UpdateCourse(given, _) => action == CourseUpdate && id == given
    case CreateOffering(newId, _, _) => action == OfferingCreate && id == newId
    case UpdateOffering(given, _, _) => action == OfferingUpdate && id == given
    case AssignLecturer(given, _) => action == OfferingAssignLecturer && id == given
    case EnrolStudent(_, _, _) => action == EnrolmentEnrol && row.EnrolmentSnapshot? && id == row.enrolment.id
    case DropStudent(_, _) => action == EnrolmentDrop && row.EnrolmentSnapshot? && id == row.enrolment.id
    case CreateTimetableEntry(newId, _) => action == TimetableCreate && id == newId
    case UpdateTimetableEntry(given, _) => action == TimetableUpdate && id == given
    case DeactivateTimetableEntry(given) => action == TimetableDeactivate && id == given
  }

  ghost predicate Fulfils(t: Tables, op: Operation, r: Result<Change, AcademicError>) {
    r.Ok? ==> Delivers(t, op, r.value.newValues) && Labels(op, r.value.action, r.value.entityId, r.value.newValues)
  }

  lemma OfferingDelivered(refs: References, t: Tables, op: Operation)
    requires op.CreateOffering? || op.UpdateOffering? || op.AssignLecturer?
    ensures Fulfils(t, op, Execute(refs, t, op))
  {
    match op {
      case CreateOffering(id, _, lecturerId) => LecturerSet(t, id, lecturerId, id);
      case UpdateOffering(id, _, lecturerId) => LecturerSet(t, id, lecturerId, id);
      case AssignLecturer(id, lecturerId) => LecturerSet(t, id, lecturerId, id);
    }
  }

  // Where the index of a pair stands says whether it has a row.
  lemma PairIndex(t: Tables, offeringId: Id, studentId: Id)
    ensures PairHasRow(t, offeringId, studentId) <==> EnrolmentIndex(t.enrolments, offeringId, studentId) < |t.enrolments|
  {
    var i := EnrolmentIndex(t.enrolments, offeringId, studentId);
    if i < |t.enrolments| {
      assert OfPair(t.enrolments[i], offeringId, studentId);
    }
  }

  lemma PairsOnlyRow(refs: References, t: Tables, offeringId: Id, studentId: Id, k: nat)
    requires EnrolmentsSound(refs, t) && k < |t.enrolments| && OfPair(t.enrolments[k], offeringId, studentId)
    ensures EnrolmentIndex(t.enrolments, offeringId, studentId) == k
  {
  }

  lemma EnrolDelivered(refs: References, t: Tables, newId: Id, offeringId: Id, studentId: Id)
    requires OfferingsSound(refs, t) && EnrolmentsSound(refs, t)
    ensures Fulfils(t, EnrolStudent(newId, offeringId, studentId), DoEnrolStudent(refs, t, newId, offeringId, studentId))
  {
    var r := DoEnrolStudent(refs, t, newId, offeringId, studentId);
    if r.Ok? {
      var before := FindEnrolment(refs, t, offeringId, studentId);
      UpsertFound(t, if before.Some? then before.value.enrolment.id else newId, offeringId, studentId);
      PairIndex(t, offeringId, studentId);
      forall k | 0 <= k < |t.enrolments| && OfPair(t.enrolments[k], offeringId, studentId)
        ensures r.value.newValues.enrolment.id == t.enrolments[k].id
      {
        PairsOnlyRow(refs, t, offeringId, studentId, k);
      }
    }
  }

  lemma DropDelivered(refs: References, t: Tables, offeringId: Id, studentId: Id)
    requires EnrolmentsSound(refs, t)
    ensures Fulfils(t, DropStudent(offeringId, studentId), DoDropStudent(refs, t, offeringId, studentId))
  {
    var i := EnrolmentIndex(t.enrolments, offeringId, studentId);
    PairIndex(t, offeringId, studentId);
    if i < |t.enrolments| {
      FirstIndex(DropEnrolment(t, offeringId, studentId).enrolments, offeringId, studentId, i);
      forall k | 0 <= k < |t.enrolments| && OfPair(t.enrolments[k], offeringId, studentId)
        ensures t.enrolments[k].id == t.enrolments[i].id
      {
        PairsOnlyRow(refs, t, offeringId, studentId, k);
      }
    }
  }

  lemma CourseDelivered(refs: References, t: Tables, op: Operation)
    requires op.CreateCourse? || op.UpdateCourse?
    ensures Fulfils(t, op, Execute(refs, t, op))
  {
    UpperMeans(op.course.code);
  }

  lemma TimetableDelivered(refs: References, t: Tables, op: Operation)
    requires op.CreateTimetableEntry? || op.UpdateTimetableEntry? || op.DeactivateTimetableEntry?
    ensures Fulfils(t, op, Execute(refs, t, op))
  {
  }

  /** A committed operation leaves, logs and returns exactly the row it was asked for, under the
      operation's own action and the row's id. A course's code is stored in upper case and
      otherwise as it was given. */
  lemma CommitsWhatWasAsked(refs: References, t: Tables, op: Operation)
    requires WellFormed(refs, t)
    ensures var r := Execute(refs, t, op);
            r.Ok? ==> Delivers(t, op, r.value.newValues) && Labels(op, r.value.action, r.value.entityId, r.value.newValues)
  {
    if op.CreateCourse? || op.UpdateCourse? {
      CourseDelivered(refs, t, op);
    } else if op.CreateOffering? || op.UpdateOffering? || op.AssignLecturer? {
      OfferingDelivered(refs, t, op);
    } else if op.EnrolStudent? {
      EnrolDelivered(refs, t, op.newId, op.offeringId, op.studentId);
    } else if op.DropStudent? {
      DropDelivered(refs, t, op.offeringId, op.studentId);
    } else {
      TimetableDelivered(refs, t, op);
    }
  }

  // ----- which outcome

  // The first record the operation needs and does not find.
  ghost predicate Misses(refs: References, t: Tables, op: Operation, entity: string) {
    match op
    case CreateCourse(_, course) => entity == "department" && course.departmentId !in refs.departments
    case UpdateCourse(id, course) =>
      if id !in t.courses then entity == "course"
      else entity == "department" && course.departmentId !in refs.departments
    case CreateOffering(_, offering, lecturerId) => OfferingMisses(refs, t, offering, lecturerId, entity)
    case UpdateOffering(id, offering, lecturerId) =>
      if id !in t.offerings then entity == "course offering" else OfferingMisses(refs, t, offering, lecturerId, entity)
    case AssignLecturer(id, lecturerId) =>
      if id !in t.offerings then entity == "course offering" else entity == "lecturer" && lecturerId !in refs.lecturers
    case EnrolStudent(_, offeringId, studentId) =>
      if offeringId !in t.offerings then entity == "course offering"
      else entity == "student" && studentId !in refs.students
    case DropStudent(offeringId, studentId) => entity == "enrolment" && !PairHasRow(t, offeringId, studentId)
    case CreateTimetableEntry(_, entry) => EntryMisses(refs, t, entry, entity)
    case UpdateTimetableEntry(id, entry) =>
      if id !in t.timetable then entity == "timetable entry" else EntryMisses(refs, t, entry, entity)
    case DeactivateTimetableEntry(id) => entity == "timetable entry" && id !in t.timetable
  }

  ghost predicate OfferingMisses(refs: References, t: Tables, offering: Offering, lecturerId: Id, entity: string) {
    if offering.courseId !in t.courses then entity == "course"
    else if offering.semesterId !in refs.semesters then entity == "semester"
    else entity == "lecturer" && lecturerId !in refs.lecturers
  }

  ghost predicate EntryMisses(refs: References, t: Tables, entry: TimetableEntry, entity: string) {
    if entry.offeringId !in t.offerings then entity == "course offering"
    else entity == "classroom" && entry.classroomId !in refs.classrooms
  }

  // Another row that may not stand beside the one asked for.
  ghost predicate Clashes(t: Tables, op: Operation) {
    match op
    case CreateCourse(newId, course) =>
      newId in t.courses || exists id :: id in t.courses && SameText(t.courses[id].code, course.code)
    case UpdateCourse(given, course) =>
      exists id :: id in t.courses && id != given && SameText(t.courses[id].code, course.code)
    case CreateOffering(newId, offering, _) =>
      newId in t.offerings || exists id :: id in t.offerings && OneOffering(t.offerings[id], offering)
    case UpdateOffering(given, offering, _) =>
      exists id :: id in t.offerings && id != given && OneOffering(t.offerings[id], offering)
    case EnrolStudent(newId, offeringId, studentId) =>
      if PairHasRow(t, offeringId, studentId) then
        exists k :: 0 <= k < |t.enrolments| && OfPair(t.enrolments[k], offeringId, studentId)
                    && t.enrolments[k].status == "enrolled"
      else exists k :: 0 <= k < |t.enrolments| && t.enrolments[k].id == newId
    case CreateTimetableEntry(newId, entry) =>
      newId in t.timetable || exists id :: id in t.timetable && OneSlot(t.timetable[id], entry)
    case UpdateTimetableEntry(given, entry) =>
      exists id :: id in t.timetable && id != given && OneSlot(t.timetable[id], entry)
    case _ => false
  }

  // The unique key of an offering, and of a timetable entry.
  ghost predicate OneOffering(a: Offering, b: Offering) {
    (a.courseId, a.semesterId, a.batchYear, a.courseType) == (b.courseId, b.semesterId, b.batchYear, b.courseType)
  }

  ghost predicate OneSlot(a: TimetableEntry, b: TimetableEntry) {
    (a.offeringId, a.dayOfWeek, a.startTime, a.validFrom) == (b.offeringId, b.dayOfWeek, b.startTime, b.validFrom)
  }

  ghost predicate Decided(refs: References, t: Tables, op: Operation, r: Result<Change, AcademicError>) {
    && (forall entity :: r == Err(NotFound(entity)) <==> Misses(refs, t, op, entity))
    && (r == Err(Conflict) <==> Clashes(t, op) && forall entity :: !Misses(refs, t, op, entity))
    && (r.Ok? <==> !Clashes(t, op) && forall entity :: !Misses(refs, t, op, entity))
  }

  lemma CodeExists(t: Tables, code: string, exclude: Option<Id>)
    ensures CourseCodeExists(t, code, exclude)
       <==> exists id :: id in t.courses && SameText(t.courses[id].code, code) && Some(id) != exclude
  {
    forall id | id in t.courses ensures SameText(t.courses[id].code, code) <==> Upper(t.courses[id].code) == Upper(code) {
      UpperAgrees(t.courses[id].code, code);
    }
  }

  lemma CourseDecided(refs: References, t: Tables, op: Operation)
    requires op.CreateCourse? || op.UpdateCourse?
    ensures Decided(refs, t, op, Execute(refs, t, op))
  {
    CodeExists(t, op.course.code, None);
    if op.UpdateCourse? {
      CodeExists(t, op.course.code, Some(op.id));
      assert op.course.departmentId !in refs.departments && op.id in t.courses ==> Misses(refs, t, op, "department");
      assert op.id !in t.courses ==> Misses(refs, t, op, "course");
    } else {
      assert op.course.departmentId !in refs.departments ==> Misses(refs, t, op, "department");
    }
  }

  lemma OfferingReferences(refs: References, t: Tables, offering: Offering, lecturerId: Id)
    ensures forall entity :: MissingOfferingReference(refs, t, offering, lecturerId) == Some(NotFound(entity))
                        <==> OfferingMisses(refs, t, offering, lecturerId, entity)
    ensures MissingOfferingReference(refs, t, offering, lecturerId).None?
       <==> forall entity :: !OfferingMisses(refs, t, offering, lecturerId, entity)
  {
    assert offering.courseId !in t.courses ==> OfferingMisses(refs, t, offering, lecturerId, "course");
    assert offering.courseId in t.courses && offering.semesterId !in refs.semesters ==>
             OfferingMisses(refs, t, offering, lecturerId, "semester");
    assert offering.courseId in t.courses && offering.semesterId in refs.semesters && lecturerId !in refs.lecturers ==>
             OfferingMisses(refs, t, offering, lecturerId, "lecturer");
  }

  lemma CreateOfferingDecided(refs: References, t: Tables, id: Id, offering: Offering, lecturerId: Id)
    requires WellFormed(refs, t)
    ensures Decided(refs, t, CreateOffering(id, offering, lecturerId), DoCreateOffering(refs, t, id, offering, lecturerId))
  {
    OfferingReferences(refs, t, offering, lecturerId);
    CreateOfferingKeeps(refs, t, id, offering, lecturerId);
    KeyExists(t, offering, None);
  }

  lemma KeyExists(t: Tables, offering: Offering, exclude: Option<Id>)
    ensures NaturalKeyExists(t, offering, exclude)
       <==> exists id :: id in t.offerings && OneOffering(t.offerings[id], offering) && Some(id) != exclude
  {
    assert forall id :: id in t.offerings ==>
      (OneOffering(t.offerings[id], offering) <==> SameNaturalKey(t.offerings[id], offering));
  }

  lemma UpdateOfferingDecided(refs: References, t: Tables, id: Id, offering: Offering, lecturerId: Id)
    requires WellFormed(refs, t)
    ensures Decided(refs, t, UpdateOffering(id, offering, lecturerId), DoUpdateOffering(refs, t, id, offering, lecturerId))
  {
    var op := UpdateOffering(id, offering, lecturerId);
    OfferingReferences(refs, t, offering, lecturerId);
    UpdateOfferingKeeps(refs, t, id, offering, lecturerId);
    KeyExists(t, offering, Some(id));
    if id !in t.offerings {
      assert Misses(refs, t, op, "course offering");
    } else {
      assert forall entity :: Misses(refs, t, op, entity) <==> OfferingMisses(refs, t, offering, lecturerId, entity);
    }
  }

  lemma AssignLecturerDecided(refs: References, t: Tables, id: Id, lecturerId: Id)
    requires WellFormed(refs, t)
    ensures Decided(refs, t, AssignLecturer(id, lecturerId), DoAssignLecturer(refs, t, id, lecturerId))
  {
    var op := AssignLecturer(id, lecturerId);
    AssignLecturerKeeps(refs, t, id, lecturerId);
    assert id !in t.offerings ==> Misses(refs, t, op, "course offering");
    assert id in t.offerings && lecturerId !in refs.lecturers ==> Misses(refs, t, op, "lecturer");
  }

  lemma EnrolDecided(refs: References, t: Tables, newId: Id, offeringId: Id, studentId: Id)
    requires WellFormed(refs, t)
    ensures Decided(refs, t, EnrolStudent(newId, offeringId, studentId), DoEnrolStudent(refs, t, newId, offeringId, studentId))
  {
    var op := EnrolStudent(newId, offeringId, studentId);
    EnrolKeeps(refs, t, newId, offeringId, studentId);
    assert offeringId !in t.offerings ==> Misses(refs, t, op, "course offering");
    assert offeringId in t.offerings && studentId !in refs.students ==> Misses(refs, t, op, "student");
    if offeringId in t.offerings && studentId in refs.students {
      EnrolClashes(refs, t, newId, offeringId, studentId);
    }
  }

  lemma EnrolClashes(refs: References, t: Tables, newId: Id, offeringId: Id, studentId: Id)
    requires WellFormed(refs, t) && offeringId in t.offerings && studentId in refs.students
    ensures DoEnrolStudent(refs, t, newId, offeringId, studentId) == Err(Conflict)
       <==> Clashes(t, EnrolStudent(newId, offeringId, studentId))
    ensures DoEnrolStudent(refs, t, newId, offeringId, studentId) == Err(Conflict)
            || DoEnrolStudent(refs, t, newId, offeringId, studentId).Ok?
  {
    var i := EnrolmentIndex(t.enrolments, offeringId, studentId);
    PairIndex(t, offeringId, studentId);
    EnrolKeeps(refs, t, newId, offeringId, studentId);
    forall k | 0 <= k < |t.enrolments| && OfPair(t.enrolments[k], offeringId, studentId) ensures k == i {
      PairsOnlyRow(refs, t, offeringId, studentId, k);
    }
  }

  lemma DropDecided(refs: References, t: Tables, offeringId: Id, studentId: Id)
    requires WellFormed(refs, t)
    ensures Decided(refs, t, DropStudent(offeringId, studentId), DoDropStudent(refs, t, offeringId, studentId))
  {
    PairIndex(t, offeringId, studentId);
    DropStudentKeeps(refs, t, offeringId, studentId);
    assert !PairHasRow(t, offeringId, studentId) ==> Misses(refs, t, DropStudent(offeringId, studentId), "enrolment");
  }

  lemma EntryReferences(refs: References, t: Tables, entry: TimetableEntry)
    ensures forall entity :: MissingTimetableReference(refs, t, entry) == Some(NotFound(entity))
                        <==> EntryMisses(refs, t, entry, entity)
    ensures MissingTimetableReference(refs, t, entry).None? <==> forall entity :: !EntryMisses(refs, t, entry, entity)
  {
    assert entry.offeringId !in t.offerings ==> EntryMisses(refs, t, entry, "course offering");
    assert entry.offeringId in t.offerings && entry.classroomId !in refs.classrooms ==>
             EntryMisses(refs, t, entry, "classroom");
  }

  lemma SlotTaken(t: Tables, entry: TimetableEntry, exclude: Option<Id>)
    ensures SlotExists(t, entry, exclude)
       <==> exists id :: id in t.timetable && OneSlot(t.timetable[id], entry) && Some(id) != exclude
  {
    assert forall id :: id in t.timetable ==> (OneSlot(t.timetable[id], entry) <==> SameSlot(t.timetable[id], entry));
  }

  lemma CreateEntryDecided(refs: References, t: Tables, id: Id, entry: TimetableEntry)
    requires WellFormed(refs, t)
    ensures Decided(refs, t, CreateTimetableEntry(id, entry), DoCreateTimetableEntry(refs, t, id, entry))
  {
    EntryReferences(refs, t, entry);
    CreateTimetableEntryKeeps(refs, t, id, entry);
    SlotTaken(t, entry, None);
  }

  lemma UpdateEntryDecided(refs: References, t: Tables, id: Id, entry: TimetableEntry)
    requires WellFormed(refs, t)
    ensures Decided(refs, t, UpdateTimetableEntry(id, entry), DoUpdateTimetableEntry(refs, t, id, entry))
  {
    var op := UpdateTimetableEntry(id, entry);
    EntryReferences(refs, t, entry);
    UpdateTimetableEntryKeeps(refs, t, id, entry);
    SlotTaken(t, entry, Some(id));
    if id !in t.timetable {
      assert Misses(refs, t, op, "timetable entry");
    } else {
      assert forall entity :: Misses(refs, t, op, entity) <==> EntryMisses(refs, t, entry, entity);
    }
  }

  lemma DeactivateEntryDecided(refs: References, t: Tables, id: Id)
    requires WellFormed(refs, t)
    ensures Decided(refs, t, DeactivateTimetableEntry(id), DoDeactivateTimetableEntry(t, id))
  {
    assert id !in t.timetable ==> Misses(refs, t, DeactivateTimetableEntry(id), "timetable entry");
  }

  /** Over the tables a run leaves, an operation reports the first record it needs and does not
      find; it conflicts exactly when nothing is missing and another row has its code up to case,
      its natural key, its slot or its generated id, or the student is enrolled already; and in
      every other case it commits. */
  lemma OutcomesAreExact(refs: References, t: Tables, op: Operation)
    requires WellFormed(refs, t)
    ensures Decided(refs, t, op, Execute(refs, t, op))
  {
    match op {
      case CreateCourse(_, _) => CourseDecided(refs, t, op);
      case UpdateCourse(_, _) => CourseDecided(refs, t, op);
      case CreateOffering(id, offering, lecturerId) => CreateOfferingDecided(refs, t, id, offering, lecturerId);
      case UpdateOffering(id, offering, lecturerId) => UpdateOfferingDecided(refs, t, id, offering, lecturerId);
      case AssignLecturer(id, lecturerId) => AssignLecturerDecided(refs, t, id, lecturerId);
      case EnrolStudent(id, offeringId, studentId) => EnrolDecided(refs, t, id, offeringId, studentId);
      case DropStudent(offeringId, studentId) => DropDecided(refs, t, offeringId, studentId);
      case CreateTimetableEntry(id, entry) => CreateEntryDecided(refs, t, id, entry);
      case UpdateTimetableEntry(id, entry) => UpdateEntryDecided(refs, t, id, entry);
      case DeactivateTimetableEntry(id) => DeactivateEntryDecided(refs, t, id);
    }
  }

  // ----- conflicts

  // The tables with the row written regardless.
  function Forced(t: Tables, op: Operation): Tables {
    match op
    case CreateCourse(id, course) => t.(courses := t.courses[id := course.(code := Upper(course.code))])
    case UpdateCourse(id, course) => t.(courses := t.courses[id := course.(code := Upper(course.code))])
    case CreateOffering(id, offering, lecturerId) => SetOfferingLecturer(t.(offerings := t.offerings[id := offering]), id, lecturerId)
    case UpdateOffering(id, offering, lecturerId) => SetOfferingLecturer(t.(offerings := t.offerings[id := offering]), id, lecturerId)
    case CreateTimetableEntry(id, entry) => t.(timetable := t.timetable[id := entry])
    case UpdateTimetableEntry(id, entry) => t.(timetable := t.timetable[id := entry])
    case _ => t
  }

  predicate IdTaken(t: Tables, op: Operation) {
    match op
    case CreateCourse(id, _) => id in t.courses
    case CreateOffering(id, _, _) => id in t.offerings
    case CreateTimetableEntry(id, _) => id in t.timetable
    case _ => false
  }

  predicate WritesKeyedRow(op: Operation) {
    op.CreateCourse? || op.UpdateCourse? || op.CreateOffering? || op.UpdateOffering?
    || op.CreateTimetableEntry? || op.UpdateTimetableEntry?
  }

  lemma DuplicateCodeClashes(t: Tables, id: Id, course: Course, exclude: Option<Id>)
    requires CoursesSound(t) && CourseCodeExists(t, course.code, exclude) && (exclude == Some(id) || id !in t.courses)
    ensures !CoursesSound(t.(courses := t.courses[id := course.(code := Upper(course.code))]))
  {
    var other :| other in t.courses && Upper(t.courses[other].code) == Upper(course.code) && Some(other) != exclude;
    var next := t.courses[id := course.(code := Upper(course.code))];
    UpperStands(course.code, t.courses[other].code);
    assert other != id && SameText(next[other].code, next[id].code);
  }

  lemma DuplicateKeyClashes(refs: References, t: Tables, next: Tables, id: Id, offering: Offering, exclude: Option<Id>)
    requires NaturalKeyExists(t, offering, exclude) && (exclude == Some(id) || id !in t.offerings)
    requires next.offerings == t.offerings[id := offering]
    ensures !OfferingsSound(refs, next)
  {
    var other :| other in t.offerings && SameNaturalKey(t.offerings[other], offering) && Some(other) != exclude;
    assert other != id && SameNaturalKey(next.offerings[other], next.offerings[id]);
  }

  lemma DuplicateSlotClashes(t: Tables, id: Id, entry: TimetableEntry, exclude: Option<Id>)
    requires SlotExists(t, entry, exclude) && (exclude == Some(id) || id !in t.timetable)
    ensures !TimetableSound(t.(timetable := t.timetable[id := entry]))
  {
    var other :| other in t.timetable && SameSlot(t.timetable[other], entry) && Some(other) != exclude;
    var next := t.timetable[id := entry];
    assert other != id && SameSlot(next[other], next[id]);
  }

  lemma CourseConflicts(refs: References, t: Tables, op: Operation)
    requires CoursesSound(t) && (op.CreateCourse? || op.UpdateCourse?) && !IdTaken(t, op)
    requires Execute(refs, t, op) == Err(Conflict)
    ensures !CoursesSound(Forced(t, op))
  {
    if op.CreateCourse? {
      DuplicateCodeClashes(t, op.newId, op.course, None);
    } else {
      DuplicateCodeClashes(t, op.id, op.course, Some(op.id));
    }
  }

  lemma OfferingConflicts(refs: References, t: Tables, op: Operation)
    requires (op.CreateOffering? || op.UpdateOffering?) && !IdTaken(t, op)
    requires Execute(refs, t, op) == Err(Conflict)
    ensures !OfferingsSound(refs, Forced(t, op))
  {
    if op.CreateOffering? {
      DuplicateKeyClashes(refs, t, Forced(t, op), op.newId, op.offering, None);
    } else {
      DuplicateKeyClashes(refs, t, Forced(t, op), op.id, op.offering, Some(op.id));
    }
  }

  lemma TimetableConflicts(refs: References, t: Tables, op: Operation)
    requires (op.CreateTimetableEntry? || op.UpdateTimetableEntry?) && !IdTaken(t, op)
    requires Execute(refs, t, op) == Err(Conflict)
    ensures !TimetableSound(Forced(t, op))
  {
    if op.CreateTimetableEntry? {
      DuplicateSlotClashes(t, op.newId, op.entry, None);
    } else {
      DuplicateSlotClashes(t, op.id, op.entry, Some(op.id));
    }
  }

  /** A write of a course, an offering or a timetable entry is refused as a conflict, when its
      generated id is fresh, only if writing the row would have left the tables ill formed. */
  lemma ConflictsAreNecessary(refs: References, t: Tables, op: Operation)
    requires WellFormed(refs, t) && WritesKeyedRow(op) && !IdTaken(t, op)
    requires Execute(refs, t, op) == Err(Conflict)
    ensures !WellFormed(refs, Forced(t, op))
  {
    if op.CreateCourse? || op.UpdateCourse? {
      CourseConflicts(refs, t, op);
    } else if op.CreateOffering? || op.UpdateOffering? {
      OfferingConflicts(refs, t, op);
    } else {
      TimetableConflicts(refs, t, op);
    }
  }
}
