/** What every run of academic mutations keeps: keys, references and lecturers of the
    tables, and an audit log that is their complete history. */
module AcademicHistory {
  import opened Wrappers
  import opened AcademicData
  import opened PythonText

  // ----- well-formed tables

  // Codes are in upper case, and no two of them agree up to case.
  ghost predicate CoursesSound(t: Tables) {
    && (forall id :: id in t.courses ==> NoLowerCase(t.courses[id].code))
    && (forall i, j :: i in t.courses && j in t.courses && i != j ==> !SameText(t.courses[i].code, t.courses[j].code))
  }

  // Departments and classrooms belong to others, and exist.
  ghost predicate OwnersSound(refs: References, t: Tables) {
    && (forall id :: id in t.courses ==> t.courses[id].departmentId in refs.departments)
    && (forall id :: id in t.timetable ==> t.timetable[id].classroomId in refs.classrooms)
  }

  ghost predicate OfferingsSound(refs: References, t: Tables) {
    && (forall id :: id in t.offerings ==>
          t.offerings[id].courseId in t.courses && t.offerings[id].semesterId in refs.semesters)
    && (forall i, j :: i in t.offerings && j in t.offerings && i != j ==>
          !SameNaturalKey(t.offerings[i], t.offerings[j]))
  }

  ghost predicate LecturersSound(refs: References, t: Tables) {
    forall id :: id in t.offerings ==>
      |LecturersOf(t.assignments, id)| == 1 && LecturersOf(t.assignments, id)[0] in refs.lecturers
  }

  ghost predicate EnrolmentsSound(refs: References, t: Tables) {
    && (forall i :: 0 <= i < |t.enrolments| ==>
          && t.enrolments[i].offeringId in t.offerings && t.enrolments[i].studentId in refs.students
          && t.enrolments[i].status in {"enrolled", "dropped"})
    && (forall i, j :: 0 <= i < j < |t.enrolments| ==> t.enrolments[i].id != t.enrolments[j].id)
    && (forall i, j :: 0 <= i < j < |t.enrolments| ==>
          !(t.enrolments[i].offeringId == t.enrolments[j].offeringId && t.enrolments[i].studentId == t.enrolments[j].studentId))
  }

  ghost predicate TimetableSound(t: Tables) {
    && (forall id :: id in t.timetable ==> t.timetable[id].offeringId in t.offerings)
    && (forall i, j :: i in t.timetable && j in t.timetable && i != j ==> !SameSlot(t.timetable[i], t.timetable[j]))
  }

  ghost predicate WellFormed(refs: References, t: Tables) {
    && CoursesSound(t) && OwnersSound(refs, t) && OfferingsSound(refs, t) && LecturersSound(refs, t)
    && EnrolmentsSound(refs, t) && TimetableSound(t)
  }

  // ----- helpers on codes, assignments and enrolment rows

  lemma UpperLetter(c: char, d: char)
    ensures !('a' <= UpperChar(c) <= 'z') && SameLetter(UpperChar(c), c)
    ensures UpperChar(c) == UpperChar(d) <==> SameLetter(c, d)
  {
  }

  /** A code in upper case has no lower-case letter left, and is the given one up to case. */
  lemma {:induction false} UpperMeans(s: string)
    ensures NoLowerCase(Upper(s)) && SameText(Upper(s), s)
  {
    if s != "" {
      UpperLetter(s[0], s[0]);
      UpperMeans(s[1..]);
      assert Upper(s)[1..] == Upper(s[1..]);
    }
  }

  /** Two codes have one upper-case form exactly when they agree up to case. */
  lemma {:induction false} UpperAgrees(s: string, t: string)
    ensures Upper(s) == Upper(t) <==> SameText(s, t)
  {
    UpperMeans(s);
    UpperMeans(t);
    if s != "" && |s| == |t| {
      UpperLetter(s[0], t[0]);
      UpperAgrees(s[1..], t[1..]);
      assert Upper(s)[1..] == Upper(s[1..]) && Upper(t)[1..] == Upper(t[1..]);
      assert SameText(s, t) <==> SameLetter(s[0], t[0]) && SameText(s[1..], t[1..]) by {
        assert forall i :: 1 <= i < |s| ==> s[i] == s[1..][i - 1] && t[i] == t[1..][i - 1];
      }
    }
  }

  // The stored form of a code agrees with another code exactly when the given one does.
  lemma UpperStands(s: string, t: string)
    ensures SameText(t, Upper(s)) <==> Upper(t) == Upper(s)
  {
    UpperAgrees(t, Upper(s));
    UpperMeans(s);
    UpperAgrees(Upper(s), s);
  }

  function LecturerAt(a: Assignment, id: Id): seq<Id> {
    if a.offeringId == id then [a.lecturerId] else []
  }

  lemma LecturersCons(a: Assignment, rest: seq<Assignment>, id: Id)
    ensures LecturersOf([a] + rest, id) == LecturerAt(a, id) + LecturersOf(rest, id)
  {
    assert ([a] + rest)[1..] == rest;
  }

  lemma {:induction false} LecturersAppend(a: seq<Assignment>, b: Assignment, id: Id)
    ensures LecturersOf(a + [b], id) == LecturersOf(a, id) + LecturerAt(b, id)
  {
    if a == [] {
      LecturersCons(b, [], id);
      assert a + [b] == [b] + [];
    } else {
      LecturersAppend(a[1..], b, id);
      LecturersCons(a[0], a[1..], id);
      LecturersCons(a[0], a[1..] + [b], id);
      assert a == [a[0]] + a[1..] && a + [b] == [a[0]] + (a[1..] + [b]);
    }
  }

  lemma {:induction false} LecturersWithout(a: seq<Assignment>, offeringId: Id, id: Id)
    ensures LecturersOf(WithoutOffering(a, offeringId), id) == if id == offeringId then [] else LecturersOf(a, id)
  {
    if a != [] {
      LecturersWithout(a[1..], offeringId, id);
      var rest := WithoutOffering(a[1..], offeringId);
      if a[0].offeringId != offeringId {
        assert WithoutOffering(a, offeringId)[1..] == rest;
      } else {
        assert WithoutOffering(a, offeringId) == rest;
      }
    }
  }

  // Setting one offering's lecturer leaves it exactly that one, and no other offering changes.
  lemma LecturerSet(t: Tables, offeringId: Id, lecturerId: Id, id: Id)
    ensures LecturersOf(SetOfferingLecturer(t, offeringId, lecturerId).assignments, id)
         == if id == offeringId then [lecturerId] else LecturersOf(t.assignments, id)
  {
    LecturersWithout(t.assignments, offeringId, id);
    LecturersAppend(WithoutOffering(t.assignments, offeringId), Assignment(offeringId, lecturerId), id);
  }

  // ----- every operation keeps the tables well formed

  // A write that only adds or replaces offerings leaves the rows that refer to them sound.
  lemma DependentsKept(refs: References, t: Tables, next: Tables)
    requires EnrolmentsSound(refs, t) && TimetableSound(t)
    requires next.enrolments == t.enrolments && next.timetable == t.timetable
    requires t.offerings.Keys <= next.offerings.Keys
    ensures EnrolmentsSound(refs, next) && TimetableSound(next)
  {
  }

  lemma CourseWritten(t: Tables, id: Id, course: Course, exclude: Option<Id>)
    requires CoursesSound(t) && !CourseCodeExists(t, course.code, exclude)
    requires exclude == Some(id) || (exclude == None && id !in t.courses)
    ensures CoursesSound(t.(courses := t.courses[id := course.(code := Upper(course.code))]))
  {
    var next := t.courses[id := course.(code := Upper(course.code))];
    UpperMeans(course.code);
    forall i, j | i in next && j in next && i != j ensures !SameText(next[i].code, next[j].code) {
      if i == id {
        UpperStands(course.code, next[j].code);
        SameTextSymmetric(next[i].code, next[j].code);
      } else if j == id {
        UpperStands(course.code, next[i].code);
      }
    }
  }

  lemma SameTextSymmetric(s: string, t: string)
    ensures SameText(s, t) <==> SameText(t, s)
  {
  }

  lemma CourseWriteKeeps(refs: References, t: Tables, id: Id, course: Course, exclude: Option<Id>)
    requires WellFormed(refs, t) && !CourseCodeExists(t, course.code, exclude)
    requires exclude == Some(id) || (exclude == None && id !in t.courses)
    requires course.departmentId in refs.departments
    ensures WellFormed(refs, t.(courses := t.courses[id := course.(code := Upper(course.code))]))
  {
    CourseWritten(t, id, course, exclude);
    DependentsKept(refs, t, t.(courses := t.courses[id := course.(code := Upper(course.code))]));
  }

  lemma OfferingWritten(refs: References, t: Tables, id: Id, offering: Offering, exclude: Option<Id>)
    requires OfferingsSound(refs, t) && !NaturalKeyExists(t, offering, exclude)
    requires exclude == Some(id) || (exclude == None && id !in t.offerings)
    requires offering.courseId in t.courses && offering.semesterId in refs.semesters
    ensures OfferingsSound(refs, t.(offerings := t.offerings[id := offering]))
  {
  }

  lemma LecturerWritten(refs: References, t: Tables, written: Tables, id: Id, lecturerId: Id)
    requires LecturersSound(refs, t) && lecturerId in refs.lecturers
    requires written.assignments == t.assignments && written.offerings.Keys == t.offerings.Keys + {id}
    ensures LecturersSound(refs, SetOfferingLecturer(written, id, lecturerId))
  {
    var next := SetOfferingLecturer(written, id, lecturerId);
    forall o | o in next.offerings
      ensures |LecturersOf(next.assignments, o)| == 1 && LecturersOf(next.assignments, o)[0] in refs.lecturers
    {
      LecturerSet(written, id, lecturerId, o);
    }
  }

  lemma OfferingWriteKeeps(refs: References, t: Tables, id: Id, offering: Offering, lecturerId: Id, exclude: Option<Id>)
    requires WellFormed(refs, t) && !NaturalKeyExists(t, offering, exclude)
    requires exclude == Some(id) || (exclude == None && id !in t.offerings)
    requires MissingOfferingReference(refs, t, offering, lecturerId).None?
    ensures WellFormed(refs, SetOfferingLecturer(t.(offerings := t.offerings[id := offering]), id, lecturerId))
  {
    var written := t.(offerings := t.offerings[id := offering]);
    OfferingWritten(refs, t, id, offering, exclude);
    LecturerWritten(refs, t, written, id, lecturerId);
    DependentsKept(refs, t, SetOfferingLecturer(written, id, lecturerId));
  }

  lemma AssignKeeps(refs: References, t: Tables, id: Id, lecturerId: Id)
    requires WellFormed(refs, t) && id in t.offerings && lecturerId in refs.lecturers
    ensures WellFormed(refs, SetOfferingLecturer(t, id, lecturerId))
  {
    LecturerWritten(refs, t, t, id, lecturerId);
    DependentsKept(refs, t, SetOfferingLecturer(t, id, lecturerId));
  }

  lemma EnrolmentAppended(refs: References, t: Tables, row: Enrolment)
    requires EnrolmentsSound(refs, t) && !EnrolmentIdTaken(t.enrolments, row.id)
    requires EnrolmentIndex(t.enrolments, row.offeringId, row.studentId) == |t.enrolments|
    requires row.offeringId in t.offerings && row.studentId in refs.students && row.status == "enrolled"
    ensures EnrolmentsSound(refs, t.(enrolments := t.enrolments + [row]))
  {
  }

  lemma EnrolmentMarked(refs: References, t: Tables, i: nat, status: string)
    requires EnrolmentsSound(refs, t) && i < |t.enrolments| && status in {"enrolled", "dropped"}
    ensures EnrolmentsSound(refs, t.(enrolments := t.enrolments[i := t.enrolments[i].(status := status)]))
  {
    var rows := t.enrolments[i := t.enrolments[i].(status := status)];
    assert forall k :: 0 <= k < |rows| ==>
      rows[k].id == t.enrolments[k].id && rows[k].offeringId == t.enrolments[k].offeringId
      && rows[k].studentId == t.enrolments[k].studentId;
  }

  lemma UpsertKeeps(refs: References, t: Tables, id: Id, offeringId: Id, studentId: Id)
    requires EnrolmentsSound(refs, t) && offeringId in t.offerings && studentId in refs.students
    ensures var r := UpsertEnrolment(t, id, offeringId, studentId);
            r.Ok? ==> EnrolmentsSound(refs, r.value) && r.value == t.(enrolments := r.value.enrolments)
  {
    var i := EnrolmentIndex(t.enrolments, offeringId, studentId);
    if i < |t.enrolments| {
      EnrolmentMarked(refs, t, i, "enrolled");
    } else if !EnrolmentIdTaken(t.enrolments, id) {
      EnrolmentAppended(refs, t, Enrolment(id, offeringId, studentId, "enrolled"));
    }
  }

  lemma DropKeeps(refs: References, t: Tables, offeringId: Id, studentId: Id)
    requires EnrolmentsSound(refs, t)
    ensures var next := DropEnrolment(t, offeringId, studentId);
            EnrolmentsSound(refs, next) && next == t.(enrolments := next.enrolments)
  {
    var i := EnrolmentIndex(t.enrolments, offeringId, studentId);
    if i < |t.enrolments| {
      EnrolmentMarked(refs, t, i, "dropped");
    }
  }

  lemma EnrolmentWriteKeeps(refs: References, t: Tables, next: Tables)
    requires WellFormed(refs, t) && next == t.(enrolments := next.enrolments) && EnrolmentsSound(refs, next)
    ensures WellFormed(refs, next)
  {
  }

  lemma TimetableWritten(t: Tables, id: Id, entry: TimetableEntry)
    requires TimetableSound(t) && entry.offeringId in t.offerings
    requires forall i :: i in t.timetable && i != id ==> !SameSlot(t.timetable[i], entry)
    ensures TimetableSound(t.(timetable := t.timetable[id := entry]))
  {
  }

  lemma TimetableRestKept(refs: References, t: Tables, next: Tables)
    requires OfferingsSound(refs, t) && LecturersSound(refs, t) && EnrolmentsSound(refs, t) && CoursesSound(t)
    requires next == t.(timetable := next.timetable)
    ensures OfferingsSound(refs, next) && LecturersSound(refs, next) && EnrolmentsSound(refs, next) && CoursesSound(next)
  {
  }

  lemma TimetableWriteKeeps(refs: References, t: Tables, id: Id, entry: TimetableEntry)
    requires WellFormed(refs, t) && entry.offeringId in t.offerings && entry.classroomId in refs.classrooms
    requires forall i :: i in t.timetable && i != id ==> !SameSlot(t.timetable[i], entry)
    ensures WellFormed(refs, t.(timetable := t.timetable[id := entry]))
  {
    var next := t.(timetable := t.timetable[id := entry]);
    TimetableWritten(t, id, entry);
    TimetableRestKept(refs, t, next);
    assert OwnersSound(refs, next);
  }

  lemma CourseOperationKeeps(refs: References, t: Tables, op: Operation)
    requires WellFormed(refs, t) && (op.CreateCourse? || op.UpdateCourse?)
    ensures Execute(refs, t, op).Ok? ==> WellFormed(refs, Execute(refs, t, op).value.tables)
    ensures Execute(refs, t, op) != Err(AssertionFailed)
  {
    if op.CreateCourse? {
      if op.newId !in t.courses && !CourseCodeExists(t, op.course.code, None) && op.course.departmentId in refs.departments {
        CourseWriteKeeps(refs, t, op.newId, op.course, None);
      }
    } else if !CourseCodeExists(t, op.course.code, Some(op.id)) && op.course.departmentId in refs.departments {
      CourseWriteKeeps(refs, t, op.id, op.course, Some(op.id));
    }
  }

  lemma CreateOfferingKeeps(refs: References, t: Tables, id: Id, offering: Offering, lecturerId: Id)
    requires WellFormed(refs, t)
    ensures var r := DoCreateOffering(refs, t, id, offering, lecturerId);
            r != Err(AssertionFailed) && (r.Ok? ==> WellFormed(refs, r.value.tables))
  {
    if id !in t.offerings && !NaturalKeyExists(t, offering, None)
       && MissingOfferingReference(refs, t, offering, lecturerId).None? {
      OfferingWriteKeeps(refs, t, id, offering, lecturerId, None);
    }
  }

  lemma UpdateOfferingKeeps(refs: References, t: Tables, id: Id, offering: Offering, lecturerId: Id)
    requires WellFormed(refs, t)
    ensures var r := DoUpdateOffering(refs, t, id, offering, lecturerId);
            r != Err(AssertionFailed) && (r.Ok? ==> WellFormed(refs, r.value.tables))
  {
    if !NaturalKeyExists(t, offering, Some(id)) && MissingOfferingReference(refs, t, offering, lecturerId).None? {
      OfferingWriteKeeps(refs, t, id, offering, lecturerId, Some(id));
    }
  }

  lemma AssignLecturerKeeps(refs: References, t: Tables, id: Id, lecturerId: Id)
    requires WellFormed(refs, t)
    ensures var r := DoAssignLecturer(refs, t, id, lecturerId);
            r != Err(AssertionFailed) && (r.Ok? ==> WellFormed(refs, r.value.tables))
  {
    if id in t.offerings && lecturerId in refs.lecturers {
      AssignKeeps(refs, t, id, lecturerId);
    }
  }

  lemma EnrolKeeps(refs: References, t: Tables, newId: Id, offeringId: Id, studentId: Id)
    requires WellFormed(refs, t)
    ensures var r := DoEnrolStudent(refs, t, newId, offeringId, studentId);
            r != Err(AssertionFailed) && (r.Ok? ==> WellFormed(refs, r.value.tables))
  {
    if offeringId in t.offerings && studentId in refs.students {
      var before := FindEnrolment(refs, t, offeringId, studentId);
      var id := if before.Some? then before.value.enrolment.id else newId;
      UpsertKeeps(refs, t, id, offeringId, studentId);
      var r := UpsertEnrolment(t, id, offeringId, studentId);
      if r.Ok? {
        EnrolmentWriteKeeps(refs, t, r.value);
        UpsertFound(t, id, offeringId, studentId);
      }
    }
  }

  lemma UpsertFound(t: Tables, id: Id, offeringId: Id, studentId: Id)
    requires UpsertEnrolment(t, id, offeringId, studentId).Ok?
    ensures var rows := UpsertEnrolment(t, id, offeringId, studentId).value.enrolments;
            EnrolmentIndex(rows, offeringId, studentId) == EnrolmentIndex(t.enrolments, offeringId, studentId) < |rows|
  {
    var i := EnrolmentIndex(t.enrolments, offeringId, studentId);
    var rows := UpsertEnrolment(t, id, offeringId, studentId).value.enrolments;
    FirstIndex(rows, offeringId, studentId, i);
  }

  lemma FirstIndex(rows: seq<Enrolment>, offeringId: Id, studentId: Id, i: nat)
    requires i < |rows| && rows[i].offeringId == offeringId && rows[i].studentId == studentId
    requires forall k :: 0 <= k < i ==> !(rows[k].offeringId == offeringId && rows[k].studentId == studentId)
    ensures EnrolmentIndex(rows, offeringId, studentId) == i
  {
    var j := EnrolmentIndex(rows, offeringId, studentId);
    if j < i {
      assert rows[j].offeringId == offeringId && rows[j].studentId == studentId;
    }
  }

  lemma DropStudentKeeps(refs: References, t: Tables, offeringId: Id, studentId: Id)
    requires WellFormed(refs, t)
    ensures var r := DoDropStudent(refs, t, offeringId, studentId);
            r != Err(AssertionFailed) && (r.Ok? ==> WellFormed(refs, r.value.tables))
  {
    var next := DropEnrolment(t, offeringId, studentId);
    DropKeeps(refs, t, offeringId, studentId);
    EnrolmentWriteKeeps(refs, t, next);
    var i := EnrolmentIndex(t.enrolments, offeringId, studentId);
    if i < |t.enrolments| {
      FirstIndex(next.enrolments, offeringId, studentId, i);
    }
  }

  lemma CreateTimetableEntryKeeps(refs: References, t: Tables, id: Id, entry: TimetableEntry)
    requires WellFormed(refs, t)
    ensures var r := DoCreateTimetableEntry(refs, t, id, entry);
            r != Err(AssertionFailed) && (r.Ok? ==> WellFormed(refs, r.value.tables))
  {
    if MissingTimetableReference(refs, t, entry).None? && !SlotExists(t, entry, None) {
      TimetableWriteKeeps(refs, t, id, entry);
    }
  }

  lemma UpdateTimetableEntryKeeps(refs: References, t: Tables, id: Id, entry: TimetableEntry)
    requires WellFormed(refs, t)
    ensures var r := DoUpdateTimetableEntry(refs, t, id, entry);
            r != Err(AssertionFailed) && (r.Ok? ==> WellFormed(refs, r.value.tables))
  {
    if MissingTimetableReference(refs, t, entry).None? && !SlotExists(t, entry, Some(id)) {
      TimetableWriteKeeps(refs, t, id, entry);
    }
  }

  lemma DeactivateTimetableEntryKeeps(refs: References, t: Tables, id: Id)
    requires WellFormed(refs, t)
    ensures var r := DoDeactivateTimetableEntry(t, id);
            r != Err(AssertionFailed) && (r.Ok? ==> WellFormed(refs, r.value.tables))
  {
    if id in t.timetable {
      TimetableWriteKeeps(refs, t, id, t.timetable[id].(status := "inactive"));
    }
  }

  lemma ExecuteKeeps(refs: References, t: Tables, op: Operation)
    requires WellFormed(refs, t)
    ensures Execute(refs, t, op).Ok? ==> WellFormed(refs, Execute(refs, t, op).value.tables)
    ensures Execute(refs, t, op) != Err(AssertionFailed)
  {
    match op {
      case CreateCourse(_, _) => CourseOperationKeeps(refs, t, op);
      case UpdateCourse(_, _) => CourseOperationKeeps(refs, t, op);
      case CreateOffering(id, offering, lecturerId) => CreateOfferingKeeps(refs, t, id, offering, lecturerId);
      case UpdateOffering(id, offering, lecturerId) => UpdateOfferingKeeps(refs, t, id, offering, lecturerId);
      case AssignLecturer(id, lecturerId) => AssignLecturerKeeps(refs, t, id, lecturerId);
      case EnrolStudent(id, offeringId, studentId) => EnrolKeeps(refs, t, id, offeringId, studentId);
      case DropStudent(offeringId, studentId) => DropStudentKeeps(refs, t, offeringId, studentId);
      case CreateTimetableEntry(id, entry) => CreateTimetableEntryKeeps(refs, t, id, entry);
      case UpdateTimetableEntry(id, entry) => UpdateTimetableEntryKeeps(refs, t, id, entry);
      case DeactivateTimetableEntry(id) => DeactivateTimetableEntryKeeps(refs, t, id);
    }
  }

  /** After any run of mutations, committed or refused, codes have no lower-case letter and no
      two of them agree up to case, natural keys and timetable slots are distinct (inactive entries included), every
      reference resolves, every offering has exactly one lecturer, and no pair of offering
      and student has two rows; and no mutation ever fails one of the service's assertions. */
  lemma {:induction false} RunsKeepTables(refs: References, requests: seq<Request>)
    ensures WellFormed(refs, After(refs, requests).tables)
    ensures forall op :: Execute(refs, After(refs, requests).tables, op) != Err(AssertionFailed)
  {
    if requests != [] {
      RunsKeepTables(refs, requests[..|requests| - 1]);
      ExecuteKeeps(refs, After(refs, requests[..|requests| - 1]).tables, requests[|requests| - 1].op);
    }
    forall op ensures Execute(refs, After(refs, requests).tables, op) != Err(AssertionFailed) {
      ExecuteKeeps(refs, After(refs, requests).tables, op);
    }
  }
}
