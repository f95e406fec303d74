/** The audit log as a complete history: replaying it rebuilds the tables, every entry's
    old values are what the replay held, and enrolment counts can be read off the log. */
module AcademicAudit {
  import opened Wrappers
  import opened AcademicData
  import opened AcademicHistory

  datatype Key = CourseKey(id: Id) | OfferingKey(id: Id) | EnrolmentKey(id: Id) | TimetableKey(id: Id)

  function EntityKey(action: Action, id: Id): Key {
    match action
    case CourseCreate | CourseUpdate => CourseKey(id)
    case OfferingCreate | OfferingUpdate | OfferingAssignLecturer => OfferingKey(id)
    case EnrolmentEnrol | EnrolmentDrop => EnrolmentKey(id)
    case TimetableCreate | TimetableUpdate | TimetableDeactivate => TimetableKey(id)
  }

  function KeyOf(entry: AuditEntry): Key {
    EntityKey(entry.action, entry.entityId)
  }

  function Held(replayed: map<Key, Snapshot>, key: Key): Option<Snapshot> {
    if key in replayed then Some(replayed[key]) else None
  }

  // Each entry's new values written over those of its entity, oldest first.
  function Replay(log: seq<AuditEntry>): map<Key, Snapshot> {
    if log == [] then map[]
    else
      var last := log[|log| - 1];
      Replay(log[..|log| - 1])[KeyOf(last) := last.newValues]
  }

  function EnrolmentRow(rows: seq<Enrolment>, id: Id): (row: Option<Enrolment>)
    ensures row.Some? ==> row.value in rows && row.value.id == id
    ensures row.None? ==> !EnrolmentIdTaken(rows, id)
  {
    if rows == [] then None
    else if rows[0].id == id then Some(rows[0])
    else
      var row := EnrolmentRow(rows[1..], id);
      assert forall i :: 0 <= i < |rows| && rows[i].id == id ==> rows[1..][i - 1].id == id;
      row
  }

  // A row's own columns as the tables hold them now.
  function Current(t: Tables, key: Key): Option<Snapshot> {
    match key
    case CourseKey(id) => FindCourse(t, id)
    case OfferingKey(id) => if id in t.offerings then Some(OfferingSnapshot(t.offerings[id], LecturerOf(t, id))) else None
    case EnrolmentKey(id) =>
      var row := EnrolmentRow(t.enrolments, id);
      if row.Some? then Some(EnrolmentSnapshot(row.value)) else None
    case TimetableKey(id) => if id in t.timetable then Some(TimetableSnapshot(t.timetable[id])) else None
  }

  // ----- one transaction and its entry

  // The new values are what the tables hold next, and no other row of any table differs.
  ghost predicate Mirrors(t: Tables, change: Change) {
    forall key :: Current(change.tables, key)
               == if key == EntityKey(change.action, change.entityId) then Some(change.newValues) else Current(t, key)
  }

  // And the old values are what the tables held.
  ghost predicate Records(t: Tables, change: Change) {
    change.oldValues == Current(t, EntityKey(change.action, change.entityId)) && Mirrors(t, change)
  }

  lemma OfferingRecorded(t: Tables, next: Tables, id: Id, lecturerId: Id)
    requires next.courses == t.courses && next.enrolments == t.enrolments && next.timetable == t.timetable
    requires next.offerings.Keys == t.offerings.Keys + {id}
    requires forall o :: o in t.offerings && o != id ==> next.offerings[o] == t.offerings[o]
    requires next.assignments == SetOfferingLecturer(t, id, lecturerId).assignments
    ensures Current(next, OfferingKey(id)) == Some(OfferingSnapshot(next.offerings[id], Some(lecturerId)))
    ensures forall key :: key != OfferingKey(id) ==> Current(next, key) == Current(t, key)
  {
    LecturerSet(t, id, lecturerId, id);
    forall key | key != OfferingKey(id) ensures Current(next, key) == Current(t, key) {
      if key.OfferingKey? {
        LecturerSet(t, id, lecturerId, key.id);
      }
    }
  }

  lemma CourseRecorded(t: Tables, id: Id, course: Course)
    ensures forall key :: Current(t.(courses := t.courses[id := course]), key)
              == if key == CourseKey(id) then Some(CourseSnapshot(course)) else Current(t, key)
  {
    var next := t.(courses := t.courses[id := course]);
    forall key ensures Current(next, key) == if key == CourseKey(id) then Some(CourseSnapshot(course)) else Current(t, key) {
      if key.OfferingKey? {
        assert LecturerOf(next, key.id) == LecturerOf(t, key.id);
      }
    }
  }

  lemma TimetableRecorded(t: Tables, id: Id, entry: TimetableEntry)
    ensures forall key :: Current(t.(timetable := t.timetable[id := entry]), key)
              == if key == TimetableKey(id) then Some(TimetableSnapshot(entry)) else Current(t, key)
  {
    var next := t.(timetable := t.timetable[id := entry]);
    forall key
      ensures Current(next, key) == if key == TimetableKey(id) then Some(TimetableSnapshot(entry)) else Current(t, key)
    {
      if key.OfferingKey? {
        assert LecturerOf(next, key.id) == LecturerOf(t, key.id);
      }
    }
  }

  // Ids of enrolment rows are distinct, so an id finds its row.
  ghost predicate DistinctIds(rows: seq<Enrolment>) {
    forall i, j :: 0 <= i < j < |rows| ==> rows[i].id != rows[j].id
  }

  lemma RowFound(rows: seq<Enrolment>, i: nat)
    requires DistinctIds(rows) && i < |rows|
    ensures EnrolmentRow(rows, rows[i].id) == Some(rows[i])
  {
    var row := EnrolmentRow(rows, rows[i].id);
    assert EnrolmentIdTaken(rows, rows[i].id);
    var j :| 0 <= j < |rows| && rows[j] == row.value;
    assert i == j;
  }

  lemma FoundIsTaken(rows: seq<Enrolment>, id: Id)
    requires EnrolmentRow(rows, id).Some?
    ensures EnrolmentIdTaken(rows, id)
  {
    var j :| 0 <= j < |rows| && rows[j] == EnrolmentRow(rows, id).value;
  }

  lemma RowMissing(rows: seq<Enrolment>, id: Id)
    requires !EnrolmentIdTaken(rows, id)
    ensures EnrolmentRow(rows, id) == None
  {
    if EnrolmentRow(rows, id).Some? {
      FoundIsTaken(rows, id);
    }
  }

  lemma MarkedRow(rows: seq<Enrolment>, i: nat, status: string, id: Id)
    requires DistinctIds(rows) && i < |rows|
    ensures var marked := rows[i].(status := status);
            EnrolmentRow(rows[i := marked], id) == if id == rows[i].id then Some(marked) else EnrolmentRow(rows, id)
  {
    var next := rows[i := rows[i].(status := status)];
    assert DistinctIds(next) by {
      assert forall k :: 0 <= k < |rows| ==> next[k].id == rows[k].id;
    }
    if EnrolmentIdTaken(rows, id) {
      var k :| 0 <= k < |rows| && rows[k].id == id;
      RowFound(rows, k);
      RowFound(next, k);
    } else {
      RowMissing(rows, id);
      assert forall k :: 0 <= k < |rows| ==> next[k].id == rows[k].id;
      RowMissing(next, id);
    }
  }

  lemma AppendedRow(rows: seq<Enrolment>, row: Enrolment, id: Id)
    requires DistinctIds(rows) && !EnrolmentIdTaken(rows, row.id)
    ensures EnrolmentRow(rows + [row], id) == if id == row.id then Some(row) else EnrolmentRow(rows, id)
  {
    var next := rows + [row];
    assert DistinctIds(next);
    if id == row.id {
      RowFound(next, |rows|);
    } else if EnrolmentIdTaken(rows, id) {
      var k :| 0 <= k < |rows| && rows[k].id == id;
      RowFound(rows, k);
      RowFound(next, k);
    } else {
      RowMissing(rows, id);
      RowMissing(next, id);
    }
  }

  // Both writes to the enrolment table in one shape: one row differs, or one is appended.
  ghost predicate RowWritten(rows: seq<Enrolment>, next: seq<Enrolment>, row: Enrolment) {
    forall id :: EnrolmentRow(next, id) == if id == row.id then Some(row) else EnrolmentRow(rows, id)
  }

  lemma EnrolmentRecorded(t: Tables, next: Tables, row: Enrolment)
    requires next == t.(enrolments := next.enrolments) && RowWritten(t.enrolments, next.enrolments, row)
    ensures forall key :: Current(next, key)
              == if key == EnrolmentKey(row.id) then Some(EnrolmentSnapshot(row)) else Current(t, key)
  {
    forall key
      ensures Current(next, key)
           == if key == EnrolmentKey(row.id) then Some(EnrolmentSnapshot(row)) else Current(t, key)
    {
      if key.OfferingKey? {
        assert LecturerOf(next, key.id) == LecturerOf(t, key.id);
      } else if key.EnrolmentKey? {
        assert EnrolmentRow(next.enrolments, key.id)
            == if key.id == row.id then Some(row) else EnrolmentRow(t.enrolments, key.id);
      }
    }
  }

  lemma CreateCourseRecords(refs: References, t: Tables, id: Id, course: Course)
    ensures var r := DoCreateCourse(refs, t, id, course); r.Ok? ==> Records(t, r.value)
  {
    CourseRecorded(t, id, course.(code := Upper(course.code)));
  }

  lemma UpdateCourseRecords(refs: References, t: Tables, id: Id, course: Course)
    ensures var r := DoUpdateCourse(refs, t, id, course); r.Ok? ==> Records(t, r.value)
  {
    CourseRecorded(t, id, course.(code := Upper(course.code)));
  }

  lemma CreateOfferingRecords(refs: References, t: Tables, id: Id, offering: Offering, lecturerId: Id)
    ensures var r := DoCreateOffering(refs, t, id, offering, lecturerId); r.Ok? ==> Records(t, r.value)
  {
    if id !in t.offerings {
      OfferingRecorded(t, SetOfferingLecturer(t.(offerings := t.offerings[id := offering]), id, lecturerId), id, lecturerId);
    }
  }

  lemma UpdateOfferingRecords(refs: References, t: Tables, id: Id, offering: Offering, lecturerId: Id)
    ensures var r := DoUpdateOffering(refs, t, id, offering, lecturerId); r.Ok? ==> Records(t, r.value)
  {
    OfferingRecorded(t, SetOfferingLecturer(t.(offerings := t.offerings[id := offering]), id, lecturerId), id, lecturerId);
  }

  lemma AssignLecturerRecords(refs: References, t: Tables, id: Id, lecturerId: Id)
    ensures var r := DoAssignLecturer(refs, t, id, lecturerId); r.Ok? ==> Records(t, r.value)
  {
    if id in t.offerings {
      OfferingRecorded(t, SetOfferingLecturer(t, id, lecturerId), id, lecturerId);
    }
  }

  lemma UpsertWrites(t: Tables, id: Id, offeringId: Id, studentId: Id)
    requires DistinctIds(t.enrolments) && UpsertEnrolment(t, id, offeringId, studentId).Ok?
    ensures var next := UpsertEnrolment(t, id, offeringId, studentId).value;
            var i := EnrolmentIndex(t.enrolments, offeringId, studentId);
            i < |next.enrolments| && RowWritten(t.enrolments, next.enrolments, next.enrolments[i])
  {
    var i := EnrolmentIndex(t.enrolments, offeringId, studentId);
    var next := UpsertEnrolment(t, id, offeringId, studentId).value;
    forall k ensures EnrolmentRow(next.enrolments, k)
                  == if k == next.enrolments[i].id then Some(next.enrolments[i]) else EnrolmentRow(t.enrolments, k)
    {
      if i < |t.enrolments| {
        MarkedRow(t.enrolments, i, "enrolled", k);
      } else {
        AppendedRow(t.enrolments, Enrolment(id, offeringId, studentId, "enrolled"), k);
      }
    }
  }

  // With every reference in place, the joins of the enrolment query drop nothing.
  lemma EnrolmentFound(refs: References, t: Tables, offeringId: Id, studentId: Id)
    requires OfferingsSound(refs, t) && EnrolmentsSound(refs, t)
    ensures var i := EnrolmentIndex(t.enrolments, offeringId, studentId);
            FindEnrolment(refs, t, offeringId, studentId)
            == if i < |t.enrolments| then Some(EnrolmentSnapshot(t.enrolments[i])) else None
  {
  }

  lemma EnrolWritten(t: Tables, next: Tables, id: Id, offeringId: Id, studentId: Id)
    requires DistinctIds(t.enrolments) && UpsertEnrolment(t, id, offeringId, studentId) == Ok(next)
    ensures var i := EnrolmentIndex(t.enrolments, offeringId, studentId);
            && i == EnrolmentIndex(next.enrolments, offeringId, studentId) < |next.enrolments|
            && (forall key :: Current(next, key)
                  == if key == EnrolmentKey(next.enrolments[i].id) then Some(EnrolmentSnapshot(next.enrolments[i]))
                     else Current(t, key))
            && Current(t, EnrolmentKey(next.enrolments[i].id))
               == if i < |t.enrolments| then Some(EnrolmentSnapshot(t.enrolments[i])) else None
  {
    var i := EnrolmentIndex(t.enrolments, offeringId, studentId);
    UpsertWrites(t, id, offeringId, studentId);
    UpsertFound(t, id, offeringId, studentId);
    EnrolmentRecorded(t, next, next.enrolments[i]);
    if i < |t.enrolments| {
      RowFound(t.enrolments, i);
    } else {
      RowMissing(t.enrolments, id);
    }
  }

  lemma EnrolChange(refs: References, t: Tables, newId: Id, offeringId: Id, studentId: Id, id: Id)
    requires OfferingsSound(refs, t) && EnrolmentsSound(refs, t)
    requires var i := EnrolmentIndex(t.enrolments, offeringId, studentId);
             id == if i < |t.enrolments| then t.enrolments[i].id else newId
    ensures var r := DoEnrolStudent(refs, t, newId, offeringId, studentId);
            var i := EnrolmentIndex(t.enrolments, offeringId, studentId);
            r.Ok? ==> && UpsertEnrolment(t, id, offeringId, studentId) == Ok(r.value.tables) && i < |r.value.tables.enrolments|
                      && r.value == Change(r.value.tables, EnrolmentEnrol, r.value.tables.enrolments[i].id,
                                           if i < |t.enrolments| then Some(EnrolmentSnapshot(t.enrolments[i])) else None,
                                           EnrolmentSnapshot(r.value.tables.enrolments[i]))
  {
    EnrolmentFound(refs, t, offeringId, studentId);
    if UpsertEnrolment(t, id, offeringId, studentId).Ok? {
      UpsertFound(t, id, offeringId, studentId);
    }
  }

  lemma EnrolRecords(refs: References, t: Tables, newId: Id, offeringId: Id, studentId: Id)
    requires OfferingsSound(refs, t) && EnrolmentsSound(refs, t)
    ensures var r := DoEnrolStudent(refs, t, newId, offeringId, studentId); r.Ok? ==> Records(t, r.value)
  {
    var r := DoEnrolStudent(refs, t, newId, offeringId, studentId);
    if r.Ok? {
      var i := EnrolmentIndex(t.enrolments, offeringId, studentId);
      var id := if i < |t.enrolments| then t.enrolments[i].id else newId;
      EnrolChange(refs, t, newId, offeringId, studentId, id);
      EnrolWritten(t, r.value.tables, id, offeringId, studentId);
    }
  }

  lemma DropWrites(t: Tables, next: Tables, offeringId: Id, studentId: Id)
    requires DistinctIds(t.enrolments) && next == DropEnrolment(t, offeringId, studentId)
    ensures var i := EnrolmentIndex(t.enrolments, offeringId, studentId);
            i < |t.enrolments| ==> && i < |next.enrolments| && next == t.(enrolments := next.enrolments)
                                   && RowWritten(t.enrolments, next.enrolments, next.enrolments[i])
  {
    var i := EnrolmentIndex(t.enrolments, offeringId, studentId);
    if i < |t.enrolments| {
      forall k ensures EnrolmentRow(next.enrolments, k)
                    == if k == next.enrolments[i].id then Some(next.enrolments[i]) else EnrolmentRow(t.enrolments, k)
      {
        MarkedRow(t.enrolments, i, "dropped", k);
      }
    }
  }

  lemma DropRecords(refs: References, t: Tables, offeringId: Id, studentId: Id)
    requires OfferingsSound(refs, t) && EnrolmentsSound(refs, t)
    ensures var r := DoDropStudent(refs, t, offeringId, studentId); r.Ok? ==> Records(t, r.value)
  {
    var i := EnrolmentIndex(t.enrolments, offeringId, studentId);
    if i < |t.enrolments| {
      var next := DropEnrolment(t, offeringId, studentId);
      DropWrites(t, next, offeringId, studentId);
      FirstIndex(next.enrolments, offeringId, studentId, i);
      EnrolmentRecorded(t, next, next.enrolments[i]);
      RowFound(t.enrolments, i);
    }
  }

  lemma CreateTimetableEntryRecords(refs: References, t: Tables, id: Id, entry: TimetableEntry)
    ensures var r := DoCreateTimetableEntry(refs, t, id, entry); r.Ok? ==> Records(t, r.value)
  {
    TimetableRecorded(t, id, entry);
  }

  lemma UpdateTimetableEntryRecords(refs: References, t: Tables, id: Id, entry: TimetableEntry)
    ensures var r := DoUpdateTimetableEntry(refs, t, id, entry); r.Ok? ==> Records(t, r.value)
  {
    TimetableRecorded(t, id, entry);
  }

  lemma DeactivateTimetableEntryRecords(t: Tables, id: Id)
    ensures var r := DoDeactivateTimetableEntry(t, id); r.Ok? ==> Records(t, r.value)
  {
    if id in t.timetable {
      TimetableRecorded(t, id, t.timetable[id].(status := "inactive"));
    }
  }

  lemma ExecuteRecords(refs: References, t: Tables, op: Operation)
    requires WellFormed(refs, t)
    ensures Execute(refs, t, op).Ok? ==> Records(t, Execute(refs, t, op).value)
  {
    match op {
      case CreateCourse(id, course) => CreateCourseRecords(refs, t, id, course);
      case UpdateCourse(id, course) => UpdateCourseRecords(refs, t, id, course);
      case CreateOffering(id, offering, lecturerId) => CreateOfferingRecords(refs, t, id, offering, lecturerId);
      case UpdateOffering(id, offering, lecturerId) => UpdateOfferingRecords(refs, t, id, offering, lecturerId);
      case AssignLecturer(id, lecturerId) => AssignLecturerRecords(refs, t, id, lecturerId);
      case EnrolStudent(id, offeringId, studentId) => EnrolRecords(refs, t, id, offeringId, studentId);
      case DropStudent(offeringId, studentId) => DropRecords(refs, t, offeringId, studentId);
      case CreateTimetableEntry(id, entry) => CreateTimetableEntryRecords(refs, t, id, entry);
      case UpdateTimetableEntry(id, entry) => UpdateTimetableEntryRecords(refs, t, id, entry);
      case DeactivateTimetableEntry(id) => DeactivateTimetableEntryRecords(t, id);
    }
  }

  // ----- enrolment counts, read off the log

  // The entry enrols a student in the offering.
  predicate Enrols(entry: AuditEntry, offeringId: Id) {
    entry.action == EnrolmentEnrol && entry.newValues.EnrolmentSnapshot?
    && entry.newValues.enrolment.offeringId == offeringId
  }

  // The entry drops a student who was enrolled in the offering.
  predicate DropsEnrolled(entry: AuditEntry, offeringId: Id) {
    && entry.action == EnrolmentDrop
    && entry.oldValues.Some? && entry.oldValues.value.EnrolmentSnapshot?
    && entry.oldValues.value.enrolment.offeringId == offeringId
    && entry.oldValues.value.enrolment.status == "enrolled"
  }

  function CountEntries(log: seq<AuditEntry>, offeringId: Id, counted: (AuditEntry, Id) -> bool): nat {
    if log == [] then 0
    else CountEntries(log[..|log| - 1], offeringId, counted) + (if counted(log[|log| - 1], offeringId) then 1 else 0)
  }

  function Weight(row: Enrolment, offeringId: Id): nat {
    if row.offeringId == offeringId && row.status == "enrolled" then 1 else 0
  }

  lemma {:induction false} CountAppended(rows: seq<Enrolment>, row: Enrolment, offeringId: Id)
    ensures EnrolledCount(rows + [row], offeringId) == EnrolledCount(rows, offeringId) + Weight(row, offeringId)
  {
    if rows == [] {
      assert rows + [row] == [row];
      assert EnrolledCount([row][1..], offeringId) == 0;
    } else {
      assert (rows + [row])[1..] == rows[1..] + [row];
      CountAppended(rows[1..], row, offeringId);
    }
  }

  lemma {:induction false} CountReplaced(rows: seq<Enrolment>, i: nat, row: Enrolment, offeringId: Id)
    requires i < |rows|
    ensures EnrolledCount(rows[i := row], offeringId) + Weight(rows[i], offeringId)
         == EnrolledCount(rows, offeringId) + Weight(row, offeringId)
  {
    if i == 0 {
      assert rows[i := row][1..] == rows[1..];
    } else {
      assert rows[i := row][1..] == rows[1..][i - 1 := row];
      CountReplaced(rows[1..], i - 1, row, offeringId);
    }
  }

  // What a transaction adds to an offering's count is what its log entry says.
  ghost predicate Counts(t: Tables, actor: Id, change: Change) {
    forall o ::
      EnrolledCount(change.tables.enrolments, o) + (if DropsEnrolled(EntryOf(actor, change), o) then 1 else 0)
      == EnrolledCount(t.enrolments, o) + (if Enrols(EntryOf(actor, change), o) then 1 else 0)
  }

  lemma EnrolCounts(refs: References, t: Tables, actor: Id, newId: Id, offeringId: Id, studentId: Id)
    requires OfferingsSound(refs, t) && EnrolmentsSound(refs, t)
    ensures var r := DoEnrolStudent(refs, t, newId, offeringId, studentId); r.Ok? ==> Counts(t, actor, r.value)
  {
    var r := DoEnrolStudent(refs, t, newId, offeringId, studentId);
    if r.Ok? {
      var i := EnrolmentIndex(t.enrolments, offeringId, studentId);
      var before := FindEnrolment(refs, t, offeringId, studentId);
      EnrolmentFound(refs, t, offeringId, studentId);
      UpsertFound(t, if before.Some? then before.value.enrolment.id else newId, offeringId, studentId);
      forall o ensures EnrolledCount(r.value.tables.enrolments, o) + Weight(Enrolment(newId, offeringId, studentId, "dropped"), o)
                    == EnrolledCount(t.enrolments, o) + Weight(Enrolment(newId, offeringId, studentId, "enrolled"), o)
      {
        if i < |t.enrolments| {
          CountReplaced(t.enrolments, i, t.enrolments[i].(status := "enrolled"), o);
        } else {
          CountAppended(t.enrolments, Enrolment(newId, offeringId, studentId, "enrolled"), o);
        }
      }
    }
  }

  lemma DropCounts(refs: References, t: Tables, actor: Id, offeringId: Id, studentId: Id)
    ensures var r := DoDropStudent(refs, t, offeringId, studentId); r.Ok? ==> Counts(t, actor, r.value)
  {
    var r := DoDropStudent(refs, t, offeringId, studentId);
    if r.Ok? {
      var i := EnrolmentIndex(t.enrolments, offeringId, studentId);
      forall o ensures EnrolledCount(r.value.tables.enrolments, o) + Weight(t.enrolments[i], o) == EnrolledCount(t.enrolments, o) {
        CountReplaced(t.enrolments, i, t.enrolments[i].(status := "dropped"), o);
      }
    }
  }

  lemma OthersKeepEnrolments(refs: References, t: Tables, op: Operation)
    requires !op.EnrolStudent? && !op.DropStudent?
    ensures var r := Execute(refs, t, op);
            r.Ok? ==> r.value.tables.enrolments == t.enrolments && r.value.action !in {EnrolmentEnrol, EnrolmentDrop}
  {
  }

  lemma ExecuteCounts(refs: References, t: Tables, actor: Id, op: Operation)
    requires WellFormed(refs, t)
    ensures Execute(refs, t, op).Ok? ==> Counts(t, actor, Execute(refs, t, op).value)
  {
    match op {
      case EnrolStudent(id, offeringId, studentId) => EnrolCounts(refs, t, actor, id, offeringId, studentId);
      case DropStudent(offeringId, studentId) => DropCounts(refs, t, actor, offeringId, studentId);
      case _ => OthersKeepEnrolments(refs, t, op);
    }
  }

  // ----- the log as a history of the tables

  // Replaying the log gives the rows the tables hold.
  ghost predicate LogRebuilds(store: Store) {
    forall key :: Held(Replay(store.log), key) == Current(store.tables, key)
  }

  // Every entry's old values are what the replay of the entries before it held.
  ghost predicate OldValuesHold(log: seq<AuditEntry>) {
    forall i :: 0 <= i < |log| ==> OldValueHolds(log, i)
  }

  ghost predicate OldValueHolds(log: seq<AuditEntry>, i: nat)
    requires i < |log|
  {
    log[i].oldValues == Held(Replay(log[..i]), KeyOf(log[i]))
  }

  // Every offering's count is its logged enrolments less the drops of enrolled students.
  ghost predicate CountsAgree(store: Store) {
    forall o :: EnrolledCount(store.tables.enrolments, o) + CountEntries(store.log, o, DropsEnrolled)
             == CountEntries(store.log, o, Enrols)
  }

  ghost predicate History(store: Store) {
    LogRebuilds(store) && OldValuesHold(store.log) && CountsAgree(store)
  }

  lemma ReplaySnoc(log: seq<AuditEntry>, entry: AuditEntry)
    ensures Replay(log + [entry]) == Replay(log)[KeyOf(entry) := entry.newValues]
  {
    assert (log + [entry])[..|log|] == log;
  }

  lemma CountSnoc(log: seq<AuditEntry>, entry: AuditEntry, o: Id, counted: (AuditEntry, Id) -> bool)
    ensures CountEntries(log + [entry], o, counted) == CountEntries(log, o, counted) + (if counted(entry, o) then 1 else 0)
  {
    assert (log + [entry])[..|log|] == log;
  }

  lemma AppendRebuilds(store: Store, actor: Id, change: Change)
    requires LogRebuilds(store) && Mirrors(store.tables, change)
    ensures LogRebuilds(Store(change.tables, store.log + [EntryOf(actor, change)]))
  {
    var next := Store(change.tables, store.log + [EntryOf(actor, change)]);
    ReplaySnoc(store.log, EntryOf(actor, change));
    forall key ensures Held(Replay(next.log), key) == Current(next.tables, key) {
      assert Held(Replay(store.log), key) == Current(store.tables, key);
    }
  }

  // One more entry keeps the law exactly when its own old values are right.
  lemma AppendOldValue(log: seq<AuditEntry>, entry: AuditEntry)
    ensures OldValuesHold(log + [entry]) <==> OldValuesHold(log) && entry.oldValues == Held(Replay(log), KeyOf(entry))
  {
    var next := log + [entry];
    forall i | 0 <= i < |log| ensures OldValueHolds(next, i) <==> OldValueHolds(log, i) {
      assert next[..i] == log[..i];
    }
    assert next[..|log|] == log;
    assert OldValueHolds(next, |log|) <==> entry.oldValues == Held(Replay(log), KeyOf(entry));
    if OldValuesHold(next) {
      forall i | 0 <= i < |log| ensures OldValueHolds(log, i) {
        assert OldValueHolds(next, i);
      }
    }
  }

  lemma AppendCounts(store: Store, actor: Id, change: Change)
    requires CountsAgree(store) && Counts(store.tables, actor, change)
    ensures CountsAgree(Store(change.tables, store.log + [EntryOf(actor, change)]))
  {
    var next := Store(change.tables, store.log + [EntryOf(actor, change)]);
    forall o ensures EnrolledCount(next.tables.enrolments, o) + CountEntries(next.log, o, DropsEnrolled)
                  == CountEntries(next.log, o, Enrols)
    {
      CountSnoc(store.log, EntryOf(actor, change), o, DropsEnrolled);
      CountSnoc(store.log, EntryOf(actor, change), o, Enrols);
    }
  }

  lemma AppendHistory(store: Store, actor: Id, change: Change)
    requires History(store) && Records(store.tables, change) && Counts(store.tables, actor, change)
    ensures History(Store(change.tables, store.log + [EntryOf(actor, change)]))
  {
    AppendRebuilds(store, actor, change);
    AppendOldValue(store.log, EntryOf(actor, change));
    AppendCounts(store, actor, change);
    assert Held(Replay(store.log), EntityKey(change.action, change.entityId))
        == Current(store.tables, EntityKey(change.action, change.entityId));
  }

  /** A transaction, committed or refused, keeps the log the complete history of the tables,
      and the tables well formed; and none of its assertions can fail. */
  lemma TransactKeeps(refs: References, store: Store, actor: Id, op: Operation)
    requires WellFormed(refs, store.tables) && History(store)
    ensures WellFormed(refs, Transact(refs, store, actor, op).tables)
    ensures History(Transact(refs, store, actor, op))
    ensures Execute(refs, store.tables, op) != Err(AssertionFailed)
  {
    ExecuteKeeps(refs, store.tables, op);
    if Execute(refs, store.tables, op).Ok? {
      ExecuteRecords(refs, store.tables, op);
      ExecuteCounts(refs, store.tables, actor, op);
      AppendHistory(store, actor, Execute(refs, store.tables, op).value);
    }
  }

  lemma EmptyHistory()
    ensures History(Store(EMPTY_TABLES, []))
  {
    forall key ensures Held(Replay([]), key) == Current(EMPTY_TABLES, key) {
    }
  }

  // ----- over every run

  lemma {:induction false} RunsKeepHistory(refs: References, requests: seq<Request>)
    ensures WellFormed(refs, After(refs, requests).tables) && History(After(refs, requests))
  {
    if requests == [] {
      EmptyHistory();
    } else {
      var last := requests[|requests| - 1];
      RunsKeepHistory(refs, requests[..|requests| - 1]);
      TransactKeeps(refs, After(refs, requests[..|requests| - 1]), last.actor, last.op);
    }
  }

  /** Replaying the log of any run rebuilds exactly the rows the tables hold. */
  lemma ReplayRebuildsTables(refs: References, requests: seq<Request>, key: Key)
    ensures Held(Replay(After(refs, requests).log), key) == Current(After(refs, requests).tables, key)
  {
    RunsKeepHistory(refs, requests);
  }

  /** Every entry's old values are what the replay of the entries before it held; for
      mutations that overlap see AcademicRaces. */
  lemma OldValuesAreTheReplay(refs: References, requests: seq<Request>, i: nat)
    requires i < |After(refs, requests).log|
    ensures var log := After(refs, requests).log; log[i].oldValues == Held(Replay(log[..i]), KeyOf(log[i]))
  {
    RunsKeepHistory(refs, requests);
    assert OldValueHolds(After(refs, requests).log, i);
  }

  /** An offering's enrolled count is the number of enrolments the log records for it less
      the drops of students who were enrolled; a repeated drop counts for nothing. For
      mutations that overlap see AcademicRaces. */
  lemma CountIsInTheLog(refs: References, requests: seq<Request>, offeringId: Id)
    ensures var store := After(refs, requests);
            EnrolledCount(store.tables.enrolments, offeringId) + CountEntries(store.log, offeringId, DropsEnrolled)
            == CountEntries(store.log, offeringId, Enrols)
  {
    RunsKeepHistory(refs, requests);
  }

  // The same rows, up to the order in which they are stored.
  ghost predicate SameRows(t: Tables, u: Tables) {
    && t.courses == u.courses && t.offerings == u.offerings && t.timetable == u.timetable
    && (forall row :: row in t.enrolments <==> row in u.enrolments)
    && (forall id :: id in t.offerings ==> LecturersOf(t.assignments, id) == LecturersOf(u.assignments, id))
  }

  lemma MapsAgree(t: Tables, u: Tables)
    requires forall key :: Current(t, key) == Current(u, key)
    ensures t.courses == u.courses && t.offerings == u.offerings && t.timetable == u.timetable
    ensures forall id :: id in t.offerings ==> LecturerOf(t, id) == LecturerOf(u, id)
  {
    forall id ensures id in t.courses <==> id in u.courses
              ensures id in t.courses && id in u.courses ==> t.courses[id] == u.courses[id]
    {
      assert Current(t, CourseKey(id)) == Current(u, CourseKey(id));
    }
    forall id ensures id in t.offerings <==> id in u.offerings
              ensures id in t.offerings && id in u.offerings ==>
                        t.offerings[id] == u.offerings[id] && LecturerOf(t, id) == LecturerOf(u, id)
    {
      assert Current(t, OfferingKey(id)) == Current(u, OfferingKey(id));
    }
    forall id ensures id in t.timetable <==> id in u.timetable
              ensures id in t.timetable && id in u.timetable ==> t.timetable[id] == u.timetable[id]
    {
      assert Current(t, TimetableKey(id)) == Current(u, TimetableKey(id));
    }
  }

  lemma EnrolmentsAgree(t: Tables, u: Tables, row: Enrolment)
    requires DistinctIds(t.enrolments) && row in t.enrolments
    requires Current(t, EnrolmentKey(row.id)) == Current(u, EnrolmentKey(row.id))
    ensures row in u.enrolments
  {
    var i :| 0 <= i < |t.enrolments| && t.enrolments[i] == row;
    RowFound(t.enrolments, i);
  }

  lemma TablesAgree(t: Tables, u: Tables)
    requires DistinctIds(t.enrolments) && DistinctIds(u.enrolments)
    requires forall id :: id in t.offerings ==> |LecturersOf(t.assignments, id)| == 1
    requires forall id :: id in u.offerings ==> |LecturersOf(u.assignments, id)| == 1
    requires forall key :: Current(t, key) == Current(u, key)
    ensures SameRows(t, u)
  {
    MapsAgree(t, u);
    forall row ensures row in t.enrolments <==> row in u.enrolments {
      if row in t.enrolments { EnrolmentsAgree(t, u, row); }
      if row in u.enrolments { EnrolmentsAgree(u, t, row); }
    }
    forall id | id in t.offerings ensures LecturersOf(t.assignments, id) == LecturersOf(u.assignments, id) {
      assert LecturerOf(t, id) == LecturerOf(u, id);
    }
  }

  /** The log alone determines the tables: runs that wrote the same log hold the same rows. */
  lemma LogDeterminesTables(refs: References, requests: seq<Request>, others: seq<Request>)
    requires After(refs, requests).log == After(refs, others).log
    ensures SameRows(After(refs, requests).tables, After(refs, others).tables)
  {
    var t, u := After(refs, requests).tables, After(refs, others).tables;
    RunsKeepTables(refs, requests);
    RunsKeepTables(refs, others);
    forall key ensures Current(t, key) == Current(u, key) {
      ReplayRebuildsTables(refs, requests, key);
      ReplayRebuildsTables(refs, others, key);
    }
    TablesAgree(t, u);
  }

  // ----- enrolling and dropping, in any order

  /** A student who is enrolled is refused, one who is not is enrolled under the id the pair
      already had; a fresh id can only be refused when it is already taken. This is one
      enrolment at a time; for overlapping ones see AcademicRaces. */
  lemma EnrolmentIsRefusedExactly(refs: References, t: Tables, newId: Id, offeringId: Id, studentId: Id)
    requires WellFormed(refs, t) && offeringId in t.offerings && studentId in refs.students
    ensures var i := EnrolmentIndex(t.enrolments, offeringId, studentId);
            var r := DoEnrolStudent(refs, t, newId, offeringId, studentId);
            && (r.Err? <==> if i < |t.enrolments| then t.enrolments[i].status == "enrolled"
                            else EnrolmentIdTaken(t.enrolments, newId))
            && (r.Err? ==> r.error == Conflict)
            && (r.Ok? ==> r.value.entityId == if i < |t.enrolments| then t.enrolments[i].id else newId)
  {
    EnrolmentFound(refs, t, offeringId, studentId);
    var before := FindEnrolment(refs, t, offeringId, studentId);
    var id := if before.Some? then before.value.enrolment.id else newId;
    if UpsertEnrolment(t, id, offeringId, studentId).Ok? {
      UpsertFound(t, id, offeringId, studentId);
    }
  }

  lemma DropValue(refs: References, t: Tables, offeringId: Id, studentId: Id)
    requires OfferingsSound(refs, t) && EnrolmentsSound(refs, t)
    ensures var i := EnrolmentIndex(t.enrolments, offeringId, studentId);
            DoDropStudent(refs, t, offeringId, studentId)
            == if i == |t.enrolments| then Err(NotFound("enrolment"))
               else Ok(Change(t.(enrolments := t.enrolments[i := t.enrolments[i].(status := "dropped")]), EnrolmentDrop,
                              t.enrolments[i].id, Some(EnrolmentSnapshot(t.enrolments[i])),
                              EnrolmentSnapshot(t.enrolments[i].(status := "dropped"))))
  {
    var i := EnrolmentIndex(t.enrolments, offeringId, studentId);
    if i < |t.enrolments| {
      var next := DropEnrolment(t, offeringId, studentId);
      FirstIndex(next.enrolments, offeringId, studentId, i);
    }
  }

  /** A second drop commits again and changes no row: it only logs that nothing changed. */
  lemma DroppingTwice(refs: References, t: Tables, offeringId: Id, studentId: Id)
    requires WellFormed(refs, t)
    ensures var first := DoDropStudent(refs, t, offeringId, studentId);
            first.Ok? ==>
              var second := DoDropStudent(refs, first.value.tables, offeringId, studentId);
              second.Ok? && second.value.tables == first.value.tables
              && second.value.oldValues == Some(second.value.newValues)
  {
    DropValue(refs, t, offeringId, studentId);
    var first := DoDropStudent(refs, t, offeringId, studentId);
    if first.Ok? {
      var i := EnrolmentIndex(t.enrolments, offeringId, studentId);
      DropKeeps(refs, t, offeringId, studentId);
      FirstIndex(first.value.tables.enrolments, offeringId, studentId, i);
      DropValue(refs, first.value.tables, offeringId, studentId);
    }
  }

  /** Enrolling again undoes a drop: the tables are what they were, whatever id was drawn. */
  lemma EnrollingUndoesDropping(refs: References, t: Tables, newId: Id, offeringId: Id, studentId: Id)
    requires WellFormed(refs, t)
    requires var i := EnrolmentIndex(t.enrolments, offeringId, studentId);
             i < |t.enrolments| && t.enrolments[i].status == "enrolled"
    ensures var dropped := DoDropStudent(refs, t, offeringId, studentId);
            dropped.Ok?
            && var again := DoEnrolStudent(refs, dropped.value.tables, newId, offeringId, studentId);
               again.Ok? && again.value.tables == t
  {
    DropValue(refs, t, offeringId, studentId);
    var i := EnrolmentIndex(t.enrolments, offeringId, studentId);
    var next := DoDropStudent(refs, t, offeringId, studentId).value.tables;
    DropKeeps(refs, t, offeringId, studentId);
    FirstIndex(next.enrolments, offeringId, studentId, i);
    EnrolmentFound(refs, next, offeringId, studentId);
    var again := UpsertEnrolment(next, next.enrolments[i].id, offeringId, studentId);
    assert again.value.enrolments == t.enrolments;
    EnrolmentFound(refs, t, offeringId, studentId);
  }

  // ----- nothing disappears

  // Rows are only added, and an enrolment row keeps its place, its id and its pair.
  ghost predicate Persists(t: Tables, later: Tables) {
    && t.courses.Keys <= later.courses.Keys
    && t.offerings.Keys <= later.offerings.Keys
    && t.timetable.Keys <= later.timetable.Keys
    && |t.enrolments| <= |later.enrolments|
    && (forall i :: 0 <= i < |t.enrolments| ==> later.enrolments[i].(status := "") == t.enrolments[i].(status := ""))
  }

  lemma EnrolmentsPersist(refs: References, t: Tables, op: Operation)
    requires op.EnrolStudent? || op.DropStudent?
    ensures Execute(refs, t, op).Ok? ==> Persists(t, Execute(refs, t, op).value.tables)
  {
  }

  lemma OthersPersist(refs: References, t: Tables, op: Operation)
    requires !op.EnrolStudent? && !op.DropStudent?
    ensures Execute(refs, t, op).Ok? ==> Persists(t, Execute(refs, t, op).value.tables)
  {
    OthersKeepEnrolments(refs, t, op);
  }

  lemma ExecutePersists(refs: References, t: Tables, op: Operation)
    ensures Execute(refs, t, op).Ok? ==> Persists(t, Execute(refs, t, op).value.tables)
  {
    if op.EnrolStudent? || op.DropStudent? {
      EnrolmentsPersist(refs, t, op);
    } else {
      OthersPersist(refs, t, op);
    }
  }

  lemma {:induction false} RunsPersist(refs: References, requests: seq<Request>, k: nat)
    requires k <= |requests|
    ensures Persists(After(refs, requests[..k]).tables, After(refs, requests).tables)
    decreases |requests|
  {
    if k == |requests| {
      assert requests[..k] == requests;
    } else {
      var front := requests[..|requests| - 1];
      assert front[..k] == requests[..k];
      RunsPersist(refs, front, k);
      ExecutePersists(refs, After(refs, front).tables, requests[|requests| - 1].op);
    }
  }

  /** Once a pair of offering and student has an enrolment row it has that row, with that
      id, for ever: drops and later enrolments only change its status. */
  lemma EnrolmentIdNeverChanges(refs: References, requests: seq<Request>, k: nat, offeringId: Id, studentId: Id)
    requires k <= |requests|
    ensures var rows := After(refs, requests[..k]).tables.enrolments;
            var later := After(refs, requests).tables.enrolments;
            var i := EnrolmentIndex(rows, offeringId, studentId);
            i < |rows| ==> i < |later| && later[i].id == rows[i].id && EnrolmentIndex(later, offeringId, studentId) == i
  {
    var rows := After(refs, requests[..k]).tables.enrolments;
    var later := After(refs, requests).tables.enrolments;
    RunsPersist(refs, requests, k);
    var i := EnrolmentIndex(rows, offeringId, studentId);
    if i < |rows| {
      assert forall j :: 0 <= j <= i ==> later[j].(status := "") == rows[j].(status := "");
      FirstIndex(later, offeringId, studentId, i);
    }
  }
}
