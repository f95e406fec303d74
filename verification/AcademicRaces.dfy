/** Overlapping mutations. A transaction holds the lock of the row it read until it commits,
    with two gaps. A student's first enrolment in an offering finds no row to lock, and its
    upsert then takes the ON CONFLICT branch when another one got there first
    (service.py:225-243, repository.py:262-276). And an offering's locked read waits for the
    offering's row alone: the lecturer in the same record is the one of the moment the
    statement began (repository.py:94-99 and 222-224). A transaction that gives up while it
    waits, or whose joined rows no longer fit the row it waited for, is an Abort; simultaneous
    inserts of one natural key are refused by its unique index, as if one came second. */
module AcademicRaces {
  import opened Wrappers
  import opened AcademicData
  import opened AcademicHistory
  import opened AcademicAudit

  type TransactionId = nat

  // A transaction between its locked read and its first write, when that read can go stale:
  // a first enrolment has read no row, a change of an offering the lecturer it has `seen`.
  datatype Pending =
    | FirstEnrolment(actor: Id, newId: Id, offeringId: Id, studentId: Id)
    | OfferingWrite(actor: Id, id: Id, offering: Option<Offering>, lecturerId: Id, seen: Option<Id>)

  datatype State = State(store: Store, pending: map<TransactionId, Pending>)

  // Begin runs up to a locked read that can go stale, else to the end; Finish runs from the
  // first write to the commit.
  datatype Step =
    | Begin(tx: TransactionId, request: Request)
    | Finish(tx: TransactionId)
    | Abort(tx: TransactionId)

  // Whether something outside this code keeps first enrolments of one pair, and changes of
  // one offering, from overlapping.
  datatype Policy = Policy(refs: References, enrolmentsApart: bool, offeringsApart: bool)

  datatype Commitment = Commitment(actor: Id, change: Change)

  predicate HasRow(t: Tables, offeringId: Id, studentId: Id) {
    EnrolmentIndex(t.enrolments, offeringId, studentId) < |t.enrolments|
  }

  predicate IsEnrolled(t: Tables, offeringId: Id, studentId: Id) {
    HasRow(t, offeringId, studentId)
    && t.enrolments[EnrolmentIndex(t.enrolments, offeringId, studentId)].status == "enrolled"
  }

  // The transaction a request leaves open after its locked read.
  function Opened(refs: References, t: Tables, request: Request): Option<Pending> {
    match request.op
    case EnrolStudent(newId, offeringId, studentId) =>
      if offeringId in t.offerings && studentId in refs.students && !HasRow(t, offeringId, studentId)
      then Some(FirstEnrolment(request.actor, newId, offeringId, studentId)) else None
    case UpdateOffering(id, offering, lecturerId) =>
      if FindOffering(refs, t, id).Some?
      then Some(OfferingWrite(request.actor, id, Some(offering), lecturerId, LecturerOf(t, id))) else None
    case AssignLecturer(id, lecturerId) =>
      if FindOffering(refs, t, id).Some?
      then Some(OfferingWrite(request.actor, id, None, lecturerId, LecturerOf(t, id))) else None
    case _ => None
  }

  // From the upsert on: the row read before is still None to this transaction.
  function EnrolFirst(refs: References, t: Tables, newId: Id, offeringId: Id, studentId: Id)
    : Result<Change, AcademicError>
  {
    match UpsertEnrolment(t, newId, offeringId, studentId)
    case Err(error) => Err(error)
    case Ok(after) =>
      var found := FindEnrolment(refs, after, offeringId, studentId);
      if found.None? then Err(AssertionFailed)
      else Committed(after, EnrolmentEnrol, found.value.enrolment.id, None, found)
  }

  function OperationOf(p: Pending): Operation
    requires p.OfferingWrite?
  {
    if p.offering.Some? then UpdateOffering(p.id, p.offering.value, p.lecturerId) else AssignLecturer(p.id, p.lecturerId)
  }

  function WithLecturer(values: Option<Snapshot>, lecturerId: Option<Id>): Option<Snapshot> {
    if values.Some? && values.value.OfferingSnapshot? then Some(values.value.(lecturerId := lecturerId)) else values
  }

  function Written(refs: References, t: Tables, p: Pending): Result<Change, AcademicError> {
    match p
    case FirstEnrolment(_, newId, offeringId, studentId) => EnrolFirst(refs, t, newId, offeringId, studentId)
    case OfferingWrite(_, _, _, _, seen) =>
      match Execute(refs, t, OperationOf(p))
      case Err(error) => Err(error)
      case Ok(change) => Ok(change.(oldValues := WithLecturer(change.oldValues, seen)))
  }

  // What the open transaction read is no longer so.
  predicate IsStale(t: Tables, p: Pending) {
    match p
    case FirstEnrolment(_, _, offeringId, studentId) => HasRow(t, offeringId, studentId)
    case OfferingWrite(_, id, _, _, seen) => LecturerOf(t, id) != seen
  }

  predicate SameRow(p: Pending, q: Pending) {
    if p.FirstEnrolment? then q.FirstEnrolment? && p.offeringId == q.offeringId && p.studentId == q.studentId
    else q.OfferingWrite? && p.id == q.id
  }

  predicate KeptApart(policy: Policy, p: Pending) {
    if p.FirstEnrolment? then policy.enrolmentsApart else policy.offeringsApart
  }

  predicate MustWait(policy: Policy, st: State, p: Pending) {
    KeptApart(policy, p) && exists tx :: tx in st.pending && SameRow(st.pending[tx], p)
  }

  predicate Enabled(policy: Policy, st: State, step: Step) {
    if step.Begin? then
      var open := Opened(policy.refs, st.store.tables, step.request);
      step.tx !in st.pending && (open.Some? ==> !MustWait(policy, st, open.value))
    else step.tx in st.pending
  }

  function CommitmentOf(actor: Id, result: Result<Change, AcademicError>): Option<Commitment> {
    if result.Ok? then Some(Commitment(actor, result.value)) else None
  }

  function Committing(policy: Policy, st: State, step: Step): Option<Commitment> {
    if !Enabled(policy, st, step) then None
    else
      match step
      case Begin(tx, request) =>
        if Opened(policy.refs, st.store.tables, request).Some? then None
        else CommitmentOf(request.actor, Execute(policy.refs, st.store.tables, request.op))
      case Finish(tx) => CommitmentOf(st.pending[tx].actor, Written(policy.refs, st.store.tables, st.pending[tx]))
      case Abort(_) => None
  }

  function NextPending(policy: Policy, st: State, step: Step): map<TransactionId, Pending> {
    if !Enabled(policy, st, step) then st.pending
    else if step.Begin? then
      var open := Opened(policy.refs, st.store.tables, step.request);
      if open.Some? then st.pending[step.tx := open.value] else st.pending
    else st.pending - {step.tx}
  }

  function Commit(store: Store, commitment: Option<Commitment>): Store {
    match commitment
    case None => store
    case Some(c) => Store(c.change.tables, store.log + [EntryOf(c.actor, c.change)])
  }

  // A step that is not enabled leaves the state as it is.
  function Apply(policy: Policy, st: State, step: Step): State {
    State(Commit(st.store, Committing(policy, st, step)), NextPending(policy, st, step))
  }

  function Run(policy: Policy, steps: seq<Step>): State {
    if steps == [] then State(Store(EMPTY_TABLES, []), map[])
    else Apply(policy, Run(policy, steps[..|steps| - 1]), steps[|steps| - 1])
  }

  // ----- what one commit writes and logs

  lemma UpsertedTables(refs: References, t: Tables, newId: Id, o: Id, s: Id)
    requires WellFormed(refs, t) && o in t.offerings && s in refs.students
    requires UpsertEnrolment(t, newId, o, s).Ok?
    ensures var next := UpsertEnrolment(t, newId, o, s).value;
            var i := EnrolmentIndex(t.enrolments, o, s);
            && WellFormed(refs, next) && next == t.(enrolments := next.enrolments) && i < |next.enrolments|
            && EnrolFirst(refs, t, newId, o, s)
               == Ok(Change(next, EnrolmentEnrol, next.enrolments[i].id, None, EnrolmentSnapshot(next.enrolments[i])))
  {
    var next := UpsertEnrolment(t, newId, o, s).value;
    UpsertKeeps(refs, t, newId, o, s);
    EnrolmentWriteKeeps(refs, t, next);
    UpsertFound(t, newId, o, s);
    EnrolmentFound(refs, next, o, s);
  }

  // An entry mirrors its write, whatever it gives as old values.
  ghost predicate Logs(t: Tables, change: Change, right: bool) {
    Mirrors(t, change) && (change.oldValues == Current(t, EntityKey(change.action, change.entityId)) <==> right)
  }

  lemma UpsertLogs(t: Tables, next: Tables, newId: Id, o: Id, s: Id)
    requires DistinctIds(t.enrolments) && UpsertEnrolment(t, newId, o, s) == Ok(next)
    requires EnrolmentIndex(t.enrolments, o, s) < |next.enrolments|
    ensures var row := next.enrolments[EnrolmentIndex(t.enrolments, o, s)];
            Logs(t, Change(next, EnrolmentEnrol, row.id, None, EnrolmentSnapshot(row)), !HasRow(t, o, s))
  {
    EnrolWritten(t, next, newId, o, s);
  }

  lemma FirstLogs(refs: References, t: Tables, newId: Id, o: Id, s: Id)
    requires WellFormed(refs, t) && o in t.offerings && s in refs.students
    ensures var r := EnrolFirst(refs, t, newId, o, s);
            r.Ok? ==> WellFormed(refs, r.value.tables) && Logs(t, r.value, !HasRow(t, o, s))
  {
    var r := UpsertEnrolment(t, newId, o, s);
    if r.Ok? {
      UpsertedTables(refs, t, newId, o, s);
      UpsertLogs(t, r.value, newId, o, s);
    }
  }

  lemma OfferingOperation(refs: References, t: Tables, p: Pending)
    requires p.OfferingWrite?
    ensures var r := Execute(refs, t, OperationOf(p));
            r.Ok? ==> p.id in t.offerings && r.value.action in {OfferingUpdate, OfferingAssignLecturer}
                      && r.value.entityId == p.id
                      && r.value.oldValues == Some(OfferingSnapshot(t.offerings[p.id], LecturerOf(t, p.id)))
  {
    if p.offering.Some? {
      assert Execute(refs, t, OperationOf(p)) == DoUpdateOffering(refs, t, p.id, p.offering.value, p.lecturerId);
    } else {
      assert Execute(refs, t, OperationOf(p)) == DoAssignLecturer(refs, t, p.id, p.lecturerId);
    }
  }

  lemma StaleLecturer(t: Tables, change: Change, seen: Option<Id>)
    requires change.entityId in t.offerings && change.action in {OfferingUpdate, OfferingAssignLecturer}
    requires Mirrors(t, change)
    requires change.oldValues
          == Some(OfferingSnapshot(t.offerings[change.entityId], LecturerOf(t, change.entityId)))
    ensures Logs(t, change.(oldValues := WithLecturer(change.oldValues, seen)), LecturerOf(t, change.entityId) == seen)
  {
  }

  lemma OfferingLogs(refs: References, t: Tables, p: Pending)
    requires WellFormed(refs, t) && p.OfferingWrite?
    ensures var r := Written(refs, t, p);
            r.Ok? ==> WellFormed(refs, r.value.tables) && Logs(t, r.value, !IsStale(t, p))
                      && r.value.action in {OfferingUpdate, OfferingAssignLecturer} && r.value.entityId == p.id
  {
    var r := Execute(refs, t, OperationOf(p));
    if r.Ok? {
      OfferingOperation(refs, t, p);
      ExecuteKeeps(refs, t, OperationOf(p));
      ExecuteRecords(refs, t, OperationOf(p));
      StaleLecturer(t, r.value, p.seen);
    }
  }

  // ----- what every schedule keeps, races or not

  ghost predicate PendingSound(policy: Policy, st: State) {
    forall tx :: tx in st.pending && st.pending[tx].FirstEnrolment? ==>
      st.pending[tx].offeringId in st.store.tables.offerings && st.pending[tx].studentId in policy.refs.students
  }

  ghost predicate Consistent(policy: Policy, st: State) {
    WellFormed(policy.refs, st.store.tables) && LogRebuilds(st.store) && PendingSound(policy, st)
  }

  // The step logs a change of a row its transaction no longer knew.
  predicate CommitsStale(policy: Policy, st: State, step: Step) {
    Committing(policy, st, step).Some? && step.Finish? && IsStale(st.store.tables, st.pending[step.tx])
  }

  lemma CommitmentLogs(policy: Policy, st: State, step: Step)
    requires Consistent(policy, st) && Committing(policy, st, step).Some?
    ensures var change := Committing(policy, st, step).value.change;
            WellFormed(policy.refs, change.tables) && Logs(st.store.tables, change, !CommitsStale(policy, st, step))
  {
    var refs, t := policy.refs, st.store.tables;
    if step.Begin? {
      ExecuteKeeps(refs, t, step.request.op);
      ExecuteRecords(refs, t, step.request.op);
    } else if st.pending[step.tx].FirstEnrolment? {
      var p := st.pending[step.tx];
      FirstLogs(refs, t, p.newId, p.offeringId, p.studentId);
    } else {
      OfferingLogs(refs, t, st.pending[step.tx]);
    }
  }

  // Offerings are never deleted.
  lemma MirrorsKeepOfferings(t: Tables, change: Change, id: Id)
    requires Mirrors(t, change) && id in t.offerings
    ensures id in change.tables.offerings
  {
    assert Current(change.tables, OfferingKey(id)).Some?;
  }

  lemma PendingStaysSound(policy: Policy, st: State, step: Step)
    requires Consistent(policy, st)
    ensures PendingSound(policy, Apply(policy, st, step))
  {
    var next := Apply(policy, st, step);
    forall tx | tx in next.pending && next.pending[tx].FirstEnrolment?
      ensures next.pending[tx].offeringId in next.store.tables.offerings
      ensures next.pending[tx].studentId in policy.refs.students
    {
      if Committing(policy, st, step).Some? {
        CommitmentLogs(policy, st, step);
        MirrorsKeepOfferings(st.store.tables, Committing(policy, st, step).value.change, next.pending[tx].offeringId);
      }
    }
  }

  lemma StepKeepsConsistent(policy: Policy, st: State, step: Step)
    requires Consistent(policy, st)
    ensures Consistent(policy, Apply(policy, st, step))
  {
    PendingStaysSound(policy, st, step);
    var c := Committing(policy, st, step);
    if c.Some? {
      CommitmentLogs(policy, st, step);
      AppendRebuilds(st.store, c.value.actor, c.value.change);
    }
  }

  lemma {:induction false} RunsAreConsistent(policy: Policy, steps: seq<Step>)
    ensures Consistent(policy, Run(policy, steps))
  {
    if steps == [] {
      EmptyHistory();
    } else {
      RunsAreConsistent(policy, steps[..|steps| - 1]);
      StepKeepsConsistent(policy, Run(policy, steps[..|steps| - 1]), steps[|steps| - 1]);
    }
  }

  /** However mutations overlap, the tables stay well formed - one row for each pair of
      offering and student, one lecturer for each offering - and the log's new values
      rebuild them. */
  lemma RacesKeepTables(policy: Policy, steps: seq<Step>, key: Key)
    ensures WellFormed(policy.refs, Run(policy, steps).store.tables)
    ensures Held(Replay(Run(policy, steps).store.log), key) == Current(Run(policy, steps).store.tables, key)
  {
    RunsAreConsistent(policy, steps);
  }

  // ----- the old values

  lemma OneStep(policy: Policy, steps: seq<Step>, k: nat)
    requires k < |steps|
    ensures Run(policy, steps[..k + 1]) == Apply(policy, Run(policy, steps[..k]), steps[k])
  {
    assert steps[..k + 1][..k] == steps[..k];
  }

  ghost predicate At(policy: Policy, steps: seq<Step>, k: nat, kind: (Policy, State, Step) -> bool)
    requires k < |steps|
  {
    kind(policy, Run(policy, steps[..k]), steps[k])
  }

  // The schedule has no step of that kind.
  ghost predicate Never(policy: Policy, steps: seq<Step>, kind: (Policy, State, Step) -> bool) {
    forall k :: 0 <= k < |steps| ==> !At(policy, steps, k, kind)
  }

  lemma NeverInFront(policy: Policy, steps: seq<Step>, kind: (Policy, State, Step) -> bool)
    requires steps != []
    ensures var front := steps[..|steps| - 1];
            Never(policy, steps, kind)
            <==> Never(policy, front, kind) && !kind(policy, Run(policy, front), steps[|front|])
  {
    var front := steps[..|steps| - 1];
    forall k | 0 <= k < |front| ensures At(policy, front, k, kind) <==> At(policy, steps, k, kind) {
      assert front[..k] == steps[..k];
    }
    assert At(policy, steps, |front|, kind) <==> kind(policy, Run(policy, front), steps[|front|]);
    if Never(policy, steps, kind) {
      forall k | 0 <= k < |front| ensures !At(policy, front, k, kind) {
        assert !At(policy, steps, k, kind);
      }
    }
  }

  lemma StepOldValues(policy: Policy, st: State, step: Step)
    requires Consistent(policy, st)
    ensures OldValuesHold(Apply(policy, st, step).store.log)
       <==> OldValuesHold(st.store.log) && !CommitsStale(policy, st, step)
  {
    var c := Committing(policy, st, step);
    if c.Some? {
      var change := c.value.change;
      CommitmentLogs(policy, st, step);
      AppendOldValue(st.store.log, EntryOf(c.value.actor, change));
      assert Held(Replay(st.store.log), EntityKey(change.action, change.entityId))
          == Current(st.store.tables, EntityKey(change.action, change.entityId));
    }
  }

  lemma OldValuesAfter(policy: Policy, steps: seq<Step>, st: State)
    requires steps != [] && st == Run(policy, steps[..|steps| - 1])
    ensures OldValuesHold(Run(policy, steps).store.log)
       <==> OldValuesHold(st.store.log) && !CommitsStale(policy, st, steps[|steps| - 1])
  {
    RunsAreConsistent(policy, steps[..|steps| - 1]);
    StepOldValues(policy, st, steps[|steps| - 1]);
  }

  /** The log's old values are right on a schedule exactly when no transaction of it commits
      over a row that changed after its locked read: no first enrolment after another one of
      its pair, no change of an offering whose lecturer changed while it waited. */
  lemma {:induction false} OldValuesHoldExactly(policy: Policy, steps: seq<Step>)
    ensures OldValuesHold(Run(policy, steps).store.log) <==> Never(policy, steps, CommitsStale)
  {
    if steps == [] {
      EmptyHistory();
    } else {
      OldValuesHoldExactly(policy, steps[..|steps| - 1]);
      OldValuesAfter(policy, steps, Run(policy, steps[..|steps| - 1]));
      NeverInFront(policy, steps, CommitsStale);
    }
  }

  // ----- the counts, and the refusal of a student who is enrolled

  predicate EnrolsAgain(t: Tables, change: Change) {
    && change.action == EnrolmentEnrol && change.newValues.EnrolmentSnapshot?
    && IsEnrolled(t, change.newValues.enrolment.offeringId, change.newValues.enrolment.studentId)
  }

  // The step enrols a student who is enrolled.
  predicate AcceptsEnrolled(policy: Policy, st: State, step: Step) {
    var c := Committing(policy, st, step);
    c.Some? && EnrolsAgain(st.store.tables, c.value.change)
  }

  // One for an enrolment that the log counts for the offering and the tables do not.
  function Twice(policy: Policy, st: State, step: Step, o: Id): nat {
    if AcceptsEnrolled(policy, st, step) && Committing(policy, st, step).value.change.newValues.enrolment.offeringId == o
    then 1 else 0
  }

  // The rows, the entry and the enrolments counted twice balance.
  ghost predicate Balances(t: Tables, c: Commitment, o: Id, twice: nat) {
    EnrolledCount(c.change.tables.enrolments, o)
    + (if DropsEnrolled(EntryOf(c.actor, c.change), o) then 1 else 0) + twice
    == EnrolledCount(t.enrolments, o) + (if Enrols(EntryOf(c.actor, c.change), o) then 1 else 0)
  }

  lemma UpsertBalances(t: Tables, next: Tables, actor: Id, newId: Id, o: Id, s: Id, other: Id)
    requires UpsertEnrolment(t, newId, o, s) == Ok(next) && EnrolmentIndex(t.enrolments, o, s) < |next.enrolments|
    ensures var row := next.enrolments[EnrolmentIndex(t.enrolments, o, s)];
            && row.offeringId == o && row.studentId == s
            && Balances(t, Commitment(actor, Change(next, EnrolmentEnrol, row.id, None, EnrolmentSnapshot(row))), other,
                        if other == o && IsEnrolled(t, o, s) then 1 else 0)
  {
    var i := EnrolmentIndex(t.enrolments, o, s);
    if i < |t.enrolments| {
      CountReplaced(t.enrolments, i, t.enrolments[i].(status := "enrolled"), other);
    } else {
      CountAppended(t.enrolments, Enrolment(newId, o, s, "enrolled"), other);
    }
  }

  lemma FirstBalances(policy: Policy, st: State, step: Step, o: Id)
    requires Consistent(policy, st) && Committing(policy, st, step).Some?
    requires step.Finish? && st.pending[step.tx].FirstEnrolment?
    ensures Balances(st.store.tables, Committing(policy, st, step).value, o, Twice(policy, st, step, o))
    ensures var p := st.pending[step.tx];
            AcceptsEnrolled(policy, st, step) <==> IsEnrolled(st.store.tables, p.offeringId, p.studentId)
  {
    var t, p := st.store.tables, st.pending[step.tx];
    UpsertedTables(policy.refs, t, p.newId, p.offeringId, p.studentId);
    var next := UpsertEnrolment(t, p.newId, p.offeringId, p.studentId).value;
    UpsertBalances(t, next, p.actor, p.newId, p.offeringId, p.studentId, o);
  }

  lemma OfferingBalances(policy: Policy, st: State, step: Step, o: Id)
    requires Consistent(policy, st) && Committing(policy, st, step).Some?
    requires step.Finish? && st.pending[step.tx].OfferingWrite?
    ensures Balances(st.store.tables, Committing(policy, st, step).value, o, 0) && !AcceptsEnrolled(policy, st, step)
  {
    var t, p := st.store.tables, st.pending[step.tx];
    OfferingLogs(policy.refs, t, p);
    OthersKeepEnrolments(policy.refs, t, OperationOf(p));
  }

  lemma EnrolCommits(refs: References, t: Tables, newId: Id, o: Id, s: Id)
    requires WellFormed(refs, t)
    ensures var r := DoEnrolStudent(refs, t, newId, o, s);
            r.Ok? ==> && o in t.offerings && s in refs.students && r.value.newValues.EnrolmentSnapshot?
                      && r.value.newValues.enrolment.offeringId == o && r.value.newValues.enrolment.studentId == s
                      && !IsEnrolled(t, o, s)
  {
    if o in t.offerings && s in refs.students {
      EnrolmentIsRefusedExactly(refs, t, newId, o, s);
    }
  }

  lemma DropCommits(refs: References, t: Tables, o: Id, s: Id)
    ensures var r := DoDropStudent(refs, t, o, s); r.Ok? ==> r.value.action == EnrolmentDrop
  {
  }

  lemma ExecuteEnrolsOnce(refs: References, t: Tables, op: Operation)
    requires WellFormed(refs, t)
    ensures Execute(refs, t, op).Ok? ==> !EnrolsAgain(t, Execute(refs, t, op).value)
  {
    match op {
      case EnrolStudent(newId, o, s) => EnrolCommits(refs, t, newId, o, s);
      case DropStudent(o, s) => DropCommits(refs, t, o, s);
      case _ => OthersKeepEnrolments(refs, t, op);
    }
  }

  // An enrolment that is one step found the pair's row, and that row dropped.
  lemma BeginRefusesEnrolled(policy: Policy, st: State, step: Step)
    requires Consistent(policy, st) && step.Begin?
    ensures !AcceptsEnrolled(policy, st, step)
  {
    ExecuteEnrolsOnce(policy.refs, st.store.tables, step.request.op);
  }

  lemma CommitmentBalances(policy: Policy, st: State, step: Step, o: Id)
    requires Consistent(policy, st) && Committing(policy, st, step).Some?
    ensures Balances(st.store.tables, Committing(policy, st, step).value, o, Twice(policy, st, step, o))
  {
    if step.Begin? {
      BeginRefusesEnrolled(policy, st, step);
      ExecuteCounts(policy.refs, st.store.tables, step.request.actor, step.request.op);
    } else if st.pending[step.tx].FirstEnrolment? {
      FirstBalances(policy, st, step, o);
    } else {
      OfferingBalances(policy, st, step, o);
    }
  }

  lemma UpsertRefused(policy: Policy, st: State, step: Step)
    requires Consistent(policy, st) && step.Finish? && step.tx in st.pending && st.pending[step.tx].FirstEnrolment?
    requires Committing(policy, st, step).None?
    ensures !HasRow(st.store.tables, st.pending[step.tx].offeringId, st.pending[step.tx].studentId)
  {
    var t, p := st.store.tables, st.pending[step.tx];
    if UpsertEnrolment(t, p.newId, p.offeringId, p.studentId).Ok? {
      UpsertedTables(policy.refs, t, p.newId, p.offeringId, p.studentId);
    }
  }

  lemma EnrolledAgain(policy: Policy, st: State, step: Step)
    requires Consistent(policy, st)
    ensures AcceptsEnrolled(policy, st, step)
       <==> step.Finish? && step.tx in st.pending && st.pending[step.tx].FirstEnrolment?
            && IsEnrolled(st.store.tables, st.pending[step.tx].offeringId, st.pending[step.tx].studentId)
  {
    if step.Begin? {
      BeginRefusesEnrolled(policy, st, step);
    } else if step.Finish? && step.tx in st.pending {
      if Committing(policy, st, step).None? {
        if st.pending[step.tx].FirstEnrolment? {
          UpsertRefused(policy, st, step);
        }
      } else if st.pending[step.tx].FirstEnrolment? {
        FirstBalances(policy, st, step, 0);
      } else {
        OfferingBalances(policy, st, step, 0);
      }
    }
  }

  /** A student who is enrolled is enrolled again exactly by a first enrolment that meets, at
      its upsert, a row another one left enrolled after this one's read found none. */
  lemma EnrolledAgainExactly(policy: Policy, steps: seq<Step>, step: Step)
    ensures var st := Run(policy, steps);
            AcceptsEnrolled(policy, st, step)
            <==> step.Finish? && step.tx in st.pending && st.pending[step.tx].FirstEnrolment?
                 && IsEnrolled(st.store.tables, st.pending[step.tx].offeringId, st.pending[step.tx].studentId)
  {
    RunsAreConsistent(policy, steps);
    EnrolledAgain(policy, Run(policy, steps), step);
  }

  function CountedTwice(policy: Policy, steps: seq<Step>, o: Id): nat {
    if steps == [] then 0
    else
      CountedTwice(policy, steps[..|steps| - 1], o)
      + Twice(policy, Run(policy, steps[..|steps| - 1]), steps[|steps| - 1], o)
  }

  // The log counts so many enrolments of the offering more than the tables explain.
  ghost predicate Excess(store: Store, o: Id, excess: nat) {
    EnrolledCount(store.tables.enrolments, o) + CountEntries(store.log, o, DropsEnrolled) + excess
    == CountEntries(store.log, o, Enrols)
  }

  lemma StepExcess(policy: Policy, st: State, step: Step, o: Id, excess: nat)
    requires Consistent(policy, st) && Excess(st.store, o, excess)
    ensures Excess(Apply(policy, st, step).store, o, excess + Twice(policy, st, step, o))
  {
    var c := Committing(policy, st, step);
    if c.Some? {
      CommitmentBalances(policy, st, step, o);
      CountSnoc(st.store.log, EntryOf(c.value.actor, c.value.change), o, DropsEnrolled);
      CountSnoc(st.store.log, EntryOf(c.value.actor, c.value.change), o, Enrols);
    }
  }

  lemma ExcessAfter(policy: Policy, steps: seq<Step>, st: State, o: Id, excess: nat)
    requires steps != [] && st == Run(policy, steps[..|steps| - 1]) && Excess(st.store, o, excess)
    ensures Excess(Run(policy, steps).store, o, excess + Twice(policy, st, steps[|steps| - 1], o))
  {
    RunsAreConsistent(policy, steps[..|steps| - 1]);
    StepExcess(policy, st, steps[|steps| - 1], o, excess);
  }

  /** On every schedule an offering's enrolled count, the drops of enrolled students and the
      enrolments accepted for students who were enrolled add up to the enrolments logged. */
  lemma {:induction false} ExcessIsExact(policy: Policy, steps: seq<Step>, o: Id)
    ensures Excess(Run(policy, steps).store, o, CountedTwice(policy, steps, o))
  {
    if steps != [] {
      var front := steps[..|steps| - 1];
      ExcessIsExact(policy, front, o);
      ExcessAfter(policy, steps, Run(policy, front), o, CountedTwice(policy, front, o));
    }
  }

  ghost predicate NothingTwice(policy: Policy, steps: seq<Step>) {
    forall o :: CountedTwice(policy, steps, o) == 0
  }

  lemma NothingTwiceInFront(policy: Policy, steps: seq<Step>, st: State)
    requires steps != [] && st == Run(policy, steps[..|steps| - 1])
    ensures NothingTwice(policy, steps)
       <==> NothingTwice(policy, steps[..|steps| - 1]) && !AcceptsEnrolled(policy, st, steps[|steps| - 1])
  {
    var front, last := steps[..|steps| - 1], steps[|steps| - 1];
    forall o ensures CountedTwice(policy, steps, o) == CountedTwice(policy, front, o) + Twice(policy, st, last, o) {
    }
    if AcceptsEnrolled(policy, st, last) {
      var o := Committing(policy, st, last).value.change.newValues.enrolment.offeringId;
      assert CountedTwice(policy, steps, o) == CountedTwice(policy, front, o) + 1;
    }
    if NothingTwice(policy, steps) {
      forall o ensures CountedTwice(policy, front, o) == 0 {
        assert CountedTwice(policy, steps, o) == 0;
      }
    }
  }

  lemma {:induction false} NothingCountedTwice(policy: Policy, steps: seq<Step>)
    ensures NothingTwice(policy, steps) <==> Never(policy, steps, AcceptsEnrolled)
  {
    if steps == [] {
      assert NothingTwice(policy, steps);
    } else {
      NothingCountedTwice(policy, steps[..|steps| - 1]);
      NeverInFront(policy, steps, AcceptsEnrolled);
      NothingTwiceInFront(policy, steps, Run(policy, steps[..|steps| - 1]));
    }
  }

  ghost predicate CountAgrees(store: Store, o: Id) {
    Excess(store, o, 0)
  }

  lemma CountAgreesExactly(policy: Policy, steps: seq<Step>, store: Store, o: Id)
    requires store == Run(policy, steps).store
    ensures CountAgrees(store, o) <==> CountedTwice(policy, steps, o) == 0
  {
    ExcessIsExact(policy, steps, o);
  }

  lemma EveryCountAgrees(store: Store)
    ensures CountsAgree(store) <==> forall o :: CountAgrees(store, o)
  {
    if forall o :: CountAgrees(store, o) {
      forall o ensures EnrolledCount(store.tables.enrolments, o) + CountEntries(store.log, o, DropsEnrolled)
                    == CountEntries(store.log, o, Enrols)
      {
        assert CountAgrees(store, o);
      }
    }
  }

  lemma CountsAgreeOrTwice(policy: Policy, steps: seq<Step>, store: Store)
    requires store == Run(policy, steps).store
    ensures (forall o :: CountAgrees(store, o)) <==> NothingTwice(policy, steps)
  {
    forall o ensures CountAgrees(store, o) <==> CountedTwice(policy, steps, o) == 0 {
      CountAgreesExactly(policy, steps, store, o);
    }
  }

  /** The counts agree with the log after a schedule exactly when at none of its steps a
      student who was enrolled was enrolled again. */
  lemma CountsAgreeExactly(policy: Policy, steps: seq<Step>)
    ensures CountsAgree(Run(policy, steps).store) <==> Never(policy, steps, AcceptsEnrolled)
  {
    EveryCountAgrees(Run(policy, steps).store);
    CountsAgreeOrTwice(policy, steps, Run(policy, steps).store);
    NothingCountedTwice(policy, steps);
  }

  // ----- what a step can do to a row that others have read

  lemma UpsertAddsItsPair(t: Tables, newId: Id, o: Id, s: Id, offeringId: Id, studentId: Id)
    requires !HasRow(t, offeringId, studentId) && !(o == offeringId && s == studentId)
    ensures var r := UpsertEnrolment(t, newId, o, s); r.Ok? ==> !HasRow(r.value, offeringId, studentId)
  {
  }

  lemma DropAddsNone(t: Tables, o: Id, s: Id, offeringId: Id, studentId: Id)
    requires !HasRow(t, offeringId, studentId)
    ensures !HasRow(DropEnrolment(t, o, s), offeringId, studentId)
  {
  }

  // The step is the end of a first enrolment of the pair.
  predicate EndsEnrolment(st: State, step: Step, offeringId: Id, studentId: Id) {
    && step.Finish? && step.tx in st.pending && st.pending[step.tx].FirstEnrolment?
    && st.pending[step.tx].offeringId == offeringId && st.pending[step.tx].studentId == studentId
  }

  lemma BeginAddsNoRow(policy: Policy, st: State, step: Step, offeringId: Id, studentId: Id)
    requires step.Begin? && Committing(policy, st, step).Some? && !HasRow(st.store.tables, offeringId, studentId)
    ensures !HasRow(Committing(policy, st, step).value.change.tables, offeringId, studentId)
  {
    var refs, t := policy.refs, st.store.tables;
    match step.request.op {
      case EnrolStudent(newId, o, s) =>
        var before := FindEnrolment(refs, t, o, s);
        UpsertAddsItsPair(t, if before.Some? then before.value.enrolment.id else newId, o, s, offeringId, studentId);
      case DropStudent(o, s) => DropAddsNone(t, o, s, offeringId, studentId);
      case op => OthersKeepEnrolments(refs, t, op);
    }
  }

  // Only the end of a first enrolment of a pair adds its row.
  lemma RowAddedBy(policy: Policy, st: State, step: Step, offeringId: Id, studentId: Id)
    requires Consistent(policy, st) && !HasRow(st.store.tables, offeringId, studentId)
    requires HasRow(Apply(policy, st, step).store.tables, offeringId, studentId)
    ensures EndsEnrolment(st, step, offeringId, studentId) && Committing(policy, st, step).Some?
  {
    var refs, t := policy.refs, st.store.tables;
    if step.Begin? {
      if Committing(policy, st, step).Some? {
        BeginAddsNoRow(policy, st, step, offeringId, studentId);
      }
    } else if st.pending[step.tx].FirstEnrolment? {
      var p := st.pending[step.tx];
      if !(p.offeringId == offeringId && p.studentId == studentId) {
        UpsertAddsItsPair(t, p.newId, p.offeringId, p.studentId, offeringId, studentId);
      }
    } else {
      OthersKeepEnrolments(refs, t, OperationOf(st.pending[step.tx]));
    }
  }

  lemma PersistsKeepsRow(t: Tables, later: Tables, offeringId: Id, studentId: Id)
    requires Persists(t, later) && HasRow(t, offeringId, studentId)
    ensures HasRow(later, offeringId, studentId)
  {
    var i := EnrolmentIndex(t.enrolments, offeringId, studentId);
    assert later.enrolments[i].(status := "") == t.enrolments[i].(status := "");
  }

  lemma RowStays(policy: Policy, st: State, step: Step, offeringId: Id, studentId: Id)
    requires HasRow(st.store.tables, offeringId, studentId)
    ensures HasRow(Apply(policy, st, step).store.tables, offeringId, studentId)
  {
    var refs, t := policy.refs, st.store.tables;
    var next := Apply(policy, st, step).store.tables;
    if Committing(policy, st, step).Some? {
      if step.Begin? {
        ExecutePersists(refs, t, step.request.op);
      } else if st.pending[step.tx].OfferingWrite? {
        ExecutePersists(refs, t, OperationOf(st.pending[step.tx]));
      }
      PersistsKeepsRow(t, next, offeringId, studentId);
    }
  }

  lemma NoOfferingTouched(refs: References, t: Tables, op: Operation)
    requires !op.CreateOffering? && !op.UpdateOffering? && !op.AssignLecturer?
    ensures var r := Execute(refs, t, op); r.Ok? ==> !EntityKey(r.value.action, r.value.entityId).OfferingKey?
  {
  }

  lemma BeginOtherKey(refs: References, t: Tables, request: Request, id: Id)
    requires id in t.offerings && Opened(refs, t, request).None? && Execute(refs, t, request.op).Ok?
    ensures var change := Execute(refs, t, request.op).value;
            EntityKey(change.action, change.entityId) != OfferingKey(id)
  {
    match request.op {
      case CreateOffering(newId, offering, lecturerId) =>
        assert Execute(refs, t, request.op) == DoCreateOffering(refs, t, newId, offering, lecturerId);
      case UpdateOffering(_, _, _) =>
      case AssignLecturer(_, _) =>
      case op => NoOfferingTouched(refs, t, op);
    }
  }

  lemma FinishOtherKey(refs: References, t: Tables, p: Pending, id: Id)
    requires Written(refs, t, p).Ok? && !(p.OfferingWrite? && p.id == id)
    ensures var change := Written(refs, t, p).value; EntityKey(change.action, change.entityId) != OfferingKey(id)
  {
    if p.OfferingWrite? {
      OfferingOperation(refs, t, p);
    } else {
      assert Written(refs, t, p).value.action == EnrolmentEnrol;
    }
  }

  lemma OtherKey(policy: Policy, st: State, step: Step, id: Id)
    requires id in st.store.tables.offerings && Committing(policy, st, step).Some?
    requires !(step.Finish? && st.pending[step.tx].OfferingWrite? && st.pending[step.tx].id == id)
    ensures var change := Committing(policy, st, step).value.change;
            EntityKey(change.action, change.entityId) != OfferingKey(id)
  {
    if step.Begin? {
      BeginOtherKey(policy.refs, st.store.tables, step.request, id);
    } else {
      FinishOtherKey(policy.refs, st.store.tables, st.pending[step.tx], id);
    }
  }

  // Only a change of the offering itself sets the lecturer of an offering there is.
  lemma LecturerKept(policy: Policy, st: State, step: Step, id: Id)
    requires Consistent(policy, st) && id in st.store.tables.offerings
    requires !(step.Finish? && step.tx in st.pending
               && st.pending[step.tx].OfferingWrite? && st.pending[step.tx].id == id)
    ensures var next := Apply(policy, st, step).store.tables;
            id in next.offerings && LecturerOf(next, id) == LecturerOf(st.store.tables, id)
  {
    var t := st.store.tables;
    if Committing(policy, st, step).Some? {
      var change := Committing(policy, st, step).value.change;
      CommitmentLogs(policy, st, step);
      OtherKey(policy, st, step, id);
      assert Current(change.tables, OfferingKey(id)) == Current(t, OfferingKey(id));
    }
  }

  // ----- a stale first enrolment is an overlapped one

  // The transaction has been open since step j.
  ghost predicate OpenSince(policy: Policy, steps: seq<Step>, j: nat, k: nat, tx: TransactionId, p: Pending)
    requires j < k <= |steps|
  {
    && steps[j].Begin? && steps[j].tx == tx
    && Opened(policy.refs, Run(policy, steps[..j]).store.tables, steps[j].request) == Some(p)
    && forall i :: j < i <= k ==> OpenAt(policy, steps, i, tx, p)
  }

  ghost predicate OpenAt(policy: Policy, steps: seq<Step>, i: nat, tx: TransactionId, p: Pending)
    requires i <= |steps|
  {
    tx in Run(policy, steps[..i]).pending && Run(policy, steps[..i]).pending[tx] == p
  }

  lemma OpensOrStays(policy: Policy, st: State, step: Step, tx: TransactionId)
    requires tx in Apply(policy, st, step).pending
    ensures var p := Apply(policy, st, step).pending[tx];
            (tx in st.pending && st.pending[tx] == p && !(step.Finish? && step.tx == tx))
            || (step.Begin? && step.tx == tx && Opened(policy.refs, st.store.tables, step.request) == Some(p))
  {
  }

  lemma OpensOrStaysAt(policy: Policy, steps: seq<Step>, k: nat, tx: TransactionId, p: Pending)
    requires k < |steps| && OpenAt(policy, steps, k + 1, tx, p) && !OpenAt(policy, steps, k, tx, p)
    ensures OpenSince(policy, steps, k, k + 1, tx, p)
  {
    OneStep(policy, steps, k);
    OpensOrStays(policy, Run(policy, steps[..k]), steps[k], tx);
  }

  lemma {:induction false} FindsOpening(policy: Policy, steps: seq<Step>, k: nat, tx: TransactionId, p: Pending)
    returns (j: nat)
    requires k <= |steps| && OpenAt(policy, steps, k, tx, p)
    ensures j < k && OpenSince(policy, steps, j, k, tx, p)
  {
    assert k > 0;
    if OpenAt(policy, steps, k - 1, tx, p) {
      j := FindsOpening(policy, steps, k - 1, tx, p);
    } else {
      j := k - 1;
      OpensOrStaysAt(policy, steps, j, tx, p);
    }
  }

  ghost predicate HasRowAt(policy: Policy, steps: seq<Step>, i: nat, offeringId: Id, studentId: Id)
    requires i <= |steps|
  {
    HasRow(Run(policy, steps[..i]).store.tables, offeringId, studentId)
  }

  // Step m ends a first enrolment of the pair, and it commits.
  ghost predicate CommitsPair(policy: Policy, steps: seq<Step>, m: nat, offeringId: Id, studentId: Id)
    requires m < |steps|
  {
    EndsEnrolment(Run(policy, steps[..m]), steps[m], offeringId, studentId)
    && Committing(policy, Run(policy, steps[..m]), steps[m]).Some?
  }

  lemma {:induction false} FindsRow(policy: Policy, steps: seq<Step>, j: nat, k: nat, offeringId: Id, studentId: Id)
    returns (m: nat)
    requires j < k <= |steps| && !HasRowAt(policy, steps, j, offeringId, studentId)
    requires HasRowAt(policy, steps, k, offeringId, studentId)
    ensures j <= m < k && CommitsPair(policy, steps, m, offeringId, studentId)
  {
    if HasRowAt(policy, steps, k - 1, offeringId, studentId) {
      m := FindsRow(policy, steps, j, k - 1, offeringId, studentId);
    } else {
      m := k - 1;
      OneStep(policy, steps, m);
      RunsAreConsistent(policy, steps[..m]);
      RowAddedBy(policy, Run(policy, steps[..m]), steps[m], offeringId, studentId);
    }
  }

  lemma RowStaysAt(policy: Policy, steps: seq<Step>, k: nat, offeringId: Id, studentId: Id)
    requires k < |steps| && HasRowAt(policy, steps, k, offeringId, studentId)
    ensures HasRowAt(policy, steps, k + 1, offeringId, studentId)
  {
    OneStep(policy, steps, k);
    RowStays(policy, Run(policy, steps[..k]), steps[k], offeringId, studentId);
  }

  lemma {:induction false} RowRemains(policy: Policy, steps: seq<Step>, m: nat, k: nat, offeringId: Id, studentId: Id)
    requires m <= k <= |steps| && HasRowAt(policy, steps, m, offeringId, studentId)
    ensures HasRowAt(policy, steps, k, offeringId, studentId)
    decreases k - m
  {
    if m < k {
      RowStaysAt(policy, steps, m, offeringId, studentId);
      RowRemains(policy, steps, m + 1, k, offeringId, studentId);
    }
  }

  lemma CommittedPairHasRow(policy: Policy, steps: seq<Step>, m: nat, offeringId: Id, studentId: Id)
    requires m < |steps| && CommitsPair(policy, steps, m, offeringId, studentId)
    ensures HasRowAt(policy, steps, m + 1, offeringId, studentId)
  {
    var st := Run(policy, steps[..m]);
    OneStep(policy, steps, m);
    UpsertFound(st.store.tables, st.pending[steps[m].tx].newId, offeringId, studentId);
  }

  ghost predicate Overlapped(policy: Policy, steps: seq<Step>, j: nat, m: nat, k: nat, tx: TransactionId, p: Pending)
    requires p.FirstEnrolment?
  {
    j < m < k <= |steps| && OpenSince(policy, steps, j, k, tx, p) && steps[m].tx != tx
    && CommitsPair(policy, steps, m, p.offeringId, p.studentId)
  }

  /** A first enrolment meets a row at its upsert exactly when another one of its pair
      committed while it was open. */
  lemma ConflictIsOverlap(policy: Policy, steps: seq<Step>, k: nat, tx: TransactionId, p: Pending)
    requires k <= |steps| && OpenAt(policy, steps, k, tx, p) && p.FirstEnrolment?
    ensures HasRowAt(policy, steps, k, p.offeringId, p.studentId)
       <==> exists j: nat, m: nat :: Overlapped(policy, steps, j, m, k, tx, p)
  {
    if j: nat, m: nat :| Overlapped(policy, steps, j, m, k, tx, p) {
      CommittedPairHasRow(policy, steps, m, p.offeringId, p.studentId);
      RowRemains(policy, steps, m + 1, k, p.offeringId, p.studentId);
    }
    if HasRowAt(policy, steps, k, p.offeringId, p.studentId) {
      var j := FindsOpening(policy, steps, k, tx, p);
      var m := FindsRow(policy, steps, j, k, p.offeringId, p.studentId);
      OneStep(policy, steps, m);
      assert m != j;
      assert OpenAt(policy, steps, m + 1, tx, p);
      OpensOrStays(policy, Run(policy, steps[..m]), steps[m], tx);
      assert Overlapped(policy, steps, j, m, k, tx, p);
    }
  }

  // ----- and a stale change of an offering too

  // Step m ends a change of the offering, and it commits.
  ghost predicate CommitsOffering(policy: Policy, steps: seq<Step>, m: nat, id: Id)
    requires m < |steps|
  {
    var st := Run(policy, steps[..m]);
    && steps[m].Finish? && steps[m].tx in st.pending
    && st.pending[steps[m].tx].OfferingWrite? && st.pending[steps[m].tx].id == id
    && Committing(policy, st, steps[m]).Some?
  }

  ghost predicate LecturerAt(policy: Policy, steps: seq<Step>, i: nat, id: Id, lecturerId: Option<Id>)
    requires i <= |steps|
  {
    var t := Run(policy, steps[..i]).store.tables; id in t.offerings && LecturerOf(t, id) == lecturerId
  }

  // From step i on, up to step k, no change of the offering commits.
  ghost predicate QuietFrom(policy: Policy, steps: seq<Step>, i: nat, k: nat, id: Id)
    requires k <= |steps|
  {
    forall n :: i <= n < k ==> !CommitsOffering(policy, steps, n, id)
  }

  lemma LecturerStaysAt(policy: Policy, steps: seq<Step>, i: nat, id: Id, lecturerId: Option<Id>)
    requires i < |steps| && LecturerAt(policy, steps, i, id, lecturerId) && !CommitsOffering(policy, steps, i, id)
    ensures LecturerAt(policy, steps, i + 1, id, lecturerId)
  {
    var st := Run(policy, steps[..i]);
    OneStep(policy, steps, i);
    if Committing(policy, st, steps[i]).Some? {
      RunsAreConsistent(policy, steps[..i]);
      LecturerKept(policy, st, steps[i], id);
    }
  }

  lemma {:induction false} LecturerRemains(policy: Policy, steps: seq<Step>, i: nat, k: nat, id: Id, lecturerId: Option<Id>)
    requires i <= k <= |steps| && LecturerAt(policy, steps, i, id, lecturerId) && QuietFrom(policy, steps, i, k, id)
    ensures LecturerAt(policy, steps, k, id, lecturerId)
    decreases k - i
  {
    if i < k {
      LecturerStaysAt(policy, steps, i, id, lecturerId);
      LecturerRemains(policy, steps, i + 1, k, id, lecturerId);
    }
  }

  lemma OfferingCommitted(policy: Policy, st: State, step: Step)
    requires step.Finish? && step.tx in st.pending && st.pending[step.tx].OfferingWrite?
    requires Committing(policy, st, step).Some?
    ensures var p, next := st.pending[step.tx], Apply(policy, st, step).store.tables;
            p.id in next.offerings && LecturerOf(next, p.id) == Some(p.lecturerId)
  {
    var t, p := st.store.tables, st.pending[step.tx];
    if p.offering.Some? {
      assert Execute(policy.refs, t, OperationOf(p)) == DoUpdateOffering(policy.refs, t, p.id, p.offering.value, p.lecturerId);
      LecturerSet(t.(offerings := t.offerings[p.id := p.offering.value]), p.id, p.lecturerId, p.id);
    } else {
      assert Execute(policy.refs, t, OperationOf(p)) == DoAssignLecturer(policy.refs, t, p.id, p.lecturerId);
      LecturerSet(t, p.id, p.lecturerId, p.id);
    }
  }

  lemma OfferingCommittedAt(policy: Policy, steps: seq<Step>, m: nat, id: Id)
    requires m < |steps| && CommitsOffering(policy, steps, m, id)
    ensures LecturerAt(policy, steps, m + 1, id, Some(Run(policy, steps[..m]).pending[steps[m].tx].lecturerId))
  {
    OneStep(policy, steps, m);
    OfferingCommitted(policy, Run(policy, steps[..m]), steps[m]);
  }

  // The last change of the offering that commits between i and k, if there is any.
  lemma {:induction false} FindsLastChange(policy: Policy, steps: seq<Step>, i: nat, k: nat, id: Id) returns (m: Option<nat>)
    requires i <= k <= |steps|
    ensures m.None? ==> QuietFrom(policy, steps, i, k, id)
    ensures m.Some? ==> i <= m.value < k && CommitsOffering(policy, steps, m.value, id)
                        && QuietFrom(policy, steps, m.value + 1, k, id)
    decreases k - i
  {
    if i == k {
      m := None;
    } else if CommitsOffering(policy, steps, k - 1, id) {
      m := Some(k - 1);
    } else {
      m := FindsLastChange(policy, steps, i, k - 1, id);
    }
  }

  // While the transaction was open step m was the last change of its offering to commit, and
  // it left another lecturer than the one read.
  ghost predicate Outdated(policy: Policy, steps: seq<Step>, j: nat, m: nat, k: nat, tx: TransactionId, p: Pending)
    requires p.OfferingWrite?
  {
    && j < m < k <= |steps| && OpenSince(policy, steps, j, k, tx, p) && steps[m].tx != tx
    && CommitsOffering(policy, steps, m, p.id) && QuietFrom(policy, steps, m + 1, k, p.id)
    && p.seen != Some(Run(policy, steps[..m]).pending[steps[m].tx].lecturerId)
  }

  lemma OpeningReads(policy: Policy, steps: seq<Step>, j: nat, k: nat, tx: TransactionId, p: Pending)
    requires j < k <= |steps| && OpenSince(policy, steps, j, k, tx, p) && p.OfferingWrite?
    ensures LecturerAt(policy, steps, j, p.id, p.seen)
    ensures !CommitsOffering(policy, steps, j, p.id)
  {
  }

  lemma OthersWhileOpen(policy: Policy, steps: seq<Step>, m: nat, tx: TransactionId, p: Pending)
    requires m < |steps| && OpenAt(policy, steps, m + 1, tx, p) && steps[m].Finish?
    ensures steps[m].tx != tx
  {
    OneStep(policy, steps, m);
    OpensOrStays(policy, Run(policy, steps[..m]), steps[m], tx);
  }

  lemma ChangeRemains(policy: Policy, steps: seq<Step>, m: nat, k: nat, id: Id)
    requires m < k <= |steps| && CommitsOffering(policy, steps, m, id) && QuietFrom(policy, steps, m + 1, k, id)
    ensures LecturerAt(policy, steps, k, id, Some(Run(policy, steps[..m]).pending[steps[m].tx].lecturerId))
  {
    OfferingCommittedAt(policy, steps, m, id);
    LecturerRemains(policy, steps, m + 1, k, id, Some(Run(policy, steps[..m]).pending[steps[m].tx].lecturerId));
  }

  lemma OutdatedIsStale(policy: Policy, steps: seq<Step>, j: nat, m: nat, k: nat, tx: TransactionId, p: Pending)
    requires p.OfferingWrite? && Outdated(policy, steps, j, m, k, tx, p)
    ensures IsStale(Run(policy, steps[..k]).store.tables, p)
  {
    ChangeRemains(policy, steps, m, k, p.id);
  }

  lemma StaleIsOutdated(policy: Policy, steps: seq<Step>, k: nat, tx: TransactionId, p: Pending) returns (j: nat, m: nat)
    requires k <= |steps| && OpenAt(policy, steps, k, tx, p) && p.OfferingWrite?
    requires IsStale(Run(policy, steps[..k]).store.tables, p)
    ensures Outdated(policy, steps, j, m, k, tx, p)
  {
    j := FindsOpening(policy, steps, k, tx, p);
    OpeningReads(policy, steps, j, k, tx, p);
    var last := FindsLastChange(policy, steps, j, k, p.id);
    if last.None? {
      LecturerRemains(policy, steps, j, k, p.id, p.seen);
      assert false;
    }
    m := last.value;
    assert OpenAt(policy, steps, m + 1, tx, p);
    OthersWhileOpen(policy, steps, m, tx, p);
    ChangeRemains(policy, steps, m, k, p.id);
  }

  /** An open change of an offering no longer knows its lecturer exactly when, since its
      locked read, other changes of that offering committed and the last of them left
      another lecturer than the one it read. */
  lemma StaleLecturerIsOverlap(policy: Policy, steps: seq<Step>, k: nat, tx: TransactionId, p: Pending)
    requires k <= |steps| && OpenAt(policy, steps, k, tx, p) && p.OfferingWrite?
    ensures IsStale(Run(policy, steps[..k]).store.tables, p)
       <==> exists j: nat, m: nat :: Outdated(policy, steps, j, m, k, tx, p)
  {
    if j: nat, m: nat :| Outdated(policy, steps, j, m, k, tx, p) {
      OutdatedIsStale(policy, steps, j, m, k, tx, p);
    }
    if IsStale(Run(policy, steps[..k]).store.tables, p) {
      var j, m := StaleIsOutdated(policy, steps, k, tx, p);
    }
  }

  // What the open transaction read was changed by another one that committed meanwhile.
  ghost predicate Overtaken(policy: Policy, steps: seq<Step>, k: nat, tx: TransactionId, p: Pending) {
    if p.FirstEnrolment? then exists j: nat, m: nat :: Overlapped(policy, steps, j, m, k, tx, p)
    else exists j: nat, m: nat :: Outdated(policy, steps, j, m, k, tx, p)
  }

  lemma StaleIsOvertaken(policy: Policy, steps: seq<Step>, k: nat, tx: TransactionId, p: Pending)
    requires k <= |steps| && OpenAt(policy, steps, k, tx, p)
    ensures IsStale(Run(policy, steps[..k]).store.tables, p) <==> Overtaken(policy, steps, k, tx, p)
  {
    if p.FirstEnrolment? {
      ConflictIsOverlap(policy, steps, k, tx, p);
    } else {
      StaleLecturerIsOverlap(policy, steps, k, tx, p);
    }
  }

  // Step k commits a transaction that was overtaken.
  ghost predicate CommitsOvertaken(policy: Policy, steps: seq<Step>, k: nat)
    requires k < |steps|
  {
    var st := Run(policy, steps[..k]);
    && steps[k].Finish? && Committing(policy, st, steps[k]).Some?
    && Overtaken(policy, steps, k, steps[k].tx, st.pending[steps[k].tx])
  }

  lemma CommitsStaleOrOvertaken(policy: Policy, steps: seq<Step>, k: nat)
    requires k < |steps|
    ensures At(policy, steps, k, CommitsStale) <==> CommitsOvertaken(policy, steps, k)
  {
    var st := Run(policy, steps[..k]);
    if steps[k].Finish? && steps[k].tx in st.pending {
      StaleIsOvertaken(policy, steps, k, steps[k].tx, st.pending[steps[k].tx]);
    }
  }

  /** The log's old values are wrong after a schedule exactly when one of its transactions
      committed although another one had overtaken it: the whole condition is in the order
      of the schedule's reads and commits. */
  lemma OldValuesFailByOverlap(policy: Policy, steps: seq<Step>)
    ensures !OldValuesHold(Run(policy, steps).store.log) <==> exists k :: 0 <= k < |steps| && CommitsOvertaken(policy, steps, k)
  {
    OldValuesHoldExactly(policy, steps);
    forall k | 0 <= k < |steps| ensures At(policy, steps, k, CommitsStale) <==> CommitsOvertaken(policy, steps, k) {
      CommitsStaleOrOvertaken(policy, steps, k);
    }
    if !Never(policy, steps, CommitsStale) {
      var k :| 0 <= k < |steps| && At(policy, steps, k, CommitsStale);
      assert CommitsOvertaken(policy, steps, k);
    }
  }

  // ----- every schedule, when overlapping transactions are kept apart

  ghost predicate StaysFresh(t: Tables, p: Pending) {
    !IsStale(t, p) && (p.OfferingWrite? ==> p.id in t.offerings)
  }

  // Transactions of a kind that is kept apart have distinct rows, and know them.
  ghost predicate Apart(policy: Policy, st: State) {
    && (forall tx :: tx in st.pending && KeptApart(policy, st.pending[tx]) ==>
          StaysFresh(st.store.tables, st.pending[tx]))
    && (forall tx, other ::
          tx in st.pending && other in st.pending && tx != other && KeptApart(policy, st.pending[tx]) ==>
          !SameRow(st.pending[tx], st.pending[other]))
  }

  lemma FreshStays(policy: Policy, st: State, step: Step, p: Pending)
    requires Consistent(policy, st) && StaysFresh(st.store.tables, p)
    requires step.Finish? && step.tx in st.pending ==> !SameRow(p, st.pending[step.tx])
    ensures StaysFresh(Apply(policy, st, step).store.tables, p)
  {
    if p.FirstEnrolment? {
      if HasRow(Apply(policy, st, step).store.tables, p.offeringId, p.studentId) {
        RowAddedBy(policy, st, step, p.offeringId, p.studentId);
      }
    } else {
      LecturerKept(policy, st, step, p.id);
    }
  }

  lemma OpensFresh(policy: Policy, st: State, step: Step)
    requires step.Begin? && Opened(policy.refs, st.store.tables, step.request).Some? && Enabled(policy, st, step)
    ensures var p := Opened(policy.refs, st.store.tables, step.request).value;
            StaysFresh(st.store.tables, p) && !MustWait(policy, st, p) && Apply(policy, st, step).store == st.store
  {
  }

  lemma StepKeepsFresh(policy: Policy, st: State, step: Step, tx: TransactionId)
    requires Consistent(policy, st) && Apart(policy, st) && tx in Apply(policy, st, step).pending
    requires KeptApart(policy, Apply(policy, st, step).pending[tx])
    ensures StaysFresh(Apply(policy, st, step).store.tables, Apply(policy, st, step).pending[tx])
  {
    OpensOrStays(policy, st, step, tx);
    if tx in st.pending {
      FreshStays(policy, st, step, st.pending[tx]);
    } else {
      OpensFresh(policy, st, step);
    }
  }

  lemma StepKeepsDistinct(policy: Policy, st: State, step: Step, tx: TransactionId, other: TransactionId)
    requires Apart(policy, st) && tx != other
    requires tx in Apply(policy, st, step).pending && other in Apply(policy, st, step).pending
    requires KeptApart(policy, Apply(policy, st, step).pending[tx])
    ensures !SameRow(Apply(policy, st, step).pending[tx], Apply(policy, st, step).pending[other])
  {
    OpensOrStays(policy, st, step, tx);
    OpensOrStays(policy, st, step, other);
    if tx in st.pending && other in st.pending {
      assert !SameRow(st.pending[tx], st.pending[other]);
    } else {
      OpensFresh(policy, st, step);
    }
  }

  lemma StepKeepsApart(policy: Policy, st: State, step: Step)
    requires Consistent(policy, st) && Apart(policy, st)
    ensures Apart(policy, Apply(policy, st, step))
  {
    var next := Apply(policy, st, step);
    forall tx | tx in next.pending && KeptApart(policy, next.pending[tx])
      ensures StaysFresh(next.store.tables, next.pending[tx])
    {
      StepKeepsFresh(policy, st, step, tx);
    }
    forall tx, other | tx in next.pending && other in next.pending && tx != other && KeptApart(policy, next.pending[tx])
      ensures !SameRow(next.pending[tx], next.pending[other])
    {
      StepKeepsDistinct(policy, st, step, tx, other);
    }
  }

  lemma {:induction false} RunsStayApart(policy: Policy, steps: seq<Step>)
    ensures Apart(policy, Run(policy, steps))
  {
    if steps != [] {
      RunsStayApart(policy, steps[..|steps| - 1]);
      RunsAreConsistent(policy, steps[..|steps| - 1]);
      StepKeepsApart(policy, Run(policy, steps[..|steps| - 1]), steps[|steps| - 1]);
    }
  }

  /** Keeping first enrolments of one pair apart makes the counts agree with the log on
      every schedule, and no student is enrolled twice. */
  lemma ApartKeepsCounts(policy: Policy, steps: seq<Step>)
    requires policy.enrolmentsApart
    ensures CountsAgree(Run(policy, steps).store) && Never(policy, steps, AcceptsEnrolled)
  {
    forall k | 0 <= k < |steps| ensures !At(policy, steps, k, AcceptsEnrolled) {
      RunsStayApart(policy, steps[..k]);
      EnrolledAgainExactly(policy, steps[..k], steps[k]);
    }
    CountsAgreeExactly(policy, steps);
  }

  lemma ApartKeepsOldValues(policy: Policy, steps: seq<Step>)
    requires policy.enrolmentsApart && policy.offeringsApart
    ensures OldValuesHold(Run(policy, steps).store.log)
  {
    forall k | 0 <= k < |steps| ensures !At(policy, steps, k, CommitsStale) {
      RunsStayApart(policy, steps[..k]);
    }
    OldValuesHoldExactly(policy, steps);
  }

  // ----- and when they are not

  // One offering of one course, made by one administrator.
  const COURSE := Course("", "", 0, 0.0, "active")

  function SomeCourse(department: Id): Request {
    Request(0, CreateCourse(0, COURSE.(departmentId := department)))
  }

  function SomeOffering(semester: Id, lecturer: Id): Request {
    Request(0, CreateOffering(0, Offering(0, semester, 2026, "", 75.0, "active"), lecturer))
  }

  function OneOffering(department: Id, semester: Id, lecturer: Id): Tables {
    Tables(map[0 := COURSE.(departmentId := department)], map[0 := SomeOffering(semester, lecturer).op.offering],
           [Assignment(0, lecturer)], [], map[])
  }

  predicate Populated(refs: References, department: Id, semester: Id, lecturer: Id, student: Id) {
    && department in refs.departments && semester in refs.semesters
    && lecturer in refs.lecturers && student in refs.students
  }

  lemma RunExtended(policy: Policy, steps: seq<Step>, step: Step)
    ensures Run(policy, steps + [step]) == Apply(policy, Run(policy, steps), step)
  {
    assert (steps + [step])[..|steps|] == steps;
  }

  lemma CourseMade(refs: References, department: Id)
    requires department in refs.departments
    ensures var r := Execute(refs, EMPTY_TABLES, SomeCourse(department).op);
            r.Ok? && r.value.tables == EMPTY_TABLES.(courses := map[0 := COURSE.(departmentId := department)])
  {
    assert Upper("") == "";
  }

  lemma OfferingMade(refs: References, department: Id, semester: Id, lecturer: Id)
    requires semester in refs.semesters && lecturer in refs.lecturers
    ensures var t := EMPTY_TABLES.(courses := map[0 := COURSE.(departmentId := department)]);
            var r := Execute(refs, t, SomeOffering(semester, lecturer).op);
            r.Ok? && r.value.tables == OneOffering(department, semester, lecturer)
  {
    var t := EMPTY_TABLES.(courses := map[0 := COURSE.(departmentId := department)]);
    var offering := SomeOffering(semester, lecturer).op.offering;
    assert !NaturalKeyExists(t, offering, None);
    assert WithoutOffering([], 0) + [Assignment(0, lecturer)] == [Assignment(0, lecturer)];
  }

  // A schedule after which there is one offering and no transaction is open.
  lemma OfferingReached(policy: Policy, department: Id, semester: Id, lecturer: Id) returns (steps: seq<Step>)
    requires department in policy.refs.departments && semester in policy.refs.semesters
    requires lecturer in policy.refs.lecturers
    ensures Run(policy, steps).store.tables == OneOffering(department, semester, lecturer)
    ensures Run(policy, steps).pending == map[]
  {
    var course, offering := Begin(0, SomeCourse(department)), Begin(0, SomeOffering(semester, lecturer));
    steps := [course] + [offering];
    RunExtended(policy, [], course);
    assert [] + [course] == [course];
    RunExtended(policy, [course], offering);
    CourseMade(policy.refs, department);
    OfferingMade(policy.refs, department, semester, lecturer);
  }

  // Two transactions that no exclusion keeps apart read in turn and are open together.
  lemma BothOpen(policy: Policy, steps: seq<Step>, request: Request, other: Request)
    requires Run(policy, steps).pending == map[]
    requires var t := Run(policy, steps).store.tables;
             && Opened(policy.refs, t, request).Some? && Opened(policy.refs, t, other).Some?
             && !KeptApart(policy, Opened(policy.refs, t, request).value)
             && !KeptApart(policy, Opened(policy.refs, t, other).value)
    ensures var st := Run(policy, steps);
            Run(policy, steps + [Begin(0, request)] + [Begin(1, other)])
            == State(st.store, map[0 := Opened(policy.refs, st.store.tables, request).value,
                                   1 := Opened(policy.refs, st.store.tables, other).value])
  {
    RunExtended(policy, steps, Begin(0, request));
    RunExtended(policy, steps + [Begin(0, request)], Begin(1, other));
  }

  lemma FirstEnrolmentCommits(policy: Policy, st: State, tx: TransactionId)
    requires Consistent(policy, st) && tx in st.pending && st.pending[tx].FirstEnrolment?
    requires !IsStale(st.store.tables, st.pending[tx])
    requires !EnrolmentIdTaken(st.store.tables.enrolments, st.pending[tx].newId)
    ensures var next := Apply(policy, st, Finish(tx));
            IsEnrolled(next.store.tables, st.pending[tx].offeringId, st.pending[tx].studentId)
            && Consistent(policy, next) && next.pending == st.pending - {tx}
  {
    StepKeepsConsistent(policy, st, Finish(tx));
    var t, p := st.store.tables, st.pending[tx];
    UpsertedTables(policy.refs, t, p.newId, p.offeringId, p.studentId);
    UpsertFound(t, p.newId, p.offeringId, p.studentId);
  }

  lemma EnrolledAgainStale(policy: Policy, st: State, tx: TransactionId, p: Pending)
    requires Consistent(policy, st) && tx in st.pending && st.pending[tx] == p && p.FirstEnrolment?
    requires IsEnrolled(st.store.tables, p.offeringId, p.studentId)
    ensures AcceptsEnrolled(policy, st, Finish(tx)) && CommitsStale(policy, st, Finish(tx))
  {
    EnrolledAgain(policy, st, Finish(tx));
  }

  /** Of two open first enrolments of one pair, the second to commit enrols a student who is
      enrolled, over a row it never read. */
  lemma SecondEnrolmentAccepted(policy: Policy, st: State, tx: TransactionId, other: TransactionId)
    requires Consistent(policy, st) && tx != other && tx in st.pending && other in st.pending
    requires st.pending[tx].FirstEnrolment? && SameRow(st.pending[tx], st.pending[other])
    requires !IsStale(st.store.tables, st.pending[tx])
    requires !EnrolmentIdTaken(st.store.tables.enrolments, st.pending[tx].newId)
    ensures var mid := Apply(policy, st, Finish(tx));
            AcceptsEnrolled(policy, mid, Finish(other)) && CommitsStale(policy, mid, Finish(other))
  {
    FirstEnrolmentCommits(policy, st, tx);
    EnrolledAgainStale(policy, Apply(policy, st, Finish(tx)), other, st.pending[other]);
  }

  predicate Assigns(refs: References, p: Pending, id: Id) {
    p.OfferingWrite? && p.offering.None? && p.id == id && p.lecturerId in refs.lecturers
  }

  lemma AssignmentCommits(policy: Policy, st: State, tx: TransactionId, id: Id)
    requires Consistent(policy, st) && tx in st.pending && Assigns(policy.refs, st.pending[tx], id)
    requires id in st.store.tables.offerings
    ensures Committing(policy, st, Finish(tx)).Some?
    ensures var next := Apply(policy, st, Finish(tx)).store.tables;
            id in next.offerings && LecturerOf(next, id) == Some(st.pending[tx].lecturerId)
  {
    var t, p := st.store.tables, st.pending[tx];
    LecturerSet(t, id, p.lecturerId, id);
    assert Execute(policy.refs, t, OperationOf(p)) == DoAssignLecturer(policy.refs, t, id, p.lecturerId);
  }

  // Of two open assignments of another lecturer, the second logs the lecturer it read.
  lemma SecondAssignmentStale(policy: Policy, st: State, tx: TransactionId, other: TransactionId, id: Id)
    requires Consistent(policy, st) && tx != other && tx in st.pending && other in st.pending
    requires id in st.store.tables.offerings
    requires Assigns(policy.refs, st.pending[tx], id) && Assigns(policy.refs, st.pending[other], id)
    requires st.pending[other].seen != Some(st.pending[tx].lecturerId)
    ensures CommitsStale(policy, Apply(policy, st, Finish(tx)), Finish(other))
  {
    AssignmentCommits(policy, st, tx, id);
    StepKeepsConsistent(policy, st, Finish(tx));
    AssignmentCommits(policy, Apply(policy, st, Finish(tx)), other, id);
  }

  lemma LastIsKind(policy: Policy, steps: seq<Step>, step: Step, kind: (Policy, State, Step) -> bool)
    requires kind(policy, Run(policy, steps), step)
    ensures !Never(policy, steps + [step], kind)
  {
    assert (steps + [step])[..|steps|] == steps;
    assert At(policy, steps + [step], |steps|, kind);
  }

  lemma EnrolmentsRace(policy: Policy, department: Id, semester: Id, lecturer: Id, student: Id)
    returns (steps: seq<Step>)
    requires Populated(policy.refs, department, semester, lecturer, student) && !policy.enrolmentsApart
    ensures !Never(policy, steps, AcceptsEnrolled) && !Never(policy, steps, CommitsStale)
  {
    var made := OfferingReached(policy, department, semester, lecturer);
    var first, second := Request(0, EnrolStudent(0, 0, student)), Request(1, EnrolStudent(1, 0, student));
    BothOpen(policy, made, first, second);
    var both := made + [Begin(0, first)] + [Begin(1, second)];
    RunsAreConsistent(policy, both);
    RunExtended(policy, both, Finish(0));
    SecondEnrolmentAccepted(policy, Run(policy, both), 0, 1);
    steps := both + [Finish(0)] + [Finish(1)];
    LastIsKind(policy, both + [Finish(0)], Finish(1), AcceptsEnrolled);
    LastIsKind(policy, both + [Finish(0)], Finish(1), CommitsStale);
  }

  lemma AssignmentsRace(policy: Policy, department: Id, semester: Id, lecturer: Id, other: Id) returns (steps: seq<Step>)
    requires department in policy.refs.departments && semester in policy.refs.semesters
    requires lecturer in policy.refs.lecturers && other in policy.refs.lecturers && lecturer != other
    requires !policy.offeringsApart
    ensures !Never(policy, steps, CommitsStale)
  {
    var made := OfferingReached(policy, department, semester, lecturer);
    var first, second := Request(0, AssignLecturer(0, other)), Request(1, AssignLecturer(0, lecturer));
    BothOpen(policy, made, first, second);
    var both := made + [Begin(0, first)] + [Begin(1, second)];
    RunsAreConsistent(policy, both);
    RunExtended(policy, both, Finish(0));
    SecondAssignmentStale(policy, Run(policy, both), 0, 1, 0);
    steps := both + [Finish(0)] + [Finish(1)];
    LastIsKind(policy, both + [Finish(0)], Finish(1), CommitsStale);
  }

  /** The counts agree with the log on every schedule, and no student is ever enrolled twice,
      exactly when first enrolments of one pair are kept apart. Nothing in the service does. */
  lemma CountsNeedApartEnrolments(policy: Policy, department: Id, semester: Id, lecturer: Id, student: Id)
    requires Populated(policy.refs, department, semester, lecturer, student)
    ensures (forall steps :: CountsAgree(Run(policy, steps).store)) <==> policy.enrolmentsApart
    ensures (forall steps :: Never(policy, steps, AcceptsEnrolled)) <==> policy.enrolmentsApart
  {
    if policy.enrolmentsApart {
      forall steps ensures CountsAgree(Run(policy, steps).store) && Never(policy, steps, AcceptsEnrolled) {
        ApartKeepsCounts(policy, steps);
      }
    } else {
      var steps := EnrolmentsRace(policy, department, semester, lecturer, student);
      CountsAgreeExactly(policy, steps);
      assert !CountsAgree(Run(policy, steps).store);
    }
  }

  /** The log's old values are right on every schedule exactly when both first enrolments of
      one pair and changes of one offering are kept apart. */
  lemma OldValuesNeedBothApart(policy: Policy, department: Id, semester: Id, lecturer: Id, other: Id, student: Id)
    requires Populated(policy.refs, department, semester, lecturer, student)
    requires other in policy.refs.lecturers && other != lecturer
    ensures (forall steps :: OldValuesHold(Run(policy, steps).store.log))
       <==> policy.enrolmentsApart && policy.offeringsApart
  {
    if policy.enrolmentsApart && policy.offeringsApart {
      forall steps ensures OldValuesHold(Run(policy, steps).store.log) {
        ApartKeepsOldValues(policy, steps);
      }
    } else {
      var steps;
      if policy.enrolmentsApart {
        steps := AssignmentsRace(policy, department, semester, lecturer, other);
      } else {
        steps := EnrolmentsRace(policy, department, semester, lecturer, student);
      }
      OldValuesHoldExactly(policy, steps);
      assert !OldValuesHold(Run(policy, steps).store.log);
    }
  }
}
