/** Enrolments and readiness checks of any number of students, interleaved in any order.
    A reference enrolment reads the profile, analyzes the photograph with its transaction
    open and then writes without looking at the status again; a readiness check does the
    same with the comparison in between. The batch lock of the upload route is the only
    thing that keeps two enrolments apart (reference_enrollment_service.py:56-127,
    readiness_verification_service.py:119-186, api/routes/enrollment.py:50-67). */
module EnrolmentSchedules {
  import opened Wrappers
  import opened PythonText
  import opened EmbeddingSimilarity
  import opened FaceEngine
  import opened FaceComparison
  import opened VerificationConfigs
  import opened FaceProfiles

  type TaskId = nat

  // Whether every enrolment runs under the batch lock, and the model version of the settings.
  datatype Setup = Setup(serialized: bool, modelVersion: string)

  datatype Outcome = EnrolReturned(status: EnrolmentStatus) | ReadinessReturned | NotReady | Raised

  // A task that is inserting has read no profile; one that has inserted has not committed its
  // row while it is analysing.
  datatype Task =
    | Inserting(student: StudentId)
    | Analysing(student: StudentId, profileId: ProfileId, inserted: bool)
    | Comparing(student: StudentId, reference: StoredFaceEmbedding, config: ConfigId)
    | Done(outcome: Outcome)

  datatype State = State(profiles: ProfileTable, tasks: map<TaskId, Task>)

  // Abort stands for anything that raises: it rolls back.
  datatype Step =
    | StartEnrol(t: TaskId, student: StudentId)
    | Insert(t: TaskId, newId: ProfileId)
    | FinishEnrol(t: TaskId, analysis: Option<FaceAnalysisResult>, at: Instant)
    | StartReadiness(t: TaskId, student: StudentId, config: Option<ConfigId>)
    | FinishReadiness(t: TaskId, comparison: FaceComparisonResult, at: Instant)
    | Abort(t: TaskId)

  predicate Enrolling(task: Task) {
    task.Inserting? || task.Analysing?
  }

  predicate EnrolmentRunning(st: State) {
    exists t :: t in st.tasks && Enrolling(st.tasks[t])
  }

  // Another transaction has inserted, and not yet committed, a row with this student or id.
  predicate InsertBlocked(st: State, student: StudentId, id: ProfileId) {
    exists t :: t in st.tasks && st.tasks[t].Analysing? && st.tasks[t].inserted
                && (st.tasks[t].student == student || st.tasks[t].profileId == id)
  }

  function Ended(st: State, t: TaskId, outcome: Outcome): State {
    st.(tasks := st.tasks[t := Done(outcome)])
  }

  function StartEnrolment(st: State, t: TaskId, student: StudentId): State {
    var profile := GetByStudentId(st.profiles, student);
    if profile.Some? && profile.value.generation == Generated then Ended(st, t, EnrolReturned(AlreadyEnrolled))
    else if profile.Some? && profile.value.generation == Revoked then Ended(st, t, EnrolReturned(ProfileRevoked))
    else if profile.Some? then st.(tasks := st.tasks[t := Analysing(student, profile.value.id, false)])
    else st.(tasks := st.tasks[t := Inserting(student)])
  }

  // A conflicting uncommitted insert makes it wait; a committed one makes it raise.
  function InsertPending(st: State, t: TaskId, student: StudentId, newId: ProfileId): State {
    if InsertBlocked(st, student, newId) then st
    else if student in st.profiles || HasProfile(st.profiles, newId) then Ended(st, t, Raised)
    else st.(tasks := st.tasks[t := Analysing(student, newId, true)])
  }

  // The transaction's own view of the table: with the row it has inserted, if any.
  function OwnView(st: State, task: Task): ProfileTable
    requires task.Analysing?
  {
    if task.inserted then st.profiles[task.student := PendingProfile(task.profileId)] else st.profiles
  }

  function CommitEnrolment(setup: Setup, st: State, t: TaskId, task: Task, analysis: Option<FaceAnalysisResult>, at: Instant): State
    requires task.Analysing? && (analysis.Some? ==> analysis.value.Constructible())
  {
    match FinishEnrolment(OwnView(st, task), task.profileId, analysis, setup.modelVersion, at)
    case Ok(finished) => Ended(st.(profiles := finished.table), t, EnrolReturned(finished.status))
    case Err(_) => Ended(st, t, Raised)
  }

  function StartCheck(st: State, t: TaskId, student: StudentId, config: Option<ConfigId>): State {
    match StoredEmbeddingForComparison(st.profiles, student)
    case Err(_) => Ended(st, t, Raised)
    case Ok(None) => Ended(st, t, NotReady)
    case Ok(Some(reference)) =>
      if config.None? then Ended(st, t, NotReady)
      else st.(tasks := st.tasks[t := Comparing(student, reference, config.value)])
  }

  function CommitReadiness(st: State, t: TaskId, task: Task, comparison: FaceComparisonResult, at: Instant): State
    requires task.Comparing?
  {
    var status := if comparison.status == Matched then ReadinessPassed else ReadinessFailed;
    if HasProfile(st.profiles, task.reference.profileId) then
      Ended(st.(profiles := UpdateReadinessResult(st.profiles, task.reference.profileId, status, task.config, at)), t,
            ReadinessReturned)
    else Ended(st, t, Raised)
  }

  // A step that its task or the lock does not allow leaves the state as it is.
  function Apply(setup: Setup, st: State, step: Step): State {
    match step
    case StartEnrol(t, student) =>
      if t in st.tasks || (setup.serialized && EnrolmentRunning(st)) then st else StartEnrolment(st, t, student)
    case Insert(t, newId) =>
      if t in st.tasks && st.tasks[t].Inserting? then InsertPending(st, t, st.tasks[t].student, newId) else st
    case FinishEnrol(t, analysis, at) =>
      if t in st.tasks && st.tasks[t].Analysing? && (analysis.Some? ==> analysis.value.Constructible())
      then CommitEnrolment(setup, st, t, st.tasks[t], analysis, at) else st
    case StartReadiness(t, student, config) =>
      if t in st.tasks then st else StartCheck(st, t, student, config)
    case FinishReadiness(t, comparison, at) =>
      if t in st.tasks && st.tasks[t].Comparing? then CommitReadiness(st, t, st.tasks[t], comparison, at) else st
    case Abort(t) =>
      if t in st.tasks && !st.tasks[t].Done? then Ended(st, t, Raised) else st
  }

  // From a table as found, with no call running.
  function Run(setup: Setup, start: ProfileTable, steps: seq<Step>): State {
    if steps == [] then State(start, map[])
    else Apply(setup, Run(setup, start, steps[..|steps| - 1]), steps[|steps| - 1])
  }

  // ----- what every schedule keeps, serialized or not

  // A row a transaction has inserted is still its own: nobody else has the student or the id.
  ghost predicate InsertsApart(st: State) {
    && (forall t :: t in st.tasks && st.tasks[t].Analysing? && st.tasks[t].inserted ==>
          st.tasks[t].student !in st.profiles && !HasProfile(st.profiles, st.tasks[t].profileId))
    && (forall t, u :: t in st.tasks && u in st.tasks && t != u
                       && st.tasks[t].Analysing? && st.tasks[t].inserted && st.tasks[u].Analysing? && st.tasks[u].inserted ==>
          st.tasks[t].student != st.tasks[u].student && st.tasks[t].profileId != st.tasks[u].profileId)
  }

  // What a running call has read still names its student's row.
  ghost predicate ReadsHold(st: State) {
    forall t :: t in st.tasks ==>
      && (st.tasks[t].Analysing? && !st.tasks[t].inserted ==>
            st.tasks[t].student in st.profiles && st.profiles[st.tasks[t].student].id == st.tasks[t].profileId)
      && (st.tasks[t].Comparing? ==>
            st.tasks[t].student in st.profiles && st.profiles[st.tasks[t].student].id == st.tasks[t].reference.profileId)
  }

  ghost predicate Basic(st: State) {
    WellFormed(st.profiles) && InsertsApart(st) && ReadsHold(st)
  }

  // ----- what serialized enrolments keep in addition

  ghost predicate Serial(st: State) {
    && (forall t, u :: t in st.tasks && u in st.tasks && t != u ==> !(Enrolling(st.tasks[t]) && Enrolling(st.tasks[u])))
    && (forall t :: t in st.tasks && st.tasks[t].Analysing? && !st.tasks[t].inserted ==>
          st.tasks[t].student in st.profiles && st.profiles[st.tasks[t].student].generation !in {Generated, Revoked})
    && (forall t :: t in st.tasks && st.tasks[t].Comparing? ==>
          st.tasks[t].student in st.profiles && st.profiles[st.tasks[t].student].generation == Generated)
  }

  // ----- each step keeps them

  lemma EndKeeps(st: State, t: TaskId, outcome: Outcome)
    ensures Basic(st) ==> Basic(Ended(st, t, outcome))
    ensures Serial(st) ==> Serial(Ended(st, t, outcome))
  {
  }

  // A commit keeps every row and its id, and adds at most the row its own call had inserted.
  ghost predicate Commits(st: State, t: TaskId, later: ProfileTable) {
    && t in st.tasks
    && (forall s :: s in st.profiles ==> s in later && later[s].id == st.profiles[s].id)
    && (forall s :: s in later && s !in st.profiles ==>
          && st.tasks[t].Analysing? && st.tasks[t].inserted
          && s == st.tasks[t].student && later[s].id == st.tasks[t].profileId)
  }

  lemma CommitKeepsInserts(st: State, t: TaskId, later: ProfileTable, outcome: Outcome)
    requires InsertsApart(st) && Commits(st, t, later)
    ensures InsertsApart(Ended(st.(profiles := later), t, outcome))
  {
    var next := Ended(st.(profiles := later), t, outcome);
    forall u | u in next.tasks && next.tasks[u].Analysing? && next.tasks[u].inserted
      ensures next.tasks[u].student !in later && !HasProfile(later, next.tasks[u].profileId)
    {
      assert u != t && st.tasks[u] == next.tasks[u];
      forall s | s in later ensures later[s].id != next.tasks[u].profileId {
        if s in st.profiles {
          assert st.profiles[s].id != st.tasks[u].profileId;
        }
      }
    }
  }

  lemma CommitKeepsBasic(st: State, t: TaskId, later: ProfileTable, outcome: Outcome)
    requires Basic(st) && WellFormed(later) && Commits(st, t, later)
    ensures Basic(Ended(st.(profiles := later), t, outcome))
  {
    CommitKeepsInserts(st, t, later, outcome);
  }

  lemma CommitKeepsSerial(st: State, t: TaskId, later: ProfileTable, outcome: Outcome)
    requires Serial(st) && Commits(st, t, later)
    requires forall s :: s in st.profiles && st.profiles[s].generation == Generated ==> later[s].generation == Generated
    requires Enrolling(st.tasks[t]) || forall s :: s in st.profiles ==> later[s].generation == st.profiles[s].generation
    ensures Serial(Ended(st.(profiles := later), t, outcome))
  {
  }

  // What a step does to the profiles when enrolments are serialized.
  ghost predicate Careful(before: ProfileTable, after: ProfileTable) {
    Protected(before, after) && (ReadinessSound(before) ==> ReadinessSound(after))
  }

  // What a call that has just started may have read.
  ghost predicate FreshRead(st: State, task: Task) {
    match task
    case Inserting(_) => true
    case Analysing(s, id, inserted) => !inserted && s in st.profiles && st.profiles[s].id == id
                                       && st.profiles[s].generation !in {Generated, Revoked}
    case Comparing(s, reference, _) => s in st.profiles && st.profiles[s].id == reference.profileId
                                       && st.profiles[s].generation == Generated
    case Done(_) => true
  }

  lemma StartKeepsBasic(st: State, t: TaskId, task: Task)
    requires Basic(st) && t !in st.tasks && FreshRead(st, task)
    ensures Basic(st.(tasks := st.tasks[t := task]))
  {
  }

  lemma StartKeepsSerial(st: State, t: TaskId, task: Task)
    requires Serial(st) && t !in st.tasks && FreshRead(st, task)
    requires Enrolling(task) ==> !EnrolmentRunning(st)
    ensures Serial(st.(tasks := st.tasks[t := task]))
  {
  }

  lemma StartEnrolmentKeeps(setup: Setup, st: State, t: TaskId, student: StudentId)
    requires Basic(st) && t !in st.tasks
    ensures Basic(StartEnrolment(st, t, student))
    ensures Serial(st) && !EnrolmentRunning(st) ==> Serial(StartEnrolment(st, t, student))
    ensures StartEnrolment(st, t, student).profiles == st.profiles
  {
    var task := StartEnrolment(st, t, student).tasks[t];
    StartKeepsBasic(st, t, task);
    if Serial(st) && !EnrolmentRunning(st) {
      StartKeepsSerial(st, t, task);
    }
  }

  lemma InsertPendingKeeps(setup: Setup, st: State, t: TaskId, newId: ProfileId)
    requires Basic(st) && t in st.tasks && st.tasks[t].Inserting?
    ensures var next := InsertPending(st, t, st.tasks[t].student, newId);
            Basic(next) && next.profiles == st.profiles && (Serial(st) ==> Serial(next))
  {
    var student := st.tasks[t].student;
    EndKeeps(st, t, Raised);
    if !InsertBlocked(st, student, newId) && student !in st.profiles && !HasProfile(st.profiles, newId) {
      var next := InsertPending(st, t, student, newId);
      forall u | u in next.tasks && u != t && next.tasks[u].Analysing? && next.tasks[u].inserted
        ensures next.tasks[u].student != student && next.tasks[u].profileId != newId
      {
        assert st.tasks[u] == next.tasks[u];
      }
      assert InsertsApart(next);
    }
  }

  lemma OwnViewSound(st: State, t: TaskId)
    requires Basic(st) && t in st.tasks && st.tasks[t].Analysing?
    ensures var view := OwnView(st, st.tasks[t]);
            var student := st.tasks[t].student;
            && WellFormed(view) && student in view && view[student].id == st.tasks[t].profileId
            && view == st.profiles[student := view[student]]
  {
  }

  lemma FinishKeepsRows(base: ProfileTable, student: StudentId, analysis: Option<FaceAnalysisResult>, version: string, at: Instant)
    requires WellFormed(base) && student in base && (analysis.Some? ==> analysis.value.Constructible())
    ensures var r := FinishEnrolment(base, base[student].id, analysis, version, at);
            r.Ok? ==> WellFormed(r.value.table) && r.value.table.Keys == base.Keys
                      && forall s :: s in base ==> r.value.table[s].id == base[s].id
  {
    var r := FinishEnrolment(base, base[student].id, analysis, version, at);
    FinishWrites(base, student, analysis, version, at);
    if r.Ok? {
      var later := r.value.table;
      assert forall s :: s in base && s != student ==> later[s] == base[s];
    }
  }

  lemma CommitEnrolmentKeeps(setup: Setup, st: State, t: TaskId, analysis: Option<FaceAnalysisResult>, at: Instant)
    requires Basic(st) && t in st.tasks && st.tasks[t].Analysing? && (analysis.Some? ==> analysis.value.Constructible())
    ensures Basic(CommitEnrolment(setup, st, t, st.tasks[t], analysis, at))
  {
    var task := st.tasks[t];
    var view := OwnView(st, task);
    OwnViewSound(st, t);
    FinishKeepsRows(view, task.student, analysis, setup.modelVersion, at);
    EndKeeps(st, t, Raised);
    var r := FinishEnrolment(view, task.profileId, analysis, setup.modelVersion, at);
    if r.Ok? {
      CommitKeepsBasic(st, t, r.value.table, EnrolReturned(r.value.status));
    }
  }

  lemma CommitEnrolmentCareful(setup: Setup, st: State, t: TaskId, analysis: Option<FaceAnalysisResult>, at: Instant)
    requires Basic(st) && Serial(st) && t in st.tasks && st.tasks[t].Analysing?
    requires analysis.Some? ==> analysis.value.Constructible()
    ensures var next := CommitEnrolment(setup, st, t, st.tasks[t], analysis, at);
            Serial(next) && Careful(st.profiles, next.profiles)
  {
    var task := st.tasks[t];
    var view := OwnView(st, task);
    OwnViewSound(st, t);
    FinishKeepsRows(view, task.student, analysis, setup.modelVersion, at);
    EndKeeps(st, t, Raised);
    var r := FinishEnrolment(view, task.profileId, analysis, setup.modelVersion, at);
    if r.Ok? {
      assert ReadinessSound(st.profiles) ==> view[task.student].readiness == NotChecked;
      FinishProtects(st.profiles, view, task.student, analysis, setup.modelVersion, at);
      CommitKeepsSerial(st, t, r.value.table, EnrolReturned(r.value.status));
    }
  }

  lemma StartCheckKeeps(st: State, t: TaskId, student: StudentId, config: Option<ConfigId>)
    requires Basic(st) && t !in st.tasks
    ensures var next := StartCheck(st, t, student, config);
            Basic(next) && next.profiles == st.profiles && (Serial(st) ==> Serial(next))
  {
    StoredEmbeddingReads(st.profiles, student);
    var task := StartCheck(st, t, student, config).tasks[t];
    StartKeepsBasic(st, t, task);
    if Serial(st) {
      StartKeepsSerial(st, t, task);
    }
  }

  lemma CommitReadinessKeeps(st: State, t: TaskId, comparison: FaceComparisonResult, at: Instant)
    requires Basic(st) && t in st.tasks && st.tasks[t].Comparing?
    ensures var next := CommitReadiness(st, t, st.tasks[t], comparison, at);
            && Basic(next)
            && (Serial(st) ==> Serial(next) && Careful(st.profiles, next.profiles))
  {
    var task := st.tasks[t];
    var s := task.student;
    var status := if comparison.status == Matched then ReadinessPassed else ReadinessFailed;
    var config := task.config;
    WrittenById(st.profiles, s, p => CheckedRow(p, status, config, at));
    var later := st.profiles[s := CheckedRow(st.profiles[s], status, config, at)];
    assert HasProfile(st.profiles, task.reference.profileId);
    assert UpdateReadinessResult(st.profiles, task.reference.profileId, status, config, at) == later;
    assert WellFormed(later) by {
      assert Complete(later[s]);
    }
    CommitKeepsBasic(st, t, later, ReadinessReturned);
    if Serial(st) {
      CommitKeepsSerial(st, t, later, ReadinessReturned);
    }
  }

  lemma StepKeepsBasic(setup: Setup, st: State, step: Step)
    requires Basic(st)
    ensures Basic(Apply(setup, st, step))
  {
    match step {
      case StartEnrol(t, student) => if t !in st.tasks { StartEnrolmentKeeps(setup, st, t, student); }
      case Insert(t, newId) => if t in st.tasks && st.tasks[t].Inserting? { InsertPendingKeeps(setup, st, t, newId); }
      case FinishEnrol(t, analysis, at) =>
        if t in st.tasks && st.tasks[t].Analysing? && (analysis.Some? ==> analysis.value.Constructible()) {
          CommitEnrolmentKeeps(setup, st, t, analysis, at);
        }
      case StartReadiness(t, student, config) => if t !in st.tasks { StartCheckKeeps(st, t, student, config); }
      case FinishReadiness(t, comparison, at) =>
        if t in st.tasks && st.tasks[t].Comparing? { CommitReadinessKeeps(st, t, comparison, at); }
      case Abort(t) => EndKeeps(st, t, Raised);
    }
  }

  lemma StepIsCareful(setup: Setup, st: State, step: Step)
    requires setup.serialized && Basic(st) && Serial(st)
    ensures Serial(Apply(setup, st, step)) && Careful(st.profiles, Apply(setup, st, step).profiles)
  {
    match step {
      case StartEnrol(t, student) => if t !in st.tasks { StartEnrolmentKeeps(setup, st, t, student); }
      case Insert(t, newId) => if t in st.tasks && st.tasks[t].Inserting? { InsertPendingKeeps(setup, st, t, newId); }
      case FinishEnrol(t, analysis, at) =>
        if t in st.tasks && st.tasks[t].Analysing? && (analysis.Some? ==> analysis.value.Constructible()) {
          CommitEnrolmentCareful(setup, st, t, analysis, at);
        }
      case StartReadiness(t, student, config) => if t !in st.tasks { StartCheckKeeps(st, t, student, config); }
      case FinishReadiness(t, comparison, at) =>
        if t in st.tasks && st.tasks[t].Comparing? { CommitReadinessKeeps(st, t, comparison, at); }
      case Abort(t) => EndKeeps(st, t, Raised);
    }
  }

  // ----- over every schedule

  lemma {:induction false} RunsAreBasic(setup: Setup, start: ProfileTable, steps: seq<Step>)
    requires WellFormed(start)
    ensures Basic(Run(setup, start, steps))
  {
    if steps != [] {
      RunsAreBasic(setup, start, steps[..|steps| - 1]);
      StepKeepsBasic(setup, Run(setup, start, steps[..|steps| - 1]), steps[|steps| - 1]);
    }
  }

  /** On every schedule, serialized or not, generated rows stay complete, so reading a
      stored reference never raises, and no enrolment or check finds its profile gone. */
  lemma ReadingNeverRaises(setup: Setup, start: ProfileTable, steps: seq<Step>, student: StudentId)
    requires WellFormed(start)
    ensures WellFormed(Run(setup, start, steps).profiles)
    ensures StoredEmbeddingForComparison(Run(setup, start, steps).profiles, student).Ok?
    ensures forall t :: t in Run(setup, start, steps).tasks && Run(setup, start, steps).tasks[t].Comparing? ==>
              HasProfile(Run(setup, start, steps).profiles, Run(setup, start, steps).tasks[t].reference.profileId)
  {
    RunsAreBasic(setup, start, steps);
    StoredEmbeddingReads(Run(setup, start, steps).profiles, student);
  }

  lemma {:induction false} SerialRuns(setup: Setup, start: ProfileTable, steps: seq<Step>, k: nat)
    requires setup.serialized && WellFormed(start) && k <= |steps|
    ensures Serial(Run(setup, start, steps))
    ensures Protected(Run(setup, start, steps[..k]).profiles, Run(setup, start, steps).profiles)
    ensures ReadinessSound(start) ==> ReadinessSound(Run(setup, start, steps).profiles)
    decreases |steps|
  {
    if steps == [] {
      assert steps[..k] == [];
    } else {
      var front := steps[..|steps| - 1];
      var before := Run(setup, start, front);
      RunsAreBasic(setup, start, front);
      SerialRuns(setup, start, front, if k < |steps| then k else 0);
      StepIsCareful(setup, before, steps[|steps| - 1]);
      if k < |steps| {
        assert front[..k] == steps[..k];
        ProtectedTrans(Run(setup, start, steps[..k]).profiles, before.profiles, Run(setup, start, steps).profiles);
      } else {
        assert steps[..k] == steps;
      }
    }
  }

  // Generated references and revoked profiles survive from any moment to any later one,
  // and a readiness result is always backed by a generated embedding.
  ghost predicate Safe(setup: Setup, start: ProfileTable, steps: seq<Step>) {
    && (forall k :: 0 <= k <= |steps| ==>
          Protected(Run(setup, start, steps[..k]).profiles, Run(setup, start, steps).profiles))
    && ReadinessSound(Run(setup, start, steps).profiles)
  }

  ghost predicate SafeOnEverySchedule(setup: Setup) {
    forall start, steps :: WellFormed(start) && ReadinessSound(start) ==> Safe(setup, start, steps)
  }

  /** Under the batch lock no schedule of enrolments and readiness checks ever alters a
      generated reference or a revoked profile, and a readiness result other than
      not-checked implies a generated embedding with its check time and configuration. */
  lemma SerializedIsSafe(setup: Setup, start: ProfileTable, steps: seq<Step>)
    requires setup.serialized && WellFormed(start) && ReadinessSound(start)
    ensures Safe(setup, start, steps)
  {
    forall k | 0 <= k <= |steps|
      ensures Protected(Run(setup, start, steps[..k]).profiles, Run(setup, start, steps).profiles)
    {
      SerialRuns(setup, start, steps, k);
    }
    SerialRuns(setup, start, steps, 0);
  }

  // ----- without the lock

  lemma RunSnoc(setup: Setup, start: ProfileTable, steps: seq<Step>, step: Step)
    ensures Run(setup, start, steps + [step]) == Apply(setup, Run(setup, start, steps), step)
  {
    assert (steps + [step])[..|steps|] == steps;
  }

  lemma SaveStep(setup: Setup, st: State, t: TaskId, s: StudentId, sharp: FaceAnalysisResult, at: Instant)
    requires DistinctIds(st.profiles) && s in st.profiles && t in st.tasks
    requires st.tasks[t] == Analysing(s, st.profiles[s].id, false)
    requires CanEnrol(setup, sharp)
    ensures Apply(setup, st, FinishEnrol(t, Some(sharp), at))
         == Ended(st.(profiles := st.profiles[s := GeneratedRow(st.profiles[s], sharp.embedding.value, sharp.modelName.value,
                                                                setup.modelVersion, at)]), t, EnrolReturned(EnrolSuccess))
  {
    var embedding, name, version := sharp.embedding.value, sharp.modelName.value, setup.modelVersion;
    WrittenById(st.profiles, s, p => GeneratedRow(p, embedding, name, version, at));
  }

  lemma FailStep(setup: Setup, st: State, t: TaskId, s: StudentId, blurred: FaceAnalysisResult, at: Instant)
    requires DistinctIds(st.profiles) && s in st.profiles && t in st.tasks
    requires st.tasks[t] == Analysing(s, st.profiles[s].id, false)
    requires blurred.Constructible() && blurred.status != Success
    ensures Apply(setup, st, FinishEnrol(t, Some(blurred), at))
         == Ended(st.(profiles := st.profiles[s := FailedRow(st.profiles[s])]), t,
                  EnrolReturned(FaceProfiles.FailureStatus(blurred.status)))
  {
    WrittenById(st.profiles, s, FailedRow);
  }

  lemma CheckSteps(setup: Setup, st: State, t: TaskId, s: StudentId, config: ConfigId, comparison: FaceComparisonResult, at: Instant)
    requires WellFormed(st.profiles) && s in st.profiles && st.profiles[s].generation == Generated && t !in st.tasks
    requires comparison.status == Matched
    ensures var started := Apply(setup, st, StartReadiness(t, s, Some(config)));
            && Apply(setup, started, FinishReadiness(t, comparison, at)).profiles
               == st.profiles[s := CheckedRow(st.profiles[s], ReadinessPassed, config, at)]
            && Apply(setup, started, FinishReadiness(t, comparison, at)).tasks == st.tasks[t := Done(ReadinessReturned)]
  {
    StoredEmbeddingReads(st.profiles, s);
    WrittenById(st.profiles, s, p => CheckedRow(p, ReadinessPassed, config, at));
    assert HasProfile(st.profiles, st.profiles[s].id);
  }

  // The engine's answer is one that an enrolment can save.
  predicate CanEnrol(setup: Setup, sharp: FaceAnalysisResult) {
    && sharp.Constructible() && sharp.status == Success
    && Strip(sharp.modelName.value) != "" && Strip(setup.modelVersion) != ""
  }

  // No photograph of the student has been accepted, nor the profile revoked.
  predicate AwaitsReference(table: ProfileTable, s: StudentId) {
    s in table ==> table[s].generation !in {Generated, Revoked}
  }

  // A student without a profile first has an upload that fails, which leaves one.
  function Opening(table: ProfileTable, s: StudentId, newId: ProfileId, blurred: FaceAnalysisResult): seq<Step> {
    if s in table then [] else [StartEnrol(3, s)] + [Insert(3, newId)] + [FinishEnrol(3, Some(blurred), 5)]
  }

  // Two uploads of one student read the profile; one saves a reference, a readiness check
  // passes against it, and then the other one, whose photograph was worse, finishes.
  function Saving(opening: seq<Step>, s: StudentId, sharp: FaceAnalysisResult): seq<Step> {
    opening + [StartEnrol(0, s)] + [StartEnrol(1, s)] + [FinishEnrol(0, Some(sharp), 10)]
  }

  function Race(opening: seq<Step>, s: StudentId, sharp: FaceAnalysisResult, comparison: FaceComparisonResult,
                blurred: FaceAnalysisResult): seq<Step>
  {
    Saving(opening, s, sharp) + [StartReadiness(2, s, Some(3))] + [FinishReadiness(2, comparison, 20)]
    + [FinishEnrol(1, Some(blurred), 30)]
  }

  // Both uploads can begin: the student has a profile to read, and neither has begun yet.
  ghost predicate ReadyToRace(st: State, s: StudentId) {
    && s in st.profiles && st.profiles[s].generation !in {Generated, Revoked}
    && 0 !in st.tasks && 1 !in st.tasks && 2 !in st.tasks
  }

  lemma InsertedFails(setup: Setup, st: State, t: TaskId, s: StudentId, id: ProfileId, blurred: FaceAnalysisResult,
                      at: Instant)
    requires DistinctIds(st.profiles) && s !in st.profiles && !HasProfile(st.profiles, id)
    requires t in st.tasks && st.tasks[t] == Analysing(s, id, true)
    requires blurred.Constructible() && blurred.status != Success
    ensures Apply(setup, st, FinishEnrol(t, Some(blurred), at))
         == Ended(st.(profiles := st.profiles[s := FailedRow(PendingProfile(id))]), t,
                  EnrolReturned(FaceProfiles.FailureStatus(blurred.status)))
  {
    var view := st.profiles[s := PendingProfile(id)];
    WrittenById(view, s, FailedRow);
    assert view[s := FailedRow(view[s])] == st.profiles[s := FailedRow(PendingProfile(id))];
  }

  lemma OpeningReady(setup: Setup, table: ProfileTable, s: StudentId, newId: ProfileId, blurred: FaceAnalysisResult)
    requires WellFormed(table) && AwaitsReference(table, s) && (s in table || !HasProfile(table, newId))
    requires blurred.Constructible() && blurred.status != Success
    ensures ReadyToRace(Run(setup, table, Opening(table, s, newId, blurred)), s)
  {
    if s !in table {
      var start, insert := [StartEnrol(3, s)], [Insert(3, newId)];
      assert [] + start == start;
      RunSnoc(setup, table, [], StartEnrol(3, s));
      RunSnoc(setup, table, start, Insert(3, newId));
      RunSnoc(setup, table, start + insert, FinishEnrol(3, Some(blurred), 5));
      assert Run(setup, table, start + insert) == State(table, map[3 := Analysing(s, newId, true)]);
      InsertedFails(setup, Run(setup, table, start + insert), 3, s, newId, blurred, 5);
    }
  }

  lemma BothRead(setup: Setup, table: ProfileTable, opening: seq<Step>, s: StudentId)
    requires !setup.serialized && ReadyToRace(Run(setup, table, opening), s)
    ensures var st := Run(setup, table, opening);
            var reading := Analysing(s, st.profiles[s].id, false);
            Run(setup, table, opening + [StartEnrol(0, s)] + [StartEnrol(1, s)])
            == st.(tasks := st.tasks[0 := reading][1 := reading])
  {
    RunSnoc(setup, table, opening, StartEnrol(0, s));
    RunSnoc(setup, table, opening + [StartEnrol(0, s)], StartEnrol(1, s));
  }

  lemma ReferenceSaved(setup: Setup, table: ProfileTable, opening: seq<Step>, s: StudentId, sharp: FaceAnalysisResult)
    requires !setup.serialized && WellFormed(table) && CanEnrol(setup, sharp)
    requires ReadyToRace(Run(setup, table, opening), s)
    ensures var st := Run(setup, table, Saving(opening, s, sharp));
            && s in st.profiles && st.profiles[s].generation == Generated && 2 !in st.tasks
            && 1 in st.tasks && st.tasks[1] == Analysing(s, st.profiles[s].id, false)
  {
    var both := opening + [StartEnrol(0, s)] + [StartEnrol(1, s)];
    BothRead(setup, table, opening, s);
    RunsAreBasic(setup, table, both);
    RunSnoc(setup, table, both, FinishEnrol(0, Some(sharp), 10));
    SaveStep(setup, Run(setup, table, both), 0, s, sharp, 10);
  }

  lemma ReferenceLost(setup: Setup, table: ProfileTable, saving: seq<Step>, s: StudentId,
                      comparison: FaceComparisonResult, blurred: FaceAnalysisResult)
    requires WellFormed(table) && comparison.status == Matched && blurred.Constructible() && blurred.status != Success
    requires var st := Run(setup, table, saving);
             && s in st.profiles && st.profiles[s].generation == Generated && 2 !in st.tasks
             && 1 in st.tasks && st.tasks[1] == Analysing(s, st.profiles[s].id, false)
    ensures var p := Run(setup, table, saving + [StartReadiness(2, s, Some(3))] + [FinishReadiness(2, comparison, 20)]
                                       + [FinishEnrol(1, Some(blurred), 30)]).profiles;
            s in p && p[s].generation == GenerationFailed && p[s].readiness == ReadinessPassed
  {
    var checking := saving + [StartReadiness(2, s, Some(3))];
    var checked := checking + [FinishReadiness(2, comparison, 20)];
    RunsAreBasic(setup, table, saving);
    RunSnoc(setup, table, saving, StartReadiness(2, s, Some(3)));
    RunSnoc(setup, table, checking, FinishReadiness(2, comparison, 20));
    CheckSteps(setup, Run(setup, table, saving), 2, s, 3, comparison, 20);
    RunsAreBasic(setup, table, checked);
    RunSnoc(setup, table, checked, FinishEnrol(1, Some(blurred), 30));
    FailStep(setup, Run(setup, table, checked), 1, s, blurred, 30);
  }

  /** Without the lock, any student whose photograph has not been accepted yet, with a
      profile or without one, can lose the reference of one upload to a second one, and
      keep a passed readiness check for it. */
  lemma RaceLosesReference(setup: Setup, table: ProfileTable, s: StudentId, newId: ProfileId, sharp: FaceAnalysisResult,
                           comparison: FaceComparisonResult, blurred: FaceAnalysisResult)
    requires !setup.serialized && WellFormed(table) && AwaitsReference(table, s)
    requires s in table || !HasProfile(table, newId)
    requires CanEnrol(setup, sharp) && comparison.status == Matched
    requires blurred.Constructible() && blurred.status != Success
    ensures var p := Run(setup, table, Saving(Opening(table, s, newId, blurred), s, sharp)).profiles;
            s in p && p[s].generation == Generated
    ensures var p := Run(setup, table, Race(Opening(table, s, newId, blurred), s, sharp, comparison, blurred)).profiles;
            s in p && p[s].generation == GenerationFailed && p[s].readiness == ReadinessPassed
  {
    var opening := Opening(table, s, newId, blurred);
    OpeningReady(setup, table, s, newId, blurred);
    ReferenceSaved(setup, table, opening, s, sharp);
    ReferenceLost(setup, table, Saving(opening, s, sharp), s, comparison, blurred);
  }

  lemma RaceIsUnsafe(setup: Setup, start: ProfileTable, steps: seq<Step>, s: StudentId)
    requires WellFormed(start) && ReadinessSound(start)
    requires var p := Run(setup, start, steps).profiles;
             s in p && p[s].generation == GenerationFailed && p[s].readiness == ReadinessPassed
    ensures !SafeOnEverySchedule(setup)
  {
    assert !ReadinessBacked(Run(setup, start, steps).profiles[s]);
    assert !Safe(setup, start, steps);
  }

  /** Enrolment is safe on every schedule exactly when the batch lock serializes it. */
  lemma SafeIffSerialized(setup: Setup)
    requires Strip(setup.modelVersion) != ""
    ensures SafeOnEverySchedule(setup) <==> setup.serialized
  {
    if setup.serialized {
      forall start, steps | WellFormed(start) && ReadinessSound(start) ensures Safe(setup, start, steps) {
        SerializedIsSafe(setup, start, steps);
      }
    } else {
      var table: ProfileTable := map[7 := PendingProfile(1)];
      var sharp := FaceAnalysisResult(Success, 1, Some([1.0]), Some(0.9), Some("m"), None);
      var matched := FaceComparisonResult(Matched, Some(1.0), Some(0.5), Some(0.9), Some("m"), None);
      var blurred := FaceAnalysisResult(NoFace, 0, None, None, None, None);
      StripIdentity("m");
      RaceLosesReference(setup, table, 7, 1, sharp, matched, blurred);
      RaceIsUnsafe(setup, table, Race(Opening(table, 7, 1, blurred), 7, sharp, matched, blurred), 7);
    }
  }

  // ----- an enrolled face and the comparison

  /** Comparing the very photograph a student was enrolled with: it matches, with score 1,
      exactly when the engine's model name has no blanks around it (it is stored stripped
      and compared as given) and its embedding is not the zero vector. */
  lemma EnrolledFaceMatchesItself(table: ProfileTable, student: StudentId, sample: Sample, modelVersion: string,
                                  threshold: real, m: real)
    requires WellFormed(table) && SoundSample(sample) && 0.0 <= threshold <= 1.0
    requires Enroll(table, student, sample, modelVersion).Ok?
    requires Enroll(table, student, sample, modelVersion).value.status == EnrolSuccess
    requires sample.analysis.Some? && IsMagnitude(m, CapturedVector(sample.analysis.value))
    ensures var later := EnrolledTable(table, student, sample, modelVersion);
            StoredEmbeddingForComparison(later, student).Ok? && StoredEmbeddingForComparison(later, student).value.Some?
    ensures var stored := StoredEmbeddingForComparison(EnrolledTable(table, student, sample, modelVersion), student).value.value;
            var r := Compare(stored, Strip(modelVersion), sample.analysis.value, threshold, m, m);
            && (r.Ok? && r.value.status == Matched <==> Trimmed(sample.analysis.value.modelName.value) && m != 0.0)
            && (r.Ok? && r.value.status == Matched ==> r.value.similarityScore == Some(1.0))
  {
    EnrollProtects(table, student, sample, modelVersion);
    var later := EnrolledTable(table, student, sample, modelVersion);
    StoredEmbeddingReads(later, student);
    var stored := StoredEmbeddingForComparison(later, student).value.value;
    var analysis := sample.analysis.value;
    SuccessWrites(table, student, sample, modelVersion);
    StripTrimmed(analysis.modelName.value);
    CosineDefined(stored.embedding, analysis.embedding.value, m, m);
    if m != 0.0 {
      CosineValue(stored.embedding, analysis.embedding.value, m, m);
      PerfectScore(stored.embedding, analysis.embedding.value, m, m);
    }
  }

  // A successful enrolment stores the embedding, the stripped names and their dimension.
  lemma SuccessWrites(table: ProfileTable, student: StudentId, sample: Sample, modelVersion: string)
    requires WellFormed(table) && SoundSample(sample) && sample.analysis.Some?
    requires Enroll(table, student, sample, modelVersion).Ok?
    requires Enroll(table, student, sample, modelVersion).value.status == EnrolSuccess
    ensures var later := EnrolledTable(table, student, sample, modelVersion);
            && student in later
            && sample.analysis.value.status == Success
            && later[student].embedding == sample.analysis.value.embedding
            && later[student].modelName == Some(Strip(sample.analysis.value.modelName.value))
            && later[student].modelVersion == Some(Strip(modelVersion))
  {
    var analysis := sample.analysis.value;
    var base := if student in table then table else table[student := PendingProfile(sample.newId)];
    assert student !in table ==> !HasProfile(table, sample.newId);
    assert analysis.status == Success;
    WrittenById(base, student, p => GeneratedRow(p, analysis.embedding.value, analysis.modelName.value, modelVersion, sample.at));
  }
}
