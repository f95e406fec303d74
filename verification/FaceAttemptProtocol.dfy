/** The face-attempt protocol as a transition system: any number of `verify` calls for
    one student and one session, interleaved statement by statement with Core, an
    administrator, the session's life and other users of the inference engine.

    The database runs READ COMMITTED: every statement sees what is committed when it
    starts, and a transaction's writes appear together at its commit. FOR UPDATE locks
    the parent row only: a waiting statement re-reads that row once it has the lock but
    keeps the other tables as they were when the statement started.

    A step that is not enabled leaves the state unchanged, so every sequence of steps
    is a schedule and `After` gives the states that schedules reach. */
module FaceAttemptProtocol {
  import opened Wrappers
  import opened EmbeddingSimilarity
  import opened FaceEngine
  import opened FaceComparison
  import opened VerificationConfigs
  import opened FaceAttemptRules

  type RequestId = nat

  // `reopenable` holds the failure reasons Core's geofence waiver puts back in progress.
  datatype Settings = Settings(maxAttempts: int, capacity: nat, modelName: string, modelVersion: string,
                               reopenable: set<string>)

  // What a request carries from its snapshot through inference.
  datatype Ticket = Ticket(receivedAt: Instant, previous: int, reference: StoredFaceEmbedding,
                           configId: ConfigId, threshold: real)

  datatype Outcome = Returned(result: VerificationResult) | Raised(error: VerifyError)

  // Where a request stands: each phase names the statement it has just completed.
  datatype Phase =
    | Received(at: Instant)
    | ContextRead(at: Instant)
    | LatestRead(at: Instant, previous: int)
    | ReferenceRead(at: Instant, previous: int, reference: StoredFaceEmbedding)
    | ConfigRead(ticket: Ticket)
    | Queued(ticket: Ticket)
    | Inferring(ticket: Ticket)
    | Compared(submission: Submission)
    | LockRequested(submission: Submission, seen: SessionView)
    | ContextLocked(submission: Submission, seen: SessionView)
    | LatestLocked(submission: Submission, seen: SessionView, previous: int)
    | Written(submission: Submission, seen: SessionView, row: AttemptRow, parentAfter: Option<ParentAttempt>,
              result: VerificationResult)
    | Unwinding(outcome: Outcome)   // decided, but its transaction is still open
    | Ended(outcome: Outcome)

  datatype CoreAction = Starts | ChecksIn(at: Instant) | Fails(reason: string, at: Instant) | Reopens

  // What reached the parent row and its attempts, in commit order; it only serves to state theorems.
  datatype Event = CoreActed(action: CoreAction)
                 | Attempted(request: RequestId, submission: Submission, seen: SessionView)

  datatype State = State(
    rows: seq<AttemptRow>,
    parent: Option<ParentAttempt>,
    rowLock: Option<RequestId>,
    session: SessionView,
    reference: Option<StoredFaceEmbedding>,
    configs: ConfigTable,
    freePermits: nat,
    permits: set<RequestId>,
    foreignPermits: nat,
    transactions: set<RequestId>,
    phases: map<RequestId, Phase>,
    history: seq<Event>)

  datatype Step =
    | Arrive(r: RequestId, at: Instant)
    | ReadContext(r: RequestId)
    | ReadLatest(r: RequestId)
    | ReadReference(r: RequestId)
    | ReadConfig(r: RequestId)
    | EndSnapshot(r: RequestId)
    | RejectImage(r: RequestId, reason: string)
    | AcquirePermit(r: RequestId)
    | QueueTimeout(r: RequestId)
    | FinishInference(r: RequestId, analysis: FaceAnalysisResult, referenceMagnitude: real, capturedMagnitude: real)
    | RequestLock(r: RequestId)
    | TakeLock(r: RequestId)
    | ReadLatestLocked(r: RequestId)
    | WriteAttempt(r: RequestId)
    | CommitAttempt(r: RequestId)
    | Unwind(r: RequestId)
    | LoseConnection(r: RequestId)
    | Core(action: CoreAction)
    | SessionChanges(session: SessionView)
    | ReferenceChanges(reference: Option<StoredFaceEmbedding>)
    | ConfigChanges(change: ConfigStep)
    | OtherAcquires
    | OtherReleases

  function Initial(s: Settings, session: SessionView): State {
    State([], None, None, session, None, [], s.capacity, {}, 0, {}, map[], [])
  }

  // ----- the statements of one request

  function Move(st: State, r: RequestId, phase: Phase): State {
    st.(phases := st.phases[r := phase])
  }

  // The answer or the exception is known; what is still held goes back in `Unwind`.
  function Decide(st: State, r: RequestId, outcome: Outcome): State {
    Move(st, r, if r in st.transactions then Unwinding(outcome) else Ended(outcome))
  }

  function DoReadContext(st: State, r: RequestId, at: Instant): State {
    var begun := st.(transactions := st.transactions + {r});
    var error := ValidateContext(st.parent, st.session, at);
    if error.Some? then Decide(begun, r, Raised(error.value)) else Move(begun, r, ContextRead(at))
  }

  function DoReadLatest(s: Settings, st: State, r: RequestId, at: Instant): State {
    var latest := Latest(st.rows);
    if latest.Some? && latest.value.validationStatus == RowPassed then Decide(st, r, Raised(AlreadyPassed))
    else if PreviousNumber(latest) >= s.maxAttempts then Decide(st, r, Returned(LimitResult(PreviousNumber(latest))))
    else Move(st, r, LatestRead(at, PreviousNumber(latest)))
  }

  function DoReadReference(st: State, r: RequestId, at: Instant, previous: int): State {
    if st.reference.None? then Decide(st, r, Raised(NoReferenceProfile))
    else Move(st, r, ReferenceRead(at, previous, st.reference.value))
  }

  function DoReadConfig(st: State, r: RequestId, at: Instant, previous: int, reference: StoredFaceEmbedding): State {
    var config := GetActive(st.configs);
    if config.None? then Decide(st, r, Raised(NoActiveConfig))
    else Move(st, r, ConfigRead(Ticket(at, previous, reference, config.value.id, config.value.similarityThreshold)))
  }

  function DoEndSnapshot(st: State, r: RequestId, ticket: Ticket): State {
    Move(st.(transactions := st.transactions - {r}), r, Queued(ticket))
  }

  // What `verify` does with the comparison, before it opens its second transaction.
  function Judge(st: State, r: RequestId, ticket: Ticket, compared: Result<FaceComparisonResult, ComparisonError>): State {
    match compared
    case Err(_) => Decide(st, r, Raised(ComparisonRaised))
    case Ok(comparison) =>
      if !Consumes(comparison.status) then Decide(st, r, Returned(UnconsumedResult(comparison, ticket.previous)))
      else Move(st, r, Compared(Submission(ticket.receivedAt, ticket.reference.profileId, ticket.configId, comparison)))
  }

  function DoRejectImage(s: Settings, st: State, r: RequestId, ticket: Ticket, reason: string): State {
    var analysis := Failure(ProcessingFailed, 0, reason, None, s.modelName);
    Judge(st, r, ticket, Compare(ticket.reference, s.modelVersion, analysis, ticket.threshold, 0.0, 0.0))
  }

  function DoAcquirePermit(st: State, r: RequestId, ticket: Ticket): State
    requires st.freePermits > 0
  {
    Move(st.(freePermits := st.freePermits - 1, permits := st.permits + {r}), r, Inferring(ticket))
  }

  function ReleasePermit(st: State, r: RequestId): State {
    if r in st.permits then st.(freePermits := st.freePermits + 1, permits := st.permits - {r}) else st
  }

  function DoFinishInference(s: Settings, st: State, r: RequestId, ticket: Ticket, analysis: FaceAnalysisResult,
                             mr: real, mc: real): State {
    Judge(ReleasePermit(st, r), r, ticket, Compare(ticket.reference, s.modelVersion, analysis, ticket.threshold, mr, mc))
  }

  function DoRequestLock(st: State, r: RequestId, submission: Submission): State {
    Move(st.(transactions := st.transactions + {r}), r, LockRequested(submission, st.session))
  }

  function DoTakeLock(st: State, r: RequestId, submission: Submission, seen: SessionView): State {
    var locked := if st.parent.Some? then st.(rowLock := Some(r)) else st;
    var error := ValidateContext(st.parent, seen, submission.receivedAt);
    if error.Some? then Decide(locked, r, Raised(error.value)) else Move(locked, r, ContextLocked(submission, seen))
  }

  function DoReadLatestLocked(s: Settings, st: State, r: RequestId, submission: Submission, seen: SessionView): State {
    var latest := Latest(st.rows);
    if latest.Some? && latest.value.validationStatus == RowPassed then Decide(st, r, Raised(AlreadyPassed))
    else if PreviousNumber(latest) >= s.maxAttempts then Decide(st, r, Returned(LimitResult(PreviousNumber(latest))))
    else Move(st, r, LatestLocked(submission, seen, PreviousNumber(latest)))
  }

  function DoWriteAttempt(s: Settings, st: State, r: RequestId, submission: Submission, seen: SessionView,
                          previous: int): State {
    var number := previous + 1;
    Move(st, r, Written(submission, seen, RowFor(submission, number),
                        ParentAfter(st.parent, submission, number, s.maxAttempts),
                        RecordedResult(submission, number, s.maxAttempts)))
  }

  // What ends a transaction: its row lock goes with it.
  function CloseTransaction(st: State, r: RequestId): State {
    st.(transactions := st.transactions - {r}, rowLock := if st.rowLock == Some(r) then None else st.rowLock)
  }

  function DoCommitAttempt(st: State, r: RequestId, phase: Phase): State
    requires phase.Written?
  {
    var committed := st.(rows := st.rows + [phase.row], parent := phase.parentAfter,
                         history := st.history + [Attempted(r, phase.submission, phase.seen)]);
    Move(CloseTransaction(committed, r), r, Ended(Returned(phase.result)))
  }

  function DoUnwind(st: State, r: RequestId, outcome: Outcome): State {
    Move(CloseTransaction(st, r), r, Ended(outcome))
  }

  function DoLoseConnection(st: State, r: RequestId): State {
    Decide(ReleasePermit(st, r), r, Raised(ConnectionLost))
  }

  // ----- Core's writes to the parent row

  function CoreEffect(parent: Option<ParentAttempt>, action: CoreAction, reopenable: set<string>): Option<ParentAttempt> {
    match action
    case Starts => if parent.None? then Some(ParentAttempt(InProgress, None, None)) else parent
    case ChecksIn(at) =>
      if parent.Some? && parent.value.status == InProgress
      then Some(ParentAttempt(CheckedIn, parent.value.failureReason, Some(at))) else parent
    case Fails(reason, at) =>
      if parent.Some? && parent.value.status == InProgress
      then Some(ParentAttempt(Failed, Some(reason), Some(at))) else parent
    case Reopens =>
      if parent.Some? && parent.value.status == Failed
         && parent.value.failureReason.Some? && parent.value.failureReason.value in reopenable
      then Some(ParentAttempt(InProgress, None, None)) else parent
  }

  // A row lock keeps every other writer and locker of the parent row waiting; an absent row has none.
  predicate LockFree(st: State) {
    st.rowLock.None? || st.parent.None?
  }

  // ----- one step and a whole schedule

  function Apply(s: Settings, st: State, step: Step): State {
    match step
    case Arrive(r, at) => if r in st.phases then st else Move(st, r, Received(at))
    case Core(action) =>
      if LockFree(st) then st.(parent := CoreEffect(st.parent, action, s.reopenable),
                               history := st.history + [CoreActed(action)])
      else st
    case SessionChanges(session) => st.(session := session)
    case ReferenceChanges(reference) => st.(reference := reference)
    case ConfigChanges(change) => st.(configs := ApplyConfigStep(st.configs, change))
    case OtherAcquires =>
      if st.freePermits > 0 then st.(freePermits := st.freePermits - 1, foreignPermits := st.foreignPermits + 1) else st
    case OtherReleases =>
      if st.foreignPermits > 0 then st.(freePermits := st.freePermits + 1, foreignPermits := st.foreignPermits - 1) else st
    case _ => if step.r in st.phases then Advance(s, st, step, step.r, st.phases[step.r]) else st
  }

  // The step of a request that has arrived and stands at `phase`.
  function Advance(s: Settings, st: State, step: Step, r: RequestId, phase: Phase): State {
    match step
    case ReadContext(_) => if phase.Received? then DoReadContext(st, r, phase.at) else st
    case ReadLatest(_) => if phase.ContextRead? then DoReadLatest(s, st, r, phase.at) else st
    case ReadReference(_) => if phase.LatestRead? then DoReadReference(st, r, phase.at, phase.previous) else st
    case ReadConfig(_) =>
      if phase.ReferenceRead? then DoReadConfig(st, r, phase.at, phase.previous, phase.reference) else st
    case EndSnapshot(_) => if phase.ConfigRead? then DoEndSnapshot(st, r, phase.ticket) else st
    case RejectImage(_, reason) => if phase.Queued? then DoRejectImage(s, st, r, phase.ticket, reason) else st
    case AcquirePermit(_) =>
      if phase.Queued? && st.freePermits > 0 then DoAcquirePermit(st, r, phase.ticket) else st
    case QueueTimeout(_) => if phase.Queued? then Decide(st, r, Raised(InferenceBusy)) else st
    case FinishInference(_, analysis, mr, mc) =>
      if phase.Inferring? && analysis.Constructible()
         && IsMagnitude(mr, phase.ticket.reference.embedding) && IsMagnitude(mc, CapturedVector(analysis))
      then DoFinishInference(s, st, r, phase.ticket, analysis, mr, mc) else st
    case RequestLock(_) => if phase.Compared? then DoRequestLock(st, r, phase.submission) else st
    case TakeLock(_) =>
      if phase.LockRequested? && LockFree(st) then DoTakeLock(st, r, phase.submission, phase.seen) else st
    case ReadLatestLocked(_) =>
      if phase.ContextLocked? then DoReadLatestLocked(s, st, r, phase.submission, phase.seen) else st
    case WriteAttempt(_) =>
      if phase.LatestLocked? then DoWriteAttempt(s, st, r, phase.submission, phase.seen, phase.previous) else st
    case CommitAttempt(_) => if phase.Written? then DoCommitAttempt(st, r, phase) else st
    case Unwind(_) => if phase.Unwinding? then DoUnwind(st, r, phase.outcome) else st
    case LoseConnection(_) => if phase.Ended? || phase.Unwinding? then st else DoLoseConnection(st, r)
    case _ => st
  }

  function After(s: Settings, session: SessionView, steps: seq<Step>): State {
    if steps == [] then Initial(s, session)
    else Apply(s, After(s, session, steps[..|steps| - 1]), steps[|steps| - 1])
  }

  // A schedule run from any state.
  function Run(s: Settings, st: State, steps: seq<Step>): State
    decreases |steps|
  {
    if steps == [] then st else Run(s, Apply(s, st, steps[0]), steps[1..])
  }

  // Settings the service and the engine accept when they are constructed.
  predicate ValidSettings(s: Settings) {
    s.maxAttempts >= 1 && s.capacity >= 1
  }
}
