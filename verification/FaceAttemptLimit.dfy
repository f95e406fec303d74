/** When the attempt limit can be met, before and after inference. A student's last
    failure closes the parent in the same transaction, so a request can only find the
    limit already reached if something reopened the parent, or if the parent closed
    between the request's two unlocked reads. */
module FaceAttemptLimit {
  import opened Wrappers
  import opened EmbeddingSimilarity
  import opened FaceEngine
  import opened FaceComparison
  import opened VerificationConfigs
  import opened FaceAttemptRules
  import opened FaceAttemptProtocol
  import opened FaceAttemptInvariant
  import opened FaceAttemptLinearizability

  // Core's geofence waiver reopens these reasons only (session_overrides/domain.py).
  const REOPENABLE_GEOFENCE_FAILURES: set<string> := {"OUTSIDE_GEOFENCE", "ATTEMPT_LIMIT_REACHED"}

  // All attempts are used up and none passed.
  ghost predicate UsedUp(s: Settings, st: State) {
    |st.rows| == s.maxAttempts && !SomePassed(st.rows)
  }

  ghost predicate ClosedAtLimit(st: State) {
    && st.parent.Some?
    && st.parent.value.status == Failed
    && st.parent.value.failureReason == Some(LIMIT_REASON)
  }

  ghost predicate ReachesLimit(s: Settings, st: State) {
    && PreviousNumber(Latest(st.rows)) >= s.maxAttempts
    && !(Latest(st.rows).Some? && Latest(st.rows).value.validationStatus == RowPassed)
  }

  // The next statement of r takes the limit branch after the lock, or the one before inference.
  ghost predicate LockedLimitBranch(s: Settings, st: State, r: RequestId) {
    r in st.phases && st.phases[r].ContextLocked? && ReachesLimit(s, st)
  }

  ghost predicate UnlockedLimitBranch(s: Settings, st: State, r: RequestId) {
    r in st.phases && st.phases[r].ContextRead? && ReachesLimit(s, st)
  }

  lemma ReachesLimitMeansUsedUp(s: Settings, st: State)
    requires Attempts(s, st)
    ensures ReachesLimit(s, st) <==> UsedUp(s, st)
  {
    LastPassed(s, st.rows);
  }

  lemma StepKeepsClosing(s: Settings, st: State, step: Step)
    requires LIMIT_REASON !in s.reopenable
    requires Invariant(s, st) && (UsedUp(s, st) ==> ClosedAtLimit(st))
    ensures UsedUp(s, Apply(s, st, step)) ==> ClosedAtLimit(Apply(s, st, step))
  {
    OnlyCommitsAndCoreAreVisible(s, st, step);
    OnlyCommitAddsRows(s, st, step);
    var next := Apply(s, st, step);
    if Commits(st, step) && UsedUp(s, next) {
      assert next.rows[|st.rows|] == st.phases[step.r].row;
      CommitClosesAtLimit(s, st, step.r);
    }
  }

  lemma CommitClosesAtLimit(s: Settings, st: State, r: RequestId)
    requires Invariant(s, st) && r in st.phases && st.phases[r].Written?
    requires |st.rows| + 1 == s.maxAttempts && st.phases[r].row.validationStatus == RowFailed
    ensures st.phases[r].parentAfter.Some?
    ensures st.phases[r].parentAfter.value.status == Failed
    ensures st.phases[r].parentAfter.value.failureReason == Some(LIMIT_REASON)
  {
    assert Guarded(s, st, st.phases[r]);
  }

  /** Unless Core may reopen an attempt that failed at this limit, no committed state has all
      attempts used up, none passed and the parent still in progress. */
  lemma {:induction false} UsedUpMeansClosed(s: Settings, session: SessionView, steps: seq<Step>)
    requires ValidSettings(s) && LIMIT_REASON !in s.reopenable
    ensures UsedUp(s, After(s, session, steps)) ==> ClosedAtLimit(After(s, session, steps))
  {
    if steps != [] {
      UsedUpMeansClosed(s, session, steps[..|steps| - 1]);
      ScheduleInvariant(s, session, steps[..|steps| - 1]);
      StepKeepsClosing(s, After(s, session, steps[..|steps| - 1]), steps[|steps| - 1]);
    }
  }

  // A request comes to stand after its context read by that read alone, of an open parent.
  lemma OnlyReadContextEnters(s: Settings, st: State, step: Step, r: RequestId)
    requires r in st.phases && !st.phases[r].ContextRead?
    ensures var next := Advance(s, st, step, r, st.phases[r]);
            r in next.phases && next.phases[r].ContextRead? ==> step.ReadContext? && ParentOpen(st.parent)
  {
  }

  lemma EntersContextRead(s: Settings, st: State, step: Step, r: RequestId)
    requires Books(s, st) && !(r in st.phases && st.phases[r].ContextRead?)
    requires r in Apply(s, st, step).phases && Apply(s, st, step).phases[r].ContextRead?
    ensures step == ReadContext(r) && ParentOpen(st.parent)
  {
    if r !in st.phases {
      NewPhase(s, st, step, r);
    } else if IsRequestStep(step) && step.r == r {
      OnlyReadContextEnters(s, st, step, r);
    } else {
      OthersKeepPhase(s, st, step, r);
    }
  }

  ghost predicate StandsAtContext(s: Settings, session: SessionView, steps: seq<Step>, r: RequestId) {
    r in After(s, session, steps).phases && After(s, session, steps).phases[r].ContextRead?
  }

  lemma AfterPrefix(s: Settings, session: SessionView, steps: seq<Step>, j: nat)
    requires 0 < j <= |steps|
    ensures After(s, session, steps[..j]) == Apply(s, After(s, session, steps[..j - 1]), steps[j - 1])
  {
    assert steps[..j][..j - 1] == steps[..j - 1];
  }

  // Step k is the request's context read, of an open parent.
  ghost predicate ReadsOpenParent(s: Settings, session: SessionView, steps: seq<Step>, r: RequestId, k: nat) {
    k < |steps| && steps[k] == ReadContext(r) && ParentOpen(After(s, session, steps[..k]).parent)
  }

  lemma EntersAt(s: Settings, session: SessionView, steps: seq<Step>, r: RequestId, j: nat)
    requires ValidSettings(s) && 0 < j <= |steps|
    requires StandsAtContext(s, session, steps[..j], r) && !StandsAtContext(s, session, steps[..j - 1], r)
    ensures ReadsOpenParent(s, session, steps, r, j - 1)
  {
    AfterPrefix(s, session, steps, j);
    ScheduleInvariant(s, session, steps[..j - 1]);
    EntersContextRead(s, After(s, session, steps[..j - 1]), steps[j - 1], r);
  }

  // The moment of the context read, after which the request has stood there.
  lemma {:induction false} FindsContextRead(s: Settings, session: SessionView, steps: seq<Step>, r: RequestId, j: nat)
    returns (k: nat)
    requires ValidSettings(s) && 0 < j <= |steps| && StandsAtContext(s, session, steps[..j], r)
    ensures k < j && ReadsOpenParent(s, session, steps, r, k)
    ensures forall i :: k < i <= j ==> StandsAtContext(s, session, steps[..i], r)
  {
    if j > 1 && StandsAtContext(s, session, steps[..j - 1], r) {
      k := FindsContextRead(s, session, steps, r, j - 1);
    } else {
      k := j - 1;
      EntersAt(s, session, steps, r, j);
    }
  }

  lemma SpendsLastAttempt(s: Settings, st: State, step: Step)
    requires !UsedUp(s, st) && UsedUp(s, Apply(s, st, step))
    ensures Commits(st, step)
  {
    OnlyCommitAddsRows(s, st, step);
  }

  ghost predicate UsedUpAfter(s: Settings, session: SessionView, steps: seq<Step>) {
    UsedUp(s, After(s, session, steps))
  }

  // The commit that spends the last attempt, some time after a moment when one was left.
  lemma {:induction false} FindsLastAttempt(s: Settings, session: SessionView, steps: seq<Step>, k: nat, j: nat)
    returns (m: nat)
    requires k <= j <= |steps| && !UsedUpAfter(s, session, steps[..k]) && UsedUpAfter(s, session, steps[..j])
    ensures k <= m < j && Commits(After(s, session, steps[..m]), steps[m])
    ensures !UsedUpAfter(s, session, steps[..m]) && UsedUpAfter(s, session, steps[..m + 1])
  {
    if UsedUpAfter(s, session, steps[..j - 1]) {
      m := FindsLastAttempt(s, session, steps, k, j - 1);
    } else {
      m := j - 1;
      AfterPrefix(s, session, steps, j);
      SpendsLastAttempt(s, After(s, session, steps[..m]), steps[m]);
    }
  }

  /** The branch before inference is only ever taken by a race between the request's two
      unlocked reads: it read the context while the parent was open, and before it read the
      attempts another request's commit spent the last one and closed the parent. */
  lemma UnlockedLimitIsARace(s: Settings, session: SessionView, steps: seq<Step>, r: RequestId) returns (k: nat, m: nat)
    requires ValidSettings(s) && LIMIT_REASON !in s.reopenable
    requires UnlockedLimitBranch(s, After(s, session, steps), r)
    ensures k < m < |steps|
    ensures ReadsOpenParent(s, session, steps, r, k)
    ensures Commits(After(s, session, steps[..m]), steps[m]) && steps[m].r != r
    ensures !UsedUpAfter(s, session, steps[..m]) && UsedUpAfter(s, session, steps[..m + 1])
    ensures ClosedAtLimit(After(s, session, steps[..m + 1]))
    ensures ClosedAtLimit(After(s, session, steps))
  {
    ScheduleInvariant(s, session, steps);
    ReachesLimitMeansUsedUp(s, After(s, session, steps));
    UsedUpMeansClosed(s, session, steps);
    assert steps[..|steps|] == steps;
    k := FindsContextRead(s, session, steps, r, |steps|);
    UsedUpMeansClosed(s, session, steps[..k]);
    m := FindsLastAttempt(s, session, steps, k, |steps|);
    UsedUpMeansClosed(s, session, steps[..m + 1]);
    assert StandsAtContext(s, session, steps[..m], r) || m == k;
  }

  lemma LockedLimitUnreachable(s: Settings, session: SessionView, steps: seq<Step>, r: RequestId)
    requires ValidSettings(s) && LIMIT_REASON !in s.reopenable
    ensures !LockedLimitBranch(s, After(s, session, steps), r)
  {
    var st := After(s, session, steps);
    ScheduleInvariant(s, session, steps);
    ReachesLimitMeansUsedUp(s, st);
    UsedUpMeansClosed(s, session, steps);
    if r in st.phases {
      assert Guarded(s, st, st.phases[r]);
    }
  }

  // ----- schedules that do reach the branches

  const MORNING := SessionView("active", true, false, false, None, Some(0), Some(100), None, None)
  const REFERENCE := StoredFaceEmbedding(0, [1.0], "buffalo_l", "1", 1)
  const EMPTY_ROOM := FaceAnalysisResult(NoFace, 0, None, None, Some("buffalo_l"), Some("No face was detected"))
  const MISSED := FaceComparisonResult(CapturedNoFace, None, Some(0.5), None, Some("buffalo_l"), Some("No face was detected"))
  const MISS := Submission(0, 0, 0, MISSED)

  // The lecture is open, a reference and a configuration exist, and nobody is in the middle of anything.
  ghost predicate Quiet(s: Settings, st: State, n: nat) {
    && Contiguous(st.rows) && |st.rows| == n && (forall i :: 0 <= i < n ==> st.rows[i].validationStatus == RowFailed)
    && st.rowLock == None && st.session == MORNING && st.reference == Some(REFERENCE)
    && st.configs == [VerificationConfig(0, 0.5, true)]
    && st.freePermits == s.capacity
    && (n < s.maxAttempts ==> ParentOpen(st.parent))
    && (n == s.maxAttempts ==> ClosedAtLimit(st))
  }

  lemma AfterOneMore(s: Settings, session: SessionView, steps: seq<Step>, step: Step)
    ensures After(s, session, steps + [step]) == Apply(s, After(s, session, steps), step)
  {
    assert (steps + [step])[..|steps|] == steps;
  }

  lemma EmptyRoomIsAMiss(s: Settings)
    ensures EMPTY_ROOM.Constructible()
    ensures IsMagnitude(1.0, REFERENCE.embedding) && IsMagnitude(0.0, CapturedVector(EMPTY_ROOM))
    ensures Compare(REFERENCE, s.modelVersion, EMPTY_ROOM, 0.5, 1.0, 0.0) == Ok(MISSED)
  {
    assert Dot([1.0], [1.0]) == 1.0;
  }

  lemma RowsAllFailed(rows: seq<AttemptRow>)
    requires Contiguous(rows) && forall i :: 0 <= i < |rows| ==> rows[i].validationStatus == RowFailed
    ensures PreviousNumber(Latest(rows)) == |rows|
    ensures !(Latest(rows).Some? && Latest(rows).value.validationStatus == RowPassed)
  {
    LatestIsLast(rows);
  }

  // Request r holds nothing yet.
  ghost predicate Outside(st: State, r: RequestId) {
    r !in st.transactions && r !in st.permits
  }

  // ----- one statement of a miss at a time, from a quiet state

  // Request r stands at `phase` in its snapshot transaction, or in its locked one.
  function InSnapshot(base: State, r: RequestId, phase: Phase): State {
    Move(base, r, phase).(transactions := base.transactions + {r})
  }

  function Locked(base: State, r: RequestId, phase: Phase): State {
    Move(base, r, phase).(rowLock := Some(r), transactions := base.transactions + {r})
  }

  lemma MovesOn(base: State, r: RequestId, phase: Phase, next: Phase)
    ensures Move(Move(base, r, phase), r, next) == Move(base, r, next)
    ensures Move(InSnapshot(base, r, phase), r, next) == InSnapshot(base, r, next)
    ensures Move(Locked(base, r, phase), r, next) == Locked(base, r, next)
  {
    assert base.phases[r := phase][r := next] == base.phases[r := next];
  }

  lemma ContextStep(s: Settings, base: State, n: nat, r: RequestId)
    requires Quiet(s, base, n) && n < s.maxAttempts
    ensures Apply(s, Move(base, r, Received(0)), ReadContext(r)) == InSnapshot(base, r, ContextRead(0))
  {
    ContextAccepted(base.parent, MORNING, 0);
    MovesOn(base, r, Received(0), ContextRead(0));
  }

  lemma LatestStep(s: Settings, base: State, n: nat, r: RequestId)
    requires Quiet(s, base, n) && n < s.maxAttempts
    ensures Apply(s, InSnapshot(base, r, ContextRead(0)), ReadLatest(r)) == InSnapshot(base, r, LatestRead(0, n))
  {
    RowsAllFailed(base.rows);
    MovesOn(base, r, ContextRead(0), LatestRead(0, n));
  }

  lemma ReferenceStep(s: Settings, base: State, n: nat, r: RequestId)
    requires base.reference == Some(REFERENCE)
    ensures Apply(s, InSnapshot(base, r, LatestRead(0, n)), ReadReference(r))
         == InSnapshot(base, r, ReferenceRead(0, n, REFERENCE))
  {
    MovesOn(base, r, LatestRead(0, n), ReferenceRead(0, n, REFERENCE));
  }

  lemma ConfigStepTaken(s: Settings, base: State, n: nat, r: RequestId)
    requires base.configs == [VerificationConfig(0, 0.5, true)]
    ensures Apply(s, InSnapshot(base, r, ReferenceRead(0, n, REFERENCE)), ReadConfig(r))
         == InSnapshot(base, r, ConfigRead(Ticket(0, n, REFERENCE, 0, 0.5)))
  {
    MovesOn(base, r, ReferenceRead(0, n, REFERENCE), ConfigRead(Ticket(0, n, REFERENCE, 0, 0.5)));
  }

  lemma EndStep(s: Settings, base: State, n: nat, r: RequestId)
    requires Outside(base, r)
    ensures var ticket := Ticket(0, n, REFERENCE, 0, 0.5);
            Apply(s, InSnapshot(base, r, ConfigRead(ticket)), EndSnapshot(r)) == Move(base, r, Queued(ticket))
  {
    var ticket := Ticket(0, n, REFERENCE, 0, 0.5);
    assert base.transactions + {r} - {r} == base.transactions;
    MovesOn(base, r, ConfigRead(ticket), Queued(ticket));
  }

  // A permit is taken, inference finds nobody, and the permit goes back.
  lemma InferenceSteps(s: Settings, base: State, n: nat, r: RequestId)
    requires ValidSettings(s) && Quiet(s, base, n) && Outside(base, r)
    ensures var ticket := Ticket(0, n, REFERENCE, 0, 0.5);
            Apply(s, Apply(s, Move(base, r, Queued(ticket)), AcquirePermit(r)), FinishInference(r, EMPTY_ROOM, 1.0, 0.0))
            == Move(base, r, Compared(MISS))
  {
    var ticket := Ticket(0, n, REFERENCE, 0, 0.5);
    var running := Apply(s, Move(base, r, Queued(ticket)), AcquirePermit(r));
    MovesOn(base, r, Queued(ticket), Inferring(ticket));
    assert running == Move(base, r, Inferring(ticket)).(freePermits := base.freePermits - 1, permits := base.permits + {r});
    EmptyRoomIsAMiss(s);
    assert base.permits + {r} - {r} == base.permits;
    MovesOn(base, r, Inferring(ticket), Compared(MISS));
  }

  lemma RequestStep(s: Settings, base: State, r: RequestId)
    requires base.session == MORNING
    ensures Apply(s, Move(base, r, Compared(MISS)), RequestLock(r)) == InSnapshot(base, r, LockRequested(MISS, MORNING))
  {
    MovesOn(base, r, Compared(MISS), LockRequested(MISS, MORNING));
  }

  lemma LockStep(s: Settings, base: State, r: RequestId)
    requires base.rowLock == None && ParentOpen(base.parent)
    ensures Apply(s, InSnapshot(base, r, LockRequested(MISS, MORNING)), TakeLock(r))
         == Locked(base, r, ContextLocked(MISS, MORNING))
  {
    ContextAccepted(base.parent, MORNING, 0);
    MovesOn(base, r, LockRequested(MISS, MORNING), ContextLocked(MISS, MORNING));
  }

  lemma LockedLatestStep(s: Settings, base: State, n: nat, r: RequestId)
    requires Quiet(s, base, n) && n < s.maxAttempts
    ensures Apply(s, Locked(base, r, ContextLocked(MISS, MORNING)), ReadLatestLocked(r))
         == Locked(base, r, LatestLocked(MISS, MORNING, n))
  {
    RowsAllFailed(base.rows);
    MovesOn(base, r, ContextLocked(MISS, MORNING), LatestLocked(MISS, MORNING, n));
  }

  lemma WriteStep(s: Settings, base: State, n: nat, r: RequestId)
    ensures Apply(s, Locked(base, r, LatestLocked(MISS, MORNING, n)), WriteAttempt(r)) == Locked(base, r, MissWritten(s, base, n))
  {
    MovesOn(base, r, LatestLocked(MISS, MORNING, n), MissWritten(s, base, n));
  }

  lemma CommitStep(s: Settings, base: State, n: nat, r: RequestId)
    requires Outside(base, r)
    ensures var end := Apply(s, Locked(base, r, MissWritten(s, base, n)), CommitAttempt(r));
            && end.rows == base.rows + [RowFor(MISS, n + 1)]
            && end.parent == ParentAfter(base.parent, MISS, n + 1, s.maxAttempts)
            && end.rowLock == None && end.session == base.session && end.reference == base.reference
            && end.configs == base.configs && end.freePermits == base.freePermits
            && end.transactions == base.transactions && end.permits == base.permits
            && end.phases == base.phases[r := Ended(Returned(RecordedResult(MISS, n + 1, s.maxAttempts)))]
  {
    assert base.transactions + {r} - {r} == base.transactions;
    MovesOn(base, r, MissWritten(s, base, n), Ended(Returned(RecordedResult(MISS, n + 1, s.maxAttempts))));
  }

  // ----- the statements as a schedule

  // Arrival and the unlocked context read.
  lemma Enters(s: Settings, steps: seq<Step>, n: nat, r: RequestId) returns (longer: seq<Step>)
    requires Quiet(s, After(s, MORNING, steps), n) && n < s.maxAttempts && r !in After(s, MORNING, steps).phases
    ensures After(s, MORNING, longer) == InSnapshot(After(s, MORNING, steps), r, ContextRead(0))
  {
    longer := steps + [Arrive(r, 0)];
    AfterOneMore(s, MORNING, steps, Arrive(r, 0));
    AfterOneMore(s, MORNING, longer, ReadContext(r));
    longer := longer + [ReadContext(r)];
    ContextStep(s, After(s, MORNING, steps), n, r);
  }

  // The rest of the snapshot.
  lemma TakesSnapshot(s: Settings, steps: seq<Step>, base: State, n: nat, r: RequestId) returns (longer: seq<Step>)
    requires Quiet(s, base, n) && n < s.maxAttempts && Outside(base, r)
    requires After(s, MORNING, steps) == InSnapshot(base, r, ContextRead(0))
    ensures After(s, MORNING, longer) == Move(base, r, Queued(Ticket(0, n, REFERENCE, 0, 0.5)))
  {
    longer := ReadsAttempts(s, steps, base, n, r);
    AfterOneMore(s, MORNING, longer, ReadConfig(r));
    longer := longer + [ReadConfig(r)];
    ConfigStepTaken(s, base, n, r);
    AfterOneMore(s, MORNING, longer, EndSnapshot(r));
    longer := longer + [EndSnapshot(r)];
    EndStep(s, base, n, r);
  }

  lemma ReadsAttempts(s: Settings, steps: seq<Step>, base: State, n: nat, r: RequestId) returns (longer: seq<Step>)
    requires Quiet(s, base, n) && n < s.maxAttempts
    requires After(s, MORNING, steps) == InSnapshot(base, r, ContextRead(0))
    ensures After(s, MORNING, longer) == InSnapshot(base, r, ReferenceRead(0, n, REFERENCE))
  {
    AfterOneMore(s, MORNING, steps, ReadLatest(r));
    longer := steps + [ReadLatest(r)];
    LatestStep(s, base, n, r);
    AfterOneMore(s, MORNING, longer, ReadReference(r));
    longer := longer + [ReadReference(r)];
    ReferenceStep(s, base, n, r);
  }

  lemma Infers(s: Settings, steps: seq<Step>, base: State, n: nat, r: RequestId) returns (longer: seq<Step>)
    requires ValidSettings(s) && Quiet(s, base, n) && Outside(base, r)
    requires After(s, MORNING, steps) == Move(base, r, Queued(Ticket(0, n, REFERENCE, 0, 0.5)))
    ensures After(s, MORNING, longer) == Move(base, r, Compared(MISS))
  {
    AfterOneMore(s, MORNING, steps, AcquirePermit(r));
    longer := steps + [AcquirePermit(r)];
    AfterOneMore(s, MORNING, longer, FinishInference(r, EMPTY_ROOM, 1.0, 0.0));
    longer := longer + [FinishInference(r, EMPTY_ROOM, 1.0, 0.0)];
    InferenceSteps(s, base, n, r);
  }

  // The locked section up to the read of the latest attempt.
  lemma Locks(s: Settings, steps: seq<Step>, base: State, n: nat, r: RequestId) returns (longer: seq<Step>)
    requires base.rowLock == None && base.session == MORNING && ParentOpen(base.parent)
    requires After(s, MORNING, steps) == Move(base, r, Compared(MISS))
    ensures After(s, MORNING, longer) == Locked(base, r, ContextLocked(MISS, MORNING))
  {
    AfterOneMore(s, MORNING, steps, RequestLock(r));
    longer := steps + [RequestLock(r)];
    RequestStep(s, base, r);
    AfterOneMore(s, MORNING, longer, TakeLock(r));
    longer := longer + [TakeLock(r)];
    LockStep(s, base, r);
  }

  function MissWritten(s: Settings, base: State, n: nat): Phase {
    Written(MISS, MORNING, RowFor(MISS, n + 1), ParentAfter(base.parent, MISS, n + 1, s.maxAttempts),
            RecordedResult(MISS, n + 1, s.maxAttempts))
  }

  lemma Writes(s: Settings, steps: seq<Step>, base: State, n: nat, r: RequestId) returns (longer: seq<Step>)
    requires Quiet(s, base, n) && n < s.maxAttempts
    requires After(s, MORNING, steps) == Locked(base, r, ContextLocked(MISS, MORNING))
    ensures After(s, MORNING, longer) == Locked(base, r, MissWritten(s, base, n))
  {
    AfterOneMore(s, MORNING, steps, ReadLatestLocked(r));
    longer := steps + [ReadLatestLocked(r)];
    LockedLatestStep(s, base, n, r);
    AfterOneMore(s, MORNING, longer, WriteAttempt(r));
    longer := longer + [WriteAttempt(r)];
    WriteStep(s, base, n, r);
  }

  // The miss is written and committed.
  lemma Records(s: Settings, steps: seq<Step>, base: State, n: nat, r: RequestId) returns (longer: seq<Step>)
    requires ValidSettings(s) && Quiet(s, base, n) && n < s.maxAttempts && Outside(base, r)
    requires After(s, MORNING, steps) == Locked(base, r, ContextLocked(MISS, MORNING))
    ensures var end := After(s, MORNING, longer);
            && Quiet(s, end, n + 1) && end.transactions == base.transactions && end.permits == base.permits
            && end.phases == base.phases[r := Ended(Returned(RecordedResult(MISS, n + 1, s.maxAttempts)))]
  {
    longer := Writes(s, steps, base, n, r);
    AfterOneMore(s, MORNING, longer, CommitAttempt(r));
    longer := longer + [CommitAttempt(r)];
    CommitStep(s, base, n, r);
    CommitStaysQuiet(s, base, n, After(s, MORNING, longer));
  }

  lemma CommitStaysQuiet(s: Settings, base: State, n: nat, end: State)
    requires Quiet(s, base, n) && n < s.maxAttempts
    requires end.rows == base.rows + [RowFor(MISS, n + 1)]
    requires end.parent == ParentAfter(base.parent, MISS, n + 1, s.maxAttempts)
    requires end.rowLock == None && end.session == base.session && end.reference == base.reference
    requires end.configs == base.configs && end.freePermits == base.freePermits
    ensures Quiet(s, end, n + 1)
  {
  }

  lemma OneMiss(s: Settings, steps: seq<Step>, n: nat, r: RequestId) returns (longer: seq<Step>)
    requires ValidSettings(s) && Quiet(s, After(s, MORNING, steps), n) && n < s.maxAttempts
    requires r !in After(s, MORNING, steps).phases && Outside(After(s, MORNING, steps), r)
    ensures var before := After(s, MORNING, steps);
            var end := After(s, MORNING, longer);
            && Quiet(s, end, n + 1) && end.transactions == before.transactions && end.permits == before.permits
            && end.phases.Keys == before.phases.Keys + {r}
            && (forall q :: q in before.phases ==> end.phases[q] == before.phases[q])
  {
    var base := After(s, MORNING, steps);
    longer := PastInference(s, steps, n, r);
    longer := Locks(s, longer, base, n, r);
    longer := Records(s, longer, base, n, r);
  }

  lemma OneConfigActive()
    ensures ActivateConfig(CreateConfig([], 0, 0.5), 0) == [VerificationConfig(0, 0.5, true)]
  {
    var created := [VerificationConfig(0, 0.5, false)];
    assert CreateConfig([], 0, 0.5) == created;
    assert HasConfig(created, 0) by {
      assert created[0].id == 0;
    }
    ActivatedRows(created, 0);
  }

  lemma Configured(s: Settings, st: State)
    requires st.configs == []
    ensures Apply(s, Apply(s, st, ConfigChanges(Create(0, 0.5))), ConfigChanges(Activate(0)))
         == st.(configs := [VerificationConfig(0, 0.5, true)])
  {
    OneConfigActive();
  }

  lemma Prepared(s: Settings) returns (steps: seq<Step>)
    requires ValidSettings(s)
    ensures Quiet(s, After(s, MORNING, steps), 0) && After(s, MORNING, steps).phases == map[]
  {
    steps := [Core(Starts)];
    AfterOneMore(s, MORNING, [], Core(Starts));
    assert [] + [Core(Starts)] == steps;
    AfterOneMore(s, MORNING, steps, ReferenceChanges(Some(REFERENCE)));
    steps := steps + [ReferenceChanges(Some(REFERENCE))];
    Configured(s, After(s, MORNING, steps));
    AfterOneMore(s, MORNING, steps, ConfigChanges(Create(0, 0.5)));
    steps := steps + [ConfigChanges(Create(0, 0.5))];
    AfterOneMore(s, MORNING, steps, ConfigChanges(Activate(0)));
    steps := steps + [ConfigChanges(Activate(0))];
  }

  // Requests from n on have not arrived.
  ghost predicate OnlyBelow(st: State, n: nat) {
    forall q :: q in st.phases ==> q < n
  }

  lemma Newcomer(s: Settings, steps: seq<Step>, r: RequestId)
    requires ValidSettings(s) && r !in After(s, MORNING, steps).phases
    ensures Outside(After(s, MORNING, steps), r)
  {
    ScheduleInvariant(s, MORNING, steps);
  }

  // n misses in a row by requests 0 .. n-1.
  lemma {:induction false} Misses(s: Settings, n: nat) returns (steps: seq<Step>)
    requires ValidSettings(s) && n <= s.maxAttempts
    ensures Quiet(s, After(s, MORNING, steps), n) && OnlyBelow(After(s, MORNING, steps), n)
  {
    if n == 0 {
      steps := Prepared(s);
    } else {
      steps := Misses(s, n - 1);
      Newcomer(s, steps, n - 1);
      steps := OneMiss(s, steps, n - 1, n - 1);
    }
  }

  /** Whatever the limit, a race does reach the branch before inference: one request reads the
      context while the parent is in progress, another spends the last attempt, and the first
      then reads the attempts. */
  lemma UnlockedLimitReachable(s: Settings) returns (steps: seq<Step>, r: RequestId)
    requires ValidSettings(s)
    ensures UnlockedLimitBranch(s, After(s, MORNING, steps), r)
  {
    var last := s.maxAttempts - 1;
    r := last + 1;
    steps := Misses(s, last);
    steps := Enters(s, steps, last, r);
    Newcomer(s, steps, last);
    steps := OneMiss(s, steps, last, last);
    RowsAllFailed(After(s, MORNING, steps).rows);
  }

  lemma PastInference(s: Settings, steps: seq<Step>, n: nat, r: RequestId) returns (longer: seq<Step>)
    requires ValidSettings(s) && Quiet(s, After(s, MORNING, steps), n) && n < s.maxAttempts
    requires r !in After(s, MORNING, steps).phases && Outside(After(s, MORNING, steps), r)
    ensures After(s, MORNING, longer) == Move(After(s, MORNING, steps), r, Compared(MISS))
  {
    var base := After(s, MORNING, steps);
    longer := Enters(s, steps, n, r);
    longer := TakesSnapshot(s, longer, base, n, r);
    longer := Infers(s, longer, base, n, r);
  }

  // Request maxAttempts is past inference when request maxAttempts - 1 spends the last attempt.
  lemma Overtaken(s: Settings) returns (steps: seq<Step>)
    requires ValidSettings(s)
    ensures var st := After(s, MORNING, steps);
            && Quiet(s, st, s.maxAttempts) && Outside(st, s.maxAttempts)
            && s.maxAttempts in st.phases && st.phases[s.maxAttempts] == Compared(MISS)
  {
    var last := s.maxAttempts - 1;
    steps := Misses(s, last);
    Newcomer(s, steps, last + 1);
    steps := PastInference(s, steps, last, last + 1);
    Newcomer(s, steps, last);
    steps := OneMiss(s, steps, last, last);
  }

  // Then Core reopens the parent and the overtaken request takes the lock.
  lemma LockedLimitReachable(s: Settings) returns (steps: seq<Step>, r: RequestId)
    requires ValidSettings(s) && LIMIT_REASON in s.reopenable
    ensures LockedLimitBranch(s, After(s, MORNING, steps), r)
  {
    r := s.maxAttempts;
    steps := Overtaken(s);
    RowsAllFailed(After(s, MORNING, steps).rows);
    AfterOneMore(s, MORNING, steps, Core(Reopens));
    steps := steps + [Core(Reopens)];
    var reopened := After(s, MORNING, steps);
    assert reopened.phases[r := Compared(MISS)] == reopened.phases;
    steps := Locks(s, steps, reopened, s.maxAttempts, r);
  }

  ghost predicate MeetsLockedLimit(s: Settings, session: SessionView, steps: seq<Step>, r: RequestId) {
    LockedLimitBranch(s, After(s, session, steps), r)
  }

  /** The exact condition: the branch after the lock can be reached by some schedule if and
      only if an attempt that failed at this limit is one Core may reopen. */
  lemma LockedLimitReachableIff(s: Settings)
    requires ValidSettings(s)
    ensures (exists session: SessionView, steps: seq<Step>, r: RequestId :: MeetsLockedLimit(s, session, steps, r))
       <==> LIMIT_REASON in s.reopenable
  {
    if LIMIT_REASON in s.reopenable {
      var steps, r := LockedLimitReachable(s);
      assert MeetsLockedLimit(s, MORNING, steps, r);
    } else {
      forall session: SessionView, steps: seq<Step>, r: RequestId
        ensures !MeetsLockedLimit(s, session, steps, r)
      {
        LockedLimitUnreachable(s, session, steps, r);
      }
    }
  }

  /** With the reasons Core reopens today the branch after the lock is dead code. */
  lemma LockedLimitDeadToday(s: Settings, session: SessionView, steps: seq<Step>, r: RequestId)
    requires ValidSettings(s) && s.reopenable == REOPENABLE_GEOFENCE_FAILURES
    ensures !LockedLimitBranch(s, After(s, session, steps), r)
  {
    assert |LIMIT_REASON| == 26 && |"OUTSIDE_GEOFENCE"| == 16 && |"ATTEMPT_LIMIT_REACHED"| == 21;
    LockedLimitUnreachable(s, session, steps, r);
  }
}
