/** What every schedule of the face-attempt protocol keeps. */
module FaceAttemptInvariant {
  import opened Wrappers
  import opened EmbeddingSimilarity
  import opened FaceEngine
  import opened FaceComparison
  import opened VerificationConfigs
  import opened FaceAttemptRules
  import opened FaceAttemptProtocol

  // ----- bookkeeping: transactions, the row lock and permits

  predicate TransactionOpen(phase: Phase) {
    || phase.ContextRead? || phase.LatestRead? || phase.ReferenceRead? || phase.ConfigRead?
    || phase.LockRequested? || phase.ContextLocked? || phase.LatestLocked? || phase.Written? || phase.Unwinding?
  }

  predicate InLockedSection(phase: Phase) {
    phase.ContextLocked? || phase.LatestLocked? || phase.Written?
  }

  ghost predicate BooksOf(st: State, r: RequestId, phase: Phase) {
    && (r in st.transactions <==> TransactionOpen(phase))
    && (r in st.permits <==> phase.Inferring?)
    && (InLockedSection(phase) ==> st.rowLock == Some(r))
    && (st.rowLock == Some(r) ==> InLockedSection(phase) || phase.Unwinding?)
  }

  ghost predicate Books(s: Settings, st: State) {
    && st.transactions <= st.phases.Keys
    && st.permits <= st.phases.Keys
    && (st.rowLock.Some? ==> st.rowLock.value in st.phases)
    && (forall r :: r in st.phases ==> BooksOf(st, r, st.phases[r]))
    && st.freePermits + |st.permits| + st.foreignPermits == s.capacity
  }

  // ----- configurations and comparisons

  ghost predicate GoodSubmission(st: State, submission: Submission) {
    && Consumes(submission.comparison.status)
    && submission.comparison.similarityThreshold.Some?
    && Decided(submission.comparison, submission.comparison.similarityThreshold.value)
    && HasThreshold(st.configs, submission.configId, submission.comparison.similarityThreshold.value)
  }

  ghost predicate GoodTicket(st: State, ticket: Ticket) {
    HasThreshold(st.configs, ticket.configId, ticket.threshold) && 0.0 <= ticket.threshold <= 1.0
  }

  ghost predicate Sourced(st: State, phase: Phase) {
    && (phase.ConfigRead? || phase.Queued? || phase.Inferring? ==> GoodTicket(st, phase.ticket))
    && (phase.Compared? || phase.LockRequested? || phase.ContextLocked? || phase.LatestLocked? || phase.Written? ==>
          GoodSubmission(st, phase.submission))
  }

  ghost predicate Provenance(st: State) {
    && WellFormedTable(st.configs)
    && (forall r :: r in st.phases ==> Sourced(st, st.phases[r]))
  }

  // ----- the attempt rows and the locked section

  ghost predicate RowsInOrder(s: Settings, rows: seq<AttemptRow>) {
    Contiguous(rows) && |rows| <= s.maxAttempts && OnlyLastPassed(rows)
  }

  // What a request in the locked section knows; it stays true because it holds the lock.
  ghost predicate Guarded(s: Settings, st: State, phase: Phase) {
    && (InLockedSection(phase) ==>
          ParentOpen(st.parent) && OpenFor(phase.seen, phase.submission.receivedAt))
    && (phase.LatestLocked? || phase.Written? ==> |st.rows| < s.maxAttempts && !SomePassed(st.rows))
    && (phase.LatestLocked? ==> phase.previous == |st.rows|)
    && (phase.Written? ==>
          && phase.row == RowFor(phase.submission, |st.rows| + 1)
          && phase.parentAfter == ParentAfter(st.parent, phase.submission, |st.rows| + 1, s.maxAttempts)
          && phase.result == RecordedResult(phase.submission, |st.rows| + 1, s.maxAttempts))
  }

  ghost predicate Attempts(s: Settings, st: State) {
    && RowsInOrder(s, st.rows)
    && (forall r :: r in st.phases ==> Guarded(s, st, st.phases[r]))
  }

  ghost predicate Invariant(s: Settings, st: State) {
    Books(s, st) && Provenance(st) && Attempts(s, st)
  }

  // ----- preservation

  predicate IsRequestStep(step: Step) {
    !step.Arrive? && !step.Core? && !step.SessionChanges? && !step.ReferenceChanges? && !step.ConfigChanges?
    && !step.OtherAcquires? && !step.OtherReleases?
  }

  // A step of request r leaves every other request's phase and holdings alone.
  ghost predicate OnlyTouches(st: State, next: State, r: RequestId) {
    && next.phases.Keys == st.phases.Keys + {r}
    && (forall q :: q in st.phases && q != r ==> next.phases[q] == st.phases[q])
    && (forall q :: q != r ==> (q in next.transactions <==> q in st.transactions))
    && (forall q :: q != r ==> (q in next.permits <==> q in st.permits))
    && (forall q :: q != r ==> (next.rowLock == Some(q) <==> st.rowLock == Some(q)))
    && next.freePermits + |next.permits| == st.freePermits + |st.permits|
    && next.foreignPermits == st.foreignPermits
  }

  lemma TakingCounts(permits: set<RequestId>, r: RequestId)
    ensures r !in permits ==> |permits + {r}| == |permits| + 1
    ensures r in permits ==> |permits - {r}| == |permits| - 1
  {
  }

  predicate MovesPermits(step: Step) {
    step.AcquirePermit? || step.FinishInference? || step.LoseConnection?
  }

  predicate ChangesTransaction(step: Step) {
    step.ReadContext? || step.EndSnapshot? || step.RequestLock? || step.TakeLock? || step.CommitAttempt? || step.Unwind?
  }

  lemma ReleaseTouchesOne(st: State, r: RequestId)
    requires r in st.phases
    ensures OnlyTouches(st, ReleasePermit(st, r), r)
  {
    TakingCounts(st.permits, r);
  }

  lemma MoveTouchesOne(st: State, mid: State, r: RequestId, phase: Phase)
    requires OnlyTouches(st, mid, r)
    ensures OnlyTouches(st, Move(mid, r, phase), r)
  {
  }

  lemma AcquireTouchesOne(s: Settings, st: State, step: Step, r: RequestId)
    requires Books(s, st) && r in st.phases && step.AcquirePermit?
    ensures Advance(s, st, step, r, st.phases[r]) == st || OnlyTouches(st, Advance(s, st, step, r, st.phases[r]), r)
  {
    if Advance(s, st, step, r, st.phases[r]) != st {
      assert BooksOf(st, r, st.phases[r]);
      TakingCounts(st.permits, r);
    }
  }

  lemma PermitStepsTouchOne(s: Settings, st: State, step: Step, r: RequestId)
    requires Books(s, st) && r in st.phases && MovesPermits(step)
    ensures Advance(s, st, step, r, st.phases[r]) == st || OnlyTouches(st, Advance(s, st, step, r, st.phases[r]), r)
  {
    var next := Advance(s, st, step, r, st.phases[r]);
    if step.AcquirePermit? {
      AcquireTouchesOne(s, st, step, r);
    } else if next != st {
      assert BooksOf(st, r, st.phases[r]);
      ReleaseTouchesOne(st, r);
      MoveTouchesOne(st, ReleasePermit(st, r), r, next.phases[r]);
    }
  }

  lemma BeginningTouchesOne(s: Settings, st: State, step: Step, r: RequestId)
    requires Books(s, st) && r in st.phases && (step.ReadContext? || step.EndSnapshot? || step.RequestLock?)
    ensures Advance(s, st, step, r, st.phases[r]) == st || OnlyTouches(st, Advance(s, st, step, r, st.phases[r]), r)
  {
  }

  lemma LockingTouchesOne(s: Settings, st: State, step: Step, r: RequestId)
    requires Books(s, st) && r in st.phases && (step.TakeLock? || step.CommitAttempt? || step.Unwind?)
    ensures Advance(s, st, step, r, st.phases[r]) == st || OnlyTouches(st, Advance(s, st, step, r, st.phases[r]), r)
  {
  }

  lemma TransactionStepsTouchOne(s: Settings, st: State, step: Step, r: RequestId)
    requires Books(s, st) && r in st.phases && ChangesTransaction(step)
    ensures Advance(s, st, step, r, st.phases[r]) == st || OnlyTouches(st, Advance(s, st, step, r, st.phases[r]), r)
  {
    if step.TakeLock? || step.CommitAttempt? || step.Unwind? {
      LockingTouchesOne(s, st, step, r);
    } else {
      BeginningTouchesOne(s, st, step, r);
    }
  }

  // The snapshot's reads, the steps that end inference without a permit, and the reads and
  // the write under the lock.
  predicate ReadsSnapshot(step: Step) {
    step.ReadLatest? || step.ReadReference? || step.ReadConfig?
  }

  predicate SkipsInference(step: Step) {
    step.RejectImage? || step.QueueTimeout?
  }

  predicate WorksLocked(step: Step) {
    step.ReadLatestLocked? || step.WriteAttempt?
  }

  // Nothing but the request's own phase differs.
  ghost predicate OnlyMoves(st: State, next: State, r: RequestId) {
    r in next.phases && next == Move(st, r, next.phases[r])
  }

  lemma SnapshotReadsMove(s: Settings, st: State, step: Step, r: RequestId)
    requires r in st.phases && ReadsSnapshot(step)
    ensures Advance(s, st, step, r, st.phases[r]) == st || OnlyMoves(st, Advance(s, st, step, r, st.phases[r]), r)
  {
  }

  lemma SkippingMoves(s: Settings, st: State, step: Step, r: RequestId)
    requires r in st.phases && SkipsInference(step)
    ensures Advance(s, st, step, r, st.phases[r]) == st || OnlyMoves(st, Advance(s, st, step, r, st.phases[r]), r)
  {
  }

  lemma LockedWorkMoves(s: Settings, st: State, step: Step, r: RequestId)
    requires r in st.phases && WorksLocked(step)
    ensures Advance(s, st, step, r, st.phases[r]) == st || OnlyMoves(st, Advance(s, st, step, r, st.phases[r]), r)
  {
  }

  lemma OutsideStepsDoNotAdvance(s: Settings, st: State, step: Step, r: RequestId)
    requires r in st.phases && !IsRequestStep(step)
    ensures Advance(s, st, step, r, st.phases[r]) == st
  {
  }

  lemma ReadingStepsTouchOne(s: Settings, st: State, step: Step, r: RequestId)
    requires r in st.phases && !MovesPermits(step) && !ChangesTransaction(step)
    ensures Advance(s, st, step, r, st.phases[r]) == st || OnlyTouches(st, Advance(s, st, step, r, st.phases[r]), r)
  {
    if !IsRequestStep(step) {
      OutsideStepsDoNotAdvance(s, st, step, r);
    } else if ReadsSnapshot(step) {
      SnapshotReadsMove(s, st, step, r);
    } else if SkipsInference(step) {
      SkippingMoves(s, st, step, r);
    } else {
      LockedWorkMoves(s, st, step, r);
    }
  }

  lemma RequestTouchesItself(s: Settings, st: State, step: Step, r: RequestId)
    requires Books(s, st) && r in st.phases
    ensures Advance(s, st, step, r, st.phases[r]) == st || OnlyTouches(st, Advance(s, st, step, r, st.phases[r]), r)
  {
    if MovesPermits(step) {
      PermitStepsTouchOne(s, st, step, r);
    } else if ChangesTransaction(step) {
      TransactionStepsTouchOne(s, st, step, r);
    } else {
      ReadingStepsTouchOne(s, st, step, r);
    }
  }

  lemma PermitStepsKeepBooksOf(s: Settings, st: State, step: Step, r: RequestId)
    requires r in st.phases && BooksOf(st, r, st.phases[r]) && MovesPermits(step)
    ensures var next := Advance(s, st, step, r, st.phases[r]);
            r in next.phases && BooksOf(next, r, next.phases[r])
  {
  }

  lemma TransactionStepsKeepBooksOf(s: Settings, st: State, step: Step, r: RequestId)
    requires r in st.phases && BooksOf(st, r, st.phases[r]) && ChangesTransaction(step)
    ensures var next := Advance(s, st, step, r, st.phases[r]);
            r in next.phases && BooksOf(next, r, next.phases[r])
  {
  }

  lemma ReadingStepsKeepBooksOf(s: Settings, st: State, step: Step, r: RequestId)
    requires r in st.phases && BooksOf(st, r, st.phases[r]) && !MovesPermits(step) && !ChangesTransaction(step)
    ensures var next := Advance(s, st, step, r, st.phases[r]);
            r in next.phases && BooksOf(next, r, next.phases[r])
  {
  }

  lemma RequestKeepsItsBooks(s: Settings, st: State, step: Step, r: RequestId)
    requires r in st.phases && BooksOf(st, r, st.phases[r])
    ensures var next := Advance(s, st, step, r, st.phases[r]);
            r in next.phases && BooksOf(next, r, next.phases[r])
  {
    if MovesPermits(step) {
      PermitStepsKeepBooksOf(s, st, step, r);
    } else if ChangesTransaction(step) {
      TransactionStepsKeepBooksOf(s, st, step, r);
    } else {
      ReadingStepsKeepBooksOf(s, st, step, r);
    }
  }

  lemma BooksFromTouch(s: Settings, st: State, next: State, r: RequestId)
    requires Books(s, st) && OnlyTouches(st, next, r) && BooksOf(next, r, next.phases[r])
    ensures Books(s, next)
  {
    forall q | q in next.phases ensures BooksOf(next, q, next.phases[q]) {
      if q != r {
        assert BooksOf(st, q, st.phases[q]);
      }
    }
  }

  lemma ArrivalKeepsBooks(s: Settings, st: State, step: Step)
    requires Books(s, st) && step.Arrive?
    ensures Books(s, Apply(s, st, step))
  {
    if step.r !in st.phases {
      BooksFromTouch(s, st, Apply(s, st, step), step.r);
    }
  }

  lemma OutsideStepKeepsBooks(s: Settings, st: State, step: Step)
    requires Books(s, st) && !IsRequestStep(step)
    ensures Books(s, Apply(s, st, step))
  {
    if step.Arrive? {
      ArrivalKeepsBooks(s, st, step);
    }
  }

  lemma StepKeepsBooks(s: Settings, st: State, step: Step)
    requires Books(s, st)
    ensures Books(s, Apply(s, st, step))
  {
    if !IsRequestStep(step) {
      OutsideStepKeepsBooks(s, st, step);
    } else if step.r in st.phases {
      var next := Advance(s, st, step, step.r, st.phases[step.r]);
      assert Apply(s, st, step) == next;
      RequestTouchesItself(s, st, step, step.r);
      RequestKeepsItsBooks(s, st, step, step.r);
      if next != st {
        BooksFromTouch(s, st, next, step.r);
      }
    }
  }

  // ----- provenance

  lemma ConfigsKept(st: State, next: State, phase: Phase)
    requires Sourced(st, phase)
    requires forall id, threshold ::
      HasThreshold(st.configs, id, threshold) ==> HasThreshold(next.configs, id, threshold)
    ensures Sourced(next, phase)
  {
  }

  lemma ActiveConfigKnown(table: ConfigTable)
    requires WellFormedTable(table) && GetActive(table).Some?
    ensures HasThreshold(table, GetActive(table).value.id, GetActive(table).value.similarityThreshold)
    ensures 0.0 <= GetActive(table).value.similarityThreshold <= 1.0
  {
    GetActiveSound(table);
    var i :| 0 <= i < |table| && table[i] == GetActive(table).value;
  }

  lemma JudgementSourced(s: Settings, st: State, r: RequestId, ticket: Ticket, analysis: FaceAnalysisResult,
                         mr: real, mc: real)
    requires GoodTicket(st, ticket) && analysis.Constructible()
    requires analysis.status == Success ==>
               IsMagnitude(mr, ticket.reference.embedding) && IsMagnitude(mc, CapturedVector(analysis))
    ensures var next := Judge(st, r, ticket, Compare(ticket.reference, s.modelVersion, analysis, ticket.threshold, mr, mc));
            Sourced(next, next.phases[r])
  {
    if analysis.status == Success {
      CompareDecides(ticket.reference, s.modelVersion, analysis, ticket.threshold, mr, mc);
    }
  }

  lemma InferenceStepsKeepSource(s: Settings, st: State, step: Step, r: RequestId)
    requires r in st.phases && Sourced(st, st.phases[r])
    requires step.RejectImage? || step.FinishInference?
    ensures Advance(s, st, step, r, st.phases[r]).configs == st.configs
    ensures var next := Advance(s, st, step, r, st.phases[r]);
            r in next.phases && Sourced(next, next.phases[r])
  {
    var phase := st.phases[r];
    if step.RejectImage? && phase.Queued? {
      JudgementSourced(s, st, r, phase.ticket, Failure(ProcessingFailed, 0, step.reason, None, s.modelName), 0.0, 0.0);
    } else if step.FinishInference? && phase.Inferring? && Advance(s, st, step, r, phase) != st {
      JudgementSourced(s, ReleasePermit(st, r), r, phase.ticket, step.analysis, step.referenceMagnitude, step.capturedMagnitude);
    }
  }

  lemma ReadConfigKeepsSource(s: Settings, st: State, step: Step, r: RequestId)
    requires WellFormedTable(st.configs) && r in st.phases && Sourced(st, st.phases[r]) && step.ReadConfig?
    ensures Advance(s, st, step, r, st.phases[r]).configs == st.configs
    ensures var next := Advance(s, st, step, r, st.phases[r]);
            r in next.phases && Sourced(next, next.phases[r])
  {
    if GetActive(st.configs).Some? {
      ActiveConfigKnown(st.configs);
    }
  }

  // Before the locked section: a ticket is handed on, or given up.
  lemma UnlockedStepsKeepSource(s: Settings, st: State, step: Step, r: RequestId)
    requires r in st.phases && Sourced(st, st.phases[r])
    requires step.ReadContext? || step.ReadLatest? || step.ReadReference? || step.EndSnapshot? || step.AcquirePermit?
    ensures Advance(s, st, step, r, st.phases[r]).configs == st.configs
    ensures var next := Advance(s, st, step, r, st.phases[r]);
            r in next.phases && Sourced(next, next.phases[r])
  {
  }

  lemma GivingUpKeepsSource(s: Settings, st: State, step: Step, r: RequestId)
    requires r in st.phases && Sourced(st, st.phases[r])
    requires step.QueueTimeout? || step.LoseConnection? || step.Unwind?
    ensures Advance(s, st, step, r, st.phases[r]).configs == st.configs
    ensures var next := Advance(s, st, step, r, st.phases[r]);
            r in next.phases && Sourced(next, next.phases[r])
  {
  }

  // In the locked section the submission stays the same.
  lemma LockedStepsKeepSource(s: Settings, st: State, step: Step, r: RequestId)
    requires r in st.phases && Sourced(st, st.phases[r])
    requires step.RequestLock? || step.TakeLock? || step.CommitAttempt? || WorksLocked(step)
    ensures Advance(s, st, step, r, st.phases[r]).configs == st.configs
    ensures var next := Advance(s, st, step, r, st.phases[r]);
            r in next.phases && Sourced(next, next.phases[r])
  {
  }

  lemma OtherStepsKeepSource(s: Settings, st: State, step: Step, r: RequestId)
    requires WellFormedTable(st.configs) && r in st.phases && Sourced(st, st.phases[r])
    requires !step.RejectImage? && !step.FinishInference?
    ensures Advance(s, st, step, r, st.phases[r]).configs == st.configs
    ensures var next := Advance(s, st, step, r, st.phases[r]);
            r in next.phases && Sourced(next, next.phases[r])
  {
    if !IsRequestStep(step) {
      OutsideStepsDoNotAdvance(s, st, step, r);
    } else if step.ReadConfig? {
      ReadConfigKeepsSource(s, st, step, r);
    } else if step.QueueTimeout? || step.LoseConnection? || step.Unwind? {
      GivingUpKeepsSource(s, st, step, r);
    } else if step.RequestLock? || step.TakeLock? || step.CommitAttempt? || WorksLocked(step) {
      LockedStepsKeepSource(s, st, step, r);
    } else {
      UnlockedStepsKeepSource(s, st, step, r);
    }
  }

  lemma RequestKeepsItsSource(s: Settings, st: State, step: Step, r: RequestId)
    requires Provenance(st) && r in st.phases
    ensures Advance(s, st, step, r, st.phases[r]).configs == st.configs
    ensures var next := Advance(s, st, step, r, st.phases[r]);
            r in next.phases && Sourced(next, next.phases[r])
  {
    assert Sourced(st, st.phases[r]);
    if step.RejectImage? || step.FinishInference? {
      InferenceStepsKeepSource(s, st, step, r);
    } else {
      OtherStepsKeepSource(s, st, step, r);
    }
  }

  lemma RequestStepKeepsProvenance(s: Settings, st: State, step: Step)
    requires Books(s, st) && Provenance(st) && IsRequestStep(step) && step.r in st.phases
    ensures Provenance(Apply(s, st, step)) && Apply(s, st, step).configs == st.configs
  {
    var next := Apply(s, st, step);
    assert next == Advance(s, st, step, step.r, st.phases[step.r]);
    RequestKeepsItsSource(s, st, step, step.r);
    RequestTouchesItself(s, st, step, step.r);
    forall q | q in next.phases ensures Sourced(next, next.phases[q]) {
      if q != step.r {
        ConfigsKept(st, next, st.phases[q]);
      }
    }
  }

  lemma OutsideStepKeepsProvenance(s: Settings, st: State, step: Step)
    requires Provenance(st) && !IsRequestStep(step)
    ensures Provenance(Apply(s, st, step))
    ensures forall id, threshold ::
      HasThreshold(st.configs, id, threshold) ==> HasThreshold(Apply(s, st, step).configs, id, threshold)
  {
    var next := Apply(s, st, step);
    if step.ConfigChanges? {
      ConfigChangeKept(st.configs, step.change);
    }
    forall q | q in next.phases ensures Sourced(next, next.phases[q]) {
      if q in st.phases {
        ConfigsKept(st, next, st.phases[q]);
      }
    }
  }

  lemma StepKeepsProvenance(s: Settings, st: State, step: Step)
    requires Books(s, st) && Provenance(st)
    ensures Provenance(Apply(s, st, step))
    ensures forall id, threshold ::
      HasThreshold(st.configs, id, threshold) ==> HasThreshold(Apply(s, st, step).configs, id, threshold)
  {
    if !IsRequestStep(step) {
      OutsideStepKeepsProvenance(s, st, step);
    } else if step.r in st.phases {
      RequestStepKeepsProvenance(s, st, step);
    }
  }

  lemma ConfigChangeKept(table: ConfigTable, change: ConfigStep)
    requires WellFormedTable(table)
    ensures WellFormedTable(ApplyConfigStep(table, change))
    ensures forall id, threshold ::
      HasThreshold(table, id, threshold) ==> HasThreshold(ApplyConfigStep(table, change), id, threshold)
  {
    assert RunConfigSteps(table, [change]) == ApplyConfigStep(table, change) by {
      assert [change][1..] == [];
    }
    ConfigRunsAreSafe(table, [change]);
  }

  // ----- the attempt rows

  // Only the commit of a written attempt adds a row, and it adds the one its holder wrote.
  predicate Commits(st: State, step: Step) {
    step.CommitAttempt? && step.r in st.phases && st.phases[step.r].Written?
  }

  lemma AdvanceAddsRows(s: Settings, st: State, step: Step, r: RequestId)
    requires r in st.phases && IsRequestStep(step) && step.r == r
    ensures var next := Advance(s, st, step, r, st.phases[r]);
            if Commits(st, step) then next.rows == st.rows + [st.phases[r].row] && next.parent == st.phases[r].parentAfter
            else next.rows == st.rows && next.parent == st.parent
  {
  }

  lemma OnlyCommitAddsRows(s: Settings, st: State, step: Step)
    ensures Apply(s, st, step).rows
         == if Commits(st, step) then st.rows + [st.phases[step.r].row] else st.rows
    ensures !Commits(st, step) && !step.Core? ==> Apply(s, st, step).parent == st.parent
    ensures Commits(st, step) ==> Apply(s, st, step).parent == st.phases[step.r].parentAfter
  {
    if IsRequestStep(step) && step.r in st.phases {
      AdvanceAddsRows(s, st, step, step.r);
    }
  }

  lemma LastPassed(s: Settings, rows: seq<AttemptRow>)
    requires RowsInOrder(s, rows)
    ensures SomePassed(rows) <==> Latest(rows).Some? && Latest(rows).value.validationStatus == RowPassed
    ensures PreviousNumber(Latest(rows)) == |rows|
  {
    LatestIsLast(rows);
  }

  lemma CommitKeepsOrder(s: Settings, st: State, r: RequestId)
    requires RowsInOrder(s, st.rows) && r in st.phases && st.phases[r].Written? && Guarded(s, st, st.phases[r])
    ensures RowsInOrder(s, st.rows + [st.phases[r].row])
  {
  }

  // The reads and the write under the lock establish what the next statement relies on.
  lemma LockedStepsKeepGuard(s: Settings, st: State, step: Step, r: RequestId)
    requires RowsInOrder(s, st.rows) && r in st.phases && Guarded(s, st, st.phases[r])
    requires step.TakeLock? || step.ReadLatestLocked? || step.WriteAttempt?
    ensures var next := Advance(s, st, step, r, st.phases[r]);
            r in next.phases && Guarded(s, next, next.phases[r])
  {
    LastPassed(s, st.rows);
    var phase := st.phases[r];
    if step.TakeLock? && phase.LockRequested? {
      ContextAccepted(st.parent, phase.seen, phase.submission.receivedAt);
    }
  }

  // Every other step leaves the request outside the locked section, or leaves everything as it was.
  ghost predicate LeavesUnlocked(st: State, next: State, r: RequestId) {
    r in next.phases && (next == st || !InLockedSection(next.phases[r]))
  }

  lemma EarlyStepsLeaveUnlocked(s: Settings, st: State, step: Step, r: RequestId)
    requires r in st.phases && (step.ReadContext? || ReadsSnapshot(step) || step.EndSnapshot? || step.AcquirePermit?)
    ensures LeavesUnlocked(st, Advance(s, st, step, r, st.phases[r]), r)
  {
  }

  lemma InferenceStepsLeaveUnlocked(s: Settings, st: State, step: Step, r: RequestId)
    requires r in st.phases && (SkipsInference(step) || step.FinishInference? || step.RequestLock?)
    ensures LeavesUnlocked(st, Advance(s, st, step, r, st.phases[r]), r)
  {
  }

  lemma EndingStepsLeaveUnlocked(s: Settings, st: State, step: Step, r: RequestId)
    requires r in st.phases && (step.CommitAttempt? || step.Unwind? || step.LoseConnection?)
    ensures LeavesUnlocked(st, Advance(s, st, step, r, st.phases[r]), r)
  {
  }

  lemma OtherStepsKeepGuard(s: Settings, st: State, step: Step, r: RequestId)
    requires r in st.phases && Guarded(s, st, st.phases[r])
    requires !(step.TakeLock? || step.ReadLatestLocked? || step.WriteAttempt?)
    ensures var next := Advance(s, st, step, r, st.phases[r]);
            r in next.phases && Guarded(s, next, next.phases[r])
  {
    var next := Advance(s, st, step, r, st.phases[r]);
    if !IsRequestStep(step) {
      OutsideStepsDoNotAdvance(s, st, step, r);
    } else if SkipsInference(step) || step.FinishInference? || step.RequestLock? {
      InferenceStepsLeaveUnlocked(s, st, step, r);
    } else if step.CommitAttempt? || step.Unwind? || step.LoseConnection? {
      EndingStepsLeaveUnlocked(s, st, step, r);
    } else {
      EarlyStepsLeaveUnlocked(s, st, step, r);
    }
    if next != st {
      UnlockedNeedsNoGuard(s, next, next.phases[r]);
    }
  }

  lemma RequestKeepsItsGuard(s: Settings, st: State, step: Step, r: RequestId)
    requires RowsInOrder(s, st.rows) && r in st.phases && Guarded(s, st, st.phases[r])
    ensures var next := Advance(s, st, step, r, st.phases[r]);
            r in next.phases && Guarded(s, next, next.phases[r])
  {
    if step.TakeLock? || step.ReadLatestLocked? || step.WriteAttempt? {
      LockedStepsKeepGuard(s, st, step, r);
    } else {
      OtherStepsKeepGuard(s, st, step, r);
    }
  }

  lemma GuardDependsOn(s: Settings, st: State, next: State, phase: Phase)
    requires Guarded(s, st, phase) && next.rows == st.rows && next.parent == st.parent
    ensures Guarded(s, next, phase)
  {
  }

  lemma UnlockedNeedsNoGuard(s: Settings, st: State, phase: Phase)
    requires !InLockedSection(phase)
    ensures Guarded(s, st, phase)
  {
  }

  lemma StepKeepsAttempts(s: Settings, st: State, step: Step)
    requires Books(s, st) && Attempts(s, st)
    ensures Attempts(s, Apply(s, st, step))
  {
    var next := Apply(s, st, step);
    OnlyCommitAddsRows(s, st, step);
    if Commits(st, step) {
      CommitKeepsOrder(s, st, step.r);
    }
    forall q | q in next.phases ensures Guarded(s, next, next.phases[q]) {
      GuardKept(s, st, step, q);
    }
  }

  lemma OthersGuardKept(s: Settings, st: State, step: Step, q: RequestId)
    requires Books(s, st) && q in st.phases && Guarded(s, st, st.phases[q])
    requires !(IsRequestStep(step) && step.r == q)
    ensures Guarded(s, Apply(s, st, step), st.phases[q])
  {
    if InLockedSection(st.phases[q]) {
      HolderIsProtected(s, st, step, q);
      GuardDependsOn(s, st, Apply(s, st, step), st.phases[q]);
    } else {
      UnlockedNeedsNoGuard(s, Apply(s, st, step), st.phases[q]);
    }
  }

  lemma NewPhase(s: Settings, st: State, step: Step, q: RequestId)
    requires Books(s, st) && q !in st.phases && q in Apply(s, st, step).phases
    ensures Apply(s, st, step).phases[q].Received?
  {
    if IsRequestStep(step) && step.r in st.phases {
      RequestTouchesItself(s, st, step, step.r);
    }
  }

  lemma GuardKept(s: Settings, st: State, step: Step, q: RequestId)
    requires Books(s, st) && Attempts(s, st) && q in Apply(s, st, step).phases
    ensures Guarded(s, Apply(s, st, step), Apply(s, st, step).phases[q])
  {
    if q !in st.phases {
      NewPhase(s, st, step, q);
    } else if IsRequestStep(step) && step.r == q {
      RequestKeepsItsGuard(s, st, step, q);
    } else {
      assert Guarded(s, st, st.phases[q]);
      OthersKeepPhase(s, st, step, q);
      OthersGuardKept(s, st, step, q);
    }
  }

  lemma OthersKeepPhase(s: Settings, st: State, step: Step, q: RequestId)
    requires Books(s, st) && q in st.phases && !(IsRequestStep(step) && step.r == q)
    ensures q in Apply(s, st, step).phases && Apply(s, st, step).phases[q] == st.phases[q]
  {
    if IsRequestStep(step) && step.r in st.phases {
      RequestTouchesItself(s, st, step, step.r);
    }
  }

  // While a request holds the row lock, no step of anyone else changes the parent or adds a row.
  lemma HolderIsProtected(s: Settings, st: State, step: Step, q: RequestId)
    requires Books(s, st) && q in st.phases && InLockedSection(st.phases[q]) && ParentOpen(st.parent)
    requires !(IsRequestStep(step) && step.r == q)
    ensures Apply(s, st, step).rows == st.rows && Apply(s, st, step).parent == st.parent
  {
    OnlyCommitAddsRows(s, st, step);
    assert BooksOf(st, q, st.phases[q]);
    if Commits(st, step) {
      OneHolder(s, st, q, step.r);
    }
  }

  lemma OneHolder(s: Settings, st: State, q: RequestId, r: RequestId)
    requires Books(s, st) && q in st.phases && r in st.phases
    requires InLockedSection(st.phases[q]) && InLockedSection(st.phases[r])
    ensures q == r
  {
    assert BooksOf(st, q, st.phases[q]) && BooksOf(st, r, st.phases[r]);
  }

  // ----- every schedule

  lemma InitialInvariant(s: Settings, session: SessionView)
    requires ValidSettings(s)
    ensures Invariant(s, Initial(s, session))
  {
  }

  lemma StepKeepsInvariant(s: Settings, st: State, step: Step)
    requires Invariant(s, st)
    ensures Invariant(s, Apply(s, st, step))
  {
    StepKeepsBooks(s, st, step);
    StepKeepsProvenance(s, st, step);
    StepKeepsAttempts(s, st, step);
  }

  lemma {:induction false} ScheduleInvariant(s: Settings, session: SessionView, steps: seq<Step>)
    requires ValidSettings(s)
    ensures Invariant(s, After(s, session, steps))
  {
    if steps == [] {
      InitialInvariant(s, session);
    } else {
      ScheduleInvariant(s, session, steps[..|steps| - 1]);
      StepKeepsInvariant(s, After(s, session, steps[..|steps| - 1]), steps[|steps| - 1]);
    }
  }
}
