/** What the protocol guarantees over every schedule: numbering, sound rows, the
    attempt limit, and the discipline of transactions, the row lock and permits. */
module FaceAttemptSafety {
  import opened Wrappers
  import opened VerificationConfigs
  import opened FaceAttemptRules
  import opened FaceAttemptProtocol
  import opened FaceAttemptInvariant
  import opened FaceAttemptLinearizability

  // ----- numbering

  function Numbers(rows: seq<AttemptRow>): (numbers: seq<int>)
    ensures |numbers| == |rows|
    ensures forall i :: 0 <= i < |rows| ==> numbers[i] == rows[i].attemptNumber
  {
    seq(|rows|, i requires 0 <= i < |rows| => rows[i].attemptNumber)
  }

  // The burst script's check that the numbers read back are 1, 2, 3 and so on.
  predicate AttemptNumbersAreContiguous(numbers: seq<int>) {
    numbers == seq(|numbers|, i requires 0 <= i < |numbers| => i + 1)
  }

  /** However the requests race, the committed attempt numbers are exactly 1..n in commit
      order, n never exceeds the limit, and a passed attempt is the last one. */
  lemma AttemptNumbersNeverRace(s: Settings, session: SessionView, steps: seq<Step>)
    requires ValidSettings(s)
    ensures var rows := After(s, session, steps).rows;
            && AttemptNumbersAreContiguous(Numbers(rows))
            && |rows| <= s.maxAttempts
            && (forall i :: 0 <= i < |rows| && rows[i].validationStatus == RowPassed ==> i == |rows| - 1)
  {
    ScheduleInvariant(s, session, steps);
  }

  /** Committed rows are never changed, and every step that adds one uses up exactly one of
      the remaining attempts; a step taken after a pass or at the limit adds none. */
  lemma RemainingAttemptsShrink(s: Settings, session: SessionView, steps: seq<Step>, step: Step)
    requires ValidSettings(s)
    ensures var before := After(s, session, steps).rows;
            var after := Apply(s, After(s, session, steps), step).rows;
            && before <= after
            && (after != before ==>
                  && s.maxAttempts - |after| == s.maxAttempts - |before| - 1
                  && s.maxAttempts - |after| >= 0
                  && !SomePassed(before) && |before| < s.maxAttempts)
  {
    ScheduleInvariant(s, session, steps);
    var st := After(s, session, steps);
    OnlyCommitAddsRows(s, st, step);
    if Commits(st, step) {
      assert Guarded(s, st, st.phases[step.r]);
    }
  }

  // ----- the recorded rows

  // The row satisfies the table's checks and its verdict agrees with the configuration it names.
  ghost predicate Backed(st: State, row: AttemptRow) {
    && TableChecks(row)
    && HasConfig(st.configs, row.configId)
    && (row.similarityScore.None? ==> row.validationStatus == RowFailed)
    && (row.similarityScore.Some? ==>
          forall threshold :: HasThreshold(st.configs, row.configId, threshold) ==>
            (row.validationStatus == RowPassed <==> row.similarityScore.value >= threshold))
  }

  // Some request saw the session open at the row's capture time and submitted exactly this row.
  ghost predicate Witnessed(st: State, row: AttemptRow) {
    exists j :: 0 <= j < |st.history| && Witnesses(st.history[j], row)
  }

  ghost predicate Witnesses(event: Event, row: AttemptRow) {
    && event.Attempted?
    && row == RowFor(event.submission, row.attemptNumber)
    && OpenFor(event.seen, row.capturedAt)
  }

  ghost predicate RowsSound(st: State) {
    forall i :: 0 <= i < |st.rows| ==> Backed(st, st.rows[i]) && Witnessed(st, st.rows[i])
  }

  lemma ThresholdUnique(table: ConfigTable, id: ConfigId, t: real, u: real)
    requires WellFormedTable(table) && HasThreshold(table, id, t) && HasThreshold(table, id, u)
    ensures t == u
  {
    var i :| 0 <= i < |table| && table[i].id == id && table[i].similarityThreshold == t;
    var j :| 0 <= j < |table| && table[j].id == id && table[j].similarityThreshold == u;
    assert i == j;
  }

  lemma SubmissionBacksRow(st: State, submission: Submission, number: int)
    requires WellFormedTable(st.configs) && GoodSubmission(st, submission) && number > 0
    ensures Backed(st, RowFor(submission, number))
  {
    var threshold := submission.comparison.similarityThreshold.value;
    RowForSatisfiesChecks(submission, number, threshold);
    forall other | HasThreshold(st.configs, submission.configId, other) ensures other == threshold {
      ThresholdUnique(st.configs, submission.configId, threshold, other);
    }
  }

  lemma BackingKept(st: State, next: State, row: AttemptRow)
    requires Backed(st, row) && WellFormedTable(st.configs) && WellFormedTable(next.configs)
    requires forall id, threshold ::
      HasThreshold(st.configs, id, threshold) ==> HasThreshold(next.configs, id, threshold)
    ensures Backed(next, row)
  {
    var i :| 0 <= i < |st.configs| && st.configs[i].id == row.configId;
    var threshold := st.configs[i].similarityThreshold;
    assert HasThreshold(st.configs, row.configId, threshold);
    forall other | HasThreshold(next.configs, row.configId, other) ensures other == threshold {
      ThresholdUnique(next.configs, row.configId, threshold, other);
    }
  }

  lemma WitnessKept(st: State, next: State, row: AttemptRow)
    requires Witnessed(st, row) && st.history <= next.history
    ensures Witnessed(next, row)
  {
    var j :| 0 <= j < |st.history| && Witnesses(st.history[j], row);
    assert Witnesses(next.history[j], row);
  }

  lemma NewRowSound(s: Settings, st: State, step: Step)
    requires Invariant(s, st) && Commits(st, step)
    ensures Backed(st, st.phases[step.r].row) && Witnessed(Apply(s, st, step), st.phases[step.r].row)
  {
    var phase := st.phases[step.r];
    assert Sourced(st, phase) && Guarded(s, st, phase);
    SubmissionBacksRow(st, phase.submission, |st.rows| + 1);
    OnlyCommitsAndCoreAreVisible(s, st, step);
    assert Witnesses(Apply(s, st, step).history[|st.history|], phase.row);
  }

  lemma StepKeepsRowsSound(s: Settings, st: State, step: Step)
    requires Invariant(s, st) && RowsSound(st)
    ensures RowsSound(Apply(s, st, step))
  {
    var next := Apply(s, st, step);
    OnlyCommitAddsRows(s, st, step);
    OnlyCommitsAndCoreAreVisible(s, st, step);
    StepKeepsProvenance(s, st, step);
    forall i | 0 <= i < |next.rows| ensures Backed(next, next.rows[i]) && Witnessed(next, next.rows[i]) {
      if i < |st.rows| {
        BackingKept(st, next, st.rows[i]);
        WitnessKept(st, next, st.rows[i]);
      } else {
        NewRowSound(s, st, step);
        BackingKept(st, next, next.rows[i]);
      }
    }
  }

  /** Every committed row satisfies all the table's checks; it passed exactly when its score
      reaches the threshold of the configuration it names, whatever was activated during
      inference; and its capture time lies in the check-in window its request saw. */
  lemma {:induction false} RecordedRowsAreSound(s: Settings, session: SessionView, steps: seq<Step>)
    requires ValidSettings(s)
    ensures RowsSound(After(s, session, steps))
  {
    if steps != [] {
      RecordedRowsAreSound(s, session, steps[..|steps| - 1]);
      ScheduleInvariant(s, session, steps[..|steps| - 1]);
      StepKeepsRowsSound(s, After(s, session, steps[..|steps| - 1]), steps[|steps| - 1]);
    }
  }

  // ----- the parent row

  // An open parent has no end, one that was checked in no reason, and a failed one both.
  ghost predicate ParentComplete(parent: Option<ParentAttempt>) {
    match parent
    case None => true
    case Some(p) =>
      && (p.completedAt.None? <==> p.status == InProgress)
      && (p.failureReason.Some? <==> p.status == Failed)
  }

  lemma WrittenCompletes(s: Settings, st: State, r: RequestId)
    requires Attempts(s, st) && ParentComplete(st.parent) && r in st.phases && st.phases[r].Written?
    ensures ParentComplete(st.phases[r].parentAfter)
  {
    assert Guarded(s, st, st.phases[r]);
  }

  lemma StepKeepsParentComplete(s: Settings, st: State, step: Step)
    requires Attempts(s, st) && ParentComplete(st.parent)
    ensures ParentComplete(Apply(s, st, step).parent)
  {
    OnlyCommitAddsRows(s, st, step);
    if Commits(st, step) {
      WrittenCompletes(s, st, step.r);
    }
  }

  lemma {:induction false} ParentStaysComplete(s: Settings, session: SessionView, steps: seq<Step>)
    requires ValidSettings(s)
    ensures ParentComplete(After(s, session, steps).parent)
  {
    if steps != [] {
      ParentStaysComplete(s, session, steps[..|steps| - 1]);
      ScheduleInvariant(s, session, steps[..|steps| - 1]);
      StepKeepsParentComplete(s, After(s, session, steps[..|steps| - 1]), steps[|steps| - 1]);
    }
  }

  /** What Core makes of the parent row on any schedule. While a request holds the row lock it
      changes nothing; otherwise it starts a missing row, ends an open one with the given instant
      and, when it fails it, the given reason, and reopens a failed one without a trace, when its
      reason is one of those it may reopen. Every other action leaves the row as it is. */
  lemma CoreActs(s: Settings, session: SessionView, steps: seq<Step>, action: CoreAction)
    requires ValidSettings(s)
    ensures var st := After(s, session, steps);
            var after := Apply(s, st, Core(action)).parent;
            && ParentComplete(st.parent)
            && if st.rowLock.Some? && st.parent.Some? then after == st.parent
               else if action == Starts && st.parent == None then after == Some(ParentAttempt(InProgress, None, None))
               else if ParentOpen(st.parent) && action.ChecksIn? then
                 after == Some(ParentAttempt(CheckedIn, None, Some(action.at)))
               else if ParentOpen(st.parent) && action.Fails? then
                 after == Some(ParentAttempt(Failed, Some(action.reason), Some(action.at)))
               else if action == Reopens && exists reason :: reason in s.reopenable && FailedFor(st.parent, reason) then
                 after == Some(ParentAttempt(InProgress, None, None))
               else after == st.parent
  {
    ParentStaysComplete(s, session, steps);
    var parent := After(s, session, steps).parent;
    if parent.Some? && parent.value.failureReason.Some? {
      assert FailedFor(parent, parent.value.failureReason.value);
    }
  }

  ghost predicate FailedFor(parent: Option<ParentAttempt>, reason: string) {
    parent.Some? && parent.value.status == Failed && parent.value.failureReason == Some(reason)
  }

  // ----- the attempt numbers that calls report

  // Every number a call carries or has reported is one of the n attempts recorded so far, or 0.
  ghost predicate Reports(phase: Phase, n: nat) {
    && (phase.LatestRead? || phase.ReferenceRead? ==> 0 <= phase.previous <= n)
    && (phase.ConfigRead? || phase.Queued? || phase.Inferring? ==> 0 <= phase.ticket.previous <= n)
    && (phase.Unwinding? || phase.Ended? ==> phase.outcome.Returned? ==> 0 <= phase.outcome.result.attemptNumber <= n)
  }

  lemma DecisionReports(s: Settings, st: State, step: Step, r: RequestId)
    requires Attempts(s, st) && r in st.phases && Reports(st.phases[r], |st.rows|)
    requires MovesPermits(step)
    ensures var next := Advance(s, st, step, r, st.phases[r]);
            r in next.phases ==> Reports(next.phases[r], |next.rows|)
  {
  }

  // Reading the attempts finds the number of the last one.
  lemma ReadingReports(s: Settings, st: State, step: Step, r: RequestId)
    requires RowsInOrder(s, st.rows) && r in st.phases && Reports(st.phases[r], |st.rows|)
    requires step.ReadLatest? || step.ReadLatestLocked?
    ensures var next := Advance(s, st, step, r, st.phases[r]);
            r in next.phases ==> Reports(next.phases[r], |next.rows|)
  {
    LastPassed(s, st.rows);
  }

  // The rest of the snapshot hands its number on.
  lemma CarryingReports(s: Settings, st: State, step: Step, r: RequestId)
    requires r in st.phases && Reports(st.phases[r], |st.rows|)
    requires step.ReadContext? || step.ReadReference? || step.ReadConfig? || step.EndSnapshot? || SkipsInference(step)
    ensures var next := Advance(s, st, step, r, st.phases[r]);
            r in next.phases ==> Reports(next.phases[r], |next.rows|)
  {
  }

  lemma LockingReports(s: Settings, st: State, step: Step, r: RequestId)
    requires r in st.phases && Reports(st.phases[r], |st.rows|)
    requires step.RequestLock? || step.TakeLock? || step.WriteAttempt? || step.Unwind?
    ensures var next := Advance(s, st, step, r, st.phases[r]);
            r in next.phases ==> Reports(next.phases[r], |next.rows|)
  {
  }

  lemma CommitReports(s: Settings, st: State, step: Step, r: RequestId)
    requires Attempts(s, st) && r in st.phases && Reports(st.phases[r], |st.rows|) && step.CommitAttempt?
    ensures var next := Advance(s, st, step, r, st.phases[r]);
            r in next.phases ==> Reports(next.phases[r], |next.rows|)
  {
    assert Guarded(s, st, st.phases[r]);
  }

  lemma OwnStepReports(s: Settings, st: State, step: Step, r: RequestId)
    requires Attempts(s, st) && r in st.phases && Reports(st.phases[r], |st.rows|)
    requires !MovesPermits(step)
    ensures var next := Advance(s, st, step, r, st.phases[r]);
            r in next.phases ==> Reports(next.phases[r], |next.rows|)
  {
    if !IsRequestStep(step) {
      OutsideStepsDoNotAdvance(s, st, step, r);
    } else if step.ReadLatest? || step.ReadLatestLocked? {
      ReadingReports(s, st, step, r);
    } else if step.CommitAttempt? {
      CommitReports(s, st, step, r);
    } else if step.RequestLock? || step.TakeLock? || step.WriteAttempt? || step.Unwind? {
      LockingReports(s, st, step, r);
    } else {
      CarryingReports(s, st, step, r);
    }
  }

  ghost predicate AllReport(st: State) {
    forall r :: r in st.phases ==> Reports(st.phases[r], |st.rows|)
  }

  lemma PhaseReports(s: Settings, st: State, step: Step, r: RequestId)
    requires Books(s, st) && Attempts(s, st) && r in st.phases && Reports(st.phases[r], |st.rows|)
    ensures var next := Apply(s, st, step); r in next.phases ==> Reports(next.phases[r], |next.rows|)
  {
    OnlyCommitAddsRows(s, st, step);
    if !(IsRequestStep(step) && step.r == r) {
      OthersKeepPhase(s, st, step, r);
    } else if MovesPermits(step) {
      DecisionReports(s, st, step, r);
    } else {
      OwnStepReports(s, st, step, r);
    }
  }

  lemma StepReports(s: Settings, st: State, step: Step)
    requires Books(s, st) && Attempts(s, st) && AllReport(st)
    ensures AllReport(Apply(s, st, step))
  {
    var next := Apply(s, st, step);
    forall r | r in next.phases ensures Reports(next.phases[r], |next.rows|) {
      if r in st.phases {
        PhaseReports(s, st, step, r);
      } else {
        NewPhase(s, st, step, r);
      }
    }
  }

  lemma {:induction false} SchedulesReport(s: Settings, session: SessionView, steps: seq<Step>)
    requires ValidSettings(s)
    ensures AllReport(After(s, session, steps))
  {
    if steps != [] {
      SchedulesReport(s, session, steps[..|steps| - 1]);
      ScheduleInvariant(s, session, steps[..|steps| - 1]);
      StepReports(s, After(s, session, steps[..|steps| - 1]), steps[|steps| - 1]);
    }
  }

  /** No call ever reports an attempt number that is not recorded: an answer without a row of
      its own, which repeats the number its snapshot read, may lag behind but never runs ahead. */
  lemma ReportedNumbersExist(s: Settings, session: SessionView, steps: seq<Step>, r: RequestId)
    requires ValidSettings(s)
    requires r in After(s, session, steps).phases && After(s, session, steps).phases[r].Ended?
    requires After(s, session, steps).phases[r].outcome.Returned?
    ensures 0 <= After(s, session, steps).phases[r].outcome.result.attemptNumber <= |After(s, session, steps).rows|
  {
    SchedulesReport(s, session, steps);
    assert Reports(After(s, session, steps).phases[r], |After(s, session, steps).rows|);
  }

  // ----- transactions, the lock and permits

  /** No request holds a transaction, and so the row lock, while it waits for inference or
      runs it; a request that has ended holds nothing; permits are conserved. A permit counts
      a request, not a thread: a cancelled request gives its permit back while the analyzer
      call it started may still be running. */
  lemma HoldingsAreDisciplined(s: Settings, session: SessionView, steps: seq<Step>, r: RequestId)
    requires ValidSettings(s)
    requires r in After(s, session, steps).phases
    ensures var st := After(s, session, steps);
            && (st.phases[r].Queued? || st.phases[r].Inferring? || st.phases[r].Ended? ==>
                  r !in st.transactions && st.rowLock != Some(r))
            && (r in st.permits <==> st.phases[r].Inferring?)
            && (st.rowLock == Some(r) ==> r in st.transactions)
            && st.freePermits + |st.permits| + st.foreignPermits == s.capacity
  {
    ScheduleInvariant(s, session, steps);
    assert BooksOf(After(s, session, steps), r, After(s, session, steps).phases[r]);
  }

  /** Once every call has ended and other users have left, every permit is free again and
      neither the row lock nor a transaction is left behind. */
  lemma EverythingIsGivenBack(s: Settings, session: SessionView, steps: seq<Step>)
    requires ValidSettings(s)
    requires var st := After(s, session, steps);
             (forall r :: r in st.phases ==> st.phases[r].Ended?) && st.foreignPermits == 0
    ensures var st := After(s, session, steps);
            st.freePermits == s.capacity && st.rowLock == None && st.transactions == {}
  {
    ScheduleInvariant(s, session, steps);
    var st := After(s, session, steps);
    forall r | r in st.phases ensures r !in st.permits && r !in st.transactions && st.rowLock != Some(r) {
      assert BooksOf(st, r, st.phases[r]);
    }
    assert st.permits == {};
  }

  // The statements a lock holder may have left; one that does not apply any more does nothing.
  function HolderFinishes(r: RequestId): seq<Step> {
    [ReadLatestLocked(r), WriteAttempt(r), CommitAttempt(r), Unwind(r)]
  }

  // Where the holder can be once the first k of those statements have been given their turn.
  ghost predicate HolderAt(st: State, r: RequestId, k: nat) {
    && r in st.phases
    && (st.rowLock == Some(r) || (st.rowLock == None && st.phases[r].Ended? && k >= 3))
    && match k
       case 0 => InLockedSection(st.phases[r]) || st.phases[r].Unwinding?
       case 1 => st.phases[r].LatestLocked? || st.phases[r].Written? || st.phases[r].Unwinding?
       case 2 => st.phases[r].Written? || st.phases[r].Unwinding?
       case 3 => st.phases[r].Unwinding? || st.phases[r].Ended?
       case _ => st.phases[r].Ended? && st.rowLock == None
  }

  lemma HolderReads(s: Settings, st: State, r: RequestId)
    requires HolderAt(st, r, 0) && BooksOf(st, r, st.phases[r])
    ensures HolderAt(Apply(s, st, ReadLatestLocked(r)), r, 1)
  {
  }

  lemma HolderWrites(s: Settings, st: State, r: RequestId)
    requires HolderAt(st, r, 1) && BooksOf(st, r, st.phases[r])
    ensures HolderAt(Apply(s, st, WriteAttempt(r)), r, 2)
  {
  }

  lemma HolderCommits(s: Settings, st: State, r: RequestId)
    requires HolderAt(st, r, 2) && BooksOf(st, r, st.phases[r])
    ensures HolderAt(Apply(s, st, CommitAttempt(r)), r, 3)
  {
  }

  lemma HolderUnwinds(s: Settings, st: State, r: RequestId)
    requires HolderAt(st, r, 3) && BooksOf(st, r, st.phases[r])
    ensures HolderAt(Apply(s, st, Unwind(r)), r, 4)
  {
  }

  lemma HolderAdvances(s: Settings, st: State, r: RequestId, k: nat)
    requires k < 4 && HolderAt(st, r, k) && Invariant(s, st)
    ensures HolderAt(Apply(s, st, HolderFinishes(r)[k]), r, k + 1)
    ensures Invariant(s, Apply(s, st, HolderFinishes(r)[k]))
  {
    StepKeepsInvariant(s, st, HolderFinishes(r)[k]);
    assert BooksOf(st, r, st.phases[r]);
    match k {
      case 0 => HolderReads(s, st, r);
      case 1 => HolderWrites(s, st, r);
      case 2 => HolderCommits(s, st, r);
      case 3 => HolderUnwinds(s, st, r);
    }
  }

  lemma {:induction false} HolderRuns(s: Settings, st: State, r: RequestId, k: nat)
    requires k <= 4 && HolderAt(st, r, k) && Invariant(s, st)
    ensures HolderAt(Run(s, st, HolderFinishes(r)[k..]), r, 4)
    decreases 4 - k
  {
    if k < 4 {
      HolderAdvances(s, st, r, k);
      assert HolderFinishes(r)[k..][1..] == HolderFinishes(r)[k + 1..];
      HolderRuns(s, Apply(s, st, HolderFinishes(r)[k]), r, k + 1);
    }
  }

  /** The row lock is never stuck: from any reachable state the holder's own remaining
      statements, taken alone, end its call and free the lock. */
  lemma LockIsAlwaysReleased(s: Settings, session: SessionView, steps: seq<Step>, r: RequestId)
    requires ValidSettings(s)
    requires After(s, session, steps).rowLock == Some(r)
    ensures var end := Run(s, After(s, session, steps), HolderFinishes(r));
            end.rowLock == None && r in end.phases && end.phases[r].Ended?
  {
    ScheduleInvariant(s, session, steps);
    var st := After(s, session, steps);
    assert BooksOf(st, r, st.phases[r]);
    HolderRuns(s, st, r, 0);
    assert HolderFinishes(r)[0..] == HolderFinishes(r);
  }
}
