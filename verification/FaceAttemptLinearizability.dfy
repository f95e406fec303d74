/** Linearizability of the face-attempt protocol: seen from outside, each recorded
    attempt is one indivisible operation on the parent row and its list of attempts,
    and it happens at the commit of the locked section. */
module FaceAttemptLinearizability {
  import opened Wrappers
  import opened FaceComparison
  import opened FaceAttemptRules
  import opened FaceAttemptProtocol
  import opened FaceAttemptInvariant

  // ----- the atomic specification

  datatype Register = Register(rows: seq<AttemptRow>, parent: Option<ParentAttempt>)

  ghost predicate Accepts(s: Settings, reg: Register) {
    ParentOpen(reg.parent) && !SomePassed(reg.rows) && |reg.rows| < s.maxAttempts
  }

  // One attempt, all at once: append the outcome, close the parent on the last failure.
  ghost function AttemptAtomically(s: Settings, reg: Register, submission: Submission)
    : (Register, Option<VerificationResult>)
  {
    if Accepts(s, reg) then
      var number := |reg.rows| + 1;
      var passed := submission.comparison.status == Matched;
      var parent := if !passed && number == s.maxAttempts
                    then Some(ParentAttempt(Failed, Some(LIMIT_REASON), Some(submission.receivedAt))) else reg.parent;
      (Register(reg.rows + [RowFor(submission, number)], parent),
       Some(VerificationResult(StatusForComparison(submission.comparison.status), number,
                               !passed && number < s.maxAttempts, submission.comparison.similarityScore,
                               submission.comparison.similarityThreshold, submission.comparison.detectionConfidence)))
    else (reg, None)
  }

  ghost function ApplyEvent(s: Settings, reg: Register, event: Event): Register {
    match event
    case CoreActed(action) => reg.(parent := CoreEffect(reg.parent, action, s.reopenable))
    case Attempted(_, submission, _) => AttemptAtomically(s, reg, submission).0
  }

  ghost function Replay(s: Settings, history: seq<Event>): Register {
    if history == [] then Register([], None)
    else ApplyEvent(s, Replay(s, history[..|history| - 1]), history[|history| - 1])
  }

  // What the atomic specification answers to the attempt at position i.
  ghost function Answer(s: Settings, history: seq<Event>, i: nat): Option<VerificationResult>
    requires i < |history| && history[i].Attempted?
  {
    AttemptAtomically(s, Replay(s, history[..i]), history[i].submission).1
  }

  // ----- what ties a state to its history

  predicate IsRecorded(result: VerificationResult) {
    result.status in {PassedStatus, FailedStatus, NoFaceStatus, MultipleFacesStatus, LowQualityStatus}
  }

  predicate AttemptOf(event: Event, r: RequestId) {
    event.Attempted? && event.request == r
  }

  ghost predicate EventAnswered(s: Settings, st: State, i: nat)
    requires i < |st.history|
  {
    st.history[i].Attempted? ==>
      && st.history[i].request in st.phases
      && Answer(s, st.history, i).Some?
      && st.phases[st.history[i].request] == Ended(Returned(Answer(s, st.history, i).value))
      && OpenFor(st.history[i].seen, st.history[i].submission.receivedAt)
  }

  ghost predicate CallJustified(st: State, r: RequestId)
    requires r in st.phases
  {
    && (st.phases[r].Unwinding? && st.phases[r].outcome.Returned? ==> !IsRecorded(st.phases[r].outcome.result))
    && (st.phases[r].Ended? && st.phases[r].outcome.Returned? && IsRecorded(st.phases[r].outcome.result) ==>
          exists i :: 0 <= i < |st.history| && AttemptOf(st.history[i], r))
  }

  ghost predicate Linearized(s: Settings, st: State) {
    && Replay(s, st.history) == Register(st.rows, st.parent)
    && (forall i :: 0 <= i < |st.history| ==> EventAnswered(s, st, i))
    && (forall i, j :: 0 <= i < j < |st.history| && st.history[i].Attempted? && st.history[j].Attempted? ==>
          st.history[i].request != st.history[j].request)
    && (forall r :: r in st.phases ==> CallJustified(st, r))
  }

  // ----- one step

  lemma OwnStepsShowCommitsOnly(s: Settings, st: State, step: Step, r: RequestId)
    requires r in st.phases && !(step.CommitAttempt? && st.phases[r].Written?)
    ensures var next := Advance(s, st, step, r, st.phases[r]);
            next.history == st.history && next.rows == st.rows && next.parent == st.parent
  {
  }

  // Everything but a commit and Core's writes is invisible to the atomic specification.
  lemma OnlyCommitsAndCoreAreVisible(s: Settings, st: State, step: Step)
    ensures Apply(s, st, step).history
         == if Commits(st, step) then st.history + [Attempted(step.r, st.phases[step.r].submission, st.phases[step.r].seen)]
            else if step.Core? && LockFree(st) then st.history + [CoreActed(step.action)]
            else st.history
    ensures !Commits(st, step) && !(step.Core? && LockFree(st)) ==>
              Apply(s, st, step).rows == st.rows && Apply(s, st, step).parent == st.parent
    ensures step.Core? && LockFree(st) ==>
              && Apply(s, st, step).rows == st.rows
              && Apply(s, st, step).parent == CoreEffect(st.parent, step.action, s.reopenable)
              && Apply(s, st, step).phases == st.phases
  {
    if IsRequestStep(step) && step.r in st.phases && !Commits(st, step) {
      OwnStepsShowCommitsOnly(s, st, step, step.r);
    }
  }

  lemma EndedStays(s: Settings, st: State, step: Step, r: RequestId)
    requires Books(s, st) && r in st.phases && st.phases[r].Ended?
    ensures r in Apply(s, st, step).phases && Apply(s, st, step).phases[r] == st.phases[r]
  {
    if !(IsRequestStep(step) && step.r == r) {
      OthersKeepPhase(s, st, step, r);
    }
  }

  lemma AnswerSurvives(s: Settings, history: seq<Event>, event: Event, i: nat)
    requires i < |history| && history[i].Attempted?
    ensures Answer(s, history + [event], i) == Answer(s, history, i)
  {
    assert (history + [event])[..i] == history[..i];
  }

  lemma ReplayExtends(s: Settings, history: seq<Event>, event: Event)
    ensures Replay(s, history + [event]) == ApplyEvent(s, Replay(s, history), event)
  {
    assert (history + [event])[..|history|] == history;
  }

  /** The linearization point: the commit of the locked section does to the parent and its
      attempts exactly what the atomic operation does, and returns its answer. */
  lemma CommitIsAtomicAttempt(s: Settings, st: State, r: RequestId)
    requires Attempts(s, st) && r in st.phases && st.phases[r].Written?
    ensures var phase := st.phases[r];
            AttemptAtomically(s, Register(st.rows, st.parent), phase.submission)
            == (Register(st.rows + [phase.row], phase.parentAfter), Some(phase.result))
  {
    assert Guarded(s, st, st.phases[r]);
  }

  lemma OldEventsStayAnswered(s: Settings, st: State, step: Step, i: nat)
    requires Books(s, st) && i < |st.history| && EventAnswered(s, st, i)
    ensures i < |Apply(s, st, step).history| && EventAnswered(s, Apply(s, st, step), i)
  {
    OnlyCommitsAndCoreAreVisible(s, st, step);
    var next := Apply(s, st, step);
    if st.history[i].Attempted? {
      EndedStays(s, st, step, st.history[i].request);
      if next.history != st.history {
        AnswerSurvives(s, st.history, next.history[|st.history|], i);
      }
    }
  }

  predicate HasDecided(st: State, r: RequestId) {
    r in st.phases && (st.phases[r].Unwinding? || st.phases[r].Ended?)
  }

  predicate ReportsRecord(outcome: Outcome) {
    outcome.Returned? && IsRecorded(outcome.result)
  }

  // Short of a commit, a call that makes up its mind does not report a recorded attempt.
  lemma FreshReadsAreNotRecords(s: Settings, st: State, step: Step, r: RequestId)
    requires r in st.phases && !HasDecided(st, r)
    requires step.ReadContext? || ReadsSnapshot(step) || step.EndSnapshot? || step.AcquirePermit?
    ensures var next := Advance(s, st, step, r, st.phases[r]);
            HasDecided(next, r) ==> !ReportsRecord(next.phases[r].outcome)
  {
  }

  lemma FreshComparisonsAreNotRecords(s: Settings, st: State, step: Step, r: RequestId)
    requires r in st.phases && !HasDecided(st, r)
    requires SkipsInference(step) || step.FinishInference? || step.LoseConnection?
    ensures var next := Advance(s, st, step, r, st.phases[r]);
            HasDecided(next, r) ==> !ReportsRecord(next.phases[r].outcome)
  {
  }

  lemma FreshDecisionsAreNotRecords(s: Settings, st: State, step: Step, r: RequestId)
    requires r in st.phases && !HasDecided(st, r) && !step.CommitAttempt?
    ensures var next := Advance(s, st, step, r, st.phases[r]);
            HasDecided(next, r) ==> !ReportsRecord(next.phases[r].outcome)
  {
    if SkipsInference(step) || step.FinishInference? || step.LoseConnection? {
      FreshComparisonsAreNotRecords(s, st, step, r);
    } else if step.ReadContext? || ReadsSnapshot(step) || step.EndSnapshot? || step.AcquirePermit? {
      FreshReadsAreNotRecords(s, st, step, r);
    }
  }

  lemma DecisionsKeepTheirOutcome(s: Settings, st: State, step: Step, r: RequestId)
    requires HasDecided(st, r)
    ensures var next := Advance(s, st, step, r, st.phases[r]);
            next == st || (st.phases[r].Unwinding? && next.phases == st.phases[r := Ended(st.phases[r].outcome)])
  {
  }

  lemma OwnStepStaysJustified(s: Settings, st: State, step: Step, r: RequestId)
    requires r in st.phases && CallJustified(st, r) && !(step.CommitAttempt? && st.phases[r].Written?)
    ensures var next := Advance(s, st, step, r, st.phases[r]);
            r in next.phases ==> CallJustified(next, r)
  {
    if HasDecided(st, r) {
      DecisionsKeepTheirOutcome(s, st, step, r);
    } else if !step.CommitAttempt? {
      FreshDecisionsAreNotRecords(s, st, step, r);
    }
  }

  lemma OthersStayJustified(st: State, next: State, q: RequestId)
    requires q in st.phases && q in next.phases && st.phases[q] == next.phases[q] && CallJustified(st, q)
    requires st.history <= next.history
    ensures CallJustified(next, q)
  {
    if exists i :: 0 <= i < |st.history| && AttemptOf(st.history[i], q) {
      var i :| 0 <= i < |st.history| && AttemptOf(st.history[i], q);
      assert AttemptOf(next.history[i], q);
    }
  }

  lemma CommitJustifiesItsCall(s: Settings, st: State, step: Step)
    requires Commits(st, step)
    ensures step.r in Apply(s, st, step).phases && CallJustified(Apply(s, st, step), step.r)
  {
    var next := Apply(s, st, step);
    assert next.history[|st.history|].Attempted? && AttemptOf(next.history[|st.history|], step.r);
  }

  lemma CallStaysJustified(s: Settings, st: State, step: Step, q: RequestId)
    requires Books(s, st) && q in Apply(s, st, step).phases
    requires q in st.phases ==> CallJustified(st, q)
    ensures CallJustified(Apply(s, st, step), q)
  {
    if q !in st.phases {
      NewPhase(s, st, step, q);
    } else if !(IsRequestStep(step) && step.r == q) {
      OnlyCommitsAndCoreAreVisible(s, st, step);
      OthersKeepPhase(s, st, step, q);
      OthersStayJustified(st, Apply(s, st, step), q);
    } else if Commits(st, step) {
      CommitJustifiesItsCall(s, st, step);
    } else {
      OwnStepStaysJustified(s, st, step, q);
    }
  }

  lemma CommitLinearizes(s: Settings, st: State, step: Step)
    requires Books(s, st) && Attempts(s, st) && Linearized(s, st) && Commits(st, step)
    ensures Linearized(s, Apply(s, st, step))
  {
    var next := Apply(s, st, step);
    var r, phase := step.r, st.phases[step.r];
    var event := Attempted(r, phase.submission, phase.seen);
    OnlyCommitsAndCoreAreVisible(s, st, step);
    CommitIsAtomicAttempt(s, st, r);
    ReplayExtends(s, st.history, event);
    assert next.history[..|st.history|] == st.history;
    assert Answer(s, next.history, |st.history|) == Some(phase.result);
    assert Guarded(s, st, phase);
    forall i | 0 <= i < |next.history| ensures EventAnswered(s, next, i) {
      if i < |st.history| {
        OldEventsStayAnswered(s, st, step, i);
      }
    }
    forall i | 0 <= i < |st.history| && st.history[i].Attempted? ensures st.history[i].request != r {
      assert EventAnswered(s, st, i);
    }
    forall q | q in next.phases ensures CallJustified(next, q) {
      CallStaysJustified(s, st, step, q);
    }
  }

  lemma OtherStepsLinearize(s: Settings, st: State, step: Step)
    requires Books(s, st) && Linearized(s, st) && !Commits(st, step)
    ensures Linearized(s, Apply(s, st, step))
  {
    var next := Apply(s, st, step);
    OnlyCommitsAndCoreAreVisible(s, st, step);
    if next.history != st.history {
      ReplayExtends(s, st.history, CoreActed(step.action));
    }
    forall i | 0 <= i < |next.history| ensures EventAnswered(s, next, i) {
      if i < |st.history| {
        OldEventsStayAnswered(s, st, step, i);
      }
    }
    forall q | q in next.phases ensures CallJustified(next, q) {
      CallStaysJustified(s, st, step, q);
    }
  }

  // ----- every schedule

  /** Every interleaving of any number of calls with Core's writes has the same effect on
      the parent and its attempts as its commits run one at a time, and every call that
      reports a recorded attempt returns what that sequential run answers to it: its own
      attempt number and retry flag, exactly once. */
  lemma {:induction false} Linearizable(s: Settings, session: SessionView, steps: seq<Step>)
    requires ValidSettings(s)
    ensures Linearized(s, After(s, session, steps))
  {
    if steps != [] {
      var front := steps[..|steps| - 1];
      Linearizable(s, session, front);
      ScheduleInvariant(s, session, front);
      var st, step := After(s, session, front), steps[|steps| - 1];
      if Commits(st, step) {
        CommitLinearizes(s, st, step);
      } else {
        OtherStepsLinearize(s, st, step);
      }
    }
  }

  // A recorded answer, read back from the history.
  lemma RecordedCallHasItsAttempt(s: Settings, session: SessionView, steps: seq<Step>, r: RequestId)
    requires ValidSettings(s)
    requires var st := After(s, session, steps);
             r in st.phases && st.phases[r].Ended? && st.phases[r].outcome.Returned? && IsRecorded(st.phases[r].outcome.result)
    ensures var st := After(s, session, steps);
            exists i :: && 0 <= i < |st.history| && AttemptOf(st.history[i], r)
                        && Answer(s, st.history, i) == Some(st.phases[r].outcome.result)
  {
    Linearizable(s, session, steps);
    var st := After(s, session, steps);
    assert CallJustified(st, r);
    var i :| 0 <= i < |st.history| && AttemptOf(st.history[i], r);
    assert EventAnswered(s, st, i);
  }

  lemma {:induction false} HistoryGrows(s: Settings, session: SessionView, steps: seq<Step>, k: nat)
    requires k <= |steps|
    ensures After(s, session, steps[..k]).history <= After(s, session, steps).history
  {
    if k == |steps| {
      assert steps[..k] == steps;
    } else {
      var front := steps[..|steps| - 1];
      HistoryGrows(s, session, front, k);
      assert front[..k] == steps[..k];
      OnlyCommitsAndCoreAreVisible(s, After(s, session, front), steps[|steps| - 1]);
    }
  }

  lemma NoAttemptBeforeArrival(s: Settings, st: State, r: RequestId)
    requires Linearized(s, st) && r !in st.phases
    ensures forall j :: 0 <= j < |st.history| ==> !AttemptOf(st.history[j], r)
  {
    forall j | 0 <= j < |st.history| ensures !AttemptOf(st.history[j], r) {
      assert EventAnswered(s, st, j);
    }
  }

  /** The sequential order respects real time: an attempt recorded before another call
      arrives comes before that call's attempt. */
  lemma OrderRespectsArrival(s: Settings, session: SessionView, steps: seq<Step>, k: nat, i: nat, j: nat, r: RequestId)
    requires ValidSettings(s) && k <= |steps|
    requires r !in After(s, session, steps[..k]).phases
    requires i < |After(s, session, steps[..k]).history|
    requires j < |After(s, session, steps).history| && AttemptOf(After(s, session, steps).history[j], r)
    ensures i < j
    ensures After(s, session, steps).history[i] == After(s, session, steps[..k]).history[i]
  {
    HistoryGrows(s, session, steps, k);
    Linearizable(s, session, steps[..k]);
    NoAttemptBeforeArrival(s, After(s, session, steps[..k]), r);
  }

  // ----- what a recorded answer promises

  lemma RetryAfterCommit(s: Settings, st: State, r: RequestId)
    requires Attempts(s, st) && r in st.phases && st.phases[r].Written?
    ensures var phase := st.phases[r];
            && (phase.result.canRetry <==> Accepts(s, Register(st.rows + [phase.row], phase.parentAfter)))
            && (phase.result.status != PassedStatus && !phase.result.canRetry ==>
                  phase.parentAfter.Some? && phase.parentAfter.value.status == Failed
                  && phase.parentAfter.value.failureReason == Some(LIMIT_REASON))
  {
    assert Guarded(s, st, st.phases[r]);
    RetryAfterRow(s, st.rows, st.phases[r].submission);
  }

  lemma CommitEnds(s: Settings, st: State, r: RequestId)
    requires r in st.phases && st.phases[r].Written?
    ensures var next := Apply(s, st, CommitAttempt(r));
            && next.rows == st.rows + [st.phases[r].row] && next.parent == st.phases[r].parentAfter
            && r in next.phases && next.phases[r] == Ended(Returned(st.phases[r].result))
  {
  }

  /** The retry flag of a recorded answer is true exactly when, right after its commit, the
      atomic operation would accept another attempt; and an answer that neither passed nor
      allows a retry left the parent failed at the limit. */
  lemma RetryFlagIsTrue(s: Settings, st: State, r: RequestId)
    requires Attempts(s, st) && Commits(st, CommitAttempt(r))
    ensures var next := Apply(s, st, CommitAttempt(r));
            && r in next.phases && next.phases[r].Ended? && next.phases[r].outcome.Returned?
            && (next.phases[r].outcome.result.canRetry <==> Accepts(s, Register(next.rows, next.parent)))
            && (next.phases[r].outcome.result.status != PassedStatus && !next.phases[r].outcome.result.canRetry ==>
                  next.parent.Some? && next.parent.value.status == Failed
                  && next.parent.value.failureReason == Some(LIMIT_REASON))
  {
    CommitEnds(s, st, r);
    RetryAfterCommit(s, st, r);
  }

  lemma RetryAfterRow(s: Settings, rows: seq<AttemptRow>, submission: Submission)
    requires !SomePassed(rows)
    ensures SomePassed(rows + [RowFor(submission, |rows| + 1)]) <==> submission.comparison.status == Matched
  {
    var next := rows + [RowFor(submission, |rows| + 1)];
    if submission.comparison.status == Matched {
      assert next[|rows|].validationStatus == RowPassed;
    }
  }

  // ----- refusals

  ghost predicate Refuses(s: Settings, st: State) {
    !Accepts(s, Register(st.rows, st.parent))
  }

  // Outcomes that claim the attempt is closed to this student.
  predicate ClaimsClosed(outcome: Outcome) {
    || (outcome.Raised? && outcome.error in {AttemptNotStarted, AttemptClosed, AlreadyPassed})
    || (outcome.Returned? && outcome.result.status == AttemptLimitReached)
  }

  // What a step that has just settled r's call told it.
  ghost predicate Tells(st: State, next: State, r: RequestId) {
    !HasDecided(st, r) && HasDecided(next, r) && ClaimsClosed(next.phases[r].outcome)
  }

  lemma ContextRefusalIsCurrent(s: Settings, st: State, step: Step, r: RequestId)
    requires r in st.phases && (step.ReadContext? || step.TakeLock?)
    requires Tells(st, Advance(s, st, step, r, st.phases[r]), r)
    ensures Refuses(s, st)
  {
  }

  lemma LatestRefusalIsCurrent(s: Settings, st: State, step: Step, r: RequestId)
    requires RowsInOrder(s, st.rows) && r in st.phases && (step.ReadLatest? || step.ReadLatestLocked?)
    requires Tells(st, Advance(s, st, step, r, st.phases[r]), r)
    ensures Refuses(s, st)
  {
    LastPassed(s, st.rows);
  }

  lemma SnapshotTellsNothing(s: Settings, st: State, step: Step, r: RequestId)
    requires r in st.phases
    requires step.ReadReference? || step.ReadConfig? || step.EndSnapshot? || step.AcquirePermit?
    ensures !Tells(st, Advance(s, st, step, r, st.phases[r]), r)
  {
  }

  lemma InferenceTellsNothing(s: Settings, st: State, step: Step, r: RequestId)
    requires r in st.phases && (SkipsInference(step) || step.FinishInference? || step.LoseConnection?)
    ensures !Tells(st, Advance(s, st, step, r, st.phases[r]), r)
  {
  }

  lemma RecordingTellsNothing(s: Settings, st: State, step: Step, r: RequestId)
    requires r in st.phases && Guarded(s, st, st.phases[r])
    requires step.RequestLock? || step.WriteAttempt? || step.CommitAttempt? || step.Unwind?
    ensures !Tells(st, Advance(s, st, step, r, st.phases[r]), r)
  {
  }

  /** A call is told that the attempt is closed, already passed or used up only at a moment
      when the atomic operation would refuse it too. */
  lemma RefusalsAreCurrent(s: Settings, st: State, step: Step, r: RequestId)
    requires Attempts(s, st) && IsRequestStep(step) && step.r == r
    requires !HasDecided(st, r) && HasDecided(Apply(s, st, step), r)
    requires ClaimsClosed(Apply(s, st, step).phases[r].outcome)
    ensures Refuses(s, st)
  {
    assert r in st.phases ==> Apply(s, st, step) == Advance(s, st, step, r, st.phases[r]) && Guarded(s, st, st.phases[r]);
    if step.ReadContext? || step.TakeLock? {
      ContextRefusalIsCurrent(s, st, step, r);
    } else if step.ReadLatest? || step.ReadLatestLocked? {
      LatestRefusalIsCurrent(s, st, step, r);
    } else if SkipsInference(step) || step.FinishInference? || step.LoseConnection? {
      InferenceTellsNothing(s, st, step, r);
    } else if step.RequestLock? || step.WriteAttempt? || step.CommitAttempt? || step.Unwind? {
      RecordingTellsNothing(s, st, step, r);
    } else {
      SnapshotTellsNothing(s, st, step, r);
    }
  }

  // ----- calls that end without a recorded attempt

  // Only comparisons that use up an attempt are ever recorded.
  ghost predicate OnlyConsumed(history: seq<Event>) {
    forall i :: 0 <= i < |history| && history[i].Attempted? ==> Consumes(history[i].submission.comparison.status)
  }

  lemma {:induction false} HistoryConsumes(s: Settings, session: SessionView, steps: seq<Step>)
    requires ValidSettings(s)
    ensures OnlyConsumed(After(s, session, steps).history)
  {
    if steps != [] {
      var front := steps[..|steps| - 1];
      HistoryConsumes(s, session, front);
      ScheduleInvariant(s, session, front);
      StepConsumes(s, After(s, session, front), steps[|steps| - 1]);
    }
  }

  lemma StepConsumes(s: Settings, st: State, step: Step)
    requires Provenance(st) && OnlyConsumed(st.history)
    ensures OnlyConsumed(Apply(s, st, step).history)
  {
    OnlyCommitsAndCoreAreVisible(s, st, step);
    if Commits(st, step) {
      assert Sourced(st, st.phases[step.r]);
    }
  }

  lemma AnswersReportRecords(s: Settings, history: seq<Event>, i: nat)
    requires i < |history| && history[i].Attempted? && Consumes(history[i].submission.comparison.status)
    ensures Answer(s, history, i).Some? ==> IsRecorded(Answer(s, history, i).value)
  {
  }

  /** A call that ends without reporting a recorded attempt - busy, processing failed, model
      mismatch, a refusal, or anything raised - has no entry in the sequential history: it
      changed neither the attempts nor the parent. And a call that reports one has exactly one. */
  lemma OwnsExactlyWhatItReports(s: Settings, session: SessionView, steps: seq<Step>, r: RequestId)
    requires ValidSettings(s) && r in After(s, session, steps).phases && After(s, session, steps).phases[r].Ended?
    ensures var st := After(s, session, steps);
            ReportsRecord(st.phases[r].outcome) <==> exists i :: 0 <= i < |st.history| && AttemptOf(st.history[i], r)
    ensures var history := After(s, session, steps).history;
            forall i, j :: 0 <= i < j < |history| && AttemptOf(history[i], r) ==> !AttemptOf(history[j], r)
  {
    var st := After(s, session, steps);
    Linearizable(s, session, steps);
    HistoryConsumes(s, session, steps);
    assert CallJustified(st, r);
    if i :| 0 <= i < |st.history| && AttemptOf(st.history[i], r) {
      assert EventAnswered(s, st, i);
      AnswersReportRecords(s, st.history, i);
    }
  }
}
