/** Why a call is refused: each exception that escapes `verify` has its one cause, and the
    cause has no other effect. */
module FaceAttemptRefusals {
  import opened Wrappers
  import opened FaceEngine
  import opened FaceComparison
  import opened VerificationConfigs
  import opened FaceAttemptRules
  import opened FaceAttemptProtocol
  import opened FaceAttemptInvariant
  import opened FaceAttemptAnswers

  // The first of the check-in rules that fails.
  ghost predicate ContextFails(parent: Option<ParentAttempt>, session: SessionView, at: Instant, error: VerifyError) {
    match error
    case AttemptNotStarted => parent.None?
    case AttemptClosed => parent.Some? && !ParentOpen(parent)
    case GeofencePending => ParentOpen(parent) && !GeofenceSettled(session)
    case SessionUnavailable => ParentOpen(parent) && GeofenceSettled(session) && !TakesFaces(session)
    case WindowClosed => ParentOpen(parent) && GeofenceSettled(session) && TakesFaces(session) && !InWindow(session, at)
    case _ => false
  }

  // What the statement meets, where its request stands, that makes it raise the error.
  ghost predicate Blames(s: Settings, st: State, step: Step, phase: Phase, error: VerifyError) {
    match step
    case ReadContext(_) => phase.Received? && ContextFails(st.parent, st.session, phase.at, error)
    case ReadLatest(_) => phase.ContextRead? && SomePassed(st.rows) && error == AlreadyPassed
    case ReadReference(_) => phase.LatestRead? && st.reference == None && error == NoReferenceProfile
    case ReadConfig(_) =>
      && phase.ReferenceRead? && error == NoActiveConfig
      && forall i :: 0 <= i < |st.configs| ==> !st.configs[i].isActive
    case QueueTimeout(_) => phase.Queued? && error == InferenceBusy
    case FinishInference(r, analysis, mr, mc) =>
      && phase.Inferring? && error == ComparisonRaised
      && var i := Inference(phase.ticket, analysis, mr, mc);
         i.Possible() && Fits(s, i) && !HasDirections(i)
    case TakeLock(_) =>
      && phase.LockRequested? && LockFree(st)
      && ContextFails(st.parent, phase.seen, phase.submission.receivedAt, error)
    case ReadLatestLocked(_) => phase.ContextLocked? && SomePassed(st.rows) && error == AlreadyPassed
    case LoseConnection(_) => !phase.Ended? && !phase.Unwinding? && error == ConnectionLost
    case _ => false
  }

  // The call is over, with this exception.
  ghost predicate RaisedIn(phase: Phase, error: VerifyError) {
    (phase.Unwinding? || phase.Ended?) && phase.outcome == Raised(error)
  }

  // A step raises the error exactly when it has the error's cause.
  ghost predicate RaisesExactly(s: Settings, st: State, step: Step, r: RequestId, next: State)
    requires r in st.phases
  {
    r in next.phases && forall error ::
      RaisedIn(next.phases[r], error) <==> RaisedIn(st.phases[r], error) || Blames(s, st, step, st.phases[r], error)
  }

  lemma ContextRaises(s: Settings, st: State, step: Step, r: RequestId)
    requires r in st.phases && (step.ReadContext? || step.TakeLock?) && step.r == r
    ensures RaisesExactly(s, st, step, r, Advance(s, st, step, r, st.phases[r]))
  {
    if st.phases[r].Received? {
      ContextAccepted(st.parent, st.session, st.phases[r].at);
    } else if st.phases[r].LockRequested? {
      ContextAccepted(st.parent, st.phases[r].seen, st.phases[r].submission.receivedAt);
    }
  }

  lemma LatestRaises(s: Settings, st: State, step: Step, r: RequestId)
    requires r in st.phases && RowsInOrder(s, st.rows) && (step.ReadLatest? || step.ReadLatestLocked?) && step.r == r
    ensures RaisesExactly(s, st, step, r, Advance(s, st, step, r, st.phases[r]))
  {
    LastPassed(s, st.rows);
  }

  lemma ReadsRaise(s: Settings, st: State, step: Step, r: RequestId)
    requires r in st.phases && (step.ReadReference? || step.ReadConfig?) && step.r == r
    ensures RaisesExactly(s, st, step, r, Advance(s, st, step, r, st.phases[r]))
  {
    GetActiveSound(st.configs);
  }

  lemma InferenceRaises(s: Settings, st: State, step: Step, r: RequestId)
    requires r in st.phases && BooksOf(st, r, st.phases[r]) && Sourced(st, st.phases[r])
    requires step.FinishInference? && step.r == r
    ensures RaisesExactly(s, st, step, r, Advance(s, st, step, r, st.phases[r]))
  {
    if st.phases[r].Inferring? {
      var i := Inference(st.phases[r].ticket, step.analysis, step.referenceMagnitude, step.capturedMagnitude);
      if i.Possible() {
        JudgedTells(s, ReleasePermit(st, r), r, i);
      }
    }
  }

  lemma RejectionRaisesNothing(s: Settings, st: State, step: Step, r: RequestId)
    requires r in st.phases && BooksOf(st, r, st.phases[r]) && Sourced(st, st.phases[r])
    requires step.RejectImage? && step.r == r
    ensures RaisesExactly(s, st, step, r, Advance(s, st, step, r, st.phases[r]))
  {
    if st.phases[r].Queued? {
      RejectedEnds(s, st, r, st.phases[r].ticket, step.reason);
    }
  }

  lemma OtherStepsRaise(s: Settings, st: State, step: Step, r: RequestId)
    requires r in st.phases && Guarded(s, st, st.phases[r])
    requires step.EndSnapshot? || step.AcquirePermit? || step.QueueTimeout? || step.RequestLock? || step.WriteAttempt?
             || step.CommitAttempt?
    ensures RaisesExactly(s, st, step, r, Advance(s, st, step, r, st.phases[r]))
  {
  }

  lemma ClosingRaises(s: Settings, st: State, step: Step, r: RequestId)
    requires r in st.phases && (step.Unwind? || step.LoseConnection?)
    ensures RaisesExactly(s, st, step, r, Advance(s, st, step, r, st.phases[r]))
  {
  }

  lemma OwnStepRaises(s: Settings, st: State, step: Step, r: RequestId)
    requires Invariant(s, st) && r in st.phases && IsRequestStep(step) && step.r == r
    ensures RaisesExactly(s, st, step, r, Apply(s, st, step))
  {
    assert BooksOf(st, r, st.phases[r]) && Sourced(st, st.phases[r]) && Guarded(s, st, st.phases[r]);
    if step.ReadContext? || step.TakeLock? {
      ContextRaises(s, st, step, r);
    } else if step.ReadLatest? || step.ReadLatestLocked? {
      LatestRaises(s, st, step, r);
    } else if step.ReadReference? || step.ReadConfig? {
      ReadsRaise(s, st, step, r);
    } else if step.FinishInference? {
      InferenceRaises(s, st, step, r);
    } else if step.RejectImage? {
      RejectionRaisesNothing(s, st, step, r);
    } else if step.Unwind? || step.LoseConnection? {
      ClosingRaises(s, st, step, r);
    } else {
      OtherStepsRaise(s, st, step, r);
    }
  }

  // The request's own statement at position k met the error's cause.
  ghost predicate BlamedAt(s: Settings, session: SessionView, steps: seq<Step>, r: RequestId, error: VerifyError, k: nat)
    requires k < |steps|
  {
    var st := After(s, session, steps[..k]);
    IsRequestStep(steps[k]) && steps[k].r == r && r in st.phases && Blames(s, st, steps[k], st.phases[r], error)
  }

  ghost predicate Blamed(s: Settings, session: SessionView, steps: seq<Step>, r: RequestId, error: VerifyError) {
    exists k: nat :: k < |steps| && BlamedAt(s, session, steps, r, error, k)
  }

  lemma BlamedInFront(s: Settings, session: SessionView, steps: seq<Step>, r: RequestId, error: VerifyError, k: nat)
    requires k < |steps| - 1
    ensures BlamedAt(s, session, steps, r, error, k) == BlamedAt(s, session, steps[..|steps| - 1], r, error, k)
  {
    assert steps[..|steps| - 1][..k] == steps[..k];
  }

  lemma BlamedBefore(s: Settings, session: SessionView, steps: seq<Step>, r: RequestId, error: VerifyError)
    requires steps != [] && Blamed(s, session, steps[..|steps| - 1], r, error)
    ensures Blamed(s, session, steps, r, error)
  {
    var k: nat :| k < |steps| - 1 && BlamedAt(s, session, steps[..|steps| - 1], r, error, k);
    BlamedInFront(s, session, steps, r, error, k);
  }

  lemma BlamedEarlier(s: Settings, session: SessionView, steps: seq<Step>, r: RequestId, error: VerifyError)
    requires steps != []
    ensures Blamed(s, session, steps, r, error)
       <==> || Blamed(s, session, steps[..|steps| - 1], r, error)
            || BlamedAt(s, session, steps, r, error, |steps| - 1)
  {
    if Blamed(s, session, steps, r, error) {
      var k: nat :| k < |steps| && BlamedAt(s, session, steps, r, error, k);
      if k < |steps| - 1 {
        BlamedInFront(s, session, steps, r, error, k);
      }
    }
    if Blamed(s, session, steps[..|steps| - 1], r, error) {
      BlamedBefore(s, session, steps, r, error);
    }
  }

  /** Every exception has its one cause: on every schedule a call is over with an error exactly
      when one of its own statements met that error's cause: the first check-in rule that failed,
      a passed attempt, no reference photograph, no active configuration, a full queue, a vector
      without a direction, or a broken connection. */
  lemma {:induction false} RaisedExactly(s: Settings, session: SessionView, steps: seq<Step>, r: RequestId, error: VerifyError)
    requires ValidSettings(s)
    ensures var st := After(s, session, steps);
            (r in st.phases && RaisedIn(st.phases[r], error)) <==> Blamed(s, session, steps, r, error)
  {
    if steps != [] {
      var front, step := steps[..|steps| - 1], steps[|steps| - 1];
      var st := After(s, session, front);
      RaisedExactly(s, session, front, r, error);
      BlamedEarlier(s, session, steps, r, error);
      ScheduleInvariant(s, session, front);
      if r !in st.phases {
        if r in Apply(s, st, step).phases {
          NewPhase(s, st, step, r);
        }
      } else if IsRequestStep(step) && step.r == r {
        OwnStepRaises(s, st, step, r);
      } else {
        OthersKeepPhase(s, st, step, r);
      }
    }
  }
}
