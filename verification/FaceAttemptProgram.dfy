/** The order of one request's statements. On every schedule the steps of a request that take
    effect are the statements of `verify` in the order of its code, up to where the call
    stops; then, if a transaction is open, the session scope closes it. */
module FaceAttemptProgram {
  import opened Wrappers
  import opened FaceEngine
  import opened FaceAttemptRules
  import opened FaceAttemptProtocol
  import opened FaceAttemptInvariant

  predicate OfRequest(step: Step, r: RequestId) {
    (IsRequestStep(step) || step.Arrive?) && step.r == r
  }

  // A request's own steps, in their order.
  ghost function OwnSteps(steps: seq<Step>, r: RequestId): seq<Step> {
    if steps == [] then []
    else
      var last := steps[|steps| - 1];
      OwnSteps(steps[..|steps| - 1], r) + (if OfRequest(last, r) then [last] else [])
  }

  // ----- the program

  // The arrival, the unlocked reads and the commit that ends the snapshot.
  ghost function Snapshot(r: RequestId, at: Instant): seq<Step> {
    [Arrive(r, at), Step.ReadContext(r), Step.ReadLatest(r), Step.ReadReference(r), Step.ReadConfig(r), Step.EndSnapshot(r)]
  }

  // The comparison: a full queue, an undecodable image, or a permit and its inference.
  ghost predicate IsInference(steps: seq<Step>, r: RequestId) {
    || steps == [QueueTimeout(r)]
    || (|steps| == 1 && steps[0].RejectImage? && steps[0].r == r)
    || (|steps| == 2 && steps[0] == Step.AcquirePermit(r) && steps[1].FinishInference? && steps[1].r == r)
  }

  // The second transaction.
  ghost function Recording(r: RequestId): seq<Step> {
    [Step.RequestLock(r), Step.TakeLock(r), Step.ReadLatestLocked(r), Step.WriteAttempt(r), Step.CommitAttempt(r)]
  }

  ghost function Program(r: RequestId, at: Instant, inference: seq<Step>): seq<Step> {
    Snapshot(r, at) + inference + Recording(r)
  }

  // The first n statements were run, and then the connection may have broken.
  ghost predicate StopsAt(own: seq<Step>, r: RequestId, at: Instant, inference: seq<Step>, n: nat) {
    && IsInference(inference, r) && n <= |Program(r, at, inference)|
    && (own == Program(r, at, inference)[..n] || own == Program(r, at, inference)[..n] + [LoseConnection(r)])
  }

  ghost predicate Stopped(own: seq<Step>, r: RequestId, at: Instant) {
    exists inference, n :: StopsAt(own, r, at, inference, n)
  }

  /** The statements of the program from the first one to where the call stopped, and then the
      end of the transaction that was open there. */
  ghost predicate RunsProgram(own: seq<Step>, r: RequestId, at: Instant) {
    Stopped(own, r, at) || (own != [] && own[|own| - 1] == Unwind(r) && Stopped(own[..|own| - 1], r, at))
  }

  // ----- where a request stands is how far its program has run

  ghost predicate Recorded(own: seq<Step>, r: RequestId, at: Instant, inference: seq<Step>, n: nat) {
    IsInference(inference, r) && n <= 5 && own == Snapshot(r, at) + inference + Recording(r)[..n]
  }

  ghost predicate InRecording(own: seq<Step>, r: RequestId, at: Instant, n: nat) {
    exists inference :: Recorded(own, r, at, inference, n)
  }

  ghost predicate StandsAt(own: seq<Step>, r: RequestId, at: Instant, phase: Phase) {
    match phase
    case Received(_) => own == Snapshot(r, at)[..1]
    case ContextRead(_) => own == Snapshot(r, at)[..2]
    case LatestRead(_, _) => own == Snapshot(r, at)[..3]
    case ReferenceRead(_, _, _) => own == Snapshot(r, at)[..4]
    case ConfigRead(_) => own == Snapshot(r, at)[..5]
    case Queued(_) => own == Snapshot(r, at)
    case Inferring(_) => own == Snapshot(r, at) + [Step.AcquirePermit(r)]
    case Compared(_) => InRecording(own, r, at, 0)
    case LockRequested(_, _) => InRecording(own, r, at, 1)
    case ContextLocked(_, _) => InRecording(own, r, at, 2)
    case LatestLocked(_, _, _) => InRecording(own, r, at, 3)
    case Written(_, _, _, _, _) => InRecording(own, r, at, 4)
    case Unwinding(_) => Stopped(own, r, at)
    case Ended(_) => RunsProgram(own, r, at)
  }

  lemma SnapshotStops(own: seq<Step>, r: RequestId, at: Instant, n: nat)
    requires n <= 6 && own == Snapshot(r, at)[..n]
    ensures Stopped(own, r, at) && Stopped(own + [LoseConnection(r)], r, at)
  {
    var inference := [QueueTimeout(r)];
    assert Program(r, at, inference)[..n] == own;
    assert StopsAt(own, r, at, inference, n) && StopsAt(own + [LoseConnection(r)], r, at, inference, n);
  }

  lemma InferenceStops(own: seq<Step>, r: RequestId, at: Instant, inference: seq<Step>, n: nat)
    requires IsInference(inference, r) && n <= |inference| && own == Snapshot(r, at) + inference[..n]
    ensures Stopped(own, r, at) && Stopped(own + [LoseConnection(r)], r, at)
  {
    assert Program(r, at, inference)[..6 + n] == own;
    assert StopsAt(own, r, at, inference, 6 + n) && StopsAt(own + [LoseConnection(r)], r, at, inference, 6 + n);
  }

  lemma RecordingStops(own: seq<Step>, r: RequestId, at: Instant, n: nat)
    requires InRecording(own, r, at, n)
    ensures Stopped(own, r, at) && Stopped(own + [LoseConnection(r)], r, at)
  {
    var inference :| Recorded(own, r, at, inference, n);
    var done := 6 + |inference| + n;
    assert Program(r, at, inference)[..done] == own;
    assert StopsAt(own, r, at, inference, done) && StopsAt(own + [LoseConnection(r)], r, at, inference, done);
  }

  // A step takes effect when it moves its request.
  predicate TakesEffect(s: Settings, now: State, step: Step, r: RequestId) {
    var next := Apply(s, now, step);
    OfRequest(step, r) && r in next.phases && (r !in now.phases || next.phases[r] != now.phases[r])
  }

  predicate IsOver(phase: Phase) {
    phase.Unwinding? || phase.Ended?
  }

  function SnapshotPlace(phase: Phase): nat {
    match phase
    case Received(_) => 1
    case ContextRead(_) => 2
    case LatestRead(_, _) => 3
    case ReferenceRead(_, _, _) => 4
    case ConfigRead(_) => 5
    case Queued(_) => 6
    case _ => 0
  }

  function RecordingPlace(phase: Phase): int {
    match phase
    case Compared(_) => 0
    case LockRequested(_, _) => 1
    case ContextLocked(_, _) => 2
    case LatestLocked(_, _, _) => 3
    case Written(_, _, _, _, _) => 4
    case _ => -1
  }

  lemma SnapshotMoves(s: Settings, now: State, step: Step, r: RequestId, at: Instant)
    requires r in now.phases && TakesEffect(s, now, step, r) && 1 <= SnapshotPlace(now.phases[r]) <= 5
    ensures var next := Apply(s, now, step).phases[r];
            if step.LoseConnection? then IsOver(next)
            else step == Snapshot(r, at)[SnapshotPlace(now.phases[r])]
                 && (IsOver(next) || SnapshotPlace(next) == SnapshotPlace(now.phases[r]) + 1)
  {
  }

  lemma InferenceMoves(s: Settings, now: State, step: Step, r: RequestId)
    requires r in now.phases && TakesEffect(s, now, step, r) && (now.phases[r].Queued? || now.phases[r].Inferring?)
    ensures var next := Apply(s, now, step).phases[r];
            if step.LoseConnection? then IsOver(next)
            else if now.phases[r].Inferring? then step.FinishInference? && (IsOver(next) || next.Compared?)
            else if step.AcquirePermit? then next.Inferring?
            else (step.QueueTimeout? || step.RejectImage?) && (IsOver(next) || next.Compared?)
  {
  }

  lemma RecordingMoves(s: Settings, now: State, step: Step, r: RequestId)
    requires r in now.phases && TakesEffect(s, now, step, r) && RecordingPlace(now.phases[r]) >= 0
    ensures var next := Apply(s, now, step).phases[r];
            if step.LoseConnection? then IsOver(next)
            else step == Recording(r)[RecordingPlace(now.phases[r])]
                 && (IsOver(next) || RecordingPlace(next) == RecordingPlace(now.phases[r]) + 1)
  {
  }

  lemma ClosingMoves(s: Settings, now: State, step: Step, r: RequestId)
    requires r in now.phases && TakesEffect(s, now, step, r) && IsOver(now.phases[r])
    ensures now.phases[r].Unwinding? && step == Unwind(r) && Apply(s, now, step).phases[r].Ended?
  {
  }

  lemma StoppedStands(own: seq<Step>, r: RequestId, at: Instant, phase: Phase)
    requires Stopped(own, r, at) && IsOver(phase)
    ensures StandsAt(own, r, at, phase)
  {
  }

  lemma SnapshotStands(s: Settings, now: State, step: Step, r: RequestId, at: Instant, own: seq<Step>)
    requires r in now.phases && TakesEffect(s, now, step, r) && 1 <= SnapshotPlace(now.phases[r]) <= 5
    requires own == Snapshot(r, at)[..SnapshotPlace(now.phases[r])]
    ensures StandsAt(own + [step], r, at, Apply(s, now, step).phases[r])
  {
    var n, next := SnapshotPlace(now.phases[r]), Apply(s, now, step).phases[r];
    SnapshotMoves(s, now, step, r, at);
    SnapshotStops(own, r, at, n);
    if !step.LoseConnection? {
      assert own + [step] == Snapshot(r, at)[..n + 1];
      SnapshotStops(own + [step], r, at, n + 1);
    }
    if IsOver(next) {
      StoppedStands(own + [step], r, at, next);
    }
  }

  lemma ComparisonStands(own: seq<Step>, r: RequestId, at: Instant, inference: seq<Step>, phase: Phase)
    requires IsInference(inference, r) && own == Snapshot(r, at) + inference && (IsOver(phase) || phase.Compared?)
    ensures StandsAt(own, r, at, phase)
  {
    if phase.Compared? {
      assert own == Snapshot(r, at) + inference + Recording(r)[..0];
      assert Recorded(own, r, at, inference, 0);
    } else {
      assert inference[..|inference|] == inference;
      InferenceStops(own, r, at, inference, |inference|);
      StoppedStands(own, r, at, phase);
    }
  }

  // Any inference: what it would have been when the connection broke before its end.
  function SomeInference(r: RequestId): Step {
    FinishInference(r, Failure(ProcessingFailed, 0, "", None, ""), 0.0, 0.0)
  }

  lemma InferenceStands(s: Settings, now: State, step: Step, r: RequestId, at: Instant, own: seq<Step>)
    requires r in now.phases && TakesEffect(s, now, step, r) && (now.phases[r].Queued? || now.phases[r].Inferring?)
    requires StandsAt(own, r, at, now.phases[r])
    ensures StandsAt(own + [step], r, at, Apply(s, now, step).phases[r])
  {
    var next := Apply(s, now, step).phases[r];
    InferenceMoves(s, now, step, r);
    if now.phases[r].Inferring? {
      var finish := if step.FinishInference? then step else SomeInference(r);
      var inference := [Step.AcquirePermit(r), finish];
      InferenceStops(own, r, at, inference, 1);
      if step.FinishInference? {
        assert own + [step] == Snapshot(r, at) + inference;
        ComparisonStands(own + [step], r, at, inference, next);
      }
    } else {
      SnapshotStops(own, r, at, 6);
      if step.QueueTimeout? || step.RejectImage? {
        ComparisonStands(own + [step], r, at, [step], next);
      }
    }
  }

  lemma RecordingStands(s: Settings, now: State, step: Step, r: RequestId, at: Instant, own: seq<Step>)
    requires r in now.phases && TakesEffect(s, now, step, r) && RecordingPlace(now.phases[r]) >= 0
    requires InRecording(own, r, at, RecordingPlace(now.phases[r]))
    ensures StandsAt(own + [step], r, at, Apply(s, now, step).phases[r])
  {
    var n, next := RecordingPlace(now.phases[r]), Apply(s, now, step).phases[r];
    RecordingMoves(s, now, step, r);
    RecordingStops(own, r, at, n);
    if !step.LoseConnection? {
      var inference :| Recorded(own, r, at, inference, n);
      assert Recording(r)[..n] + [step] == Recording(r)[..n + 1];
      assert Recorded(own + [step], r, at, inference, n + 1);
      RecordingStops(own + [step], r, at, n + 1);
    }
    if IsOver(next) {
      StoppedStands(own + [step], r, at, next);
    }
  }

  // A step that takes effect is the program's next, the loss of the connection, or the close.
  lemma StepStands(s: Settings, now: State, step: Step, r: RequestId, at: Instant, own: seq<Step>)
    requires r in now.phases && TakesEffect(s, now, step, r) && StandsAt(own, r, at, now.phases[r])
    ensures StandsAt(own + [step], r, at, Apply(s, now, step).phases[r])
  {
    var phase := now.phases[r];
    if IsOver(phase) {
      ClosingMoves(s, now, step, r);
      assert (own + [step])[..|own|] == own;
    } else if phase.Queued? || phase.Inferring? {
      InferenceStands(s, now, step, r, at, own);
    } else if RecordingPlace(phase) >= 0 {
      RecordingStands(s, now, step, r, at, own);
    } else {
      SnapshotStands(s, now, step, r, at, own);
    }
  }

  // ----- over every schedule

  lemma {:induction false} RunAppend(s: Settings, st: State, front: seq<Step>, back: seq<Step>)
    ensures Run(s, st, front + back) == Run(s, Run(s, st, front), back)
    decreases |front|
  {
    if front == [] {
      assert front + back == back;
    } else {
      assert (front + back)[1..] == front[1..] + back;
      RunAppend(s, Apply(s, st, front[0]), front[1..], back);
    }
  }

  lemma {:induction false} RunFromInitial(s: Settings, session: SessionView, steps: seq<Step>, more: seq<Step>)
    ensures Run(s, After(s, session, steps), more) == After(s, session, steps + more)
    decreases |more|
  {
    if more == [] {
      assert steps + more == steps;
    } else {
      assert (steps + [more[0]])[..|steps|] == steps;
      assert steps + more == (steps + [more[0]]) + more[1..];
      RunFromInitial(s, session, steps + [more[0]], more[1..]);
    }
  }

  // The steps of a request that took effect, in their order.
  ghost function Effects(s: Settings, start: State, steps: seq<Step>, r: RequestId): seq<Step> {
    if steps == [] then []
    else
      var front, last := steps[..|steps| - 1], steps[|steps| - 1];
      Effects(s, start, front, r) + (if TakesEffect(s, Run(s, start, front), last, r) then [last] else [])
  }

  // Nothing before the arrival; from then on, where the request stands.
  ghost predicate InOrder(own: seq<Step>, r: RequestId, now: State) {
    if r in now.phases then own != [] && own[0].Arrive? && StandsAt(own, r, own[0].at, now.phases[r]) else own == []
  }

  lemma IdleStep(s: Settings, now: State, step: Step, r: RequestId)
    requires Books(s, now) && OfRequest(step, r) && !TakesEffect(s, now, step, r)
    ensures var next := Apply(s, now, step);
            (r in next.phases <==> r in now.phases) && (r in now.phases ==> next.phases[r] == now.phases[r])
  {
    if r in now.phases && IsRequestStep(step) {
      RequestTouchesItself(s, now, step, r);
    }
  }

  lemma OthersAddNot(s: Settings, now: State, step: Step, r: RequestId)
    requires Books(s, now) && !OfRequest(step, r) && r !in now.phases
    ensures r !in Apply(s, now, step).phases
  {
    if IsRequestStep(step) && step.r in now.phases {
      RequestTouchesItself(s, now, step, step.r);
    }
  }

  lemma OthersStep(s: Settings, now: State, step: Step, r: RequestId)
    requires Books(s, now) && !OfRequest(step, r)
    ensures var next := Apply(s, now, step);
            (r in next.phases <==> r in now.phases) && (r in now.phases ==> next.phases[r] == now.phases[r])
  {
    if r in now.phases {
      OthersKeepPhase(s, now, step, r);
    } else {
      OthersAddNot(s, now, step, r);
    }
  }

  lemma StepInOrder(s: Settings, now: State, step: Step, r: RequestId, own: seq<Step>)
    requires Books(s, now) && InOrder(own, r, now)
    ensures InOrder(if TakesEffect(s, now, step, r) then own + [step] else own, r, Apply(s, now, step))
  {
    if !TakesEffect(s, now, step, r) {
      if OfRequest(step, r) {
        IdleStep(s, now, step, r);
      } else {
        OthersStep(s, now, step, r);
      }
    } else if r in now.phases {
      StepStands(s, now, step, r, own[0].at, own);
    } else {
      assert own + [step] == Snapshot(r, step.at)[..1];
    }
  }

  lemma LastStep(s: Settings, start: State, steps: seq<Step>)
    requires steps != []
    ensures Run(s, start, steps) == Apply(s, Run(s, start, steps[..|steps| - 1]), steps[|steps| - 1])
  {
    var front, last := steps[..|steps| - 1], steps[|steps| - 1];
    assert steps == front + [last];
    RunAppend(s, start, front, [last]);
    assert Run(s, Run(s, start, front), [last]) == Run(s, Apply(s, Run(s, start, front), last), []);
  }

  lemma {:induction false} RunKeepsInvariant(s: Settings, start: State, steps: seq<Step>)
    requires Invariant(s, start)
    ensures Invariant(s, Run(s, start, steps))
    decreases |steps|
  {
    if steps != [] {
      StepKeepsInvariant(s, start, steps[0]);
      RunKeepsInvariant(s, Apply(s, start, steps[0]), steps[1..]);
    }
  }

  lemma LastInOrder(s: Settings, start: State, steps: seq<Step>, r: RequestId, now: State, own: seq<Step>)
    requires steps != [] && now == Run(s, start, steps[..|steps| - 1]) && Books(s, now)
    requires own == Effects(s, start, steps[..|steps| - 1], r) && InOrder(own, r, now)
    ensures InOrder(Effects(s, start, steps, r), r, Run(s, start, steps))
  {
    var last := steps[|steps| - 1];
    LastStep(s, start, steps);
    StepInOrder(s, now, last, r, own);
    assert Effects(s, start, steps, r) == if TakesEffect(s, now, last, r) then own + [last] else own;
  }

  lemma {:induction false} RunInOrder(s: Settings, start: State, steps: seq<Step>, r: RequestId)
    requires Invariant(s, start) && r !in start.phases
    ensures InOrder(Effects(s, start, steps, r), r, Run(s, start, steps))
  {
    if steps != [] {
      var front := steps[..|steps| - 1];
      RunInOrder(s, start, front, r);
      RunKeepsInvariant(s, start, front);
      LastInOrder(s, start, steps, r, Run(s, start, front), Effects(s, start, front, r));
    }
  }

  /** On every schedule the steps of a request that took effect are the statements of `verify`
      in the order of its code, and where the request stands says how many were run. */
  lemma StatementsInOrder(s: Settings, session: SessionView, steps: seq<Step>, r: RequestId)
    requires ValidSettings(s)
    ensures InOrder(Effects(s, Initial(s, session), steps, r), r, After(s, session, steps))
  {
    InitialInvariant(s, session);
    RunInOrder(s, Initial(s, session), steps, r);
    RunFromInitial(s, session, [], steps);
    assert [] + steps == steps;
  }

  // ----- the steps of the others, and a call seen from the state it is made in

  predicate OthersOnly(steps: seq<Step>, r: RequestId) {
    forall i :: 0 <= i < |steps| ==> !OfRequest(steps[i], r)
  }

  lemma {:induction false} OthersRun(s: Settings, start: State, steps: seq<Step>, r: RequestId)
    requires Invariant(s, start) && OthersOnly(steps, r) && r in start.phases
    ensures r in Run(s, start, steps).phases && Run(s, start, steps).phases[r] == start.phases[r]
    decreases |steps|
  {
    if steps != [] {
      assert !OfRequest(steps[0], r);
      OthersStep(s, start, steps[0], r);
      StepKeepsInvariant(s, start, steps[0]);
      assert forall i :: 0 <= i < |steps[1..]| ==> steps[1..][i] == steps[i + 1];
      OthersRun(s, Apply(s, start, steps[0]), steps[1..], r);
    }
  }

  lemma {:induction false} OthersAddNothing(s: Settings, start: State, trace: seq<Step>, steps: seq<Step>, r: RequestId)
    requires OthersOnly(steps, r)
    ensures OwnSteps(trace + steps, r) == OwnSteps(trace, r)
    ensures Effects(s, start, trace + steps, r) == Effects(s, start, trace, r)
  {
    if steps == [] {
      assert trace + steps == trace;
    } else {
      var front := steps[..|steps| - 1];
      assert (trace + steps)[..|trace + steps| - 1] == trace + front;
      assert !OfRequest(steps[|steps| - 1], r);
      OthersAddNothing(s, start, trace, front, r);
    }
  }

  ghost predicate Reachable(s: Settings, st: State) {
    ValidSettings(s) && exists session, steps :: st == After(s, session, steps)
  }

  lemma ReachableInvariant(s: Settings, st: State)
    requires Reachable(s, st)
    ensures Invariant(s, st)
  {
    var session, steps :| st == After(s, session, steps);
    ScheduleInvariant(s, session, steps);
  }

  // `trace` leads from a reachable state to `now`, and every step of the request in it took effect.
  ghost predicate Leads(s: Settings, start: State, trace: seq<Step>, now: State, r: RequestId) {
    Reachable(s, start) && now == Run(s, start, trace) && OwnSteps(trace, r) == Effects(s, start, trace, r)
  }

  lemma LeadsToBooks(s: Settings, start: State, trace: seq<Step>, now: State, r: RequestId)
    requires Leads(s, start, trace, now, r)
    ensures Invariant(s, now) && (r in now.phases ==> BooksOf(now, r, now.phases[r]))
  {
    ReachableInvariant(s, start);
    RunKeepsInvariant(s, start, trace);
  }

  lemma OwnStepLeads(s: Settings, start: State, trace: seq<Step>, now: State, step: Step, r: RequestId)
    requires Leads(s, start, trace, now, r) && TakesEffect(s, now, step, r)
    ensures Leads(s, start, trace + [step], Apply(s, now, step), r)
  {
    assert (trace + [step])[..|trace|] == trace;
    LastStep(s, start, trace + [step]);
  }

  lemma OtherStepsLead(s: Settings, start: State, trace: seq<Step>, now: State, steps: seq<Step>, r: RequestId)
    requires Leads(s, start, trace, now, r) && OthersOnly(steps, r) && r in now.phases
    ensures Leads(s, start, trace + steps, Run(s, now, steps), r)
    ensures r in Run(s, now, steps).phases && Run(s, now, steps).phases[r] == now.phases[r]
  {
    RunAppend(s, start, trace, steps);
    OthersAddNothing(s, start, trace, steps, r);
    LeadsToBooks(s, start, trace, now, r);
    OthersRun(s, now, steps, r);
  }

  lemma {:induction false} FirstOwnStep(trace: seq<Step>, r: RequestId)
    requires trace != [] && OfRequest(trace[0], r)
    ensures OwnSteps(trace, r) != [] && OwnSteps(trace, r)[0] == trace[0]
  {
    if |trace| > 1 {
      FirstOwnStep(trace[..|trace| - 1], r);
    }
  }

  // A call that has ended ran the program from its arrival, the trace's first step.
  lemma CallRunsProgram(s: Settings, start: State, trace: seq<Step>, now: State, r: RequestId, at: Instant)
    requires Leads(s, start, trace, now, r) && r !in start.phases && trace != [] && trace[0] == Arrive(r, at)
    requires r in now.phases && now.phases[r].Ended?
    ensures RunsProgram(OwnSteps(trace, r), r, at)
  {
    ReachableInvariant(s, start);
    RunInOrder(s, start, trace, r);
    FirstOwnStep(trace, r);
  }

  lemma FromReachable(s: Settings, start: State, trace: seq<Step>, now: State)
    requires now == Run(s, start, trace)
    ensures forall session, steps :: start == After(s, session, steps) ==> now == After(s, session, steps + trace)
  {
    forall session, steps | start == After(s, session, steps) ensures now == After(s, session, steps + trace) {
      RunFromInitial(s, session, steps, trace);
    }
  }
}
