/** What the answer of a call says about its image. An answer is traced back to the instant its
    request arrived, the reference, the configuration and the number its snapshot read, and the
    result of its own inference; these determine its status, its score and the row it recorded. */
module FaceAttemptAnswers {
  import opened Wrappers
  import opened EmbeddingSimilarity
  import opened FaceEngine
  import opened FaceComparison
  import opened VerificationConfigs
  import opened FaceAttemptRules
  import opened FaceAttemptProtocol
  import opened FaceAttemptInvariant

  // ----- what an inference means, in the caller's terms

  // One finished inference: what the request had read, the engine's result, the embeddings' lengths.
  datatype Inference = Inference(ticket: Ticket, analysis: FaceAnalysisResult, mr: real, mc: real) {
    ghost predicate Possible() {
      && analysis.Constructible()
      && IsMagnitude(mr, ticket.reference.embedding)
      && IsMagnitude(mc, CapturedVector(analysis))
    }
  }

  // A capture the engine could read, of the reference's model, version and dimension.
  ghost predicate Fits(s: Settings, i: Inference) {
    i.analysis.status == Success && FitsReference(i.ticket.reference, s.modelVersion, i.analysis)
  }

  ghost predicate HasDirections(i: Inference) {
    NonZero(i.ticket.reference.embedding) && NonZero(CapturedVector(i.analysis))
  }

  // An inference that uses up an attempt.
  ghost predicate UsesAttempt(s: Settings, i: Inference) {
    i.analysis.status in {NoFace, MultipleFaces, LowQuality} || (Fits(s, i) && HasDirections(i))
  }

  // A score is the cosine of reference and capture; a capture that failed has none.
  ghost predicate ScoreTells(i: Inference, score: Option<real>) {
    if i.analysis.status == Success then
      score.Some? && IsCosine(score.value, i.ticket.reference.embedding, CapturedVector(i.analysis), i.mr, i.mc)
    else score.None?
  }

  ghost predicate Reaches(score: Option<real>, threshold: real) {
    score.Some? && score.value >= threshold
  }

  // The answer to an inference that used up an attempt.
  ghost predicate ResultTells(i: Inference, result: VerificationResult) {
    && ScoreTells(i, result.similarityScore)
    && result.similarityThreshold == Some(i.ticket.threshold)
    && result.detectionConfidence == i.analysis.detectionConfidence
    && (i.analysis.status == NoFace ==> result.status == NoFaceStatus)
    && (i.analysis.status == MultipleFaces ==> result.status == MultipleFacesStatus)
    && (i.analysis.status == LowQuality ==> result.status == LowQualityStatus)
    && (i.analysis.status == Success && Reaches(result.similarityScore, i.ticket.threshold) ==>
          result.status == PassedStatus)
    && (i.analysis.status == Success && !Reaches(result.similarityScore, i.ticket.threshold) ==>
          result.status == FailedStatus)
  }

  // Why an attempt failed: the engine's reason or the name of the status, cut to the column's width.
  ghost predicate Explains(i: Inference, text: string) {
    var full :=
      if i.analysis.status == Success then "Face similarity was below the required threshold"
      else if i.analysis.failureReason.GetOr("") != "" then i.analysis.failureReason.value
      else if i.analysis.status == NoFace then "no_face"
      else if i.analysis.status == MultipleFaces then "multiple_faces"
      else "low_quality";
    text <= full && (text == full || |text| == 100 < |full|)
  }

  // The row that goes with the answer.
  ghost predicate RowTells(i: Inference, row: AttemptRow, result: VerificationResult) {
    && row.attemptNumber == result.attemptNumber
    && row.faceProfileId == i.ticket.reference.profileId
    && row.configId == i.ticket.configId
    && row.capturedAt == i.ticket.receivedAt && row.validatedAt == Some(i.ticket.receivedAt)
    && row.similarityScore == result.similarityScore
    && row.livenessPassed
    && (row.qualityPassed <==> i.analysis.status == Success)
    && (row.validationStatus == RowPassed <==> result.status == PassedStatus)
    && (if result.status == PassedStatus then row.failureReason.None?
        else row.failureReason.Some? && Explains(i, row.failureReason.value))
  }

  // The answer to a capture that uses up no attempt: the number its snapshot read, and another try.
  ghost function Unused(ticket: Ticket, status: VerificationStatus, confidence: Option<real>): Outcome {
    Returned(VerificationResult(status, ticket.previous, true, None, Some(ticket.threshold), confidence))
  }

  ghost function UsedUp(s: Settings): Outcome {
    Returned(VerificationResult(AttemptLimitReached, s.maxAttempts, false, None, None, None))
  }

  // The row an answer speaks of is in the table.
  ghost predicate RowStored(st: State, i: Inference, result: VerificationResult) {
    1 <= result.attemptNumber <= |st.rows| && RowTells(i, st.rows[result.attemptNumber - 1], result)
  }

  // What the call may come to once the inference is finished.
  ghost predicate OutcomeTells(s: Settings, st: State, i: Inference, outcome: Outcome) {
    if i.analysis.status == ProcessingFailed then
      outcome == Unused(i.ticket, ProcessingFailedStatus, i.analysis.detectionConfidence)
    else if i.analysis.status == Success && !Fits(s, i) then
      outcome == Unused(i.ticket, ModelMismatchStatus, i.analysis.detectionConfidence)
    else if i.analysis.status == Success && !HasDirections(i) then
      outcome == Raised(ComparisonRaised)
    else
      outcome.Raised? || outcome == UsedUp(s) || (ResultTells(i, outcome.result) && RowStored(st, i, outcome.result))
  }

  // ----- where a request stands after its inference

  ghost predicate SubmissionTells(s: Settings, i: Inference, submission: Submission) {
    && UsesAttempt(s, i)
    && submission.receivedAt == i.ticket.receivedAt
    && submission.profileId == i.ticket.reference.profileId
    && submission.configId == i.ticket.configId
    && ComparisonTells(i, submission.comparison)
  }

  ghost predicate ComparisonTells(i: Inference, comparison: FaceComparisonResult) {
    && ScoreTells(i, comparison.similarityScore)
    && comparison.similarityThreshold == Some(i.ticket.threshold)
    && comparison.detectionConfidence == i.analysis.detectionConfidence
    && match i.analysis.status
       case Success =>
         if Reaches(comparison.similarityScore, i.ticket.threshold) then comparison.status == Matched
         else && comparison.status == NotMatched
              && comparison.failureReason == Some("Face similarity was below the required threshold")
       case NoFace => comparison.status == CapturedNoFace && comparison.failureReason == i.analysis.failureReason
       case MultipleFaces =>
         comparison.status == CapturedMultipleFaces && comparison.failureReason == i.analysis.failureReason
       case LowQuality => comparison.status == CapturedLowQuality && comparison.failureReason == i.analysis.failureReason
       case ProcessingFailed => false
  }

  ghost predicate Told(s: Settings, st: State, i: Inference, phase: Phase) {
    match phase
    case Compared(submission) => SubmissionTells(s, i, submission)
    case LockRequested(submission, _) => SubmissionTells(s, i, submission)
    case ContextLocked(submission, _) => SubmissionTells(s, i, submission)
    case LatestLocked(submission, _, _) => SubmissionTells(s, i, submission)
    case Written(submission, _, row, _, result) =>
      SubmissionTells(s, i, submission) && ResultTells(i, result) && RowTells(i, row, result)
    case Unwinding(outcome) => UsesAttempt(s, i) && (outcome.Raised? || outcome == UsedUp(s))
    case Ended(outcome) => OutcomeTells(s, st, i, outcome)
    case _ => false
  }

  // ----- one step

  lemma ComparedTells(s: Settings, i: Inference)
    requires i.Possible() && 0.0 <= i.ticket.threshold <= 1.0 && UsesAttempt(s, i)
    ensures var c := Compare(i.ticket.reference, s.modelVersion, i.analysis, i.ticket.threshold, i.mr, i.mc);
            c.Ok? && ComparisonTells(i, c.value)
  {
    CompareDecides(i.ticket.reference, s.modelVersion, i.analysis, i.ticket.threshold, i.mr, i.mc);
    if i.analysis.status == Success {
      SuccessIsScored(i.ticket.reference, s.modelVersion, i.analysis, i.ticket.threshold, i.mr, i.mc);
    }
  }

  // Where the comparison leaves a request that has no transaction open.
  ghost predicate Ends(s: Settings, st: State, i: Inference, phase: Phase) {
    if UsesAttempt(s, i) then phase.Compared? && SubmissionTells(s, i, phase.submission)
    else phase.Ended? && OutcomeTells(s, st, i, phase.outcome)
  }

  lemma JudgedTells(s: Settings, st: State, r: RequestId, i: Inference)
    requires r !in st.transactions && i.Possible() && 0.0 <= i.ticket.threshold <= 1.0
    ensures var compared := Compare(i.ticket.reference, s.modelVersion, i.analysis, i.ticket.threshold, i.mr, i.mc);
            var next := Judge(st, r, i.ticket, compared);
            next == Move(st, r, next.phases[r]) && Ends(s, st, i, next.phases[r])
  {
    if UsesAttempt(s, i) {
      ComparedTells(s, i);
    } else {
      CompareDecides(i.ticket.reference, s.modelVersion, i.analysis, i.ticket.threshold, i.mr, i.mc);
      if i.analysis.status == Success {
        SuccessIsScored(i.ticket.reference, s.modelVersion, i.analysis, i.ticket.threshold, i.mr, i.mc);
      }
    }
  }

  // An inference that the engine can give is finished for request r.
  ghost predicate Finishes(st: State, step: Step, r: RequestId, i: Inference) {
    && step == FinishInference(r, i.analysis, i.mr, i.mc) && i.Possible()
    && r in st.phases && st.phases[r] == Inferring(i.ticket)
  }

  // Nothing but the request's place, and its permit, is different.
  ghost predicate OnlyAnswered(st: State, next: State, r: RequestId) {
    && r in next.phases
    && next == st.(phases := st.phases[r := next.phases[r]], freePermits := next.freePermits, permits := next.permits)
  }

  lemma FinishedTells(s: Settings, st: State, step: Step, r: RequestId, i: Inference)
    requires Finishes(st, step, r, i) && r !in st.transactions && 0.0 <= i.ticket.threshold <= 1.0
    ensures var next := Apply(s, st, step);
            OnlyAnswered(st, next, r) && next.permits == st.permits - {r} && Ends(s, next, i, next.phases[r])
  {
    JudgedTells(s, ReleasePermit(st, r), r, i);
  }

  lemma EndsTold(s: Settings, st: State, i: Inference, phase: Phase)
    requires Ends(s, st, i, phase)
    ensures Told(s, st, i, phase)
  {
  }

  lemma ToldOnMoreRows(s: Settings, st: State, next: State, i: Inference, phase: Phase)
    requires Told(s, st, i, phase) && st.rows <= next.rows
    ensures Told(s, next, i, phase)
  {
    if phase.Ended? && phase.outcome.Returned? && RowStored(st, i, phase.outcome.result) {
      assert RowStored(next, i, phase.outcome.result);
    }
  }

  lemma LockingTells(s: Settings, st: State, step: Step, r: RequestId, i: Inference)
    requires (step.RequestLock? || step.TakeLock?)
    requires r in st.phases && BooksOf(st, r, st.phases[r]) && Told(s, st, i, st.phases[r])
    ensures var next := Advance(s, st, step, r, st.phases[r]);
            next.rows == st.rows && r in next.phases && Told(s, next, i, next.phases[r])
  {
  }

  lemma ReadingTells(s: Settings, st: State, step: Step, r: RequestId, i: Inference)
    requires RowsInOrder(s, st.rows) && step.ReadLatestLocked?
    requires r in st.phases && BooksOf(st, r, st.phases[r]) && Told(s, st, i, st.phases[r])
    ensures var next := Advance(s, st, step, r, st.phases[r]);
            next.rows == st.rows && r in next.phases && Told(s, next, i, next.phases[r])
  {
    LastPassed(s, st.rows);
  }

  lemma WritingTells(s: Settings, st: State, step: Step, r: RequestId, i: Inference)
    requires r in st.phases && step.WriteAttempt? && Told(s, st, i, st.phases[r])
    ensures var next := Advance(s, st, step, r, st.phases[r]);
            next.rows == st.rows && r in next.phases && Told(s, next, i, next.phases[r])
  {
    if st.phases[r].LatestLocked? {
      var submission, number := st.phases[r].submission, st.phases[r].previous + 1;
      RecordTells(s, i, submission, number);
    }
  }

  // What is written for a submission is what its inference means.
  lemma RecordTells(s: Settings, i: Inference, submission: Submission, number: int)
    requires SubmissionTells(s, i, submission)
    ensures ResultTells(i, RecordedResult(submission, number, s.maxAttempts))
    ensures RowTells(i, RowFor(submission, number), RecordedResult(submission, number, s.maxAttempts))
  {
    if submission.comparison.status != Matched {
      ReasonExplains(i, submission.comparison);
    }
  }

  lemma ReasonExplains(i: Inference, comparison: FaceComparisonResult)
    requires ComparisonTells(i, comparison) && comparison.status != Matched
    ensures Explains(i, FailureReason(comparison))
  {
  }

  lemma CommittingTells(s: Settings, st: State, step: Step, r: RequestId, i: Inference)
    requires r in st.phases && step.CommitAttempt? && Told(s, st, i, st.phases[r]) && Guarded(s, st, st.phases[r])
    ensures var next := Advance(s, st, step, r, st.phases[r]);
            st.rows <= next.rows && r in next.phases && Told(s, next, i, next.phases[r])
  {
    if st.phases[r].Written? {
      var next := Advance(s, st, step, r, st.phases[r]);
      assert next.rows[|st.rows|] == st.phases[r].row;
      assert RowStored(next, i, st.phases[r].result);
    }
  }

  lemma ClosingTells(s: Settings, st: State, step: Step, r: RequestId, i: Inference)
    requires (step.Unwind? || step.LoseConnection?)
    requires r in st.phases && BooksOf(st, r, st.phases[r]) && Told(s, st, i, st.phases[r])
    ensures var next := Advance(s, st, step, r, st.phases[r]);
            next.rows == st.rows && r in next.phases && Told(s, next, i, next.phases[r])
  {
  }

  // After its inference a request has left all the other statements behind.
  lemma LeftBehind(s: Settings, st: State, step: Step, r: RequestId, i: Inference)
    requires r in st.phases && Told(s, st, i, st.phases[r])
    requires !step.RequestLock? && !step.TakeLock? && !WorksLocked(step) && !step.CommitAttempt? && !step.Unwind?
             && !step.LoseConnection?
    ensures Advance(s, st, step, r, st.phases[r]) == st
  {
  }

  lemma OwnStepTells(s: Settings, st: State, step: Step, r: RequestId, i: Inference)
    requires r in st.phases && Told(s, st, i, st.phases[r])
    requires BooksOf(st, r, st.phases[r]) && RowsInOrder(s, st.rows) && Guarded(s, st, st.phases[r])
    ensures var next := Advance(s, st, step, r, st.phases[r]);
            r in next.phases && Told(s, next, i, next.phases[r])
  {
    if step.RequestLock? || step.TakeLock? {
      LockingTells(s, st, step, r, i);
    } else if step.ReadLatestLocked? {
      ReadingTells(s, st, step, r, i);
    } else if step.WriteAttempt? {
      WritingTells(s, st, step, r, i);
    } else if step.CommitAttempt? {
      CommittingTells(s, st, step, r, i);
    } else if step.Unwind? || step.LoseConnection? {
      ClosingTells(s, st, step, r, i);
    } else {
      LeftBehind(s, st, step, r, i);
    }
  }

  lemma StepTells(s: Settings, st: State, step: Step, r: RequestId, i: Inference)
    requires Invariant(s, st) && r in st.phases && Told(s, st, i, st.phases[r])
    ensures var next := Apply(s, st, step); r in next.phases && Told(s, next, i, next.phases[r])
  {
    if IsRequestStep(step) && step.r == r {
      assert BooksOf(st, r, st.phases[r]) && Guarded(s, st, st.phases[r]);
      OwnStepTells(s, st, step, r, i);
    } else {
      OthersKeepPhase(s, st, step, r);
      OnlyCommitAddsRows(s, st, step);
      ToldOnMoreRows(s, st, Apply(s, st, step), i, st.phases[r]);
    }
  }

  // ----- what happened to a request on a schedule

  datatype Fact =
    | ArrivedAt(at: Instant)
    | FoundNumber(previous: int)
    | FoundReference(reference: StoredFaceEmbedding)
    | FoundConfig(id: ConfigId, threshold: real)
    | ImageRejected(ticket: Ticket, reason: string)
    | InferenceFinished(inference: Inference)

  // The step shows the fact about request r.
  ghost predicate Shows(s: Settings, st: State, step: Step, r: RequestId, fact: Fact) {
    match fact
    case ArrivedAt(at) => step == Arrive(r, at) && r !in st.phases
    case FoundNumber(previous) =>
      step == Step.ReadLatest(r) && previous == |st.rows| < s.maxAttempts && !SomePassed(st.rows)
    case FoundReference(reference) => step == Step.ReadReference(r) && st.reference == Some(reference)
    case FoundConfig(id, threshold) => step == Step.ReadConfig(r) && VerificationConfig(id, threshold, true) in st.configs
    case ImageRejected(ticket, reason) =>
      step == RejectImage(r, reason) && r in st.phases && st.phases[r] == Queued(ticket)
    case InferenceFinished(inference) => Finishes(st, step, r, inference)
  }

  ghost predicate ShownAt(s: Settings, session: SessionView, steps: seq<Step>, r: RequestId, fact: Fact, k: nat)
    requires k < |steps|
  {
    Shows(s, After(s, session, steps[..k]), steps[k], r, fact)
  }

  ghost predicate Happened(s: Settings, session: SessionView, steps: seq<Step>, r: RequestId, fact: Fact) {
    exists k: nat :: k < |steps| && ShownAt(s, session, steps, r, fact, k)
  }

  lemma ShownEarlier(s: Settings, session: SessionView, steps: seq<Step>, r: RequestId, fact: Fact, k: nat)
    requires k < |steps| - 1
    ensures ShownAt(s, session, steps, r, fact, k) == ShownAt(s, session, steps[..|steps| - 1], r, fact, k)
  {
    assert steps[..|steps| - 1][..k] == steps[..k];
  }

  lemma HappenedGrows(s: Settings, session: SessionView, steps: seq<Step>, r: RequestId, fact: Fact)
    requires steps != [] && Happened(s, session, steps[..|steps| - 1], r, fact)
    ensures Happened(s, session, steps, r, fact)
  {
    var k: nat :| k < |steps| - 1 && ShownAt(s, session, steps[..|steps| - 1], r, fact, k);
    ShownEarlier(s, session, steps, r, fact, k);
  }

  lemma ShownHappened(s: Settings, session: SessionView, steps: seq<Step>, r: RequestId, fact: Fact)
    requires steps != [] && Shows(s, After(s, session, steps[..|steps| - 1]), steps[|steps| - 1], r, fact)
    ensures Happened(s, session, steps, r, fact)
  {
    assert ShownAt(s, session, steps, r, fact, |steps| - 1);
  }

  lemma HappenedOrShown(s: Settings, session: SessionView, steps: seq<Step>, r: RequestId, fact: Fact)
    requires Happened(s, session, steps, r, fact)
    ensures steps != []
    ensures var front := steps[..|steps| - 1];
            Happened(s, session, front, r, fact) || Shows(s, After(s, session, front), steps[|steps| - 1], r, fact)
  {
    var k: nat :| k < |steps| && ShownAt(s, session, steps, r, fact, k);
    if k < |steps| - 1 {
      ShownEarlier(s, session, steps, r, fact, k);
    }
  }

  // A ticket holds the instant the request arrived and what its snapshot's statements read.
  ghost predicate WasRead(s: Settings, session: SessionView, steps: seq<Step>, r: RequestId, ticket: Ticket) {
    && Happened(s, session, steps, r, ArrivedAt(ticket.receivedAt))
    && Happened(s, session, steps, r, FoundNumber(ticket.previous))
    && Happened(s, session, steps, r, FoundReference(ticket.reference))
    && Happened(s, session, steps, r, FoundConfig(ticket.configId, ticket.threshold))
  }

  // ----- a ticket is what its request read

  // What a request has read by the time it stands at a phase.
  ghost predicate Carries(s: Settings, session: SessionView, steps: seq<Step>, r: RequestId, phase: Phase) {
    match phase
    case Received(at) => Happened(s, session, steps, r, ArrivedAt(at))
    case ContextRead(at) => Happened(s, session, steps, r, ArrivedAt(at))
    case LatestRead(at, previous) =>
      && Happened(s, session, steps, r, ArrivedAt(at))
      && Happened(s, session, steps, r, FoundNumber(previous))
    case ReferenceRead(at, previous, reference) =>
      && Happened(s, session, steps, r, ArrivedAt(at))
      && Happened(s, session, steps, r, FoundNumber(previous))
      && Happened(s, session, steps, r, FoundReference(reference))
    case ConfigRead(ticket) => WasRead(s, session, steps, r, ticket)
    case Queued(ticket) => WasRead(s, session, steps, r, ticket)
    case Inferring(ticket) => WasRead(s, session, steps, r, ticket)
    case _ => true
  }

  // What a step of the snapshot adds to what the request carries.
  ghost predicate Adds(s: Settings, st: State, step: Step, r: RequestId, phase: Phase, next: Phase) {
    match next
    case ContextRead(at) => phase == Received(at)
    case LatestRead(at, previous) => phase == ContextRead(at) && Shows(s, st, step, r, FoundNumber(previous))
    case ReferenceRead(at, previous, reference) =>
      phase == LatestRead(at, previous) && Shows(s, st, step, r, FoundReference(reference))
    case ConfigRead(ticket) =>
      && phase == ReferenceRead(ticket.receivedAt, ticket.previous, ticket.reference)
      && Shows(s, st, step, r, FoundConfig(ticket.configId, ticket.threshold))
    case Queued(ticket) => phase == ConfigRead(ticket)
    case Inferring(ticket) => phase == Queued(ticket)
    case Received(_) => false
    case _ => true
  }

  lemma ReadingAdds(s: Settings, st: State, step: Step, r: RequestId)
    requires r in st.phases && RowsInOrder(s, st.rows) && step.ReadLatest? && step.r == r
    ensures var next := Advance(s, st, step, r, st.phases[r]);
            r in next.phases && (next == st || Adds(s, st, step, r, st.phases[r], next.phases[r]))
  {
    LastPassed(s, st.rows);
  }

  lemma ConfigAdds(s: Settings, st: State, step: Step, r: RequestId)
    requires r in st.phases && step.ReadConfig? && step.r == r
    ensures var next := Advance(s, st, step, r, st.phases[r]);
            r in next.phases && (next == st || Adds(s, st, step, r, st.phases[r], next.phases[r]))
  {
    GetActiveSound(st.configs);
    if GetActive(st.configs).Some? {
      var config := GetActive(st.configs).value;
      assert config == VerificationConfig(config.id, config.similarityThreshold, true);
    }
  }

  lemma SnapshotAdds(s: Settings, st: State, step: Step, r: RequestId)
    requires step.ReadContext? || step.ReadReference? || step.EndSnapshot? || step.AcquirePermit? || SkipsInference(step)
    requires r in st.phases && step.r == r
    ensures var next := Advance(s, st, step, r, st.phases[r]);
            r in next.phases && (next == st || Adds(s, st, step, r, st.phases[r], next.phases[r]))
  {
  }

  lemma JudgeAddsNothing(st: State, r: RequestId, ticket: Ticket, compared: Result<FaceComparisonResult, ComparisonError>)
    ensures var next := Judge(st, r, ticket, compared);
            r in next.phases && (next.phases[r].Compared? || next.phases[r].Unwinding? || next.phases[r].Ended?)
  {
  }

  lemma InferenceAddsNothing(s: Settings, st: State, step: Step, r: RequestId)
    requires r in st.phases && step.FinishInference?
    ensures var next := Advance(s, st, step, r, st.phases[r]);
            r in next.phases && (next == st || Adds(s, st, step, r, st.phases[r], next.phases[r]))
  {
    if st.phases[r].Inferring? {
      var ticket := st.phases[r].ticket;
      JudgeAddsNothing(ReleasePermit(st, r), r, ticket,
                       Compare(ticket.reference, s.modelVersion, step.analysis, ticket.threshold,
                               step.referenceMagnitude, step.capturedMagnitude));
    }
  }

  lemma LockingAddsNothing(s: Settings, st: State, step: Step, r: RequestId)
    requires r in st.phases && (step.RequestLock? || step.TakeLock?)
    ensures var next := Advance(s, st, step, r, st.phases[r]);
            r in next.phases && (next == st || Adds(s, st, step, r, st.phases[r], next.phases[r]))
  {
  }

  lemma RecordingAddsNothing(s: Settings, st: State, step: Step, r: RequestId)
    requires r in st.phases
    requires WorksLocked(step) || step.CommitAttempt? || step.Unwind? || step.LoseConnection?
    ensures var next := Advance(s, st, step, r, st.phases[r]);
            r in next.phases && (next == st || Adds(s, st, step, r, st.phases[r], next.phases[r]))
  {
  }

  lemma OwnStepAdds(s: Settings, st: State, step: Step, r: RequestId)
    requires r in st.phases && RowsInOrder(s, st.rows) && IsRequestStep(step) && step.r == r
    ensures var next := Advance(s, st, step, r, st.phases[r]);
            r in next.phases && (next == st || Adds(s, st, step, r, st.phases[r], next.phases[r]))
  {
    if step.ReadLatest? {
      ReadingAdds(s, st, step, r);
    } else if step.ReadConfig? {
      ConfigAdds(s, st, step, r);
    } else if step.ReadContext? || step.ReadReference? || step.EndSnapshot? || step.AcquirePermit? || SkipsInference(step) {
      SnapshotAdds(s, st, step, r);
    } else if step.FinishInference? {
      InferenceAddsNothing(s, st, step, r);
    } else if step.RequestLock? || step.TakeLock? {
      LockingAddsNothing(s, st, step, r);
    } else {
      RecordingAddsNothing(s, st, step, r);
    }
  }

  lemma CarriesOn(s: Settings, session: SessionView, steps: seq<Step>, r: RequestId, phase: Phase)
    requires steps != [] && Carries(s, session, steps[..|steps| - 1], r, phase)
    ensures Carries(s, session, steps, r, phase)
  {
    forall fact | Happened(s, session, steps[..|steps| - 1], r, fact) ensures Happened(s, session, steps, r, fact) {
      HappenedGrows(s, session, steps, r, fact);
    }
  }

  lemma AddsCarries(s: Settings, session: SessionView, steps: seq<Step>, r: RequestId, phase: Phase, next: Phase)
    requires steps != [] && Carries(s, session, steps[..|steps| - 1], r, phase)
    requires Adds(s, After(s, session, steps[..|steps| - 1]), steps[|steps| - 1], r, phase, next)
    ensures Carries(s, session, steps, r, next)
  {
    CarriesOn(s, session, steps, r, phase);
    var st, step := After(s, session, steps[..|steps| - 1]), steps[|steps| - 1];
    forall fact | Shows(s, st, step, r, fact) ensures Happened(s, session, steps, r, fact) {
      ShownHappened(s, session, steps, r, fact);
    }
  }

  lemma {:induction false} TicketsAreRead(s: Settings, session: SessionView, steps: seq<Step>, r: RequestId)
    requires ValidSettings(s) && r in After(s, session, steps).phases
    ensures Carries(s, session, steps, r, After(s, session, steps).phases[r])
  {
    var front, step := steps[..|steps| - 1], steps[|steps| - 1];
    var st := After(s, session, front);
    ScheduleInvariant(s, session, front);
    if r !in st.phases {
      NewPhase(s, st, step, r);
      ArrivalShows(s, st, step, r);
      ShownHappened(s, session, steps, r, ArrivedAt(Apply(s, st, step).phases[r].at));
    } else {
      TicketsAreRead(s, session, front, r);
      if IsRequestStep(step) && step.r == r {
        OwnStepAdds(s, st, step, r);
        if Advance(s, st, step, r, st.phases[r]) == st {
          CarriesOn(s, session, steps, r, st.phases[r]);
        } else {
          AddsCarries(s, session, steps, r, st.phases[r], Apply(s, st, step).phases[r]);
        }
      } else {
        OthersKeepPhase(s, st, step, r);
        CarriesOn(s, session, steps, r, st.phases[r]);
      }
    }
  }

  lemma ArrivalShows(s: Settings, st: State, step: Step, r: RequestId)
    requires Books(s, st) && r !in st.phases && r in Apply(s, st, step).phases && Apply(s, st, step).phases[r].Received?
    ensures Shows(s, st, step, r, ArrivedAt(Apply(s, st, step).phases[r].at))
  {
    if IsRequestStep(step) && step.r in st.phases {
      RequestTouchesItself(s, st, step, step.r);
    }
  }

  // ----- the answers of every schedule

  // A statement about request r that stays true on every longer schedule.
  lemma {:induction false} ReadingsStay(s: Settings, session: SessionView, steps: seq<Step>, r: RequestId, ticket: Ticket)
    requires ValidSettings(s)
    requires exists fact :: Speaks(fact, ticket) && Happened(s, session, steps, r, fact)
    ensures WasRead(s, session, steps, r, ticket)
  {
    var fact :| Speaks(fact, ticket) && Happened(s, session, steps, r, fact);
    var front := steps[..|steps| - 1];
    HappenedOrShown(s, session, steps, r, fact);
    if Happened(s, session, front, r, fact) {
      ReadingsStay(s, session, front, r, ticket);
    } else {
      TicketsAreRead(s, session, front, r);
    }
    CarriesOn(s, session, steps, r, Queued(ticket));
  }

  // The fact is about the comparison that started with the ticket.
  ghost predicate Speaks(fact: Fact, ticket: Ticket) {
    match fact
    case ImageRejected(other, _) => other == ticket
    case InferenceFinished(inference) => inference.ticket == ticket
    case _ => false
  }

  lemma {:induction false} InferencesAreTold(s: Settings, session: SessionView, steps: seq<Step>, r: RequestId, i: Inference)
    requires ValidSettings(s) && Happened(s, session, steps, r, InferenceFinished(i))
    ensures r in After(s, session, steps).phases
    ensures Told(s, After(s, session, steps), i, After(s, session, steps).phases[r])
  {
    HappenedOrShown(s, session, steps, r, InferenceFinished(i));
    var front, step := steps[..|steps| - 1], steps[|steps| - 1];
    var st := After(s, session, front);
    ScheduleInvariant(s, session, front);
    if Happened(s, session, front, r, InferenceFinished(i)) {
      InferencesAreTold(s, session, front, r, i);
      StepTells(s, st, step, r, i);
    } else {
      assert BooksOf(st, r, st.phases[r]) && Sourced(st, st.phases[r]);
      FinishedTells(s, st, step, r, i);
      EndsTold(s, Apply(s, st, step), i, Apply(s, st, step).phases[r]);
    }
  }

  /** What a finished inference means for its call, on every schedule and whatever the others do.
      The call may still be raised out of or find the attempts used up; any other answer has the
      status of the engine's result (no face, several faces, low quality), or passed or failed as
      the cosine of the stored and the captured embedding reaches the threshold that was read, and
      its row is in the table. An image the engine could not read, and an embedding that does not
      fit the reference, are answered with their own status, the number that was read, and another
      try; the comparison of a zero vector raises. */
  lemma InferenceDeterminesAnswer(s: Settings, session: SessionView, steps: seq<Step>, r: RequestId, i: Inference)
    requires ValidSettings(s) && Happened(s, session, steps, r, InferenceFinished(i))
    ensures WasRead(s, session, steps, r, i.ticket)
    ensures var st := After(s, session, steps);
            r in st.phases && (st.phases[r].Ended? ==> OutcomeTells(s, st, i, st.phases[r].outcome))
  {
    InferencesAreTold(s, session, steps, r, i);
    assert Speaks(InferenceFinished(i), i.ticket);
    ReadingsStay(s, session, steps, r, i.ticket);
  }

  // ----- captures that use up no attempt

  lemma RejectedEnds(s: Settings, st: State, r: RequestId, ticket: Ticket, reason: string)
    requires r !in st.transactions && r in st.phases && st.phases[r] == Queued(ticket) && 0.0 <= ticket.threshold <= 1.0
    ensures Apply(s, st, RejectImage(r, reason))
         == st.(phases := st.phases[r := Ended(Unused(ticket, ProcessingFailedStatus, None))])
  {
  }

  lemma {:induction false} EndedForGood(s: Settings, st: State, r: RequestId, later: seq<Step>)
    requires Invariant(s, st) && r in st.phases && st.phases[r].Ended?
    ensures r in Run(s, st, later).phases && Run(s, st, later).phases[r] == st.phases[r]
    decreases |later|
  {
    if later != [] {
      if !(IsRequestStep(later[0]) && later[0].r == r) {
        OthersKeepPhase(s, st, later[0], r);
      }
      StepKeepsInvariant(s, st, later[0]);
      EndedForGood(s, Apply(s, st, later[0]), r, later[1..]);
    }
  }

  /** An image that cannot be decoded ends its call at once and for good, before the queue of the
      engine: `processing_failed`, the number its snapshot read, another try, and nothing else in
      the database or the engine is different. */
  lemma RejectedImageEndsTheCall(s: Settings, session: SessionView, steps: seq<Step>, r: RequestId, ticket: Ticket,
                                 reason: string, later: seq<Step>)
    requires ValidSettings(s)
    requires r in After(s, session, steps).phases && After(s, session, steps).phases[r] == Queued(ticket)
    ensures var st, next := After(s, session, steps), Apply(s, After(s, session, steps), RejectImage(r, reason));
            var end := Ended(Returned(VerificationResult(ProcessingFailedStatus, ticket.previous, true, None,
                                                         Some(ticket.threshold), None)));
            && next == st.(phases := st.phases[r := end])
            && r in Run(s, next, later).phases && Run(s, next, later).phases[r] == end
  {
    ScheduleInvariant(s, session, steps);
    var st := After(s, session, steps);
    assert BooksOf(st, r, st.phases[r]) && Sourced(st, st.phases[r]);
    RejectedEnds(s, st, r, ticket, reason);
    StepKeepsInvariant(s, st, RejectImage(r, reason));
    EndedForGood(s, Apply(s, st, RejectImage(r, reason)), r, later);
  }

  /** So does an inference that found no readable face, or one whose embedding does not fit the
      reference: the answer has the status of that name, the number the snapshot read and another
      try, the permit goes back, and rows, parent and row lock stay as they were. */
  lemma UnusableCaptureEndsTheCall(s: Settings, session: SessionView, steps: seq<Step>, step: Step, r: RequestId,
                                   i: Inference, later: seq<Step>)
    requires ValidSettings(s) && Finishes(After(s, session, steps), step, r, i)
    requires i.analysis.status == ProcessingFailed || (i.analysis.status == Success && !Fits(s, i))
    ensures var st, next := After(s, session, steps), Apply(s, After(s, session, steps), step);
            var status := if i.analysis.status == ProcessingFailed then ProcessingFailedStatus else ModelMismatchStatus;
            var end := Ended(Returned(VerificationResult(status, i.ticket.previous, true, None,
                                                         Some(i.ticket.threshold), i.analysis.detectionConfidence)));
            && next == st.(phases := st.phases[r := end], permits := st.permits - {r}, freePermits := st.freePermits + 1)
            && r in Run(s, next, later).phases && Run(s, next, later).phases[r] == end
  {
    ScheduleInvariant(s, session, steps);
    var st := After(s, session, steps);
    assert BooksOf(st, r, st.phases[r]) && Sourced(st, st.phases[r]);
    FinishedTells(s, st, step, r, i);
    StepKeepsInvariant(s, st, step);
    EndedForGood(s, Apply(s, st, step), r, later);
    assert r in st.permits;
  }

  // ----- every answer has a cause

  predicate AfterInference(phase: Phase) {
    phase.Compared? || phase.LockRequested? || phase.ContextLocked? || phase.LatestLocked? || phase.Written?
  }

  // A decision that comes from no inference: an exception, or the attempts are used up.
  ghost predicate Refuses(s: Settings, phase: Phase) {
    (phase.Unwinding? || phase.Ended?) && (phase.outcome.Raised? || phase.outcome == UsedUp(s))
  }

  // The next phase needs no cause of its own.
  ghost predicate NeedsNoCause(s: Settings, phase: Phase, next: Phase) {
    || SnapshotPhase(next) || AfterInference(phase) || Refuses(s, next)
    || (phase.Unwinding? && next == Ended(phase.outcome))
  }

  predicate SnapshotPhase(phase: Phase) {
    || phase.Received? || phase.ContextRead? || phase.LatestRead? || phase.ReferenceRead? || phase.ConfigRead?
    || phase.Queued? || phase.Inferring?
  }

  lemma ReadsNeedNoCause(s: Settings, st: State, step: Step, r: RequestId)
    requires r in st.phases && RowsInOrder(s, st.rows) && (step.ReadLatest? || step.ReadLatestLocked?)
    ensures var next := Advance(s, st, step, r, st.phases[r]);
            r in next.phases && (next == st || NeedsNoCause(s, st.phases[r], next.phases[r]))
  {
    LastPassed(s, st.rows);
  }

  lemma SnapshotNeedsNoCause(s: Settings, st: State, step: Step, r: RequestId)
    requires r in st.phases
    requires step.ReadContext? || step.ReadReference? || step.ReadConfig? || step.EndSnapshot? || step.AcquirePermit?
             || step.QueueTimeout?
    ensures var next := Advance(s, st, step, r, st.phases[r]);
            r in next.phases && (next == st || NeedsNoCause(s, st.phases[r], next.phases[r]))
  {
  }

  lemma RecordingNeedsNoCause(s: Settings, st: State, step: Step, r: RequestId)
    requires r in st.phases
    requires step.RequestLock? || step.TakeLock? || step.WriteAttempt? || step.CommitAttempt? || step.Unwind?
             || step.LoseConnection?
    ensures var next := Advance(s, st, step, r, st.phases[r]);
            r in next.phases && (next == st || NeedsNoCause(s, st.phases[r], next.phases[r]))
  {
  }

  // A request step needs no cause, or it is the rejection or the inference itself.
  lemma OwnStepHasCause(s: Settings, st: State, step: Step, r: RequestId)
    requires r in st.phases && RowsInOrder(s, st.rows) && IsRequestStep(step) && step.r == r
    ensures var next := Advance(s, st, step, r, st.phases[r]);
            || next == st
            || (r in next.phases && NeedsNoCause(s, st.phases[r], next.phases[r]))
            || (step.RejectImage? && st.phases[r].Queued?)
            || (exists i :: Finishes(st, step, r, i))
  {
    if step.ReadLatest? || step.ReadLatestLocked? {
      ReadsNeedNoCause(s, st, step, r);
    } else if step.RequestLock? || step.TakeLock? || step.WriteAttempt? || step.CommitAttempt? || step.Unwind?
              || step.LoseConnection? {
      RecordingNeedsNoCause(s, st, step, r);
    } else if step.FinishInference? {
      if Advance(s, st, step, r, st.phases[r]) != st {
        assert Finishes(st, step, r, Inference(st.phases[r].ticket, step.analysis, step.referenceMagnitude, step.capturedMagnitude));
      }
    } else if !step.RejectImage? {
      SnapshotNeedsNoCause(s, st, step, r);
    }
  }

  ghost predicate Inferred(s: Settings, session: SessionView, steps: seq<Step>, r: RequestId) {
    exists i :: Happened(s, session, steps, r, InferenceFinished(i))
  }

  ghost predicate Rejected(s: Settings, session: SessionView, steps: seq<Step>, r: RequestId, outcome: Outcome) {
    exists ticket, reason ::
      Happened(s, session, steps, r, ImageRejected(ticket, reason)) && outcome == Unused(ticket, ProcessingFailedStatus, None)
  }

  ghost predicate Caused(s: Settings, session: SessionView, steps: seq<Step>, r: RequestId, phase: Phase) {
    || SnapshotPhase(phase) || Refuses(s, phase) || Inferred(s, session, steps, r)
    || ((phase.Unwinding? || phase.Ended?) && Rejected(s, session, steps, r, phase.outcome))
  }

  lemma CausedOn(s: Settings, session: SessionView, steps: seq<Step>, r: RequestId, phase: Phase)
    requires steps != [] && Caused(s, session, steps[..|steps| - 1], r, phase)
    ensures Caused(s, session, steps, r, phase)
  {
    var front := steps[..|steps| - 1];
    if Inferred(s, session, front, r) {
      var i :| Happened(s, session, front, r, InferenceFinished(i));
      HappenedGrows(s, session, steps, r, InferenceFinished(i));
    } else if !SnapshotPhase(phase) && !Refuses(s, phase) {
      var ticket, reason :|
        Happened(s, session, front, r, ImageRejected(ticket, reason))
        && phase.outcome == Unused(ticket, ProcessingFailedStatus, None);
      HappenedGrows(s, session, steps, r, ImageRejected(ticket, reason));
    }
  }

  lemma CausedNext(s: Settings, session: SessionView, steps: seq<Step>, r: RequestId, phase: Phase, next: Phase)
    requires Caused(s, session, steps, r, phase) && NeedsNoCause(s, phase, next)
    ensures Caused(s, session, steps, r, next)
  {
  }

  lemma OwnStepCaused(s: Settings, session: SessionView, steps: seq<Step>, r: RequestId)
    requires steps != []
    requires var st := After(s, session, steps[..|steps| - 1]);
             Invariant(s, st) && r in st.phases && Caused(s, session, steps[..|steps| - 1], r, st.phases[r])
    requires IsRequestStep(steps[|steps| - 1]) && steps[|steps| - 1].r == r
    ensures var now := After(s, session, steps); r in now.phases && Caused(s, session, steps, r, now.phases[r])
  {
    var st, step := After(s, session, steps[..|steps| - 1]), steps[|steps| - 1];
    var next := Apply(s, st, step);
    RequestKeepsItsBooks(s, st, step, r);
    OwnStepHasCause(s, st, step, r);
    if step.RejectImage? && st.phases[r].Queued? {
      assert BooksOf(st, r, st.phases[r]) && Sourced(st, st.phases[r]);
      RejectedEnds(s, st, r, st.phases[r].ticket, step.reason);
      ShownHappened(s, session, steps, r, ImageRejected(st.phases[r].ticket, step.reason));
    } else if exists i :: Finishes(st, step, r, i) {
      var i :| Finishes(st, step, r, i);
      ShownHappened(s, session, steps, r, InferenceFinished(i));
    } else {
      CausedOn(s, session, steps, r, st.phases[r]);
      if next != st {
        CausedNext(s, session, steps, r, st.phases[r], next.phases[r]);
      }
    }
  }

  lemma {:induction false} CallsAreCaused(s: Settings, session: SessionView, steps: seq<Step>, r: RequestId)
    requires ValidSettings(s) && r in After(s, session, steps).phases
    ensures Caused(s, session, steps, r, After(s, session, steps).phases[r])
  {
    var front, step := steps[..|steps| - 1], steps[|steps| - 1];
    var st := After(s, session, front);
    ScheduleInvariant(s, session, front);
    if r !in st.phases {
      NewPhase(s, st, step, r);
    } else {
      CallsAreCaused(s, session, front, r);
      if IsRequestStep(step) && step.r == r {
        OwnStepCaused(s, session, steps, r);
      } else {
        OthersKeepPhase(s, st, step, r);
        CausedOn(s, session, steps, r, st.phases[r]);
      }
    }
  }

  ghost predicate Answered(s: Settings, session: SessionView, steps: seq<Step>, r: RequestId, result: VerificationResult) {
    var st := After(s, session, steps);
    r in st.phases && st.phases[r] == Ended(Returned(result))
  }

  /** Where an answer comes from: the attempts are used up, the request's own image was rejected, or
      its own inference was finished; in the last two cases with what its own snapshot had read. */
  lemma AnswerHasItsCause(s: Settings, session: SessionView, steps: seq<Step>, r: RequestId, result: VerificationResult)
    requires ValidSettings(s) && Answered(s, session, steps, r, result)
    ensures || result == VerificationResult(AttemptLimitReached, s.maxAttempts, false, None, None, None)
            || (exists ticket, reason ::
                  && Happened(s, session, steps, r, ImageRejected(ticket, reason)) && WasRead(s, session, steps, r, ticket)
                  && Returned(result) == Unused(ticket, ProcessingFailedStatus, None))
            || (exists i ::
                  && Happened(s, session, steps, r, InferenceFinished(i)) && WasRead(s, session, steps, r, i.ticket)
                  && OutcomeTells(s, After(s, session, steps), i, Returned(result)))
  {
    CallsAreCaused(s, session, steps, r);
    if Inferred(s, session, steps, r) {
      var i :| Happened(s, session, steps, r, InferenceFinished(i));
      InferenceDeterminesAnswer(s, session, steps, r, i);
    } else if Rejected(s, session, steps, r, Returned(result)) {
      var ticket, reason :|
        Happened(s, session, steps, r, ImageRejected(ticket, reason))
        && Returned(result) == Unused(ticket, ProcessingFailedStatus, None);
      assert Speaks(ImageRejected(ticket, reason), ticket);
      ReadingsStay(s, session, steps, r, ticket);
    }
  }

  ghost predicate ScoreDecides(result: VerificationResult) {
    && (result.similarityScore.Some? ==> result.similarityThreshold.Some?)
    && (result.status == PassedStatus <==>
          result.similarityScore.Some? && result.similarityScore.value >= result.similarityThreshold.value)
    && (result.status == FailedStatus <==>
          result.similarityScore.Some? && result.similarityScore.value < result.similarityThreshold.value)
  }

  lemma InferredScoreDecides(s: Settings, st: State, i: Inference, result: VerificationResult)
    requires OutcomeTells(s, st, i, Returned(result))
    ensures ScoreDecides(result)
  {
  }

  /** The answer is what its score says: on every schedule a call passes exactly when its score
      reaches the threshold it reports, and fails exactly when its score stays below it. */
  lemma ScoreDecidesAnswer(s: Settings, session: SessionView, steps: seq<Step>, r: RequestId, result: VerificationResult)
    requires ValidSettings(s) && Answered(s, session, steps, r, result)
    ensures ScoreDecides(result)
  {
    AnswerHasItsCause(s, session, steps, r, result);
    if exists i :: OutcomeTells(s, After(s, session, steps), i, Returned(result)) {
      var i :| OutcomeTells(s, After(s, session, steps), i, Returned(result));
      InferredScoreDecides(s, After(s, session, steps), i, result);
    }
  }

  // ----- the answer of one call to the image it was given

  // What the comparison of an analysis is about.
  ghost predicate ComparisonOf(analysis: FaceAnalysisResult, comparison: FaceComparisonResult) {
    && comparison.detectionConfidence == analysis.detectionConfidence
    && match analysis.status
       case NoFace => comparison.status == CapturedNoFace
       case MultipleFaces => comparison.status == CapturedMultipleFaces
       case LowQuality => comparison.status == CapturedLowQuality
       case ProcessingFailed => comparison.status == CaptureFailed
       case Success => comparison.status in {Matched, NotMatched, ModelMismatch}
  }

  // The answer that goes with a comparison.
  ghost predicate AnswersComparison(comparison: FaceComparisonResult, result: VerificationResult) {
    && result.detectionConfidence == comparison.detectionConfidence
    && match comparison.status
       case Matched => result.status == PassedStatus
       case NotMatched => result.status == FailedStatus
       case CapturedNoFace => result.status == NoFaceStatus
       case CapturedMultipleFaces => result.status == MultipleFacesStatus
       case CapturedLowQuality => result.status == LowQualityStatus
       case CaptureFailed => result.status == ProcessingFailedStatus
       case ModelMismatch => result.status == ModelMismatchStatus
  }

  // An exception, or the attempts are used up.
  predicate IsRefusal(outcome: Outcome) {
    outcome.Raised? || outcome.result.status == AttemptLimitReached
  }

  // Used-up attempts, or what the image shows.
  ghost predicate AnswersTo(decodable: bool, analysis: FaceAnalysisResult, result: VerificationResult) {
    || result.status == AttemptLimitReached
    || (!decodable && result.status == ProcessingFailedStatus && result.detectionConfidence == None)
    || (&& decodable && result.detectionConfidence == analysis.detectionConfidence
        && match analysis.status
           case NoFace => result.status == NoFaceStatus
           case MultipleFaces => result.status == MultipleFacesStatus
           case LowQuality => result.status == LowQualityStatus
           case ProcessingFailed => result.status == ProcessingFailedStatus
           case Success => result.status in {PassedStatus, FailedStatus, ModelMismatchStatus})
  }

  lemma ComparesAnalysis(reference: StoredFaceEmbedding, modelVersion: string, analysis: FaceAnalysisResult,
                         threshold: real, mr: real, mc: real)
    ensures var c := Compare(reference, modelVersion, analysis, threshold, mr, mc); c.Ok? ==> ComparisonOf(analysis, c.value)
  {
  }

  lemma AnswersThrough(analysis: FaceAnalysisResult, comparison: FaceComparisonResult, outcome: Outcome)
    requires ComparisonOf(analysis, comparison)
    requires IsRefusal(outcome) || AnswersComparison(comparison, outcome.result)
    ensures outcome.Returned? ==> AnswersTo(true, analysis, outcome.result)
  {
  }
}
