/** The records of one student's face verification in one attendance session, and
    the pure decisions `verify` takes over them (attendance_face_verification_service.py,
    attendance_face_verification_repository.py, face_validation_attempt.py).
    Instants are UTC instants on one integer scale. */
module FaceAttemptRules {
  import opened Wrappers
  import opened FaceComparison
  import opened VerificationConfigs

  type Instant = int

  datatype AttemptStatus = InProgress | CheckedIn | Failed

  // The parent row in verification_attempts that Core owns.
  datatype ParentAttempt = ParentAttempt(status: AttemptStatus, failureReason: Option<string>,
                                         completedAt: Option<Instant>)

  // Everything a context query reads from tables other than the parent row.
  datatype SessionView = SessionView(
    status: string,
    requiresFace: bool,
    requiresGeofence: bool,
    geofenceWaived: bool,
    latestGeofence: Option<string>,
    checkInOpensAt: Option<Instant>,
    checkInClosesAt: Option<Instant>,
    closedAt: Option<Instant>,
    cancelledAt: Option<Instant>)

  datatype VerifyError =
    | AttemptNotStarted | GeofencePending                                  // VerificationNotStartedError
    | AttemptClosed | SessionUnavailable | WindowClosed | AlreadyPassed    // VerificationClosedError
    | NoReferenceProfile | NoActiveConfig                                  // ...UnavailableError
    | InferenceBusy                                                        // ...BusyError
    | ComparisonRaised | ConnectionLost                                    // anything else that escapes

  datatype VerificationStatus = PassedStatus | FailedStatus | NoFaceStatus | MultipleFacesStatus | LowQualityStatus
                              | ProcessingFailedStatus | ModelMismatchStatus | AttemptLimitReached

  datatype VerificationResult = VerificationResult(
    status: VerificationStatus,
    attemptNumber: int,
    canRetry: bool,
    similarityScore: Option<real>,
    similarityThreshold: Option<real>,
    detectionConfidence: Option<real>)

  datatype ValidationStatus = RowPassed | RowFailed

  // One row of face_validation_attempts.
  datatype AttemptRow = AttemptRow(
    attemptNumber: int,
    faceProfileId: ProfileId,
    livenessPassed: bool,
    qualityPassed: bool,
    similarityScore: Option<real>,
    configId: ConfigId,
    validationStatus: ValidationStatus,
    failureReason: Option<string>,
    capturedAt: Instant,
    validatedAt: Option<Instant>)

  // A finished comparison on its way to the locked section.
  datatype Submission = Submission(receivedAt: Instant, profileId: ProfileId, configId: ConfigId,
                                   comparison: FaceComparisonResult)

  const LIMIT_REASON := "FACE_ATTEMPT_LIMIT_REACHED"

  // ----- _validate_context

  function ValidateContext(parent: Option<ParentAttempt>, session: SessionView, at: Instant): Option<VerifyError> {
    if parent.None? then Some(AttemptNotStarted)
    else if parent.value.status != InProgress then Some(AttemptClosed)
    else if session.requiresGeofence && !session.geofenceWaived && session.latestGeofence != Some("passed") then
      Some(GeofencePending)
    else if session.status != "active" || session.closedAt.Some? || session.cancelledAt.Some? || !session.requiresFace then
      Some(SessionUnavailable)
    else if session.checkInOpensAt.None? || session.checkInClosesAt.None?
            || at < session.checkInOpensAt.value || at >= session.checkInClosesAt.value then
      Some(WindowClosed)
    else None
  }

  // What the check-in rules ask of a session at an instant.
  ghost predicate OpenFor(session: SessionView, at: Instant) {
    GeofenceSettled(session) && TakesFaces(session) && InWindow(session, at)
  }

  ghost predicate GeofenceSettled(session: SessionView) {
    session.requiresGeofence ==> session.geofenceWaived || session.latestGeofence == Some("passed")
  }

  ghost predicate TakesFaces(session: SessionView) {
    session.status == "active" && session.closedAt == None && session.cancelledAt == None && session.requiresFace
  }

  ghost predicate InWindow(session: SessionView, at: Instant) {
    && session.checkInOpensAt.Some? && session.checkInClosesAt.Some?
    && session.checkInOpensAt.value <= at < session.checkInClosesAt.value
  }

  ghost predicate ParentOpen(parent: Option<ParentAttempt>) {
    parent.Some? && parent.value.status == InProgress
  }

  /** A request is let through exactly when the parent is in progress and the session
      is open at the instant it arrived. A refusal names the first of these that fails: the
      parent, then the geofence, then the session itself, then its check-in window. */
  lemma ContextAccepted(parent: Option<ParentAttempt>, session: SessionView, at: Instant)
    ensures ValidateContext(parent, session, at).None? <==> ParentOpen(parent) && OpenFor(session, at)
    ensures ValidateContext(parent, session, at) == Some(AttemptNotStarted) <==> parent.None?
    ensures ValidateContext(parent, session, at) == Some(AttemptClosed) <==> parent.Some? && !ParentOpen(parent)
    ensures ValidateContext(parent, session, at) == Some(GeofencePending)
       <==> ParentOpen(parent) && !GeofenceSettled(session)
    ensures ValidateContext(parent, session, at) == Some(SessionUnavailable)
       <==> ParentOpen(parent) && GeofenceSettled(session) && !TakesFaces(session)
    ensures ValidateContext(parent, session, at) == Some(WindowClosed)
       <==> ParentOpen(parent) && GeofenceSettled(session) && TakesFaces(session) && !InWindow(session, at)
  {
  }

  // ----- the latest attempt: the row with the greatest number

  function Latest(rows: seq<AttemptRow>): Option<AttemptRow> {
    if rows == [] then None
    else
      var rest := Latest(rows[..|rows| - 1]);
      var row := rows[|rows| - 1];
      if rest.Some? && rest.value.attemptNumber > row.attemptNumber then rest else Some(row)
  }

  function PreviousNumber(latest: Option<AttemptRow>): int {
    if latest.Some? then latest.value.attemptNumber else 0
  }

  ghost predicate Contiguous(rows: seq<AttemptRow>) {
    forall i :: 0 <= i < |rows| ==> rows[i].attemptNumber == i + 1
  }

  ghost predicate SomePassed(rows: seq<AttemptRow>) {
    exists i :: 0 <= i < |rows| && rows[i].validationStatus == RowPassed
  }

  ghost predicate OnlyLastPassed(rows: seq<AttemptRow>) {
    forall i :: 0 <= i < |rows| - 1 ==> rows[i].validationStatus == RowFailed
  }

  lemma {:induction false} LatestIsLast(rows: seq<AttemptRow>)
    requires Contiguous(rows)
    ensures Latest(rows) == if rows == [] then None else Some(rows[|rows| - 1])
    ensures PreviousNumber(Latest(rows)) == |rows|
  {
    if rows != [] {
      LatestIsLast(rows[..|rows| - 1]);
    }
  }

  // ----- the row, the parent's closing update and the answer

  predicate Consumes(status: FaceComparisonStatus) {
    status in {Matched, NotMatched, CapturedNoFace, CapturedMultipleFaces, CapturedLowQuality}
  }

  function StatusForComparison(status: FaceComparisonStatus): VerificationStatus {
    match status
    case Matched => PassedStatus
    case NotMatched => FailedStatus
    case CapturedNoFace => NoFaceStatus
    case CapturedMultipleFaces => MultipleFacesStatus
    case CapturedLowQuality => LowQualityStatus
    case CaptureFailed => ProcessingFailedStatus
    case ModelMismatch => ModelMismatchStatus
  }

  function QualityPassed(comparison: FaceComparisonResult): bool {
    comparison.status in {Matched, NotMatched}
  }

  function FailureReason(comparison: FaceComparisonResult): string {
    var reason := if comparison.failureReason.Some? && comparison.failureReason.value != ""
                  then comparison.failureReason.value
                  else StatusValue(comparison.status);
    if |reason| <= 100 then reason else reason[..100]
  }

  function RowFor(submission: Submission, number: int): AttemptRow {
    var passed := submission.comparison.status == Matched;
    AttemptRow(number, submission.profileId, true, QualityPassed(submission.comparison),
               submission.comparison.similarityScore, submission.configId,
               if passed then RowPassed else RowFailed,
               if passed then None else Some(FailureReason(submission.comparison)),
               submission.receivedAt, Some(submission.receivedAt))
  }

  // UPDATE ... SET status = 'failed' WHERE id = ... AND status = 'in_progress'
  function MarkFailed(parent: Option<ParentAttempt>, at: Instant): Option<ParentAttempt> {
    if parent.Some? && parent.value.status == InProgress
    then Some(ParentAttempt(Failed, Some(LIMIT_REASON), Some(at)))
    else parent
  }

  function CanRetry(submission: Submission, number: int, maxAttempts: int): bool {
    submission.comparison.status != Matched && number < maxAttempts
  }

  function ParentAfter(parent: Option<ParentAttempt>, submission: Submission, number: int, maxAttempts: int)
    : Option<ParentAttempt>
  {
    if submission.comparison.status != Matched && !CanRetry(submission, number, maxAttempts)
    then MarkFailed(parent, submission.receivedAt)
    else parent
  }

  function RecordedResult(submission: Submission, number: int, maxAttempts: int): VerificationResult {
    VerificationResult(StatusForComparison(submission.comparison.status), number,
                       CanRetry(submission, number, maxAttempts), submission.comparison.similarityScore,
                       submission.comparison.similarityThreshold, submission.comparison.detectionConfidence)
  }

  function UnconsumedResult(comparison: FaceComparisonResult, previous: int): VerificationResult {
    VerificationResult(StatusForComparison(comparison.status), previous, true, comparison.similarityScore,
                       comparison.similarityThreshold, comparison.detectionConfidence)
  }

  function LimitResult(previous: int): VerificationResult {
    VerificationResult(AttemptLimitReached, previous, false, None, None, None)
  }

  // ----- the table's own checks

  ghost predicate TableChecks(row: AttemptRow) {
    && row.attemptNumber > 0
    && (row.similarityScore.Some? ==> -1.0 <= row.similarityScore.value <= 1.0)
    && (row.validationStatus == RowPassed ==>
          row.livenessPassed && row.qualityPassed && row.similarityScore.Some? && row.validatedAt.Some?)
    && (row.validationStatus == RowFailed ==> row.failureReason.Some? && row.validatedAt.Some?)
    && (row.failureReason.Some? ==> |row.failureReason.value| <= 100)
  }

  /** Every row `verify` can build satisfies every check of the table, gives a failed
      attempt a non-empty reason, and passes exactly when its score reaches the threshold. */
  lemma RowForSatisfiesChecks(submission: Submission, number: int, threshold: real)
    requires number > 0 && Decided(submission.comparison, threshold)
    ensures TableChecks(RowFor(submission, number))
    ensures var row := RowFor(submission, number);
            && (row.validationStatus == RowFailed ==> row.failureReason.Some? && row.failureReason.value != "")
            && (row.similarityScore.Some? ==>
                  (row.validationStatus == RowPassed <==> row.similarityScore.value >= threshold))
            && (row.similarityScore.None? ==> row.validationStatus == RowFailed && !row.qualityPassed)
  {
  }
}
