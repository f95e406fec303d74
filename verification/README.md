# Smart attendance platform: verified model

A Dafny model of the parts of the platform whose correctness is hard to see by reading one
function: the concurrent face-attempt protocol, the academic tables and their audit log, the
enrolment pipeline, and the exact arithmetic, printers and parsers around them. Check it with
`dafny verify dfyconfig.toml`.

| files | what they model |
|---|---|
| `FaceAttemptRules`, `FaceAttemptProtocol` | one student's attempts in one session: the pure decisions of `verify`, and a transition system with one program counter per request, the row lock, the attempt rows, the parent row, the configurations and the inference permits |
| `FaceAttemptInvariant`, `FaceAttemptLinearizability`, `FaceAttemptAnswers`, `FaceAttemptRefusals`, `FaceAttemptSafety`, `FaceAttemptLimit`, `FaceAttemptProgram` | its theorems, over every schedule |
| `FaceVerificationService` | `verify` as code, with arbitrary interference and connection loss between any two statements, shown to run the protocol |
| `VerificationConfigs`, `FaceEngine`, `FaceComparison`, `EmbeddingSimilarity` | threshold configurations, the engine's results and the comparison |
| `AcademicData`, `AcademicHistory`, `AcademicOutcomes`, `AcademicAudit`, `AcademicService` | the academic mutations as transactions, what runs of them keep, what each delivers or refuses, the audit log as history, and the service as code |
| `AcademicRaces`, `AcademicRaceOutcomes` | the same mutations when they overlap: what a locked read that finds no row, or a joined row, lets happen, and that each still delivers what it was asked for |
| `FaceProfiles`, `ReferenceEnrollment`, `EnrolmentSchedules`, `EnrolmentOverlaps`, `EnrolmentWrites` | profile rows, enrolment and readiness as code, both interleaved, what each commit writes, and what exactly an overlap of enrolments breaks |
| `EnrollmentBatch`, `EnrollmentUploads` | photograph import and upload staging |
| `Percentile`, `Csv`, `EnvFile`, `PythonText`, `Wrappers` | the latency percentile, the CSV export with an RFC 4180 reader, environment files, and shared text and option types |

How the model reads the platform:

- The database is PostgreSQL at READ COMMITTED. A statement sees what is committed when it starts.
  `FOR UPDATE OF` the attempt row locks that row alone; a statement that waited for it re-reads that
  row but keeps its older view of the session, so session activity is as of the start of the locked read.
- A step that is not enabled changes nothing, so every finite sequence of steps is a schedule.
- Inference is any result the engine's constructor accepts; times, generated ids and the engine's
  answers are parameters. A vector's magnitude is any non-negative real whose square is its sum of squares.
- Academic mutations are one transaction each, and students, lecturers, semesters, departments and
  classrooms do not change meanwhile. Every refusal precedes the first write (the service methods show
  it), so rollback has nothing to undo. A locked read keeps other writers of its row out until the
  commit, so mutations behave as if one came after the other, with two exceptions that `AcademicRaces`
  takes apart: a first enrolment, which has no row to lock, and the lecturer that an offering's locked
  read joins to the row it waited for. Unique indexes refuse simultaneous inserts of one natural key
  (`database/smart_attendance_db_clean.sql:171,195,223`), as if the second came later.
- A statement that outlasts the database's command timeout (`services/face-verification/db/engine.py:66-69`)
  ends the call like a lost connection.
- The face-verification service normalizes its model name and version settings, so the condition in
  `EnrolledFaceMatchesItself` holds in a deployment.

Where documents and code disagree the model follows the code:

- `services/face-verification/README.md:393-397` says that retries update one row; the code appends a
  numbered row for every attempt that counts.
- `services/face-verification/README.md:243-244` promises that batches never overlap; the lock
  belongs to one server process and the command-line import takes none. `SafeIffSerialized` says what
  depends on it.

Properties that do not hold in full, with their exact conditions: the limit branch after the lock
(`LockedLimitReachableIff`), the audit log's old values and counts and the refusal of a second enrolment
when mutations overlap (`OldValuesHoldExactly`, `CountsAgreeExactly`, `EnrolledAgainExactly`,
`OldValuesFailByOverlap`, `CountsNeedApartEnrolments`, `OldValuesNeedBothApart`), profile safety
(`SafeIffSerialized`, `SafeExactly`, `OverwriteIsOverlap`), the CSV round trips
(`SeparatedRoundTrip`, `TerminatedRoundTrip`, `UnguardRecovers`), the environment round trip
(`RoundTrip`) and the tag edit (`TagIsSet`).

## Model

| member | source | states |
|---|---|---|
| `FaceAttemptLinearizability.Linearizable` | services/face-verification/services/attendance_face_verification_service.py:111-254 | On every schedule of any number of calls with Core, administrators and the session, the attempts and the parent are what running the commits one at a time gives, and every call that reports a recorded attempt returns exactly the sequential answer to it, once |
| `FaceAttemptLinearizability.CommitIsAtomicAttempt` | services/face-verification/services/attendance_face_verification_service.py:179-254 | The commit of the locked section is the linearization point: it does what "if in progress, none passed and attempts left, append; on the last failure close the parent" does, and returns its answer |
| `FaceAttemptLinearizability.OnlyCommitsAndCoreAreVisible` | services/face-verification/services/attendance_face_verification_service.py:120-254 | Every other statement of every call leaves attempts and parent as they are |
| `FaceAttemptLinearizability.RecordedCallHasItsAttempt` | services/face-verification/services/attendance_face_verification_service.py:200-254 | A call that reports a recorded attempt owns an entry of the sequential history, and its attempt number and retry flag are that entry's |
| `FaceAttemptLinearizability.OwnsExactlyWhatItReports` | services/face-verification/services/attendance_face_verification_service.py:166-191 | A call that has ended owns an entry of the sequential history, exactly one, if and only if it reports a recorded attempt; busy, processing-failed, model-mismatch, refused and raised calls own none and so changed neither the attempts nor the parent |
| `FaceAttemptLinearizability.OrderRespectsArrival` | services/face-verification/services/attendance_face_verification_service.py:111-254 | The sequential order respects real time: what was recorded before a call arrived comes before its attempt |
| `FaceAttemptLinearizability.RefusalsAreCurrent` | services/face-verification/services/attendance_face_verification_service.py:126-214 | A call is told that the attempt is closed, already passed or used up only at a moment when the atomic operation would refuse it too |
| `FaceAttemptLinearizability.RetryFlagIsTrue` | services/face-verification/services/attendance_face_verification_service.py:217-254 | The retry flag of a recorded answer is true exactly when, right after its commit, another attempt would be accepted; an answer that neither passed nor allows one left the parent failed at the limit |
| `FaceAttemptAnswers.InferenceDeterminesAnswer` | services/face-verification/services/attendance_face_verification_service.py:180-254 | On every schedule a call whose inference is finished is raised out of, finds the attempts used up, or answers what the inference means: no face, several faces and low quality by their own status, a success as passed or failed as the cosine of stored and captured embedding reaches the threshold that was read, with the row of exactly that answer in the table (profile, configuration, arrival instant, score, quality and reason); an unreadable image or an embedding that does not fit the reference is answered by its own status with the number that was read and another try; a zero vector raises |
| `FaceAttemptAnswers.ScoreDecidesAnswer` | services/face-verification/services/attendance_face_verification_service.py:298-306 | Every answer of every schedule is passed exactly when its score reaches the threshold it reports, and failed exactly when its score stays below it |
| `FaceAttemptAnswers.AnswerHasItsCause` | services/face-verification/services/attendance_face_verification_service.py:111-191 | Every answer comes from used-up attempts, from the rejection of the call's own image or from its own inference, and was made with the arrival instant, attempt number, reference and active configuration that the call's own statements read |
| `FaceAttemptAnswers.UnusableCaptureEndsTheCall` | services/face-verification/services/attendance_face_verification_service.py:179-188 | An inference without a readable face, or with an embedding that does not fit the reference, ends its call at once and for good: processing-failed or model-mismatch, the number the snapshot read, another try; the permit goes back and rows, parent, lock and everyone else's state stay as they were |
| `FaceAttemptAnswers.RejectedImageEndsTheCall` | services/face-verification/adapters/insightface_engine.py:103-117 | An image that cannot be decoded ends its call at once and for good as processing-failed, with the number the snapshot read and another try, before the inference queue; nothing else changes |
| `FaceAttemptAnswers.TicketsAreRead` | services/face-verification/services/attendance_face_verification_service.py:111-167 | What a call carries on to its comparison is what its own statements found: the instant it arrived, the number of attempts recorded, the stored reference, and an active configuration with its threshold |
| `FaceAttemptRefusals.RaisedExactly` | services/face-verification/services/attendance_face_verification_service.py:114-212 | On every schedule a call is over with a given error if and only if one of its own statements met that error's cause: the first check-in rule that fails at the instant it arrived (before inference or under the lock), a passed attempt, no reference, no active configuration, a full queue, a vector without a direction, or a broken connection |
| `FaceAttemptSafety.ReportedNumbersExist` | services/face-verification/services/attendance_face_verification_service.py:179-191 | No answer ever reports an attempt number that is not recorded; one without a row of its own repeats its snapshot's number, which may lag behind but never runs ahead |
| `FaceAttemptSafety.AttemptNumbersNeverRace` | services/face-verification/scripts/burst_verify.py:95-96 | In every reachable state the numbers are exactly 1..n in commit order, n is within the limit, and a passed attempt is the last one |
| `FaceAttemptSafety.RemainingAttemptsShrink` | services/face-verification/services/attendance_face_verification_service.py:197-236 | Rows are append-only, and each new one uses up exactly one of the remaining attempts; none follows a pass or the limit |
| `FaceAttemptSafety.RecordedRowsAreSound` | services/face-verification/services/attendance_face_verification_service.py:200-236 | Every recorded row satisfies the table's checks; passed holds exactly when the score reaches the threshold of the configuration the row names, whatever is activated during inference; and its capture time lies in the check-in window that its request saw under the lock |
| `FaceAttemptSafety.CoreActs` | services/core-backend/modules/attendance_verification/session_overrides/repository.py:186-236 | On every schedule Core leaves the parent row alone while a request holds it; otherwise it starts a missing row, ends an open one with the given instant and reason, and reopens without a trace one that failed for a reason it may reopen; and an open row never has an end or a reason |
| `FaceAttemptSafety.HoldingsAreDisciplined` | services/face-verification/adapters/insightface_engine.py:119-134 | No request holds a transaction or the row lock while waiting for or running inference; a request has a permit exactly while it is inferring; free, running and foreign permits always add up to the configured number. Permits count requests, not analyzer threads |
| `FaceAttemptSafety.EverythingIsGivenBack` | services/face-verification/adapters/insightface_engine.py:119-140 | When every call has ended and other users have left, all permits are free and no lock or transaction is left |
| `FaceAttemptSafety.LockIsAlwaysReleased` | services/face-verification/services/attendance_face_verification_service.py:179-254 | From any reachable state the lock holder's own remaining statements end its call and free the lock |
| `FaceAttemptInvariant.ScheduleInvariant` | services/face-verification/services/attendance_face_verification_service.py:111-254 | The inductive invariant of the protocol: bookkeeping of transactions, lock and permits, provenance of submissions, and numbering guarded by the lock hold in every reachable state |
| `FaceAttemptInvariant.HolderIsProtected` | services/face-verification/repositories/attendance_face_verification_repository.py:45-56 | While one request is in its locked section no step of anyone else changes the attempts or the parent |
| `FaceAttemptInvariant.OnlyCommitAddsRows` | services/face-verification/repositories/attendance_face_verification_repository.py:161-200 | Attempt rows change by the commit of a locked section and by nothing else, and then by exactly the row it holds |
| `FaceAttemptLimit.UsedUpMeansClosed` | services/face-verification/repositories/attendance_face_verification_repository.py:202-225 | Unless Core may reopen an attempt that failed at this limit, no committed state has all attempts used up, none passed and the parent in progress |
| `FaceAttemptLimit.UnlockedLimitIsARace` | services/face-verification/services/attendance_face_verification_service.py:126-145 | The limit branch before inference is a race: the request read the context while the parent was open, and a later commit of another request, which spent the last attempt and closed the parent at the limit, came between that read and the read of the attempts |
| `FaceAttemptLimit.UnlockedLimitReachable` | services/face-verification/services/attendance_face_verification_service.py:135-145 | For every limit some schedule does take that branch |
| `FaceAttemptLimit.LockedLimitReachableIff` | services/face-verification/services/attendance_face_verification_service.py:205-214 | The limit branch after the lock can be reached by some schedule if and only if Core may reopen attempts that failed for this reason |
| `FaceAttemptLimit.LockedLimitDeadToday` | services/core-backend/modules/attendance_verification/session_overrides/domain.py:28-34 | With the reasons Core's geofence waiver reopens, that branch is dead code |
| `FaceAttemptRules.ContextAccepted` | services/face-verification/services/attendance_face_verification_service.py:257-297 | The context check accepts exactly an in-progress parent whose required geofence passed or was waived, in an active session that requires a face, inside its check-in window; a refusal names the first of these that fails |
| `FaceAttemptRules.LatestIsLast` | services/face-verification/repositories/attendance_face_verification_repository.py:139-159 | With numbers 1..n the latest attempt by number is the last row, and the previous number is n |
| `FaceAttemptRules.RowForSatisfiesChecks` | services/face-verification/models/face_validation_attempt.py:31-57 | Any decided comparison turns into a row that satisfies the table's checks |
| `FaceVerificationService.AttendanceFaceVerificationService.Verify` | services/face-verification/services/attendance_face_verification_service.py:111-254 | The code itself, statement by statement under arbitrary interference and connection loss before any statement, with bounded waits for a permit and for the row lock: the call's own steps in the schedule are the code's statements in order up to where it stops; from a state reached by a schedule it ends in the one the longer schedule reaches, with the protocol's outcome, holding nothing; an answer says what the given image shows, by the status of its analysis, and passes exactly when its score reaches its threshold |
| `FaceAttemptProgram.StatementsInOrder` | services/face-verification/services/attendance_face_verification_service.py:111-254 | On every schedule the steps of a request that take effect are the statements of verify in program order, and its phase says how many were run |
| `EmbeddingSimilarity.ClampIsIdentity` | services/face-verification/services/embedding_similarity.py:5-21 | Over exact reals the unclamped score already lies in [-1, 1], for vectors of any dimension, so the clamp changes nothing |
| `EmbeddingSimilarity.CauchySchwarz` | services/face-verification/services/embedding_similarity.py:5-21 | The dot product is bounded by the product of the magnitudes, both ways |
| `EmbeddingSimilarity.CosineDefined` | services/face-verification/services/embedding_similarity.py:24-51 | A score exists exactly for two non-empty vectors of one dimension, neither of them zero, and an undefined one names the first of these that fails |
| `EmbeddingSimilarity.ScoreIsCosine` | services/face-verification/services/embedding_similarity.py:5-21 | A defined score times the two lengths is the dot product: it is the cosine of the angle between the embeddings |
| `EmbeddingSimilarity.DotAppends` | services/face-verification/services/embedding_similarity.py:5-21 | The dot product is the sum of the products of the entries: zero for no entries, and a further pair adds its product |
| `EmbeddingSimilarity.CosineSymmetric` | services/face-verification/services/embedding_similarity.py:5-21 | Swapping the two embeddings changes neither score nor error |
| `EmbeddingSimilarity.CosineScaleInvariant` | services/face-verification/services/embedding_similarity.py:5-21 | Scaling either embedding by a positive factor changes neither score nor error |
| `EmbeddingSimilarity.CosineOfNormalized` | services/face-verification/adapters/insightface_engine.py:193-215 | For embeddings the engine has normalized the score is their plain dot product |
| `EmbeddingSimilarity.PerfectScore` | services/face-verification/services/embedding_similarity.py:5-21 | The score is 1 exactly when the two directions are the same |
| `EmbeddingSimilarity.NormalizedHasUnitLength` | services/face-verification/services/embedding_similarity.py:41-51 | A normalized embedding has length 1 |
| `FaceEngine.InterpretFacesSound` | services/face-verification/adapters/insightface_engine.py:140-215 | The engine only builds results its constructor accepts, succeeds exactly on one confident face with a non-zero embedding, and then returns a unit vector whose entries times the raw length are the raw entries |
| `FaceEngine.FailuresHaveTheirCause` | services/face-verification/adapters/insightface_engine.py:140-165 | No face, several faces and low quality each have their one cause, processing-failed is a confidence or an embedding that cannot be read, and the result counts the faces, keeps a readable confidence and has a reason exactly when it failed |
| `FaceComparison.CompareDecides` | services/face-verification/services/face_comparison_service.py:46-115 | A capture that failed is answered by the status of its own name with the engine's reason and no score; a score appears exactly for matched and not-matched results, lies in [-1, 1], and matches exactly when it reaches the threshold; the call raises only on a zero vector |
| `FaceComparison.SuccessIsScored` | services/face-verification/services/face_comparison_service.py:78-115 | A successful capture of another model, version or dimension than the reference is a model mismatch; a zero vector raises; every other one gets the cosine of the two embeddings as its score, with the threshold, the confidence and the reason that go with it |
| `Percentile.PercentileRange` | services/face-verification/scripts/burst_verify.py:84-92 | At 0 and 1 the percentile of a non-empty list is its least and greatest element, and in between it stays within them |
| `Percentile.PercentileMonotone` | services/face-verification/scripts/burst_verify.py:84-92 | It never falls as the percentage rises, across interpolation segments too |
| `Percentile.PercentileOfPermutation` | services/face-verification/scripts/burst_verify.py:84-92 | The order of the measurements does not matter |
| `Percentile.StraightLine` | services/face-verification/scripts/burst_verify.py:87-92 | For any values, however they are put in ascending order: where (n - 1) times the percentage falls t beyond rank k, the result lies t of the way from the k-th value to the next, both ends included |
| `Percentile.SegmentOf` | services/face-verification/scripts/burst_verify.py:88-91 | Every percentage falls on such a segment, so the straight lines are the whole curve |
| `Percentile.FewValues` | services/face-verification/scripts/burst_verify.py:84-92 | A single value is every percentile of itself, and an empty list gives zero |
| `Percentile.SortSorts` | services/face-verification/scripts/burst_verify.py:87 | Sorting gives an ascending permutation |
| `VerificationConfigs.VerificationConfigRepository.Create` | services/face-verification/repositories/verification_config_repository.py:24-40 | Appends an inactive row with exactly the given threshold for a threshold in [0, 1] and a fresh id, and changes nothing otherwise |
| `VerificationConfigs.VerificationConfigRepository.Activate` | services/face-verification/repositories/verification_config_repository.py:42-61 | Makes the named row the only active one and changes nothing else of any row, or changes nothing when it does not exist |
| `VerificationConfigs.ConfigRunsAreSafe` | services/face-verification/repositories/verification_config_repository.py:24-61 | After any run of creates and activations at most one configuration is active, ids are distinct and thresholds lie in [0, 1] |
| `VerificationConfigs.StepKeepsThresholds` | services/face-verification/repositories/verification_config_repository.py:24-61 | No create or activation changes the threshold of a stored configuration |
| `VerificationConfigs.CreatedConfigIsKept` | services/face-verification/repositories/verification_config_repository.py:24-61 | An accepted creation stores the given threshold under its id through every later run, and changes which configurations are active neither then nor later without being activated by its id; a refused one stores nothing |
| `VerificationConfigs.LastActivationIsInForce` | services/face-verification/repositories/verification_config_repository.py:20-61 | From an activation on, until another one finds its configuration, the configuration in force is the activated one with the threshold it was created with |
| `VerificationConfigs.ActivateKeepsTable` | services/face-verification/repositories/verification_config_repository.py:42-61 | Neither of the two updates of an activation ever leaves two active rows |
| `AcademicAudit.ReplayRebuildsTables` | services/core-backend/modules/academic/admin_academic_data/service.py:57-367 | Replaying the new values of any run's audit log rebuilds exactly the courses, offerings with their lecturer, enrolments and timetable entries |
| `AcademicAudit.OldValuesAreTheReplay` | services/core-backend/modules/academic/admin_academic_data/service.py:348-381 | For mutations one at a time: every entry's old values are what the replay of the entries before it held (when they overlap: AcademicRaces.OldValuesHoldExactly) |
| `AcademicAudit.LogDeterminesTables` | services/core-backend/modules/academic/admin_academic_data/service.py:348-381 | Runs that wrote the same log hold the same rows |
| `AcademicAudit.ExecuteRecords` | services/core-backend/modules/academic/admin_academic_data/service.py:57-307 | Each committed operation logs exactly the one row it changed, before and after, and changes no other |
| `AcademicAudit.CountIsInTheLog` | services/core-backend/modules/academic/admin_academic_data/repository.py:87-89 | For mutations one at a time: an offering's enrolled count is its enrolments in the log less the drops of students who were enrolled (when they overlap: AcademicRaces.ExcessIsExact) |
| `AcademicAudit.RunsKeepHistory` | services/core-backend/modules/academic/admin_academic_data/service.py:57-307 | After any run the tables are well formed and the log is their complete history: its new values rebuild them, its old values are the replay's, and the counts can be read off it |
| `AcademicAudit.TransactKeeps` | services/core-backend/modules/academic/admin_academic_data/service.py:309-381 | One transaction, committed or refused, keeps all of that from any state that has it, and none of its assertions fails |
| `AcademicRaces.RacesKeepTables` | services/core-backend/modules/academic/admin_academic_data/repository.py:262-276 | However mutations overlap, the tables stay well formed and replaying the log's new values rebuilds them |
| `AcademicRaceOutcomes.EveryCommitWasAsked` | services/core-backend/modules/academic/admin_academic_data/service.py:160-243 | However mutations overlap, each commit writes the row its own transaction's request asked for, over the tables of that moment, and adds exactly one log entry, by the requester, under the operation's action |
| `AcademicRaces.OldValuesHoldExactly` | services/core-backend/modules/academic/admin_academic_data/service.py:160-243 | The log's old values are right on a schedule if and only if no transaction commits over a row that changed after its locked read: no first enrolment after another one of its pair, no change of an offering whose lecturer changed while it waited |
| `AcademicRaces.CountsAgreeExactly` | services/core-backend/modules/academic/admin_academic_data/repository.py:87-89 | The counts agree with the log after a schedule if and only if at none of its steps a student who was enrolled was enrolled again |
| `AcademicRaces.ExcessIsExact` | services/core-backend/modules/academic/admin_academic_data/repository.py:262-276 | On every schedule an offering's count, its drops of enrolled students and its enrolments of enrolled students add up to its logged enrolments |
| `AcademicRaces.EnrolledAgainExactly` | services/core-backend/modules/academic/admin_academic_data/service.py:231-241 | On every schedule an enrolled student is enrolled again exactly by a first enrolment that read no row and at its upsert meets one left enrolled by another |
| `AcademicRaces.ConflictIsOverlap` | services/core-backend/modules/academic/admin_academic_data/repository.py:269-276 | A first enrolment meets a row at its upsert if and only if, while it was open, another first enrolment of the same pair committed |
| `AcademicRaces.StaleLecturerIsOverlap` | services/core-backend/modules/academic/admin_academic_data/repository.py:94-99 | An open change of an offering no longer knows its lecturer if and only if, since its locked read, other changes of that offering committed and the last of them left another lecturer than the one it read |
| `AcademicRaces.OldValuesFailByOverlap` | services/core-backend/modules/academic/admin_academic_data/service.py:160-243 | The log's old values are wrong after a schedule if and only if one of its transactions committed although, while it was open, others had committed what makes its read wrong |
| `AcademicRaces.SecondEnrolmentAccepted` | services/core-backend/modules/academic/admin_academic_data/service.py:231-242 | Of two open first enrolments of one pair, the second to commit enrols a student who is enrolled and logs that there was no row |
| `AcademicRaces.CountsNeedApartEnrolments` | services/core-backend/modules/academic/admin_academic_data/service.py:231-242 | The counts agree with the log on every schedule, and no enrolled student is ever enrolled again, if and only if first enrolments of one pair are kept from overlapping |
| `AcademicRaces.OldValuesNeedBothApart` | services/core-backend/modules/academic/admin_academic_data/repository.py:94-99 | The old values are right on every schedule if and only if first enrolments of one pair and changes of one offering are both kept from overlapping |
| `AcademicAudit.EnrolmentIsRefusedExactly` | services/core-backend/modules/academic/admin_academic_data/service.py:225-243 | For one enrolment at a time: it is refused exactly for an enrolled student (or a generated id that is taken), and reuses the id the pair already had (when they overlap: AcademicRaces.EnrolledAgainExactly) |
| `AcademicAudit.DroppingTwice` | services/core-backend/modules/academic/admin_academic_data/service.py:245-256 | A second drop commits, changes no row and logs that nothing changed |
| `AcademicAudit.EnrollingUndoesDropping` | services/core-backend/modules/academic/admin_academic_data/repository.py:269-284 | Enrolling again restores the tables as they were before a drop |
| `AcademicAudit.EnrolmentIdNeverChanges` | services/core-backend/modules/academic/admin_academic_data/repository.py:269-284 | Once a pair of offering and student has a row it keeps that row and id through every later run |
| `AcademicAudit.RunsPersist` | services/core-backend/modules/academic/admin_academic_data/repository.py:204-319 | No operation removes a course, offering, timetable entry or enrolment |
| `AcademicHistory.RunsKeepTables` | services/core-backend/modules/academic/admin_academic_data/service.py:57-346 | After any run no stored code has a lower-case letter and no two agree up to case, natural keys and slots are distinct (inactive ones included), references resolve (departments and classrooms too), every offering has exactly one lecturer and every pair at most one enrolment; and no mutation ever fails one of the service's assertions |
| `AcademicHistory.ExecuteKeeps` | services/core-backend/modules/academic/admin_academic_data/service.py:57-307 | Each single operation keeps all of that |
| `AcademicOutcomes.CommitsWhatWasAsked` | services/core-backend/modules/academic/admin_academic_data/service.py:57-307 | A committed operation leaves, logs and returns exactly the row it was asked for, under its own action and the row's id: the given course with its code in upper case and otherwise letter for letter, the one lecturer, the pair's row enrolled or dropped under the id it had, the entry, the entry inactive |
| `AcademicOutcomes.OutcomesAreExact` | services/core-backend/modules/academic/admin_academic_data/service.py:57-346 | Over well-formed tables an operation reports the first record it needs and does not find; it conflicts exactly when nothing is missing and another row has its code up to case, its natural key, its slot or its generated id, or the student is already enrolled; in every other case it commits |
| `AcademicHistory.UpperAgrees` | services/core-backend/modules/academic/admin_academic_data/repository.py:198-205 | Two codes have one upper-case form exactly when they agree letter by letter up to case |
| `AcademicOutcomes.ConflictsAreNecessary` | services/core-backend/modules/academic/admin_academic_data/repository.py:198-299 | A course, offering or timetable write with a fresh id is refused as a conflict only if writing the row would have left the tables ill formed |
| `AcademicHistory.LecturerSet` | services/core-backend/modules/academic/admin_academic_data/repository.py:247-253 | Setting an offering's lecturer leaves it exactly that one and no other offering's changed |
| `AcademicService.AcademicDatabase.SetOfferingLecturer` | services/core-backend/modules/academic/admin_academic_data/repository.py:247-253 | The delete loop and insert compute that assignment table |
| `AcademicService.AcademicDatabase.EnrolStudent` | services/core-backend/modules/academic/admin_academic_data/repository.py:269-276 | The upsert marks the pair's row, appends one, or reports a violation and changes nothing |
| `AcademicService.AcademicDatabase.DropEnrolment` | services/core-backend/modules/academic/admin_academic_data/repository.py:278-284 | Updating every row of the pair drops exactly its one row |
| `AcademicService.AdminAcademicDataService.CreateCourse` | services/core-backend/modules/academic/admin_academic_data/service.py:57-85 | Commits the transaction's rows with its log entry and returns the logged snapshot, or reports why not and changes nothing; the log stays the complete history of well-formed tables |
| `AcademicService.AdminAcademicDataService.UpdateCourse` | services/core-backend/modules/academic/admin_academic_data/service.py:87-118 | The same for an update, which excludes the course itself from the duplicate check |
| `AcademicService.AdminAcademicDataService.CreateOffering` | services/core-backend/modules/academic/admin_academic_data/service.py:120-158 | The same, with its lecturer set in the same transaction |
| `AcademicService.AdminAcademicDataService.UpdateOffering` | services/core-backend/modules/academic/admin_academic_data/service.py:160-202 | The same for an update of an offering and its lecturer |
| `AcademicService.AdminAcademicDataService.AssignLecturer` | services/core-backend/modules/academic/admin_academic_data/service.py:204-216 | The same for a change of lecturer alone |
| `AcademicService.AdminAcademicDataService.EnrolStudent` | services/core-backend/modules/academic/admin_academic_data/service.py:225-243 | The same for enrolling, first time or again, in a transaction of its own; overlapping first enrolments are in AcademicRaces |
| `AcademicService.AdminAcademicDataService.DropStudent` | services/core-backend/modules/academic/admin_academic_data/service.py:245-256 | The same for a drop |
| `AcademicService.AdminAcademicDataService.CreateTimetableEntry` | services/core-backend/modules/academic/admin_academic_data/service.py:258-274 | The same for a timetable entry |
| `AcademicService.AdminAcademicDataService.UpdateTimetableEntry` | services/core-backend/modules/academic/admin_academic_data/service.py:276-293 | The same for its update |
| `AcademicService.AdminAcademicDataService.DeactivateTimetableEntry` | services/core-backend/modules/academic/admin_academic_data/service.py:295-307 | The same for its deactivation |
| `AcademicService.TransactedMeans` | services/core-backend/modules/academic/admin_academic_data/service.py:309-315 | What those contracts mean to a caller: refused calls change nothing and say which record is missing exactly when it is; a call commits exactly when nothing is missing and nothing clashes, and adds one entry by that actor, under its own action, whose new values are the answer, which is the row that was requested; and tables stay well formed |
| `EnrolmentSchedules.SafeIffSerialized` | services/face-verification/api/routes/enrollment.py:50-67 | Generated references and revoked profiles survive, and readiness results stay backed, on every schedule if and only if the batch lock serializes enrolments |
| `EnrolmentSchedules.SerializedIsSafe` | services/face-verification/services/reference_enrollment_service.py:56-127 | Under the lock: no schedule of enrolments and readiness checks alters a generated reference or a revoked profile, and a readiness result other than not-checked implies a generated embedding, its check time and configuration |
| `EnrolmentSchedules.RaceLosesReference` | services/face-verification/repositories/face_profile_repository.py:81-113 | Without it: any student without an accepted photograph or a revocation, with a profile row or with none, can lose one upload's reference to a second upload and keep a passed readiness check for it |
| `EnrolmentOverlaps.OverwriteIsOverlap` | services/face-verification/services/reference_enrollment_service.py:56-127 | On every schedule an enrolment that commits writes over a reference if and only if, since it read the profile, other enrolments of that student committed and the last of them was a success |
| `EnrolmentOverlaps.OverwrittenByOverlap` | services/face-verification/services/reference_enrollment_service.py:56-127 | A reference of a student is written over somewhere on a schedule if and only if an enrolment of the student was open when another one saved a reference, and then committed |
| `EnrolmentOverlaps.SafeExactly` | services/face-verification/repositories/face_profile_repository.py:81-113 | A schedule is safe at every moment (references and revoked profiles survive, readiness results stay backed) if and only if no enrolment of it changes a reference it writes over |
| `EnrolmentWrites.EveryWriteIs` | services/face-verification/services/reference_enrollment_service.py:56-127 | On every schedule, serialized or not, only the end of a call writes, and one row: an enrolment the whole row its own engine answer stands for, a readiness check its student's three readiness columns |
| `EnrolmentWrites.EnrolmentAlone` | services/face-verification/services/reference_enrollment_service.py:56-127 | The steps of an enrolment that no other call disturbs are the enrolment on its own, with the same table and the same answer |
| `EnrolmentWrites.CheckAlone` | services/face-verification/services/readiness_verification_service.py:119-186 | The steps of a readiness check that no other call disturbs are the check on its own |
| `EnrolmentSchedules.ReadingNeverRaises` | services/face-verification/repositories/face_profile_repository.py:129-163 | On every schedule, serialized or not, generated rows are complete, so reading a reference never raises and no check finds its profile gone |
| `EnrolmentSchedules.EnrolledFaceMatchesItself` | services/face-verification/services/face_comparison_service.py:80-107 | Comparing the photograph a student was enrolled with matches with score 1 exactly when the engine's model name has no surrounding blanks and the embedding is not zero |
| `FaceProfiles.EnrollProtects` | services/face-verification/services/reference_enrollment_service.py:56-127 | One enrolment never alters a generated or revoked profile or another student's row, and succeeds exactly when it leaves a generated profile that was not there before; a failed analysis leaves a failed one with nothing of a reference in it |
| `FaceProfiles.EnrollDecides` | services/face-verification/services/reference_enrollment_service.py:56-127 | What one enrolment answers and writes: generated and revoked profiles are left alone and named as such; a failed capture is answered by its own name and clears the row; a success stores the embedding, the stripped model name and version, the dimension and the time, unless a name is blank; no other column and no other row is written |
| `FaceProfiles.StoredEmbeddingReads` | services/face-verification/repositories/face_profile_repository.py:129-163 | On a complete table the read for comparison finds a reference exactly for generated profiles, and it is the row's own id, embedding, model name, version and dimension |
| `ReferenceEnrollment.ReferenceEnrollmentService.Enroll` | services/face-verification/services/reference_enrollment_service.py:56-127 | Statement by statement: commits what the transaction says, or rolls the pending row back and leaves the table as it was |
| `ReferenceEnrollment.ReadinessVerificationService.Verify` | services/face-verification/services/readiness_verification_service.py:119-186 | Statement by statement: commits exactly the readiness columns of the check, or nothing |
| `ReferenceEnrollment.ReadinessDecides` | services/face-verification/services/readiness_verification_service.py:119-186 | Without a reference and an active configuration nothing is written; otherwise passed is answered and recorded exactly when the true cosine reaches that configuration's threshold, a capture that cannot be compared is answered by its own name, and only the three readiness columns change |
| `ReferenceEnrollment.StatusAfterCheck` | services/face-verification/services/readiness_verification_service.py:93-117 | After a check the dashboard asks for another exactly when it did not pass |
| `ReferenceEnrollment.EnrolmentAsksForCheck` | services/face-verification/services/readiness_verification_service.py:93-117 | Right after an enrolment that stored a reference the dashboard shows the student as enrolled, not checked, and asks for a check |
| `ReferenceEnrollment.FaceProfileRepository.CreatePendingProfile` | services/face-verification/repositories/face_profile_repository.py:46-52 | Adds a pending row unless the student or the id already has one |
| `ReferenceEnrollment.FaceProfileRepository.SaveGeneratedEmbedding` | services/face-verification/repositories/face_profile_repository.py:54-96 | Refuses an empty embedding, then a blank model name, then a blank version, and otherwise overwrites the named row whatever its status |
| `EnrollmentBatch.ImportReferencePhotos` | services/face-verification/scripts/enroll_reference_faces.py:75-177 | The loop moves one counter per photograph and leaves the table that enrolling them in order leaves; a photograph without a registration number stops it before anything changes |
| `EnrollmentBatch.TallyConserves` | services/face-verification/scripts/enroll_reference_faces.py:30-37 | discovered = enrolled + already enrolled + validated + skipped + failed |
| `EnrollmentBatch.TallyCounts` | services/face-verification/scripts/enroll_reference_faces.py:30-37 | Each counter is the number of photographs with the outcome of that name |
| `EnrollmentBatch.OutcomesAreExact` | services/face-verification/scripts/enroll_reference_faces.py:112-175 | What becomes of each photograph, over the profiles the ones before it left: skipped when another one has its number, failed without a student, skipped for one who is not active, only validated by a dry run, failed when unreadable, and else already enrolled, skipped as revoked, enrolled or failed by the profile and the engine's answer |
| `EnrollmentBatch.SupportedExactly` | services/face-verification/scripts/enroll_reference_faces.py:40-62 | Photographs are the names that end in .jpeg, .jpg or .png in either case, and what stands before that, without blanks around it, is the registration number |
| `EnrollmentBatch.DiscoveredExactly` | services/face-verification/scripts/enroll_reference_faces.py:40-52 | Discovery finds the supported files of the directory and nothing else |
| `EnrollmentBatch.DryRunChangesNothing` | services/face-verification/scripts/enroll_reference_faces.py:128-131 | A dry run changes no profile and enrols nobody; a commit validates nobody |
| `EnrollmentBatch.DuplicatesExactly` | services/face-verification/scripts/enroll_reference_faces.py:65-72 | A photograph is set aside exactly when another one has its case-folded registration number, so no two processed ones share it |
| `EnrollmentBatch.RerunEnrolsNobodyTwice` | services/face-verification/services/reference_enrollment_service.py:61-66 | Running a batch again, whatever can be read and whatever the engine answers, enrols nobody it had enrolled: they count as already enrolled, or failed when the file cannot be read now, and their references stay |
| `EnrollmentBatch.ImportKeeps` | services/face-verification/scripts/enroll_reference_faces.py:112-175 | A whole import keeps generated and revoked profiles and the backing of readiness results |
| `EnrollmentBatch.OnlyNamedStudentsChange` | services/face-verification/scripts/enroll_reference_faces.py:115-142 | An import touches no profile but those of active students whom exactly one of its photographs names |
| `EnrollmentBatch.FindDuplicateRegistrationNumbers` | services/face-verification/scripts/enroll_reference_faces.py:55-72 | Computes the duplicated numbers, or reports the first file name without one |
| `EnrollmentUploads.StageEnrollmentUploads` | services/face-verification/api/routes/enrollment.py:93-143 | Stages every image of an accepted batch under its own name, and otherwise reports the first objection to the first image that meets one |
| `EnrollmentUploads.AcceptedIsAcceptable` | services/face-verification/api/routes/enrollment.py:93-143 | Accepting image by image is accepting the batch as a whole: safe names, allowed types, 1 byte to 5 MB each, no two names alike when case-folded, 250 MB in all |
| `EnrollmentUploads.ObjectionIs` | services/face-verification/api/routes/enrollment.py:93-143 | Which error an image meets: the first of an unsafe name, a name already sent, a kind that is not allowed, no content, more than 5 MB, and more than 250 MB in the batch |
| `EnrollmentUploads.StagedNames` | services/face-verification/api/routes/enrollment.py:93-143 | One file for every image, with its own content: none overwrites another |
| `EnrollmentUploads.StagedAreDiscovered` | services/face-verification/scripts/enroll_reference_faces.py:40-62 | Every staged file is one that discovery finds, and it names a registration number |
| `EnrollmentUploads.EnrollmentRoute.EnrollUploadedReferenceFaces` | services/face-verification/api/routes/enrollment.py:35-90 | For 1 to 500 acceptable images and a free lock, and for nothing else, imports exactly the images sent and answers with the counters of that import, which add up to the images; otherwise reports the image count, the running batch or the first objection and changes nothing; the lock ends as it was |
| `Csv.SeparatedRoundTrip` | apps/web/src/lib/csv.ts:11-13 | Reading the export by section 2 of RFC 4180, every CRLF a separator, gives back its rows cell by cell if and only if no row is without cells |
| `Csv.TerminatedRoundTrip` | apps/web/src/lib/csv.ts:11-13 | With a final CRLF read as the end of the last record: if and only if, besides, the last row is not one empty text cell |
| `Csv.NoFormulaReadsBack` | apps/web/src/lib/csv.ts:3-9 | In what a reader gets back from the written export, no string cell, header or not, is a formula, and it is the text that went in exactly when that was none; a number cell is always its own numeral, never guarded |
| `Csv.UnguardRecovers` | apps/web/src/lib/csv.ts:7 | Taking the guard off recovers the text exactly when it did not look guarded before |
| `Csv.GuardCollisions` | apps/web/src/lib/csv.ts:7 | Two texts share an exported form exactly when one is the other's guarded form |
| `Csv.TakeCell` | apps/web/src/lib/csv.ts:5-9 | Any escaped cell followed by a comma, a line break or the end reads back as itself |
| `Csv.QuotedWhenNeeded` | apps/web/src/lib/csv.ts:8 | A cell is written as its text, between quotes exactly when that holds a comma, a quote, CR or LF |
| `Csv.EveryExportReads` | apps/web/src/lib/csv.ts:11-13 | Every export can be read, and what is read is the headers and every row in order with their lengths, a number as its own numeral, a text as itself or behind an apostrophe; a row without cells comes back as one empty cell |
| `EnvFile.RoundTrip` | deployment/prepare_private_env.py:69-76 | For distinct keys and values the writer accepts, parsing the written file gives the map back if and only if every key can start a line and no key or value holds a line boundary |
| `EnvFile.CarriageReturnIsLost` | deployment/prepare_private_env.py:69-70 | A carriage return passes the writer's check and does not come back |
| `EnvFile.ParsedIsClean` | deployment/render_realm.py:14-23 | Whatever is parsed has keys that could be written again and no line boundary in a value |
| `EnvFile.LineMeans` | deployment/render_realm.py:16-22 | A line is ignored when blank or a comment, malformed without an equals sign, and else binds what stands before the first one to the rest without blanks, then double quotes, then single quotes around it |
| `EnvFile.LinesMean` | deployment/render_realm.py:14-23 | A file is invalid exactly when a line is malformed, and otherwise holds each bound key with the value of the last line that binds it |
| `EnvFile.SplitAtBreak` | deployment/render_realm.py:16 | Text is split at its line breaks: each boundary takes itself and the line before it off, CR LF as one |
| `PythonText.StripMeans` | deployment/render_realm.py:17 | Stripping takes away the blanks at either end, all of them and nothing else |
| `EnvFile.ParseEnvFile` | deployment/render_realm.py:14-23 | The loop binds the lines in order, later ones over earlier ones, or rejects the file |
| `EnvFile.WritePrivateEnv` | deployment/prepare_private_env.py:69-76 | Writes one line per pair, or refuses every pair exactly when one value holds a quote or a line feed |
| `EnvFile.WrittenGrows` | deployment/prepare_private_env.py:74-76 | The written text is one line for each pair: the key, an equals sign and the value in single quotes |
| `EnvFile.SetImageTag` | deployment/ops/set_image_tag.py:16-32 | Replaces the one IMAGE_TAG= line in place, or refuses |
| `EnvFile.EditIs` | deployment/ops/set_image_tag.py:16-32 | The edit in full: it is refused without 40 lowercase hexadecimal digits, then without exactly one line that starts with IMAGE_TAG=, and otherwise leaves the same lines but for that one |
| `EnvFile.TagIsSet` | deployment/ops/set_image_tag.py:18-29 | The edit keeps a file valid or invalid and every other binding; it sets the tag if and only if no later indented line binds it to something else |
| `EnvFile.NoIndentedTag` | deployment/ops/set_image_tag.py:18-29 | Without an indented IMAGE_TAG= line the edit changes exactly the tag |
| `EnvFile.LastEditWins` | deployment/ops/set_image_tag.py:18-29 | Editing twice is editing once with the second tag |
| `EnvFile.WrittenTagCanBeSet` | deployment/prepare_private_env.py:74-76 | A written file that has a tag can always have it set, and then parses to the written map with just the tag replaced |

## Left out

- Float rounding: scores, magnitudes and percentiles are exact reals; the rounding of `Numeric(8,7)` columns and of vector storage is not modelled.
- HTTP routes, bearer tokens, Keycloak, request schemas and status codes: only the order of the upload route's refusals is kept.
- Liveness evidence: a call that reaches `verify` has valid evidence; its field checks are not modelled.
- Time zones: instants are integers on one UTC scale, so the conversion of naive timestamps is not modelled.
- The detector, image decoding, encryption and serialization of embeddings: foreign calls; a stored embedding reads back as it was written.
- Queue order: a free lock or permit may go to any waiting request, and a waiting request may time out at any moment; a time limit is a number of turns of the others, and fairness is not modelled.
- FaceAttemptSafety.HoldingsAreDisciplined: permits count requests and not analyzer runs. When a call is cancelled during inference its permit goes back at once, but the analyzer's thread may run on (`services/face-verification/adapters/insightface_engine.py:131-134`), so the number of threads at work is not bounded here.
- A database connection that fails while the commit is in flight: a commit either happens or the call ends before it.
- Core's own reasons for starting, closing or checking in an attempt: Core may do any of these at any time that the row lock allows, subject only to the status checks of its transactions.
- Conditions on a reopening other than status and failure reason (manual records and finished reviews): the model lets Core reopen more often, which only makes its theorems stronger.
- Joined display names, `enrolled_count` in snapshots, `created_by` and timestamps of academic rows: the audit theorems are about each row's own columns.
- AcademicAudit.OldValuesAreTheReplay: for mutations one at a time, because overlapping ones can break it; `AcademicRaces.OldValuesFailByOverlap` says exactly when.
- AcademicAudit.CountIsInTheLog: for mutations one at a time, because overlapping first enrolments log twice; `AcademicRaces.ExcessIsExact` and `CountsAgreeExactly` give the law for every schedule.
- AcademicAudit.EnrolmentIsRefusedExactly: for one enrolment at a time, because an overlapping first enrolment is accepted; `AcademicRaces.EnrolledAgainExactly` says exactly when.
- AcademicRaces: a waiting change of an offering or timetable entry whose own reference was changed meanwhile may be told that there is no such row, because its join is rechecked against the rows it first read; here such a call is one that gives up. Deadlocks end a transaction in the same way.
- Upper-casing and case folding beyond ASCII: course codes use ASCII upper-casing; case folding in batches is a parameter.
- An administrator revoking a profile while an enrolment runs: nothing in the repository revokes; revoked rows are only ever found in the starting table.
- Student rows behind a face profile: the import looks students up in a fixed table, and the foreign key of a profile is taken to hold.
- The order in which a directory is listed: import theorems hold for every order, so the sort of discovered photographs is not modelled; nor are a missing directory and the messages an import prints.
- Percentages outside [0, 1]: `percentile` is only used inside it, and the model requires it.
- File permissions, temporary files and the atomic replacement of environment files; rendering the realm template; the content of the private environment other than its serialization.
- Attendance finalization, geofence distances, QR evidence, auto-close and push workers, web and mobile screens.
