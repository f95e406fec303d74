/** Enrolment and the readiness check in the shape of the source: statements over a session
    whose uncommitted rows a rollback discards (face_profile_repository.py:46-125,
    reference_enrollment_service.py:56-127, readiness_verification_service.py:93-186). Here
    nothing else touches the table meanwhile; interleavings are in EnrolmentSchedules. */
module ReferenceEnrollment {
  import opened Wrappers
  import opened PythonText
  import opened EmbeddingSimilarity
  import opened FaceEngine
  import opened FaceComparison
  import opened VerificationConfigs
  import opened FaceProfiles

  // One session and the profile rows it sees; `committed` is what a rollback returns to.
  class FaceProfileRepository {
    var rows: ProfileTable
    var committed: ProfileTable

    constructor (table: ProfileTable)
      ensures rows == committed == table
    {
      rows, committed := table, table;
    }

    method Commit()
      modifies this`committed
      ensures committed == rows
    {
      committed := rows;
    }

    method Rollback()
      modifies this`rows
      ensures rows == committed
    {
      rows := committed;
    }

    // None when the student or the generated id already has a row.
    method CreatePendingProfile(student: StudentId, newId: ProfileId) returns (profile: Option<FaceProfile>)
      modifies this`rows
      ensures profile.None? <==> student in old(rows) || HasProfile(old(rows), newId)
      ensures profile.Some? ==> profile.value == PendingProfile(newId)
      ensures rows == if profile.None? then old(rows) else old(rows)[student := PendingProfile(newId)]
    {
      if student in rows || HasProfile(rows, newId) {
        return None;
      }
      profile := Some(PendingProfile(newId));
      rows := rows[student := profile.value];
    }

    method SaveGeneratedEmbedding(id: ProfileId, embedding: Vector, modelName: string, modelVersion: string, at: Instant)
      returns (saved: Result<bool, ProfileError>)
      modifies this`rows
      ensures saved.Ok? ==> FaceProfiles.SaveGeneratedEmbedding(old(rows), id, embedding, modelName, modelVersion, at) == Ok(rows)
                            && (saved.value <==> HasProfile(old(rows), id))
      ensures saved.Err? ==> FaceProfiles.SaveGeneratedEmbedding(old(rows), id, embedding, modelName, modelVersion, at)
                             == Err(saved.error)
                             && rows == old(rows)
      ensures saved == Err(ProfileError.EmptyEmbedding) <==> embedding == []
      ensures saved == Err(BlankModelName) <==> embedding != [] && Strip(modelName) == ""
      ensures saved == Err(BlankModelVersion) <==> embedding != [] && Strip(modelName) != "" && Strip(modelVersion) == ""
    {
      if embedding == [] {
        return Err(ProfileError.EmptyEmbedding);
      }
      var name := Strip(modelName);
      if name == "" {
        return Err(BlankModelName);
      }
      var version := Strip(modelVersion);
      if version == "" {
        return Err(BlankModelVersion);
      }
      saved := Ok(HasProfile(rows, id));
      rows := UpdateWhereId(rows, id, p => GeneratedRow(p, embedding, modelName, modelVersion, at));
    }

    method MarkGenerationFailed(id: ProfileId) returns (found: bool)
      modifies this`rows
      ensures rows == FaceProfiles.MarkGenerationFailed(old(rows), id)
      ensures found <==> HasProfile(old(rows), id)
    {
      found := HasProfile(rows, id);
      rows := UpdateWhereId(rows, id, FailedRow);
    }

    method UpdateReadinessResult(id: ProfileId, status: ReadinessStatus, config: ConfigId, at: Instant) returns (found: bool)
      modifies this`rows
      ensures rows == FaceProfiles.UpdateReadinessResult(old(rows), id, status, config, at)
      ensures found <==> HasProfile(old(rows), id)
    {
      found := HasProfile(rows, id);
      rows := UpdateWhereId(rows, id, p => CheckedRow(p, status, config, at));
    }
  }

  // ----- ReferenceEnrollmentService

  function StatusOf(result: Result<Enrolled, EnrolmentError>): Result<EnrolmentStatus, EnrolmentError> {
    match result
    case Ok(enrolled) => Ok(enrolled.status)
    case Err(error) => Err(error)
  }

  class ReferenceEnrollmentService {
    const repository: FaceProfileRepository
    const modelVersion: string

    constructor (repository: FaceProfileRepository, modelVersion: string)
      ensures this.repository == repository && this.modelVersion == Strip(modelVersion)
    {
      this.repository := repository;
      this.modelVersion := Strip(modelVersion);
    }

    /** Commits what the transaction function says, or rolls everything back and reports. */
    method Enroll(student: StudentId, sample: Sample) returns (result: Result<EnrolmentStatus, EnrolmentError>)
      requires repository.rows == repository.committed && DistinctIds(repository.rows) && SoundSample(sample)
      modifies repository
      ensures repository.rows == repository.committed
           == EnrolledTable(old(repository.rows), student, sample, modelVersion)
      ensures result == StatusOf(FaceProfiles.Enroll(old(repository.rows), student, sample, modelVersion))
      ensures result.Err? ==> repository.rows == old(repository.rows)
    {
      result := EnrollInTransaction(student, sample);
      if result.Err? {
        repository.Rollback();
      }
    }

    method EnrollInTransaction(student: StudentId, sample: Sample) returns (result: Result<EnrolmentStatus, EnrolmentError>)
      requires repository.rows == repository.committed && DistinctIds(repository.rows) && SoundSample(sample)
      modifies repository
      ensures result == StatusOf(FaceProfiles.Enroll(old(repository.rows), student, sample, modelVersion))
      ensures repository.committed == EnrolledTable(old(repository.rows), student, sample, modelVersion)
      ensures result.Ok? ==> repository.rows == repository.committed
    {
      var profile := GetByStudentId(repository.rows, student);
      if profile.Some? && profile.value.generation == Generated {
        return Ok(AlreadyEnrolled);
      }
      if profile.Some? && profile.value.generation == Revoked {
        return Ok(ProfileRevoked);
      }
      if profile.None? {
        profile := repository.CreatePendingProfile(student, sample.newId);
        if profile.None? {
          return Err(IdTaken);
        }
      }
      var id := profile.value.id;
      assert repository.rows[student].id == id;
      assert HasProfile(repository.rows, id);
      if sample.analysis.None? {
        return Err(EngineRaised);
      }
      var analysis := sample.analysis.value;
      if analysis.status != Success {
        var found := repository.MarkGenerationFailed(id);
        assert found;
        repository.Commit();
        return Ok(FaceProfiles.FailureStatus(analysis.status));
      }
      var saved := repository.SaveGeneratedEmbedding(id, analysis.embedding.value, analysis.modelName.value, modelVersion, sample.at);
      if saved.Err? {
        return Err(Invalid(saved.error));
      }
      assert saved.value;
      repository.Commit();
      return Ok(EnrolSuccess);
    }
  }

  // ----- ReadinessVerificationService

  datatype ReadinessVerificationStatus = Passed | Failed | ProfileNotEnrolled | NoActiveConfig
                                       | CaptureProblem(problem: FaceComparisonStatus)

  datatype ReadinessResult = ReadinessResult(status: ReadinessVerificationStatus, configId: Option<ConfigId>,
                                             similarityScore: Option<real>, similarityThreshold: Option<real>)

  datatype ReadinessError = BadReference(profile: ProfileError) | BadComparison(comparison: ComparisonError) | CaptureRaised

  function ReadinessStatusFor(status: FaceComparisonStatus): ReadinessVerificationStatus {
    if status == Matched then Passed else if status == NotMatched then Failed else CaptureProblem(status)
  }

  datatype Checked = Checked(table: ProfileTable, result: ReadinessResult)

  // One readiness check; `hypot` is the length of a vector.
  function CheckReadiness(table: ProfileTable, configs: ConfigTable, student: StudentId, analysis: Option<FaceAnalysisResult>,
                          modelVersion: string, hypot: Vector -> real, at: Instant): Result<Checked, ReadinessError>
  {
    match StoredEmbeddingForComparison(table, student)
    case Err(error) => Err(BadReference(error))
    case Ok(None) => Ok(Checked(table, ReadinessResult(ProfileNotEnrolled, None, None, None)))
    case Ok(Some(reference)) =>
      var config := GetActive(configs);
      if config.None? then Ok(Checked(table, ReadinessResult(NoActiveConfig, None, None, None)))
      else if analysis.None? then Err(CaptureRaised)
      else
        match Compare(reference, modelVersion, analysis.value, config.value.similarityThreshold,
                      hypot(reference.embedding), hypot(CapturedVector(analysis.value)))
        case Err(error) => Err(BadComparison(error))
        case Ok(comparison) =>
          var passed := comparison.status == Matched;
          Ok(Checked(FaceProfiles.UpdateReadinessResult(table, reference.profileId,
                                                        if passed then ReadinessPassed else ReadinessFailed,
                                                        config.value.id, at),
                     ReadinessResult(ReadinessStatusFor(comparison.status), Some(config.value.id),
                                     comparison.similarityScore, comparison.similarityThreshold)))
  }

  class ReadinessVerificationService {
    const repository: FaceProfileRepository
    const modelVersion: string
    const hypot: Vector -> real

    constructor (repository: FaceProfileRepository, modelVersion: string, hypot: Vector -> real)
      ensures this.repository == repository && this.modelVersion == Strip(modelVersion) && this.hypot == hypot
    {
      this.repository := repository;
      this.modelVersion := Strip(modelVersion);
      this.hypot := hypot;
    }

    method Verify(student: StudentId, configs: ConfigTable, analysis: Option<FaceAnalysisResult>, at: Instant)
      returns (result: Result<ReadinessResult, ReadinessError>)
      requires repository.rows == repository.committed
      modifies repository
      ensures var checked := CheckReadiness(old(repository.rows), configs, student, analysis, modelVersion, hypot, at);
              && repository.rows == repository.committed
              && repository.rows == (if checked.Ok? then checked.value.table else old(repository.rows))
              && result == (if checked.Ok? then Ok(checked.value.result) else Err(checked.error))
    {
      var stored := StoredEmbeddingForComparison(repository.rows, student);
      if stored.Err? {
        return Err(BadReference(stored.error));
      }
      if stored.value.None? {
        return Ok(ReadinessResult(ProfileNotEnrolled, None, None, None));
      }
      var reference := stored.value.value;
      var config := GetActive(configs);
      if config.None? {
        return Ok(ReadinessResult(NoActiveConfig, None, None, None));
      }
      if analysis.None? {
        return Err(CaptureRaised);
      }
      var comparison := Compare(reference, modelVersion, analysis.value, config.value.similarityThreshold,
                                hypot(reference.embedding), hypot(CapturedVector(analysis.value)));
      if comparison.Err? {
        return Err(BadComparison(comparison.error));
      }
      var passed := comparison.value.status == Matched;
      var found := repository.UpdateReadinessResult(reference.profileId, if passed then ReadinessPassed else ReadinessFailed,
                                                    config.value.id, at);
      assert found by {
        assert HasProfile(old(repository.rows), old(repository.rows)[student].id);
      }
      repository.Commit();
      return Ok(ReadinessResult(ReadinessStatusFor(comparison.value.status), Some(config.value.id),
                                comparison.value.similarityScore, comparison.value.similarityThreshold));
    }
  }

  // What the check answers to a capture that could not be compared.
  ghost predicate NamesProblem(analysis: FaceAnalysisStatus, status: ReadinessVerificationStatus) {
    match analysis
    case Success => status == CaptureProblem(ModelMismatch)
    case NoFace => status == CaptureProblem(CapturedNoFace)
    case MultipleFaces => status == CaptureProblem(CapturedMultipleFaces)
    case LowQuality => status == CaptureProblem(CapturedLowQuality)
    case ProcessingFailed => status == CaptureProblem(CaptureFailed)
  }

  // The check's answer: passed or failed as the cosine reaches the threshold, else the problem.
  ghost predicate Verdict(answer: ReadinessResult, config: VerificationConfig, stored: Vector, analysis: FaceAnalysisResult,
                          hypot: Vector -> real)
  {
    && answer.configId == Some(config.id) && answer.similarityThreshold == Some(config.similarityThreshold)
    && match answer.similarityScore
       case None => NamesProblem(analysis.status, answer.status)
       case Some(score) =>
         && answer.status == (if score >= config.similarityThreshold then Passed else Failed)
         && analysis.status == Success && -1.0 <= score <= 1.0
         && IsCosine(score, stored, CapturedVector(analysis), hypot(stored), hypot(CapturedVector(analysis)))
  }

  lemma VerdictOf(stored: StoredFaceEmbedding, config: VerificationConfig, analysis: FaceAnalysisResult, modelVersion: string,
                  hypot: Vector -> real, comparison: FaceComparisonResult)
    requires analysis.Constructible() && 0.0 <= config.similarityThreshold <= 1.0
    requires forall v :: IsMagnitude(hypot(v), v)
    requires Compare(stored, modelVersion, analysis, config.similarityThreshold, hypot(stored.embedding),
                     hypot(CapturedVector(analysis))) == Ok(comparison)
    ensures Verdict(ReadinessResult(ReadinessStatusFor(comparison.status), Some(config.id), comparison.similarityScore,
                                    comparison.similarityThreshold), config, stored.embedding, analysis, hypot)
    ensures comparison.status == Matched <==> ReadinessStatusFor(comparison.status) == Passed
  {
    var mr, mc := hypot(stored.embedding), hypot(CapturedVector(analysis));
    CompareDecides(stored, modelVersion, analysis, config.similarityThreshold, mr, mc);
    if analysis.status == Success {
      SuccessIsScored(stored, modelVersion, analysis, config.similarityThreshold, mr, mc);
    }
  }

  /** A readiness check writes nothing without a reference and an active configuration;
      otherwise it writes only the student's readiness columns, with that configuration and
      time, and `passed` exactly when the true cosine reaches its threshold. A capture that
      cannot be compared is answered by its name. */
  lemma ReadinessDecides(table: ProfileTable, configs: ConfigTable, student: StudentId, analysis: FaceAnalysisResult,
                         modelVersion: string, hypot: Vector -> real, at: Instant)
    requires FaceProfiles.WellFormed(table) && WellFormedTable(configs) && analysis.Constructible()
    requires forall v :: IsMagnitude(hypot(v), v)
    ensures var checked := CheckReadiness(table, configs, student, Some(analysis), modelVersion, hypot, at);
            var enrolled := student in table && table[student].generation == Generated;
            if !enrolled || GetActive(configs).None? then
              checked == Ok(Checked(table, ReadinessResult(if enrolled then NoActiveConfig else ProfileNotEnrolled,
                                                           None, None, None)))
            else
              && (checked.Err? ==> checked.error == BadComparison(Similarity(ZeroVector)))
              && (checked.Ok? ==>
                    var config, answer := GetActive(configs).value, checked.value.result;
                    var readiness := if answer.status == Passed then ReadinessPassed else ReadinessFailed;
                    && checked.value.table == table[student := table[student].(
                         readiness := readiness, readinessConfig := Some(config.id), readinessCheckedAt := Some(at))]
                    && Verdict(answer, config, table[student].embedding.value, analysis, hypot))
  {
    StoredEmbeddingReads(table, student);
    GetActiveSound(configs);
    if student in table && table[student].generation == Generated && GetActive(configs).Some? {
      var config := GetActive(configs).value;
      var stored := StoredEmbeddingForComparison(table, student).value.value;
      var captured := CapturedVector(analysis);
      CompareDecides(stored, modelVersion, analysis, config.similarityThreshold, hypot(stored.embedding), hypot(captured));
      var comparison := Compare(stored, modelVersion, analysis, config.similarityThreshold, hypot(stored.embedding), hypot(captured));
      if comparison.Ok? {
        var status := if comparison.value.status == Matched then ReadinessPassed else ReadinessFailed;
        var id := config.id;
        WrittenById(table, student, p => CheckedRow(p, status, id, at));
        VerdictOf(stored, config, analysis, modelVersion, hypot, comparison.value);
      }
    }
  }

  // ----- the dashboard's view

  datatype ReadinessView = ReadinessView(enrolled: bool, status: ReadinessStatus, requiresCheck: bool, checkedAt: Option<Instant>)

  function GetStatus(table: ProfileTable, student: StudentId): ReadinessView {
    var profile := GetByStudentId(table, student);
    if profile.None? || profile.value.generation != Generated then ReadinessView(false, NotChecked, false, None)
    else ReadinessView(true, profile.value.readiness, profile.value.readiness != ReadinessPassed, profile.value.readinessCheckedAt)
  }

  /** What the dashboard shows next: after a check that passed nothing more is asked of the
      student, after any other a check is, and neither view can precede an enrolment. */
  lemma StatusAfterCheck(table: ProfileTable, configs: ConfigTable, student: StudentId, analysis: FaceAnalysisResult,
                         modelVersion: string, hypot: Vector -> real, at: Instant)
    requires FaceProfiles.WellFormed(table) && WellFormedTable(configs) && analysis.Constructible()
    requires forall v :: IsMagnitude(hypot(v), v)
    requires CheckReadiness(table, configs, student, Some(analysis), modelVersion, hypot, at).Ok?
    ensures var checked := CheckReadiness(table, configs, student, Some(analysis), modelVersion, hypot, at).value;
            var seen := GetStatus(checked.table, student);
            match checked.result.status
            case ProfileNotEnrolled => !seen.enrolled && !seen.requiresCheck
            case NoActiveConfig => seen == GetStatus(table, student) && seen.enrolled
            case _ => seen.enrolled && seen.checkedAt == Some(at) && (seen.requiresCheck <==> checked.result.status != Passed)
  {
    ReadinessDecides(table, configs, student, analysis, modelVersion, hypot, at);
  }

  /** Right after an enrolment that stored a reference, the dashboard shows the student as enrolled
      and asks for a first check, when the table's readiness results were backed before. */
  lemma EnrolmentAsksForCheck(table: ProfileTable, student: StudentId, sample: Sample, version: string)
    requires FaceProfiles.WellFormed(table) && ReadinessSound(table) && SoundSample(sample)
    requires Enroll(table, student, sample, version).Ok?
    requires Enroll(table, student, sample, version).value.status == EnrolSuccess
    ensures var seen := GetStatus(Enroll(table, student, sample, version).value.table, student);
            && seen.enrolled && seen.status == NotChecked && seen.requiresCheck
            && seen.checkedAt == (if student in table then table[student].readinessCheckedAt else None)
  {
    EnrollDecides(table, student, sample, version);
    assert student in table ==> ReadinessBacked(table[student]);
  }
}
