/** Face profiles and the writes that move them between states
    (face_profile_repository.py, face_profile.py, reference_enrollment_service.py). A
    table holds at most one profile per student; embeddings are kept decrypted. */
module FaceProfiles {
  import opened Wrappers
  import opened PythonText
  import opened EmbeddingSimilarity
  import opened FaceEngine
  import opened FaceComparison
  import opened VerificationConfigs

  type StudentId = nat
  type Instant = int

  datatype GenerationStatus = Pending | Generated | GenerationFailed | Revoked
  datatype ReadinessStatus = NotChecked | ReadinessPassed | ReadinessFailed | Expired

  datatype FaceProfile = FaceProfile(
    id: ProfileId,
    generation: GenerationStatus,
    embedding: Option<Vector>,
    modelName: Option<string>,
    modelVersion: Option<string>,
    dimension: Option<int>,
    generatedAt: Option<Instant>,
    readiness: ReadinessStatus,
    readinessConfig: Option<ConfigId>,
    readinessCheckedAt: Option<Instant>)

  type ProfileTable = map<StudentId, FaceProfile>

  datatype ProfileError = EmptyEmbedding | BlankModelName | BlankModelVersion | MissingEmbedding | MissingModelName
                        | MissingModelVersion | InvalidDimension | DimensionMismatch

  // ----- reads

  function GetByStudentId(table: ProfileTable, student: StudentId): Option<FaceProfile> {
    if student in table then Some(table[student]) else None
  }

  predicate HasProfile(table: ProfileTable, id: ProfileId) {
    exists s :: s in table && table[s].id == id
  }

  // None unless the student's profile is generated; raises when its columns are incomplete.
  function StoredEmbeddingForComparison(table: ProfileTable, student: StudentId)
    : Result<Option<StoredFaceEmbedding>, ProfileError>
  {
    if student !in table || table[student].generation != Generated then Ok(None)
    else
      var p := table[student];
      if p.embedding.None? then Err(MissingEmbedding)
      else if p.modelName.None? || p.modelName.value == "" then Err(MissingModelName)
      else if p.modelVersion.None? || p.modelVersion.value == "" then Err(MissingModelVersion)
      else if p.dimension.None? || p.dimension.value <= 0 then Err(InvalidDimension)
      else if |p.embedding.value| != p.dimension.value then Err(ProfileError.DimensionMismatch)
      else Ok(Some(StoredFaceEmbedding(p.id, p.embedding.value, p.modelName.value, p.modelVersion.value, p.dimension.value)))
  }

  // ----- writes: each is an UPDATE ... WHERE id = profile_id, with no guard on the status

  function PendingProfile(id: ProfileId): FaceProfile {
    FaceProfile(id, Pending, None, None, None, None, None, NotChecked, None, None)
  }

  function GeneratedRow(p: FaceProfile, embedding: Vector, modelName: string, modelVersion: string, at: Instant): FaceProfile {
    p.(embedding := Some(embedding), modelName := Some(Strip(modelName)), modelVersion := Some(Strip(modelVersion)),
       dimension := Some(|embedding|), generation := Generated, generatedAt := Some(at))
  }

  function FailedRow(p: FaceProfile): FaceProfile {
    p.(embedding := None, modelName := None, modelVersion := None, dimension := None, generation := GenerationFailed,
       generatedAt := None)
  }

  function CheckedRow(p: FaceProfile, status: ReadinessStatus, config: ConfigId, at: Instant): FaceProfile {
    p.(readiness := status, readinessConfig := Some(config), readinessCheckedAt := Some(at))
  }

  function UpdateWhereId(table: ProfileTable, id: ProfileId, change: FaceProfile -> FaceProfile): ProfileTable {
    map s | s in table :: if table[s].id == id then change(table[s]) else table[s]
  }

  function SaveGeneratedEmbedding(table: ProfileTable, id: ProfileId, embedding: Vector, modelName: string,
                                  modelVersion: string, at: Instant): Result<ProfileTable, ProfileError>
  {
    if embedding == [] then Err(ProfileError.EmptyEmbedding)
    else if Strip(modelName) == "" then Err(BlankModelName)
    else if Strip(modelVersion) == "" then Err(BlankModelVersion)
    else Ok(UpdateWhereId(table, id, p => GeneratedRow(p, embedding, modelName, modelVersion, at)))
  }

  function MarkGenerationFailed(table: ProfileTable, id: ProfileId): ProfileTable {
    UpdateWhereId(table, id, FailedRow)
  }

  function UpdateReadinessResult(table: ProfileTable, id: ProfileId, status: ReadinessStatus, config: ConfigId,
                                 at: Instant): ProfileTable
  {
    UpdateWhereId(table, id, p => CheckedRow(p, status, config, at))
  }

  // ----- one enrolment, its transaction run from start to end

  datatype EnrolmentStatus = EnrolSuccess | AlreadyEnrolled | ProfileRevoked | EnrolNoFace | EnrolMultipleFaces
                           | EnrolLowQuality | EnrolProcessingFailed

  datatype EnrolmentError = EngineRaised | IdTaken | Invalid(error: ProfileError)

  function FailureStatus(status: FaceAnalysisStatus): EnrolmentStatus
    requires status != Success
  {
    match status
    case NoFace => EnrolNoFace
    case MultipleFaces => EnrolMultipleFaces
    case LowQuality => EnrolLowQuality
    case ProcessingFailed => EnrolProcessingFailed
  }

  // What the outside world supplies to one enrolment: the engine's answer (None when it
  // raises), a generated id and the time.
  datatype Sample = Sample(analysis: Option<FaceAnalysisResult>, newId: ProfileId, at: Instant)

  predicate SoundSample(sample: Sample) {
    sample.analysis.Some? ==> sample.analysis.value.Constructible()
  }

  datatype Enrolled = Enrolled(table: ProfileTable, status: EnrolmentStatus)

  // From the engine's answer to the commit.
  function FinishEnrolment(table: ProfileTable, id: ProfileId, analysis: Option<FaceAnalysisResult>, modelVersion: string,
                           at: Instant): Result<Enrolled, EnrolmentError>
    requires analysis.Some? ==> analysis.value.Constructible()
  {
    if analysis.None? then Err(EngineRaised)
    else if analysis.value.status != Success then
      Ok(Enrolled(MarkGenerationFailed(table, id), FailureStatus(analysis.value.status)))
    else
      match SaveGeneratedEmbedding(table, id, analysis.value.embedding.value, analysis.value.modelName.value, modelVersion, at)
      case Err(error) => Err(Invalid(error))
      case Ok(saved) => Ok(Enrolled(saved, EnrolSuccess))
  }

  function Enroll(table: ProfileTable, student: StudentId, sample: Sample, modelVersion: string)
    : Result<Enrolled, EnrolmentError>
    requires SoundSample(sample)
  {
    var profile := GetByStudentId(table, student);
    if profile.Some? && profile.value.generation == Generated then Ok(Enrolled(table, AlreadyEnrolled))
    else if profile.Some? && profile.value.generation == Revoked then Ok(Enrolled(table, ProfileRevoked))
    else if profile.Some? then FinishEnrolment(table, profile.value.id, sample.analysis, modelVersion, sample.at)
    else if HasProfile(table, sample.newId) then Err(IdTaken)
    else FinishEnrolment(table[student := PendingProfile(sample.newId)], sample.newId, sample.analysis, modelVersion, sample.at)
  }

  // The table that a call leaves: unchanged when it raises and rolls back.
  function EnrolledTable(table: ProfileTable, student: StudentId, sample: Sample, modelVersion: string): ProfileTable
    requires SoundSample(sample)
  {
    var result := Enroll(table, student, sample, modelVersion);
    if result.Ok? then result.value.table else table
  }

  // ----- what a table must satisfy

  ghost predicate DistinctIds(table: ProfileTable) {
    forall s, u :: s in table && u in table && s != u ==> table[s].id != table[u].id
  }

  // The embedding columns of a generated row are filled.
  ghost predicate Complete(p: FaceProfile) {
    p.generation == Generated ==>
      && p.embedding.Some? && p.embedding.value != []
      && p.modelName.Some? && p.modelName.value != "" && Trimmed(p.modelName.value)
      && p.modelVersion.Some? && p.modelVersion.value != "" && Trimmed(p.modelVersion.value)
      && p.dimension == Some(|p.embedding.value|)
      && p.generatedAt.Some?
  }

  ghost predicate WellFormed(table: ProfileTable) {
    DistinctIds(table) && forall s :: s in table ==> Complete(table[s])
  }

  ghost predicate ReadinessBacked(p: FaceProfile) {
    p.readiness != NotChecked ==> p.generation == Generated && p.readinessConfig.Some? && p.readinessCheckedAt.Some?
  }

  ghost predicate ReadinessSound(table: ProfileTable) {
    forall s :: s in table ==> ReadinessBacked(table[s])
  }

  // All columns but those of readiness.
  function ReferenceColumns(p: FaceProfile): FaceProfile {
    p.(readiness := NotChecked, readinessConfig := None, readinessCheckedAt := None)
  }

  // Generated references and revoked profiles are as they were.
  ghost predicate Protected(table: ProfileTable, later: ProfileTable) {
    forall s :: s in table ==>
      && s in later
      && (table[s].generation == Generated ==> ReferenceColumns(later[s]) == ReferenceColumns(table[s]))
      && (table[s].generation == Revoked ==> later[s] == table[s])
  }

  lemma ProtectedTrans(a: ProfileTable, b: ProfileTable, c: ProfileTable)
    requires Protected(a, b) && Protected(b, c)
    ensures Protected(a, c)
  {
    forall s | s in a && a[s].generation == Generated ensures ReferenceColumns(c[s]) == ReferenceColumns(a[s]) {
      assert ReferenceColumns(b[s]).generation == Generated;
    }
  }

  // ----- what the writes do to one student's row and to the others

  lemma WrittenById(table: ProfileTable, student: StudentId, change: FaceProfile -> FaceProfile)
    requires DistinctIds(table) && student in table
    ensures UpdateWhereId(table, table[student].id, change) == table[student := change(table[student])]
  {
  }

  lemma GeneratedRowComplete(p: FaceProfile, embedding: Vector, name: string, version: string, at: Instant)
    requires embedding != [] && Strip(name) != "" && Strip(version) != ""
    ensures Complete(GeneratedRow(p, embedding, name, version, at))
  {
    StripIsTrimmed(name);
    StripIsTrimmed(version);
  }

  // Nothing of a reference is left in the row.
  ghost predicate Cleared(row: FaceProfile) {
    row.embedding.None? && row.modelName.None? && row.modelVersion.None? && row.dimension.None? && row.generatedAt.None?
  }

  // The row a finished enrolment writes in place of p.
  ghost predicate FinishedRow(p: FaceProfile, row: FaceProfile, status: EnrolmentStatus) {
    && Complete(row)
    && row.id == p.id && row.readiness == p.readiness
    && row.generation == (if status == EnrolSuccess then Generated else GenerationFailed)
    && (status != EnrolSuccess ==> Cleared(row))
  }

  lemma FinishWrites(table: ProfileTable, student: StudentId, analysis: Option<FaceAnalysisResult>, version: string, at: Instant)
    requires DistinctIds(table) && student in table && (analysis.Some? ==> analysis.value.Constructible())
    ensures var r := FinishEnrolment(table, table[student].id, analysis, version, at);
            r.Ok? ==> student in r.value.table && r.value.status !in {AlreadyEnrolled, ProfileRevoked}
                      && r.value.table == table[student := r.value.table[student]]
                      && FinishedRow(table[student], r.value.table[student], r.value.status)
  {
    var r := FinishEnrolment(table, table[student].id, analysis, version, at);
    if r.Ok? {
      if analysis.value.status == Success {
        var embedding, name := analysis.value.embedding.value, analysis.value.modelName.value;
        WrittenById(table, student, p => GeneratedRow(p, embedding, name, version, at));
        GeneratedRowComplete(table[student], embedding, name, version, at);
      } else {
        WrittenById(table, student, FailedRow);
      }
    }
  }

  // What one enrolment keeps.
  ghost predicate Enrolment(table: ProfileTable, later: ProfileTable, student: StudentId) {
    && WellFormed(later) && Protected(table, later)
    && later.Keys - {student} == table.Keys - {student}
    && (forall s :: s in table && s != student ==> later[s] == table[s])
    && (ReadinessSound(table) ==> ReadinessSound(later))
  }

  // Replacing a row that is neither generated nor revoked, or adding one.
  lemma RowReplaced(table: ProfileTable, student: StudentId, row: FaceProfile)
    requires WellFormed(table) && Complete(row)
    requires forall s :: s in table && s != student ==> table[s].id != row.id
    requires student in table ==> table[student].generation !in {Generated, Revoked}
    requires ReadinessSound(table) ==> ReadinessBacked(row)
    ensures Enrolment(table, table[student := row], student)
  {
  }

  lemma OtherIds(table: ProfileTable, base: ProfileTable, student: StudentId)
    requires DistinctIds(base) && student in base && base == table[student := base[student]]
    ensures forall s :: s in table && s != student ==> table[s].id != base[student].id
  {
    forall s | s in table && s != student ensures table[s].id != base[student].id {
      assert base[s] == table[s];
    }
  }

  // `base` holds the student's pending or failed row, which `table` may not hold yet.
  lemma FinishProtects(table: ProfileTable, base: ProfileTable, student: StudentId, analysis: Option<FaceAnalysisResult>,
                       version: string, at: Instant)
    requires WellFormed(table) && DistinctIds(base) && student in base && base == table[student := base[student]]
    requires student in table ==> table[student].generation !in {Generated, Revoked}
    requires base[student].readiness == NotChecked || !ReadinessSound(table)
    requires analysis.Some? ==> analysis.value.Constructible()
    ensures var r := FinishEnrolment(base, base[student].id, analysis, version, at);
            r.Ok? ==> && Enrolment(table, r.value.table, student) && student in r.value.table
                      && (r.value.status == EnrolSuccess <==> r.value.table[student].generation == Generated)
                      && (r.value.status != EnrolSuccess ==>
                            Cleared(r.value.table[student]) && r.value.table[student].generation == GenerationFailed)
  {
    var r := FinishEnrolment(base, base[student].id, analysis, version, at);
    FinishWrites(base, student, analysis, version, at);
    OtherIds(table, base, student);
    if r.Ok? {
      ghost var row := r.value.table[student];
      FinishedReplaces(table, base, student, row, r.value.table);
    }
  }

  lemma FinishedReplaces(table: ProfileTable, base: ProfileTable, student: StudentId, row: FaceProfile, later: ProfileTable)
    requires WellFormed(table) && student in base && base == table[student := base[student]]
    requires student in table ==> table[student].generation !in {Generated, Revoked}
    requires base[student].readiness == NotChecked || !ReadinessSound(table)
    requires forall s :: s in table && s != student ==> table[s].id != base[student].id
    requires Complete(row) && row.id == base[student].id && row.readiness == base[student].readiness
    requires later == base[student := row]
    ensures Enrolment(table, later, student)
  {
    assert later == table[student := row];
    RowReplaced(table, student, row);
  }

  /** One enrolment on its own never alters a generated or revoked profile, touches no other
      student's row, keeps every readiness result backed by a generated embedding, and
      succeeds exactly when it leaves a generated profile that was not there before. */
  lemma EnrollProtects(table: ProfileTable, student: StudentId, sample: Sample, version: string)
    requires WellFormed(table) && SoundSample(sample)
    ensures Enrolment(table, EnrolledTable(table, student, sample, version), student)
    ensures var later := EnrolledTable(table, student, sample, version);
            Enroll(table, student, sample, version).Ok?
            && Enroll(table, student, sample, version).value.status == EnrolSuccess
            <==> && student in later && later[student].generation == Generated
                 && (student !in table || table[student].generation != Generated)
    ensures Enroll(table, student, sample, version).Ok?
            && Enroll(table, student, sample, version).value.status !in {EnrolSuccess, AlreadyEnrolled, ProfileRevoked} ==>
              var later := EnrolledTable(table, student, sample, version);
              student in later && later[student].generation == GenerationFailed && Cleared(later[student])
  {
    if student in table {
      if table[student].generation !in {Generated, Revoked} {
        FinishProtects(table, table, student, sample.analysis, version, sample.at);
      }
    } else if !HasProfile(table, sample.newId) {
      FinishProtects(table, table[student := PendingProfile(sample.newId)], student, sample.analysis, version, sample.at);
    }
  }

  // ----- what one enrolment decides

  // The status that goes with a capture that failed.
  ghost predicate NamesFailure(analysis: FaceAnalysisStatus, status: EnrolmentStatus) {
    match analysis
    case Success => false
    case NoFace => status == EnrolNoFace
    case MultipleFaces => status == EnrolMultipleFaces
    case LowQuality => status == EnrolLowQuality
    case ProcessingFailed => status == EnrolProcessingFailed
  }

  // The row the engine's answer is written to: the student's own, or a fresh one.
  ghost function RowBefore(table: ProfileTable, student: StudentId, newId: ProfileId): FaceProfile {
    if student in table then table[student]
    else FaceProfile(newId, Pending, None, None, None, None, None, NotChecked, None, None)
  }

  // An enrolment that the engine answered: its row is the student's, with its readiness columns.
  ghost predicate Written(table: ProfileTable, student: StudentId, before: FaceProfile, analysis: FaceAnalysisResult,
                          version: string, at: Instant, result: Result<Enrolled, EnrolmentError>)
  {
    if analysis.status != Success then
      && result.Ok? && NamesFailure(analysis.status, result.value.status)
      && result.value.table
         == table[student := FaceProfile(before.id, GenerationFailed, None, None, None, None, None,
                                         before.readiness, before.readinessConfig, before.readinessCheckedAt)]
    else if Strip(analysis.modelName.GetOr("")) == "" then result == Err(Invalid(BlankModelName))
    else if Strip(version) == "" then result == Err(Invalid(BlankModelVersion))
    else
      && analysis.embedding.Some?
      && result == Ok(Enrolled(
           table[student := FaceProfile(before.id, Generated, analysis.embedding, Some(Strip(analysis.modelName.GetOr(""))),
                                        Some(Strip(version)), Some(|analysis.embedding.value|), Some(at),
                                        before.readiness, before.readinessConfig, before.readinessCheckedAt)],
           EnrolSuccess))
  }

  ghost predicate EnrolDecision(table: ProfileTable, student: StudentId, sample: Sample, version: string,
                                result: Result<Enrolled, EnrolmentError>)
  {
    if student in table && table[student].generation == Generated then result == Ok(Enrolled(table, AlreadyEnrolled))
    else if student in table && table[student].generation == Revoked then result == Ok(Enrolled(table, ProfileRevoked))
    else if student !in table && exists s :: s in table && table[s].id == sample.newId then result == Err(IdTaken)
    else if sample.analysis.None? then result == Err(EngineRaised)
    else Written(table, student, RowBefore(table, student, sample.newId), sample.analysis.value, version, sample.at, result)
  }

  lemma FinishDecides(table: ProfileTable, base: ProfileTable, student: StudentId, analysis: FaceAnalysisResult,
                      version: string, at: Instant)
    requires DistinctIds(base) && student in base && base == table[student := base[student]] && analysis.Constructible()
    ensures Written(table, student, base[student], analysis, version, at,
                    FinishEnrolment(base, base[student].id, Some(analysis), version, at))
  {
    if analysis.status != Success {
      WrittenById(base, student, FailedRow);
      assert base[student := FailedRow(base[student])] == table[student := FailedRow(base[student])];
    } else {
      var embedding, name := analysis.embedding.value, analysis.modelName.value;
      var row := GeneratedRow(base[student], embedding, name, version, at);
      WrittenById(base, student, p => GeneratedRow(p, embedding, name, version, at));
      assert base[student := row] == table[student := row];
    }
  }

  /** What an enrolment answers and writes: a student with a generated or revoked profile is left
      alone; a capture that failed is answered by its name and clears the row; a successful one
      stores the embedding under the stripped model name and version, with its dimension and time,
      unless one of these is blank. Nothing else of the row, and no other row, is written. */
  lemma EnrollDecides(table: ProfileTable, student: StudentId, sample: Sample, version: string)
    requires WellFormed(table) && SoundSample(sample)
    ensures EnrolDecision(table, student, sample, version, Enroll(table, student, sample, version))
  {
    if sample.analysis.Some? {
      if student in table {
        assert table == table[student := table[student]];
        FinishDecides(table, table, student, sample.analysis.value, version, sample.at);
      } else if !HasProfile(table, sample.newId) {
        FinishDecides(table, table[student := PendingProfile(sample.newId)], student, sample.analysis.value, version, sample.at);
      }
    }
  }

  /** A complete table never makes the comparison's read raise, and the read finds a
      reference exactly for generated profiles. */
  lemma StoredEmbeddingReads(table: ProfileTable, student: StudentId)
    requires WellFormed(table)
    ensures StoredEmbeddingForComparison(table, student).Ok?
    ensures var stored := StoredEmbeddingForComparison(table, student).value;
            && (stored.Some? <==> student in table && table[student].generation == Generated)
            && (stored.Some? ==>
                  var p := table[student];
                  && stored.value.profileId == p.id
                  && Some(stored.value.embedding) == p.embedding && stored.value.embedding != []
                  && Some(stored.value.modelName) == p.modelName && Some(stored.value.modelVersion) == p.modelVersion
                  && stored.value.dimension == |stored.value.embedding|)
  {
  }
}
