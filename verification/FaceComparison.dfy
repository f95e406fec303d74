/** The capture-to-reference comparison shared by attendance and readiness
    (face_comparison_service.py). */
module FaceComparison {
  import opened Wrappers
  import opened EmbeddingSimilarity
  import opened FaceEngine

  type ProfileId = nat

  datatype StoredFaceEmbedding = StoredFaceEmbedding(
    profileId: ProfileId, embedding: Vector, modelName: string, modelVersion: string, dimension: int)

  datatype FaceComparisonStatus = Matched | NotMatched | CapturedNoFace | CapturedMultipleFaces
                                | CapturedLowQuality | CaptureFailed | ModelMismatch

  datatype FaceComparisonResult = FaceComparisonResult(
    status: FaceComparisonStatus,
    similarityScore: Option<real>,
    similarityThreshold: Option<real>,
    detectionConfidence: Option<real>,
    modelName: Option<string>,
    failureReason: Option<string>)

  datatype ComparisonError = ThresholdOutOfRange | MissingAnalysisData | Similarity(error: EmbeddingError)

  // The string value of each status.
  function StatusValue(status: FaceComparisonStatus): string {
    match status
    case Matched => "matched"
    case NotMatched => "not_matched"
    case CapturedNoFace => "no_face"
    case CapturedMultipleFaces => "multiple_faces"
    case CapturedLowQuality => "low_quality"
    case CaptureFailed => "processing_failed"
    case ModelMismatch => "model_mismatch"
  }

  function FailureStatus(status: FaceAnalysisStatus): FaceComparisonStatus
    requires status != Success
  {
    match status
    case NoFace => CapturedNoFace
    case MultipleFaces => CapturedMultipleFaces
    case LowQuality => CapturedLowQuality
    case ProcessingFailed => CaptureFailed
  }

  predicate Compatible(reference: StoredFaceEmbedding, modelVersion: string, model: string, captured: Vector) {
    && reference.modelName == model
    && reference.modelVersion == modelVersion
    && reference.dimension == |reference.embedding|
    && reference.dimension == |captured|
  }

  function Compare(reference: StoredFaceEmbedding, modelVersion: string, analysis: FaceAnalysisResult, threshold: real,
                   referenceMagnitude: real, capturedMagnitude: real): Result<FaceComparisonResult, ComparisonError> {
    if !(0.0 <= threshold <= 1.0) then Err(ThresholdOutOfRange)
    else if analysis.status != Success then
      Ok(FaceComparisonResult(FailureStatus(analysis.status), None, Some(threshold), analysis.detectionConfidence,
                              analysis.modelName, analysis.failureReason))
    else if analysis.embedding.None? || analysis.modelName.None? then Err(MissingAnalysisData)
    else if !Compatible(reference, modelVersion, analysis.modelName.value, analysis.embedding.value) then
      Ok(FaceComparisonResult(ModelMismatch, None, Some(threshold), analysis.detectionConfidence,
                              analysis.modelName, Some("Captured and reference embeddings are incompatible")))
    else
      match CosineSimilarity(reference.embedding, analysis.embedding.value, referenceMagnitude, capturedMagnitude)
      case Err(error) => Err(Similarity(error))
      case Ok(score) =>
        var matched := score >= threshold;
        Ok(FaceComparisonResult(if matched then Matched else NotMatched, Some(score), Some(threshold),
                                analysis.detectionConfidence, analysis.modelName,
                                if matched then None else Some("Face similarity was below the required threshold")))
  }

  // The embedding of an analysis, or the empty vector.
  function CapturedVector(analysis: FaceAnalysisResult): Vector {
    if analysis.embedding.Some? then analysis.embedding.value else []
  }

  // What every comparison result promises, however it was reached.
  ghost predicate Decided(result: FaceComparisonResult, threshold: real) {
    && result.similarityThreshold == Some(threshold)
    && (result.similarityScore.Some? <==> result.status in {Matched, NotMatched})
    && (result.similarityScore.Some? ==>
          && -1.0 <= result.similarityScore.value <= 1.0
          && (result.status == Matched <==> result.similarityScore.value >= threshold))
  }

  predicate Scored(result: Result<FaceComparisonResult, ComparisonError>) {
    result.Ok? && result.value.similarityScore.Some?
  }

  // A result without a score: what the analysis reported, and the threshold that was asked for.
  ghost function Unscored(status: FaceComparisonStatus, analysis: FaceAnalysisResult, threshold: real,
                          reason: Option<string>): Result<FaceComparisonResult, ComparisonError> {
    Ok(FaceComparisonResult(status, None, Some(threshold), analysis.detectionConfidence, analysis.modelName, reason))
  }

  // The same model, the same version, and embeddings of the length the reference declares.
  ghost predicate FitsReference(reference: StoredFaceEmbedding, modelVersion: string, analysis: FaceAnalysisResult) {
    && analysis.modelName == Some(reference.modelName)
    && modelVersion == reference.modelVersion
    && |reference.embedding| == |CapturedVector(analysis)| == reference.dimension
  }

  // A vector with a direction.
  ghost predicate NonZero(v: Vector) {
    exists i :: 0 <= i < |v| && v[i] != 0.0
  }

  /** The comparison of a successful capture: an embedding that does not fit the reference is
      reported as a model mismatch; of those that fit, only a zero vector makes the call raise; and
      every other one gets the cosine as its score, which matches exactly from the threshold on. */
  lemma SuccessIsScored(reference: StoredFaceEmbedding, modelVersion: string, analysis: FaceAnalysisResult,
                        threshold: real, mr: real, mc: real)
    requires 0.0 <= threshold <= 1.0 && analysis.Constructible() && analysis.status == Success
    requires IsMagnitude(mr, reference.embedding) && IsMagnitude(mc, CapturedVector(analysis))
    ensures var result := Compare(reference, modelVersion, analysis, threshold, mr, mc);
            if !FitsReference(reference, modelVersion, analysis) then
              result == Unscored(ModelMismatch, analysis, threshold,
                                 Some("Captured and reference embeddings are incompatible"))
            else if !NonZero(reference.embedding) || !NonZero(CapturedVector(analysis)) then
              result == Err(Similarity(ZeroVector))
            else
              && result.Ok? && result.value.similarityScore.Some?
              && var score := result.value.similarityScore.value;
                 && IsCosine(score, reference.embedding, CapturedVector(analysis), mr, mc)
                 && result.value.status == (if score < threshold then NotMatched else Matched)
                 && result.value.similarityThreshold == Some(threshold)
                 && result.value.detectionConfidence == analysis.detectionConfidence
                 && result.value.modelName == analysis.modelName
                 && result.value.failureReason
                    == (if score < threshold then Some("Face similarity was below the required threshold") else None)
  {
    var captured := CapturedVector(analysis);
    MagnitudePositive(reference.embedding, mr);
    MagnitudePositive(captured, mc);
    CosineDefined(reference.embedding, captured, mr, mc);
    if FitsReference(reference, modelVersion, analysis) && NonZero(reference.embedding) && NonZero(captured) {
      ScoreIsCosine(reference.embedding, captured, mr, mc, CosineSimilarity(reference.embedding, captured, mr, mc).value);
    }
  }

  /** The comparison's decision. A capture without a usable face gets the status of that name and
      the engine's own reason, and is compared with nothing. A score appears exactly for matched and
      not-matched results, lies in [-1, 1], and matches exactly when it reaches the threshold. The
      call raises only on a zero vector. */
  lemma CompareDecides(reference: StoredFaceEmbedding, modelVersion: string, analysis: FaceAnalysisResult,
                       threshold: real, mr: real, mc: real)
    requires 0.0 <= threshold <= 1.0 && analysis.Constructible()
    requires IsMagnitude(mr, reference.embedding) && IsMagnitude(mc, CapturedVector(analysis))
    ensures Compare(reference, modelVersion, analysis, threshold, mr, mc).Err? ==>
              Compare(reference, modelVersion, analysis, threshold, mr, mc).error == Similarity(ZeroVector)
    ensures Compare(reference, modelVersion, analysis, threshold, mr, mc).Ok? ==>
              Decided(Compare(reference, modelVersion, analysis, threshold, mr, mc).value, threshold)
    ensures Scored(Compare(reference, modelVersion, analysis, threshold, mr, mc))
       <==> && analysis.status == Success
            && FitsReference(reference, modelVersion, analysis)
            && NonZero(reference.embedding) && NonZero(CapturedVector(analysis))
    ensures analysis.status == NoFace ==>
              Compare(reference, modelVersion, analysis, threshold, mr, mc)
              == Unscored(CapturedNoFace, analysis, threshold, analysis.failureReason)
    ensures analysis.status == MultipleFaces ==>
              Compare(reference, modelVersion, analysis, threshold, mr, mc)
              == Unscored(CapturedMultipleFaces, analysis, threshold, analysis.failureReason)
    ensures analysis.status == LowQuality ==>
              Compare(reference, modelVersion, analysis, threshold, mr, mc)
              == Unscored(CapturedLowQuality, analysis, threshold, analysis.failureReason)
    ensures analysis.status == ProcessingFailed ==>
              Compare(reference, modelVersion, analysis, threshold, mr, mc)
              == Unscored(CaptureFailed, analysis, threshold, analysis.failureReason)
  {
    if analysis.status == Success {
      SuccessIsScored(reference, modelVersion, analysis, threshold, mr, mc);
      if Scored(Compare(reference, modelVersion, analysis, threshold, mr, mc)) {
        CosineValue(reference.embedding, CapturedVector(analysis), mr, mc);
      }
    }
  }
}
