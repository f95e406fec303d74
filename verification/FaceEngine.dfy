/** The face engine's result type and the reading of InsightFace's output
    (face_engine.py, insightface_engine.py). The detector itself is a parameter:
    any list of faces. */
module FaceEngine {
  import opened Wrappers
  import opened EmbeddingSimilarity

  datatype FaceAnalysisStatus = Success | NoFace | MultipleFaces | LowQuality | ProcessingFailed

  datatype FaceAnalysisResult = FaceAnalysisResult(
    status: FaceAnalysisStatus,
    faceCount: int,
    embedding: Option<Vector>,
    detectionConfidence: Option<real>,
    modelName: Option<string>,
    failureReason: Option<string>)
  {
    // The combinations the constructor accepts; every other one raises.
    predicate Constructible() {
      && faceCount >= 0
      && (detectionConfidence.Some? ==> 0.0 <= detectionConfidence.value <= 1.0)
      && if status == Success then
           && faceCount == 1
           && embedding.Some? && embedding.value != []
           && detectionConfidence.Some?
           && modelName.Some? && modelName.value != ""
         else
           embedding.None?
    }
  }

  // One detected face: the raw detector score and the raw embedding, either of
  // which may be missing or not numeric.
  datatype Face = Face(detectionScore: Option<real>, rawEmbedding: Option<Vector>)

  function ReadDetectionConfidence(face: Face): Option<real> {
    if face.detectionScore.Some? && 0.0 <= face.detectionScore.value <= 1.0 then face.detectionScore else None
  }

  function ReadNormalizedEmbedding(face: Face, magnitude: real): Option<Vector> {
    if face.rawEmbedding.None? || face.rawEmbedding.value == [] || magnitude <= 0.0 then None
    else Some(Divide(face.rawEmbedding.value, magnitude))
  }

  function Failure(status: FaceAnalysisStatus, faceCount: nat, reason: string, confidence: Option<real>,
                   modelName: string): FaceAnalysisResult {
    FaceAnalysisResult(status, faceCount, None, confidence, Some(modelName), Some(reason))
  }

  // What `analyze` makes of the detector's answer; `magnitude` is the length of
  // the first face's embedding.
  function InterpretFaces(faces: seq<Face>, magnitude: real, minimumConfidence: real, modelName: string)
    : FaceAnalysisResult
  {
    if |faces| == 0 then Failure(NoFace, 0, "No face was detected", None, modelName)
    else if |faces| > 1 then Failure(MultipleFaces, |faces|, "More than one face was detected", None, modelName)
    else
      var confidence := ReadDetectionConfidence(faces[0]);
      if confidence.None? then
        Failure(ProcessingFailed, 1, "Face detection confidence is invalid", None, modelName)
      else if confidence.value < minimumConfidence then
        Failure(LowQuality, 1, "Face detection confidence is too low", confidence, modelName)
      else
        var embedding := ReadNormalizedEmbedding(faces[0], magnitude);
        if embedding.None? then
          Failure(ProcessingFailed, 1, "Face embedding is invalid", confidence, modelName)
        else
          FaceAnalysisResult(Success, 1, embedding, confidence, Some(modelName), None)
  }

  // The embedding the engine would analyze, when there is exactly one face with one.
  function RawEmbedding(faces: seq<Face>): Vector {
    if |faces| == 1 && faces[0].rawEmbedding.Some? then faces[0].rawEmbedding.value else []
  }

  // The one face's confidence, when there is one face and its score is a probability.
  ghost predicate Confident(faces: seq<Face>, confidence: real) {
    |faces| == 1 && faces[0].detectionScore == Some(confidence) && 0.0 <= confidence <= 1.0
  }

  /** The engine only ever builds results its constructor accepts, succeeds exactly on
      one confident face with a non-zero embedding, and then returns a unit vector that
      points where the detector's does. */
  lemma InterpretFacesSound(faces: seq<Face>, magnitude: real, minimumConfidence: real, modelName: string)
    requires modelName != "" && IsMagnitude(magnitude, RawEmbedding(faces))
    ensures InterpretFaces(faces, magnitude, minimumConfidence, modelName).Constructible()
    ensures InterpretFaces(faces, magnitude, minimumConfidence, modelName).status == Success
       <==> && |faces| == 1
            && faces[0].detectionScore.Some?
            && 0.0 <= faces[0].detectionScore.value <= 1.0
            && minimumConfidence <= faces[0].detectionScore.value
            && exists i :: 0 <= i < |RawEmbedding(faces)| && RawEmbedding(faces)[i] != 0.0
    ensures var r := InterpretFaces(faces, magnitude, minimumConfidence, modelName);
            r.status == Success ==> |r.embedding.value| == |RawEmbedding(faces)| && IsMagnitude(1.0, r.embedding.value)
    ensures var r := InterpretFaces(faces, magnitude, minimumConfidence, modelName);
            r.status == Success ==>
              forall i :: 0 <= i < |r.embedding.value| ==> r.embedding.value[i] * magnitude == RawEmbedding(faces)[i]
  {
    MagnitudePositive(RawEmbedding(faces), magnitude);
    var r := InterpretFaces(faces, magnitude, minimumConfidence, modelName);
    if r.status == Success {
      NormalizedHasUnitLength(RawEmbedding(faces), magnitude);
      forall i | 0 <= i < |r.embedding.value| ensures r.embedding.value[i] * magnitude == RawEmbedding(faces)[i] {
        DividedEntries(RawEmbedding(faces), magnitude, i);
      }
    }
  }

  /** Each failure has its one cause: no face, several faces, a confidence below the minimum, and
      for a processing failure a score or an embedding that cannot be read. The result counts the
      faces, keeps a readable confidence and has a reason exactly when it failed. */
  lemma FailuresHaveTheirCause(faces: seq<Face>, magnitude: real, minimumConfidence: real, modelName: string)
    requires IsMagnitude(magnitude, RawEmbedding(faces))
    ensures var r := InterpretFaces(faces, magnitude, minimumConfidence, modelName);
            && (r.status == NoFace <==> |faces| == 0)
            && (r.status == MultipleFaces <==> |faces| > 1)
            && (r.status == LowQuality <==> exists c :: Confident(faces, c) && c < minimumConfidence)
            && (r.status == ProcessingFailed <==>
                  && |faces| == 1
                  && (forall c :: Confident(faces, c) ==>
                        minimumConfidence <= c && forall i :: 0 <= i < |RawEmbedding(faces)| ==> RawEmbedding(faces)[i] == 0.0))
            && r.faceCount == |faces| && r.modelName == Some(modelName)
            && (forall c :: r.detectionConfidence == Some(c) <==> Confident(faces, c))
            && (r.failureReason.Some? <==> r.status != Success)
  {
    MagnitudePositive(RawEmbedding(faces), magnitude);
    if |faces| == 1 && faces[0].detectionScore.Some? {
      var c := faces[0].detectionScore.value;
      assert Confident(faces, c) <==> 0.0 <= c <= 1.0;
    }
  }
}
