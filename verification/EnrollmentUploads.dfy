/** The upload route (api/routes/enrollment.py:35-143): check and stage every uploaded image
    in an empty directory, then import that directory under the batch lock. */
module EnrollmentUploads {
  import opened Wrappers
  import opened PythonText
  import opened FaceProfiles
  import opened ReferenceEnrollment
  import opened EnrollmentBatch

  type Bytes = seq<bv8>

  datatype Upload = Upload(filename: Option<string>, contentType: Option<string>, content: Bytes)

  datatype UploadError = UnsafeName | DuplicateName | UnsupportedMedia | EmptyImage | ImageTooLarge | BatchTooLarge

  const MAX_ENROLLMENT_IMAGES := 500
  const MAX_ENROLLMENT_IMAGE_BYTES := 5 * 1024 * 1024
  const MAX_ENROLLMENT_BATCH_BYTES := 250 * 1024 * 1024
  const ALLOWED_IMAGE_CONTENT_TYPES := {"image/jpeg", "image/png", "application/octet-stream"}

  function UploadName(image: Upload): string {
    Strip(image.filename.GetOr(""))
  }

  // Not empty, no separator, and not ".", whose pathlib name is empty.
  predicate SafeName(name: string) {
    name != "" && '/' !in name && '\\' !in name && name != "."
  }

  predicate AllowedMedia(image: Upload) {
    Supported(UploadName(image)) && image.contentType.Some? && image.contentType.value in ALLOWED_IMAGE_CONTENT_TYPES
  }

  // image.read(MAX_ENROLLMENT_IMAGE_BYTES + 1)
  function Read(image: Upload): Bytes {
    if |image.content| <= MAX_ENROLLMENT_IMAGE_BYTES + 1 then image.content
    else image.content[..MAX_ENROLLMENT_IMAGE_BYTES + 1]
  }

  // ----- what staging is for: a condition on the whole batch

  predicate Fit(image: Upload) {
    SafeName(UploadName(image)) && AllowedMedia(image) && 0 < |image.content| <= MAX_ENROLLMENT_IMAGE_BYTES
  }

  function TotalBytes(images: seq<Upload>): nat {
    if images == [] then 0 else TotalBytes(images[..|images| - 1]) + |images[|images| - 1].content|
  }

  predicate DistinctNames(images: seq<Upload>, fold: string -> string) {
    forall i, j :: 0 <= i < j < |images| ==> fold(UploadName(images[i])) != fold(UploadName(images[j]))
  }

  predicate AllFit(images: seq<Upload>) {
    forall i :: 0 <= i < |images| ==> Fit(images[i])
  }

  predicate Acceptable(images: seq<Upload>, fold: string -> string) {
    && AllFit(images)
    && DistinctNames(images, fold)
    && TotalBytes(images) <= MAX_ENROLLMENT_BATCH_BYTES
  }

  function StagedFiles(images: seq<Upload>): map<string, Bytes> {
    if images == [] then map[]
    else
      var last := images[|images| - 1];
      StagedFiles(images[..|images| - 1])[UploadName(last) := last.content]
  }

  // ----- the loop's checks, in its order

  function SeenNames(images: seq<Upload>, fold: string -> string): set<string> {
    if images == [] then {} else SeenNames(images[..|images| - 1], fold) + {fold(UploadName(images[|images| - 1]))}
  }

  lemma {:induction false} SeenMeans(images: seq<Upload>, fold: string -> string, name: string)
    ensures name in SeenNames(images, fold) <==> exists i :: 0 <= i < |images| && fold(UploadName(images[i])) == name
  {
    if images != [] {
      var front, last := images[..|images| - 1], images[|images| - 1];
      SeenMeans(front, fold, name);
      if i :| 0 <= i < |images| && fold(UploadName(images[i])) == name {
        assert i < |front| ==> front[i] == images[i];
      }
      if i :| 0 <= i < |front| && fold(UploadName(front[i])) == name {
        assert images[i] == front[i];
      }
      assert images[|front|] == last;
    }
  }

  // The first objection to an image after the accepted ones before it.
  function Objection(before: seq<Upload>, image: Upload, fold: string -> string): Option<UploadError> {
    if !SafeName(UploadName(image)) then Some(UnsafeName)
    else if fold(UploadName(image)) in SeenNames(before, fold) then Some(DuplicateName)
    else if !AllowedMedia(image) then Some(UnsupportedMedia)
    else if image.content == [] then Some(EmptyImage)
    else if |image.content| > MAX_ENROLLMENT_IMAGE_BYTES then Some(ImageTooLarge)
    else if TotalBytes(before + [image]) > MAX_ENROLLMENT_BATCH_BYTES then Some(BatchTooLarge)
    else None
  }

  // The same checks in the terms of what is sent: 5 MB an image, 250 MB a batch.
  ghost predicate Objects(before: seq<Upload>, image: Upload, fold: string -> string, error: UploadError) {
    if !IsFileName(Strip(image.filename.GetOr(""))) then error == UnsafeName
    else if IsTaken(before, fold(Strip(image.filename.GetOr(""))), fold) then error == DuplicateName
    else if !IsPicture(Strip(image.filename.GetOr("")), image.contentType) then error == UnsupportedMedia
    else if |image.content| == 0 then error == EmptyImage
    else if |image.content| > 5_242_880 then error == ImageTooLarge
    else error == BatchTooLarge && TotalBytes(before) + |image.content| > 262_144_000
  }

  ghost predicate IsFileName(name: string) {
    name != "" && name != "." && forall i :: 0 <= i < |name| ==> name[i] !in {'/', '\\'}
  }

  ghost predicate IsTaken(before: seq<Upload>, folded: string, fold: string -> string) {
    exists i :: 0 <= i < |before| && fold(Strip(before[i].filename.GetOr(""))) == folded
  }

  // A name of the right kind, and a declared type that goes with it.
  ghost predicate IsPicture(name: string, contentType: Option<string>) {
    && (EndsIn(name, ".jpeg") || EndsIn(name, ".jpg") || EndsIn(name, ".png"))
    && contentType in {Some("image/jpeg"), Some("image/png"), Some("application/octet-stream")}
  }

  lemma FileNameIs(name: string)
    ensures SafeName(name) <==> IsFileName(name)
  {
  }

  lemma TakenIs(before: seq<Upload>, folded: string, fold: string -> string)
    ensures folded in SeenNames(before, fold) <==> IsTaken(before, folded, fold)
  {
    SeenMeans(before, fold, folded);
    assert forall i :: 0 <= i < |before| ==> UploadName(before[i]) == Strip(before[i].filename.GetOr(""));
  }

  lemma PictureIs(image: Upload)
    ensures AllowedMedia(image) <==> IsPicture(Strip(image.filename.GetOr("")), image.contentType)
  {
    SupportedExactly(Strip(image.filename.GetOr("")));
  }

  /** The sum is that of the images' own sizes. */
  lemma TotalGrows(before: seq<Upload>, image: Upload)
    ensures TotalBytes([]) == 0
    ensures TotalBytes(before + [image]) == TotalBytes(before) + |image.content|
  {
    assert (before + [image])[..|before|] == before;
  }

  /** Which error an image meets after the accepted ones before it: the first of the checks on its
      name, its kind, its size and the batch's size that fails. */
  lemma ObjectionIs(before: seq<Upload>, image: Upload, fold: string -> string, error: UploadError)
    ensures Objection(before, image, fold) == Some(error) <==> Objects(before, image, fold, error)
  {
    FileNameIs(UploadName(image));
    TakenIs(before, fold(UploadName(image)), fold);
    PictureIs(image);
    TotalGrows(before, image);
  }

  lemma FitSnoc(before: seq<Upload>, image: Upload)
    ensures AllFit(before + [image]) <==> AllFit(before) && Fit(image)
  {
    var images := before + [image];
    assert images[|before|] == image;
    assert forall i :: 0 <= i < |before| ==> images[i] == before[i];
  }

  lemma DistinctSnoc(before: seq<Upload>, image: Upload, fold: string -> string)
    ensures DistinctNames(before + [image], fold)
       <==> DistinctNames(before, fold) && fold(UploadName(image)) !in SeenNames(before, fold)
  {
    var images := before + [image];
    assert images[|before|] == image;
    assert forall i :: 0 <= i < |before| ==> images[i] == before[i];
    SeenMeans(before, fold, fold(UploadName(image)));
  }

  lemma AcceptOne(before: seq<Upload>, image: Upload, fold: string -> string)
    ensures Acceptable(before + [image], fold) <==> Acceptable(before, fold) && Objection(before, image, fold).None?
  {
    FitSnoc(before, image);
    DistinctSnoc(before, image, fold);
    assert (before + [image])[..|before|] == before;
    assert TotalBytes(before + [image]) == TotalBytes(before) + |image.content|;
  }

  // One image: the loop body, given what the accepted images before it left.
  method StageImage(ghost before: seq<Upload>, image: Upload, fold: string -> string, seenNames: set<string>, totalBytes: nat,
                    staged: map<string, Bytes>)
    returns (seen: set<string>, total: nat, files: map<string, Bytes>, error: Option<UploadError>)
    requires seenNames == SeenNames(before, fold) && totalBytes == TotalBytes(before) && staged == StagedFiles(before)
    ensures error == Objection(before, image, fold)
    ensures error.None? ==> seen == SeenNames(before + [image], fold) && total == TotalBytes(before + [image])
                            && files == StagedFiles(before + [image])
  {
    seen, total, files := seenNames, totalBytes, staged;
    assert (before + [image])[..|before|] == before;
    var filename := UploadName(image);
    if !SafeName(filename) {
      return seen, total, files, Some(UnsafeName);
    }
    var normalizedName := fold(filename);
    if normalizedName in seen {
      return seen, total, files, Some(DuplicateName);
    }
    seen := seen + {normalizedName};
    if !AllowedMedia(image) {
      return seen, total, files, Some(UnsupportedMedia);
    }
    var photoBytes := Read(image);
    if photoBytes == [] {
      return seen, total, files, Some(EmptyImage);
    }
    if |photoBytes| > MAX_ENROLLMENT_IMAGE_BYTES {
      return seen, total, files, Some(ImageTooLarge);
    }
    total := total + |photoBytes|;
    if total > MAX_ENROLLMENT_BATCH_BYTES {
      return seen, total, files, Some(BatchTooLarge);
    }
    files := files[filename := photoBytes];
    error := None;
  }

  // No image met an objection after the ones before it.
  predicate AcceptedInOrder(images: seq<Upload>, fold: string -> string) {
    images == []
    || (AcceptedInOrder(images[..|images| - 1], fold)
        && Objection(images[..|images| - 1], images[|images| - 1], fold).None?)
  }

  /** Accepting image by image is accepting the batch as a whole: every image fit, no two
      names the same when case-folded, and no more than 250 MB in all. */
  lemma {:induction false} AcceptedIsAcceptable(images: seq<Upload>, fold: string -> string)
    ensures AcceptedInOrder(images, fold) <==> Acceptable(images, fold)
  {
    if images != [] {
      var front, last := images[..|images| - 1], images[|images| - 1];
      assert front + [last] == images;
      AcceptedIsAcceptable(front, fold);
      AcceptOne(front, last, fold);
    }
  }

  lemma InOrderSnoc(before: seq<Upload>, image: Upload, fold: string -> string)
    ensures AcceptedInOrder(before + [image], fold)
       <==> AcceptedInOrder(before, fold) && Objection(before, image, fold).None?
  {
    assert (before + [image])[..|before|] == before;
  }

  lemma {:induction false} AcceptedAt(images: seq<Upload>, i: nat, fold: string -> string)
    requires i < |images| && AcceptedInOrder(images, fold)
    ensures Objection(images[..i], images[i], fold).None?
    decreases |images|
  {
    var front := images[..|images| - 1];
    if i < |front| {
      assert front[..i] == images[..i] && front[i] == images[i];
      AcceptedAt(front, i, fold);
    }
  }

  // The loop found an objection to image i: it does not accept the batch.
  lemma Objected(images: seq<Upload>, i: nat, fold: string -> string, objection: Option<UploadError>)
    requires i < |images| && objection == Objection(images[..i], images[i], fold) && objection.Some?
    ensures !AcceptedInOrder(images, fold)
  {
    if AcceptedInOrder(images, fold) {
      AcceptedAt(images, i, fold);
    }
  }

  // Image i of the batch is the first to meet an objection, and this is it.
  ghost predicate FirstObjection(images: seq<Upload>, i: nat, fold: string -> string, error: UploadError) {
    i < |images| && AcceptedInOrder(images[..i], fold) && Objection(images[..i], images[i], fold) == Some(error)
  }

  /** Stages every image of a batch that is accepted, and otherwise reports the first
      objection to the first image that meets one. */
  method StageEnrollmentUploads(images: seq<Upload>, fold: string -> string)
    returns (staged: map<string, Bytes>, error: Option<UploadError>)
    ensures error.None? <==> AcceptedInOrder(images, fold)
    ensures error.None? ==> staged == StagedFiles(images)
    ensures error.Some? ==> exists i :: FirstObjection(images, i, fold, error.value)
  {
    var seenNames: set<string> := {};
    var totalBytes := 0;
    staged := map[];
    for i := 0 to |images|
      invariant AcceptedInOrder(images[..i], fold)
      invariant seenNames == SeenNames(images[..i], fold) && totalBytes == TotalBytes(images[..i])
      invariant staged == StagedFiles(images[..i])
    {
      ghost var before := images[..i];
      seenNames, totalBytes, staged, error := StageImage(before, images[i], fold, seenNames, totalBytes, staged);
      if error.Some? {
        Objected(images, i, fold, error);
        assert FirstObjection(images, i, fold, error.value);
        return;
      }
      InOrderSnoc(before, images[i], fold);
      assert images[..i + 1] == before + [images[i]];
    }
    assert images[..|images|] == images;
    error := None;
  }

  // ----- what a staged directory holds

  function Names(images: seq<Upload>): set<string> {
    SeenNames(images, (name: string) => name)
  }

  lemma NameIsNew(before: seq<Upload>, image: Upload, fold: string -> string)
    requires fold(UploadName(image)) !in SeenNames(before, fold)
    ensures UploadName(image) !in Names(before)
  {
    SeenMeans(before, (name: string) => name, UploadName(image));
    SeenMeans(before, fold, fold(UploadName(image)));
  }

  // One file for every image, under its own name and with its own content.
  lemma {:induction false} StagedNames(images: seq<Upload>, fold: string -> string)
    requires AcceptedInOrder(images, fold)
    ensures StagedFiles(images).Keys == Names(images) && |StagedFiles(images)| == |images|
    ensures forall i :: 0 <= i < |images| ==>
              UploadName(images[i]) in StagedFiles(images) && StagedFiles(images)[UploadName(images[i])] == images[i].content
  {
    if images != [] {
      var front, last := images[..|images| - 1], images[|images| - 1];
      assert front + [last] == images;
      StagedNames(front, fold);
      NameIsNew(front, last, fold);
      assert StagedFiles(images).Keys == StagedFiles(front).Keys + {UploadName(last)};
      forall i | 0 <= i < |front|
        ensures UploadName(images[i]) in StagedFiles(images)
        ensures StagedFiles(images)[UploadName(images[i])] == images[i].content
      {
        assert images[i] == front[i] && UploadName(front[i]) in StagedFiles(front).Keys;
      }
    }
  }

  /** Every staged file is one that discovery finds, and it names a registration number, so
      importing uploads never raises for want of one. */
  lemma StagedAreDiscovered(images: seq<Upload>, fold: string -> string, name: string)
    requires Acceptable(images, fold) && name in StagedFiles(images)
    ensures Supported(name) && RegistrationNumber(name) != ""
  {
    AcceptedIsAcceptable(images, fold);
    StagedNames(images, fold);
    SeenMeans(images, (name: string) => name, name);
    var i :| 0 <= i < |images| && UploadName(images[i]) == name;
    assert Fit(images[i]);
    StripIsTrimmed(images[i].filename.GetOr(""));
    SupportedHasSuffix(name);
    StripBlank(Stem(name));
    assert Stem(name)[0] == name[0];
  }

  lemma SupportedHasSuffix(name: string)
    ensures Supported(name) ==> HasSuffix(name)
  {
    assert Lower("") == "";
  }

  // ----- the route

  datatype Response = Response(discovered: nat, enrolled: nat, alreadyEnrolled: nat, skipped: nat, failed: nat)

  datatype RouteError = BadImageCount | AlreadyRunning | Rejected(error: UploadError)

  // A directory listing: every file once, in some order.
  ghost predicate Lists(listing: seq<DirectoryEntry>, files: map<string, Bytes>) {
    && (forall i :: 0 <= i < |listing| ==> listing[i].isFile && listing[i].name in files)
    && |listing| == |files|
  }

  method ListDirectory(files: map<string, Bytes>) returns (listing: seq<DirectoryEntry>)
    ensures Lists(listing, files)
    ensures forall i, j :: 0 <= i < j < |listing| ==> listing[i].name != listing[j].name
    ensures forall name :: name in files ==> DirectoryEntry(name, true) in listing
  {
    listing := [];
    var left := files.Keys;
    while left != {}
      invariant left <= files.Keys && |listing| + |left| == |files.Keys|
      invariant forall i :: 0 <= i < |listing| ==> listing[i].isFile && listing[i].name in files && listing[i].name !in left
      invariant forall i, j :: 0 <= i < j < |listing| ==> listing[i].name != listing[j].name
      invariant forall name :: name in files ==> name in left || DirectoryEntry(name, true) in listing
      decreases |left|
    {
      var name :| name in left;
      listing := listing + [DirectoryEntry(name, true)];
      left := left - {name};
    }
    assert |files| == |files.Keys|;
  }

  lemma {:induction false} AllDiscovered(listing: seq<DirectoryEntry>)
    requires forall i :: 0 <= i < |listing| ==>
               listing[i].isFile && Supported(listing[i].name) && RegistrationNumber(listing[i].name) != ""
    ensures |DiscoverReferencePhotos(listing)| == |listing| && AllNumbered(DiscoverReferencePhotos(listing))
    ensures forall i :: 0 <= i < |listing| ==> DiscoverReferencePhotos(listing)[i] == listing[i].name
  {
    if listing != [] {
      AllDiscovered(listing[1..]);
    }
  }

  // The images' own names, in some order.
  ghost predicate Photographs(images: seq<Upload>, photos: seq<string>) {
    && |photos| == |images|
    && (forall i :: 0 <= i < |images| ==> UploadName(images[i]) in photos)
    && (forall i, j :: 0 <= i < j < |photos| ==> photos[i] != photos[j])
  }

  // The answer counts what became of the photographs.
  ghost predicate Reports(r: Response, outcomes: seq<PhotoOutcome>) {
    && r.discovered == |outcomes|
    && r.enrolled == |Indices(outcomes, PhotoEnrolled)|
    && r.alreadyEnrolled == |Indices(outcomes, PhotoAlreadyEnrolled)|
    && r.skipped == |Indices(outcomes, PhotoSkipped)|
    && r.failed == |Indices(outcomes, PhotoFailed)|
  }

  ghost predicate ImportsAll(images: seq<Upload>, b: Batch, photos: seq<string>, before: ProfileTable, after: ProfileTable,
                             r: Response)
  {
    && Photographs(images, photos)
    && after == Import(b, photos, before).table && Reports(r, Import(b, photos, before).outcomes)
  }

  lemma ListedPhotographs(images: seq<Upload>, fold: string -> string, listing: seq<DirectoryEntry>)
    requires AcceptedInOrder(images, fold)
    requires Lists(listing, StagedFiles(images))
    requires forall i, j :: 0 <= i < j < |listing| ==> listing[i].name != listing[j].name
    requires forall name :: name in StagedFiles(images) ==> DirectoryEntry(name, true) in listing
    requires forall i :: 0 <= i < |listing| ==>
               listing[i].isFile && Supported(listing[i].name) && RegistrationNumber(listing[i].name) != ""
    ensures Photographs(images, DiscoverReferencePhotos(listing))
  {
    StagedNames(images, fold);
    AllDiscovered(listing);
    forall i | 0 <= i < |images| ensures UploadName(images[i]) in DiscoverReferencePhotos(listing) {
      assert DirectoryEntry(UploadName(images[i]), true) in listing;
      var k :| 0 <= k < |listing| && listing[k] == DirectoryEntry(UploadName(images[i]), true);
      assert DiscoverReferencePhotos(listing)[k] == UploadName(images[i]);
    }
  }

  class EnrollmentRoute {
    const repository: FaceProfileRepository
    var lockHeld: bool

    constructor (repository: FaceProfileRepository)
      ensures this.repository == repository && !lockHeld
    {
      this.repository := repository;
      lockHeld := false;
    }

    /** Imports exactly the images sent, in some order, and answers with the counters of that
        import, which add up to the images; or refuses and changes no profile. The lock ends as
        it was, and no image is ever merely validated. */
    method EnrollUploadedReferenceFaces(images: seq<Upload>, b: Batch) returns (response: Result<Response, RouteError>)
      requires b.commit && repository.rows == repository.committed && WellFormed(repository.rows)
      modifies this`lockHeld, repository
      ensures lockHeld == old(lockHeld)
      ensures response.Err? ==> repository.rows == old(repository.rows)
      ensures response.Ok? <==> 1 <= |images| <= MAX_ENROLLMENT_IMAGES && !old(lockHeld) && Acceptable(images, b.fold)
      ensures response.Ok? ==>
                var r := response.value;
                r.discovered == |images| == r.enrolled + r.alreadyEnrolled + r.skipped + r.failed
      ensures response.Ok? ==>
                exists photos :: ImportsAll(images, b, photos, old(repository.rows), repository.rows, response.value)
      ensures images == [] || |images| > 500 ==> response == Err(BadImageCount)
      ensures 1 <= |images| <= 500 && old(lockHeld) ==> response == Err(AlreadyRunning)
      ensures response.Err? && response.error.Rejected? ==> exists i :: FirstObjection(images, i, b.fold, response.error.error)
      ensures repository.rows == repository.committed && Kept(old(repository.rows), repository.rows)
    {
      ghost var start := repository.rows;
      assert Kept(start, start);
      if images == [] || |images| > MAX_ENROLLMENT_IMAGES {
        return Err(BadImageCount);
      }
      if lockHeld {
        return Err(AlreadyRunning);
      }
      lockHeld := true;
      var staged, error := StageEnrollmentUploads(images, b.fold);
      AcceptedIsAcceptable(images, b.fold);
      if error.Some? {
        lockHeld := false;
        return Err(Rejected(error.value));
      }
      var listing := ListDirectory(staged);
      StagedNames(images, b.fold);
      forall i | 0 <= i < |listing| ensures Supported(listing[i].name) && RegistrationNumber(listing[i].name) != "" {
        StagedAreDiscovered(images, b.fold, listing[i].name);
      }
      var photos := DiscoverReferencePhotos(listing);
      AllDiscovered(listing);
      ListedPhotographs(images, b.fold, listing);
      var imported := ImportReferencePhotos(b, photos, repository);
      var summary := imported.value;
      DryRunChangesNothing(b, photos, start);
      ImportKeeps(b, photos, start);
      TallyCounts(|photos|, Import(b, photos, start).outcomes);
      lockHeld := false;
      var counts := Response(summary.discovered, summary.enrolled, summary.alreadyEnrolled, summary.skipped, summary.failed);
      assert ImportsAll(images, b, photos, start, repository.rows, counts);
      return Ok(counts);
    }
  }
}
