/** Importing a directory of photographs (scripts/enroll_reference_faces.py:40-177): one
    registration number per file name, students with two photographs skipped, everything
    else enrolled one after the other. Case folding is a parameter, since Python's covers
    all of Unicode. */
module EnrollmentBatch {
  import opened Wrappers
  import opened PythonText
  import opened FaceProfiles
  import opened ReferenceEnrollment

  datatype DirectoryEntry = DirectoryEntry(name: string, isFile: bool)

  datatype Student = Student(id: StudentId, profileStatus: Option<string>)

  type Answer = sample: Sample | SoundSample(sample) witness Sample(None, 0, 0)

  // What a batch runs with: files that cannot be read, and what the engine makes of the others.
  datatype Batch = Batch(commit: bool, fold: string -> string, students: map<string, Student>, modelVersion: string,
                         unreadable: set<string>, answers: string -> Answer)

  datatype ImportError = NoRegistrationNumber

  datatype ImportSummary = ImportSummary(discovered: nat, enrolled: nat, alreadyEnrolled: nat, validated: nat, skipped: nat,
                                         failed: nat)

  const SUPPORTED_IMAGE_EXTENSIONS := {".jpeg", ".jpg", ".png"}

  predicate Supported(name: string) {
    Lower(Suffix(name)) in SUPPORTED_IMAGE_EXTENSIONS
  }

  // The supported files directly inside the directory.
  function DiscoverReferencePhotos(entries: seq<DirectoryEntry>): seq<string> {
    if entries == [] then []
    else (if entries[0].isFile && Supported(entries[0].name) then [entries[0].name] else [])
         + DiscoverReferencePhotos(entries[1..])
  }

  /** Discovery finds the names of the supported files, and of nothing else in the directory. */
  lemma {:induction false} DiscoveredExactly(entries: seq<DirectoryEntry>, name: string)
    ensures name in DiscoverReferencePhotos(entries) <==> Supported(name) && DirectoryEntry(name, true) in entries
  {
    if entries != [] {
      DiscoveredExactly(entries[1..], name);
      assert entries == [entries[0]] + entries[1..];
    }
  }

  lemma JpegSuffix(name: string)
    ensures Lower(Suffix(name)) == ".jpeg" <==> EndsIn(name, ".jpeg")
    ensures EndsIn(name, ".jpeg") ==> Stem(name) == name[..|name| - 5]
  {
    SuffixExactly(name, ".jpeg");
  }

  lemma JpgSuffix(name: string)
    ensures Lower(Suffix(name)) == ".jpg" <==> EndsIn(name, ".jpg")
    ensures EndsIn(name, ".jpg") ==> Stem(name) == name[..|name| - 4]
  {
    SuffixExactly(name, ".jpg");
  }

  lemma PngSuffix(name: string)
    ensures Lower(Suffix(name)) == ".png" <==> EndsIn(name, ".png")
    ensures EndsIn(name, ".png") ==> Stem(name) == name[..|name| - 4]
  {
    SuffixExactly(name, ".png");
  }

  /** The supported photographs are the names that end in .jpeg, .jpg or .png, in letters of either
      case, after something; that something, without blanks around it, is the registration number. */
  lemma SupportedExactly(name: string)
    ensures Supported(name) <==> EndsIn(name, ".jpeg") || EndsIn(name, ".jpg") || EndsIn(name, ".png")
    ensures EndsIn(name, ".jpeg") ==> RegistrationNumber(name) == Strip(name[..|name| - 5])
    ensures EndsIn(name, ".jpg") || EndsIn(name, ".png") ==> RegistrationNumber(name) == Strip(name[..|name| - 4])
  {
    JpegSuffix(name);
    JpgSuffix(name);
    PngSuffix(name);
  }

  function RegistrationNumber(photo: string): string {
    Strip(Stem(photo))
  }

  predicate AllNumbered(photos: seq<string>) {
    forall i :: 0 <= i < |photos| ==> RegistrationNumber(photos[i]) != ""
  }

  function FoldedNumber(b: Batch, photo: string): string {
    b.fold(RegistrationNumber(photo))
  }

  function FoldedNumbers(b: Batch, photos: seq<string>): (numbers: seq<string>)
    ensures |numbers| == |photos| && forall i :: 0 <= i < |photos| ==> numbers[i] == FoldedNumber(b, photos[i])
  {
    seq(|photos|, i requires 0 <= i < |photos| => FoldedNumber(b, photos[i]))
  }

  // Counter(numbers)[number]
  function Occurrences(numbers: seq<string>, number: string): nat {
    if numbers == [] then 0 else (if numbers[0] == number then 1 else 0) + Occurrences(numbers[1..], number)
  }

  function Repeated(numbers: seq<string>): set<string> {
    set i | 0 <= i < |numbers| && Occurrences(numbers, numbers[i]) > 1 :: numbers[i]
  }

  function DuplicateNumbers(b: Batch, photos: seq<string>): set<string> {
    Repeated(FoldedNumbers(b, photos))
  }

  // ----- one photograph

  datatype PhotoOutcome = PhotoEnrolled | PhotoAlreadyEnrolled | PhotoValidated | PhotoSkipped | PhotoFailed

  function OutcomeOf(result: Result<EnrolmentStatus, EnrolmentError>): PhotoOutcome {
    match result
    case Err(_) => PhotoFailed
    case Ok(EnrolSuccess) => PhotoEnrolled
    case Ok(AlreadyEnrolled) => PhotoAlreadyEnrolled
    case Ok(ProfileRevoked) => PhotoSkipped
    case Ok(_) => PhotoFailed
  }

  // The student the photograph would enrol, when it gets that far.
  function Candidate(b: Batch, duplicates: set<string>, photo: string): Option<StudentId> {
    var number := RegistrationNumber(photo);
    if FoldedNumber(b, photo) in duplicates || number !in b.students then None
    else if b.fold(b.students[number].profileStatus.GetOr("")) != "active" then None
    else Some(b.students[number].id)
  }

  // A photograph that names no candidate was skipped, or failed for want of a student.
  function Refusal(b: Batch, duplicates: set<string>, photo: string): PhotoOutcome {
    if FoldedNumber(b, photo) !in duplicates && RegistrationNumber(photo) !in b.students
    then PhotoFailed else PhotoSkipped
  }

  datatype Processed = Processed(outcome: PhotoOutcome, table: ProfileTable)

  function ProcessPhoto(b: Batch, duplicates: set<string>, photo: string, table: ProfileTable): Processed {
    var candidate := Candidate(b, duplicates, photo);
    if candidate.None? then Processed(Refusal(b, duplicates, photo), table)
    else if !b.commit then Processed(PhotoValidated, table)
    else if photo in b.unreadable then Processed(PhotoFailed, table)
    else Processed(OutcomeOf(StatusOf(Enroll(table, candidate.value, b.answers(photo), Strip(b.modelVersion)))),
                   EnrolledTable(table, candidate.value, b.answers(photo), Strip(b.modelVersion)))
  }

  datatype Imported = Imported(outcomes: seq<PhotoOutcome>, table: ProfileTable)

  // The first n photographs, in order, each by one step.
  function Fold(step: (string, ProfileTable) -> Processed, photos: seq<string>, n: nat, table: ProfileTable): (r: Imported)
    requires n <= |photos|
    ensures |r.outcomes| == n
  {
    if n == 0 then Imported([], table)
    else
      var before := Fold(step, photos, n - 1, table);
      var last := step(photos[n - 1], before.table);
      Imported(before.outcomes + [last.outcome], last.table)
  }

  function StepOf(b: Batch, duplicates: set<string>): (string, ProfileTable) -> Processed {
    (photo, table) => ProcessPhoto(b, duplicates, photo, table)
  }

  // What importing the photographs does to a table of profiles.
  function Import(b: Batch, photos: seq<string>, table: ProfileTable): (r: Imported)
    ensures |r.outcomes| == |photos|
  {
    Fold(StepOf(b, DuplicateNumbers(b, photos)), photos, |photos|, table)
  }

  function Count(outcomes: seq<PhotoOutcome>, outcome: PhotoOutcome): nat {
    if outcomes == [] then 0
    else Count(outcomes[..|outcomes| - 1], outcome) + (if outcomes[|outcomes| - 1] == outcome then 1 else 0)
  }

  function Tally(discovered: nat, outcomes: seq<PhotoOutcome>): ImportSummary {
    ImportSummary(discovered, Count(outcomes, PhotoEnrolled), Count(outcomes, PhotoAlreadyEnrolled),
                  Count(outcomes, PhotoValidated), Count(outcomes, PhotoSkipped), Count(outcomes, PhotoFailed))
  }

  // One more photograph with this outcome.
  function Counted(s: ImportSummary, outcome: PhotoOutcome): ImportSummary {
    match outcome
    case PhotoEnrolled => s.(enrolled := s.enrolled + 1)
    case PhotoAlreadyEnrolled => s.(alreadyEnrolled := s.alreadyEnrolled + 1)
    case PhotoValidated => s.(validated := s.validated + 1)
    case PhotoSkipped => s.(skipped := s.skipped + 1)
    case PhotoFailed => s.(failed := s.failed + 1)
  }

  lemma TallyGrows(discovered: nat, outcomes: seq<PhotoOutcome>, outcome: PhotoOutcome)
    ensures Tally(discovered, outcomes + [outcome]) == Counted(Tally(discovered, outcomes), outcome)
  {
    OneMore(outcomes, outcome);
  }

  // ----- the import loop

  method FindDuplicateRegistrationNumbers(b: Batch, photos: seq<string>) returns (duplicates: Result<set<string>, ImportError>)
    ensures duplicates == if AllNumbered(photos) then Ok(DuplicateNumbers(b, photos)) else Err(NoRegistrationNumber)
  {
    var numbers: seq<string> := [];
    for i := 0 to |photos|
      invariant |numbers| == i
      invariant forall k :: 0 <= k < i ==> numbers[k] == FoldedNumber(b, photos[k]) && RegistrationNumber(photos[k]) != ""
    {
      if RegistrationNumber(photos[i]) == "" {
        return Err(NoRegistrationNumber);
      }
      numbers := numbers + [FoldedNumber(b, photos[i])];
    }
    assert numbers == FoldedNumbers(b, photos);
    return Ok(Repeated(numbers));
  }

  method ImportReferencePhotos(b: Batch, photos: seq<string>, repository: FaceProfileRepository)
    returns (summary: Result<ImportSummary, ImportError>)
    requires repository.rows == repository.committed && WellFormed(repository.rows)
    modifies repository
    ensures summary.Err? <==> !AllNumbered(photos)
    ensures repository.rows == repository.committed
    ensures summary.Err? ==> repository.rows == old(repository.rows)
    ensures summary.Ok? ==> repository.rows == Import(b, photos, old(repository.rows)).table
    ensures summary.Ok? ==> summary.value == Tally(|photos|, Import(b, photos, old(repository.rows)).outcomes)
  {
    if photos == [] {
      return Ok(ImportSummary(0, 0, 0, 0, 0, 0));
    }
    var found := FindDuplicateRegistrationNumbers(b, photos);
    if found.Err? {
      return Err(found.error);
    }
    var counts := ImportAll(b, photos, found.value, repository, StepOf(b, found.value));
    return Ok(counts);
  }

  method ImportAll(b: Batch, photos: seq<string>, duplicates: set<string>, repository: FaceProfileRepository,
                   ghost step: (string, ProfileTable) -> Processed)
    returns (counts: ImportSummary)
    requires repository.rows == repository.committed && WellFormed(repository.rows)
    requires step == StepOf(b, duplicates)
    modifies repository
    ensures repository.rows == repository.committed == Fold(step, photos, |photos|, old(repository.rows)).table
    ensures counts == Tally(|photos|, Fold(step, photos, |photos|, old(repository.rows)).outcomes)
  {
    counts := ImportSummary(|photos|, 0, 0, 0, 0, 0);
    ghost var imported := Fold(step, photos, 0, repository.rows);
    for i := 0 to |photos|
      invariant imported == Fold(step, photos, i, old(repository.rows))
      invariant repository.rows == repository.committed == imported.table
      invariant WellFormed(repository.rows)
      invariant counts == Tally(|photos|, imported.outcomes)
    {
      var outcome := ImportPhoto(b, photos[i], duplicates, repository, step);
      TallyGrows(|photos|, imported.outcomes, outcome);
      imported := Fold(step, photos, i + 1, old(repository.rows));
      counts := Counted(counts, outcome);
    }
  }

  // The loop body: which counter one photograph moves.
  method ImportPhoto(b: Batch, photo: string, duplicates: set<string>, repository: FaceProfileRepository,
                     ghost step: (string, ProfileTable) -> Processed)
    returns (outcome: PhotoOutcome)
    requires step == StepOf(b, duplicates)
    requires repository.rows == repository.committed && WellFormed(repository.rows)
    modifies repository
    ensures Processed(outcome, repository.rows) == step(photo, old(repository.rows))
    ensures repository.rows == repository.committed && WellFormed(repository.rows)
  {
    var number := RegistrationNumber(photo);
    if b.fold(number) in duplicates {
      return PhotoSkipped;
    }
    if number !in b.students {
      return PhotoFailed;
    }
    if b.fold(b.students[number].profileStatus.GetOr("")) != "active" {
      return PhotoSkipped;
    }
    if !b.commit {
      return PhotoValidated;
    }
    if photo in b.unreadable {
      return PhotoFailed;
    }
    EnrollProtects(repository.rows, b.students[number].id, b.answers(photo), Strip(b.modelVersion));
    var service := new ReferenceEnrollmentService(repository, b.modelVersion);
    var result := service.Enroll(b.students[number].id, b.answers(photo));
    return OutcomeOf(result);
  }

  lemma OneMore(outcomes: seq<PhotoOutcome>, outcome: PhotoOutcome)
    ensures forall o :: Count(outcomes + [outcome], o) == Count(outcomes, o) + (if o == outcome then 1 else 0)
  {
    assert (outcomes + [outcome])[..|outcomes|] == outcomes;
  }

  // ----- what every import counts

  ghost function Indices(outcomes: seq<PhotoOutcome>, o: PhotoOutcome): set<nat> {
    set i: nat | i < |outcomes| && outcomes[i] == o
  }

  lemma {:induction false} CountIsSize(outcomes: seq<PhotoOutcome>, o: PhotoOutcome)
    ensures Count(outcomes, o) == |Indices(outcomes, o)|
  {
    if outcomes != [] {
      var front, last := outcomes[..|outcomes| - 1], outcomes[|outcomes| - 1];
      CountIsSize(front, o);
      assert Indices(outcomes, o) == Indices(front, o) + (if last == o then {|front|} else {});
    }
  }

  /** Each counter of the summary is the number of photographs with the outcome of that name. */
  lemma TallyCounts(discovered: nat, outcomes: seq<PhotoOutcome>)
    ensures var s := Tally(discovered, outcomes);
            && s.discovered == discovered
            && s.enrolled == |Indices(outcomes, PhotoEnrolled)|
            && s.alreadyEnrolled == |Indices(outcomes, PhotoAlreadyEnrolled)|
            && s.validated == |Indices(outcomes, PhotoValidated)|
            && s.skipped == |Indices(outcomes, PhotoSkipped)|
            && s.failed == |Indices(outcomes, PhotoFailed)|
  {
    CountIsSize(outcomes, PhotoEnrolled);
    CountIsSize(outcomes, PhotoAlreadyEnrolled);
    CountIsSize(outcomes, PhotoValidated);
    CountIsSize(outcomes, PhotoSkipped);
    CountIsSize(outcomes, PhotoFailed);
  }

  // ----- what every import conserves

  /** Every discovered photograph ends in exactly one of the five counters. */
  lemma {:induction false} TallyConserves(discovered: nat, outcomes: seq<PhotoOutcome>)
    requires discovered == |outcomes|
    ensures var s := Tally(discovered, outcomes);
            s.discovered == s.enrolled + s.alreadyEnrolled + s.validated + s.skipped + s.failed
  {
    if outcomes != [] {
      TallyConserves(discovered - 1, outcomes[..discovered - 1]);
    }
  }

  lemma {:induction false} FoldAvoids(step: (string, ProfileTable) -> Processed, photos: seq<string>, n: nat,
                                      table: ProfileTable, o: PhotoOutcome)
    requires n <= |photos| && forall photo, t :: step(photo, t).outcome != o
    ensures Count(Fold(step, photos, n, table).outcomes, o) == 0
  {
    if n > 0 {
      FoldAvoids(step, photos, n - 1, table, o);
      var before := Fold(step, photos, n - 1, table);
      OneMore(before.outcomes, step(photos[n - 1], before.table).outcome);
    }
  }

  lemma {:induction false} FoldIdle(step: (string, ProfileTable) -> Processed, photos: seq<string>, n: nat, table: ProfileTable)
    requires n <= |photos| && forall photo, t :: step(photo, t).table == t
    ensures Fold(step, photos, n, table).table == table
  {
    if n > 0 {
      FoldIdle(step, photos, n - 1, table);
    }
  }

  // What the steps of a batch do in either mode.
  lemma StepModes(b: Batch, duplicates: set<string>)
    ensures var step := StepOf(b, duplicates);
            && (b.commit ==> forall photo, t :: step(photo, t).outcome != PhotoValidated)
            && (!b.commit ==> forall photo, t :: step(photo, t).table == t)
            && (!b.commit ==> forall photo, t :: step(photo, t).outcome != PhotoEnrolled)
            && (!b.commit ==> forall photo, t :: step(photo, t).outcome != PhotoAlreadyEnrolled)
  {
  }

  /** A dry run validates and changes no profile; a commit validates nothing. */
  lemma DryRunChangesNothing(b: Batch, photos: seq<string>, table: ProfileTable)
    ensures !b.commit ==> Import(b, photos, table).table == table
    ensures var s := Tally(|photos|, Import(b, photos, table).outcomes);
            && (!b.commit ==> s.discovered == s.validated + s.skipped + s.failed)
            && (b.commit ==> s.discovered == s.enrolled + s.alreadyEnrolled + s.skipped + s.failed)
  {
    StepModes(b, DuplicateNumbers(b, photos));
    TallyConserves(|photos|, Import(b, photos, table).outcomes);
    ModeCounts(StepOf(b, DuplicateNumbers(b, photos)), photos, table, b.commit);
  }

  lemma ModeCounts(step: (string, ProfileTable) -> Processed, photos: seq<string>, table: ProfileTable, commit: bool)
    requires commit ==> forall photo, t :: step(photo, t).outcome != PhotoValidated
    requires !commit ==> forall photo, t :: step(photo, t).table == t
    requires !commit ==> forall photo, t :: step(photo, t).outcome != PhotoEnrolled
    requires !commit ==> forall photo, t :: step(photo, t).outcome != PhotoAlreadyEnrolled
    ensures var r := Fold(step, photos, |photos|, table);
            && (commit ==> Count(r.outcomes, PhotoValidated) == 0)
            && (!commit ==> r.table == table && Count(r.outcomes, PhotoEnrolled) == Count(r.outcomes, PhotoAlreadyEnrolled) == 0)
  {
    if commit {
      FoldAvoids(step, photos, |photos|, table, PhotoValidated);
    } else {
      FoldIdle(step, photos, |photos|, table);
      FoldAvoids(step, photos, |photos|, table, PhotoEnrolled);
      FoldAvoids(step, photos, |photos|, table, PhotoAlreadyEnrolled);
    }
  }

  // ----- duplicates

  lemma {:induction false} OccursSomewhere(numbers: seq<string>, number: string)
    ensures Occurrences(numbers, number) > 0 <==> number in numbers
  {
    if numbers != [] {
      OccursSomewhere(numbers[1..], number);
      assert numbers == [numbers[0]] + numbers[1..];
    }
  }

  ghost predicate OccursBeside(numbers: seq<string>, i: nat)
    requires i < |numbers|
  {
    exists j :: 0 <= j < |numbers| && j != i && numbers[j] == numbers[i]
  }

  lemma {:induction false} OccursTwice(numbers: seq<string>, i: nat)
    requires i < |numbers|
    ensures Occurrences(numbers, numbers[i]) > 1 <==> OccursBeside(numbers, i)
  {
    var rest := numbers[1..];
    OccursSomewhere(rest, numbers[i]);
    if i == 0 {
      assert forall j :: 0 <= j < |rest| ==> rest[j] == numbers[j + 1];
      if numbers[i] in rest {
        var j :| 0 <= j < |rest| && rest[j] == numbers[i];
        assert numbers[j + 1] == numbers[i];
      }
    } else {
      OccursTwice(rest, i - 1);
      assert rest[i - 1] == numbers[i];
      if OccursBeside(rest, i - 1) {
        var j :| 0 <= j < |rest| && j != i - 1 && rest[j] == rest[i - 1];
        assert numbers[j + 1] == numbers[i];
      }
      if OccursBeside(numbers, i) {
        var j :| 0 <= j < |numbers| && j != i && numbers[j] == numbers[i];
        assert j > 0 ==> rest[j - 1] == rest[i - 1];
      }
    }
  }

  lemma RepeatedExactly(numbers: seq<string>, i: nat)
    requires i < |numbers|
    ensures numbers[i] in Repeated(numbers) <==> OccursBeside(numbers, i)
  {
    OccursTwice(numbers, i);
    if numbers[i] in Repeated(numbers) {
      var k :| 0 <= k < |numbers| && Occurrences(numbers, numbers[k]) > 1 && numbers[k] == numbers[i];
    }
  }

  /** A photograph is set aside as a duplicate exactly when another one of the batch has its
      case-folded registration number; so no two that are processed share one. */
  lemma DuplicatesExactly(b: Batch, photos: seq<string>, i: nat)
    requires i < |photos|
    ensures FoldedNumber(b, photos[i]) in DuplicateNumbers(b, photos)
       <==> exists j :: 0 <= j < |photos| && j != i && FoldedNumber(b, photos[j]) == FoldedNumber(b, photos[i])
  {
    var numbers := FoldedNumbers(b, photos);
    RepeatedExactly(numbers, i);
    if j :| 0 <= j < |photos| && j != i && FoldedNumber(b, photos[j]) == FoldedNumber(b, photos[i]) {
      assert numbers[j] == numbers[i];
    }
  }

  // ----- what becomes of each photograph

  // The outcome of one photograph over the table that the ones before it left.
  ghost predicate PhotoBecomes(b: Batch, photos: seq<string>, i: nat, table: ProfileTable, outcome: PhotoOutcome)
    requires i < |photos|
  {
    var number := RegistrationNumber(photos[i]);
    if exists j :: 0 <= j < |photos| && j != i && FoldedNumber(b, photos[j]) == FoldedNumber(b, photos[i]) then
      outcome == PhotoSkipped
    else if number !in b.students then outcome == PhotoFailed
    else if b.fold(b.students[number].profileStatus.GetOr("")) != "active" then outcome == PhotoSkipped
    else if !b.commit then outcome == PhotoValidated
    else if photos[i] in b.unreadable then outcome == PhotoFailed
    else StudentBecomes(table, b.students[number].id, b.answers(photos[i]), b.modelVersion, outcome)
  }

  ghost predicate StudentBecomes(table: ProfileTable, s: StudentId, sample: Answer, version: string, outcome: PhotoOutcome) {
    if s in table && table[s].generation == Generated then outcome == PhotoAlreadyEnrolled
    else if s in table && table[s].generation == Revoked then outcome == PhotoSkipped
    else outcome == (if GivesReference(table, s, sample, version) then PhotoEnrolled else PhotoFailed)
  }

  // The engine found one clear face, its model has a name and a version, and a new row has a free id.
  ghost predicate GivesReference(table: ProfileTable, s: StudentId, sample: Answer, version: string) {
    && sample.analysis.Some? && sample.analysis.value.status.Success?
    && Strip(sample.analysis.value.modelName.GetOr("")) != "" && Strip(version) != ""
    && (s in table || forall other :: other in table ==> table[other].id != sample.newId)
  }

  lemma StudentOutcome(table: ProfileTable, s: StudentId, sample: Answer, version: string)
    requires WellFormed(table)
    ensures StudentBecomes(table, s, sample, version, OutcomeOf(StatusOf(Enroll(table, s, sample, Strip(version)))))
  {
    EnrollDecides(table, s, sample, Strip(version));
    StripTrimmed(version);
  }

  /** Every photograph is counted by what became of it: set aside when another one has its number,
      failed without a student, skipped for one who is not active, only validated by a dry run,
      failed when it cannot be read, and else by the student's profile and the engine's answer. */
  lemma OutcomesAreExact(b: Batch, photos: seq<string>, table: ProfileTable, i: nat)
    requires WellFormed(table) && i < |photos|
    ensures var before := Fold(StepOf(b, DuplicateNumbers(b, photos)), photos, i, table).table;
            WellFormed(before) && PhotoBecomes(b, photos, i, before, Import(b, photos, table).outcomes[i])
  {
    var step := StepOf(b, DuplicateNumbers(b, photos));
    DuplicatesExactly(b, photos, i);
    StepKeeps(b, DuplicateNumbers(b, photos));
    FoldKeeps(step, photos, i, table);
    FoldAt(step, photos, |photos|, table, i);
    var candidate := Candidate(b, DuplicateNumbers(b, photos), photos[i]);
    if candidate.Some? {
      StudentOutcome(Fold(step, photos, i, table).table, candidate.value, b.answers(photos[i]), b.modelVersion);
    }
  }

  // ----- what a batch keeps, and what a second run of it does

  // From any profile table: what importing leaves alone.
  ghost predicate Kept(table: ProfileTable, later: ProfileTable) {
    WellFormed(later) && Protected(table, later) && (ReadinessSound(table) ==> ReadinessSound(later))
  }

  lemma OutcomesMean(table: ProfileTable, student: StudentId, sample: Sample, version: string)
    requires SoundSample(sample)
    ensures var o := OutcomeOf(StatusOf(Enroll(table, student, sample, version)));
            && (o == PhotoAlreadyEnrolled <==> student in table && table[student].generation == Generated)
            && (o == PhotoEnrolled <==> Enroll(table, student, sample, version).Ok?
                                        && Enroll(table, student, sample, version).value.status == EnrolSuccess)
            && (o == PhotoAlreadyEnrolled ==> EnrolledTable(table, student, sample, version) == table)
  {
  }

  // The student has a reference.
  ghost predicate IsEnrolled(s: StudentId, table: ProfileTable) {
    s in table && table[s].generation == Generated
  }

  ghost predicate Keeping(step: (string, ProfileTable) -> Processed) {
    forall photo, t {:trigger step(photo, t)} :: WellFormed(t) ==> Kept(t, step(photo, t).table)
  }

  // The photograph's step enrols the student whenever it counts as enrolled, and finds
  // the student enrolled whenever that is so.
  ghost predicate Enrols(step: (string, ProfileTable) -> Processed, photo: string, s: StudentId) {
    forall t {:trigger step(photo, t)} :: WellFormed(t) ==>
      && (step(photo, t).outcome in {PhotoEnrolled, PhotoAlreadyEnrolled} ==> IsEnrolled(s, step(photo, t).table))
      && (IsEnrolled(s, t) ==> step(photo, t).outcome == PhotoAlreadyEnrolled)
  }

  lemma StepKeeps(b: Batch, duplicates: set<string>)
    ensures Keeping(StepOf(b, duplicates))
  {
    var step := StepOf(b, duplicates);
    forall photo, t | WellFormed(t) ensures Kept(t, step(photo, t).table) {
      var s := Candidate(b, duplicates, photo);
      if s.Some? && b.commit {
        EnrollProtects(t, s.value, b.answers(photo), Strip(b.modelVersion));
      }
    }
  }

  lemma StepEnrols(b: Batch, duplicates: set<string>, photo: string, s: StudentId)
    requires b.commit && photo !in b.unreadable && Candidate(b, duplicates, photo) == Some(s)
    ensures Enrols(StepOf(b, duplicates), photo, s)
  {
    var version := Strip(b.modelVersion);
    forall t | WellFormed(t)
      ensures var r := StepOf(b, duplicates)(photo, t);
              && (r.outcome in {PhotoEnrolled, PhotoAlreadyEnrolled} ==> IsEnrolled(s, r.table))
              && (IsEnrolled(s, t) ==> r.outcome == PhotoAlreadyEnrolled)
    {
      EnrollProtects(t, s, b.answers(photo), version);
      OutcomesMean(t, s, b.answers(photo), version);
    }
  }

  lemma {:induction false} FoldKeeps(step: (string, ProfileTable) -> Processed, photos: seq<string>, n: nat, table: ProfileTable)
    requires n <= |photos| && WellFormed(table) && Keeping(step)
    ensures Kept(table, Fold(step, photos, n, table).table)
  {
    if n > 0 {
      FoldKeeps(step, photos, n - 1, table);
      var before := Fold(step, photos, n - 1, table);
      ProtectedTrans(table, before.table, step(photos[n - 1], before.table).table);
    }
  }

  lemma {:induction false} FoldAt(step: (string, ProfileTable) -> Processed, photos: seq<string>, n: nat, table: ProfileTable, i: nat)
    requires i < n <= |photos|
    ensures var last := step(photos[i], Fold(step, photos, i, table).table);
            Fold(step, photos, n, table).outcomes[i] == last.outcome && Fold(step, photos, i + 1, table).table == last.table
  {
    if i < n - 1 {
      FoldAt(step, photos, n - 1, table, i);
    }
  }

  lemma {:induction false} FoldProtects(step: (string, ProfileTable) -> Processed, photos: seq<string>, i: nat, n: nat, table: ProfileTable)
    requires i <= n <= |photos| && WellFormed(table) && Keeping(step)
    ensures Protected(Fold(step, photos, i, table).table, Fold(step, photos, n, table).table)
    decreases n
  {
    if i < n {
      var before := Fold(step, photos, n - 1, table);
      FoldProtects(step, photos, i, n - 1, table);
      FoldKeeps(step, photos, n - 1, table);
      ProtectedTrans(Fold(step, photos, i, table).table, before.table, step(photos[n - 1], before.table).table);
    }
  }

  lemma FoldEnrols(step: (string, ProfileTable) -> Processed, photos: seq<string>, n: nat, table: ProfileTable, i: nat, s: StudentId)
    requires i < n <= |photos| && WellFormed(table) && Keeping(step) && Enrols(step, photos[i], s)
    requires Fold(step, photos, n, table).outcomes[i] in {PhotoEnrolled, PhotoAlreadyEnrolled}
    ensures IsEnrolled(s, Fold(step, photos, n, table).table)
  {
    FoldAt(step, photos, n, table, i);
    FoldKeeps(step, photos, i, table);
    FoldProtects(step, photos, i + 1, n, table);
    StaysEnrolled(Fold(step, photos, i + 1, table).table, Fold(step, photos, n, table).table, s);
  }

  lemma StaysEnrolled(table: ProfileTable, later: ProfileTable, s: StudentId)
    requires Protected(table, later) && IsEnrolled(s, table)
    ensures IsEnrolled(s, later)
  {
    assert ReferenceColumns(table[s]).generation == Generated;
  }

  lemma FoldFinds(step: (string, ProfileTable) -> Processed, photos: seq<string>, n: nat, table: ProfileTable, i: nat, s: StudentId)
    requires i < n <= |photos| && WellFormed(table) && Keeping(step) && Enrols(step, photos[i], s) && IsEnrolled(s, table)
    ensures Fold(step, photos, n, table).outcomes[i] == PhotoAlreadyEnrolled
  {
    FoldAt(step, photos, n, table, i);
    FoldKeeps(step, photos, i, table);
    StaysEnrolled(table, Fold(step, photos, i, table).table, s);
  }

  /** A whole import keeps the table well formed, never alters a generated or revoked
      profile, and keeps readiness results backed, whatever the photographs show. */
  lemma ImportKeeps(b: Batch, photos: seq<string>, table: ProfileTable)
    requires WellFormed(table)
    ensures Kept(table, Import(b, photos, table).table)
  {
    StepKeeps(b, DuplicateNumbers(b, photos));
    FoldKeeps(StepOf(b, DuplicateNumbers(b, photos)), photos, |photos|, table);
  }

  // ----- whom an import can touch

  ghost predicate Untouched(table: ProfileTable, later: ProfileTable, s: StudentId) {
    (s in later <==> s in table) && (s in table ==> later[s] == table[s])
  }

  // A photograph's step touches at most the profile of the student it belongs to.
  ghost predicate Owned(step: (string, ProfileTable) -> Processed, owner: string -> Option<StudentId>) {
    forall photo, t {:trigger step(photo, t)} :: WellFormed(t) ==>
      forall s: StudentId :: owner(photo) != Some(s) ==> Untouched(t, step(photo, t).table, s)
  }

  lemma StepOwned(b: Batch, duplicates: set<string>)
    ensures Owned(StepOf(b, duplicates), (photo: string) => Candidate(b, duplicates, photo))
  {
    var step := StepOf(b, duplicates);
    forall photo, t, s: StudentId | WellFormed(t) && Candidate(b, duplicates, photo) != Some(s)
      ensures Untouched(t, step(photo, t).table, s)
    {
      var candidate := Candidate(b, duplicates, photo);
      if candidate.Some? && b.commit {
        EnrollProtects(t, candidate.value, b.answers(photo), Strip(b.modelVersion));
        OthersUntouched(t, step(photo, t).table, candidate.value, s);
      }
    }
  }

  lemma OthersUntouched(table: ProfileTable, later: ProfileTable, student: StudentId, s: StudentId)
    requires Enrolment(table, later, student) && s != student
    ensures Untouched(table, later, s)
  {
    assert s in later.Keys - {student} <==> s in table.Keys - {student};
  }

  lemma {:induction false} FoldLeaves(step: (string, ProfileTable) -> Processed, owner: string -> Option<StudentId>,
                                      photos: seq<string>, n: nat, table: ProfileTable, s: StudentId)
    requires n <= |photos| && WellFormed(table) && Keeping(step) && Owned(step, owner)
    requires forall i :: 0 <= i < n ==> owner(photos[i]) != Some(s)
    ensures Untouched(table, Fold(step, photos, n, table).table, s)
  {
    if n > 0 {
      FoldLeaves(step, owner, photos, n - 1, table, s);
      FoldKeeps(step, photos, n - 1, table);
      assert Untouched(Fold(step, photos, n - 1, table).table, Fold(step, photos, n, table).table, s);
    }
  }

  // The photograph names an active student whom no other photograph of the batch names.
  ghost predicate Names(b: Batch, photos: seq<string>, i: nat, s: StudentId)
    requires i < |photos|
  {
    var number := RegistrationNumber(photos[i]);
    && number in b.students && b.students[number].id == s
    && b.fold(b.students[number].profileStatus.GetOr("")) == "active"
    && (forall j :: 0 <= j < |photos| && j != i ==> FoldedNumber(b, photos[j]) != FoldedNumber(b, photos[i]))
  }

  /** An import touches no profile but those of active students whom exactly one of its
      photographs names. */
  lemma OnlyNamedStudentsChange(b: Batch, photos: seq<string>, table: ProfileTable, s: StudentId)
    requires WellFormed(table) && forall i :: 0 <= i < |photos| ==> !Names(b, photos, i, s)
    ensures Untouched(table, Import(b, photos, table).table, s)
  {
    var duplicates := DuplicateNumbers(b, photos);
    forall i | 0 <= i < |photos| ensures Candidate(b, duplicates, photos[i]) != Some(s) {
      DuplicatesExactly(b, photos, i);
      assert !Names(b, photos, i, s);
    }
    StepKeeps(b, duplicates);
    StepOwned(b, duplicates);
    FoldLeaves(StepOf(b, duplicates), (photo: string) => Candidate(b, duplicates, photo), photos, |photos|, table, s);
  }

  lemma StepHasCandidate(b: Batch, duplicates: set<string>, photo: string, table: ProfileTable)
    requires StepOf(b, duplicates)(photo, table).outcome in {PhotoEnrolled, PhotoAlreadyEnrolled}
    ensures Candidate(b, duplicates, photo).Some? && (b.commit ==> photo !in b.unreadable)
  {
  }

  lemma UnreadableFails(b: Batch, duplicates: set<string>, photo: string, table: ProfileTable)
    requires b.commit && photo in b.unreadable && Candidate(b, duplicates, photo).Some?
    ensures StepOf(b, duplicates)(photo, table).outcome == PhotoFailed
  {
  }

  /** Running a batch again, whatever can be read and whatever the engine answers the second
      time, enrols nobody the first run enrolled or found enrolled: their photographs count as
      already enrolled, or as failed when unreadable now, and their references stay. */
  lemma RerunEnrolsNobodyTwice(b: Batch, again: Batch, photos: seq<string>, table: ProfileTable, i: nat)
    requires WellFormed(table) && i < |photos| && b.commit
    requires again == b.(answers := again.answers, unreadable := again.unreadable)
    ensures var first := Import(b, photos, table);
            var second := Import(again, photos, first.table);
            && Protected(first.table, second.table)
            && (first.outcomes[i] in {PhotoEnrolled, PhotoAlreadyEnrolled} ==>
                  var s := Candidate(b, DuplicateNumbers(b, photos), photos[i]);
                  s.Some? && IsEnrolled(s.value, first.table)
                  && second.outcomes[i] == if photos[i] in again.unreadable then PhotoFailed else PhotoAlreadyEnrolled)
  {
    var duplicates := DuplicateNumbers(b, photos);
    var first := Import(b, photos, table);
    SameDuplicates(b, again, photos);
    ImportKeeps(b, photos, table);
    ImportKeeps(again, photos, first.table);
    if first.outcomes[i] in {PhotoEnrolled, PhotoAlreadyEnrolled} {
      FirstRunEnrols(b, duplicates, photos, table, i);
      SecondRunFinds(again, duplicates, photos, first.table, i, Candidate(b, duplicates, photos[i]).value);
    }
  }

  lemma FirstRunEnrols(b: Batch, duplicates: set<string>, photos: seq<string>, table: ProfileTable, i: nat)
    requires WellFormed(table) && i < |photos| && b.commit
    requires Fold(StepOf(b, duplicates), photos, |photos|, table).outcomes[i] in {PhotoEnrolled, PhotoAlreadyEnrolled}
    ensures var s := Candidate(b, duplicates, photos[i]);
            s.Some? && IsEnrolled(s.value, Fold(StepOf(b, duplicates), photos, |photos|, table).table)
  {
    FoldAt(StepOf(b, duplicates), photos, |photos|, table, i);
    StepHasCandidate(b, duplicates, photos[i], Fold(StepOf(b, duplicates), photos, i, table).table);
    var s := Candidate(b, duplicates, photos[i]).value;
    StepKeeps(b, duplicates);
    StepEnrols(b, duplicates, photos[i], s);
    FoldEnrols(StepOf(b, duplicates), photos, |photos|, table, i, s);
  }

  lemma SecondRunFinds(b: Batch, duplicates: set<string>, photos: seq<string>, table: ProfileTable, i: nat, s: StudentId)
    requires WellFormed(table) && i < |photos| && b.commit && IsEnrolled(s, table)
    requires Candidate(b, duplicates, photos[i]) == Some(s)
    ensures Fold(StepOf(b, duplicates), photos, |photos|, table).outcomes[i]
         == if photos[i] in b.unreadable then PhotoFailed else PhotoAlreadyEnrolled
  {
    if photos[i] in b.unreadable {
      FoldAt(StepOf(b, duplicates), photos, |photos|, table, i);
      UnreadableFails(b, duplicates, photos[i], Fold(StepOf(b, duplicates), photos, i, table).table);
    } else {
      StepKeeps(b, duplicates);
      StepEnrols(b, duplicates, photos[i], s);
      FoldFinds(StepOf(b, duplicates), photos, |photos|, table, i, s);
    }
  }

  lemma SameDuplicates(b: Batch, again: Batch, photos: seq<string>)
    requires again == b.(answers := again.answers, unreadable := again.unreadable)
    ensures DuplicateNumbers(again, photos) == DuplicateNumbers(b, photos)
  {
    assert FoldedNumbers(again, photos) == FoldedNumbers(b, photos);
  }
}
