/** What overlapping enrolments and readiness checks write. Each commit writes one student's row,
    from what its own engine call found, over whatever the others have committed meanwhile; and a
    call that nobody disturbs does what the call on its own would do. */
module EnrolmentWrites {
  import opened Wrappers
  import opened EmbeddingSimilarity
  import opened FaceEngine
  import opened FaceComparison
  import opened VerificationConfigs
  import opened FaceProfiles
  import opened EnrolmentSchedules
  import RE = ReferenceEnrollment

  // What a call that ends has answered.
  ghost predicate Answers(result: Result<Enrolled, EnrolmentError>, outcome: Outcome) {
    match result
    case Ok(enrolled) => outcome == EnrolReturned(enrolled.status)
    case Err(_) => outcome == Raised
  }

  // The row that an open enrolment sees as its student's.
  ghost function RowSeen(st: State, task: Task): FaceProfile
    requires task.Analysing?
  {
    if !task.inserted && task.student in st.profiles then st.profiles[task.student]
    else FaceProfile(task.profileId, Pending, None, None, None, None, None, NotChecked, None, None)
  }

  // One enrolment's end: it raises and writes nothing, or writes its student's row and answers.
  ghost predicate EndsEnrolment(setup: Setup, st: State, t: TaskId, analysis: Option<FaceAnalysisResult>, at: Instant,
                                next: State)
    requires t in st.tasks && st.tasks[t].Analysing?
  {
    && t in next.tasks && next.tasks[t].Done? && next.tasks == st.tasks[t := next.tasks[t]]
    && exists result ::
         && Answers(result, next.tasks[t].outcome)
         && next.profiles == (if result.Ok? then result.value.table else st.profiles)
         && if analysis.None? then result == Err(EngineRaised)
            else Written(st.profiles, st.tasks[t].student, RowSeen(st, st.tasks[t]), analysis.value, setup.modelVersion, at,
                         result)
  }

  // One check's end: the readiness columns of its student, and no others.
  ghost predicate EndsCheck(st: State, t: TaskId, comparison: FaceComparisonResult, at: Instant, next: State)
    requires t in st.tasks && st.tasks[t].Comparing?
  {
    var task := st.tasks[t];
    var readiness := if comparison.status == Matched then ReadinessPassed else ReadinessFailed;
    && task.student in st.profiles
    && next.tasks == st.tasks[t := Done(ReadinessReturned)]
    && next.profiles == st.profiles[task.student := st.profiles[task.student].(
         readiness := readiness, readinessConfig := Some(task.config), readinessCheckedAt := Some(at))]
  }

  // What a step writes: only the end of a call writes a row.
  ghost predicate Writes(setup: Setup, st: State, step: Step, next: State) {
    match step
    case FinishEnrol(t, analysis, at) =>
      if t in st.tasks && st.tasks[t].Analysing? && (analysis.Some? ==> analysis.value.Constructible())
      then EndsEnrolment(setup, st, t, analysis, at, next) else next == st
    case FinishReadiness(t, comparison, at) =>
      if t in st.tasks && st.tasks[t].Comparing? then EndsCheck(st, t, comparison, at, next) else next == st
    case _ => next.profiles == st.profiles
  }

  lemma EnrolmentEnds(setup: Setup, st: State, t: TaskId, analysis: Option<FaceAnalysisResult>, at: Instant)
    requires Basic(st) && t in st.tasks && st.tasks[t].Analysing? && (analysis.Some? ==> analysis.value.Constructible())
    ensures EndsEnrolment(setup, st, t, analysis, at, CommitEnrolment(setup, st, t, st.tasks[t], analysis, at))
  {
    var task := st.tasks[t];
    var view := OwnView(st, task);
    OwnViewSound(st, t);
    var result := FinishEnrolment(view, task.profileId, analysis, setup.modelVersion, at);
    if analysis.Some? {
      FinishDecides(st.profiles, view, task.student, analysis.value, setup.modelVersion, at);
      assert view[task.student] == RowSeen(st, task);
    }
    assert Answers(result, CommitEnrolment(setup, st, t, task, analysis, at).tasks[t].outcome);
  }

  lemma CheckEnds(st: State, t: TaskId, comparison: FaceComparisonResult, at: Instant)
    requires Basic(st) && t in st.tasks && st.tasks[t].Comparing?
    ensures EndsCheck(st, t, comparison, at, CommitReadiness(st, t, st.tasks[t], comparison, at))
  {
    var task := st.tasks[t];
    var status := if comparison.status == Matched then ReadinessPassed else ReadinessFailed;
    WrittenById(st.profiles, task.student, p => CheckedRow(p, status, task.config, at));
    assert HasProfile(st.profiles, task.reference.profileId);
  }

  /** On every schedule, serialized or not, only the end of a call writes, and it writes one row: an
      enrolment the whole reference that its own engine answer stands for, a check the three
      readiness columns. */
  lemma EveryWriteIs(setup: Setup, start: ProfileTable, steps: seq<Step>, step: Step)
    requires WellFormed(start)
    ensures Writes(setup, Run(setup, start, steps), step, Apply(setup, Run(setup, start, steps), step))
  {
    RunsAreBasic(setup, start, steps);
    var st := Run(setup, start, steps);
    match step {
      case FinishEnrol(t, analysis, at) =>
        if t in st.tasks && st.tasks[t].Analysing? && (analysis.Some? ==> analysis.value.Constructible()) {
          EnrolmentEnds(setup, st, t, analysis, at);
        }
      case FinishReadiness(t, comparison, at) =>
        if t in st.tasks && st.tasks[t].Comparing? {
          CheckEnds(st, t, comparison, at);
        }
      case _ =>
    }
  }

  // ----- a call that nobody disturbs

  function Alone(setup: Setup, st: State, t: TaskId, student: StudentId, sample: Sample): State {
    var started := Apply(setup, st, StartEnrol(t, student));
    Apply(setup, Apply(setup, started, Insert(t, sample.newId)), FinishEnrol(t, sample.analysis, sample.at))
  }

  lemma OverAtOnce(setup: Setup, st: State, t: TaskId, student: StudentId, sample: Sample)
    requires t !in st.tasks && !(setup.serialized && EnrolmentRunning(st)) && SoundSample(sample)
    requires student in st.profiles && st.profiles[student].generation in {Generated, Revoked}
    ensures var status := if st.profiles[student].generation == Generated then AlreadyEnrolled else ProfileRevoked;
            Alone(setup, st, t, student, sample) == st.(tasks := st.tasks[t := Done(EnrolReturned(status))])
    ensures var result := Enroll(st.profiles, student, sample, setup.modelVersion);
            result.Ok? && result.value.table == st.profiles
            && result.value.status == if st.profiles[student].generation == Generated then AlreadyEnrolled else ProfileRevoked
  {
  }

  lemma InsertedFirst(setup: Setup, st: State, t: TaskId, student: StudentId, newId: ProfileId)
    requires t !in st.tasks && !(setup.serialized && EnrolmentRunning(st)) && !InsertBlocked(st, student, newId)
    requires student in st.profiles ==> st.profiles[student].generation !in {Generated, Revoked}
    ensures var next := Apply(setup, Apply(setup, st, StartEnrol(t, student)), Insert(t, newId));
            if student in st.profiles then
              next == st.(tasks := st.tasks[t := Analysing(student, st.profiles[student].id, false)])
            else if HasProfile(st.profiles, newId) then next == st.(tasks := st.tasks[t := Done(Raised)])
            else next == st.(tasks := st.tasks[t := Analysing(student, newId, true)])
  {
    var started := Apply(setup, st, StartEnrol(t, student));
    if student !in st.profiles {
      assert started == st.(tasks := st.tasks[t := Inserting(student)]);
      assert forall u :: u in started.tasks && started.tasks[u].Analysing? ==> u in st.tasks && st.tasks[u] == started.tasks[u];
      assert !InsertBlocked(started, student, newId);
    }
  }

  /** The steps of one enrolment, when no other call takes one in between and no open insert stands
      in its way, are the enrolment on its own: the same table and the same answer. */
  lemma EnrolmentAlone(setup: Setup, st: State, t: TaskId, student: StudentId, sample: Sample)
    requires t !in st.tasks && !(setup.serialized && EnrolmentRunning(st)) && !InsertBlocked(st, student, sample.newId)
    requires SoundSample(sample)
    ensures var end, result := Alone(setup, st, t, student, sample), Enroll(st.profiles, student, sample, setup.modelVersion);
            && end.profiles == EnrolledTable(st.profiles, student, sample, setup.modelVersion)
            && t in end.tasks && end.tasks[t].Done? && Answers(result, end.tasks[t].outcome)
  {
    if student in st.profiles && st.profiles[student].generation in {Generated, Revoked} {
      OverAtOnce(setup, st, t, student, sample);
    } else {
      InsertedFirst(setup, st, t, student, sample.newId);
    }
  }

  /** And the two steps of a readiness check, with the comparison made from what the first one read,
      are the check on its own: both write the same table, or both find nothing to compare. */
  lemma CheckAlone(setup: Setup, st: State, t: TaskId, student: StudentId, configs: ConfigTable,
                   analysis: FaceAnalysisResult, hypot: Vector -> real, at: Instant)
    requires WellFormed(st.profiles) && t !in st.tasks
    ensures var active := GetActive(configs);
            var read := Apply(setup, st, StartReadiness(t, student, if active.Some? then Some(active.value.id) else None));
            var checked := RE.CheckReadiness(st.profiles, configs, student, Some(analysis), setup.modelVersion, hypot, at);
            && t in read.tasks && read.profiles == st.profiles
            && if read.tasks[t].Comparing? then
                 && active.Some?
                 && var reference := read.tasks[t].reference;
                    var compared := Compare(reference, setup.modelVersion, analysis, active.value.similarityThreshold,
                                            hypot(reference.embedding), hypot(CapturedVector(analysis)));
                    && (compared.Err? <==> checked.Err?)
                    && (compared.Ok? ==>
                          Apply(setup, read, FinishReadiness(t, compared.value, at)).profiles == checked.value.table)
               else read.tasks[t] == Done(NotReady) && checked.Ok? && checked.value.table == st.profiles
  {
    StoredEmbeddingReads(st.profiles, student);
    if student in st.profiles && st.profiles[student].generation == Generated {
      assert HasProfile(st.profiles, st.profiles[student].id);
    }
  }
}
