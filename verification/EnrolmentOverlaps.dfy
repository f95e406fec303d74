/** Enrolments that overlap, schedule by schedule. Nothing between the read of a profile and
    the write of its reference holds the row (reference_enrollment_service.py:56-127), so an
    enrolment can write over a reference that another one has saved meanwhile. When that
    happens, and what it breaks, is in the order of the schedule's reads and commits. */
module EnrolmentOverlaps {
  import opened Wrappers
  import opened FaceEngine
  import opened FaceComparison
  import opened FaceProfiles
  import opened EnrolmentSchedules

  predicate IsGenerated(profiles: ProfileTable, s: StudentId) {
    s in profiles && profiles[s].generation == Generated
  }

  // The step ends an enrolment of the student, and it commits.
  ghost predicate CommitsFor(setup: Setup, st: State, step: Step, s: StudentId) {
    && step.FinishEnrol? && step.t in st.tasks && st.tasks[step.t].Analysing? && st.tasks[step.t].student == s
    && var after := Apply(setup, st, step).tasks[step.t]; after.Done? && after.outcome.EnrolReturned?
  }

  // And its photograph was accepted.
  ghost predicate SucceedsFor(setup: Setup, st: State, step: Step, s: StudentId) {
    CommitsFor(setup, st, step, s) && Apply(setup, st, step).tasks[step.t].outcome == EnrolReturned(EnrolSuccess)
  }

  // ----- what one step does to one student's row

  lemma CommitWrites(setup: Setup, st: State, step: Step, s: StudentId)
    requires Basic(st) && CommitsFor(setup, st, step, s)
    ensures var later := Apply(setup, st, step).profiles;
            && s in later && later == st.profiles[s := later[s]]
            && (IsGenerated(later, s) <==> SucceedsFor(setup, st, step, s))
            && (s in st.profiles ==> later[s].readiness == st.profiles[s].readiness)
  {
    var task := st.tasks[step.t];
    var view := OwnView(st, task);
    OwnViewSound(st, step.t);
    FinishWrites(view, s, step.analysis, setup.modelVersion, step.at);
  }

  lemma OtherEnrolmentKeeps(setup: Setup, st: State, step: Step, s: StudentId)
    requires Basic(st) && step.FinishEnrol? && !CommitsFor(setup, st, step, s)
    ensures var later := Apply(setup, st, step).profiles;
            (s in later <==> s in st.profiles) && (s in later ==> later[s] == st.profiles[s])
  {
    if step.t in st.tasks && st.tasks[step.t].Analysing? && st.tasks[step.t].student != s {
      var other := st.tasks[step.t].student;
      if CommitsFor(setup, st, step, other) {
        CommitWrites(setup, st, step, other);
      }
    }
  }

  // Only a commit for the student decides whether the row is generated.
  lemma StatusKept(setup: Setup, st: State, step: Step, s: StudentId)
    requires Basic(st) && !CommitsFor(setup, st, step, s)
    ensures IsGenerated(Apply(setup, st, step).profiles, s) <==> IsGenerated(st.profiles, s)
  {
    if step.FinishEnrol? {
      OtherEnrolmentKeeps(setup, st, step, s);
    }
  }

  // ----- along a schedule

  lemma OneStep(setup: Setup, start: ProfileTable, steps: seq<Step>, k: nat)
    requires k < |steps|
    ensures Run(setup, start, steps[..k + 1]) == Apply(setup, Run(setup, start, steps[..k]), steps[k])
  {
    assert steps[..k + 1][..k] == steps[..k];
  }

  ghost predicate GeneratedAt(setup: Setup, start: ProfileTable, steps: seq<Step>, i: nat, s: StudentId)
    requires i <= |steps|
  {
    IsGenerated(Run(setup, start, steps[..i]).profiles, s)
  }

  ghost predicate CommitsAt(setup: Setup, start: ProfileTable, steps: seq<Step>, k: nat, s: StudentId)
    requires k < |steps|
  {
    CommitsFor(setup, Run(setup, start, steps[..k]), steps[k], s)
  }

  ghost predicate SucceedsAt(setup: Setup, start: ProfileTable, steps: seq<Step>, k: nat, s: StudentId)
    requires k < |steps|
  {
    SucceedsFor(setup, Run(setup, start, steps[..k]), steps[k], s)
  }

  // From step i on, up to step k, no enrolment of the student commits.
  ghost predicate QuietFrom(setup: Setup, start: ProfileTable, steps: seq<Step>, i: nat, k: nat, s: StudentId)
    requires k <= |steps|
  {
    forall n :: i <= n < k ==> !CommitsAt(setup, start, steps, n, s)
  }

  lemma StatusKeptAt(setup: Setup, start: ProfileTable, steps: seq<Step>, i: nat, s: StudentId)
    requires WellFormed(start) && i < |steps| && !CommitsAt(setup, start, steps, i, s)
    ensures GeneratedAt(setup, start, steps, i + 1, s) <==> GeneratedAt(setup, start, steps, i, s)
  {
    OneStep(setup, start, steps, i);
    RunsAreBasic(setup, start, steps[..i]);
    StatusKept(setup, Run(setup, start, steps[..i]), steps[i], s);
  }

  lemma {:induction false} StatusRemains(setup: Setup, start: ProfileTable, steps: seq<Step>, i: nat, k: nat,
                                         s: StudentId)
    requires WellFormed(start) && i <= k <= |steps| && QuietFrom(setup, start, steps, i, k, s)
    ensures GeneratedAt(setup, start, steps, k, s) <==> GeneratedAt(setup, start, steps, i, s)
    decreases k - i
  {
    if i < k {
      StatusKeptAt(setup, start, steps, i, s);
      StatusRemains(setup, start, steps, i + 1, k, s);
    }
  }

  lemma CommittedAt(setup: Setup, start: ProfileTable, steps: seq<Step>, m: nat, s: StudentId)
    requires WellFormed(start) && m < |steps| && CommitsAt(setup, start, steps, m, s)
    ensures GeneratedAt(setup, start, steps, m + 1, s) <==> SucceedsAt(setup, start, steps, m, s)
  {
    OneStep(setup, start, steps, m);
    RunsAreBasic(setup, start, steps[..m]);
    CommitWrites(setup, Run(setup, start, steps[..m]), steps[m], s);
  }

  // ----- an enrolment since its read

  ghost predicate EnrollingAt(setup: Setup, start: ProfileTable, steps: seq<Step>, i: nat, t: TaskId, s: StudentId)
    requires i <= |steps|
  {
    var tasks := Run(setup, start, steps[..i]).tasks; t in tasks && Enrolling(tasks[t]) && tasks[t].student == s
  }

  ghost predicate OpenSince(setup: Setup, start: ProfileTable, steps: seq<Step>, j: nat, k: nat, t: TaskId, s: StudentId)
    requires j < k <= |steps|
  {
    && steps[j] == StartEnrol(t, s) && t !in Run(setup, start, steps[..j]).tasks
    && forall i :: j < i <= k ==> EnrollingAt(setup, start, steps, i, t, s)
  }

  lemma StartsOrStays(setup: Setup, st: State, step: Step, t: TaskId)
    requires t in Apply(setup, st, step).tasks && Enrolling(Apply(setup, st, step).tasks[t])
    ensures var s := Apply(setup, st, step).tasks[t].student;
            if t in st.tasks then Enrolling(st.tasks[t]) && st.tasks[t].student == s
            else step == StartEnrol(t, s) && !IsGenerated(st.profiles, s)
  {
  }

  lemma StartsAt(setup: Setup, start: ProfileTable, steps: seq<Step>, j: nat, t: TaskId, s: StudentId)
    requires j < |steps| && EnrollingAt(setup, start, steps, j + 1, t, s) && !EnrollingAt(setup, start, steps, j, t, s)
    ensures OpenSince(setup, start, steps, j, j + 1, t, s) && !GeneratedAt(setup, start, steps, j, s)
  {
    OneStep(setup, start, steps, j);
    StartsOrStays(setup, Run(setup, start, steps[..j]), steps[j], t);
  }

  lemma {:induction false} FindsStart(setup: Setup, start: ProfileTable, steps: seq<Step>, k: nat, t: TaskId,
                                      s: StudentId)
    returns (j: nat)
    requires k <= |steps| && EnrollingAt(setup, start, steps, k, t, s)
    ensures j < k && OpenSince(setup, start, steps, j, k, t, s) && !GeneratedAt(setup, start, steps, j, s)
  {
    assert k > 0;
    if EnrollingAt(setup, start, steps, k - 1, t, s) {
      j := FindsStart(setup, start, steps, k - 1, t, s);
    } else {
      j := k - 1;
      StartsAt(setup, start, steps, j, t, s);
    }
  }

  // The last enrolment of the student that commits between i and k, if there is any.
  lemma {:induction false} FindsLastCommit(setup: Setup, start: ProfileTable, steps: seq<Step>, i: nat, k: nat,
                                            s: StudentId)
    returns (m: Option<nat>)
    requires i <= k <= |steps|
    ensures m.None? ==> QuietFrom(setup, start, steps, i, k, s)
    ensures m.Some? ==> i <= m.value < k && CommitsAt(setup, start, steps, m.value, s)
                        && QuietFrom(setup, start, steps, m.value + 1, k, s)
    decreases k - i
  {
    if i == k {
      m := None;
    } else if CommitsAt(setup, start, steps, k - 1, s) {
      m := Some(k - 1);
    } else {
      m := FindsLastCommit(setup, start, steps, i, k - 1, s);
    }
  }

  // And the first one; there is one at k.
  lemma {:induction false} FindsFirstCommit(setup: Setup, start: ProfileTable, steps: seq<Step>, i: nat, k: nat,
                                             s: StudentId)
    returns (n: nat)
    requires i <= k < |steps| && CommitsAt(setup, start, steps, k, s)
    ensures i <= n <= k && CommitsAt(setup, start, steps, n, s) && QuietFrom(setup, start, steps, i, n, s)
    decreases k - i
  {
    if CommitsAt(setup, start, steps, i, s) {
      n := i;
    } else {
      n := FindsFirstCommit(setup, start, steps, i + 1, k, s);
    }
  }

  // ----- writing over a reference is an overlap

  // The step commits an enrolment of a student who has a reference.
  ghost predicate OverwritesAt(setup: Setup, start: ProfileTable, steps: seq<Step>, k: nat, s: StudentId)
    requires k < |steps|
  {
    CommitsAt(setup, start, steps, k, s) && GeneratedAt(setup, start, steps, k, s)
  }

  // While the enrolment that ends at k was open, another one of its student saved a reference.
  ghost predicate Overlapped(setup: Setup, start: ProfileTable, steps: seq<Step>, j: nat, m: nat, k: nat, s: StudentId) {
    && j < m < k < |steps| && OpenSince(setup, start, steps, j, k, steps[k].t, s) && steps[m].t != steps[k].t
    && SucceedsAt(setup, start, steps, m, s)
  }

  lemma EndsItself(setup: Setup, start: ProfileTable, steps: seq<Step>, m: nat, s: StudentId)
    requires m < |steps| && CommitsAt(setup, start, steps, m, s)
    ensures !EnrollingAt(setup, start, steps, m + 1, steps[m].t, s)
  {
    OneStep(setup, start, steps, m);
  }

  // Between a moment without a reference and one with it, the last commit was a success.
  lemma LastCommitSucceeds(setup: Setup, start: ProfileTable, steps: seq<Step>, j: nat, k: nat, s: StudentId)
    returns (m: nat)
    requires WellFormed(start) && j < k <= |steps|
    requires !GeneratedAt(setup, start, steps, j, s) && GeneratedAt(setup, start, steps, k, s)
    ensures j <= m < k && SucceedsAt(setup, start, steps, m, s) && QuietFrom(setup, start, steps, m + 1, k, s)
  {
    var last := FindsLastCommit(setup, start, steps, j, k, s);
    if last.None? {
      StatusRemains(setup, start, steps, j, k, s);
      assert false;
    }
    m := last.value;
    CommittedAt(setup, start, steps, m, s);
    StatusRemains(setup, start, steps, m + 1, k, s);
  }

  lemma LastSuccess(setup: Setup, start: ProfileTable, steps: seq<Step>, k: nat, s: StudentId) returns (j: nat, m: nat)
    requires WellFormed(start) && k < |steps| && OverwritesAt(setup, start, steps, k, s)
    ensures Overlapped(setup, start, steps, j, m, k, s) && QuietFrom(setup, start, steps, m + 1, k, s)
  {
    assert EnrollingAt(setup, start, steps, k, steps[k].t, s);
    j := FindsStart(setup, start, steps, k, steps[k].t, s);
    m := LastCommitSucceeds(setup, start, steps, j, k, s);
    EndsItself(setup, start, steps, m, s);
    assert EnrollingAt(setup, start, steps, m + 1, steps[k].t, s);
  }

  /** An enrolment that commits writes over a reference exactly when, since it read the
      profile, other enrolments of the student committed and the last of them was a success. */
  lemma OverwriteIsOverlap(setup: Setup, start: ProfileTable, steps: seq<Step>, k: nat, s: StudentId)
    requires WellFormed(start) && k < |steps| && CommitsAt(setup, start, steps, k, s)
    ensures OverwritesAt(setup, start, steps, k, s)
       <==> exists j: nat, m: nat ::
              Overlapped(setup, start, steps, j, m, k, s) && QuietFrom(setup, start, steps, m + 1, k, s)
  {
    if j: nat, m: nat :| Overlapped(setup, start, steps, j, m, k, s) && QuietFrom(setup, start, steps, m + 1, k, s) {
      CommittedAt(setup, start, steps, m, s);
      StatusRemains(setup, start, steps, m + 1, k, s);
    }
    if OverwritesAt(setup, start, steps, k, s) {
      var j, m := LastSuccess(setup, start, steps, k, s);
    }
  }

  // The first commit after a success writes over its reference.
  lemma OverlapOverwrites(setup: Setup, start: ProfileTable, steps: seq<Step>, m: nat, k: nat, s: StudentId)
    returns (n: nat)
    requires WellFormed(start) && m < k < |steps|
    requires SucceedsAt(setup, start, steps, m, s) && CommitsAt(setup, start, steps, k, s)
    ensures m < n <= k && OverwritesAt(setup, start, steps, n, s)
  {
    n := FindsFirstCommit(setup, start, steps, m + 1, k, s);
    CommittedAt(setup, start, steps, m, s);
    StatusRemains(setup, start, steps, m + 1, n, s);
  }

  /** On a schedule some reference of the student is written over exactly when an enrolment of
      the student was open when another one saved a reference, and then committed. */
  lemma OverwrittenByOverlap(setup: Setup, start: ProfileTable, steps: seq<Step>, s: StudentId)
    requires WellFormed(start)
    ensures (exists k :: 0 <= k < |steps| && OverwritesAt(setup, start, steps, k, s))
       <==> exists j: nat, m: nat, k: nat ::
              Overlapped(setup, start, steps, j, m, k, s) && CommitsAt(setup, start, steps, k, s)
  {
    if k :| 0 <= k < |steps| && OverwritesAt(setup, start, steps, k, s) {
      var j, m := LastSuccess(setup, start, steps, k, s);
      assert Overlapped(setup, start, steps, j, m, k, s) && CommitsAt(setup, start, steps, k, s);
    }
    if j: nat, m: nat, k: nat :| Overlapped(setup, start, steps, j, m, k, s) && CommitsAt(setup, start, steps, k, s) {
      var n := OverlapOverwrites(setup, start, steps, m, k, s);
    }
  }

  // ----- and it is all that can go wrong

  // The step writes another reference, or none, over the one the student has.
  ghost predicate AltersReference(setup: Setup, st: State, step: Step) {
    && step.FinishEnrol? && step.t in st.tasks && st.tasks[step.t].Analysing?
    && var s := st.tasks[step.t].student;
       && CommitsFor(setup, st, step, s) && IsGenerated(st.profiles, s)
       && s in Apply(setup, st, step).profiles
       && ReferenceColumns(Apply(setup, st, step).profiles[s]) != ReferenceColumns(st.profiles[s])
  }

  // What running calls have read: no row of an enrolment is revoked, and checks have a reference.
  ghost predicate Calm(st: State) {
    forall t :: t in st.tasks ==> CalmTask(st.profiles, st.tasks[t])
  }

  ghost predicate CalmTask(profiles: ProfileTable, task: Task) {
    && (task.Analysing? && !task.inserted ==>
          task.student in profiles && profiles[task.student].generation != Revoked)
    && (task.Comparing? ==> IsGenerated(profiles, task.student))
  }

  // Rows stay, and their statuses as far as running calls rely on them.
  ghost predicate StatusesKept(before: ProfileTable, after: ProfileTable) {
    forall s :: s in before ==>
      && s in after && (before[s].generation == Generated ==> after[s].generation == Generated)
      && (before[s].generation != Revoked ==> after[s].generation != Revoked)
  }

  lemma CalmKept(st: State, next: State, t: TaskId)
    requires Calm(st) && StatusesKept(st.profiles, next.profiles)
    requires forall u :: u in next.tasks && u != t ==> u in st.tasks && next.tasks[u] == st.tasks[u]
    requires t in next.tasks ==> CalmTask(next.profiles, next.tasks[t])
    ensures Calm(next)
  {
    forall u | u in next.tasks ensures CalmTask(next.profiles, next.tasks[u]) {
      if u != t {
        assert CalmTask(st.profiles, st.tasks[u]);
      }
    }
  }

  lemma FinishLeavesReadiness(table: ProfileTable, s: StudentId, analysis: Option<FaceAnalysisResult>, version: string,
                              at: Instant)
    requires DistinctIds(table) && s in table && (analysis.Some? ==> analysis.value.Constructible())
    ensures var r := FinishEnrolment(table, table[s].id, analysis, version, at);
            r.Ok? ==> && s in r.value.table
                      && r.value.table[s].readiness == table[s].readiness
                      && r.value.table[s].readinessConfig == table[s].readinessConfig
                      && r.value.table[s].readinessCheckedAt == table[s].readinessCheckedAt
  {
    if analysis.Some? {
      if analysis.value.status == Success {
        var embedding, name := analysis.value.embedding.value, analysis.value.modelName.value;
        WrittenById(table, s, p => GeneratedRow(p, embedding, name, version, at));
      } else {
        WrittenById(table, s, FailedRow);
      }
    }
  }

  lemma SameRow(p: FaceProfile, q: FaceProfile)
    requires ReferenceColumns(p) == ReferenceColumns(q)
    requires p.readiness == q.readiness && p.readinessConfig == q.readinessConfig
    requires p.readinessCheckedAt == q.readinessCheckedAt
    ensures p == q
  {
    assert p == ReferenceColumns(p).(readiness := p.readiness, readinessConfig := p.readinessConfig,
                                     readinessCheckedAt := p.readinessCheckedAt);
    assert q == ReferenceColumns(q).(readiness := q.readiness, readinessConfig := q.readinessConfig,
                                     readinessCheckedAt := q.readinessCheckedAt);
  }

  // A commit over a reference that does not alter it writes nothing new at all.
  lemma HarmlessCommit(setup: Setup, st: State, step: Step, s: StudentId)
    requires Basic(st) && CommitsFor(setup, st, step, s) && IsGenerated(st.profiles, s)
    requires !AltersReference(setup, st, step)
    ensures Apply(setup, st, step).profiles == st.profiles
  {
    var task := st.tasks[step.t];
    var later := Apply(setup, st, step).profiles;
    OwnViewSound(st, step.t);
    CommitWrites(setup, st, step, s);
    FinishLeavesReadiness(OwnView(st, task), s, step.analysis, setup.modelVersion, step.at);
    SameRow(later[s], st.profiles[s]);
  }

  lemma FreshCommit(setup: Setup, st: State, step: Step, s: StudentId)
    requires Basic(st) && Calm(st) && CommitsFor(setup, st, step, s) && !IsGenerated(st.profiles, s)
    ensures Careful(st.profiles, Apply(setup, st, step).profiles)
    ensures StatusesKept(st.profiles, Apply(setup, st, step).profiles)
  {
    var task := st.tasks[step.t];
    var view := OwnView(st, task);
    OwnViewSound(st, step.t);
    CommitWrites(setup, st, step, s);
    assert CalmTask(st.profiles, task);
    assert ReadinessSound(st.profiles) ==> view[s].readiness == NotChecked;
    FinishProtects(st.profiles, view, s, step.analysis, setup.modelVersion, step.at);
  }

  lemma EnrolmentIsCalm(setup: Setup, st: State, step: Step)
    requires Basic(st) && Calm(st) && step.FinishEnrol? && !AltersReference(setup, st, step)
    ensures Calm(Apply(setup, st, step)) && Careful(st.profiles, Apply(setup, st, step).profiles)
  {
    var next := Apply(setup, st, step);
    if step.t in st.tasks && st.tasks[step.t].Analysing? {
      var s := st.tasks[step.t].student;
      if !CommitsFor(setup, st, step, s) {
        assert next.profiles == st.profiles;
      } else if IsGenerated(st.profiles, s) {
        HarmlessCommit(setup, st, step, s);
      } else {
        FreshCommit(setup, st, step, s);
      }
      CalmKept(st, next, step.t);
    }
  }

  lemma CheckIsCalm(setup: Setup, st: State, step: Step)
    requires Basic(st) && Calm(st) && step.FinishReadiness?
    ensures Calm(Apply(setup, st, step)) && Careful(st.profiles, Apply(setup, st, step).profiles)
  {
    var next := Apply(setup, st, step);
    if step.t in st.tasks && st.tasks[step.t].Comparing? {
      var task := st.tasks[step.t];
      assert CalmTask(st.profiles, task);
      var status := if step.comparison.status == Matched then ReadinessPassed else ReadinessFailed;
      WrittenById(st.profiles, task.student, p => CheckedRow(p, status, task.config, step.at));
      CalmKept(st, next, step.t);
    }
  }

  // A step that writes no profile moves its own task only, to one that is calm.
  ghost predicate MovesCalmly(st: State, next: State, t: TaskId) {
    && next.profiles == st.profiles
    && (forall u :: u in next.tasks && u != t ==> u in st.tasks && next.tasks[u] == st.tasks[u])
    && (t in next.tasks ==> CalmTask(st.profiles, next.tasks[t]))
  }

  lemma StartsCalmly(setup: Setup, st: State, step: Step)
    requires Basic(st) && Calm(st) && (step.StartEnrol? || step.StartReadiness?)
    ensures MovesCalmly(st, Apply(setup, st, step), step.t)
  {
    StoredEmbeddingReads(st.profiles, step.student);
    assert step.t in st.tasks ==> CalmTask(st.profiles, st.tasks[step.t]);
  }

  lemma GoesOnCalmly(setup: Setup, st: State, step: Step)
    requires Calm(st) && (step.Insert? || step.Abort?)
    ensures MovesCalmly(st, Apply(setup, st, step), step.t)
  {
    assert step.t in st.tasks ==> CalmTask(st.profiles, st.tasks[step.t]);
  }

  // No other step writes a profile.
  lemma QuietIsCalm(st: State, next: State, t: TaskId)
    requires Calm(st) && MovesCalmly(st, next, t)
    ensures Calm(next) && Careful(st.profiles, next.profiles)
  {
    CalmKept(st, next, t);
  }

  lemma StepIsCalm(setup: Setup, st: State, step: Step)
    requires Basic(st) && Calm(st) && !AltersReference(setup, st, step)
    ensures Calm(Apply(setup, st, step)) && Careful(st.profiles, Apply(setup, st, step).profiles)
  {
    if step.FinishEnrol? {
      EnrolmentIsCalm(setup, st, step);
    } else if step.FinishReadiness? {
      CheckIsCalm(setup, st, step);
    } else {
      if step.Insert? || step.Abort? {
        GoesOnCalmly(setup, st, step);
      } else {
        StartsCalmly(setup, st, step);
      }
      QuietIsCalm(st, Apply(setup, st, step), step.t);
    }
  }

  ghost predicate AltersAt(setup: Setup, start: ProfileTable, steps: seq<Step>, k: nat)
    requires k < |steps|
  {
    AltersReference(setup, Run(setup, start, steps[..k]), steps[k])
  }

  ghost predicate NeverAlters(setup: Setup, start: ProfileTable, steps: seq<Step>, n: nat)
    requires n <= |steps|
  {
    forall k :: 0 <= k < n ==> !AltersAt(setup, start, steps, k)
  }

  ghost predicate CalmAt(setup: Setup, start: ProfileTable, steps: seq<Step>, i: nat)
    requires i <= |steps|
  {
    Calm(Run(setup, start, steps[..i])) && ReadinessSound(Run(setup, start, steps[..i]).profiles)
  }

  ghost predicate ProtectedFrom(setup: Setup, start: ProfileTable, steps: seq<Step>, k: nat, n: nat)
    requires k <= n <= |steps|
  {
    Protected(Run(setup, start, steps[..k]).profiles, Run(setup, start, steps[..n]).profiles)
  }

  lemma CalmStep(setup: Setup, start: ProfileTable, steps: seq<Step>, i: nat)
    requires WellFormed(start) && i < |steps| && CalmAt(setup, start, steps, i) && !AltersAt(setup, start, steps, i)
    ensures CalmAt(setup, start, steps, i + 1) && ProtectedFrom(setup, start, steps, i, i + 1)
  {
    RunsAreBasic(setup, start, steps[..i]);
    StepIsCalm(setup, Run(setup, start, steps[..i]), steps[i]);
    OneStep(setup, start, steps, i);
  }

  lemma {:induction false} CalmRuns(setup: Setup, start: ProfileTable, steps: seq<Step>, n: nat)
    requires WellFormed(start) && ReadinessSound(start) && n <= |steps| && NeverAlters(setup, start, steps, n)
    ensures CalmAt(setup, start, steps, n)
  {
    if n == 0 {
      assert steps[..0] == [];
    } else {
      CalmRuns(setup, start, steps, n - 1);
      CalmStep(setup, start, steps, n - 1);
    }
  }

  lemma {:induction false} ProtectedRuns(setup: Setup, start: ProfileTable, steps: seq<Step>, k: nat, n: nat)
    requires WellFormed(start) && ReadinessSound(start) && k <= n <= |steps| && NeverAlters(setup, start, steps, n)
    ensures ProtectedFrom(setup, start, steps, k, n)
    decreases n - k
  {
    if k < n {
      ProtectedRuns(setup, start, steps, k, n - 1);
      CalmRuns(setup, start, steps, n - 1);
      CalmStep(setup, start, steps, n - 1);
      ProtectedTrans(Run(setup, start, steps[..k]).profiles, Run(setup, start, steps[..n - 1]).profiles,
                     Run(setup, start, steps[..n]).profiles);
    }
  }

  // At every moment of the schedule.
  ghost predicate AlwaysSafe(setup: Setup, start: ProfileTable, steps: seq<Step>) {
    forall n :: 0 <= n <= |steps| ==> Safe(setup, start, steps[..n])
  }

  lemma CalmIsSafe(setup: Setup, start: ProfileTable, steps: seq<Step>, n: nat)
    requires WellFormed(start) && ReadinessSound(start) && n <= |steps| && NeverAlters(setup, start, steps, |steps|)
    ensures Safe(setup, start, steps[..n])
  {
    forall k | 0 <= k <= |steps[..n]|
      ensures Protected(Run(setup, start, steps[..n][..k]).profiles, Run(setup, start, steps[..n]).profiles)
    {
      assert steps[..n][..k] == steps[..k];
      ProtectedRuns(setup, start, steps, k, n);
    }
    CalmRuns(setup, start, steps, n);
  }

  lemma AlteringIsUnsafe(setup: Setup, start: ProfileTable, steps: seq<Step>, k: nat)
    requires k < |steps| && AltersAt(setup, start, steps, k)
    ensures !Safe(setup, start, steps[..k + 1])
  {
    OneStep(setup, start, steps, k);
    assert steps[..k + 1][..k] == steps[..k];
    assert !Protected(Run(setup, start, steps[..k]).profiles, Run(setup, start, steps[..k + 1]).profiles);
  }

  /** A schedule is safe at every moment - references and revoked profiles survive, readiness
      results stay backed - exactly when no enrolment of it alters a reference it writes over. */
  lemma SafeExactly(setup: Setup, start: ProfileTable, steps: seq<Step>)
    requires WellFormed(start) && ReadinessSound(start)
    ensures AlwaysSafe(setup, start, steps) <==> NeverAlters(setup, start, steps, |steps|)
  {
    if NeverAlters(setup, start, steps, |steps|) {
      forall n | 0 <= n <= |steps| ensures Safe(setup, start, steps[..n]) {
        CalmIsSafe(setup, start, steps, n);
      }
    } else {
      var k :| 0 <= k < |steps| && AltersAt(setup, start, steps, k);
      AlteringIsUnsafe(setup, start, steps, k);
    }
  }
}
