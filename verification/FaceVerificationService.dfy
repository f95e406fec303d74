/** `verify` in the shape of the source: statement by statement over a shared database that
    other requests, Core and administrators change between any two statements, and with a
    connection that can break before any of them. Each statement is proved to be the
    protocol's, so every theorem about schedules holds for the calls made here. */
module FaceVerificationService {
  import opened Wrappers
  import opened EmbeddingSimilarity
  import opened FaceEngine
  import opened FaceComparison
  import opened VerificationConfigs
  import opened FaceAttemptRules
  import opened FaceAttemptProtocol
  import opened FaceAttemptInvariant
  import opened FaceAttemptAnswers
  import opened FaceAttemptProgram

  function WithoutRequest(steps: seq<Step>, r: RequestId): (others: seq<Step>)
    ensures OthersOnly(others, r)
  {
    if steps == [] then []
    else if OfRequest(steps[0], r) then WithoutRequest(steps[1..], r)
    else [steps[0]] + WithoutRequest(steps[1..], r)
  }

  // ----- the shared database and the engine's permits

  class AttendanceDatabase {
    const settings: Settings
    var rows: seq<AttemptRow>
    var parent: Option<ParentAttempt>
    var rowLock: Option<RequestId>
    var session: SessionView
    var reference: Option<StoredFaceEmbedding>
    var configs: ConfigTable
    var freePermits: nat
    var permits: set<RequestId>
    var foreignPermits: nat
    var transactions: set<RequestId>
    var phases: map<RequestId, Phase>
    var history: seq<Event>

    constructor (settings: Settings, session: SessionView)
      requires ValidSettings(settings)
      ensures this.settings == settings && View() == Initial(settings, session)
      ensures Reachable(settings, View())
    {
      this.settings := settings;
      rows, parent, rowLock, this.session := [], None, None, session;
      reference, configs := None, [];
      freePermits, permits, foreignPermits := settings.capacity, {}, 0;
      transactions, phases, history := {}, map[], [];
      new;
      assert View() == After(settings, session, []);
    }

    function View(): State
      reads this
    {
      State(rows, parent, rowLock, session, reference, configs, freePermits, permits, foreignPermits,
            transactions, phases, history)
    }

    method Become(next: State)
      modifies this
      ensures View() == next
    {
      rows, parent, rowLock, session := next.rows, next.parent, next.rowLock, next.session;
      reference, configs := next.reference, next.configs;
      freePermits, permits, foreignPermits := next.freePermits, next.permits, next.foreignPermits;
      transactions, phases, history := next.transactions, next.phases, next.history;
    }

    // The others take these steps.
    method Proceed(others: seq<Step>)
      modifies this
      ensures View() == Run(settings, old(View()), others)
    {
      Become(Run(settings, View(), others));
    }

    // Anything the others do while request r waits.
    method Interleave(r: RequestId) returns (others: seq<Step>)
      modifies this
      ensures OthersOnly(others, r)
      ensures View() == Run(settings, old(View()), others)
    {
      var chosen: seq<Step> := *;
      others := WithoutRequest(chosen, r);
      Proceed(others);
    }

    // The row with the greatest number.
    method LatestFaceAttempt() returns (latest: Option<AttemptRow>)
      ensures latest == Latest(rows)
    {
      latest := None;
      var i := 0;
      while i < |rows|
        invariant 0 <= i <= |rows|
        invariant latest == Latest(rows[..i])
      {
        assert rows[..i + 1][..i] == rows[..i];
        if latest.None? || latest.value.attemptNumber <= rows[i].attemptNumber {
          latest := Some(rows[i]);
        }
        i := i + 1;
      }
      assert rows[..i] == rows;
    }

    // Keeps account of a step for the others: who has arrived, who has a transaction open or
    // a permit, what was committed. What the statements share they write themselves.
    method Mark(step: Step)
      modifies `permits, `foreignPermits, `transactions, `phases, `history
      ensures var now, next := old(View()), Apply(settings, old(View()), step);
              View() == now.(permits := next.permits, foreignPermits := next.foreignPermits,
                             transactions := next.transactions, phases := next.phases, history := next.history)
    {
      var next := Apply(settings, View(), step);
      permits, foreignPermits, transactions := next.permits, next.foreignPermits, next.transactions;
      phases, history := next.phases, next.history;
    }

    // A transaction's writes become visible together, and its row lock goes back.
    method Commit(r: RequestId, written: seq<AttemptRow>, parentAfter: Option<ParentAttempt>)
      requires r in phases && phases[r].Written? && rowLock == Some(r)
      requires written == [phases[r].row] && parentAfter == phases[r].parentAfter
      modifies this
      ensures View() == Apply(settings, old(View()), CommitAttempt(r))
    {
      Mark(CommitAttempt(r));
      rows, parent, rowLock := rows + written, parentAfter, None;
    }

    // What was written is forgotten.
    method Rollback(r: RequestId)
      requires r in phases && phases[r].Unwinding?
      modifies this
      ensures View() == Apply(settings, old(View()), Unwind(r))
    {
      Mark(Unwind(r));
      if rowLock == Some(r) {
        rowLock := None;
      }
    }
  }

  // ----- the service, one request at a time

  // What a statement leaves as it is, its step does too.
  ghost predicate KeepsShared(now: State, next: State) {
    && next.rows == now.rows && next.parent == now.parent && next.rowLock == now.rowLock
    && next.freePermits == now.freePermits
    && next.session == now.session && next.reference == now.reference && next.configs == now.configs
  }

  lemma LosesConnection(s: Settings, now: State, r: RequestId)
    requires r in now.phases && BooksOf(now, r, now.phases[r]) && !now.phases[r].Ended? && !now.phases[r].Unwinding?
    ensures var next, back := Apply(s, now, LoseConnection(r)), if now.phases[r].Inferring? then 1 else 0;
            && KeepsShared(now.(freePermits := now.freePermits + back), next) && TakesEffect(s, now, LoseConnection(r), r)
            && next.phases[r] == if TransactionOpen(now.phases[r]) then Unwinding(Raised(ConnectionLost))
                                 else Ended(Raised(ConnectionLost))
  {
  }

  // What the comparison decides, as the phase it leaves.
  function Judged(ticket: Ticket, compared: Result<FaceComparisonResult, ComparisonError>): Phase {
    match compared
    case Err(_) => Ended(Raised(ComparisonRaised))
    case Ok(comparison) =>
      if Consumes(comparison.status)
      then Compared(Submission(ticket.receivedAt, ticket.reference.profileId, ticket.configId, comparison))
      else Ended(Returned(UnconsumedResult(comparison, ticket.previous)))
  }

  lemma RejectionJudged(s: Settings, now: State, r: RequestId, ticket: Ticket, reason: string)
    requires r in now.phases && now.phases[r] == Queued(ticket) && BooksOf(now, r, now.phases[r])
    ensures var analysis := Failure(ProcessingFailed, 0, reason, None, s.modelName);
            var next := Apply(s, now, Step.RejectImage(r, reason));
            KeepsShared(now, next) && TakesEffect(s, now, Step.RejectImage(r, reason), r)
            && next.phases[r] == Judged(ticket, Compare(ticket.reference, s.modelVersion, analysis, ticket.threshold, 0.0, 0.0))
  {
  }

  lemma InferenceFinishes(s: Settings, now: State, r: RequestId, ticket: Ticket, analysis: FaceAnalysisResult, mr: real, mc: real)
    requires r in now.phases && now.phases[r] == Inferring(ticket) && BooksOf(now, r, now.phases[r])
    requires analysis.Constructible() && IsMagnitude(mr, ticket.reference.embedding) && IsMagnitude(mc, CapturedVector(analysis))
    ensures var next := Apply(s, now, Step.FinishInference(r, analysis, mr, mc));
            && KeepsShared(now.(freePermits := now.freePermits + 1), next)
            && TakesEffect(s, now, Step.FinishInference(r, analysis, mr, mc), r)
            && next.phases[r]
               == Judged(ticket, Compare(ticket.reference, s.modelVersion, analysis, ticket.threshold, mr, mc))
  {
  }

  lemma LockedReadMoves(s: Settings, now: State, r: RequestId, submission: Submission, seen: SessionView)
    requires r in now.phases && now.phases[r] == ContextLocked(submission, seen)
    ensures Apply(s, now, Step.ReadLatestLocked(r)) == DoReadLatestLocked(s, now, r, submission, seen)
    ensures KeepsShared(now, Apply(s, now, Step.ReadLatestLocked(r))) && TakesEffect(s, now, Step.ReadLatestLocked(r), r)
  {
  }

  lemma WriteMoves(s: Settings, now: State, r: RequestId, submission: Submission, seen: SessionView, previous: int)
    requires r in now.phases && now.phases[r] == LatestLocked(submission, seen, previous)
    ensures Apply(s, now, Step.WriteAttempt(r)) == DoWriteAttempt(s, now, r, submission, seen, previous)
    ensures KeepsShared(now, Apply(s, now, Step.WriteAttempt(r))) && TakesEffect(s, now, Step.WriteAttempt(r), r)
  {
  }

  lemma CommitMoves(s: Settings, now: State, r: RequestId)
    requires r in now.phases && now.phases[r].Written?
    ensures Apply(s, now, Step.CommitAttempt(r)) == DoCommitAttempt(now, r, now.phases[r])
    ensures TakesEffect(s, now, Step.CommitAttempt(r), r)
  {
  }

  lemma UnwindMoves(s: Settings, now: State, r: RequestId)
    requires r in now.phases && now.phases[r].Unwinding?
    ensures Apply(s, now, Step.Unwind(r)) == DoUnwind(now, r, now.phases[r].outcome)
    ensures TakesEffect(s, now, Step.Unwind(r), r)
  {
  }

  lemma ReachedScoreDecides(s: Settings, start: State, trace: seq<Step>, r: RequestId, result: VerificationResult)
    requires Reachable(s, start)
    requires r in Run(s, start, trace).phases && Run(s, start, trace).phases[r] == Ended(Returned(result))
    ensures ScoreDecides(result)
  {
    var session, steps :| start == After(s, session, steps);
    RunFromInitial(s, session, steps, trace);
    ScoreDecidesAnswer(s, session, steps + trace, r, result);
  }

  class AttendanceFaceVerificationService {
    const db: AttendanceDatabase
    const r: RequestId
    var inTransaction: bool
    var holdsPermit: bool
    // What the open transaction has written and not yet committed.
    var pendingRows: seq<AttemptRow>
    var pendingParent: Option<ParentAttempt>
    // The state the call was made in, its arrival, and the schedule since then.
    ghost var start: State
    ghost var arrival: Step
    ghost var trace: seq<Step>

    constructor (db: AttendanceDatabase, r: RequestId)
      ensures this.db == db && this.r == r && !inTransaction && !holdsPermit
    {
      this.db, this.r := db, r;
      inTransaction, holdsPermit := false, false;
      pendingRows, pendingParent := [], None;
      start, arrival, trace := db.View(), OtherAcquires, [];
    }

    ghost predicate At(phase: Phase)
      reads this, db
    {
      && Leads(db.settings, start, trace, db.View(), r) && trace != [] && trace[0] == arrival
      && r in db.phases && db.phases[r] == phase && BooksOf(db.View(), r, phase)
      && inTransaction == TransactionOpen(phase) && holdsPermit == phase.Inferring?
    }

    // The call stands at `phase`, or it was refused.
    ghost predicate Stands(stop: Option<Outcome>, phase: Phase)
      reads this, db
    {
      if stop.Some? then Stops(stop.value) && IsRefusal(stop.value) else At(phase)
    }

    // The call has the comparison of the image, or it stopped with an answer to it.
    ghost predicate Concludes(stop: Option<Outcome>, submission: Submission, decodable: bool, analysis: FaceAnalysisResult)
      reads this, db
    {
      if stop.Some? then Stops(stop.value) && (stop.value.Returned? ==> AnswersTo(decodable, analysis, stop.value.result))
      else At(Compared(submission)) && decodable && ComparisonOf(analysis, submission.comparison)
    }

    ghost predicate Stops(outcome: Outcome)
      reads this, db
    {
      At(Unwinding(outcome)) || At(Ended(outcome))
    }

    // The statement's step is taken and what it shares is written.
    ghost method Took(step: Step, now: State)
      requires Leads(db.settings, start, trace, now, r) && db.View() == Apply(db.settings, now, step)
      requires TakesEffect(db.settings, now, step, r)
      modifies `trace
      ensures trace == old(trace) + [step] && Leads(db.settings, start, trace, db.View(), r)
      ensures r in db.phases && BooksOf(db.View(), r, db.phases[r])
    {
      OwnStepLeads(db.settings, start, trace, now, step, r);
      trace := trace + [step];
      LeadsToBooks(db.settings, start, trace, db.View(), r);
    }

    // A statement that only reads what is shared.
    method Take(step: Step)
      requires Leads(db.settings, start, trace, db.View(), r) && TakesEffect(db.settings, db.View(), step, r)
      requires KeepsShared(db.View(), Apply(db.settings, db.View(), step))
      modifies `trace, db
      ensures db.View() == Apply(db.settings, old(db.View()), step)
      ensures trace == old(trace) + [step] && Leads(db.settings, start, trace, db.View(), r)
      ensures r in db.phases && BooksOf(db.View(), r, db.phases[r])
    {
      ghost var now := db.View();
      db.Mark(step);
      Took(step, now);
    }

    // A statement that also gives the permit back.
    method TakeReleasing(step: Step)
      requires Leads(db.settings, start, trace, db.View(), r) && TakesEffect(db.settings, db.View(), step, r) && holdsPermit
      requires KeepsShared(db.View().(freePermits := db.freePermits + 1), Apply(db.settings, db.View(), step))
      modifies `trace, `holdsPermit, db
      ensures db.View() == Apply(db.settings, old(db.View()), step) && !holdsPermit
      ensures trace == old(trace) + [step] && Leads(db.settings, start, trace, db.View(), r)
      ensures r in db.phases && BooksOf(db.View(), r, db.phases[r])
    {
      ghost var now := db.View();
      db.Mark(step);
      db.freePermits := db.freePermits + 1;
      holdsPermit := false;
      Took(step, now);
    }

    // Between two statements the others take any steps.
    method Pause(ghost phase: Phase)
      requires At(phase)
      modifies `trace, db
      ensures At(phase)
    {
      ghost var now := db.View();
      var others := db.Interleave(r);
      OtherStepsLead(db.settings, start, trace, now, others, r);
      trace := trace + others;
      LeadsToBooks(db.settings, start, trace, db.View(), r);
    }

    // The connection breaks, or the statement's time limit passes: a permit goes back on
    // the way out.
    method LoseConnection(ghost phase: Phase) returns (stop: Option<Outcome>)
      requires At(phase) && !phase.Ended? && !phase.Unwinding?
      modifies `trace, `holdsPermit, db
      ensures stop.Some? && Stops(stop.value) && stop.value.Raised?
    {
      LosesConnection(db.settings, db.View(), r);
      if holdsPermit {
        TakeReleasing(Step.LoseConnection(r));
      } else {
        Take(Step.LoseConnection(r));
      }
      stop := Some(Raised(ConnectionLost));
    }

    method Wait(ghost phase: Phase) returns (stop: Option<Outcome>)
      requires At(phase) && !phase.Ended? && !phase.Unwinding?
      modifies `trace, `holdsPermit, db
      ensures Stands(stop, phase)
    {
      Pause(phase);
      stop := None;
      var lost: bool := *;
      if lost {
        stop := LoseConnection(phase);
      }
    }

    // ----- the snapshot

    method Receive(at: Instant)
      requires Reachable(db.settings, db.View()) && r !in db.phases && !inTransaction && !holdsPermit
      modifies `start, `arrival, `trace, db
      ensures At(Received(at)) && start == old(db.View()) && arrival == Arrive(r, at)
    {
      start, arrival, trace := db.View(), Arrive(r, at), [];
      Take(Arrive(r, at));
    }

    method ReadContext(at: Instant) returns (stop: Option<Outcome>)
      requires At(Received(at))
      modifies `trace, `inTransaction, db
      ensures Stands(stop, ContextRead(at))
    {
      var error := ValidateContext(db.parent, db.session, at);
      Take(Step.ReadContext(r));
      inTransaction := true;
      stop := if error.Some? then Some(Raised(error.value)) else None;
    }

    // A passed row closes the attempt; a used-up number answers at once.
    method JudgeLatest(latest: Option<AttemptRow>) returns (stop: Option<Outcome>, previous: int)
      ensures previous == PreviousNumber(latest)
      ensures stop == if latest.Some? && latest.value.validationStatus == RowPassed then Some(Raised(AlreadyPassed))
                      else if previous >= db.settings.maxAttempts then Some(Returned(LimitResult(previous)))
                      else None
    {
      previous := if latest.Some? then latest.value.attemptNumber else 0;
      if latest.Some? && latest.value.validationStatus == RowPassed {
        return Some(Raised(AlreadyPassed)), previous;
      }
      if previous >= db.settings.maxAttempts {
        return Some(Returned(LimitResult(previous))), previous;
      }
      stop := None;
    }

    method ReadLatest(at: Instant) returns (stop: Option<Outcome>, previous: int)
      requires At(ContextRead(at))
      modifies `trace, db
      ensures Stands(stop, LatestRead(at, previous))
    {
      var latest := db.LatestFaceAttempt();
      stop, previous := JudgeLatest(latest);
      Take(Step.ReadLatest(r));
    }

    method ReadReference(at: Instant, previous: int) returns (stop: Option<Outcome>, reference: Option<StoredFaceEmbedding>)
      requires At(LatestRead(at, previous))
      modifies `trace, db
      ensures stop.Some? ==> Stops(stop.value) && IsRefusal(stop.value)
      ensures stop.None? ==> reference.Some? && At(ReferenceRead(at, previous, reference.value))
    {
      reference := db.reference;
      Take(Step.ReadReference(r));
      stop := if reference.None? then Some(Raised(NoReferenceProfile)) else None;
    }

    method ReadConfig(at: Instant, previous: int, reference: StoredFaceEmbedding)
      returns (stop: Option<Outcome>, ticket: Ticket)
      requires At(ReferenceRead(at, previous, reference))
      modifies `trace, db
      ensures Stands(stop, Phase.ConfigRead(ticket))
    {
      var config := GetActive(db.configs);
      if config.Some? {
        stop := None;
        ticket := Ticket(at, previous, reference, config.value.id, config.value.similarityThreshold);
      } else {
        stop := Some(Raised(NoActiveConfig));
        ticket := *;
      }
      Take(Step.ReadConfig(r));
    }

    // Commits the reads, so that the queue is entered without a transaction.
    method EndSnapshot(ticket: Ticket)
      requires At(Phase.ConfigRead(ticket))
      modifies `trace, `inTransaction, db
      ensures At(Queued(ticket))
    {
      Take(Step.EndSnapshot(r));
      inTransaction := false;
    }

    method SnapshotAttempts(at: Instant) returns (stop: Option<Outcome>, previous: int)
      requires At(Received(at))
      modifies `trace, `inTransaction, `holdsPermit, db
      ensures Stands(stop, LatestRead(at, previous))
    {
      previous := 0;
      stop := Wait(Received(at));
      if stop.Some? {
        return;
      }
      stop := ReadContext(at);
      if stop.Some? {
        return;
      }
      stop := Wait(ContextRead(at));
      if stop.Some? {
        return;
      }
      stop, previous := ReadLatest(at);
    }

    // The unlocked reads, up to the commit that ends the snapshot.
    method Snapshot(at: Instant) returns (stop: Option<Outcome>, ticket: Ticket)
      requires At(Received(at))
      modifies `trace, `inTransaction, `holdsPermit, db
      ensures Stands(stop, Queued(ticket))
    {
      var previous, reference;
      ticket := *;
      stop, previous := SnapshotAttempts(at);
      if stop.Some? {
        return;
      }
      stop := Wait(LatestRead(at, previous));
      if stop.Some? {
        return;
      }
      stop, reference := ReadReference(at, previous);
      if stop.Some? {
        return;
      }
      stop := Wait(ReferenceRead(at, previous, reference.value));
      if stop.Some? {
        return;
      }
      stop, ticket := ReadConfig(at, previous, reference.value);
      if stop.Some? {
        return;
      }
      stop := Wait(Phase.ConfigRead(ticket));
      if stop.Some? {
        return;
      }
      EndSnapshot(ticket);
    }

    // ----- the comparison, with no transaction open

    // Raise, answer without an attempt, or go on to the locked section.
    method JudgeComparison(ticket: Ticket, compared: Result<FaceComparisonResult, ComparisonError>)
      returns (stop: Option<Outcome>, submission: Submission)
      ensures Judged(ticket, compared) == if stop.Some? then Ended(stop.value) else Compared(submission)
    {
      match compared {
        case Err(_) =>
          stop := Some(Raised(ComparisonRaised));
          submission := *;
        case Ok(comparison) =>
          stop := if !Consumes(comparison.status) then Some(Returned(UnconsumedResult(comparison, ticket.previous))) else None;
          submission := Submission(ticket.receivedAt, ticket.reference.profileId, ticket.configId, comparison);
      }
    }

    // The comparison of an image that could not be decoded is over at once.
    method JudgeRejection(ticket: Ticket, reason: string) returns (outcome: Outcome)
      ensures Judged(ticket, Compare(ticket.reference, db.settings.modelVersion,
                                     Failure(ProcessingFailed, 0, reason, None, db.settings.modelName),
                                     ticket.threshold, 0.0, 0.0)) == Ended(outcome)
      ensures outcome.Returned? ==>
                outcome.result.status == ProcessingFailedStatus && outcome.result.detectionConfidence == None
    {
      var analysis := Failure(ProcessingFailed, 0, reason, None, db.settings.modelName);
      var compared := Compare(ticket.reference, db.settings.modelVersion, analysis, ticket.threshold, 0.0, 0.0);
      var stop, _ := JudgeComparison(ticket, compared);
      outcome := stop.value;
    }

    method RejectImage(ticket: Ticket, reason: string) returns (outcome: Outcome)
      requires At(Queued(ticket))
      modifies `trace, db
      ensures Stops(outcome)
      ensures outcome.Returned? ==>
                outcome.result.status == ProcessingFailedStatus && outcome.result.detectionConfidence == None
    {
      outcome := JudgeRejection(ticket, reason);
      RejectionJudged(db.settings, db.View(), r, ticket, reason);
      Take(Step.RejectImage(r, reason));
    }

    method GiveUpWaiting(ticket: Ticket)
      requires At(Queued(ticket))
      modifies `trace, db
      ensures At(Ended(Raised(InferenceBusy)))
    {
      Take(QueueTimeout(r));
    }

    method TakePermit(ticket: Ticket)
      requires At(Queued(ticket)) && db.freePermits > 0
      modifies `trace, `holdsPermit, db
      ensures At(Inferring(ticket))
    {
      ghost var now := db.View();
      db.Mark(Step.AcquirePermit(r));
      db.freePermits := db.freePermits - 1;
      holdsPermit := true;
      assert db.View() == DoAcquirePermit(now, r, ticket);
      Took(Step.AcquirePermit(r), now);
    }

    // asyncio.wait_for on the semaphore: `patience` is its time limit in turns of the others.
    method AcquirePermit(ticket: Ticket, patience: nat) returns (stop: Option<Outcome>)
      requires At(Queued(ticket))
      modifies `trace, `holdsPermit, db
      ensures Stands(stop, Inferring(ticket))
    {
      var turns := 0;
      stop := None;
      while stop.None? && turns < patience && db.freePermits == 0
        invariant Stands(stop, Queued(ticket))
      {
        stop := Wait(Queued(ticket));
        turns := turns + 1;
      }
      if stop.Some? {
        return;
      }
      if db.freePermits == 0 {
        GiveUpWaiting(ticket);
        stop := Some(Raised(InferenceBusy));
      } else {
        TakePermit(ticket);
      }
    }

    method FinishInference(ticket: Ticket, analysis: FaceAnalysisResult, mr: real, mc: real)
      returns (stop: Option<Outcome>, submission: Submission)
      requires At(Inferring(ticket)) && analysis.Constructible()
      requires IsMagnitude(mr, ticket.reference.embedding) && IsMagnitude(mc, CapturedVector(analysis))
      modifies `trace, `holdsPermit, db
      ensures Concludes(stop, submission, true, analysis)
    {
      var compared := Compare(ticket.reference, db.settings.modelVersion, analysis, ticket.threshold, mr, mc);
      stop, submission := JudgeComparison(ticket, compared);
      ComparesAnalysis(ticket.reference, db.settings.modelVersion, analysis, ticket.threshold, mr, mc);
      InferenceFinishes(db.settings, db.View(), r, ticket, analysis, mr, mc);
      TakeReleasing(Step.FinishInference(r, analysis, mr, mc));
    }

    // Decode, queue for a permit, run, release; `hypot` is the exact length.
    method Infer(ticket: Ticket, decodable: bool, patience: nat, analysis: FaceAnalysisResult, hypot: Vector -> real)
      returns (stop: Option<Outcome>, submission: Submission)
      requires At(Queued(ticket))
      requires analysis.Constructible() && forall v: Vector :: IsMagnitude(hypot(v), v)
      modifies `trace, `holdsPermit, db
      ensures Concludes(stop, submission, decodable, analysis)
    {
      submission := *;
      stop := Wait(Queued(ticket));
      if stop.Some? {
        return;
      }
      if !decodable {
        var answer := RejectImage(ticket, "Image could not be decoded");
        return Some(answer), submission;
      }
      stop := AcquirePermit(ticket, patience);
      if stop.Some? {
        return;
      }
      stop := Wait(Inferring(ticket));
      if stop.Some? {
        return;
      }
      stop, submission :=
        FinishInference(ticket, analysis, hypot(ticket.reference.embedding), hypot(CapturedVector(analysis)));
    }

    // ----- the second transaction, under the row lock

    // The locking query starts: its view of the session is fixed now.
    method RequestLock(submission: Submission) returns (seen: SessionView)
      requires At(Compared(submission))
      modifies `trace, `inTransaction, db
      ensures At(LockRequested(submission, seen))
    {
      seen := db.session;
      Take(Step.RequestLock(r));
      inTransaction := true;
    }

    // The query waits while another transaction holds the row, at most `patience` turns of
    // the others: the statement's own time limit ends it then.
    method AwaitLock(submission: Submission, seen: SessionView, patience: nat) returns (stop: Option<Outcome>)
      requires At(LockRequested(submission, seen))
      modifies `trace, `holdsPermit, db
      ensures Stands(stop, LockRequested(submission, seen)) && (stop.None? ==> LockFree(db.View()))
    {
      var turns := 0;
      stop := Wait(LockRequested(submission, seen));
      while stop.None? && turns < patience && db.rowLock.Some?
        invariant Stands(stop, LockRequested(submission, seen))
      {
        stop := Wait(LockRequested(submission, seen));
        turns := turns + 1;
      }
      if stop.None? && db.rowLock.Some? {
        stop := LoseConnection(LockRequested(submission, seen));
      }
    }

    // The query returns: it holds the parent row and reads it as it is now.
    method TakeLock(submission: Submission, seen: SessionView) returns (stop: Option<Outcome>)
      requires At(LockRequested(submission, seen)) && LockFree(db.View())
      modifies `trace, db
      ensures Stands(stop, ContextLocked(submission, seen))
    {
      ghost var now := db.View();
      var error := ValidateContext(db.parent, seen, submission.receivedAt);
      db.Mark(Step.TakeLock(r));
      if db.parent.Some? {
        db.rowLock := Some(r);
      }
      Took(Step.TakeLock(r), now);
      stop := if error.Some? then Some(Raised(error.value)) else None;
    }

    method ReadLatestLocked(submission: Submission, seen: SessionView) returns (stop: Option<Outcome>, previous: int)
      requires At(ContextLocked(submission, seen))
      modifies `trace, db
      ensures Stands(stop, LatestLocked(submission, seen, previous))
    {
      var latest := db.LatestFaceAttempt();
      stop, previous := JudgeLatest(latest);
      LockedReadMoves(db.settings, db.View(), r, submission, seen);
      Take(Step.ReadLatestLocked(r));
    }

    // record_face_attempt and, on the last failure, mark_verification_attempt_failed: both
    // stay in this transaction until it commits.
    method RecordAttempt(submission: Submission, previous: int) returns (result: VerificationResult)
      modifies `pendingRows, `pendingParent
      ensures pendingRows == [RowFor(submission, previous + 1)]
      ensures pendingParent == ParentAfter(db.parent, submission, previous + 1, db.settings.maxAttempts)
      ensures result == RecordedResult(submission, previous + 1, db.settings.maxAttempts)
      ensures AnswersComparison(submission.comparison, result)
    {
      var comparison := submission.comparison;
      var attemptNumber := previous + 1;
      var livenessPassed := true;
      var biometricMatched := comparison.status == Matched;
      var passed := biometricMatched;
      var canRetry := !passed && attemptNumber < db.settings.maxAttempts;

      pendingRows := [AttemptRow(attemptNumber, submission.profileId, livenessPassed, QualityPassed(comparison),
                                 comparison.similarityScore, submission.configId,
                                 if passed then RowPassed else RowFailed,
                                 if passed then None else Some(FailureReason(comparison)),
                                 submission.receivedAt, Some(submission.receivedAt))];
      pendingParent := db.parent;
      if !passed && !canRetry {
        if db.parent.Some? && db.parent.value.status == InProgress {
          pendingParent := Some(ParentAttempt(Failed, Some(LIMIT_REASON), Some(submission.receivedAt)));
        }
      }
      result := VerificationResult(StatusForComparison(comparison.status), attemptNumber, canRetry,
                                   comparison.similarityScore, comparison.similarityThreshold,
                                   comparison.detectionConfidence);
    }

    method WriteAttempt(submission: Submission, seen: SessionView, previous: int) returns (result: VerificationResult)
      requires At(LatestLocked(submission, seen, previous))
      modifies `pendingRows, `pendingParent, `trace, db
      ensures |pendingRows| == 1 && At(Written(submission, seen, pendingRows[0], pendingParent, result))
      ensures AnswersComparison(submission.comparison, result)
    {
      result := RecordAttempt(submission, previous);
      WriteMoves(db.settings, db.View(), r, submission, seen, previous);
      Take(Step.WriteAttempt(r));
    }

    method CommitAttempt(submission: Submission, seen: SessionView, result: VerificationResult)
      requires |pendingRows| == 1 && At(Written(submission, seen, pendingRows[0], pendingParent, result))
      modifies `pendingRows, `pendingParent, `inTransaction, `trace, db
      ensures At(Ended(Returned(result)))
    {
      ghost var now := db.View();
      CommitMoves(db.settings, now, r);
      assert pendingRows == [pendingRows[0]];
      db.Commit(r, pendingRows, pendingParent);
      Took(Step.CommitAttempt(r), now);
      inTransaction := false;
      pendingRows, pendingParent := [], None;
    }

    // Insert the row, close the parent when it must be, and commit.
    method Append(submission: Submission, seen: SessionView, previous: int) returns (outcome: Outcome)
      requires At(LatestLocked(submission, seen, previous))
      modifies `pendingRows, `pendingParent, `inTransaction, `trace, `holdsPermit, db
      ensures Stops(outcome)
      ensures IsRefusal(outcome) || AnswersComparison(submission.comparison, outcome.result)
    {
      var stop := Wait(LatestLocked(submission, seen, previous));
      if stop.Some? {
        return stop.value;
      }
      var result := WriteAttempt(submission, seen, previous);
      stop := Wait(Written(submission, seen, pendingRows[0], pendingParent, result));
      if stop.Some? {
        return stop.value;
      }
      CommitAttempt(submission, seen, result);
      outcome := Returned(result);
    }

    method Record(submission: Submission, patience: nat) returns (outcome: Outcome)
      requires At(Compared(submission))
      modifies `pendingRows, `pendingParent, `inTransaction, `trace, `holdsPermit, db
      ensures Stops(outcome)
      ensures IsRefusal(outcome) || AnswersComparison(submission.comparison, outcome.result)
    {
      var stop := Wait(Compared(submission));
      if stop.Some? {
        return stop.value;
      }
      var seen := RequestLock(submission);
      stop := AwaitLock(submission, seen, patience);
      if stop.Some? {
        return stop.value;
      }
      stop := TakeLock(submission, seen);
      if stop.Some? {
        return stop.value;
      }
      stop := Wait(ContextLocked(submission, seen));
      if stop.Some? {
        return stop.value;
      }
      var previous;
      stop, previous := ReadLatestLocked(submission, seen);
      if stop.Some? {
        return stop.value;
      }
      outcome := Append(submission, seen, previous);
    }

    // ----- the whole call

    // Snapshot, comparison and locked section, stopping at the first outcome.
    method Proceed(at: Instant, decodable: bool, queuePatience: nat, lockPatience: nat, analysis: FaceAnalysisResult,
                   hypot: Vector -> real)
      returns (outcome: Outcome)
      requires At(Received(at))
      requires analysis.Constructible() && forall v: Vector :: IsMagnitude(hypot(v), v)
      modifies `pendingRows, `pendingParent, `inTransaction, `trace, `holdsPermit, db
      ensures Stops(outcome) && (outcome.Returned? ==> AnswersTo(decodable, analysis, outcome.result))
    {
      var stop, ticket := Snapshot(at);
      if stop.Some? {
        return stop.value;
      }
      var submission;
      stop, submission := Infer(ticket, decodable, queuePatience, analysis, hypot);
      if stop.Some? {
        return stop.value;
      }
      outcome := Record(submission, lockPatience);
      AnswersThrough(analysis, submission.comparison, outcome);
    }

    // The session scope closes: whatever the outcome, an open transaction ends.
    method Unwind(outcome: Outcome)
      requires At(Unwinding(outcome))
      modifies `inTransaction, `trace, db
      ensures At(Ended(outcome))
    {
      ghost var now := db.View();
      UnwindMoves(db.settings, now, r);
      db.Rollback(r);
      Took(Step.Unwind(r), now);
      inTransaction := false;
    }

    method Leave(outcome: Outcome)
      requires Stops(outcome)
      modifies `inTransaction, `trace, db
      ensures At(Ended(outcome))
    {
      if inTransaction {
        Pause(Unwinding(outcome));
        Unwind(outcome);
      }
    }

    /** One call to `verify`, interleaved with anything. The database ends in the state of the
        schedule `trace`, in which this request's steps are the code's statements in order up
        to where it stopped; from a state that a schedule reaches it ends in one that the
        longer schedule reaches, with the outcome the protocol gives it and nothing held. An
        answer says what the given image shows, and passes exactly from the threshold on.
        The patiences are the time limits of the queue and of the locking statement, in turns
        of the others. */
    method Verify(at: Instant, decodable: bool, queuePatience: nat, lockPatience: nat, analysis: FaceAnalysisResult,
                  hypot: Vector -> real)
      returns (outcome: Outcome)
      requires Reachable(db.settings, db.View()) && r !in db.phases && !inTransaction && !holdsPermit
      requires analysis.Constructible() && forall v: Vector :: IsMagnitude(hypot(v), v)
      modifies this, db
      ensures db.View() == Run(db.settings, old(db.View()), trace)
      ensures forall session, steps :: old(db.View()) == After(db.settings, session, steps) ==>
                db.View() == After(db.settings, session, steps + trace)
      ensures RunsProgram(OwnSteps(trace, r), r, at)
      ensures r in db.phases && db.phases[r] == Ended(outcome)
      ensures r !in db.transactions && r !in db.permits && db.rowLock != Some(r)
      ensures outcome.Returned? ==> AnswersTo(decodable, analysis, outcome.result) && ScoreDecides(outcome.result)
    {
      Receive(at);
      outcome := Proceed(at, decodable, queuePatience, lockPatience, analysis, hypot);
      Leave(outcome);
      CallRunsProgram(db.settings, start, trace, db.View(), r, at);
      FromReachable(db.settings, start, trace, db.View());
      if outcome.Returned? {
        ReachedScoreDecides(db.settings, old(db.View()), trace, r, outcome.result);
      }
    }
  }
}
