/** Whose request a commit fulfils when mutations overlap: a transaction that was open while
    others committed still writes, logs and returns the row its own request asked for. */
module AcademicRaceOutcomes {
  import opened Wrappers
  import opened AcademicData
  import opened AcademicHistory
  import opened AcademicOutcomes
  import opened AcademicAudit
  import R = AcademicRaces

  // The change is what the request asked for, over the tables it was written to.
  ghost predicate Fulfilled(t: Tables, request: Request, c: R.Commitment) {
    && c.actor == request.actor
    && Delivers(t, request.op, c.change.newValues)
    && Labels(request.op, c.change.action, c.change.entityId, c.change.newValues)
  }

  // What an open transaction keeps of its request.
  ghost predicate Remembers(request: Request, p: R.Pending) {
    && p.actor == request.actor
    && match p
       case FirstEnrolment(_, newId, offeringId, studentId) => request.op == EnrolStudent(newId, offeringId, studentId)
       case OfferingWrite(_, id, offering, lecturerId, _) =>
         request.op == (if offering.Some? then UpdateOffering(id, offering.value, lecturerId) else AssignLecturer(id, lecturerId))
  }

  lemma OpenedRemembers(refs: References, t: Tables, request: Request)
    ensures R.Opened(refs, t, request).Some? ==> Remembers(request, R.Opened(refs, t, request).value)
  {
  }

  // The upsert leaves the pair one enrolled row, under the id it had or the generated one.
  lemma UpsertDelivers(refs: References, t: Tables, newId: Id, o: Id, s: Id, next: Tables)
    requires EnrolmentsSound(refs, t) && UpsertEnrolment(t, newId, o, s) == Ok(next)
    ensures var i := EnrolmentIndex(t.enrolments, o, s);
            && i < |next.enrolments| && next.enrolments[i].status == "enrolled"
            && OfPair(next.enrolments[i], o, s) && HasPairsId(t, next.enrolments[i], newId)
  {
    PairIndex(t, o, s);
    forall k | 0 <= k < |t.enrolments| && OfPair(t.enrolments[k], o, s) ensures k == EnrolmentIndex(t.enrolments, o, s) {
      PairsOnlyRow(refs, t, o, s, k);
    }
  }

  lemma FirstEnrolmentFulfilled(refs: References, t: Tables, request: Request, p: R.Pending)
    requires WellFormed(refs, t) && Remembers(request, p) && p.FirstEnrolment?
    requires p.offeringId in t.offerings && p.studentId in refs.students
    ensures var r := R.Written(refs, t, p); r.Ok? ==> Fulfilled(t, request, R.Commitment(p.actor, r.value))
  {
    var upserted := UpsertEnrolment(t, p.newId, p.offeringId, p.studentId);
    if upserted.Ok? {
      R.UpsertedTables(refs, t, p.newId, p.offeringId, p.studentId);
      UpsertDelivers(refs, t, p.newId, p.offeringId, p.studentId, upserted.value);
    }
  }

  lemma OfferingWriteFulfilled(refs: References, t: Tables, request: Request, p: R.Pending)
    requires WellFormed(refs, t) && Remembers(request, p) && p.OfferingWrite?
    ensures var r := R.Written(refs, t, p); r.Ok? ==> Fulfilled(t, request, R.Commitment(p.actor, r.value))
  {
    CommitsWhatWasAsked(refs, t, request.op);
    assert R.OperationOf(p) == request.op;
  }

  lemma BeginFulfilled(policy: R.Policy, st: R.State, step: R.Step)
    requires R.Consistent(policy, st) && step.Begin? && R.Committing(policy, st, step).Some?
    ensures Fulfilled(st.store.tables, step.request, R.Committing(policy, st, step).value)
  {
    CommitsWhatWasAsked(policy.refs, st.store.tables, step.request.op);
  }

  lemma FinishFulfilled(policy: R.Policy, st: R.State, step: R.Step, request: Request)
    requires R.Consistent(policy, st) && step.Finish? && R.Committing(policy, st, step).Some?
    requires Remembers(request, st.pending[step.tx])
    ensures Fulfilled(st.store.tables, request, R.Committing(policy, st, step).value)
  {
    if st.pending[step.tx].FirstEnrolment? {
      FirstEnrolmentFulfilled(policy.refs, st.store.tables, request, st.pending[step.tx]);
    } else {
      OfferingWriteFulfilled(policy.refs, st.store.tables, request, st.pending[step.tx]);
    }
  }

  /** On every schedule each commit fulfils the request its own transaction began with, whatever
      was committed in between: the row it writes over the tables of that moment is the one asked
      for, and the log gains exactly one entry, with the requester as its actor. */
  lemma EveryCommitWasAsked(policy: R.Policy, steps: seq<R.Step>, k: nat) returns (j: nat)
    requires k < |steps| && R.Committing(policy, R.Run(policy, steps[..k]), steps[k]).Some?
    ensures j <= k && steps[j].Begin? && steps[j].tx == steps[k].tx
    ensures |R.Run(policy, steps[..k + 1]).store.log| == |R.Run(policy, steps[..k]).store.log| + 1
    ensures var now, next := R.Run(policy, steps[..k]).store, R.Run(policy, steps[..k + 1]).store;
            var request, entry := steps[j].request, next.log[|now.log|];
            && next.log[..|now.log|] == now.log
            && entry.actor == request.actor
            && Delivers(now.tables, request.op, entry.newValues)
            && Labels(request.op, entry.action, entry.entityId, entry.newValues)
            && Current(next.tables, EntityKey(entry.action, entry.entityId)) == Some(entry.newValues)
  {
    var st := R.Run(policy, steps[..k]);
    R.OneStep(policy, steps, k);
    R.RunsAreConsistent(policy, steps[..k]);
    R.CommitmentLogs(policy, st, steps[k]);
    if steps[k].Begin? {
      j := k;
      BeginFulfilled(policy, st, steps[k]);
    } else {
      var p := st.pending[steps[k].tx];
      assert R.OpenAt(policy, steps, k, steps[k].tx, p);
      j := R.FindsOpening(policy, steps, k, steps[k].tx, p);
      OpenedRemembers(policy.refs, R.Run(policy, steps[..j]).store.tables, steps[j].request);
      FinishFulfilled(policy, st, steps[k], steps[j].request);
    }
  }
}
