/** Threshold configurations (verification_config_repository.py): created inactive,
    activated one at a time, never edited. */
module VerificationConfigs {
  import opened Wrappers

  type ConfigId = nat

  datatype VerificationConfig = VerificationConfig(id: ConfigId, similarityThreshold: real, isActive: bool)

  type ConfigTable = seq<VerificationConfig>

  predicate HasConfig(table: ConfigTable, id: ConfigId) {
    exists i :: 0 <= i < |table| && table[i].id == id
  }

  // The rows the partial unique index on active rows allows.
  ghost predicate AtMostOneActive(table: ConfigTable) {
    forall i, j :: 0 <= i < j < |table| ==> !(table[i].isActive && table[j].isActive)
  }

  ghost predicate WellFormedTable(table: ConfigTable) {
    && AtMostOneActive(table)
    && (forall i, j :: 0 <= i < j < |table| ==> table[i].id != table[j].id)
    && (forall i :: 0 <= i < |table| ==> 0.0 <= table[i].similarityThreshold <= 1.0)
  }

  ghost predicate HasThreshold(table: ConfigTable, id: ConfigId, threshold: real) {
    exists i :: 0 <= i < |table| && table[i].id == id && table[i].similarityThreshold == threshold
  }

  function GetActive(table: ConfigTable): Option<VerificationConfig> {
    if table == [] then None
    else if table[0].isActive then Some(table[0])
    else GetActive(table[1..])
  }

  // UPDATE ... SET is_active = false WHERE is_active AND id <> config_id
  function DeactivateOthers(table: ConfigTable, id: ConfigId): (updated: ConfigTable)
    ensures |updated| == |table|
    ensures forall i :: 0 <= i < |table| ==>
      updated[i] == if table[i].isActive && table[i].id != id then table[i].(isActive := false) else table[i]
  {
    if table == [] then []
    else [if table[0].isActive && table[0].id != id then table[0].(isActive := false) else table[0]]
         + DeactivateOthers(table[1..], id)
  }

  // UPDATE ... SET is_active = true WHERE id = config_id
  function ActivateSelected(table: ConfigTable, id: ConfigId): (updated: ConfigTable)
    ensures |updated| == |table|
    ensures forall i :: 0 <= i < |table| ==>
      updated[i] == if table[i].id == id then table[i].(isActive := true) else table[i]
  {
    if table == [] then []
    else [if table[0].id == id then table[0].(isActive := true) else table[0]] + ActivateSelected(table[1..], id)
  }

  function CreateConfig(table: ConfigTable, id: ConfigId, threshold: real): ConfigTable {
    if !(0.0 <= threshold <= 1.0) || HasConfig(table, id) then table
    else table + [VerificationConfig(id, threshold, false)]
  }

  function ActivateConfig(table: ConfigTable, id: ConfigId): ConfigTable {
    if !HasConfig(table, id) then table else ActivateSelected(DeactivateOthers(table, id), id)
  }

  // The same configurations, of which the named one alone is active.
  ghost predicate Activated(table: ConfigTable, after: ConfigTable, id: ConfigId) {
    |after| == |table| && forall i :: 0 <= i < |table| ==> after[i] == table[i].(isActive := table[i].id == id)
  }

  class VerificationConfigRepository {
    var rows: ConfigTable

    constructor ()
      ensures rows == [] && WellFormedTable(rows)
    {
      rows := [];
    }

    method GetById(id: ConfigId) returns (config: Option<VerificationConfig>)
      ensures config.Some? <==> HasConfig(rows, id)
      ensures config.Some? ==> config.value in rows && config.value.id == id
    {
      config := None;
      var i := 0;
      while i < |rows|
        invariant 0 <= i <= |rows|
        invariant config.None? && forall k :: 0 <= k < i ==> rows[k].id != id
      {
        if rows[i].id == id {
          return Some(rows[i]);
        }
        i := i + 1;
      }
    }

    // None when the threshold is refused or the generated id is taken.
    method Create(id: ConfigId, threshold: real) returns (created: Option<VerificationConfig>)
      requires WellFormedTable(rows)
      modifies this
      ensures WellFormedTable(rows)
      ensures rows == CreateConfig(old(rows), id, threshold)
      ensures created.Some? <==> 0.0 <= threshold <= 1.0 && forall i :: 0 <= i < |old(rows)| ==> old(rows)[i].id != id
      ensures created.Some? ==> created.value == VerificationConfig(id, threshold, false)
      ensures created.Some? ==> rows == old(rows) + [VerificationConfig(id, threshold, false)]
      ensures created.None? ==> rows == old(rows)
    {
      var existing := GetById(id);
      created := None;
      if 0.0 <= threshold <= 1.0 && existing.None? {
        var config := VerificationConfig(id, threshold, false);
        CreateKeepsTable(rows, id, threshold);
        rows := rows + [config];
        created := Some(config);
      }
    }

    method Activate(id: ConfigId) returns (activated: bool)
      requires WellFormedTable(rows)
      modifies this
      ensures WellFormedTable(rows)
      ensures rows == ActivateConfig(old(rows), id)
      ensures activated <==> HasConfig(old(rows), id)
      ensures !activated ==> rows == old(rows)
      ensures activated ==> Activated(old(rows), rows, id)
      ensures activated ==> GetActive(rows).Some? && GetActive(rows).value.id == id
    {
      var config := GetById(id);
      activated := config.Some?;
      if activated {
        ActivateKeepsTable(rows, id);
        ActivatedRows(rows, id);
        rows := DeactivateOthers(rows, id);
        assert AtMostOneActive(rows);
        rows := ActivateSelected(rows, id);
        ActiveIsFound(rows, id);
      }
    }
  }

  // ----- what creates and activations keep

  lemma {:induction false} ActiveIsFound(table: ConfigTable, id: ConfigId)
    requires forall i :: 0 <= i < |table| ==> (table[i].isActive <==> table[i].id == id)
    ensures GetActive(table).Some? <==> HasConfig(table, id)
    ensures GetActive(table).Some? ==> GetActive(table).value.id == id
  {
    if table != [] && !table[0].isActive {
      ActiveIsFound(table[1..], id);
      if HasConfig(table, id) {
        var i :| 0 <= i < |table| && table[i].id == id;
        assert table[1..][i - 1].id == id;
      }
      if HasConfig(table[1..], id) {
        var i :| 0 <= i < |table[1..]| && table[1..][i].id == id;
        assert table[i + 1].id == id;
      }
    }
  }

  lemma {:induction false} GetActiveSound(table: ConfigTable)
    ensures GetActive(table).Some? ==> GetActive(table).value in table && GetActive(table).value.isActive
    ensures GetActive(table).None? <==> forall i :: 0 <= i < |table| ==> !table[i].isActive
  {
    if table != [] && !table[0].isActive {
      GetActiveSound(table[1..]);
      if GetActive(table).None? {
        forall i | 0 <= i < |table| ensures !table[i].isActive {
          if i > 0 {
            assert !table[1..][i - 1].isActive;
          }
        }
      }
    }
  }

  lemma CreateKeepsTable(table: ConfigTable, id: ConfigId, threshold: real)
    requires WellFormedTable(table)
    ensures WellFormedTable(CreateConfig(table, id, threshold))
  {
  }

  // The effect of both UPDATEs: exactly the named row is active.
  lemma ActivatedRows(table: ConfigTable, id: ConfigId)
    requires HasConfig(table, id)
    ensures Activated(table, ActivateConfig(table, id), id)
  {
    var middle := DeactivateOthers(table, id);
    forall i | 0 <= i < |table|
      ensures ActivateConfig(table, id)[i] == table[i].(isActive := table[i].id == id)
    {
      assert middle[i].id == table[i].id;
    }
  }

  lemma DeactivationKeepsTable(table: ConfigTable, id: ConfigId)
    requires AtMostOneActive(table)
    ensures AtMostOneActive(DeactivateOthers(table, id))
  {
  }

  lemma ActivatedIsWellFormed(table: ConfigTable, after: ConfigTable, id: ConfigId)
    requires WellFormedTable(table) && Activated(table, after, id)
    ensures WellFormedTable(after)
  {
  }

  // Either UPDATE of an activation leaves at most one active row, so the unique index never refuses one.
  lemma ActivateKeepsTable(table: ConfigTable, id: ConfigId)
    requires WellFormedTable(table)
    ensures AtMostOneActive(DeactivateOthers(table, id))
    ensures WellFormedTable(ActivateConfig(table, id))
    ensures HasConfig(ActivateConfig(table, id), id) <==> HasConfig(table, id)
  {
    DeactivationKeepsTable(table, id);
    if HasConfig(table, id) {
      ActivatedRows(table, id);
      ActivatedIsWellFormed(table, ActivateConfig(table, id), id);
      var i :| 0 <= i < |table| && table[i].id == id;
      assert ActivateConfig(table, id)[i].id == id;
    }
  }

  datatype ConfigStep = Create(id: ConfigId, threshold: real) | Activate(id: ConfigId)

  function ApplyConfigStep(table: ConfigTable, step: ConfigStep): ConfigTable {
    match step
    case Create(id, threshold) => CreateConfig(table, id, threshold)
    case Activate(id) => ActivateConfig(table, id)
  }

  function RunConfigSteps(table: ConfigTable, steps: seq<ConfigStep>): ConfigTable
    decreases |steps|
  {
    if steps == [] then table else RunConfigSteps(ApplyConfigStep(table, steps[0]), steps[1..])
  }

  lemma StepKeepsThresholds(table: ConfigTable, step: ConfigStep, id: ConfigId, threshold: real)
    requires HasThreshold(table, id, threshold)
    ensures HasThreshold(ApplyConfigStep(table, step), id, threshold)
  {
    var i :| 0 <= i < |table| && table[i].id == id && table[i].similarityThreshold == threshold;
    if step.Activate? && HasConfig(table, step.id) {
      ActivatedRows(table, step.id);
    }
    var after := ApplyConfigStep(table, step);
    assert after[i].id == id && after[i].similarityThreshold == threshold;
  }

  /** After any sequence of creates and activations at most one configuration is active,
      every threshold is still in range, and no configuration's threshold ever changes. */
  lemma {:induction false} ConfigRunsAreSafe(table: ConfigTable, steps: seq<ConfigStep>)
    requires WellFormedTable(table)
    ensures WellFormedTable(RunConfigSteps(table, steps))
    ensures forall id, threshold ::
      HasThreshold(table, id, threshold) ==> HasThreshold(RunConfigSteps(table, steps), id, threshold)
    decreases |steps|
  {
    if steps != [] {
      var next := ApplyConfigStep(table, steps[0]);
      match steps[0] {
        case Create(id, threshold) => CreateKeepsTable(table, id, threshold);
        case Activate(id) => ActivateKeepsTable(table, id);
      }
      ConfigRunsAreSafe(next, steps[1..]);
      forall id, threshold | HasThreshold(table, id, threshold)
        ensures HasThreshold(RunConfigSteps(table, steps), id, threshold)
      {
        StepKeepsThresholds(table, steps[0], id, threshold);
      }
    }
  }

  predicate IsActive(table: ConfigTable, id: ConfigId) {
    exists i :: 0 <= i < |table| && table[i].id == id && table[i].isActive
  }

  // Which configurations a step may leave active.
  ghost predicate ActiveKept(table: ConfigTable, after: ConfigTable) {
    forall id :: IsActive(after, id) <==> IsActive(table, id)
  }

  lemma AppendedInactive(table: ConfigTable, config: VerificationConfig)
    requires !config.isActive
    ensures ActiveKept(table, table + [config])
  {
    var after := table + [config];
    forall id ensures IsActive(after, id) <==> IsActive(table, id) {
      if IsActive(table, id) {
        var i :| 0 <= i < |table| && table[i].id == id && table[i].isActive;
        assert after[i] == table[i];
      }
    }
  }

  /** An accepted creation stores the given threshold under the given id, inactive: no other
      configuration becomes active or stops being so. The stored threshold stays through every
      later run, and the configuration only becomes active when it is activated by its id. A
      creation is refused exactly for a threshold out of range or an id that is taken, and then
      nothing is stored. */
  lemma CreatedConfigIsKept(table: ConfigTable, id: ConfigId, threshold: real, later: seq<ConfigStep>)
    requires WellFormedTable(table)
    ensures var created := ApplyConfigStep(table, Create(id, threshold));
            var refused := !(0.0 <= threshold <= 1.0) || exists i :: 0 <= i < |table| && table[i].id == id;
            && ActiveKept(table, created)
            && (refused ==> created == table)
            && (!refused ==> created == table + [VerificationConfig(id, threshold, false)]
                             && HasThreshold(RunConfigSteps(created, later), id, threshold)
                             && (Activate(id) !in later ==> !IsActive(RunConfigSteps(created, later), id)))
  {
    var created := ApplyConfigStep(table, Create(id, threshold));
    if 0.0 <= threshold <= 1.0 && forall i :: 0 <= i < |table| ==> table[i].id != id {
      AppendedInactive(table, VerificationConfig(id, threshold, false));
      assert created[|table|] == VerificationConfig(id, threshold, false);
      assert HasThreshold(created, id, threshold);
      CreateKeepsTable(table, id, threshold);
      ConfigRunsAreSafe(created, later);
      if Activate(id) !in later {
        OnlyActivationActivates(created, later, id);
      }
    }
  }

  lemma ActivatedAlone(table: ConfigTable, step: ConfigStep, id: ConfigId)
    requires !IsActive(table, id) && step != Activate(id)
    ensures !IsActive(ApplyConfigStep(table, step), id)
  {
    match step
    case Create(other, threshold) =>
      AppendedInactive(table, VerificationConfig(other, threshold, false));
    case Activate(other) =>
      if HasConfig(table, other) {
        ActivatedRows(table, other);
      }
  }

  /** A configuration that is not active becomes so by its own activation only. */
  lemma {:induction false} OnlyActivationActivates(table: ConfigTable, steps: seq<ConfigStep>, id: ConfigId)
    requires !IsActive(table, id) && Activate(id) !in steps
    ensures !IsActive(RunConfigSteps(table, steps), id)
    decreases |steps|
  {
    if steps != [] {
      ActivatedAlone(table, steps[0], id);
      OnlyActivationActivates(ApplyConfigStep(table, steps[0]), steps[1..], id);
    }
  }

  // No step of the run finds another configuration to activate.
  ghost predicate Undisturbed(table: ConfigTable, steps: seq<ConfigStep>, id: ConfigId)
    decreases |steps|
  {
    steps == []
    || (&& (steps[0].Activate? && steps[0].id != id ==> !HasConfig(table, steps[0].id))
        && Undisturbed(ApplyConfigStep(table, steps[0]), steps[1..], id))
  }

  lemma ActiveIsInForce(table: ConfigTable, id: ConfigId, threshold: real)
    requires WellFormedTable(table) && HasThreshold(table, id, threshold) && IsActive(table, id)
    ensures GetActive(table) == Some(VerificationConfig(id, threshold, true))
  {
    GetActiveSound(table);
    var i :| 0 <= i < |table| && table[i].id == id && table[i].isActive;
    var j :| 0 <= j < |table| && table[j].id == id && table[j].similarityThreshold == threshold;
    assert i == j;
    var k :| 0 <= k < |table| && table[k] == GetActive(table).value;
    assert k == i;
  }

  lemma StaysActive(table: ConfigTable, step: ConfigStep, id: ConfigId)
    requires IsActive(table, id) && (step.Activate? && step.id != id ==> !HasConfig(table, step.id))
    ensures IsActive(ApplyConfigStep(table, step), id)
  {
    var i :| 0 <= i < |table| && table[i].id == id && table[i].isActive;
    if step.Activate? && HasConfig(table, step.id) {
      ActivatedRows(table, step.id);
    }
    assert ApplyConfigStep(table, step)[i] == table[i];
  }

  lemma {:induction false} StaysInForce(table: ConfigTable, steps: seq<ConfigStep>, id: ConfigId, threshold: real)
    requires WellFormedTable(table) && HasThreshold(table, id, threshold) && IsActive(table, id)
    requires Undisturbed(table, steps, id)
    ensures GetActive(RunConfigSteps(table, steps)) == Some(VerificationConfig(id, threshold, true))
    decreases |steps|
  {
    if steps == [] {
      ActiveIsInForce(table, id, threshold);
    } else {
      StaysActive(table, steps[0], id);
      StepKeepsThresholds(table, steps[0], id, threshold);
      ConfigRunsAreSafe(table, steps[..1]);
      assert RunConfigSteps(table, steps[..1]) == ApplyConfigStep(table, steps[0]);
      StaysInForce(ApplyConfigStep(table, steps[0]), steps[1..], id, threshold);
    }
  }

  /** From an activation on, until another one finds its configuration, the configuration in force
      is the activated one, with the threshold it was created with. */
  lemma LastActivationIsInForce(table: ConfigTable, id: ConfigId, threshold: real, later: seq<ConfigStep>)
    requires WellFormedTable(table) && HasThreshold(table, id, threshold)
    requires Undisturbed(ApplyConfigStep(table, Activate(id)), later, id)
    ensures GetActive(RunConfigSteps(ApplyConfigStep(table, Activate(id)), later))
         == Some(VerificationConfig(id, threshold, true))
  {
    var i :| 0 <= i < |table| && table[i].id == id && table[i].similarityThreshold == threshold;
    assert HasConfig(table, id);
    ActivatedRows(table, id);
    assert ApplyConfigStep(table, Activate(id))[i] == table[i].(isActive := true);
    ActivateKeepsTable(table, id);
    StepKeepsThresholds(table, Activate(id), id, threshold);
    StaysInForce(ApplyConfigStep(table, Activate(id)), later, id, threshold);
  }
}
