/**
 Writing and freezing a plan (db/repos.py, planning/freeze.py), statement by statement
 against the guarded table. A plan stands at its run.
 */
module PlanFreeze {
  import opened Prelude
  import opened GuardedTable
  import opened SealedRows
  import Life = VersionLifecycle

  // ----- the table as the version lifecycle sees it -------------------------------------

  function PlanPhase(s: PlanStatus): Life.Phase {
    match s
    case Frozen => Life.Sealed
    case PlanSuperseded => Life.Superseded
    case _ => Life.Open
  }

  function PlanView(rows: map<nat, Plan>): Life.Rows {
    map p | p in rows :: Life.Entry(rows[p].project, rows[p].version, PlanPhase(rows[p].status))
  }

  // ----- writing a plan -------------------------------------------------------------------

  predicate OpenPlan(s: PlanStatus) {
    PlanPhase(s).Open?
  }

  /** False is `FrozenPlanError`. `draft` holds the columns of a first write. */
  method WritePlan(plans: Table<Plan>, run: nat, draft: Plan) returns (ok: bool)
    requires plans.guard == PlanGuard && OpenPlan(draft.status) && draft.version == 0
    modifies plans
    ensures ok <==> !(run in old(plans.rows) && old(plans.rows[run]).status.Frozen?)
    ensures !ok ==> plans.rows == old(plans.rows)
    ensures ok ==>
      var was := PlanView(old(plans.rows));
      PlanView(plans.rows) == was[run := Life.Written(Life.Plans, was, run, draft.project)]
    ensures ok && run !in old(plans.rows) ==> run in plans.rows && plans.rows[run] == draft
    ensures ok && run in old(plans.rows) ==>
      var was := old(plans.rows)[run];
      run in plans.rows
      && plans.rows[run] == Plan(
           was.id, was.project, was.planRun, was.acceptance, draft.schemaVersion, was.version, draft.status,
           draft.payload, draft.markdown, was.frozenAt, was.frozenBy,
           was.frozenApprovals, draft.sourceSuperseded, draft.updated)
    ensures forall p :: p in old(plans.rows) && p != run ==> p in plans.rows && plans.rows[p] == old(plans.rows)[p]
  {
    if run !in plans.rows {
      ok := plans.Execute(Insert(run, draft));
      assert ok;
    } else if plans.rows[run].status.Frozen? {
      ok := false;
    } else {
      var now := plans.rows[run].(
        schemaVersion := draft.schemaVersion, payload := draft.payload, markdown := draft.markdown,
        status := draft.status, sourceSuperseded := draft.sourceSuperseded, updated := draft.updated);
      ok := plans.Execute(Update(run, now));
      assert ok;
    }
  }

  // ----- freezing a plan ----------------------------------------------------------------------

  datatype Gate = G1 | G2 | G3 | G4

  datatype Approval = Approval(id: Uuid, approved: bool)

  datatype Text = Text(payload: Json, markdown: string)

  /** `approvals` is the latest row of each gate, `blocking` the number of blocking
      issues in the stored payload, `stale` whether the plan's acceptance has been
      superseded, and `render` the sealed payload at a version. */
  datatype Freezing = Freezing(
    run: nat, confirm: int, approvals: map<Gate, Approval>, blocking: nat, stale: bool,
    actor: Uuid, at: Stamp, render: int -> Text)

  datatype Blocker =
    | GateNotOpened(gate: Gate)
    | GateNotApproved(gate: Gate)
    | BlockingCritique
    | PlanIsBlocked
    | SourceSuperseded

  datatype FreezeOutcome =
    | PlanNotFound
    | AlreadyFrozen(version: int)
    | FreezeRefused(blockers: seq<Blocker>)
    | FreezeConflict(expected: int)
    | PlanFrozen(version: int, superseded: set<nat>)

  const REQUIRED_GATES: seq<Gate> := [G1, G2, G3, G4]

  function GateBlockers(gates: seq<Gate>, approvals: map<Gate, Approval>): seq<Blocker> {
    if gates == [] then []
    else
      (if gates[0] !in approvals then [GateNotOpened(gates[0])]
       else if !approvals[gates[0]].approved then [GateNotApproved(gates[0])]
       else [])
      + GateBlockers(gates[1..], approvals)
  }

  function Blockers(plan: Plan, r: Freezing): seq<Blocker> {
    GateBlockers(REQUIRED_GATES, r.approvals)
    + (if r.blocking > 0 then [BlockingCritique] else [])
    + (if plan.status.PlanBlocked? && r.blocking == 0 then [PlanIsBlocked] else [])
    + (if r.stale then [SourceSuperseded] else [])
  }

  predicate AllApproved(approvals: map<Gate, Approval>) {
    forall g :: g in REQUIRED_GATES ==> g in approvals && approvals[g].approved
  }

  lemma {:induction false} NoGateBlocker(gates: seq<Gate>, approvals: map<Gate, Approval>)
    ensures GateBlockers(gates, approvals) == [] <==> forall g :: g in gates ==> g in approvals && approvals[g].approved
  {
    if gates != [] {
      NoGateBlocker(gates[1..], approvals);
      assert gates == [gates[0]] + gates[1..];
    }
  }

  /** Nothing stands between a plan and its signature exactly when all four gates are
      approved, the critique found nothing blocking, and the plan is neither blocked
      nor stale. */
  lemma NoBlockersExactly(plan: Plan, r: Freezing)
    ensures Blockers(plan, r) == [] <==>
      AllApproved(r.approvals) && r.blocking == 0 && !plan.status.PlanBlocked? && !r.stale
  {
    NoGateBlocker(REQUIRED_GATES, r.approvals);
    var gates := GateBlockers(REQUIRED_GATES, r.approvals);
    if gates != [] {
      assert Blockers(plan, r)[0] == gates[0];
    } else if r.blocking > 0 {
      assert Blockers(plan, r)[0] == BlockingCritique;
    }
  }

  function Refreshed(plan: Plan, stale: bool, at: Stamp): Plan {
    if plan.sourceSuperseded == stale then plan else plan.(sourceSuperseded := stale, updated := at)
  }

  function GateApprovals(approvals: map<Gate, Approval>): seq<Uuid>
    requires AllApproved(approvals)
  {
    [approvals[G1].id, approvals[G2].id, approvals[G3].id, approvals[G4].id]
  }

  function Sealable(plan: Plan, version: int, r: Freezing): Plan
    requires AllApproved(r.approvals)
  {
    plan.(
      version := version, frozenAt := Some(r.at), frozenBy := Some(r.actor),
      frozenApprovals := Some(GateApprovals(r.approvals)),
      payload := r.render(version).payload, markdown := r.render(version).markdown, status := Frozen, updated := r.at)
  }

  /** The other frozen plans of the project. */
  function FrozenBeside(rows: map<nat, Plan>, run: nat): set<nat>
    requires run in rows
  {
    set p | p in rows && p != run && rows[p].project == rows[run].project && rows[p].status.Frozen?
  }

  function WithSuperseded(rows: map<nat, Plan>, ps: set<nat>, at: Stamp): map<nat, Plan> {
    map p | p in rows :: if p in ps then rows[p].(status := PlanSuperseded, updated := at) else rows[p]
  }

  /** What a freeze answers and what it leaves in the table. */
  ghost function FreezeEffect(rows: map<nat, Plan>, r: Freezing): (FreezeOutcome, map<nat, Plan>) {
    if r.run !in rows then (PlanNotFound, rows)
    else if rows[r.run].status.Frozen? then
      (if r.confirm == rows[r.run].version then AlreadyFrozen(r.confirm) else FreezeConflict(rows[r.run].version), rows)
    else
      var plan := Refreshed(rows[r.run], r.stale, r.at);
      var version := Life.NextVersion(PlanView(rows), plan.project);
      if Blockers(plan, r) != [] then (FreezeRefused(Blockers(plan, r)), rows[r.run := plan])
      else if r.confirm != version then (FreezeConflict(version), rows)
      else
        NoBlockersExactly(plan, r);
        var beside := FrozenBeside(rows, r.run);
        (PlanFrozen(version, beside), WithSuperseded(rows, beside, r.at)[r.run := Sealable(plan, version, r)])
  }

  method Supersede(plans: Table<Plan>, run: nat, at: Stamp) returns (superseded: set<nat>)
    requires plans.guard == PlanGuard && run in plans.rows
    modifies plans
    ensures superseded == FrozenBeside(old(plans.rows), run)
    ensures plans.rows == WithSuperseded(old(plans.rows), superseded, at)
  {
    superseded := FrozenBeside(plans.rows, run);
    var todo := superseded;
    while todo != {}
      invariant todo <= superseded
      invariant plans.rows == WithSuperseded(old(plans.rows), superseded - todo, at)
      decreases todo
    {
      var p :| p in todo;
      var ok := plans.Execute(Update(p, plans.rows[p].(status := PlanSuperseded, updated := at)));
      assert ok;
      todo := todo - {p};
    }
  }

  /** No statement of a freeze is ever refused by the trigger. */
  method FreezePlan(plans: Table<Plan>, r: Freezing) returns (outcome: FreezeOutcome)
    requires plans.guard == PlanGuard
    modifies plans
    ensures (outcome, plans.rows) == FreezeEffect(old(plans.rows), r)
  {
    if r.run !in plans.rows {
      return PlanNotFound;
    }
    var stored := plans.rows[r.run];
    if stored.status.Frozen? {
      return if r.confirm == stored.version then AlreadyFrozen(r.confirm) else FreezeConflict(stored.version);
    }
    var before := plans.rows;
    var plan := Refreshed(stored, r.stale, r.at);
    if plan != stored {
      var ok := plans.Execute(Update(r.run, plan));
      assert ok;
    }
    assert plans.rows == before[r.run := plan];
    var blockers := Blockers(plan, r);
    if blockers != [] {
      return FreezeRefused(blockers);
    }
    assert PlanView(plans.rows) == PlanView(before);
    var version := Life.MintVersion(PlanView(plans.rows), plan.project);
    if r.confirm != version {
      plans.Restore(before);
      return FreezeConflict(version);
    }
    NoBlockersExactly(plan, r);
    outcome := SealPlan(plans, before, plan, version, r);
  }

  /** `before` is the table before the plan's own flag was refreshed. */
  method SealPlan(plans: Table<Plan>, ghost before: map<nat, Plan>, plan: Plan, version: int, r: Freezing)
    returns (outcome: FreezeOutcome)
    requires plans.guard == PlanGuard && AllApproved(r.approvals)
    requires r.run in before && plans.rows == before[r.run := plan]
    requires plan.project == before[r.run].project && !plan.status.Frozen?
    modifies plans
    ensures outcome == PlanFrozen(version, FrozenBeside(before, r.run))
    ensures plans.rows ==
      WithSuperseded(before, FrozenBeside(before, r.run), r.at)[r.run := Sealable(plan, version, r)]
  {
    var superseded := Supersede(plans, r.run, r.at);
    assert superseded == FrozenBeside(before, r.run);
    var ok := plans.Execute(Update(r.run, Sealable(plan, version, r)));
    assert ok;
    outcome := PlanFrozen(version, superseded);
  }

  /** A freeze that goes through is one sealing step of the version lifecycle, so the
      partial unique index never refuses it either; and every other plan still says
      what it said. */
  lemma FreezeIsASeal(rows: map<nat, Plan>, r: Freezing)
    requires FreezeEffect(rows, r).0.PlanFrozen?
    ensures var (outcome, after) := FreezeEffect(rows, r);
      && Life.Writable(Life.Plans, PlanView(rows)[r.run])
      && outcome.version == Life.NextVersion(PlanView(rows), rows[r.run].project)
      && PlanView(after) == Life.AfterSeal(PlanView(rows), r.run, outcome.version)
      && (Life.MintedIsUnique(PlanView(rows)) ==> Life.MintedIsUnique(PlanView(after)))
      && forall p :: p in rows && p != r.run ==> SamePlan(rows[p], after[p])
  {
    var (outcome, after) := FreezeEffect(rows, r);
    NoBlockersExactly(Refreshed(rows[r.run], r.stale, r.at), r);
    SealedView(rows, r.run, Sealable(Refreshed(rows[r.run], r.stale, r.at), outcome.version, r), r.at);
    if Life.MintedIsUnique(PlanView(rows)) {
      Life.SealKeepsUnique(PlanView(rows), r.run);
    }
  }

  lemma SealedView(rows: map<nat, Plan>, run: nat, now: Plan, at: Stamp)
    requires run in rows && now.status.Frozen? && now.project == rows[run].project
    ensures var after := WithSuperseded(rows, FrozenBeside(rows, run), at)[run := now];
      && PlanView(after) == Life.AfterSeal(PlanView(rows), run, now.version)
      && forall p :: p in rows && p != run ==> SamePlan(rows[p], after[p])
  {
  }

  /** When a plan is frozen: any plan that is not frozen now, a superseded one included,
      with everything approved and the right version confirmed. */
  lemma FrozenExactly(rows: map<nat, Plan>, r: Freezing)
    ensures FreezeEffect(rows, r).0.PlanFrozen? <==>
      && r.run in rows
      && !rows[r.run].status.Frozen?
      && AllApproved(r.approvals) && r.blocking == 0 && !rows[r.run].status.PlanBlocked? && !r.stale
      && r.confirm == Life.NextVersion(PlanView(rows), rows[r.run].project)
  {
    if r.run in rows {
      NoBlockersExactly(Refreshed(rows[r.run], r.stale, r.at), r);
    }
  }

  /** What stands between a plan and its signature, blocker by blocker. */
  lemma BlockersExactly(plan: Plan, r: Freezing, gate: Gate)
    ensures var found := Blockers(plan, r);
      && (GateNotOpened(gate) in found <==> gate !in r.approvals)
      && (GateNotApproved(gate) in found <==> gate in r.approvals && !r.approvals[gate].approved)
      && (BlockingCritique in found <==> r.blocking > 0)
      && (PlanIsBlocked in found <==> plan.status.PlanBlocked? && r.blocking == 0)
      && (SourceSuperseded in found <==> r.stale)
  {
    GateBlockersExactly(REQUIRED_GATES, r.approvals, gate);
    assert REQUIRED_GATES[0] == G1 && REQUIRED_GATES[1] == G2 && REQUIRED_GATES[2] == G3 && REQUIRED_GATES[3] == G4;
    assert gate in REQUIRED_GATES;
  }

  lemma {:induction false} GateBlockersExactly(gates: seq<Gate>, approvals: map<Gate, Approval>, gate: Gate)
    ensures var found := GateBlockers(gates, approvals);
      && (GateNotOpened(gate) in found <==> gate in gates && gate !in approvals)
      && (GateNotApproved(gate) in found <==> gate in gates && gate in approvals && !approvals[gate].approved)
      && BlockingCritique !in found && PlanIsBlocked !in found && SourceSuperseded !in found
  {
    if gates != [] {
      GateBlockersExactly(gates[1..], approvals, gate);
      assert gates == [gates[0]] + gates[1..];
    }
  }

  /** What a request is answered, and what it leaves in the table when it freezes nothing:
      a refusal keeps the recomputed flag, a conflict keeps nothing. */
  lemma AnsweredExactly(rows: map<nat, Plan>, r: Freezing)
    ensures var (outcome, after) := FreezeEffect(rows, r);
      && (outcome.PlanNotFound? <==> r.run !in rows)
      && (outcome.PlanNotFound? ==> after == rows)
      && (r.run in rows ==>
            var was := rows[r.run];
            var version := Life.NextVersion(PlanView(rows), was.project);
            var blocked := !AllApproved(r.approvals) || r.blocking > 0 || was.status.PlanBlocked? || r.stale;
            && (outcome.AlreadyFrozen? <==> was.status.Frozen? && r.confirm == was.version)
            && (outcome.AlreadyFrozen? ==> outcome.version == was.version)
            && (outcome.FreezeRefused? <==> !was.status.Frozen? && blocked)
            && (outcome.FreezeConflict? <==>
                  if was.status.Frozen? then r.confirm != was.version else !blocked && r.confirm != version)
            && (outcome.FreezeConflict? ==> outcome.expected == if was.status.Frozen? then was.version else version)
            && (outcome.AlreadyFrozen? || outcome.FreezeConflict? ==> after == rows)
            && (outcome.FreezeRefused? ==>
                  && after.Keys == rows.Keys
                  && after[r.run] ==
                      (if was.sourceSuperseded == r.stale then was
                       else was.(sourceSuperseded := r.stale, updated := r.at))
                  && forall p :: p in rows && p != r.run ==> after[p] == rows[p]))
  {
    if r.run in rows {
      NoBlockersExactly(Refreshed(rows[r.run], r.stale, r.at), r);
    }
  }

  /** The frozen row, column by column: status, version, the payload and markdown rendered at
      that version, who froze it and when, the four gates' decisions in order, the flag as
      recomputed, and the rest as it was. */
  lemma FrozenRow(rows: map<nat, Plan>, r: Freezing)
    requires FreezeEffect(rows, r).0.PlanFrozen?
    ensures var was, text := rows[r.run], r.render(r.confirm);
      var (outcome, after) := FreezeEffect(rows, r);
      && outcome.version == r.confirm
      && G1 in r.approvals && G2 in r.approvals && G3 in r.approvals && G4 in r.approvals
      && r.run in after
      && after[r.run] == Plan(
           was.id, was.project, was.planRun, was.acceptance, was.schemaVersion, r.confirm, Frozen,
           text.payload, text.markdown, Some(r.at), Some(r.actor),
           Some([r.approvals[G1].id, r.approvals[G2].id, r.approvals[G3].id, r.approvals[G4].id]), r.stale, r.at)
  {
    NoBlockersExactly(Refreshed(rows[r.run], r.stale, r.at), r);
    assert REQUIRED_GATES[0] == G1 && REQUIRED_GATES[1] == G2 && REQUIRED_GATES[2] == G3 && REQUIRED_GATES[3] == G4;
  }

  /** The other rows: a frozen one of the same project is superseded, by its status and time
      of update alone, and no other moves. */
  lemma FreezeLeavesTheRest(rows: map<nat, Plan>, r: Freezing, p: nat)
    requires FreezeEffect(rows, r).0.PlanFrozen?
    ensures var (outcome, after) := FreezeEffect(rows, r);
      && after.Keys == rows.Keys
      && (p in rows && p != r.run ==>
            && (p in outcome.superseded <==> rows[p].project == rows[r.run].project && rows[p].status.Frozen?)
            && after[p] ==
                 if p in outcome.superseded then rows[p].(status := PlanSuperseded, updated := r.at) else rows[p])
  {
  }

  /** A client that lost the answer may ask again: the same version is confirmed and
      nothing moves. */
  lemma FreezingTwice(rows: map<nat, Plan>, r: Freezing, again: Freezing)
    requires FreezeEffect(rows, r).0.PlanFrozen? && again.run == r.run
    ensures var (outcome, after) := FreezeEffect(rows, r);
      FreezeEffect(after, again)
      == (if again.confirm == r.confirm then AlreadyFrozen(r.confirm) else FreezeConflict(r.confirm), after)
  {
  }

  /** Of two people who confirm the same version in one project, the second is told the
      next one, and seals nothing. */
  lemma SecondFreezeConflicts(rows: map<nat, Plan>, r: Freezing, other: Freezing)
    requires FreezeEffect(rows, r).0.PlanFrozen?
    requires other.run in rows && other.run != r.run && rows[other.run].project == rows[r.run].project
    requires other.confirm == r.confirm
    ensures var after := FreezeEffect(rows, r).1;
      var outcome := FreezeEffect(after, other).0;
      outcome == FreezeConflict(r.confirm + 1) || outcome.FreezeRefused?
  {
    FreezeIsASeal(rows, r);
    var (outcome, after) := FreezeEffect(rows, r);
    Life.NextAfterSeal(PlanView(rows), r.run, outcome.version, rows[r.run].project);
    NobodyElseIsFrozen(rows, r, other.run);
  }

  /** A freeze leaves no other plan of the project frozen, and moves none elsewhere. */
  lemma NobodyElseIsFrozen(rows: map<nat, Plan>, r: Freezing, p: nat)
    requires FreezeEffect(rows, r).0.PlanFrozen? && p in rows && p != r.run
    ensures var after := FreezeEffect(rows, r).1;
      && p in after && after[p].project == rows[p].project
      && (rows[p].project == rows[r.run].project ==> !after[p].status.Frozen?)
  {
  }
}
