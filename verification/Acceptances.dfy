/**
 The current research acceptance of a project and the flag its plans derive from it
 (migration 0013, api/routes_plan.py and planning/staleness.py). Every statement is
 checked when it ends, not when the transaction does.
 */
module Acceptances {
  import opened Prelude

  type Id = nat

  datatype Verdict = Verdict(note: Option<string>, overrideReason: Option<string>)

  datatype Acceptance = Acceptance(
    project: Id, run: Id, acceptedBy: Id, acceptedAt: int, readiness: string, verdict: Verdict,
    supersededBy: Option<Id>)

  datatype Plan = Plan(project: Id, acceptance: Id, sourceSuperseded: bool)

  type Rows = map<Id, Acceptance>

  // ----- constraints ----------------------------------------------------------------------

  predicate Current(rows: Rows, project: Id, p: Id) {
    p in rows && rows[p].project == project && rows[p].supersededBy.None?
  }

  /** The partial unique index on (project_id) WHERE superseded_by IS NULL. */
  predicate OneCurrent(rows: Rows) {
    forall p, q :: p in rows && q in rows && rows[p].supersededBy.None? && rows[q].supersededBy.None? && p != q ==>
      rows[p].project != rows[q].project
  }

  predicate OnePerRun(rows: Rows) {
    forall p, q :: p in rows && q in rows && rows[p].run == rows[q].run ==> p == q
  }

  predicate PointersResolve(rows: Rows) {
    forall p :: p in rows && rows[p].supersededBy.Some? ==> rows[p].supersededBy.value in rows
  }

  predicate Constraints(rows: Rows) {
    OneCurrent(rows) && OnePerRun(rows) && PointersResolve(rows)
  }

  /** The flag says whether the acceptance a plan was built from has been superseded. */
  predicate FlagsAreDerived(rows: Rows, plans: map<Id, Plan>) {
    forall p :: p in plans ==> plans[p].sourceSuperseded == Superseded(rows, plans[p].acceptance)
  }

  predicate Superseded(rows: Rows, a: Id) {
    a in rows && rows[a].supersededBy.Some?
  }

  /** A plan's acceptance is one of its project's. */
  predicate PlansAreAtHome(rows: Rows, plans: map<Id, Plan>) {
    forall p :: p in plans ==> plans[p].acceptance in rows && rows[plans[p].acceptance].project == plans[p].project
  }

  // ----- what an acceptance does -------------------------------------------------------------

  /** Who accepts which run of which project, and the id a new row would get. */
  datatype Accepting = Accepting(
    project: Id, run: Id, actor: Id, at: int, readiness: string, verdict: Verdict, freshId: Id)

  /** The run's row, if it has one, stands in the run's project; the new id is new. */
  predicate Sensible(rows: Rows, a: Accepting) {
    a.freshId !in rows && forall p :: p in rows && rows[p].run == a.run ==> rows[p].project == a.project
  }

  predicate IsTarget(rows: Rows, a: Accepting, id: Id) {
    if exists p :: p in rows && rows[p].run == a.run then id in rows && rows[id].run == a.run else id == a.freshId
  }

  /** The accepted row: only its words change when it was current already. */
  function AcceptedRow(rows: Rows, a: Accepting, id: Id): Acceptance {
    if Current(rows, a.project, id) then rows[id].(verdict := a.verdict)
    else Acceptance(a.project, a.run, a.actor, a.at, a.readiness, a.verdict, None)
  }

  /** The project's other current row now names what replaced it. */
  function AfterAccept(rows: Rows, a: Accepting, id: Id): Rows {
    map p | p in rows.Keys + {id} ::
      if p == id then AcceptedRow(rows, a, id)
      else if Current(rows, a.project, p) then rows[p].(supersededBy := Some(id))
      else rows[p]
  }

  function Refreshed(rows: Rows, plans: map<Id, Plan>, project: Id): map<Id, Plan> {
    map p | p in plans ::
      if plans[p].project == project then plans[p].(sourceSuperseded := Superseded(rows, plans[p].acceptance))
      else plans[p]
  }

  /** Nothing but the flags of one project's plans moved. */
  predicate OnlyFlagsMoved(before: map<Id, Plan>, after: map<Id, Plan>, project: Id) {
    && before.Keys == after.Keys
    && forall p :: p in before ==>
         && after[p].project == before[p].project && after[p].acceptance == before[p].acceptance
         && (before[p].project != project ==> after[p] == before[p])
  }

  lemma RefreshMovesFlags(rows: Rows, plans: map<Id, Plan>, project: Id)
    ensures OnlyFlagsMoved(plans, Refreshed(rows, plans, project), project)
  {
  }

  /** Refreshing one project is enough when only its rows moved. */
  lemma RefreshSettles(before: Rows, after: Rows, plans: map<Id, Plan>, project: Id)
    requires PlansAreAtHome(before, plans) && FlagsAreDerived(before, plans)
    requires forall p :: p in before ==> p in after && after[p].project == before[p].project
    requires forall p :: p in before && before[p].project != project ==> after[p] == before[p]
    ensures PlansAreAtHome(after, Refreshed(after, plans, project))
    ensures FlagsAreDerived(after, Refreshed(after, plans, project))
  {
  }

  /** The three statements and the states between them. */
  lemma Stages(rows: Rows, a: Accepting, id: Id, previous: Id)
    requires Constraints(rows) && Sensible(rows, a) && IsTarget(rows, a, id)
    requires Current(rows, a.project, previous) && previous != id
    ensures var first := rows[previous := rows[previous].(supersededBy := Some(previous))];
      var second := first[id := AcceptedRow(rows, a, id)];
      && Constraints(first)
      && Constraints(second)
      && second[previous := rows[previous].(supersededBy := Some(id))] == AfterAccept(rows, a, id)
  {
    var first := rows[previous := rows[previous].(supersededBy := Some(previous))];
    Withdrawing(rows, previous);
    NoneIsCurrent(rows, a.project, previous);
    Admitting(first, a, id);
    ThreeMakeOne(rows, a, id, previous);
  }

  lemma NoneIsCurrent(rows: Rows, project: Id, previous: Id)
    requires OneCurrent(rows) && Current(rows, project, previous)
    ensures var first := rows[previous := rows[previous].(supersededBy := Some(previous))];
      forall p :: !Current(first, project, p)
  {
  }

  lemma ThreeMakeOne(rows: Rows, a: Accepting, id: Id, previous: Id)
    requires OneCurrent(rows) && Current(rows, a.project, previous) && previous != id
    ensures var first := rows[previous := rows[previous].(supersededBy := Some(previous))];
      var second := first[id := AcceptedRow(rows, a, id)];
      second[previous := rows[previous].(supersededBy := Some(id))] == AfterAccept(rows, a, id)
    ensures !Current(rows, a.project, id)
  {
  }

  lemma Withdrawing(rows: Rows, p: Id)
    requires Constraints(rows) && p in rows
    ensures Constraints(rows[p := rows[p].(supersededBy := Some(p))])
  {
    var after := rows[p := rows[p].(supersededBy := Some(p))];
    assert forall q :: q in after && after[q].supersededBy.None? ==> q in rows && after[q] == rows[q];
  }

  lemma Admitting(rows: Rows, a: Accepting, id: Id)
    requires Constraints(rows) && IsTarget(rows, a, id) && Sensible(rows, a)
    requires forall p :: !Current(rows, a.project, p)
    ensures Constraints(rows[id := Acceptance(a.project, a.run, a.actor, a.at, a.readiness, a.verdict, None)])
  {
    var after := rows[id := Acceptance(a.project, a.run, a.actor, a.at, a.readiness, a.verdict, None)];
    forall q | q in rows && q != id && rows[q].supersededBy.None?
      ensures rows[q].project != a.project
    {
      assert !Current(rows, a.project, q);
    }
    assert OneCurrent(after);
    assert OnePerRun(after);
  }

  lemma AcceptStaysHome(rows: Rows, a: Accepting, id: Id)
    requires Sensible(rows, a) && IsTarget(rows, a, id)
    ensures var after := AfterAccept(rows, a, id);
      forall p :: p in rows ==>
        p in after && after[p].project == rows[p].project && (rows[p].project != a.project ==> after[p] == rows[p])
  {
  }

  datatype Withdrawal = NotAccepted | NothingToWithdraw | Withdrawn(id: Id)

  class Research {
    var rows: Rows
    var plans: map<Id, Plan>

    predicate Valid()
      reads this
    {
      Constraints(rows) && PlansAreAtHome(rows, plans) && FlagsAreDerived(rows, plans)
    }

    constructor ()
      ensures Valid() && rows == map[] && plans == map[]
    {
      rows, plans := map[], map[];
    }

    /** One INSERT or UPDATE. */
    method Put(id: Id, row: Acceptance) returns (ok: bool)
      modifies this`rows
      ensures ok <==> Constraints(old(rows)[id := row])
      ensures rows == if ok then old(rows)[id := row] else old(rows)
    {
      ok := Constraints(rows[id := row]);
      if ok {
        rows := rows[id := row];
      }
    }

    /** `refresh_for_project`: only rows whose flag is wrong are written. */
    method Refresh(project: Id)
      modifies this`plans
      ensures plans == Refreshed(rows, old(plans), project)
    {
      var todo := plans.Keys;
      while todo != {}
        invariant todo <= plans.Keys == old(plans).Keys
        invariant forall p :: p in todo ==> plans[p] == old(plans)[p]
        invariant forall p :: p in plans && p !in todo ==> plans[p] == Refreshed(rows, old(plans), project)[p]
        decreases todo
      {
        var p :| p in todo;
        todo := todo - {p};
        var stale := Superseded(rows, plans[p].acceptance);
        if plans[p].project == project && plans[p].sourceSuperseded != stale {
          plans := plans[p := plans[p].(sourceSuperseded := stale)];
        }
      }
    }

    /** Withdraw the old row onto itself, bring in the new one, point the old one at it:
        no statement is refused. */
    method Replace(a: Accepting, id: Id, previous: Id)
      requires Constraints(rows) && Sensible(rows, a) && IsTarget(rows, a, id)
      requires Current(rows, a.project, previous) && previous != id
      modifies this`rows
      ensures rows == AfterAccept(old(rows), a, id)
    {
      Stages(rows, a, id, previous);
      AcceptKeepsConstraints(rows, a, id);
      var now, kept := AcceptedRow(rows, a, id), rows[previous];
      var ok := Put(previous, kept.(supersededBy := Some(previous)));
      assert ok;
      ok := Put(id, now);
      assert ok;
      ok := Put(previous, kept.(supersededBy := Some(id)));
      assert ok;
    }

    method Accept(a: Accepting) returns (id: Id)
      requires Valid() && Sensible(rows, a)
      modifies this
      ensures Valid()
      ensures IsTarget(old(rows), a, id)
      ensures rows == AfterAccept(old(rows), a, id)
      ensures OnlyFlagsMoved(old(plans), plans, a.project)
    {
      id := a.freshId;
      if p :| p in rows && rows[p].run == a.run {
        id := p;
      }
      AcceptKeepsConstraints(rows, a, id);
      if previous :| previous in rows && Current(rows, a.project, previous) && previous != id {
        Replace(a, id, previous);
      } else {
        assert rows[id := AcceptedRow(rows, a, id)] == AfterAccept(rows, a, id);
        var ok := Put(id, AcceptedRow(rows, a, id));
        assert ok;
      }
      AcceptStaysHome(old(rows), a, id);
      RefreshSettles(old(rows), rows, plans, a.project);
      RefreshMovesFlags(rows, plans, a.project);
      Refresh(a.project);
    }

    method Withdraw(run: Id) returns (outcome: Withdrawal)
      requires Valid()
      modifies this
      ensures Valid()
      ensures outcome.NotAccepted? <==> forall p :: p in old(rows) ==> old(rows)[p].run != run
      ensures outcome.Withdrawn? ==>
        && outcome.id in old(rows) && old(rows)[outcome.id].run == run && old(rows)[outcome.id].supersededBy.None?
        && rows == old(rows)[outcome.id := old(rows)[outcome.id].(supersededBy := Some(outcome.id))]
      ensures outcome.Withdrawn? ==> OnlyFlagsMoved(old(plans), plans, old(rows)[outcome.id].project)
      ensures !outcome.Withdrawn? ==> rows == old(rows) && plans == old(plans)
      ensures outcome.NothingToWithdraw? ==> exists p :: p in rows && rows[p].run == run && rows[p].supersededBy.Some?
    {
      if p :| p in rows && rows[p].run == run {
        if rows[p].supersededBy.Some? {
          return NothingToWithdraw;
        }
        Withdrawing(rows, p);
        RefreshSettles(rows, rows[p := rows[p].(supersededBy := Some(p))], plans, rows[p].project);
        var ok := Put(p, rows[p].(supersededBy := Some(p)));
        assert ok;
        RefreshMovesFlags(rows, plans, rows[p].project);
        Refresh(rows[p].project);
        outcome := Withdrawn(p);
      } else {
        outcome := NotAccepted;
      }
    }
  }

  // ----- what it means --------------------------------------------------------------------------

  lemma AcceptKeepsOneCurrent(rows: Rows, a: Accepting, id: Id)
    requires Sensible(rows, a) && IsTarget(rows, a, id) && OneCurrent(rows)
    ensures OneCurrent(AfterAccept(rows, a, id))
  {
    var after := AfterAccept(rows, a, id);
    forall p | p in after && p != id && after[p].supersededBy.None?
      ensures after[p] == rows[p] && rows[p].project != a.project
    {
      assert !Current(rows, a.project, p);
    }
    assert after[id].project == a.project;
  }

  lemma AcceptKeepsOnePerRun(rows: Rows, a: Accepting, id: Id)
    requires IsTarget(rows, a, id) && OnePerRun(rows)
    ensures OnePerRun(AfterAccept(rows, a, id))
  {
    var after := AfterAccept(rows, a, id);
    assert after[id].run == a.run || (id in rows && after[id].run == rows[id].run);
    assert forall p :: p in after && p != id ==> after[p].run == rows[p].run;
  }

  lemma AcceptKeepsPointers(rows: Rows, a: Accepting, id: Id)
    requires PointersResolve(rows)
    ensures PointersResolve(AfterAccept(rows, a, id))
  {
  }

  lemma AcceptKeepsConstraints(rows: Rows, a: Accepting, id: Id)
    requires Constraints(rows) && Sensible(rows, a) && IsTarget(rows, a, id)
    ensures Constraints(AfterAccept(rows, a, id))
  {
    AcceptKeepsOneCurrent(rows, a, id);
    AcceptKeepsOnePerRun(rows, a, id);
    AcceptKeepsPointers(rows, a, id);
  }

  /** After an acceptance the project has exactly one current row, the accepted one, and
      every other project's rows are as they were. */
  lemma ExactlyOneIsCurrent(rows: Rows, a: Accepting, id: Id)
    requires Constraints(rows) && Sensible(rows, a) && IsTarget(rows, a, id)
    ensures var after := AfterAccept(rows, a, id);
      && (forall p :: Current(after, a.project, p) <==> p == id)
      && (forall p :: p in rows && rows[p].project != a.project ==> p in after && after[p] == rows[p])
      && (forall p :: p in rows && p != id && after[p] != rows[p] ==> Current(rows, a.project, p))
  {
  }

  /** Column by column: a new or revived row says who accepted, when and how ready the run
      was; accepting the current row again changes its words alone; and the row it
      displaces changes in nothing but the name of its successor. */
  lemma AcceptedColumns(rows: Rows, a: Accepting, id: Id)
    requires Constraints(rows) && Sensible(rows, a) && IsTarget(rows, a, id)
    ensures var again, row := id in rows && rows[id].supersededBy.None?, AfterAccept(rows, a, id)[id];
      && row.project == a.project && row.run == a.run && row.supersededBy.None?
      && row.verdict.note == a.verdict.note && row.verdict.overrideReason == a.verdict.overrideReason
      && row.acceptedBy == (if again then rows[id].acceptedBy else a.actor)
      && row.acceptedAt == (if again then rows[id].acceptedAt else a.at)
      && row.readiness == (if again then rows[id].readiness else a.readiness)
    ensures var after := AfterAccept(rows, a, id);
      && after.Keys == rows.Keys + {id}
      && forall p :: p in rows && p != id ==>
           after[p] == rows[p].(supersededBy :=
             if rows[p].project == a.project && rows[p].supersededBy.None? then Some(id) else rows[p].supersededBy)
  {
  }

  /** While a row is current, neither of the two statements one would try first is
      accepted: bringing in the new row, or pointing the old one at it. */
  lemma TwoStatementsAreRefused(rows: Rows, a: Accepting, previous: Id)
    requires Sensible(rows, a) && Current(rows, a.project, previous)
    ensures !Constraints(rows[a.freshId := Acceptance(a.project, a.run, a.actor, a.at, a.readiness, a.verdict, None)])
    ensures !Constraints(rows[previous := rows[previous].(supersededBy := Some(a.freshId))])
  {
    var inserted := rows[a.freshId := Acceptance(a.project, a.run, a.actor, a.at, a.readiness, a.verdict, None)];
    assert Current(inserted, a.project, previous) && Current(inserted, a.project, a.freshId);
    var pointed := rows[previous := rows[previous].(supersededBy := Some(a.freshId))];
    assert pointed[previous].supersededBy.value !in pointed;
  }

  /** Accepting another run and then the first again makes the first current again, and
      the second names it. */
  lemma AcceptingAgainRevives(rows: Rows, other: Accepting, again: Accepting, was: Id, id: Id)
    requires Constraints(rows) && Current(rows, other.project, was) && rows[was].run == again.run != other.run
    requires Sensible(rows, other) && IsTarget(rows, other, id) && again.project == other.project
    ensures var between := AfterAccept(rows, other, id);
      between[was].supersededBy == Some(id)
      && IsTarget(between, again, was)
      && AfterAccept(between, again, was)[was].supersededBy.None?
      && AfterAccept(between, again, was)[id].supersededBy == Some(was)
  {
  }

  /** Withdrawing points the current row at itself and brings nothing back: the project
      has no current row until one is accepted again. */
  lemma WithdrawingRevivesNothing(rows: Rows, project: Id, p: Id)
    requires Constraints(rows) && Current(rows, project, p)
    ensures var after := rows[p := rows[p].(supersededBy := Some(p))];
      forall q :: !Current(after, project, q)
  {
    NoneIsCurrent(rows, project, p);
  }

  // ----- deleting a row --------------------------------------------------------------------------

  predicate PointsAt(rows: Rows, p: Id, d: Id) {
    p in rows && p != d && rows[p].supersededBy == Some(d)
  }

  /** ON DELETE SET NULL: every row that named the deleted one names nothing. */
  function AfterDelete(rows: Rows, d: Id): Rows {
    map p | p in rows && p != d :: if PointsAt(rows, p, d) then rows[p].(supersededBy := None) else rows[p]
  }

  /** A plan keeps its acceptance from being deleted; the constraints decide the rest. */
  predicate MayDelete(rows: Rows, plans: map<Id, Plan>, d: Id) {
    (forall p :: p in plans ==> plans[p].acceptance != d) && Constraints(AfterDelete(rows, d))
  }

  lemma DeletionKeepsTheRest(rows: Rows, d: Id)
    requires Constraints(rows)
    ensures OnePerRun(AfterDelete(rows, d)) && PointersResolve(AfterDelete(rows, d))
  {
    var after := AfterDelete(rows, d);
    assert forall p :: p in after ==> p in rows && after[p].run == rows[p].run;
    forall p | p in after && after[p].supersededBy.Some?
      ensures after[p].supersededBy.value in after
    {
      assert !PointsAt(rows, p, d);
    }
  }

  /** Each row that names the deleted one would be its project's only current row. */
  ghost predicate RevivedAlone(rows: Rows, d: Id) {
    forall p, q :: PointsAt(rows, p, d) && q in rows && q != p && q != d && rows[q].project == rows[p].project ==>
      rows[q].supersededBy.Some? && !PointsAt(rows, q, d)
  }

  lemma DeletionLeavesOneCurrentExactly(rows: Rows, d: Id)
    requires OneCurrent(rows)
    ensures OneCurrent(AfterDelete(rows, d)) <==> RevivedAlone(rows, d)
  {
    var after := AfterDelete(rows, d);
    forall p | p in after
      ensures after[p].supersededBy.None? <==> rows[p].supersededBy.None? || PointsAt(rows, p, d)
      ensures after[p].project == rows[p].project
    {
    }
  }

  /** A row no plan was built from can be deleted exactly when each row that names it is
      the only such row of its project and would be its project's only current one. */
  lemma DeletionExactly(rows: Rows, plans: map<Id, Plan>, d: Id)
    requires Constraints(rows)
    ensures MayDelete(rows, plans, d) <==>
      (forall p :: p in plans ==> plans[p].acceptance != d) && RevivedAlone(rows, d)
  {
    DeletionKeepsTheRest(rows, d);
    DeletionLeavesOneCurrentExactly(rows, d);
  }

  /** Nothing refreshes the flags of a deletion. They stay right exactly when no plan
      was built from a row that named the deleted one. */
  lemma DeletionLeavesFlagsRightExactly(rows: Rows, plans: map<Id, Plan>, d: Id)
    requires PlansAreAtHome(rows, plans) && FlagsAreDerived(rows, plans) && MayDelete(rows, plans, d)
    ensures FlagsAreDerived(AfterDelete(rows, d), plans) <==>
      forall p :: p in plans ==> !PointsAt(rows, plans[p].acceptance, d)
    ensures forall p :: p in plans && PointsAt(rows, plans[p].acceptance, d) ==>
      plans[p].sourceSuperseded && !Superseded(AfterDelete(rows, d), plans[p].acceptance)
  {
    var after := AfterDelete(rows, d);
    forall p | p in plans
      ensures Superseded(after, plans[p].acceptance) <==>
        Superseded(rows, plans[p].acceptance) && !PointsAt(rows, plans[p].acceptance, d)
    {
      assert plans[p].acceptance in rows && plans[p].acceptance != d;
    }
  }

  function Row(run: Id, supersededBy: Option<Id>): Acceptance {
    Acceptance(0, run, 0, 0, "go", Verdict(None, None), supersededBy)
  }

  function Accepts(run: Id): Accepting {
    Accepting(0, run, 0, 0, "go", Verdict(None, None), run)
  }

  /** What accepting run 1, run 2, run 1 again and run 3 leaves: row 2 still names row 1. */
  function FourAcceptances(): Rows {
    map[1 := Row(1, Some(3)), 2 := Row(2, Some(1)), 3 := Row(3, None)]
  }

  lemma TwoAcceptancesLeave()
    ensures AfterAccept(AfterAccept(map[], Accepts(1), 1), Accepts(2), 2) ==
      map[1 := Row(1, Some(2)), 2 := Row(2, None)]
  {
    assert AfterAccept(map[], Accepts(1), 1) == map[1 := Row(1, None)];
  }

  lemma TwoMoreLeave()
    ensures var two := map[1 := Row(1, Some(2)), 2 := Row(2, None)];
      AfterAccept(AfterAccept(two, Accepts(1), 1), Accepts(3), 3) == FourAcceptances()
  {
    var two := map[1 := Row(1, Some(2)), 2 := Row(2, None)];
    assert AfterAccept(two, Accepts(1), 1) == map[1 := Row(1, None), 2 := Row(2, Some(1))];
  }

  lemma FourAcceptancesLeaveThat()
    ensures var two := AfterAccept(AfterAccept(map[], Accepts(1), 1), Accepts(2), 2);
      AfterAccept(AfterAccept(two, Accepts(1), 1), Accepts(3), 3) == FourAcceptances()
  {
    TwoAcceptancesLeave();
    TwoMoreLeave();
  }

  /** Then deleting row 1 is refused, though nothing was planned from it: row 2 would be
      current beside row 3. */
  lemma ADeletionIsRefused()
    ensures Constraints(FourAcceptances()) && !MayDelete(FourAcceptances(), map[], 1)
  {
    var rows := FourAcceptances();
    assert PointsAt(rows, 2, 1) && rows[3].supersededBy.None?;
    DeletionExactly(rows, map[], 1);
  }

  /** Run 2 was accepted over run 1, and a plan built from run 1 says so. Deleting the
      second acceptance makes the first current again; the plan goes on saying that its
      source was superseded. */
  lemma ADeletionLeavesAFlagWrong()
    ensures var rows := map[1 := Row(1, Some(2)), 2 := Row(2, None)];
      var plans := map[9 := Plan(0, 1, true)];
      && Constraints(rows) && PlansAreAtHome(rows, plans) && FlagsAreDerived(rows, plans)
      && MayDelete(rows, plans, 2)
      && !FlagsAreDerived(AfterDelete(rows, 2), plans)
  {
    var rows := map[1 := Row(1, Some(2)), 2 := Row(2, None)];
    var plans := map[9 := Plan(0, 1, true)];
    assert AfterDelete(rows, 2) == map[1 := Row(1, None)];
    assert plans[9].sourceSuperseded && !Superseded(AfterDelete(rows, 2), plans[9].acceptance);
  }
}
