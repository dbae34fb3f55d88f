/**
 Assembling and releasing a package (nodes/creative/n4_7_1_package_assembly.py,
 creative/release.py), statement by statement against the guarded tables of packages
 and assets. A refused release is rolled back.
 */
module PackageRelease {
  import opened Prelude
  import opened GuardedTable
  import opened SealedRows
  import Life = VersionLifecycle

  // ----- the table as the version lifecycle sees it -------------------------------------

  function PackagePhase(s: PackageStatus): Life.Phase {
    match s
    case Released => Life.Sealed
    case PackageSuperseded => Life.Superseded
    case _ => Life.Open
  }

  function PackageView(rows: map<nat, Package>): Life.Rows {
    map p | p in rows :: Life.Entry(rows[p].project, rows[p].version, PackagePhase(rows[p].status))
  }

  // ----- assembling ------------------------------------------------------------------------

  /** `place` is the package of the draft's run, or a new one. */
  method AssemblePackage(packages: Table<Package>, place: nat, draft: Package) returns (ok: bool)
    requires packages.guard == PackageGuard
    requires place in packages.rows ==> packages.rows[place].creativeRun == draft.creativeRun
    requires draft.status == PackageDraft && draft.version == 0
    modifies packages
    ensures ok <==> (place in old(packages.rows) ==> PackagePhase(old(packages.rows)[place].status).Open?)
    ensures !ok ==> packages.rows == old(packages.rows)
    ensures ok ==>
      var was := PackageView(old(packages.rows));
      PackageView(packages.rows) == was[place := Life.Written(Life.Packages, was, place, draft.project)]
    ensures ok && place !in old(packages.rows) ==> place in packages.rows && packages.rows[place] == draft
    ensures ok && place in old(packages.rows) ==>
      var was := old(packages.rows)[place];
      place in packages.rows
      && packages.rows[place] == Package(
           was.id, was.workspace, was.project, was.creativeRun, draft.schemaVersion, 0, PackageDraft,
           draft.plan, draft.planVersion, draft.guideline, draft.rulesetVersion, draft.briefHash,
           draft.payload, None, None,
           was.releasedAt, was.releasedBy, was.releasedApprovals,
           was.planSuperseded, was.rulesetSuperseded, draft.cost, was.created, draft.updated)
    ensures forall p :: p in old(packages.rows) && p != place ==>
      p in packages.rows && packages.rows[p] == old(packages.rows)[p]
  {
    if place !in packages.rows {
      ok := packages.Execute(Insert(place, draft));
      assert ok;
    } else if !PackagePhase(packages.rows[place].status).Open? {
      ok := false;
    } else {
      var now := packages.rows[place].(
        schemaVersion := draft.schemaVersion, version := 0, status := PackageDraft, plan := draft.plan,
        planVersion := draft.planVersion, guideline := draft.guideline, rulesetVersion := draft.rulesetVersion,
        briefHash := draft.briefHash, payload := draft.payload, manifest := None, packageHash := None,
        cost := draft.cost, updated := draft.updated);
      ok := packages.Execute(Update(place, now));
      assert ok;
    }
  }

  // ----- releasing -----------------------------------------------------------------------------

  /** What the release writes of the package it re-assembled, and the assets it ships. */
  datatype Final = Final(payload: Json, manifest: Json, hash: string, approvals: seq<Uuid>, shipped: set<nat>)

  /** `readable`: the run and its rule set load. `plan`: the status of the plan the
      package was written for. `current`: the rows still assemble to the stored
      payload. `blocking`: how many of the checks fail. `filesMatch`: the worker wrote
      what the manifest lists. */
  datatype Releasing = Releasing(
    package: nat, confirm: int, readable: bool, plan: Option<PlanStatus>, current: bool, blocking: nat,
    filesMatch: bool, actor: Uuid, at: Stamp, final: int -> Final)

  datatype ReleaseOutcome =
    | PackageNotFound
    | NotReleasable(status: PackageStatus)
    | RunUnreadable
    | PlanIsSuperseded
    | PackageStale
    | ChecksFailed
    | VersionMismatch(expected: int)
    | AssetFrozen
    | FilesDiffer
    | PackageReleased(version: int, superseded: set<nat>)

  predicate PlanMovedOn(row: Package, plan: Option<PlanStatus>) {
    row.planSuperseded || plan.None? || plan.value == PlanSuperseded
  }

  /** The shipped assets that are still there, of this run, and not frozen. */
  function Freezable(assets: map<nat, Asset>, shipped: set<nat>, run: Uuid): set<nat> {
    set p | p in shipped && p in assets && assets[p].creativeRun == run && assets[p].frozenAt.None?
  }

  function WithFrozen(assets: map<nat, Asset>, ids: set<nat>, at: Stamp): map<nat, Asset> {
    map p | p in assets :: if p in ids then assets[p].(frozenAt := Some(at), updated := at) else assets[p]
  }

  /** The other released packages of the project. */
  function ReleasedBeside(rows: map<nat, Package>, place: nat): set<nat>
    requires place in rows
  {
    set p | p in rows && p != place && rows[p].project == rows[place].project && rows[p].status == Released
  }

  function WithSuperseded(rows: map<nat, Package>, ps: set<nat>, at: Stamp): map<nat, Package> {
    map p | p in rows :: if p in ps then rows[p].(status := PackageSuperseded, updated := at) else rows[p]
  }

  function ReleasedForm(row: Package, version: int, r: Releasing): Package {
    var final := r.final(version);
    row.(
      status := Released, version := version, payload := final.payload, manifest := Some(final.manifest),
      packageHash := Some(final.hash), releasedAt := Some(r.at), releasedBy := Some(r.actor),
      releasedApprovals := Some(final.approvals), updated := r.at)
  }

  /** The checks a release makes before it writes anything but the claim, in order. */
  function Refusal(row: Package, version: int, r: Releasing): Option<ReleaseOutcome> {
    if row.status != ReadyToRelease then Some(NotReleasable(row.status))
    else if !r.readable then Some(RunUnreadable)
    else if PlanMovedOn(row, r.plan) then Some(PlanIsSuperseded)
    else if !r.current then Some(PackageStale)
    else if r.blocking > 0 then Some(ChecksFailed)
    else if r.confirm != version then Some(VersionMismatch(version))
    else None
  }

  /** What a release answers, and what it leaves in the two tables. */
  ghost function ReleaseEffect(rows: map<nat, Package>, assets: map<nat, Asset>, r: Releasing)
    : (ReleaseOutcome, map<nat, Package>, map<nat, Asset>)
  {
    if r.package !in rows then (PackageNotFound, rows, assets)
    else
      var row := rows[r.package];
      var version := Life.NextVersion(PackageView(rows), row.project);
      match Refusal(row, version, r)
      case Some(refused) => (refused, rows, assets)
      case None => ShipEffect(rows, assets, r)
  }

  /** Freezing what ships, checking the files, superseding and sealing. */
  function ShipEffect(rows: map<nat, Package>, assets: map<nat, Asset>, r: Releasing)
    : (ReleaseOutcome, map<nat, Package>, map<nat, Asset>)
    requires r.package in rows
  {
    var row := rows[r.package];
    var shipped := r.final(r.confirm).shipped;
    if !(shipped <= Freezable(assets, shipped, row.creativeRun)) then (AssetFrozen, rows, assets)
    else if !r.filesMatch then (FilesDiffer, rows, assets)
    else
      var beside := ReleasedBeside(rows, r.package);
      (PackageReleased(r.confirm, beside),
       WithSuperseded(rows, beside, r.at)[r.package := ReleasedForm(row, r.confirm, r)],
       WithFrozen(assets, shipped, r.at))
  }

  /** `UPDATE ... WHERE id IN shipped AND frozen_at IS NULL`, and how many rows it met. */
  method FreezeAssets(assets: Table<Asset>, shipped: set<nat>, run: Uuid, at: Stamp) returns (count: nat)
    requires assets.guard == AssetGuard
    modifies assets
    ensures count == |Freezable(old(assets.rows), shipped, run)|
    ensures assets.rows == WithFrozen(old(assets.rows), Freezable(old(assets.rows), shipped, run), at)
  {
    var met := Freezable(assets.rows, shipped, run);
    var todo := met;
    while todo != {}
      invariant todo <= met
      invariant assets.rows == WithFrozen(old(assets.rows), met - todo, at)
      decreases todo
    {
      var p :| p in todo;
      var ok := assets.Execute(Update(p, assets.rows[p].(frozenAt := Some(at), updated := at)));
      assert ok;
      todo := todo - {p};
    }
    count := |met|;
  }

  method Supersede(packages: Table<Package>, place: nat, at: Stamp) returns (superseded: set<nat>)
    requires packages.guard == PackageGuard && place in packages.rows
    modifies packages
    ensures superseded == ReleasedBeside(old(packages.rows), place)
    ensures packages.rows == WithSuperseded(old(packages.rows), superseded, at)
  {
    superseded := ReleasedBeside(packages.rows, place);
    var todo := superseded;
    while todo != {}
      invariant todo <= superseded
      invariant packages.rows == WithSuperseded(old(packages.rows), superseded - todo, at)
      decreases todo
    {
      var p :| p in todo;
      var ok := packages.Execute(Update(p, packages.rows[p].(status := PackageSuperseded, updated := at)));
      assert ok;
      todo := todo - {p};
    }
  }

  lemma CountTellsSubset(part: set<nat>, whole: set<nat>)
    requires part <= whole
    ensures |part| == |whole| <==> whole <= part
  {
    assert whole == part + (whole - part);
  }

  /** No statement of a release is ever refused by a trigger. */
  method ReleasePackage(packages: Table<Package>, assets: Table<Asset>, r: Releasing) returns (outcome: ReleaseOutcome)
    requires packages.guard == PackageGuard && assets.guard == AssetGuard
    modifies packages, assets
    ensures (outcome, packages.rows, assets.rows) == ReleaseEffect(old(packages.rows), old(assets.rows), r)
  {
    if r.package !in packages.rows {
      return PackageNotFound;
    }
    var before, assetsBefore := packages.rows, assets.rows;
    var row := before[r.package];
    if row.status == ReadyToRelease {
      var ok := packages.Execute(Update(r.package, row.(updated := r.at)));
      assert ok;
    }
    assert PackageView(packages.rows) == PackageView(before);
    var version := Life.MintVersion(PackageView(packages.rows), row.project);
    var refused := Refusal(row, version, r);
    if refused.Some? {
      outcome := refused.value;
    } else {
      outcome := Ship(packages, assets, before, r);
    }
    if !outcome.PackageReleased? {
      packages.Restore(before);
      assets.Restore(assetsBefore);
    }
  }

  /** `before` is the table before the claim moved the row's time of update. */
  method Ship(packages: Table<Package>, assets: Table<Asset>, ghost before: map<nat, Package>, r: Releasing)
    returns (outcome: ReleaseOutcome)
    requires packages.guard == PackageGuard && assets.guard == AssetGuard
    requires r.package in before && before[r.package].status == ReadyToRelease
    requires packages.rows == before[r.package := before[r.package].(updated := r.at)]
    modifies packages, assets
    ensures outcome == ShipEffect(before, old(assets.rows), r).0
    ensures outcome.PackageReleased? ==>
      (outcome, packages.rows, assets.rows) == ShipEffect(before, old(assets.rows), r)
  {
    var row := packages.rows[r.package];
    var shipped := r.final(r.confirm).shipped;
    ghost var freezable := Freezable(assets.rows, shipped, row.creativeRun);
    CountTellsSubset(freezable, shipped);
    var frozen := FreezeAssets(assets, shipped, row.creativeRun, r.at);
    if frozen != |shipped| {
      return AssetFrozen;
    }
    assert freezable == shipped;
    if !r.filesMatch {
      return FilesDiffer;
    }
    var superseded := Supersede(packages, r.package, r.at);
    assert superseded == ReleasedBeside(before, r.package);
    var now := ReleasedForm(row, r.confirm, r);
    assert now == ReleasedForm(before[r.package], r.confirm, r);
    assert packages.rows[r.package].status == ReadyToRelease;
    var ok := packages.Execute(Update(r.package, now));
    assert ok;
    assert packages.rows == WithSuperseded(before, superseded, r.at)[r.package := now];
    outcome := PackageReleased(r.confirm, superseded);
  }

  // ----- what a release means ------------------------------------------------------------------

  lemma SealedView(rows: map<nat, Package>, place: nat, now: Package, at: Stamp)
    requires place in rows && now.status == Released && now.project == rows[place].project
    ensures var after := WithSuperseded(rows, ReleasedBeside(rows, place), at)[place := now];
      && PackageView(after) == Life.AfterSeal(PackageView(rows), place, now.version)
      && forall p :: p in rows && p != place ==> Core(after[p]) == Core(rows[p])
  {
  }

  /** What going through means for the row and the version. */
  lemma ReleasedIsShipped(rows: map<nat, Package>, assets: map<nat, Asset>, r: Releasing)
    requires ReleaseEffect(rows, assets, r).0.PackageReleased?
    ensures r.package in rows && rows[r.package].status == ReadyToRelease
    ensures r.confirm == Life.NextVersion(PackageView(rows), rows[r.package].project)
    ensures ReleaseEffect(rows, assets, r) ==
      (PackageReleased(r.confirm, ReleasedBeside(rows, r.package)),
       WithSuperseded(rows, ReleasedBeside(rows, r.package), r.at)
         [r.package := ReleasedForm(rows[r.package], r.confirm, r)],
       WithFrozen(assets, r.final(r.confirm).shipped, r.at))
  {
  }

  /** Everything the package ships is there, of this run, and not frozen. */
  ghost predicate ShipsOnlyUnfrozen(assets: map<nat, Asset>, shipped: set<nat>, run: Uuid) {
    forall p :: p in shipped ==> p in assets && assets[p].creativeRun == run && assets[p].frozenAt.None?
  }

  lemma FreezableExactly(assets: map<nat, Asset>, shipped: set<nat>, run: Uuid)
    ensures shipped <= Freezable(assets, shipped, run) <==> ShipsOnlyUnfrozen(assets, shipped, run)
  {
    forall p | p in shipped
      ensures p in Freezable(assets, shipped, run) <==>
        p in assets && assets[p].creativeRun == run && assets[p].frozenAt.None?
    {
    }
  }

  /** When a request releases a package. */
  lemma ReleasedExactly(rows: map<nat, Package>, assets: map<nat, Asset>, r: Releasing)
    ensures ReleaseEffect(rows, assets, r).0.PackageReleased? <==>
      && r.package in rows
      && rows[r.package].status == ReadyToRelease
      && r.readable
      && !rows[r.package].planSuperseded && r.plan.Some? && r.plan.value != PlanSuperseded
      && r.current
      && r.blocking == 0
      && r.confirm == Life.NextVersion(PackageView(rows), rows[r.package].project)
      && ShipsOnlyUnfrozen(assets, r.final(r.confirm).shipped, rows[r.package].creativeRun)
      && r.filesMatch
  {
    if r.package in rows {
      FreezableExactly(assets, r.final(r.confirm).shipped, rows[r.package].creativeRun);
    }
  }

  /** Why a request is refused: each answer is the first condition that fails, in this
      order, and neither table moves. */
  lemma RefusedExactly(rows: map<nat, Package>, assets: map<nat, Asset>, r: Releasing)
    requires r.package in rows
    ensures var row := rows[r.package];
      var version := Life.NextVersion(PackageView(rows), row.project);
      var outcome := ReleaseEffect(rows, assets, r).0;
      var ready := row.status == ReadyToRelease;
      var readable := ready && r.readable;
      var planned := readable && !row.planSuperseded && r.plan.Some? && r.plan.value != PlanSuperseded;
      var current := planned && r.current;
      var passed := current && r.blocking == 0;
      var confirmed := passed && r.confirm == version;
      var unfrozen := confirmed && ShipsOnlyUnfrozen(assets, r.final(r.confirm).shipped, row.creativeRun);
      && outcome != PackageNotFound
      && (outcome == NotReleasable(row.status) <==> !ready)
      && (outcome == RunUnreadable <==> ready && !readable)
      && (outcome == PlanIsSuperseded <==> readable && !planned)
      && (outcome == PackageStale <==> planned && !current)
      && (outcome == ChecksFailed <==> current && !passed)
      && (outcome == VersionMismatch(version) <==> passed && !confirmed)
      && (outcome == AssetFrozen <==> confirmed && !unfrozen)
      && (outcome == FilesDiffer <==> unfrozen && !r.filesMatch)
    ensures !ReleaseEffect(rows, assets, r).0.PackageReleased? ==>
      ReleaseEffect(rows, assets, r).1 == rows && ReleaseEffect(rows, assets, r).2 == assets
  {
    FreezableExactly(assets, r.final(r.confirm).shipped, rows[r.package].creativeRun);
  }

  lemma UnknownIsNotFound(rows: map<nat, Package>, assets: map<nat, Asset>, r: Releasing)
    ensures ReleaseEffect(rows, assets, r).0 == PackageNotFound <==> r.package !in rows
    ensures r.package !in rows ==>
      ReleaseEffect(rows, assets, r).1 == rows && ReleaseEffect(rows, assets, r).2 == assets
  {
    if r.package in rows {
      RefusedExactly(rows, assets, r);
    }
  }

  /** The released row, column by column: what the release writes, and the rest as it was. */
  lemma ReleasedRow(rows: map<nat, Package>, assets: map<nat, Asset>, r: Releasing)
    requires ReleaseEffect(rows, assets, r).0.PackageReleased?
    ensures var was, final := rows[r.package], r.final(r.confirm);
      var after := ReleaseEffect(rows, assets, r).1;
      && r.package in after
      && after[r.package] == Package(
           was.id, was.workspace, was.project, was.creativeRun, was.schemaVersion, r.confirm, Released,
           was.plan, was.planVersion, was.guideline, was.rulesetVersion, was.briefHash,
           final.payload, Some(final.manifest), Some(final.hash),
           Some(r.at), Some(r.actor), Some(final.approvals),
           was.planSuperseded, was.rulesetSuperseded, was.cost, was.created, r.at)
  {
    ReleasedIsShipped(rows, assets, r);
  }

  /** The other rows: a released one of the same project is superseded, by its status and
      time of update alone, and no other moves; no asset moves that is not shipped. */
  lemma ReleaseLeavesTheRest(rows: map<nat, Package>, assets: map<nat, Asset>, r: Releasing, p: nat)
    requires ReleaseEffect(rows, assets, r).0.PackageReleased?
    ensures var (outcome, after, afterAssets) := ReleaseEffect(rows, assets, r);
      && after.Keys == rows.Keys && afterAssets.Keys == assets.Keys
      && (p in rows && p != r.package ==>
            && (p in outcome.superseded <==> rows[p].project == rows[r.package].project && rows[p].status == Released)
            && after[p] ==
                 if p in outcome.superseded then rows[p].(status := PackageSuperseded, updated := r.at) else rows[p])
      && (p in assets && p !in r.final(r.confirm).shipped ==> afterAssets[p] == assets[p])
  {
    ReleasedIsShipped(rows, assets, r);
  }

  /** A release that goes through is one sealing step of the version lifecycle, so the
      partial unique index never refuses it; every other package keeps every column
      but the excused ones. */
  lemma ReleaseIsASeal(rows: map<nat, Package>, assets: map<nat, Asset>, r: Releasing)
    requires ReleaseEffect(rows, assets, r).0.PackageReleased?
    ensures var (outcome, after, _) := ReleaseEffect(rows, assets, r);
      && Life.Writable(Life.Packages, PackageView(rows)[r.package])
      && outcome.version == Life.NextVersion(PackageView(rows), rows[r.package].project)
      && PackageView(after) == Life.AfterSeal(PackageView(rows), r.package, outcome.version)
      && (Life.MintedIsUnique(PackageView(rows)) ==> Life.MintedIsUnique(PackageView(after)))
      && forall p :: p in rows && p != r.package ==> Core(after[p]) == Core(rows[p])
  {
    ReleasedIsShipped(rows, assets, r);
    SealedView(rows, r.package, ReleasedForm(rows[r.package], r.confirm, r), r.at);
    if Life.MintedIsUnique(PackageView(rows)) {
      Life.SealKeepsUnique(PackageView(rows), r.package);
    }
  }

  /** What a released package ships is frozen in the same transaction, and from then on
      no accepted update, whatever the run, changes it. */
  lemma ShippedAssetsNeverChange(
    rows: map<nat, Package>, assets: map<nat, Asset>, r: Releasing, later: seq<Statement<Asset>>, p: nat)
    requires ReleaseEffect(rows, assets, r).0.PackageReleased?
    requires p in r.final(r.confirm).shipped && Delete(p) !in later
    requires Accepted(AssetGuard, ReleaseEffect(rows, assets, r).2, later)
    ensures p in assets && assets[p].frozenAt.None? && assets[p].creativeRun == rows[r.package].creativeRun
    ensures p in Play(ReleaseEffect(rows, assets, r).2, later)
    ensures Play(ReleaseEffect(rows, assets, r).2, later)[p] == assets[p].(frozenAt := Some(r.at), updated := r.at)
  {
    var after := ReleaseEffect(rows, assets, r).2;
    assert p in Freezable(assets, r.final(r.confirm).shipped, rows[r.package].creativeRun);
    FrozenAssetNeverChanges(after, later, p);
  }

  /** So two releases never ship the same asset. */
  lemma AnAssetShipsOnce(
    rows: map<nat, Package>, assets: map<nat, Asset>, first: Releasing,
    later: map<nat, Package>, between: seq<Statement<Asset>>, second: Releasing, p: nat)
    requires ReleaseEffect(rows, assets, first).0.PackageReleased?
    requires p in first.final(first.confirm).shipped && Delete(p) !in between
    requires Accepted(AssetGuard, ReleaseEffect(rows, assets, first).2, between)
    requires ReleaseEffect(later, Play(ReleaseEffect(rows, assets, first).2, between), second).0.PackageReleased?
    ensures p !in second.final(second.confirm).shipped
  {
    var now := Play(ReleaseEffect(rows, assets, first).2, between);
    ShippedAssetsNeverChange(rows, assets, first, between, p);
    assert now[p].frozenAt.Some?;
  }
}
