/**
 The eight immutability triggers (migrations 0013, 0016 and 0020) and what each of
 them keeps over every run of accepted statements.
 */
module SealedRows {
  import opened Prelude
  import opened GuardedTable

  type Uuid = nat
  type Stamp = int
  type Json = string

  // ----- rows -------------------------------------------------------------------------

  datatype PlanStatus = PlanDraft | PlanBlocked | ReadyToFreeze | Frozen | PlanSuperseded

  datatype Plan = Plan(
    id: Uuid, project: Uuid, planRun: Uuid, acceptance: Uuid, schemaVersion: string, version: int, status: PlanStatus,
    payload: Json, markdown: string, frozenAt: Option<Stamp>, frozenBy: Option<Uuid>,
    frozenApprovals: Option<seq<Uuid>>, sourceSuperseded: bool, updated: Stamp)

  datatype GuidelineStatus = GuidelineDraft | GuidelineBlocked | ReadyToPublish | Published | GuidelineSuperseded

  datatype Guideline = Guideline(
    id: Uuid, project: Uuid, guidelineRun: Uuid, schemaVersion: string, major: int, minor: int, status: GuidelineStatus,
    bindings: Json, payload: Option<Json>, markdown: Option<string>, ruleset: Option<Uuid>,
    publishedAt: Option<Stamp>, publishedBy: Option<Uuid>, signatureStale: bool, bindingSuperseded: bool,
    updated: Stamp)

  datatype RuleSet = RuleSet(
    id: Uuid, project: Uuid, guideline: Uuid, rulesetVersion: string, compiled: Json,
    compilerVersion: string, constantsVersion: string, ruleCount: int, hash: string, created: Stamp)

  datatype Signature = Signature(
    id: Uuid, workspace: Uuid, project: Uuid, signer: Uuid, claims: seq<Uuid>, setHash: string, decisions: Json,
    statement: string, signMethod: string, reauthToken: string, ip: Option<string>, userAgent: Option<string>,
    signed: Stamp, expires: Option<Stamp>, created: Stamp,
    voidedAt: Option<Stamp>, voidedBy: Option<Uuid>, voidReason: Option<string>)

  datatype Brief = Brief(
    id: Uuid, creativeRun: Uuid, schemaVersion: string, payload: Json, markdown: string, briefHash: string,
    approval: Option<Uuid>, approvedHash: Option<string>, updated: Stamp)

  datatype Asset = Asset(
    id: Uuid, creativeRun: Uuid, node: string, kind: string, surface: string, text: Option<string>, fields: Json,
    status: string, lint: Option<Json>, lineage: Json, contentHash: string, frozenAt: Option<Stamp>, updated: Stamp)

  datatype PackageStatus = PackageDraft | PackageBlocked | ReadyToRelease | Released | PackageSuperseded

  datatype Package = Package(
    id: Uuid, workspace: Uuid, project: Uuid, creativeRun: Uuid, schemaVersion: string, version: int,
    status: PackageStatus,
    plan: Uuid, planVersion: int, guideline: Uuid, rulesetVersion: string, briefHash: Option<string>,
    payload: Json, manifest: Option<Json>, packageHash: Option<string>,
    releasedAt: Option<Stamp>, releasedBy: Option<Uuid>, releasedApprovals: Option<seq<Uuid>>,
    planSuperseded: bool, rulesetSuperseded: bool, cost: int, created: Stamp, updated: Stamp)

  datatype Decision = Decision(
    id: Uuid, approval: Uuid, asset: Uuid, round: int, choice: string, checklist: Json, note: Option<string>,
    modelOverride: Option<string>, paramsOverride: Option<Json>, decidedBy: Uuid, decidedAt: Stamp)

  // ----- triggers: true lets the update through ------------------------------------------

  predicate PlanGuard(was: Plan, now: Plan) {
    !(was.status.Frozen?
      && (now.payload != was.payload || now.markdown != was.markdown || now.version != was.version))
  }

  predicate GuidelineGuard(was: Guideline, now: Guideline) {
    !(was.status.Published?
      && (now.payload != was.payload || now.markdown != was.markdown || now.ruleset != was.ruleset
          || now.major != was.major || now.minor != was.minor))
  }

  predicate RuleSetGuard(was: RuleSet, now: RuleSet) {
    false
  }

  predicate SignatureGuard(was: Signature, now: Signature) {
    !(now != was
      && (now.id != was.id || now.workspace != was.workspace || now.project != was.project
          || now.signer != was.signer || now.claims != was.claims || now.setHash != was.setHash
          || now.decisions != was.decisions || now.statement != was.statement || now.signMethod != was.signMethod
          || now.reauthToken != was.reauthToken || now.ip != was.ip || now.userAgent != was.userAgent
          || now.signed != was.signed || now.expires != was.expires || now.created != was.created))
  }

  predicate BriefGuard(was: Brief, now: Brief) {
    !(was.approvedHash.Some?
      && (now.payload != was.payload || now.markdown != was.markdown || now.briefHash != was.briefHash))
  }

  predicate AssetGuard(was: Asset, now: Asset) {
    was.frozenAt.None?
  }

  /** The row without the four excused columns. */
  function Core(p: Package): Package {
    p.(status := PackageDraft, planSuperseded := false, rulesetSuperseded := false, updated := 0)
  }

  predicate PackageGuard(was: Package, now: Package) {
    !(was.status.Released? && Core(now) != Core(was))
  }

  predicate DecisionGuard(was: Decision, now: Decision) {
    false
  }

  // ----- what each trigger leaves free ---------------------------------------------------------

  /** A released package may move in four columns and in no other. */
  lemma ReleasedPackageMayMove(was: Package, now: Package)
    requires was.status == Released
    ensures PackageGuard(was, now) <==>
      now == was.(
        status := now.status,
        planSuperseded := now.planSuperseded,
        rulesetSuperseded := now.rulesetSuperseded,
        updated := now.updated)
  {
    var moved := was.(
      status := now.status,
      planSuperseded := now.planSuperseded,
      rulesetSuperseded := now.rulesetSuperseded,
      updated := now.updated);
    assert Core(moved) == Core(was);
    if Core(now) == Core(was) {
      assert now == Core(now).(
        status := now.status,
        planSuperseded := now.planSuperseded,
        rulesetSuperseded := now.rulesetSuperseded,
        updated := now.updated);
    }
  }

  /** A signature may be voided and changed in no other way. */
  lemma SignatureMayBeVoided(was: Signature, now: Signature)
    ensures SignatureGuard(was, now) <==>
      now == was.(voidedAt := now.voidedAt, voidedBy := now.voidedBy, voidReason := now.voidReason)
  {
    var voided := was.(voidedAt := now.voidedAt, voidedBy := now.voidedBy, voidReason := now.voidReason);
    assert SignatureGuard(was, now) ==> now == voided;
  }

  /** Unsealed rows of the other kinds may become anything; sealed ones may move in any column
      but those named. */
  lemma SealedRowsMayMove(p: Plan, q: Plan, g: Guideline, h: Guideline, b: Brief, c: Brief, unreleased: Package)
    ensures PlanGuard(p, q) <==> (p.status != Frozen || SamePlan(p, q))
    ensures GuidelineGuard(g, h) <==> (g.status != Published || SameGuideline(g, h))
    ensures BriefGuard(b, c) <==> (b.approvedHash == None || SameBrief(b, c))
    ensures unreleased.status != Released ==> forall now :: PackageGuard(unreleased, now)
  {
  }

  // ----- permanent seals ---------------------------------------------------------------------

  predicate Always<R>(row: R) {
    true
  }

  predicate Same<R(==)>(a: R, b: R) {
    a == b
  }

  /** A compiled rule set never changes. */
  lemma RuleSetNeverChanges(rows: map<nat, RuleSet>, run: seq<Statement<RuleSet>>, place: nat)
    requires Accepted(RuleSetGuard, rows, run) && place in rows && Delete(place) !in run
    ensures place in Play(rows, run) && Play(rows, run)[place] == rows[place]
  {
    PermanentSeal(RuleSetGuard, Always, Same, rows, run, place);
  }

  /** A reviewer's decision never changes. */
  lemma DecisionNeverChanges(rows: map<nat, Decision>, run: seq<Statement<Decision>>, place: nat)
    requires Accepted(DecisionGuard, rows, run) && place in rows && Delete(place) !in run
    ensures place in Play(rows, run) && Play(rows, run)[place] == rows[place]
  {
    PermanentSeal(DecisionGuard, Always, Same, rows, run, place);
  }

  /** An asset never changes once it is frozen; in particular it is never unfrozen. */
  lemma FrozenAssetNeverChanges(rows: map<nat, Asset>, run: seq<Statement<Asset>>, place: nat)
    requires Accepted(AssetGuard, rows, run) && Delete(place) !in run
    requires place in rows && rows[place].frozenAt.Some?
    ensures place in Play(rows, run) && Play(rows, run)[place] == rows[place]
  {
    PermanentSeal(AssetGuard, (a: Asset) => a.frozenAt.Some?, Same, rows, run, place);
  }

  /** What a signature attests, without the three columns that void it. */
  function Attested(s: Signature): Signature {
    s.(voidedAt := None, voidedBy := None, voidReason := None)
  }

  /** A signature keeps every column but the three that void it, for good. */
  lemma SignatureKeepsWhatItAttests(rows: map<nat, Signature>, run: seq<Statement<Signature>>, place: nat)
    requires Accepted(SignatureGuard, rows, run) && place in rows && Delete(place) !in run
    ensures place in Play(rows, run) && Attested(Play(rows, run)[place]) == Attested(rows[place])
  {
    PermanentSeal(SignatureGuard, Always, (a: Signature, b: Signature) => Attested(a) == Attested(b), rows, run, place);
  }

  // ----- seals that last as long as the status ---------------------------------------------------

  predicate IsFrozen(p: Plan) {
    p.status.Frozen?
  }

  predicate SamePlan(a: Plan, b: Plan) {
    a.payload == b.payload && a.markdown == b.markdown && a.version == b.version
  }

  /** A plan's payload, markdown and version are the same at both ends of any run it
      stays frozen through. */
  lemma FrozenPlanIsSealed(rows: map<nat, Plan>, run: seq<Statement<Plan>>, place: nat)
    requires Accepted(PlanGuard, rows, run) && SealedThroughout(IsFrozen, rows, run, place)
    ensures place in Play(rows, run) && SamePlan(rows[place], Play(rows, run)[place])
  {
    SealHolds(PlanGuard, IsFrozen, SamePlan, rows, run, place);
  }

  predicate IsPublished(g: Guideline) {
    g.status.Published?
  }

  predicate SameGuideline(a: Guideline, b: Guideline) {
    && a.payload == b.payload && a.markdown == b.markdown && a.ruleset == b.ruleset
    && a.major == b.major && a.minor == b.minor
  }

  lemma PublishedGuidelineIsSealed(rows: map<nat, Guideline>, run: seq<Statement<Guideline>>, place: nat)
    requires Accepted(GuidelineGuard, rows, run) && SealedThroughout(IsPublished, rows, run, place)
    ensures place in Play(rows, run) && SameGuideline(rows[place], Play(rows, run)[place])
  {
    SealHolds(GuidelineGuard, IsPublished, SameGuideline, rows, run, place);
  }

  predicate IsReleased(p: Package) {
    p.status.Released?
  }

  /** A package keeps every column but its status, its two banners and its time of
      update for as long as it stays released. */
  lemma ReleasedPackageIsSealed(rows: map<nat, Package>, run: seq<Statement<Package>>, place: nat)
    requires Accepted(PackageGuard, rows, run) && SealedThroughout(IsReleased, rows, run, place)
    ensures place in Play(rows, run) && Core(Play(rows, run)[place]) == Core(rows[place])
  {
    SealHolds(PackageGuard, IsReleased, (a: Package, b: Package) => Core(a) == Core(b), rows, run, place);
  }

  predicate IsApproved(b: Brief) {
    b.approvedHash.Some?
  }

  predicate SameBrief(a: Brief, b: Brief) {
    a.payload == b.payload && a.markdown == b.markdown && a.briefHash == b.briefHash
  }

  lemma ApprovedBriefIsSealed(rows: map<nat, Brief>, run: seq<Statement<Brief>>, place: nat)
    requires Accepted(BriefGuard, rows, run) && SealedThroughout(IsApproved, rows, run, place)
    ensures place in Play(rows, run) && SameBrief(rows[place], Play(rows, run)[place])
  {
    SealHolds(BriefGuard, IsApproved, SameBrief, rows, run, place);
  }

  // ----- and no longer ------------------------------------------------------------------------------

  /** The primary key and the unique columns of each table. */
  predicate PlansClash(a: Plan, b: Plan) {
    a.id == b.id || a.planRun == b.planRun || (a.project == b.project && a.version == b.version > 0)
  }

  predicate GuidelinesClash(a: Guideline, b: Guideline) {
    || a.id == b.id
    || a.guidelineRun == b.guidelineRun
    || (a.project == b.project && a.major == b.major && a.minor == b.minor)
  }

  predicate PackagesClash(a: Package, b: Package) {
    a.id == b.id || a.creativeRun == b.creativeRun || (a.project == b.project && a.version == b.version > 0)
  }

  predicate BriefsClash(a: Brief, b: Brief) {
    a.id == b.id || a.creativeRun == b.creativeRun
  }

  /** Every row of every table whose seal is read off a column it may leave: a plan, a
      guideline, a package or a brief can become, sealed again or not, any row whose
      keys are free, by updates the triggers accept, and no other. The content is safe
      exactly as long as the row stays sealed. */
  lemma PlanCanBeRewritten(rows: map<nat, Plan>, place: nat, other: Plan)
    requires place in rows && Keyed(PlansClash, rows)
    ensures Rewritable(PlanGuard, PlansClash, rows, place, other) <==> Keyed(PlansClash, rows[place := other])
  {
    RewritableExactly(PlanGuard, PlansClash, rows, place, rows[place].(status := PlanSuperseded), other);
  }

  lemma GuidelineCanBeRewritten(rows: map<nat, Guideline>, place: nat, other: Guideline)
    requires place in rows && Keyed(GuidelinesClash, rows)
    ensures Rewritable(GuidelineGuard, GuidelinesClash, rows, place, other) <==>
      Keyed(GuidelinesClash, rows[place := other])
  {
    var out := rows[place].(status := GuidelineSuperseded);
    RewritableExactly(GuidelineGuard, GuidelinesClash, rows, place, out, other);
  }

  lemma PackageCanBeRewritten(rows: map<nat, Package>, place: nat, other: Package)
    requires place in rows && Keyed(PackagesClash, rows)
    ensures Rewritable(PackageGuard, PackagesClash, rows, place, other) <==> Keyed(PackagesClash, rows[place := other])
  {
    RewritableExactly(PackageGuard, PackagesClash, rows, place, rows[place].(status := PackageSuperseded), other);
  }

  lemma BriefCanBeRewritten(rows: map<nat, Brief>, place: nat, other: Brief)
    requires place in rows && Keyed(BriefsClash, rows)
    ensures Rewritable(BriefGuard, BriefsClash, rows, place, other) <==> Keyed(BriefsClash, rows[place := other])
  {
    RewritableExactly(BriefGuard, BriefsClash, rows, place, rows[place].(approvedHash := None), other);
  }

  // ----- foreign-key actions fire the triggers too ---------------------------------------------------

  /** Deleting a user sets `released_by` to null on every package they released, and one
      refused row refuses the deletion. `restricted` holds the users some restricting
      key of another row names: who published, signed, voided, owns, decided, accepted. */
  predicate UserMayGo(rows: map<nat, Package>, restricted: set<Uuid>, user: Uuid) {
    && user !in restricted
    && forall place :: place in rows && rows[place].releasedBy == Some(user) ==>
         PackageGuard(rows[place], rows[place].(releasedBy := None))
  }

  /** The user who released a package cannot be deleted while it is released: the
      foreign key says SET NULL, the trigger excuses no such column. */
  lemma ReleaserStaysExactlyWhile(rows: map<nat, Package>, restricted: set<Uuid>, user: Uuid)
    ensures UserMayGo(rows, restricted, user) <==>
      && user !in restricted
      && forall place :: place in rows && rows[place].releasedBy == Some(user) ==> rows[place].status != Released
  {
    forall place | place in rows && rows[place].releasedBy == Some(user)
      ensures PackageGuard(rows[place], rows[place].(releasedBy := None)) <==> rows[place].status != Released
    {
      assert Core(rows[place].(releasedBy := None)).releasedBy != Core(rows[place]).releasedBy;
    }
  }

  /** One package somebody released, and nothing else that names them. */
  lemma AReleaserCannotBeDeleted(p: Package, user: Uuid)
    ensures !UserMayGo(map[0 := p.(status := Released, releasedBy := Some(user))], {}, user)
    ensures UserMayGo(map[0 := p.(status := PackageSuperseded, releasedBy := Some(user))], {}, user)
  {
    var released := map[0 := p.(status := Released, releasedBy := Some(user))];
    ReleaserStaysExactlyWhile(released, {}, user);
    assert released[0].releasedBy == Some(user);
    ReleaserStaysExactlyWhile(map[0 := p.(status := PackageSuperseded, releasedBy := Some(user))], {}, user);
  }
}
