/**
 The `content_guideline` and `rule_set` tables together (migration 0016): each points
 at the other, one by ON DELETE SET NULL and the other by ON DELETE CASCADE, and the
 triggers fire on what the foreign keys do.
 */
module PinnedRuleset {
  import opened Prelude
  import GuardedTable
  import opened SealedRows

  /** `packaged` holds the ids of the guidelines some creative package names, by a key
      with no action. */
  datatype Rulebook = Rulebook(guidelines: map<nat, Guideline>, rulesets: map<nat, RuleSet>, packaged: set<Uuid>)

  datatype Change =
    | InsertGuideline(place: nat, guideline: Guideline)
    | UpdateGuideline(place: nat, guideline: Guideline)
    | DeleteGuideline(place: nat)
    | InsertRuleSet(place: nat, ruleset: RuleSet)
    | UpdateRuleSet(place: nat, ruleset: RuleSet)
    | DeleteRuleSet(place: nat)

  predicate HasRuleSet(db: Rulebook, id: Uuid) {
    exists q :: q in db.rulesets && db.rulesets[q].id == id
  }

  predicate HasGuideline(db: Rulebook, id: Uuid) {
    exists p :: p in db.guidelines && db.guidelines[p].id == id
  }

  predicate RuleSetsClash(a: RuleSet, b: RuleSet) {
    a.id == b.id || a.hash == b.hash || (a.project == b.project && a.rulesetVersion == b.rulesetVersion)
  }

  /** No row but the one at this place stands in the way. */
  predicate GuidelineFits(db: Rulebook, place: nat, g: Guideline) {
    forall p :: p in db.guidelines && p != place ==> !GuidelinesClash(db.guidelines[p], g)
  }

  predicate RuleSetFits(db: Rulebook, place: nat, r: RuleSet) {
    forall q :: q in db.rulesets && q != place ==> !RuleSetsClash(db.rulesets[q], r)
  }

  ghost predicate Unique(db: Rulebook) {
    GuardedTable.Keyed(GuidelinesClash, db.guidelines) && GuardedTable.Keyed(RuleSetsClash, db.rulesets)
  }

  ghost predicate Resolving(db: Rulebook) {
    && (forall p :: p in db.guidelines && db.guidelines[p].ruleset.Some? ==>
         HasRuleSet(db, db.guidelines[p].ruleset.value))
    && (forall q :: q in db.rulesets ==> HasGuideline(db, db.rulesets[q].guideline))
    && (forall id :: id in db.packaged ==> HasGuideline(db, id))
  }

  /** The unique columns are unique and both foreign keys resolve. */
  ghost predicate Valid(db: Rulebook) {
    Unique(db) && Resolving(db)
  }

  /** Does deleting these rule sets write null into this guideline? */
  predicate Loses(g: Guideline, gone: set<Uuid>) {
    g.ruleset.Some? && g.ruleset.value in gone
  }

  predicate NullsAccepted(guidelines: map<nat, Guideline>, gone: set<Uuid>) {
    forall p :: p in guidelines && Loses(guidelines[p], gone) ==>
      GuidelineGuard(guidelines[p], guidelines[p].(ruleset := None))
  }

  function WithNulls(guidelines: map<nat, Guideline>, gone: set<Uuid>): map<nat, Guideline> {
    map p | p in guidelines :: if Loses(guidelines[p], gone) then guidelines[p].(ruleset := None) else guidelines[p]
  }

  /** The rule sets compiled from a guideline go with it. */
  function CompiledFrom(db: Rulebook, guideline: Uuid): set<nat> {
    set q | q in db.rulesets && db.rulesets[q].guideline == guideline
  }

  function IdsOf(rulesets: map<nat, RuleSet>, places: set<nat>): set<Uuid>
    requires places <= rulesets.Keys
  {
    set q | q in places :: rulesets[q].id
  }

  predicate Accepts(db: Rulebook, c: Change) {
    match c
    case InsertGuideline(place, g) =>
      place !in db.guidelines && GuidelineFits(db, place, g) && (g.ruleset.Some? ==> HasRuleSet(db, g.ruleset.value))
    case UpdateGuideline(place, g) =>
      && place in db.guidelines
      && GuidelineGuard(db.guidelines[place], g)
      && (g.ruleset.Some? ==> HasRuleSet(db, g.ruleset.value))
      && GuidelineFits(db, place, g)
      && (g.id != db.guidelines[place].id ==>
           CompiledFrom(db, db.guidelines[place].id) == {} && db.guidelines[place].id !in db.packaged)
    case DeleteGuideline(place) =>
      && place in db.guidelines && db.guidelines[place].id !in db.packaged
      && NullsAccepted(db.guidelines - {place}, IdsOf(db.rulesets, CompiledFrom(db, db.guidelines[place].id)))
    case InsertRuleSet(place, r) =>
      place !in db.rulesets && RuleSetFits(db, place, r) && HasGuideline(db, r.guideline)
    case UpdateRuleSet(place, r) =>
      place in db.rulesets && RuleSetGuard(db.rulesets[place], r)
    case DeleteRuleSet(place) =>
      place in db.rulesets && NullsAccepted(db.guidelines, {db.rulesets[place].id})
  }

  function Apply(db: Rulebook, c: Change): Rulebook {
    match c
    case InsertGuideline(place, g) => db.(guidelines := db.guidelines[place := g])
    case UpdateGuideline(place, g) => db.(guidelines := db.guidelines[place := g])
    case DeleteGuideline(place) =>
      if place !in db.guidelines then db
      else
        var gone := CompiledFrom(db, db.guidelines[place].id);
        Rulebook(WithNulls(db.guidelines - {place}, IdsOf(db.rulesets, gone)), db.rulesets - gone, db.packaged)
    case InsertRuleSet(place, r) => db.(rulesets := db.rulesets[place := r])
    case UpdateRuleSet(place, r) => db.(rulesets := db.rulesets[place := r])
    case DeleteRuleSet(place) =>
      if place !in db.rulesets then db
      else Rulebook(WithNulls(db.guidelines, {db.rulesets[place].id}), db.rulesets - {place}, db.packaged)
  }

  class Tables {
    var guidelines: map<nat, Guideline>
    var rulesets: map<nat, RuleSet>
    const packaged: set<Uuid>

    constructor (db: Rulebook)
      ensures Model() == db
    {
      guidelines, rulesets, packaged := db.guidelines, db.rulesets, db.packaged;
    }

    function Model(): Rulebook
      reads this
    {
      Rulebook(guidelines, rulesets, packaged)
    }

    /** ON DELETE SET NULL, one row after another; the first refusal stops it. */
    method NullOut(gone: set<Uuid>) returns (ok: bool)
      modifies this`guidelines
      ensures ok <==> NullsAccepted(old(guidelines), gone)
      ensures ok ==> guidelines == WithNulls(old(guidelines), gone)
    {
      var todo := guidelines.Keys;
      while todo != {}
        invariant todo <= guidelines.Keys == old(guidelines).Keys
        invariant forall p :: p in todo ==> guidelines[p] == old(guidelines)[p]
        invariant forall p :: p in guidelines && p !in todo ==> guidelines[p] == WithNulls(old(guidelines), gone)[p]
        invariant forall p :: p in guidelines && p !in todo && Loses(old(guidelines)[p], gone) ==>
          GuidelineGuard(old(guidelines)[p], old(guidelines)[p].(ruleset := None))
        decreases todo
      {
        var p :| p in todo;
        todo := todo - {p};
        if Loses(guidelines[p], gone) {
          var now := guidelines[p].(ruleset := None);
          if !GuidelineGuard(guidelines[p], now) {
            return false;
          }
          guidelines := guidelines[p := now];
        }
      }
      ok := true;
    }

    /** A refused statement raises, and nothing it did stays. */
    method Execute(c: Change) returns (ok: bool)
      modifies this
      ensures ok <==> Accepts(old(Model()), c)
      ensures Model() == if ok then Apply(old(Model()), c) else old(Model())
    {
      var before := Model();
      match c {
        case DeleteGuideline(place) =>
          if place !in guidelines || guidelines[place].id in packaged {
            return false;
          }
          var gone := CompiledFrom(before, guidelines[place].id);
          guidelines := guidelines - {place};
          ok := NullOut(IdsOf(rulesets, gone));
          rulesets := rulesets - gone;
        case DeleteRuleSet(place) =>
          if place !in rulesets {
            return false;
          }
          ok := NullOut({rulesets[place].id});
          rulesets := rulesets - {place};
        case _ =>
          ok := Accepts(before, c);
          guidelines, rulesets := Apply(before, c).guidelines, Apply(before, c).rulesets;
      }
      if !ok {
        guidelines, rulesets := before.guidelines, before.rulesets;
      }
    }
  }

  // ----- the foreign keys always resolve ------------------------------------------------

  lemma ClashesAreMutual()
    ensures forall a, b :: GuidelinesClash(a, b) <==> GuidelinesClash(b, a)
    ensures forall a, b :: RuleSetsClash(a, b) <==> RuleSetsClash(b, a)
  {
  }

  lemma GuidelineKeysHold(db: Rulebook, place: nat, g: Guideline)
    requires Unique(db) && GuidelineFits(db, place, g)
    ensures GuardedTable.Keyed(GuidelinesClash, db.guidelines[place := g])
  {
    ClashesAreMutual();
  }

  lemma RuleSetKeysHold(db: Rulebook, place: nat, r: RuleSet)
    requires Unique(db) && RuleSetFits(db, place, r)
    ensures GuardedTable.Keyed(RuleSetsClash, db.rulesets[place := r])
  {
    ClashesAreMutual();
  }

  lemma KeysSurviveRemoval(db: Rulebook, guidelines: map<nat, Guideline>, gone: set<nat>, ids: set<Uuid>)
    requires Unique(db)
    requires guidelines.Keys <= db.guidelines.Keys && forall p :: p in guidelines ==> guidelines[p] == db.guidelines[p]
    ensures Unique(Rulebook(WithNulls(guidelines, ids), db.rulesets - gone, db.packaged))
  {
    var after := WithNulls(guidelines, ids);
    forall p, q | p in after && q in after && p != q
      ensures !GuidelinesClash(after[p], after[q])
    {
      assert !GuidelinesClash(db.guidelines[p], db.guidelines[q]);
    }
  }

  lemma InsertKeepsValid(db: Rulebook, c: Change)
    requires Valid(db) && Accepts(db, c) && (c.InsertGuideline? || c.InsertRuleSet?)
    ensures Valid(Apply(db, c))
  {
    match c {
      case InsertGuideline(place, g) => GuidelineKeysHold(db, place, g);
      case InsertRuleSet(place, r) => RuleSetKeysHold(db, place, r);
    }
    InsertKeepsResolving(db, c);
  }

  lemma InsertKeepsResolving(db: Rulebook, c: Change)
    requires Resolving(db) && Accepts(db, c) && (c.InsertGuideline? || c.InsertRuleSet?)
    ensures Resolving(Apply(db, c))
  {
    var after := Apply(db, c);
    forall id | HasRuleSet(db, id)
      ensures HasRuleSet(after, id)
    {
      var q :| q in db.rulesets && db.rulesets[q].id == id;
      assert q in after.rulesets && after.rulesets[q].id == id;
    }
    forall id | HasGuideline(db, id)
      ensures HasGuideline(after, id)
    {
      var p :| p in db.guidelines && db.guidelines[p].id == id;
      assert p in after.guidelines && after.guidelines[p].id == id;
    }
  }

  /** An update leaves every guideline id that anything names. */
  lemma UpdateKeepsNamed(db: Rulebook, place: nat, g: Guideline, id: Uuid)
    requires Accepts(db, UpdateGuideline(place, g)) && HasGuideline(db, id)
    requires id in db.packaged || exists q :: q in db.rulesets && db.rulesets[q].guideline == id
    ensures HasGuideline(Apply(db, UpdateGuideline(place, g)), id)
  {
    var after := Apply(db, UpdateGuideline(place, g));
    var p :| p in db.guidelines && db.guidelines[p].id == id;
    if q :| q in db.rulesets && db.rulesets[q].guideline == id {
      assert q in CompiledFrom(db, id);
    }
    assert p in after.guidelines && after.guidelines[p].id == id;
  }

  lemma UpdateKeepsValid(db: Rulebook, place: nat, g: Guideline)
    requires Valid(db) && Accepts(db, UpdateGuideline(place, g))
    ensures Valid(Apply(db, UpdateGuideline(place, g)))
  {
    var after := Apply(db, UpdateGuideline(place, g));
    GuidelineKeysHold(db, place, g);
    assert forall id :: HasRuleSet(db, id) ==> HasRuleSet(after, id);
    forall q | q in after.rulesets
      ensures HasGuideline(after, after.rulesets[q].guideline)
    {
      UpdateKeepsNamed(db, place, g, db.rulesets[q].guideline);
    }
    forall id | id in after.packaged
      ensures HasGuideline(after, id)
    {
      UpdateKeepsNamed(db, place, g, id);
    }
  }

  lemma NullsResolve(db: Rulebook, guidelines: map<nat, Guideline>, gone: set<nat>, p: nat)
    requires Resolving(db) && gone <= db.rulesets.Keys && p in guidelines && p in db.guidelines
      && guidelines[p] == db.guidelines[p]
    ensures var after := Rulebook(WithNulls(guidelines, IdsOf(db.rulesets, gone)), db.rulesets - gone, db.packaged);
      after.guidelines[p].ruleset.Some? ==> HasRuleSet(after, after.guidelines[p].ruleset.value)
  {
    var after := Rulebook(WithNulls(guidelines, IdsOf(db.rulesets, gone)), db.rulesets - gone, db.packaged);
    if after.guidelines[p].ruleset.Some? {
      var id := db.guidelines[p].ruleset.value;
      assert HasRuleSet(db, id);
      var q :| q in db.rulesets && db.rulesets[q].id == id;
      assert q in after.rulesets && after.rulesets[q].id == id;
    }
  }

  /** What both deletions come to: some rule sets go, and nobody is left pointing at
      one of them. */
  lemma RemovalKeepsValid(db: Rulebook, guidelines: map<nat, Guideline>, gone: set<nat>)
    requires Valid(db) && gone <= db.rulesets.Keys
    requires guidelines.Keys <= db.guidelines.Keys && forall p :: p in guidelines ==> guidelines[p] == db.guidelines[p]
    requires forall q :: q in db.rulesets && q !in gone ==>
      exists p :: p in guidelines && guidelines[p].id == db.rulesets[q].guideline
    requires forall id :: id in db.packaged ==> exists p :: p in guidelines && guidelines[p].id == id
    ensures Valid(Rulebook(WithNulls(guidelines, IdsOf(db.rulesets, gone)), db.rulesets - gone, db.packaged))
  {
    var after := Rulebook(WithNulls(guidelines, IdsOf(db.rulesets, gone)), db.rulesets - gone, db.packaged);
    KeysSurviveRemoval(db, guidelines, gone, IdsOf(db.rulesets, gone));
    forall p | p in after.guidelines
      ensures after.guidelines[p].id == db.guidelines[p].id
      ensures after.guidelines[p].ruleset.Some? ==> HasRuleSet(after, after.guidelines[p].ruleset.value)
    {
      NullsResolve(db, guidelines, gone, p);
    }
    forall q | q in after.rulesets
      ensures HasGuideline(after, after.rulesets[q].guideline)
    {
      var p :| p in guidelines && guidelines[p].id == db.rulesets[q].guideline;
      assert after.guidelines[p].id == db.rulesets[q].guideline;
    }
    forall id | id in after.packaged
      ensures HasGuideline(after, id)
    {
      var p :| p in guidelines && guidelines[p].id == id;
      assert after.guidelines[p].id == id;
    }
  }

  lemma StepKeepsValid(db: Rulebook, c: Change)
    requires Valid(db) && Accepts(db, c)
    ensures Valid(Apply(db, c))
  {
    match c
    case InsertGuideline(_, _) => InsertKeepsValid(db, c);
    case UpdateGuideline(place, g) => UpdateKeepsValid(db, place, g);
    case DeleteGuideline(place) =>
      var rest := db.guidelines - {place};
      var gone := CompiledFrom(db, db.guidelines[place].id);
      forall q | q in db.rulesets && q !in gone
        ensures exists p :: p in rest && rest[p].id == db.rulesets[q].guideline
      {
        var p :| p in db.guidelines && db.guidelines[p].id == db.rulesets[q].guideline;
        assert p in rest && rest[p].id == db.rulesets[q].guideline;
      }
      forall id | id in db.packaged
        ensures exists p :: p in rest && rest[p].id == id
      {
        assert HasGuideline(db, id);
        var p :| p in db.guidelines && db.guidelines[p].id == id;
        assert p in rest && rest[p].id == id;
      }
      RemovalKeepsValid(db, rest, gone);
    case InsertRuleSet(_, _) => InsertKeepsValid(db, c);
    case UpdateRuleSet(_, _) =>
    case DeleteRuleSet(place) =>
      assert IdsOf(db.rulesets, {place}) == {db.rulesets[place].id};
      RemovalKeepsValid(db, db.guidelines, {place});
  }

  // ----- a published guideline pins its rule set ------------------------------------------

  /** The guideline is published and its rule set is this row. */
  ghost predicate Pins(db: Rulebook, place: nat, r: RuleSet) {
    && place in db.guidelines && db.guidelines[place].status.Published? && db.guidelines[place].ruleset == Some(r.id)
    && exists q :: q in db.rulesets && db.rulesets[q] == r
  }

  lemma RemovalKeepsPin(db: Rulebook, guidelines: map<nat, Guideline>, gone: set<nat>, place: nat, r: RuleSet)
    requires Valid(db) && gone <= db.rulesets.Keys && Pins(db, place, r)
    requires place in guidelines && guidelines[place] == db.guidelines[place]
    requires NullsAccepted(guidelines, IdsOf(db.rulesets, gone))
    ensures Pins(Rulebook(WithNulls(guidelines, IdsOf(db.rulesets, gone)), db.rulesets - gone, db.packaged), place, r)
  {
    var ids := IdsOf(db.rulesets, gone);
    assert !Loses(guidelines[place], ids);
    var q :| q in db.rulesets && db.rulesets[q] == r;
    assert q !in gone by {
      assert q in gone ==> r.id in ids;
    }
    assert q in db.rulesets - gone;
  }

  /** A statement that leaves the guideline in the table leaves it pointing at the same,
      unchanged rule set. */
  lemma StepKeepsPin(db: Rulebook, c: Change, place: nat, r: RuleSet)
    requires Valid(db) && Accepts(db, c) && Pins(db, place, r)
    requires place in Apply(db, c).guidelines
    ensures Apply(db, c).guidelines[place].ruleset == Some(r.id)
    ensures exists q :: q in Apply(db, c).rulesets && Apply(db, c).rulesets[q] == r
  {
    var q :| q in db.rulesets && db.rulesets[q] == r;
    match c
    case InsertGuideline(_, _) =>
    case UpdateGuideline(_, _) =>
    case DeleteGuideline(p) =>
      RemovalKeepsPin(db, db.guidelines - {p}, CompiledFrom(db, db.guidelines[p].id), place, r);
    case InsertRuleSet(p, _) =>
      assert Apply(db, c).rulesets[q] == r;
    case UpdateRuleSet(_, _) =>
    case DeleteRuleSet(p) =>
      assert IdsOf(db.rulesets, {p}) == {db.rulesets[p].id};
      RemovalKeepsPin(db, db.guidelines, {p}, place, r);
  }

  ghost predicate Accepted(db: Rulebook, run: seq<Change>)
    decreases |run|
  {
    run == [] || (Accepts(db, run[0]) && Accepted(Apply(db, run[0]), run[1..]))
  }

  function Play(db: Rulebook, run: seq<Change>): Rulebook
    decreases |run|
  {
    if run == [] then db else Play(Apply(db, run[0]), run[1..])
  }

  /** The guideline is there after every statement, and published before each. */
  ghost predicate PublishedThroughout(db: Rulebook, run: seq<Change>, place: nat)
    decreases |run|
  {
    place in db.guidelines &&
    (run == [] || (db.guidelines[place].status.Published? && PublishedThroughout(Apply(db, run[0]), run[1..], place)))
  }

  /** For as long as a guideline stays published its `ruleset_id` resolves, and to the
      very row it resolved to at first. */
  lemma {:induction false} PublishedRulesetIsPinned(db: Rulebook, run: seq<Change>, place: nat, r: RuleSet)
    requires Valid(db) && Accepted(db, run) && PublishedThroughout(db, run, place)
    requires place in db.guidelines && db.guidelines[place].ruleset == Some(r.id)
    requires exists q :: q in db.rulesets && db.rulesets[q] == r
    ensures Valid(Play(db, run)) && place in Play(db, run).guidelines
    ensures Play(db, run).guidelines[place].ruleset == Some(r.id)
    ensures exists q :: q in Play(db, run).rulesets && Play(db, run).rulesets[q] == r
    decreases |run|
  {
    if run != [] {
      StepKeepsValid(db, run[0]);
      StepKeepsPin(db, run[0], place, r);
      PublishedRulesetIsPinned(Apply(db, run[0]), run[1..], place, r);
    }
  }

  /** A rule set can be deleted exactly when no published guideline points at it. */
  lemma RuleSetMayGoExactly(db: Rulebook, place: nat)
    requires place in db.rulesets
    ensures Accepts(db, DeleteRuleSet(place)) <==>
      forall p :: p in db.guidelines && db.guidelines[p].ruleset == Some(db.rulesets[place].id) ==>
        db.guidelines[p].status != Published
  {
    var gone := {db.rulesets[place].id};
    forall p | p in db.guidelines && Loses(db.guidelines[p], gone)
      ensures GuidelineGuard(db.guidelines[p], db.guidelines[p].(ruleset := None)) <==>
        db.guidelines[p].status != Published
    {
    }
    forall p | p in db.guidelines
      ensures Loses(db.guidelines[p], gone) <==> db.guidelines[p].ruleset == Some(db.rulesets[place].id)
    {
    }
  }
}
