/**
 The life of a version number (migrations 0014 and 0022): a row is written at 0,
 sealing mints one more than the highest of its project, superseding moves the
 status only, and a partial unique index guards what was minted.
 */
module VersionLifecycle {
  import opened Prelude

  /** Open is draft, blocked or ready; Sealed is frozen or released. */
  datatype Phase = Open | Sealed | Superseded

  datatype Entry = Entry(project: nat, version: int, phase: Phase)

  type Rows = map<nat, Entry>

  /** `WHERE version > 0` */
  ghost predicate MintedIsUnique(rows: Rows) {
    forall p, q :: p in rows && q in rows && p != q && rows[p].project == rows[q].project && rows[p].version > 0 ==>
      rows[p].version != rows[q].version
  }

  // ----- max(version) + 1 -------------------------------------------------------------

  ghost predicate IsNext(rows: Rows, project: nat, v: int) {
    && v >= 1
    && (forall p :: p in rows && rows[p].project == project ==> rows[p].version < v)
    && (v > 1 ==> exists p :: p in rows && rows[p].project == project && rows[p].version == v - 1)
  }

  ghost function NextVersion(rows: Rows, project: nat): (v: int)
    ensures IsNext(rows, project, v)
  {
    NextExists(rows, project);
    var v :| IsNext(rows, project, v);
    v
  }

  lemma {:induction false} NextExists(rows: Rows, project: nat)
    ensures exists v :: IsNext(rows, project, v)
    decreases rows.Keys
  {
    if p :| p in rows && rows[p].project == project {
      var rest := rows - {p};
      NextExists(rest, project);
      var v :| IsNext(rest, project, v);
      assert forall q :: q in rows && q != p ==> q in rest;
      var w := if rows[p].version < v then v else rows[p].version + 1;
      assert IsNext(rows, project, w);
    } else {
      assert IsNext(rows, project, 1);
    }
  }

  lemma NextIsUnique(rows: Rows, project: nat, v: int)
    requires IsNext(rows, project, v)
    ensures v == NextVersion(rows, project)
  {
  }

  /** `int(highest or 0) + 1`, over every row of the project whatever its status. */
  method MintVersion(rows: Rows, project: nat) returns (v: int)
    ensures v == NextVersion(rows, project)
  {
    var highest := 0;
    var todo := rows.Keys;
    while todo != {}
      invariant todo <= rows.Keys && highest >= 0
      invariant forall p :: p in rows && p !in todo && rows[p].project == project ==> rows[p].version <= highest
      invariant highest > 0 ==> exists p :: p in rows && rows[p].project == project && rows[p].version == highest
      decreases todo
    {
      var p :| p in todo;
      todo := todo - {p};
      if rows[p].project == project && rows[p].version > highest {
        highest := rows[p].version;
      }
    }
    v := highest + 1;
    NextIsUnique(rows, project, v);
  }

  // ----- lifecycle steps -----------------------------------------------------------------

  /** Where the two lives differ: a plan that is not frozen, superseded or not, may be
      written again and frozen again; only an open package may. */
  datatype Kind = Plans | Packages

  /** `everSealed` records, beside the table, which of its rows were ever sealed. */
  datatype State = State(rows: Rows, everSealed: set<nat>)

  datatype Step = Write(place: nat, project: nat) | Seal(place: nat) | Remove(place: nat)

  predicate Writable(kind: Kind, e: Entry) {
    if kind.Plans? then e.phase != Sealed else e.phase == Open
  }

  predicate Enabled(kind: Kind, s: State, step: Step) {
    match step
    case Write(place, _) => place in s.rows ==> Writable(kind, s.rows[place])
    case Seal(place) => place in s.rows && Writable(kind, s.rows[place])
    case Remove(place) => place in s.rows
  }

  /** Writing a plan again leaves its version; writing a package again resets it. */
  function Written(kind: Kind, rows: Rows, place: nat, project: nat): Entry {
    if place !in rows then Entry(project, 0, Open)
    else if kind.Plans? then rows[place].(phase := Open)
    else rows[place].(phase := Open, version := 0)
  }

  /** Sealing one row supersedes the rest of its project's sealed rows. */
  function AfterSeal(rows: Rows, place: nat, version: int): Rows
    requires place in rows
  {
    map p | p in rows ::
      if p == place then rows[p].(version := version, phase := Sealed)
      else if rows[p].project == rows[place].project && rows[p].phase == Sealed then rows[p].(phase := Superseded)
      else rows[p]
  }

  ghost function Take(kind: Kind, s: State, step: Step): State
    requires Enabled(kind, s, step)
  {
    match step
    case Write(place, project) => s.(rows := s.rows[place := Written(kind, s.rows, place, project)])
    case Seal(place) =>
      State(AfterSeal(s.rows, place, NextVersion(s.rows, s.rows[place].project)), s.everSealed + {place})
    case Remove(place) => State(s.rows - {place}, s.everSealed - {place})
  }

  // ----- what every reachable state keeps ----------------------------------------------------

  ghost predicate OneSealed(rows: Rows) {
    forall p, q :: p in rows && q in rows && rows[p].phase == Sealed && rows[q].phase == Sealed && p != q ==>
      rows[p].project != rows[q].project
  }

  /** `version > 0` tells the rows that were ever sealed. */
  ghost predicate Tells(s: State) {
    && s.everSealed <= s.rows.Keys
    && forall p :: p in s.rows ==> s.rows[p].version >= 0 && (s.rows[p].version > 0 <==> p in s.everSealed)
  }

  /** A sealed row was minted; among packages only open rows hold 0. */
  predicate Fits(kind: Kind, e: Entry) {
    && (e.phase == Sealed ==> e.version > 0)
    && (kind.Packages? ==> (e.phase == Open <==> e.version == 0))
  }

  ghost predicate Inv(kind: Kind, s: State) {
    && Tells(s)
    && MintedIsUnique(s.rows)
    && OneSealed(s.rows)
    && forall p :: p in s.rows ==> Fits(kind, s.rows[p])
  }

  /** Rows that mint nothing and seal nothing cannot clash. */
  lemma NothingNewClashes(rows: Rows, after: Rows)
    requires MintedIsUnique(rows) && OneSealed(rows)
    requires forall p :: p in after && after[p].version > 0 ==>
      p in rows && after[p].version == rows[p].version && after[p].project == rows[p].project
    requires forall p :: p in after && after[p].phase == Sealed ==> p in rows && after[p] == rows[p]
    ensures MintedIsUnique(after) && OneSealed(after)
  {
  }

  lemma WriteKeepsInv(kind: Kind, s: State, place: nat, project: nat)
    requires Inv(kind, s) && Enabled(kind, s, Write(place, project))
    ensures Inv(kind, Take(kind, s, Write(place, project)))
  {
    var after := Take(kind, s, Write(place, project));
    if place in s.rows {
      assert Fits(kind, s.rows[place]);
      assert after.rows[place].version == s.rows[place].version && after.rows[place].project == s.rows[place].project;
    }
    NothingNewClashes(s.rows, after.rows);
    assert Tells(after);
    forall p | p in after.rows
      ensures Fits(kind, after.rows[p])
    {
      assert p != place ==> Fits(kind, s.rows[p]);
    }
  }

  lemma SealKeepsUnique(rows: Rows, place: nat)
    requires MintedIsUnique(rows) && place in rows
    ensures MintedIsUnique(AfterSeal(rows, place, NextVersion(rows, rows[place].project)))
  {
  }

  lemma SealKeepsInv(kind: Kind, s: State, place: nat)
    requires Inv(kind, s) && Enabled(kind, s, Seal(place))
    ensures Inv(kind, Take(kind, s, Seal(place)))
  {
    var after := Take(kind, s, Seal(place));
    SealKeepsUnique(s.rows, place);
    assert OneSealed(after.rows);
    assert Tells(after);
    forall p | p in after.rows
      ensures Fits(kind, after.rows[p])
    {
      assert Fits(kind, s.rows[p]);
    }
  }

  lemma RemoveKeepsInv(kind: Kind, s: State, place: nat)
    requires Inv(kind, s) && Enabled(kind, s, Remove(place))
    ensures Inv(kind, Take(kind, s, Remove(place)))
  {
    var after := Take(kind, s, Remove(place));
    assert forall p :: p in after.rows ==> p in s.rows && p != place && after.rows[p] == s.rows[p];
    assert Tells(after);
    assert MintedIsUnique(after.rows);
    assert OneSealed(after.rows);
  }

  lemma TakeKeepsInv(kind: Kind, s: State, step: Step)
    requires Inv(kind, s) && Enabled(kind, s, step)
    ensures Inv(kind, Take(kind, s, step))
  {
    match step
    case Write(place, project) => WriteKeepsInv(kind, s, place, project);
    case Seal(place) => SealKeepsInv(kind, s, place);
    case Remove(place) => RemoveKeepsInv(kind, s, place);
  }

  ghost predicate Accepted(kind: Kind, s: State, steps: seq<Step>)
    decreases |steps|
  {
    steps == [] || (Enabled(kind, s, steps[0]) && Accepted(kind, Take(kind, s, steps[0]), steps[1..]))
  }

  ghost function Play(kind: Kind, s: State, steps: seq<Step>): State
    requires Accepted(kind, s, steps)
    decreases |steps|
  {
    if steps == [] then s else Play(kind, Take(kind, s, steps[0]), steps[1..])
  }

  function Empty(): State {
    State(map[], {})
  }

  lemma {:induction false} PlayKeepsInv(kind: Kind, s: State, steps: seq<Step>)
    requires Inv(kind, s) && Accepted(kind, s, steps)
    ensures Inv(kind, Play(kind, s, steps))
    decreases |steps|
  {
    if steps != [] {
      TakeKeepsInv(kind, s, steps[0]);
      PlayKeepsInv(kind, Take(kind, s, steps[0]), steps[1..]);
    }
  }

  /** In every reachable state `version > 0` says exactly which rows were ever sealed,
      minted versions are unique in their project and at most one row of a project is
      sealed. */
  lemma EveryReachableStateIsSound(kind: Kind, steps: seq<Step>)
    requires Accepted(kind, Empty(), steps)
    ensures Inv(kind, Play(kind, Empty(), steps))
  {
    PlayKeepsInv(kind, Empty(), steps);
  }

  // ----- a version once minted ---------------------------------------------------------------

  /** A row's minted version survives every step but two: its removal, and, for a plan
      that was superseded, being frozen again. */
  lemma MintedVersionMovesExactly(kind: Kind, s: State, step: Step, p: nat)
    requires Inv(kind, s) && Enabled(kind, s, step)
    requires p in s.rows && s.rows[p].version > 0
    ensures var after := Take(kind, s, step).rows;
      (p !in after || after[p].version != s.rows[p].version) <==> (step == Remove(p) || step == Seal(p))
    ensures step == Seal(p) ==> kind.Plans?
  {
    assert Fits(kind, s.rows[p]);
  }

  ghost predicate HasVersion(rows: Rows, project: nat, v: int) {
    exists p :: p in rows && rows[p].project == project && rows[p].version == v
  }

  ghost predicate NoGaps(rows: Rows) {
    forall project: nat, v: int :: 1 <= v < NextVersion(rows, project) ==> HasVersion(rows, project, v)
  }

  /** Minting moves the next version of the sealed row's project up by one, the others'
      not at all. */
  lemma NextAfterSeal(rows: Rows, place: nat, minted: int, other: nat)
    requires place in rows && minted == NextVersion(rows, rows[place].project)
    ensures NextVersion(AfterSeal(rows, place, minted), other) ==
      if other == rows[place].project then minted + 1 else NextVersion(rows, other)
  {
    var after := AfterSeal(rows, place, minted);
    if other == rows[place].project {
      assert after[place].version == minted;
      NextIsUnique(after, other, minted + 1);
    } else {
      var v := NextVersion(rows, other);
      if v > 1 {
        var p :| p in rows && rows[p].project == other && rows[p].version == v - 1;
        assert after[p].version == v - 1;
      }
      NextIsUnique(after, other, v);
    }
  }

  /** Sealing keeps every version of every project except the one the row held. */
  lemma VersionsAfterSeal(rows: Rows, place: nat, minted: int, project: nat, v: int)
    requires place in rows && MintedIsUnique(rows) && v > 0
    ensures HasVersion(AfterSeal(rows, place, minted), project, v) <==>
      (project == rows[place].project && v == minted)
      || (HasVersion(rows, project, v) && !(project == rows[place].project && v == rows[place].version))
  {
    var after := AfterSeal(rows, place, minted);
    if HasVersion(after, project, v) {
      var p :| p in after && after[p].project == project && after[p].version == v;
      assert p != place ==> rows[p].version == v;
    }
    if project == rows[place].project && v == minted {
      assert after[place].version == v;
    } else if HasVersion(rows, project, v) && !(project == rows[place].project && v == rows[place].version) {
      var p :| p in rows && rows[p].project == project && rows[p].version == v;
      assert after[p].version == v;
    }
  }

  /** One sealing keeps the versions of its project consecutive exactly when the row
      had none yet. */
  lemma SealKeepsNoGapsExactly(rows: Rows, place: nat)
    requires place in rows && MintedIsUnique(rows) && NoGaps(rows) && rows[place].version >= 0
    ensures NoGaps(AfterSeal(rows, place, NextVersion(rows, rows[place].project))) <==> rows[place].version == 0
  {
    var project := rows[place].project;
    var minted := NextVersion(rows, project);
    var after := AfterSeal(rows, place, minted);
    if rows[place].version == 0 {
      forall other: nat, v: int | 1 <= v < NextVersion(after, other)
        ensures HasVersion(after, other, v)
      {
        NextAfterSeal(rows, place, minted, other);
        VersionsAfterSeal(rows, place, minted, other, v);
      }
    } else {
      NextAfterSeal(rows, place, minted, project);
      VersionsAfterSeal(rows, place, minted, project, rows[place].version);
    }
  }

  lemma WriteKeepsVersions(kind: Kind, s: State, place: nat, project: nat, other: nat)
    requires Inv(kind, s) && Enabled(kind, s, Write(place, project))
    ensures var after := Take(kind, s, Write(place, project)).rows;
      NextVersion(after, other) == NextVersion(s.rows, other)
      && forall v :: v > 0 ==> (HasVersion(after, other, v) <==> HasVersion(s.rows, other, v))
  {
    var rows, after := s.rows, Take(kind, s, Write(place, project)).rows;
    if place in rows {
      assert Fits(kind, rows[place]);
      assert after[place].version == rows[place].version && after[place].project == rows[place].project;
    }
    assert forall p :: p in rows ==>
      p in after && after[p].version == rows[p].version && after[p].project == rows[p].project;
    assert forall p :: p in after && after[p].version > 0 ==>
      p in rows && after[p].version == rows[p].version && after[p].project == rows[p].project;
    var v := NextVersion(rows, other);
    if v > 1 {
      var p :| p in rows && rows[p].project == other && rows[p].version == v - 1;
      assert after[p].version == v - 1;
    }
    NextIsUnique(after, other, v);
  }

  /** A step that freezes a plan which already held a version. */
  ghost predicate Remints(s: State, step: Step) {
    step.Seal? && step.place in s.rows && s.rows[step.place].version > 0
  }

  ghost predicate NeverRemints(kind: Kind, s: State, steps: seq<Step>)
    requires Accepted(kind, s, steps)
    decreases |steps|
  {
    steps == [] || (!Remints(s, steps[0]) && NeverRemints(kind, Take(kind, s, steps[0]), steps[1..]))
  }

  predicate RemovesNothing(steps: seq<Step>) {
    forall i :: 0 <= i < |steps| ==> !steps[i].Remove?
  }

  /** One removal keeps the versions of its project consecutive exactly when the row
      had none, or the highest. */
  lemma RemovalKeepsNoGapsExactly(rows: Rows, place: nat)
    requires place in rows && MintedIsUnique(rows) && NoGaps(rows) && rows[place].version >= 0
    ensures NoGaps(rows - {place}) <==>
      rows[place].version == 0 || NextVersion(rows, rows[place].project) == rows[place].version + 1
  {
    var project, v, rest := rows[place].project, rows[place].version, rows - {place};
    assert forall p :: p in rest ==> p in rows && p != place && rest[p] == rows[p];
    if v == 0 || NextVersion(rows, project) == v + 1 {
      forall other: nat, u: int | 1 <= u < NextVersion(rest, other)
        ensures HasVersion(rest, other, u)
      {
        HigherIsHeld(rest, other, u);
        HeldIsKept(rows, place, other, u);
      }
    } else {
      var top :| top in rows && rows[top].project == project && rows[top].version == NextVersion(rows, project) - 1;
      assert top in rest && rest[top].version < NextVersion(rest, project);
      assert !HasVersion(rest, project, v);
    }
  }

  /** Below the next version some row holds as much or more. */
  lemma HigherIsHeld(rows: Rows, project: nat, u: int)
    requires 1 <= u < NextVersion(rows, project)
    ensures exists p :: p in rows && rows[p].project == project && rows[p].version >= u
  {
  }

  lemma HeldIsKept(rows: Rows, place: nat, project: nat, u: int)
    requires place in rows && NoGaps(rows) && u >= 1
    requires rows[place].version == 0 || NextVersion(rows, rows[place].project) == rows[place].version + 1
    requires MintedIsUnique(rows)
    requires exists p :: p in rows - {place} && rows[p].project == project && rows[p].version >= u
    ensures HasVersion(rows - {place}, project, u)
  {
    var p :| p in rows - {place} && rows[p].project == project && rows[p].version >= u;
    assert rows[p].version < NextVersion(rows, project);
    assert HasVersion(rows, project, u);
    var q :| q in rows && rows[q].project == project && rows[q].version == u;
    if q != place {
      assert q in rows - {place};
    }
  }

  /** A step after which a version below the next one is held by no row: freezing a plan
      that had one, or removing a row that had one but not the highest. */
  ghost predicate Breaks(s: State, step: Step) {
    || Remints(s, step)
    || (step.Remove? && step.place in s.rows && s.rows[step.place].version > 0
        && NextVersion(s.rows, s.rows[step.place].project) != s.rows[step.place].version + 1)
  }

  lemma StepKeepsNoGapsExactly(kind: Kind, s: State, step: Step)
    requires Inv(kind, s) && Enabled(kind, s, step) && NoGaps(s.rows)
    ensures NoGaps(Take(kind, s, step).rows) <==> !Breaks(s, step)
  {
    match step
    case Seal(place) => SealKeepsNoGapsExactly(s.rows, place);
    case Remove(place) => RemovalKeepsNoGapsExactly(s.rows, place);
    case Write(place, project) =>
      var after := Take(kind, s, step).rows;
      forall other: nat, v: int | 1 <= v < NextVersion(after, other)
        ensures HasVersion(after, other, v)
      {
        WriteKeepsVersions(kind, s, place, project, other);
      }
  }

  ghost predicate NeverBreaks(kind: Kind, s: State, steps: seq<Step>)
    requires Accepted(kind, s, steps)
    decreases |steps|
  {
    steps == [] || (!Breaks(s, steps[0]) && NeverBreaks(kind, Take(kind, s, steps[0]), steps[1..]))
  }

  /** The versions of every project are 1, 2, 3, ... in every state of the run. */
  ghost predicate ConsecutiveThroughout(kind: Kind, s: State, steps: seq<Step>)
    requires Accepted(kind, s, steps)
    decreases |steps|
  {
    NoGaps(s.rows) && (steps == [] || ConsecutiveThroughout(kind, Take(kind, s, steps[0]), steps[1..]))
  }

  /** In any run at all, removals included, they are so throughout exactly when no step
      breaks them. */
  lemma {:induction false} ConsecutiveThroughoutExactly(kind: Kind, s: State, steps: seq<Step>)
    requires Inv(kind, s) && NoGaps(s.rows) && Accepted(kind, s, steps)
    ensures ConsecutiveThroughout(kind, s, steps) <==> NeverBreaks(kind, s, steps)
    decreases |steps|
  {
    if steps != [] {
      var next := Take(kind, s, steps[0]);
      TakeKeepsInv(kind, s, steps[0]);
      StepKeepsNoGapsExactly(kind, s, steps[0]);
      if !Breaks(s, steps[0]) {
        ConsecutiveThroughoutExactly(kind, next, steps[1..]);
      }
    }
  }

  /** A version that no row holds any more, below the next one, is never minted again. */
  lemma StepKeepsAGap(kind: Kind, s: State, step: Step)
    requires Inv(kind, s) && Enabled(kind, s, step) && !step.Remove? && !NoGaps(s.rows)
    ensures !NoGaps(Take(kind, s, step).rows)
  {
    var project: nat, v: int :| 1 <= v < NextVersion(s.rows, project) && !HasVersion(s.rows, project, v);
    var after := Take(kind, s, step).rows;
    match step {
      case Seal(place) =>
        var minted := NextVersion(s.rows, s.rows[place].project);
        NextAfterSeal(s.rows, place, minted, project);
        VersionsAfterSeal(s.rows, place, minted, project, v);
      case Write(place, other) => WriteKeepsVersions(kind, s, place, other, project);
    }
    assert 1 <= v < NextVersion(after, project) && !HasVersion(after, project, v);
  }

  lemma {:induction false} PlayKeepsAGap(kind: Kind, s: State, steps: seq<Step>)
    requires Inv(kind, s) && Accepted(kind, s, steps) && RemovesNothing(steps) && !NoGaps(s.rows)
    ensures !NoGaps(Play(kind, s, steps).rows)
    decreases |steps|
  {
    if steps != [] {
      TakeKeepsInv(kind, s, steps[0]);
      StepKeepsAGap(kind, s, steps[0]);
      PlayKeepsAGap(kind, Take(kind, s, steps[0]), steps[1..]);
    }
  }

  /** As long as nothing is removed, the versions a project holds are 1, 2, 3, ...
      exactly when no superseded plan was ever frozen again. */
  lemma {:induction false} VersionsAreConsecutiveExactly(kind: Kind, s: State, steps: seq<Step>)
    requires Inv(kind, s) && NoGaps(s.rows) && Accepted(kind, s, steps) && RemovesNothing(steps)
    ensures NoGaps(Play(kind, s, steps).rows) <==> NeverRemints(kind, s, steps)
    decreases |steps|
  {
    if steps != [] {
      TakeKeepsInv(kind, s, steps[0]);
      StepKeepsNoGapsExactly(kind, s, steps[0]);
      var next := Take(kind, s, steps[0]);
      if Remints(s, steps[0]) {
        PlayKeepsAGap(kind, next, steps[1..]);
      } else {
        VersionsAreConsecutiveExactly(kind, next, steps[1..]);
      }
    }
  }

  lemma {:induction false} PackagesNeverRemint(s: State, steps: seq<Step>)
    requires Inv(Packages, s) && Accepted(Packages, s, steps)
    ensures NeverRemints(Packages, s, steps)
    decreases |steps|
  {
    if steps != [] {
      if steps[0].Seal? {
        assert Fits(Packages, s.rows[steps[0].place]);
      }
      TakeKeepsInv(Packages, s, steps[0]);
      PackagesNeverRemint(Take(Packages, s, steps[0]), steps[1..]);
    }
  }

  lemma EmptyHasNoGaps()
    ensures NoGaps(Empty().rows)
  {
    forall project: nat
      ensures NextVersion(Empty().rows, project) == 1
    {
      NextIsUnique(Empty().rows, project, 1);
    }
  }

  /** So a project's released packages are numbered 1, 2, 3, ... in every run that
      removes nothing. */
  lemma PackageVersionsAreConsecutive(steps: seq<Step>)
    requires Accepted(Packages, Empty(), steps) && RemovesNothing(steps)
    ensures NoGaps(Play(Packages, Empty(), steps).rows)
  {
    PackagesNeverRemint(Empty(), steps);
    EmptyHasNoGaps();
    VersionsAreConsecutiveExactly(Packages, Empty(), steps);
  }

  /** Two packages released, the first removed: v2 is left without v1. */
  lemma ARemovalLeavesAGap(a: nat, b: nat, project: nat)
    requires a != b
    ensures var steps := [Write(a, project), Write(b, project), Seal(a), Seal(b), Remove(a)];
      && Accepted(Packages, Empty(), steps)
      && Play(Packages, Empty(), steps).rows == map[b := Entry(project, 2, Sealed)]
      && !NoGaps(Play(Packages, Empty(), steps).rows)
  {
    var steps := [Write(a, project), Write(b, project), Seal(a), Seal(b), Remove(a)];
    var draft, v1, v2 := Entry(project, 0, Open), Entry(project, 1, Sealed), Entry(project, 2, Sealed);
    var first := Take(Packages, Empty(), steps[0]);
    assert Take(Packages, first, steps[1]) == Pair(a, b, draft, draft, {});
    SealFirst(Packages, a, b, draft, draft, {}, 1);
    PairsSwap(a, b, v1, draft, {a});
    SealFirst(Packages, b, a, draft, v1, {a}, 2);
    PairsSwap(b, a, v2, v1.(phase := Superseded), {a} + {b});
    var both := Pair(a, b, v1.(phase := Superseded), v2, {a} + {b});
    var left := Take(Packages, both, Remove(a));
    assert left.rows == map[b := v2];
    Unfold(Packages, both, [Remove(a)], left);
    Unfold(Packages, Pair(a, b, v1, draft, {a}), [Seal(b), Remove(a)], both);
    Unfold(Packages, Pair(a, b, draft, draft, {}), [Seal(a), Seal(b), Remove(a)], Pair(a, b, v1, draft, {a}));
    Unfold(Packages, first, [Write(b, project), Seal(a), Seal(b), Remove(a)], Pair(a, b, draft, draft, {}));
    Unfold(Packages, Empty(), steps, first);
    assert left.rows[b].version == 2;
    NextIsUnique(left.rows, project, 3);
    assert !HasVersion(left.rows, project, 1);
  }

  function Pair(a: nat, b: nat, first: Entry, second: Entry, everSealed: set<nat>): State
    requires a != b
  {
    State(map[a := first, b := second], everSealed)
  }

  lemma SealFirst(kind: Kind, a: nat, b: nat, first: Entry, second: Entry, everSealed: set<nat>, next: int)
    requires a != b && first.project == second.project && Writable(kind, first)
    requires next >= 1 && next > first.version && next > second.version
    requires next == first.version + 1 || next == second.version + 1
    ensures Enabled(kind, Pair(a, b, first, second, everSealed), Seal(a))
    ensures Take(kind, Pair(a, b, first, second, everSealed), Seal(a)) ==
      Pair(a, b, first.(version := next, phase := Sealed),
           if second.phase == Sealed then second.(phase := Superseded) else second, everSealed + {a})
  {
    var s := Pair(a, b, first, second, everSealed);
    assert s.rows[a] == first && s.rows[b] == second;
    NextIsUnique(s.rows, first.project, next);
  }

  lemma PairsSwap(a: nat, b: nat, first: Entry, second: Entry, everSealed: set<nat>)
    requires a != b
    ensures Pair(a, b, first, second, everSealed) == Pair(b, a, second, first, everSealed)
  {
  }

  /** Two plans of one project, the first frozen a second time: no plan is v1 any more,
      and v1 is not minted again. */
  lemma FreezingAgainLosesAVersion(a: nat, b: nat, project: nat)
    requires a != b
    ensures var steps := [Write(a, project), Write(b, project), Seal(a), Seal(b), Seal(a)];
      && Accepted(Plans, Empty(), steps)
      && Play(Plans, Empty(), steps).rows == map[a := Entry(project, 3, Sealed), b := Entry(project, 2, Superseded)]
  {
    var steps := [Write(a, project), Write(b, project), Seal(a), Seal(b), Seal(a)];
    var draft, v1, v2 := Entry(project, 0, Open), Entry(project, 1, Sealed), Entry(project, 2, Sealed);
    var was1, was2, v3 := v1.(phase := Superseded), v2.(phase := Superseded), Entry(project, 3, Sealed);
    var first := Take(Plans, Empty(), steps[0]);
    assert Take(Plans, first, steps[1]) == Pair(a, b, draft, draft, {});
    SealFirst(Plans, a, b, draft, draft, {}, 1);
    PairsSwap(a, b, v1, draft, {a});
    SealFirst(Plans, b, a, draft, v1, {a}, 2);
    PairsSwap(b, a, v2, was1, {a} + {b});
    SealFirst(Plans, a, b, was1, v2, {a} + {b}, 3);
    Unfold(Plans, Pair(a, b, was1, v2, {a} + {b}), [Seal(a)], Pair(a, b, v3, was2, {a} + {b} + {a}));
    Unfold(Plans, Pair(a, b, v1, draft, {a}), [Seal(b), Seal(a)], Pair(a, b, was1, v2, {a} + {b}));
    Unfold(Plans, Pair(a, b, draft, draft, {}), [Seal(a), Seal(b), Seal(a)], Pair(a, b, v1, draft, {a}));
    Unfold(Plans, first, [Write(b, project), Seal(a), Seal(b), Seal(a)], Pair(a, b, draft, draft, {}));
    Unfold(Plans, Empty(), steps, first);
  }

  lemma Unfold(kind: Kind, s: State, steps: seq<Step>, next: State)
    requires steps != [] && Enabled(kind, s, steps[0]) && Take(kind, s, steps[0]) == next
    ensures Accepted(kind, s, steps) == Accepted(kind, next, steps[1..])
    ensures Accepted(kind, s, steps) ==> Play(kind, s, steps) == Play(kind, next, steps[1..])
  {
  }

  /** A removed row's version is the next one to be minted exactly when it was the
      highest of its project and the one below it is held (or it is 1): `max(version) + 1`
      looks only at rows that are still there. */
  lemma RemovalReissuesExactly(rows: Rows, place: nat)
    requires MintedIsUnique(rows) && place in rows && rows[place].version > 0
    ensures var project, v := rows[place].project, rows[place].version;
      NextVersion(rows - {place}, project) == v <==>
      NextVersion(rows, project) == v + 1 && (v == 1 || HasVersion(rows, project, v - 1))
  {
    var project, v := rows[place].project, rows[place].version;
    var rest := rows - {place};
    assert forall p :: p in rest ==> p in rows && rest[p] == rows[p];
    if NextVersion(rows, project) == v + 1 && (v == 1 || HasVersion(rows, project, v - 1)) {
      if v > 1 {
        var p :| p in rows && rows[p].project == project && rows[p].version == v - 1;
        assert p in rest;
      }
      NextIsUnique(rest, project, v);
    }
    if NextVersion(rest, project) == v {
      if v > 1 {
        var p :| p in rest && rest[p].project == project && rest[p].version == v - 1;
        assert p in rows && rows[p].version == v - 1;
      }
      forall p | p in rows && rows[p].project == project
        ensures rows[p].version < v + 1
      {
        assert p != place ==> p in rest;
      }
      NextIsUnique(rows, project, v + 1);
    }
  }

  // ----- the two migrations ------------------------------------------------------------------

  /** Before: every placeholder is unique in its project, and sealed rows were minted. */
  ghost predicate TableUnique(rows: Rows) {
    forall p, q :: p in rows && q in rows && p != q && rows[p].project == rows[q].project ==>
      rows[p].version != rows[q].version
  }

  ghost predicate SealedWereMinted(rows: Rows) {
    forall p :: p in rows && rows[p].phase != Open ==> rows[p].version > 0
  }

  /** 0014 zeroes every plan that is not frozen. */
  function Normalised14(rows: Rows): Rows {
    map p | p in rows :: if rows[p].phase != Sealed then rows[p].(version := 0) else rows[p]
  }

  /** 0022 zeroes every package that is neither released nor superseded. */
  function Normalised22(rows: Rows): Rows {
    map p | p in rows :: if rows[p].phase == Open then rows[p].(version := 0) else rows[p]
  }

  /** What both migrations say of the table they leave: `version > 0` is the exact test
      for a row that has been sealed, and those versions are unique. */
  ghost predicate TellsSealed(rows: Rows) {
    MintedIsUnique(rows) && forall p :: p in rows ==> (rows[p].version > 0 <==> rows[p].phase != Open)
  }

  lemma IndexesCanBeBuilt(rows: Rows)
    requires TableUnique(rows)
    ensures MintedIsUnique(Normalised14(rows)) && MintedIsUnique(Normalised22(rows))
  {
  }

  /** 0022 keeps that promise from any table. 0014 keeps it exactly when no plan had
      been superseded: it takes a superseded plan's version away. */
  lemma NormalisingExactly(rows: Rows)
    requires TableUnique(rows) && SealedWereMinted(rows)
    ensures TellsSealed(Normalised22(rows))
    ensures TellsSealed(Normalised14(rows)) <==> forall p :: p in rows ==> rows[p].phase != Superseded
  {
    IndexesCanBeBuilt(rows);
    if p :| p in rows && rows[p].phase == Superseded {
      assert Normalised14(rows)[p].version == 0;
    }
  }

  /** One frozen plan and one that it superseded: 0014 leaves the second at 0, as if it
      had never been frozen. */
  lemma NormalisingForgetsASupersededPlan(a: nat, b: nat, project: nat)
    requires a != b
    ensures var rows := map[a := Entry(project, 1, Superseded), b := Entry(project, 2, Sealed)];
      && TableUnique(rows) && SealedWereMinted(rows)
      && Normalised14(rows)[a] == Entry(project, 0, Superseded)
      && !TellsSealed(Normalised14(rows)) && TellsSealed(Normalised22(rows))
  {
    var rows := map[a := Entry(project, 1, Superseded), b := Entry(project, 2, Sealed)];
    assert rows[a].version == 1 && rows[b].version == 2;
    NormalisingExactly(rows);
  }

  /** Going back to the table constraint works exactly when no project holds two rows
      that were never sealed. */
  lemma DowngradeExactly(kind: Kind, s: State)
    requires Inv(kind, s)
    ensures TableUnique(s.rows) <==>
      forall p, q :: p in s.rows && q in s.rows && p != q && p !in s.everSealed && q !in s.everSealed ==>
        s.rows[p].project != s.rows[q].project
  {
  }
}
