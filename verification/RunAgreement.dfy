/**
 Runs that agree up to what is still going to be written
 (apps/web/lib/run-reduce.ts).

 Every field an event writes is a register. A register is either last-writer
 (the event's value replaces what was there) or first-writer (a clock stamp that
 is only written while the field is null). The run's cost is derived from its
 nodes. The proofs below rest on that reading: `NodeWrites` and `RunWrites` name
 the registers an event writes, and `AgreeRun` says that two runs differ at most
 on registers the remaining events are going to write.
 */
module RunAgreement {
  import opened Prelude
  import opened RunReduce

  // ----- registers ------------------------------------------------------

  datatype NodeReg =
    | RStatus | RAttempt | RModel | RTokenIn | RTokenOut | RCost | RLatency | RStarted | RFinished | RError

  datatype RunReg = SStatus | SCost | SFinished | SError

  /** Does the event write this register of the node it names, whatever it held? */
  predicate NodeWrites(e: Event, r: NodeReg) {
    match r
    case RStatus => e.kind.Started? || e.kind.Completed? || e.kind.NodeError? || e.kind.ApprovalRequired?
    case RAttempt => (e.kind.Started? || e.kind.NodeError?) && NumberField(e.data, "attempt").Some?
    case RModel => e.kind.Completed? && StringField(e.data, "model").Some?
    case RTokenIn => e.kind.Tokens? && NumberField(e.data, "token_in").Some?
    case RTokenOut => e.kind.Tokens? && NumberField(e.data, "token_out").Some?
    case RCost => (e.kind.Tokens? || e.kind.Completed?) && StringField(e.data, "cost_usd").Some?
    case RLatency => e.kind.Completed? && NumberField(e.data, "latency_ms").Some?
    case RStarted => e.kind.Started?
    case RFinished => e.kind.Completed?
    case RError => e.kind.Started? || (e.kind.NodeError? && ErrorField(e.data).Some?)
  }

  /** Does the event write this register of the run? */
  predicate RunWrites(e: Event, r: RunReg) {
    match r
    case SStatus =>
      e.kind.ApprovalRequired? || ((e.kind.StatusChanged? || e.kind.RunCompleted?) && StatusField(e).Some?)
    case SCost => e.kind.Tokens? || e.kind.Completed? || (e.kind.RunCompleted? && StringField(e.data, "cost_usd").Some?)
    case SFinished => e.kind.RunCompleted?
    case SError => e.kind.RunCompleted? && "error" in e.data
  }

  predicate NodeWritten(es: seq<Stamped>, id: Str, r: NodeReg) {
    es != [] && ((NodeIdOf(es[0].event) == Some(id) && NodeWrites(es[0].event, r)) || NodeWritten(es[1..], id, r))
  }

  predicate RunWritten(es: seq<Stamped>, r: RunReg) {
    es != [] && (RunWrites(es[0].event, r) || RunWritten(es[1..], r))
  }

  lemma {:induction false} NodeWrittenConcat(xs: seq<Stamped>, ys: seq<Stamped>, id: Str, r: NodeReg)
    ensures NodeWritten(xs + ys, id, r) == (NodeWritten(xs, id, r) || NodeWritten(ys, id, r))
    decreases |xs|
  {
    if xs == [] {
      assert xs + ys == ys;
    } else {
      assert (xs + ys)[1..] == xs[1..] + ys;
      NodeWrittenConcat(xs[1..], ys, id, r);
    }
  }

  lemma {:induction false} RunWrittenConcat(xs: seq<Stamped>, ys: seq<Stamped>, r: RunReg)
    ensures RunWritten(xs + ys, r) == (RunWritten(xs, r) || RunWritten(ys, r))
    decreases |xs|
  {
    if xs == [] {
      assert xs + ys == ys;
    } else {
      assert (xs + ys)[1..] == xs[1..] + ys;
      RunWrittenConcat(xs[1..], ys, r);
    }
  }

  /** A stream that leaves the run's cost alone leaves every node's cost alone. */
  lemma {:induction false} NodeCostMovesRunCost(es: seq<Stamped>, id: Str)
    ensures NodeWritten(es, id, RCost) ==> RunWritten(es, SCost)
    decreases |es|
  {
    if es != [] {
      NodeCostMovesRunCost(es[1..], id);
    }
  }

  // ----- agreement up to what is still going to be written ----------------

  /** Do two nodes agree on one register? Clock fields agree when both are set or
      both are null: what the clock read is not compared. */
  predicate SameReg(a: Node, b: Node, r: NodeReg) {
    match r
    case RStatus => a.status == b.status
    case RAttempt => a.attempt == b.attempt
    case RModel => a.model == b.model
    case RTokenIn => a.tokenIn == b.tokenIn
    case RTokenOut => a.tokenOut == b.tokenOut
    case RCost => a.cost == b.cost
    case RLatency => a.latencyMs == b.latencyMs
    case RStarted => a.startedAt.Some? == b.startedAt.Some?
    case RFinished => a.finishedAt.Some? == b.finishedAt.Some?
    case RError => a.error == b.error
  }

  predicate SameRunReg(a: Run, b: Run, r: RunReg) {
    match r
    case SStatus => a.status == b.status
    case SCost => a.cost == b.cost
    case SFinished => a.finishedAt.Some? == b.finishedAt.Some?
    case SError => a.error == b.error
  }

  ghost predicate AgreeNode(a: Node, b: Node, rest: seq<Stamped>) {
    && a.id == b.id && a.spec == b.spec
    && forall r: NodeReg :: NodeWritten(rest, a.id, r) || SameReg(a, b, r)
  }

  ghost predicate AgreeHead(a: Run, b: Run, rest: seq<Stamped>) {
    && a.fixed == b.fixed
    && forall r: RunReg :: RunWritten(rest, r) || SameRunReg(a, b, r)
  }

  ghost predicate AgreeNodes(a: seq<Node>, b: seq<Node>, rest: seq<Stamped>) {
    |a| == |b| && forall i :: 0 <= i < |a| ==> AgreeNode(a[i], b[i], rest)
  }

  /** The runs differ at most on what `rest` is going to write. */
  ghost predicate AgreeRun(a: Run, b: Run, rest: seq<Stamped>) {
    AgreeHead(a, b, rest) && AgreeNodes(a.nodes, b.nodes, rest)
  }

  /** Equal in every field but what the clock read. */
  ghost predicate SameButClocks(a: Run, b: Run) {
    AgreeRun(a, b, [])
  }

  lemma {:induction false} NodeStepAgrees(a: Node, b: Node, s: Stamped, later: Stamp, rest: seq<Stamped>)
    requires AgreeNode(a, b, [s] + rest)
    ensures AgreeNode(NodeStep(a, s.event, s.now), NodeStep(b, s.event, later), rest)
  {
    assert ([s] + rest)[1..] == rest;
    var a', b' := NodeStep(a, s.event, s.now), NodeStep(b, s.event, later);
    forall r: NodeReg
      ensures NodeWritten(rest, a.id, r) || SameReg(a', b', r)
    {
      assert NodeWritten([s] + rest, a.id, r) || SameReg(a, b, r);
    }
  }

  /** A node's cost is settled once the rest of the stream has no cost events. */
  lemma {:induction false} SettledCost(a: Node, b: Node, rest: seq<Stamped>)
    requires AgreeNode(a, b, rest) && !RunWritten(rest, SCost)
    ensures a.cost == b.cost
  {
    NodeCostMovesRunCost(rest, a.id);
    assert NodeWritten(rest, a.id, RCost) || SameReg(a, b, RCost);
  }

  /** Nodes that agree until a stream without cost events has run cost the same. */
  lemma {:induction false} SettledCosts(a: seq<Node>, b: seq<Node>, rest: seq<Stamped>)
    requires AgreeNodes(a, b, rest) && !RunWritten(rest, SCost)
    ensures SameCosts(a, b)
  {
    forall i | 0 <= i < |a|
      ensures a[i].cost == b[i].cost
    {
      SettledCost(a[i], b[i], rest);
    }
  }

  lemma {:induction false} PatchNodesAgrees(a: Run, b: Run, s: Stamped, later: Stamp, rest: seq<Stamped>)
    requires AgreeNodes(a.nodes, b.nodes, [s] + rest)
    ensures AgreeNodes(PatchNodes(a, s.event, s.now).nodes, PatchNodes(b, s.event, later).nodes, rest)
  {
    forall i | 0 <= i < |a.nodes|
      ensures AgreeNode(NodeStep(a.nodes[i], s.event, s.now), NodeStep(b.nodes[i], s.event, later), rest)
    {
      NodeStepAgrees(a.nodes[i], b.nodes[i], s, later, rest);
    }
  }

  lemma {:induction false} HeadStepAgrees(a: Run, b: Run, s: Stamped, later: Stamp, rest: seq<Stamped>, r: RunReg)
    requires (RunWritten([s] + rest, r) || SameRunReg(a, b, r)) && r != SCost
    ensures RunWritten(rest, r) || SameRunReg(ApplyRunEvent(a, s.event, s.now), ApplyRunEvent(b, s.event, later), r)
  {
    assert ([s] + rest)[1..] == rest;
  }

  lemma {:induction false} CostStepAgrees(a: Run, b: Run, s: Stamped, later: Stamp, rest: seq<Stamped>)
    requires RunWritten([s] + rest, SCost) || a.cost == b.cost
    requires AgreeNodes(ApplyRunEvent(a, s.event, s.now).nodes, ApplyRunEvent(b, s.event, later).nodes, rest)
    ensures RunWritten(rest, SCost) || ApplyRunEvent(a, s.event, s.now).cost == ApplyRunEvent(b, s.event, later).cost
  {
    assert ([s] + rest)[1..] == rest;
    CostOfApply(a, s.event, s.now);
    CostOfApply(b, s.event, later);
    if !RunWritten(rest, SCost) {
      SettledCosts(ApplyRunEvent(a, s.event, s.now).nodes, ApplyRunEvent(b, s.event, later).nodes, rest);
      SpendAgrees(ApplyRunEvent(a, s.event, s.now).nodes, ApplyRunEvent(b, s.event, later).nodes);
    }
  }

  /** One delivery of the same event, at two different readings of the clock. */
  lemma {:induction false} StepAgrees(a: Run, b: Run, s: Stamped, later: Stamp, rest: seq<Stamped>)
    requires AgreeRun(a, b, [s] + rest)
    ensures AgreeRun(ApplyRunEvent(a, s.event, s.now), ApplyRunEvent(b, s.event, later), rest)
  {
    var a', b' := ApplyRunEvent(a, s.event, s.now), ApplyRunEvent(b, s.event, later);
    NodesOfApply(a, s.event, s.now);
    NodesOfApply(b, s.event, later);
    PatchNodesAgrees(a, b, s, later, rest);
    forall r: RunReg
      ensures RunWritten(rest, r) || SameRunReg(a', b', r)
    {
      assert RunWritten([s] + rest, r) || SameRunReg(a, b, r);
      if r == SCost {
        CostStepAgrees(a, b, s, later, rest);
      } else {
        HeadStepAgrees(a, b, s, later, rest, r);
      }
    }
  }

  /** Two deliveries of the same events, each with its own readings of the clock. */
  ghost predicate SameEvents(xs: seq<Stamped>, ys: seq<Stamped>) {
    |xs| == |ys| && forall i :: 0 <= i < |xs| ==> xs[i].event == ys[i].event
  }

  lemma {:induction false} FoldAgrees(a: Run, b: Run, xs: seq<Stamped>, ys: seq<Stamped>)
    requires AgreeRun(a, b, xs) && SameEvents(xs, ys)
    ensures SameButClocks(Fold(a, xs), Fold(b, ys))
    decreases |xs|
  {
    if xs != [] {
      assert [xs[0]] + xs[1..] == xs;
      StepAgrees(a, b, xs[0], ys[0].now, xs[1..]);
      FoldAgrees(ApplyRunEvent(a, xs[0].event, xs[0].now), ApplyRunEvent(b, ys[0].event, ys[0].now), xs[1..], ys[1..]);
    }
  }

  lemma {:induction false} WrittenBySameEvents(xs: seq<Stamped>, ys: seq<Stamped>)
    requires SameEvents(xs, ys)
    ensures forall id, r :: NodeWritten(xs, id, r) == NodeWritten(ys, id, r)
    ensures forall r :: RunWritten(xs, r) == RunWritten(ys, r)
    decreases |xs|
  {
    if xs != [] {
      WrittenBySameEvents(xs[1..], ys[1..]);
    }
  }

  lemma {:induction false} AgreeUnderSameEvents(a: Run, b: Run, xs: seq<Stamped>, ys: seq<Stamped>)
    requires AgreeRun(a, b, xs) && SameEvents(xs, ys)
    ensures AgreeRun(a, b, ys)
  {
    WrittenBySameEvents(xs, ys);
    forall i | 0 <= i < |a.nodes|
      ensures AgreeNode(a.nodes[i], b.nodes[i], ys)
    {
      assert AgreeNode(a.nodes[i], b.nodes[i], xs);
    }
  }

  lemma {:induction false} AgreeNodeTransitive(a: Node, b: Node, c: Node, early: seq<Stamped>, rest: seq<Stamped>)
    requires AgreeNode(a, b, rest) && AgreeNode(b, c, early + rest)
    ensures AgreeNode(a, c, early + rest)
  {
    forall r: NodeReg
      ensures NodeWritten(early + rest, a.id, r) || SameReg(a, c, r)
    {
      NodeWrittenConcat(early, rest, a.id, r);
      assert NodeWritten(rest, a.id, r) || SameReg(a, b, r);
      assert NodeWritten(early + rest, b.id, r) || SameReg(b, c, r);
    }
  }

  lemma {:induction false} AgreeRunTransitive(a: Run, b: Run, c: Run, early: seq<Stamped>, rest: seq<Stamped>)
    requires AgreeRun(a, b, rest) && AgreeRun(b, c, early + rest)
    ensures AgreeRun(a, c, early + rest)
  {
    forall i | 0 <= i < |a.nodes|
      ensures AgreeNode(a.nodes[i], c.nodes[i], early + rest)
    {
      assert AgreeNode(a.nodes[i], b.nodes[i], rest) && AgreeNode(b.nodes[i], c.nodes[i], early + rest);
      AgreeNodeTransitive(a.nodes[i], b.nodes[i], c.nodes[i], early, rest);
    }
    forall r: RunReg
      ensures RunWritten(early + rest, r) || SameRunReg(a, c, r)
    {
      RunWrittenConcat(early, rest, r);
      assert RunWritten(rest, r) || SameRunReg(a, b, r);
      assert RunWritten(early + rest, r) || SameRunReg(b, c, r);
    }
  }

  lemma {:induction false} SameButClocksSymmetric(a: Run, b: Run)
    requires SameButClocks(a, b)
    ensures SameButClocks(b, a)
  {
    forall i | 0 <= i < |a.nodes|
      ensures AgreeNode(b.nodes[i], a.nodes[i], [])
    {
      assert AgreeNode(a.nodes[i], b.nodes[i], []);
      assert forall r: NodeReg :: SameReg(a.nodes[i], b.nodes[i], r);
    }
    assert forall r: RunReg :: SameRunReg(a, b, r);
  }

  /** One event changes only what it writes. */
  lemma {:induction false} StepWritesOnly(run: Run, s: Stamped, rest: seq<Stamped>)
    ensures AgreeRun(ApplyRunEvent(run, s.event, s.now), run, [s] + rest)
  {
    assert ([s] + rest)[1..] == rest;
    var next := ApplyRunEvent(run, s.event, s.now);
    NodesOfApply(run, s.event, s.now);
    forall i | 0 <= i < |run.nodes|
      ensures AgreeNode(next.nodes[i], run.nodes[i], [s] + rest)
    {
      forall r: NodeReg
        ensures NodeWritten([s] + rest, run.nodes[i].id, r) || SameReg(next.nodes[i], run.nodes[i], r)
      {
      }
    }
    forall r: RunReg
      ensures RunWritten([s] + rest, r) || SameRunReg(next, run, r)
    {
    }
  }

  /** Events change only what they write, so what follows them sees no difference
      outside that. */
  lemma {:induction false} FoldWritesOnly(run: Run, es: seq<Stamped>, rest: seq<Stamped>)
    ensures AgreeRun(Fold(run, es), run, es + rest)
    decreases |es|
  {
    if es == [] {
    } else {
      var next := ApplyRunEvent(run, es[0].event, es[0].now);
      FoldWritesOnly(next, es[1..], rest);
      assert [es[0]] + (es[1..] + rest) == es + rest;
      StepWritesOnly(run, es[0], es[1..] + rest);
      AgreeRunTransitive(Fold(next, es[1..]), next, run, [es[0]], es[1..] + rest);
    }
  }

  /** Two runs that hear the same events end equal exactly when everything they
      disagreed on was still going to be written. */
  lemma {:induction false} FoldsMeetExactly(a: Run, b: Run, xs: seq<Stamped>, ys: seq<Stamped>)
    requires SameEvents(xs, ys)
    ensures SameButClocks(Fold(a, xs), Fold(b, ys)) <==> AgreeRun(a, b, xs)
  {
    if AgreeRun(a, b, xs) {
      FoldAgrees(a, b, xs, ys);
    }
    if SameButClocks(Fold(a, xs), Fold(b, ys)) {
      var a', b' := Fold(a, xs), Fold(b, ys);
      FoldWritesOnly(a, xs, []);
      FoldWritesOnly(b, ys, []);
      assert xs + [] == xs && ys + [] == ys;
      WrittenBySameEvents(xs, ys);
      forall i | 0 <= i < |a.nodes|
        ensures AgreeNode(a.nodes[i], b.nodes[i], xs)
      {
        assert AgreeNode(a'.nodes[i], b'.nodes[i], []) && AgreeNode(a'.nodes[i], a.nodes[i], xs)
            && AgreeNode(b'.nodes[i], b.nodes[i], ys);
        forall r: NodeReg
          ensures NodeWritten(xs, a.nodes[i].id, r) || SameReg(a.nodes[i], b.nodes[i], r)
        {
          assert SameReg(a'.nodes[i], b'.nodes[i], r);
        }
      }
      forall r: RunReg
        ensures RunWritten(xs, r) || SameRunReg(a, b, r)
      {
        assert SameRunReg(a', b', r);
      }
    }
  }

  // ----- at-least-once delivery -------------------------------------------

  /** The run with every node's `finished_at` moved to its last completion in `es`. */
  function Restamped(run: Run, es: seq<Stamped>): Run {
    run.(nodes := seq(|run.nodes|, i requires 0 <= i < |run.nodes| =>
      run.nodes[i].(finishedAt := Or(LastCompletion(es, run.nodes[i].id), run.nodes[i].finishedAt))))
  }

  lemma {:induction false} SameNode(a: Node, b: Node)
    requires AgreeNode(a, b, []) && a.startedAt == b.startedAt && a.finishedAt == b.finishedAt
    ensures a == b
  {
    assert SameReg(a, b, RStatus) && SameReg(a, b, RAttempt) && SameReg(a, b, RModel) && SameReg(a, b, RTokenIn)
        && SameReg(a, b, RTokenOut) && SameReg(a, b, RCost) && SameReg(a, b, RLatency) && SameReg(a, b, RError);
  }

  lemma {:induction false} SameRun(a: Run, b: Run)
    requires SameButClocks(a, b) && a.finishedAt == b.finishedAt && a.nodes == b.nodes
    ensures a == b
  {
    assert SameRunReg(a, b, SStatus) && SameRunReg(a, b, SCost) && SameRunReg(a, b, SError);
  }

  /** Folding any suffix of an already folded stream again, at any later readings
      of the clock, changes nothing but the `finished_at` of the nodes whose
      completion was delivered again. */
  lemma {:induction false} ReplayedSuffixIsAbsorbed(
    run: Run, before: seq<Stamped>, suffix: seq<Stamped>, again: seq<Stamped>)
    requires SameEvents(suffix, again)
    ensures var once := Fold(run, before + suffix); Fold(once, again) == Restamped(once, again)
  {
    var middle := Fold(run, before);
    var once := Fold(run, before + suffix);
    var twice := Fold(once, again);
    FoldConcat(run, before, suffix);
    FoldWritesOnly(middle, suffix, []);
    assert suffix + [] == suffix;
    AgreeUnderSameEvents(once, middle, suffix, again);
    FoldAgrees(once, middle, again, suffix);
    FoldClocks(once, again);
    assert SameRunReg(twice, once, SFinished);
    forall i | 0 <= i < |once.nodes|
      ensures twice.nodes[i] == Restamped(once, again).nodes[i]
    {
      var node := once.nodes[i];
      assert AgreeNode(twice.nodes[i], node, []);
      assert SameReg(twice.nodes[i], node, RStarted);
      assert SameReg(twice.nodes[i], node, RFinished);
      var restamped := Restamped(once, again).nodes[i];
      forall r: NodeReg
        ensures SameReg(twice.nodes[i], restamped, r)
      {
        assert SameReg(twice.nodes[i], node, r);
      }
      SameNode(twice.nodes[i], restamped);
    }
    assert twice.nodes == Restamped(once, again).nodes;
    forall r: RunReg
      ensures SameRunReg(twice, Restamped(once, again), r)
    {
      assert SameRunReg(twice, once, r);
    }
    SameRun(twice, Restamped(once, again));
  }

  /** Folded again at the very readings it was folded at, a suffix changes nothing. */
  lemma {:induction false} SameReplayIsAbsorbed(run: Run, before: seq<Stamped>, suffix: seq<Stamped>)
    ensures Fold(Fold(run, before + suffix), suffix) == Fold(run, before + suffix)
  {
    var once := Fold(run, before + suffix);
    ReplayedSuffixIsAbsorbed(run, before, suffix, suffix);
    FoldClocks(run, before + suffix);
    FoldNodes(run, before + suffix);
    forall i | 0 <= i < |once.nodes|
      ensures once.nodes[i].finishedAt == Or(LastCompletion(suffix, once.nodes[i].id), once.nodes[i].finishedAt)
    {
      FoldNodeKeepsId(run.nodes[i], before + suffix);
      LastCompletionConcat(before, suffix, run.nodes[i].id);
    }
    assert Restamped(once, suffix).nodes == once.nodes;
  }
}
