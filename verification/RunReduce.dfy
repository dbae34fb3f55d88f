/**
 Folding stream events into the run the console shows
 (apps/web/lib/run-reduce.ts), and what of their order the fold can see.
 */
module RunReduce {
  import opened Prelude

  // ----- values ---------------------------------------------------------

  type Stamp = int

  /** A JavaScript string. Strings that spell an amount of dollars are told
      apart, because `Number(...)` reads them; of the others it reads a blank one as
      zero and the rest as NaN. */
  datatype Str = Word(text: string) | Amount(micros: int)

  /** The values `JSON.parse` can put behind a key. */
  datatype Json =
    | Null
    | Bool(b: bool)
    | Number(n: int)
    | String(s: Str)
    | Object(fields: map<string, Json>)

  datatype RunStatus = Queued | Running | AwaitingApproval | AwaitingHumanTask | Succeeded | Failed | Cancelled

  datatype NodeStatus =
    | NodeQueued | NodeRunning | NodeAwaitingApproval | NodeAwaitingHumanTask
    | NodeSucceeded | NodeFailed | NodeSkipped

  /** The fields of a node that no event touches. */
  datatype NodeSpec = NodeSpec(name: string, stage: string, gate: bool, dependsOn: seq<Str>)

  datatype Node = Node(
    id: Str,
    spec: NodeSpec,
    status: Option<NodeStatus>,
    attempt: Option<int>,
    model: Option<Str>,
    tokenIn: Option<int>,
    tokenOut: Option<int>,
    cost: Option<Str>,
    latencyMs: Option<int>,
    startedAt: Option<Stamp>,
    finishedAt: Option<Stamp>,
    error: Option<Json>)

  /** `fixed` stands for every field of the run that no event touches. */
  datatype Run = Run(
    fixed: string,
    status: RunStatus,
    cost: Str,
    finishedAt: Option<Stamp>,
    error: Option<Json>,
    nodes: seq<Node>)

  datatype Kind =
    | StatusChanged | Started | Progress | Tokens | Completed | NodeError
    | ApprovalRequired | HumanTaskRequired | RunCompleted | ExportReady

  datatype Event = Event(kind: Kind, data: map<string, Json>)

  /** An event together with what the clock reads when it is applied. */
  datatype Stamped = Stamped(event: Event, now: Stamp)

  // ----- reading a field of the payload ---------------------------------

  /** None is `undefined`. */
  function Field(data: map<string, Json>, name: string): Option<Json> {
    if name in data then Some(data[name]) else None
  }

  function StringField(data: map<string, Json>, name: string): Option<Str> {
    if name in data && data[name].String? then Some(data[name].s) else None
  }

  function NumberField(data: map<string, Json>, name: string): Option<int> {
    if name in data && data[name].Number? then Some(data[name].n) else None
  }

  /** `data.error ?? null`: both `undefined` and `null` are absent. */
  function ErrorField(data: map<string, Json>): Option<Json> {
    if "error" in data && data["error"] != Null then Some(data["error"]) else None
  }

  function NodeIdOf(e: Event): Option<Str> {
    StringField(e.data, "node_id")
  }

  /** The six statuses the console knows. A status the API knows and the console
      does not (`awaiting_human_task`) reads as null. */
  function AsRunStatus(value: Option<Str>): Option<RunStatus> {
    if value == Some(Word("queued")) then Some(Queued)
    else if value == Some(Word("running")) then Some(Running)
    else if value == Some(Word("awaiting_approval")) then Some(AwaitingApproval)
    else if value == Some(Word("succeeded")) then Some(Succeeded)
    else if value == Some(Word("failed")) then Some(Failed)
    else if value == Some(Word("cancelled")) then Some(Cancelled)
    else None
  }

  function StatusField(e: Event): Option<RunStatus> {
    AsRunStatus(StringField(e.data, "status"))
  }

  function Or<T>(first: Option<T>, fallback: Option<T>): Option<T> {
    if first.Some? then first else fallback
  }

  // ----- the run's spend ------------------------------------------------

  datatype Sum = Finite(micros: int) | NaN

  function NumberOf(cost: Option<Str>): Sum {
    match cost
    case None => Finite(0)
    case Some(Amount(micros)) => Finite(micros)
    case Some(Word(text)) => if Blank(text) then Finite(0) else NaN
  }

  predicate Blank(text: string) {
    forall i :: 0 <= i < |text| ==> text[i] in {' ', '\t', '\n', '\r'}
  }

  /** A cost that is no amount counts for nothing when it is blank, and spoils the sum
      as soon as any character of it is not white space. */
  lemma WordsCountForNothing(front: string, c: char, rest: string)
    requires c !in " \t\n\r"
    ensures NumberOf(Some(Word(front + [c] + rest))) == NaN
    ensures NumberOf(Some(Word(""))) == NumberOf(Some(Word("\t \n"))) == Finite(0)
  {
    var text, blanks := front + [c] + rest, " \t\n\r";
    assert text[|front|] == c;
    assert blanks[0] == ' ' && blanks[1] == '\t' && blanks[2] == '\n' && blanks[3] == '\r';
  }

  function Plus(a: Sum, b: Sum): Sum {
    if a.Finite? && b.Finite? then Finite(a.micros + b.micros) else NaN
  }

  function SpendOf(nodes: seq<Node>): Sum {
    if nodes == [] then Finite(0) else Plus(SpendOf(nodes[..|nodes| - 1]), NumberOf(nodes[|nodes| - 1].cost))
  }

  function ToFixed(total: Sum): Str {
    if total.Finite? then Amount(total.micros) else Word("NaN")
  }

  function WithRunCost(run: Run): Run {
    run.(cost := ToFixed(SpendOf(run.nodes)))
  }

  // ----- applying one event ---------------------------------------------

  /** What an event does to the node it names. */
  function Patch(e: Event, now: Stamp, node: Node): Node {
    match e.kind
    case Started => node.(
      status := Some(NodeRunning),
      attempt := Or(NumberField(e.data, "attempt"), node.attempt),
      startedAt := Or(node.startedAt, Some(now)),
      error := None)
    case Tokens => node.(
      tokenIn := Or(NumberField(e.data, "token_in"), node.tokenIn),
      tokenOut := Or(NumberField(e.data, "token_out"), node.tokenOut),
      cost := Or(StringField(e.data, "cost_usd"), node.cost))
    case Completed => node.(
      status := Some(NodeSucceeded),
      model := Or(StringField(e.data, "model"), node.model),
      cost := Or(StringField(e.data, "cost_usd"), node.cost),
      latencyMs := Or(NumberField(e.data, "latency_ms"), node.latencyMs),
      finishedAt := Some(now))
    case NodeError => node.(
      status := Some(if Field(e.data, "will_retry") == Some(Bool(true)) then NodeRunning else NodeFailed),
      attempt := Or(NumberField(e.data, "attempt"), node.attempt),
      error := Or(ErrorField(e.data), node.error))
    case ApprovalRequired => node.(status := Some(NodeAwaitingApproval))
    case _ => node
  }

  /** Every node carrying the event's id is patched; an id no node carries
      changes nothing. */
  function PatchNodes(run: Run, e: Event, now: Stamp): Run {
    run.(nodes := seq(|run.nodes|, i requires 0 <= i < |run.nodes| => NodeStep(run.nodes[i], e, now)))
  }

  function NodeStep(node: Node, e: Event, now: Stamp): Node {
    if NodeIdOf(e) == Some(node.id) then Patch(e, now, node) else node
  }

  function ApplyRunEvent(run: Run, e: Event, now: Stamp): Run {
    match e.kind
    case StatusChanged => run.(status := StatusField(e).GetOr(run.status))
    case RunCompleted => run.(
      status := StatusField(e).GetOr(run.status),
      finishedAt := Or(run.finishedAt, Some(now)),
      cost := StringField(e.data, "cost_usd").GetOr(run.cost),
      error := if "error" in e.data then ErrorField(e.data) else run.error)
    case Started => PatchNodes(run, e, now)
    case Tokens => WithRunCost(PatchNodes(run, e, now))
    case Completed => WithRunCost(PatchNodes(run, e, now))
    case NodeError => PatchNodes(run, e, now)
    case ApprovalRequired => PatchNodes(run, e, now).(status := AwaitingApproval)
    case Progress => run
    case ExportReady => run
    case HumanTaskRequired => run
  }

  function Fold(run: Run, es: seq<Stamped>): Run
    decreases |es|
  {
    if es == [] then run else Fold(ApplyRunEvent(run, es[0].event, es[0].now), es[1..])
  }

  lemma {:induction false} FoldConcat(run: Run, xs: seq<Stamped>, ys: seq<Stamped>)
    ensures Fold(run, xs + ys) == Fold(Fold(run, xs), ys)
    decreases |xs|
  {
    if xs == [] {
      assert xs + ys == ys;
    } else {
      assert (xs + ys)[1..] == xs[1..] + ys;
      FoldConcat(ApplyRunEvent(run, xs[0].event, xs[0].now), xs[1..], ys);
    }
  }

  // ----- one event ---------------------------------------------------------

  /** Events of a run-level kind patch no node. */
  lemma {:induction false} NodesOfApply(run: Run, e: Event, now: Stamp)
    ensures ApplyRunEvent(run, e, now).nodes == PatchNodes(run, e, now).nodes
    ensures ApplyRunEvent(run, e, now).fixed == run.fixed
  {
  }

  lemma {:induction false} CostOfApply(run: Run, e: Event, now: Stamp)
    ensures ApplyRunEvent(run, e, now).cost ==
      match CostSourceOf(e)
      case Untouched => run.cost
      case Derived => ToFixed(SpendOf(ApplyRunEvent(run, e, now).nodes))
      case Stated(cost) => cost
  {
    if e.kind.Tokens? || e.kind.Completed? {
      assert ApplyRunEvent(run, e, now) == WithRunCost(PatchNodes(run, e, now));
    } else if !e.kind.RunCompleted? {
      assert ApplyRunEvent(run, e, now).cost == run.cost;
    }
  }

  ghost predicate SameCosts(a: seq<Node>, b: seq<Node>) {
    |a| == |b| && forall i :: 0 <= i < |a| ==> a[i].cost == b[i].cost
  }

  lemma {:induction false} SpendAgrees(a: seq<Node>, b: seq<Node>)
    requires SameCosts(a, b)
    ensures SpendOf(a) == SpendOf(b)
    decreases |a|
  {
    if a != [] {
      SpendAgrees(a[..|a| - 1], b[..|b| - 1]);
    }
  }

  // ----- what events say, and what is shown after them -----------------------

  /** What an event states of a node; nothing when it does not name it. A start clears the
      error, an attempt that will be retried leaves the node running. */
  datatype NodeSaid = NodeSaid(
    status: Option<NodeStatus>, attempt: Option<int>, model: Option<Str>, tokenIn: Option<int>, tokenOut: Option<int>,
    cost: Option<Str>, latencyMs: Option<int>, error: Option<Option<Json>>)

  const Silence := NodeSaid(None, None, None, None, None, None, None, None)

  function NodeSaidBy(e: Event, id: Str): NodeSaid {
    if NodeIdOf(e) != Some(id) then Silence
    else
      match e.kind
      case Started =>
        Silence.(status := Some(NodeRunning), attempt := NumberField(e.data, "attempt"), error := Some(None))
      case Tokens =>
        Silence.(
          tokenIn := NumberField(e.data, "token_in"), tokenOut := NumberField(e.data, "token_out"),
          cost := StringField(e.data, "cost_usd"))
      case Completed =>
        Silence.(
          status := Some(NodeSucceeded), model := StringField(e.data, "model"),
          cost := StringField(e.data, "cost_usd"), latencyMs := NumberField(e.data, "latency_ms"))
      case NodeError =>
        var retried := "will_retry" in e.data && e.data["will_retry"] == Bool(true);
        var error := if "error" in e.data && e.data["error"] != Null then Some(Some(e.data["error"])) else None;
        Silence.(
          status := Some(if retried then NodeRunning else NodeFailed),
          attempt := NumberField(e.data, "attempt"), error := error)
      case ApprovalRequired => Silence.(status := Some(NodeAwaitingApproval))
      case _ => Silence
  }

  /** The last word on each field. */
  function NodeSaidAfter(es: seq<Stamped>, id: Str): NodeSaid {
    if es == [] then Silence
    else
      var first, later := NodeSaidBy(es[0].event, id), NodeSaidAfter(es[1..], id);
      NodeSaid(
        Or(later.status, first.status), Or(later.attempt, first.attempt), Or(later.model, first.model),
        Or(later.tokenIn, first.tokenIn), Or(later.tokenOut, first.tokenOut), Or(later.cost, first.cost),
        Or(later.latencyMs, first.latencyMs), Or(later.error, first.error))
  }

  /** A node shows the last word on each of its fields, or what it showed before. */
  ghost predicate ShowsSaid(before: Node, after: Node, said: NodeSaid) {
    && after.id == before.id && after.spec == before.spec
    && after.status == Or(said.status, before.status)
    && after.attempt == Or(said.attempt, before.attempt)
    && after.model == Or(said.model, before.model)
    && after.tokenIn == Or(said.tokenIn, before.tokenIn)
    && after.tokenOut == Or(said.tokenOut, before.tokenOut)
    && after.cost == Or(said.cost, before.cost)
    && after.latencyMs == Or(said.latencyMs, before.latencyMs)
    && after.error == said.error.GetOr(before.error)
  }

  lemma {:induction false} OneEventIsShown(node: Node, e: Event, now: Stamp)
    ensures ShowsSaid(node, NodeStep(node, e, now), NodeSaidBy(e, node.id))
  {
  }

  lemma {:induction false} FirstThenLater(before: Node, next: Node, after: Node, es: seq<Stamped>)
    requires es != [] && ShowsSaid(before, next, NodeSaidBy(es[0].event, before.id))
    requires ShowsSaid(next, after, NodeSaidAfter(es[1..], before.id))
    ensures ShowsSaid(before, after, NodeSaidAfter(es, before.id))
  {
  }

  /** After any stream every node shows what the stream said of it last. */
  lemma {:induction false} FoldShowsSaid(run: Run, es: seq<Stamped>)
    ensures |Fold(run, es).nodes| == |run.nodes|
    ensures forall i :: 0 <= i < |run.nodes| ==>
      ShowsSaid(run.nodes[i], Fold(run, es).nodes[i], NodeSaidAfter(es, run.nodes[i].id))
    decreases |es|
  {
    if es != [] {
      var next := ApplyRunEvent(run, es[0].event, es[0].now);
      NodesOfApply(run, es[0].event, es[0].now);
      FoldShowsSaid(next, es[1..]);
      forall i | 0 <= i < |run.nodes|
        ensures ShowsSaid(run.nodes[i], Fold(run, es).nodes[i], NodeSaidAfter(es, run.nodes[i].id))
      {
        OneEventIsShown(run.nodes[i], es[0].event, es[0].now);
        FirstThenLater(run.nodes[i], next.nodes[i], Fold(run, es).nodes[i], es);
      }
    }
  }

  predicate MovesStatus(e: Event, id: Str) {
    NodeIdOf(e) == Some(id)
    && (e.kind.Started? || e.kind.Completed? || e.kind.NodeError? || e.kind.ApprovalRequired?)
  }

  lemma {:induction false} LastMove(es: seq<Stamped>, id: Str, i: nat)
    requires i < |es| && MovesStatus(es[i].event, id)
    requires forall j :: i < j < |es| ==> !MovesStatus(es[j].event, id)
    ensures NodeSaidAfter(es, id).status == NodeSaidBy(es[i].event, id).status
    decreases |es|
  {
    if i == 0 {
      NoMove(es[1..], id);
    } else {
      LastMove(es[1..], id, i - 1);
    }
  }

  lemma {:induction false} NoMove(es: seq<Stamped>, id: Str)
    requires forall j :: 0 <= j < |es| ==> !MovesStatus(es[j].event, id)
    ensures NodeSaidAfter(es, id).status.None?
    decreases |es|
  {
    if es != [] {
      assert !MovesStatus(es[0].event, id);
      NoMove(es[1..], id);
    }
  }

  /** The status of a node is that of the last event that moved it: running after a start
      and after a failure that will be retried, failed after one that will not, succeeded
      after a completion, awaiting approval after a request for one. */
  lemma {:induction false} StatusIsTheLastMoves(run: Run, es: seq<Stamped>, n: nat, i: nat)
    requires n < |run.nodes| && i < |es| && MovesStatus(es[i].event, run.nodes[n].id)
    requires forall j :: i < j < |es| ==> !MovesStatus(es[j].event, run.nodes[n].id)
    ensures |Fold(run, es).nodes| == |run.nodes|
    ensures Fold(run, es).nodes[n].status ==
      match es[i].event.kind
      case Started => Some(NodeRunning)
      case Completed => Some(NodeSucceeded)
      case ApprovalRequired => Some(NodeAwaitingApproval)
      case _ =>
        if "will_retry" in es[i].event.data && es[i].event.data["will_retry"] == Bool(true) then Some(NodeRunning)
        else Some(NodeFailed)
  {
    FoldShowsSaid(run, es);
    LastMove(es, run.nodes[n].id, i);
  }

  function StatusText(s: RunStatus): string {
    match s
    case Queued => "queued"
    case Running => "running"
    case AwaitingApproval => "awaiting_approval"
    case AwaitingHumanTask => "awaiting_human_task"
    case Succeeded => "succeeded"
    case Failed => "failed"
    case Cancelled => "cancelled"
  }

  /** A status is read exactly by its name, and the one the console does not know not
      at all. */
  lemma StatusIsReadByName(value: Option<Str>, s: RunStatus)
    ensures AsRunStatus(value) == Some(s) <==> value == Some(Word(StatusText(s))) && s != AwaitingHumanTask
  {
  }

  /** What an event states of the run itself. */
  datatype RunSaid = RunSaid(status: Option<RunStatus>, error: Option<Option<Json>>)

  function RunSaidBy(e: Event): RunSaid {
    match e.kind
    case StatusChanged => RunSaid(AsRunStatus(StringField(e.data, "status")), None)
    case RunCompleted =>
      var error :=
        if "error" !in e.data then None
        else if e.data["error"] == Null then Some(None)
        else Some(Some(e.data["error"]));
      RunSaid(AsRunStatus(StringField(e.data, "status")), error)
    case ApprovalRequired => RunSaid(Some(AwaitingApproval), None)
    case _ => RunSaid(None, None)
  }

  function RunSaidAfter(es: seq<Stamped>): RunSaid {
    if es == [] then RunSaid(None, None)
    else
      var first, later := RunSaidBy(es[0].event), RunSaidAfter(es[1..]);
      RunSaid(Or(later.status, first.status), Or(later.error, first.error))
  }

  /** After any stream the run shows the last status and the last error the stream said of
      it; an end that says `null` clears the error, one that says nothing leaves it. */
  lemma {:induction false} FoldShowsRunSaid(run: Run, es: seq<Stamped>)
    ensures Fold(run, es).status == RunSaidAfter(es).status.GetOr(run.status)
    ensures Fold(run, es).error == RunSaidAfter(es).error.GetOr(run.error)
    decreases |es|
  {
    if es != [] {
      FoldShowsRunSaid(ApplyRunEvent(run, es[0].event, es[0].now), es[1..]);
    }
  }

  // ----- clocks -----------------------------------------------------------

  function FirstStart(es: seq<Stamped>, id: Str): Option<Stamp> {
    if es == [] then None
    else if es[0].event.kind.Started? && NodeIdOf(es[0].event) == Some(id) then Some(es[0].now)
    else FirstStart(es[1..], id)
  }

  function LastCompletion(es: seq<Stamped>, id: Str): Option<Stamp> {
    if es == [] then None
    else Or(LastCompletion(es[1..], id),
            if es[0].event.kind.Completed? && NodeIdOf(es[0].event) == Some(id) then Some(es[0].now) else None)
  }

  function FirstEnd(es: seq<Stamped>): Option<Stamp> {
    if es == [] then None
    else if es[0].event.kind.RunCompleted? then Some(es[0].now)
    else FirstEnd(es[1..])
  }

  lemma {:induction false} StepClocks(run: Run, e: Event, now: Stamp)
    ensures var next := ApplyRunEvent(run, e, now);
      && next.finishedAt == Or(run.finishedAt, if e.kind.RunCompleted? then Some(now) else None)
      && |next.nodes| == |run.nodes|
      && forall i :: 0 <= i < |run.nodes| ==> next.nodes[i] == NodeStep(run.nodes[i], e, now)
  {
    NodesOfApply(run, e, now);
  }

  lemma {:induction false} NodeStepClocks(node: Node, e: Event, now: Stamp)
    ensures var next := NodeStep(node, e, now);
      && next.id == node.id
      && next.startedAt == Or(node.startedAt, FirstStart([Stamped(e, now)], node.id))
      && next.finishedAt == Or(LastCompletion([Stamped(e, now)], node.id), node.finishedAt)
  {
  }

  /** What the clock fields hold after a stream: the first stamp for `started_at`
      and the run's `finished_at`, the last one for a node's `finished_at`. */
  lemma {:induction false} FoldClocks(run: Run, es: seq<Stamped>)
    ensures Fold(run, es).finishedAt == Or(run.finishedAt, FirstEnd(es))
    ensures |Fold(run, es).nodes| == |run.nodes|
    ensures forall i :: 0 <= i < |run.nodes| ==>
      && Fold(run, es).nodes[i].startedAt == Or(run.nodes[i].startedAt, FirstStart(es, run.nodes[i].id))
      && Fold(run, es).nodes[i].finishedAt == Or(LastCompletion(es, run.nodes[i].id), run.nodes[i].finishedAt)
    decreases |es|
  {
    if es != [] {
      var next := ApplyRunEvent(run, es[0].event, es[0].now);
      StepClocks(run, es[0].event, es[0].now);
      FoldClocks(next, es[1..]);
      forall i | 0 <= i < |run.nodes|
        ensures next.nodes[i].id == run.nodes[i].id
        ensures Or(next.nodes[i].startedAt, FirstStart(es[1..], run.nodes[i].id)) ==
          Or(run.nodes[i].startedAt, FirstStart(es, run.nodes[i].id))
        ensures Or(LastCompletion(es[1..], run.nodes[i].id), next.nodes[i].finishedAt) ==
          Or(LastCompletion(es, run.nodes[i].id), run.nodes[i].finishedAt)
      {
        NodeStepClocks(run.nodes[i], es[0].event, es[0].now);
      }
    }
  }

  lemma {:induction false} LastCompletionConcat(xs: seq<Stamped>, ys: seq<Stamped>, id: Str)
    ensures LastCompletion(xs + ys, id) == Or(LastCompletion(ys, id), LastCompletion(xs, id))
    decreases |xs|
  {
    if xs == [] {
      assert xs + ys == ys;
    } else {
      assert (xs + ys)[1..] == xs[1..] + ys;
      LastCompletionConcat(xs[1..], ys, id);
    }
  }

  // ----- confluence -------------------------------------------------------

  /** The subsequence of events that name `id`; `None` collects the events whose
      `node_id` is not a string. */
  function Addressed(es: seq<Stamped>, id: Option<Str>): seq<Stamped> {
    if es == [] then []
    else (if NodeIdOf(es[0].event) == id then [es[0]] else []) + Addressed(es[1..], id)
  }

  predicate IsRunLevel(e: Event) {
    e.kind.StatusChanged? || e.kind.RunCompleted? || e.kind.ApprovalRequired?
  }

  /** The subsequence of events that write the run's own status, error or end. */
  function RunLevel(es: seq<Stamped>): seq<Stamped> {
    if es == [] then []
    else (if IsRunLevel(es[0].event) then [es[0]] else []) + RunLevel(es[1..])
  }

  /** Where the run's cost comes from once a stream is folded. */
  datatype CostSource = Untouched | Derived | Stated(cost: Str)

  function CostSourceOf(e: Event): CostSource {
    if e.kind.Tokens? || e.kind.Completed? then Derived
    else if e.kind.RunCompleted? && StringField(e.data, "cost_usd").Some? then
      Stated(StringField(e.data, "cost_usd").value)
    else Untouched
  }

  function LastCostSource(es: seq<Stamped>): CostSource {
    if es == [] then Untouched
    else if LastCostSource(es[1..]) != Untouched then LastCostSource(es[1..])
    else CostSourceOf(es[0].event)
  }

  function FoldNode(node: Node, es: seq<Stamped>): Node
    decreases |es|
  {
    if es == [] then node else FoldNode(NodeStep(node, es[0].event, es[0].now), es[1..])
  }

  /** A node's final state is decided by the events that name it. */
  lemma {:induction false} FoldNodeIsLocal(node: Node, es: seq<Stamped>)
    ensures FoldNode(node, es) == FoldNode(node, Addressed(es, Some(node.id)))
    decreases |es|
  {
    if es != [] {
      FoldNodeIsLocal(NodeStep(node, es[0].event, es[0].now), es[1..]);
      if NodeIdOf(es[0].event) == Some(node.id) {
        assert Addressed(es, Some(node.id))[1..] == Addressed(es[1..], Some(node.id));
      } else {
        assert Addressed(es, Some(node.id)) == Addressed(es[1..], Some(node.id));
      }
    }
  }

  lemma {:induction false} FoldNodeKeepsId(node: Node, es: seq<Stamped>)
    ensures FoldNode(node, es).id == node.id
    decreases |es|
  {
    if es != [] {
      FoldNodeKeepsId(NodeStep(node, es[0].event, es[0].now), es[1..]);
    }
  }

  lemma {:induction false} FoldNodes(run: Run, es: seq<Stamped>)
    ensures |Fold(run, es).nodes| == |run.nodes| && Fold(run, es).fixed == run.fixed
    ensures forall i :: 0 <= i < |run.nodes| ==> Fold(run, es).nodes[i] == FoldNode(run.nodes[i], es)
    decreases |es|
  {
    if es != [] {
      NodesOfApply(run, es[0].event, es[0].now);
      FoldNodes(ApplyRunEvent(run, es[0].event, es[0].now), es[1..]);
    }
  }

  /** The run's own status, error and end are decided by the run-level events. */
  lemma {:induction false} FoldHeadIsLocal(run: Run, other: Run, es: seq<Stamped>)
    requires run.status == other.status && run.error == other.error && run.finishedAt == other.finishedAt
    ensures var a, b := Fold(run, es), Fold(other, RunLevel(es));
      a.status == b.status && a.error == b.error && a.finishedAt == b.finishedAt
    decreases |es|
  {
    if es != [] {
      var next := ApplyRunEvent(run, es[0].event, es[0].now);
      if IsRunLevel(es[0].event) {
        assert RunLevel(es)[1..] == RunLevel(es[1..]);
        FoldHeadIsLocal(next, ApplyRunEvent(other, es[0].event, es[0].now), es[1..]);
      } else {
        assert RunLevel(es) == RunLevel(es[1..]);
        FoldHeadIsLocal(next, other, es[1..]);
      }
    }
  }

  /** A stream that never touches the cost leaves it, and the spend, where they were. */
  lemma {:induction false} CostStays(run: Run, es: seq<Stamped>)
    requires LastCostSource(es) == Untouched
    ensures Fold(run, es).cost == run.cost && SpendOf(Fold(run, es).nodes) == SpendOf(run.nodes)
    decreases |es|
  {
    if es != [] {
      var next := ApplyRunEvent(run, es[0].event, es[0].now);
      CostOfApply(run, es[0].event, es[0].now);
      NodesOfApply(run, es[0].event, es[0].now);
      SpendAgrees(next.nodes, run.nodes);
      CostStays(next, es[1..]);
    }
  }

  /** The run's cost is its nodes' spend, unless the run's end stated another
      figure after the last time it was derived. */
  lemma {:induction false} FoldCost(run: Run, es: seq<Stamped>)
    ensures Fold(run, es).cost ==
      match LastCostSource(es)
      case Untouched => run.cost
      case Derived => ToFixed(SpendOf(Fold(run, es).nodes))
      case Stated(cost) => cost
    decreases |es|
  {
    if es != [] {
      var next := ApplyRunEvent(run, es[0].event, es[0].now);
      FoldCost(next, es[1..]);
      if LastCostSource(es[1..]) == Untouched {
        CostStays(next, es[1..]);
      }
    }
  }

  /** Two streams in which each node sees its own events in the same order, the
      run sees its own in the same order, and the cost was last written the same
      way, fold to the same run: nothing else about the interleaving matters. */
  lemma {:induction false} Confluence(run: Run, xs: seq<Stamped>, ys: seq<Stamped>)
    requires forall id: Str :: Addressed(xs, Some(id)) == Addressed(ys, Some(id))
    requires RunLevel(xs) == RunLevel(ys) && LastCostSource(xs) == LastCostSource(ys)
    ensures Fold(run, xs) == Fold(run, ys)
  {
    FoldNodes(run, xs);
    FoldNodes(run, ys);
    forall i | 0 <= i < |run.nodes|
      ensures Fold(run, xs).nodes[i] == Fold(run, ys).nodes[i]
    {
      FoldNodeIsLocal(run.nodes[i], xs);
      FoldNodeIsLocal(run.nodes[i], ys);
      assert Addressed(xs, Some(run.nodes[i].id)) == Addressed(ys, Some(run.nodes[i].id));
    }
    assert Fold(run, xs).nodes == Fold(run, ys).nodes;
    FoldHeadIsLocal(run, run, xs);
    FoldHeadIsLocal(run, run, ys);
    FoldCost(run, xs);
    FoldCost(run, ys);
  }

  predicate IsNodeEvent(e: Event) {
    e.kind.Started? || e.kind.Tokens? || e.kind.Completed? || e.kind.NodeError?
  }

  ghost predicate OnlyNodeEvents(es: seq<Stamped>) {
    forall s :: s in es ==> IsNodeEvent(s.event)
  }

  lemma {:induction false} AddressedMembers(es: seq<Stamped>, s: Stamped)
    ensures s in Addressed(es, NodeIdOf(s.event)) <==> s in es
    decreases |es|
  {
    if es != [] {
      AddressedMembers(es[1..], s);
      assert s in es <==> s == es[0] || s in es[1..];
    }
  }

  lemma {:induction false} NodeEventsCost(es: seq<Stamped>)
    requires OnlyNodeEvents(es)
    ensures RunLevel(es) == []
    ensures LastCostSource(es) == if exists s :: s in es && CostSourceOf(s.event) == Derived then Derived else Untouched
    decreases |es|
  {
    if es != [] {
      NodeEventsCost(es[1..]);
      assert es[0] in es && forall s :: s in es <==> s == es[0] || s in es[1..];
    }
  }

  /** Node events commute across nodes: two streams of node events whose per-node
      subsequences agree fold to the same run, the derived run cost included. */
  lemma {:induction false} NodeEventsCommute(run: Run, xs: seq<Stamped>, ys: seq<Stamped>)
    requires OnlyNodeEvents(xs) && OnlyNodeEvents(ys)
    requires forall id: Option<Str> :: Addressed(xs, id) == Addressed(ys, id)
    ensures Fold(run, xs) == Fold(run, ys)
  {
    NodeEventsCost(xs);
    NodeEventsCost(ys);
    forall s: Stamped
      ensures s in xs <==> s in ys
    {
      AddressedMembers(xs, s);
      AddressedMembers(ys, s);
      assert Addressed(xs, NodeIdOf(s.event)) == Addressed(ys, NodeIdOf(s.event));
    }
    forall id: Str
      ensures Addressed(xs, Some(id)) == Addressed(ys, Some(id))
    {
      assert Addressed(xs, Some(id)) == Addressed(ys, Some(id));
    }
    Confluence(run, xs, ys);
  }
}
