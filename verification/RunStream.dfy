/**
 The protocol around the fold (apps/web/lib/run-events.ts): one browser reading
 one run's event log through drops, reconnects, snapshots and remounts.

 An event id is the event's position in the run's append-only log. `Console`
 holds what the hook's closures and the query cache hold; `Step` lets the world
 act on it, one accepted action at a time.
 */
module RunStream {
  import opened Prelude
  import opened RunReduce
  import opened RunAgreement

  datatype StreamState = Connecting | Live | Reconnecting | Closed

  datatype Client = Client(
    lastEventId: Option<nat>,  // the browser's own cursor, sent back as a header
    cursor: Option<nat>,
    connections: nat,
    closed: bool,
    state: StreamState,
    run: Run)

  predicate IsLive(status: RunStatus) {
    !(status.Succeeded? || status.Failed? || status.Cancelled?)
  }

  /** The event types the hook registers a listener for. */
  predicate Listened(kind: Kind) {
    kind != HumanTaskRequired
  }

  // ----- the handlers -----------------------------------------------------

  function OnMount(c: Client): Client {
    Client(None, None, 0, false, Connecting, c.run)
  }

  function OnOpen(c: Client): Client {
    c.(connections := c.connections + 1, state := Live)
  }

  function OnError(c: Client): Client {
    if c.closed then c else c.(state := Reconnecting)
  }

  /** A frame reached the browser. Events of a finished run are a record, not
      news: they are not folded. */
  function OnMessage(c: Client, id: nat, s: Stamped): Client {
    var heard := c.(lastEventId := Some(id));
    if !Listened(s.event.kind) then heard
    else
      var folded := heard.(
        cursor := Some(id),
        run := if IsLive(c.run.status) then ApplyRunEvent(c.run, s.event, s.now) else c.run);
      if s.event.kind.RunCompleted? then folded.(closed := true, state := Closed) else folded
  }

  function OnSnapshot(c: Client, snapshot: Run): Client {
    c.(run := snapshot)
  }

  // ----- one server, one client, any schedule -------------------------------

  /** `feed` is the position the open connection sends from. */
  datatype System = System(client: Client, connected: bool, feed: nat)

  datatype Action = Mounts | Opens | Drops | Delivers(now: Stamp) | Reconciles(upTo: nat)

  /** How many events of the log the client has been handed. */
  function Position(c: Client): nat {
    if c.lastEventId.Some? then c.lastEventId.value + 1 else 0
  }

  /** What the server's own record of the run says after `upTo` events. */
  function Truth(start: Run, log: seq<Stamped>, upTo: nat): Run
    requires upTo <= |log|
  {
    Fold(start, log[..upTo])
  }

  predicate Enabled(log: seq<Stamped>, s: System, a: Action) {
    match a
    case Mounts => true
    case Opens => !s.connected && !s.client.closed
    case Drops => s.connected
    case Delivers(_) => s.connected && !s.client.closed && s.feed < |log|
    // A snapshot asked for before the latest events were delivered may arrive after
    // them.
    case Reconciles(upTo) => upTo <= |log|
  }

  /** A connection resumes right after the id the browser sends back, or at the
      beginning of the log when it has none. */
  function Step(start: Run, log: seq<Stamped>, s: System, a: Action): System
    requires Enabled(log, s, a)
  {
    match a
    case Mounts => System(OnMount(s.client), false, 0)
    case Opens => System(OnOpen(s.client), true, Position(s.client))
    case Drops => s.(client := OnError(s.client), connected := false)
    case Delivers(now) => s.(client := OnMessage(s.client, s.feed, Stamped(log[s.feed].event, now)), feed := s.feed + 1)
    case Reconciles(upTo) => s.(client := OnSnapshot(s.client, Truth(start, log, upTo)))
  }

  predicate Accepted(start: Run, log: seq<Stamped>, s: System, schedule: seq<Action>)
    decreases |schedule|
  {
    || schedule == []
    || (Enabled(log, s, schedule[0]) && Accepted(start, log, Step(start, log, s, schedule[0]), schedule[1..]))
  }

  function Play(start: Run, log: seq<Stamped>, s: System, schedule: seq<Action>): System
    requires Accepted(start, log, s, schedule)
    decreases |schedule|
  {
    if schedule == [] then s else Play(start, log, Step(start, log, s, schedule[0]), schedule[1..])
  }

  /** Which snapshots may arrive at a position of the cursor. */
  type Ages = (nat, nat) -> bool

  /** The node's row is committed before its event is published, so a snapshot read after
      an event was delivered already contains it. */
  predicate NoOlder(position: nat, upTo: nat) {
    position <= upTo
  }

  predicate Timely(ages: Ages, start: Run, log: seq<Stamped>, s: System, schedule: seq<Action>)
    requires Accepted(start, log, s, schedule)
    decreases |schedule|
  {
    schedule == []
    || ((schedule[0].Reconciles? ==> ages(Position(s.client), schedule[0].upTo))
        && Timely(ages, start, log, Step(start, log, s, schedule[0]), schedule[1..]))
  }

  function Fresh(snapshot: Run): System {
    System(Client(None, None, 0, false, Connecting, snapshot), false, 0)
  }

  // ----- what every schedule keeps ------------------------------------------

  predicate EndsRun(e: Event) {
    e.kind.RunCompleted? || (e.kind.StatusChanged? && StatusField(e).Some? && !IsLive(StatusField(e).value))
  }

  /** Just behind the first event that ends the run; the whole log when none does. */
  function End(log: seq<Stamped>): (n: nat)
    ensures n <= |log| && (n == 0 ==> log == [])
    ensures forall i :: 0 <= i < n - 1 ==> !EndsRun(log[i].event)
    ensures n < |log| ==> n > 0 && EndsRun(log[n - 1].event)
  {
    if log == [] then 0 else if EndsRun(log[0].event) then 1 else 1 + End(log[1..])
  }

  /** Nothing lasting happens behind the first end: the record stays what it was. */
  ghost predicate EndsForGood(start: Run, log: seq<Stamped>) {
    forall u :: End(log) <= u <= |log| ==> SameButClocks(Truth(start, log, u), Fold(start, log))
  }

  predicate Completes(log: seq<Stamped>, i: nat) {
    i < |log| && log[i].event.kind.RunCompleted?
  }

  /** A connection can deliver this far: it is closed by the first `run.completed`. */
  predicate Reached(log: seq<Stamped>, k: nat) {
    forall i: nat :: i < k - 1 ==> !Completes(log, i)
  }

  /** What holds whatever snapshots arrive. */
  ghost predicate Connected(log: seq<Stamped>, s: System) {
    && Position(s.client) <= |log|
    && (s.connected ==> s.feed == Position(s.client))
    && (s.client.closed <==> s.client.state == Closed)
    && Reached(log, Position(s.client))
    && (Position(s.client) > 0 && Completes(log, Position(s.client) - 1) ==> s.client.closed)
  }

  ghost predicate Wired(log: seq<Stamped>, s: System) {
    && Connected(log, s)
    && (End(log) <= Position(s.client) && End(log) < |log| ==> s.client.closed || !IsLive(s.client.run.status))
  }

  ghost predicate Inv(start: Run, log: seq<Stamped>, s: System) {
    var run, k := s.client.run, Position(s.client);
    && Wired(log, s)
    && (IsLive(run.status) && k <= End(log) ==> AgreeRun(run, Truth(start, log, k), log[k..End(log)]))
    && (!IsLive(run.status) || k >= End(log) ==> SameButClocks(run, Fold(start, log)))
  }

  lemma {:induction false} LiveBeforeTheEnd(start: Run, log: seq<Stamped>, upTo: nat)
    requires IsLive(start.status) && upTo < End(log)
    ensures IsLive(Truth(start, log, upTo).status)
    decreases upTo
  {
    if upTo == 0 {
      assert log[..0] == [];
    } else {
      LiveBeforeTheEnd(start, log, upTo - 1);
      TruthStep(start, log, upTo - 1);
      assert !EndsRun(log[upTo - 1].event);
    }
  }

  lemma {:induction false} TruthStep(start: Run, log: seq<Stamped>, k: nat)
    requires k < |log|
    ensures Truth(start, log, k + 1) == ApplyRunEvent(Truth(start, log, k), log[k].event, log[k].now)
  {
    assert log[..k + 1] == log[..k] + [log[k]];
    FoldConcat(start, log[..k], [log[k]]);
    assert [log[k]][1..] == [];
  }

  /** The record after more events differs from the record before them at most on
      what they write. */
  lemma {:induction false} LaterTruthAgrees(start: Run, log: seq<Stamped>, early: nat, late: nat, till: nat)
    requires early <= late <= till <= |log|
    ensures AgreeRun(Truth(start, log, late), Truth(start, log, early), log[early..till])
  {
    assert log[..late] == log[..early] + log[early..late];
    assert log[early..till] == log[early..late] + log[late..till];
    FoldConcat(start, log[..early], log[early..late]);
    FoldWritesOnly(Truth(start, log, early), log[early..late], log[late..till]);
  }

  lemma {:induction false} MountKeeps(start: Run, log: seq<Stamped>, run: Run, k: nat, till: nat)
    requires k <= till <= |log| && AgreeRun(run, Truth(start, log, k), log[k..till])
    ensures AgreeRun(run, Truth(start, log, 0), log[0..till])
  {
    LaterTruthAgrees(start, log, 0, k, till);
    assert log[0..till] == log[..k] + log[k..till];
    AgreeRunTransitive(run, Truth(start, log, k), Truth(start, log, 0), log[..k], log[k..till]);
  }

  lemma {:induction false} DeliveryKeeps(start: Run, log: seq<Stamped>, run: Run, k: nat, now: Stamp, till: nat)
    requires k < till <= |log|
    requires AgreeRun(run, Truth(start, log, k), log[k..till])
    ensures AgreeRun(ApplyRunEvent(run, log[k].event, now), Truth(start, log, k + 1), log[k + 1..till])
  {
    TruthStep(start, log, k);
    assert log[k..till] == [log[k]] + log[k + 1..till];
    var s := Stamped(log[k].event, now);
    WrittenBySameEvents([s] + log[k + 1..till], [log[k]] + log[k + 1..till]);
    AgreeUnderSameEvents(run, Truth(start, log, k), log[k..till], [s] + log[k + 1..till]);
    StepAgrees(run, Truth(start, log, k), s, log[k].now, log[k + 1..till]);
  }

  lemma {:induction false} StillLive(run: Run, e: Event, now: Stamp)
    requires IsLive(run.status) && !EndsRun(e)
    ensures IsLive(ApplyRunEvent(run, e, now).status)
  {
  }

  lemma {:induction false} SameButClocksReflexive(run: Run)
    ensures SameButClocks(run, run)
  {
    forall i | 0 <= i < |run.nodes|
      ensures AgreeNode(run.nodes[i], run.nodes[i], [])
    {
    }
  }

  lemma {:induction false} SameTransitive(a: Run, b: Run, c: Run)
    requires SameButClocks(a, b) && SameButClocks(b, c)
    ensures SameButClocks(a, c)
  {
    var none: seq<Stamped> := [];
    assert none + none == none;
    AgreeRunTransitive(a, b, c, none, none);
  }

  /** What shows the end agrees with the record at the end. */
  lemma {:induction false} AgreesAtTheEnd(start: Run, log: seq<Stamped>, run: Run)
    requires EndsForGood(start, log) && SameButClocks(run, Fold(start, log))
    ensures AgreeRun(run, Truth(start, log, End(log)), log[End(log)..End(log)])
  {
    var end := Truth(start, log, End(log));
    SameButClocksSymmetric(end, Fold(start, log));
    SameTransitive(run, Fold(start, log), end);
    assert log[End(log)..End(log)] == [];
  }

  /** A snapshot older than the cursor that the rest of the log makes good. */
  ghost predicate Harmless(start: Run, log: seq<Stamped>, k: nat, upTo: nat)
    requires k <= |log| && upTo <= |log|
  {
    && (k <= End(log) ==> AgreeRun(Truth(start, log, upTo), Truth(start, log, k), log[k..End(log)]))
    && (k >= End(log) ==> SameButClocks(Truth(start, log, upTo), Fold(start, log)))
  }

  lemma {:induction false} SnapshotKeeps(start: Run, log: seq<Stamped>, k: nat, upTo: nat)
    requires IsLive(start.status) && EndsForGood(start, log) && k <= |log| && upTo <= |log|
    requires k <= upTo || Harmless(start, log, k, upTo)
    ensures var run := Truth(start, log, upTo);
      && (k <= End(log) ==> AgreeRun(run, Truth(start, log, k), log[k..End(log)]))
      && (!IsLive(run.status) || k >= End(log) ==> SameButClocks(run, Fold(start, log)))
  {
    var run, e := Truth(start, log, upTo), End(log);
    if upTo < e {
      LiveBeforeTheEnd(start, log, upTo);
      if k <= upTo {
        LaterTruthAgrees(start, log, k, upTo, e);
      }
    } else if k <= e {
      AgreesAtTheEnd(start, log, run);
      LaterTruthAgrees(start, log, k, e, e);
      assert log[k..e] == log[k..e] + log[e..e];
      AgreeRunTransitive(run, Truth(start, log, e), Truth(start, log, k), log[k..e], log[e..e]);
    }
  }

  lemma {:induction false} LastDeliveryKeeps(start: Run, log: seq<Stamped>, run: Run)
    requires EndsForGood(start, log) && AgreeRun(run, Truth(start, log, End(log)), log[End(log)..End(log)])
    ensures SameButClocks(run, Fold(start, log))
  {
    assert log[End(log)..End(log)] == [];
    SameTransitive(run, Truth(start, log, End(log)), Fold(start, log));
  }

  lemma {:induction false} StepStaysConnected(start: Run, log: seq<Stamped>, s: System, a: Action)
    requires Connected(log, s) && Enabled(log, s, a)
    ensures Connected(log, Step(start, log, s, a))
  {
  }

  lemma {:induction false} StepKeepsInv(start: Run, log: seq<Stamped>, s: System, a: Action)
    requires IsLive(start.status) && EndsForGood(start, log)
    requires Inv(start, log, s) && Enabled(log, s, a)
    requires a.Reconciles? ==> NoOlder(Position(s.client), a.upTo) || Harmless(start, log, Position(s.client), a.upTo)
    ensures Inv(start, log, Step(start, log, s, a))
  {
    StepStaysConnected(start, log, s, a);
    var run, k, e := s.client.run, Position(s.client), End(log);
    match a
    case Mounts =>
      if IsLive(run.status) {
        if k > e {
          AgreesAtTheEnd(start, log, run);
        }
        MountKeeps(start, log, run, if k <= e then k else e, e);
      }
    case Opens =>
    case Drops =>
    case Delivers(now) =>
      if IsLive(run.status) {
        DeliveryKeeps(start, log, run, k, now, e);
        if k + 1 < e {
          StillLive(run, log[k].event, now);
        } else {
          LastDeliveryKeeps(start, log, ApplyRunEvent(run, log[k].event, now));
        }
      }
    case Reconciles(upTo) =>
      SnapshotKeeps(start, log, k, upTo);
      if k >= e {
        SameStatus(run, Truth(start, log, upTo), Fold(start, log));
      }
  }

  lemma {:induction false} SameStatus(a: Run, b: Run, c: Run)
    requires SameButClocks(a, c) && SameButClocks(b, c)
    ensures a.status == b.status
  {
    assert SameRunReg(a, c, SStatus) && SameRunReg(b, c, SStatus);
  }

  /** Every snapshot older than the cursor that may arrive is harmless. */
  ghost predicate Tolerates(start: Run, log: seq<Stamped>, ages: Ages) {
    forall k: nat, upTo: nat :: upTo < k <= |log| && Reached(log, k) && ages(k, upTo) ==> Harmless(start, log, k, upTo)
  }

  lemma {:induction false} PlayKeepsInv(ages: Ages, start: Run, log: seq<Stamped>, s: System, schedule: seq<Action>)
    requires IsLive(start.status) && EndsForGood(start, log) && Tolerates(start, log, ages)
    requires Inv(start, log, s) && Accepted(start, log, s, schedule) && Timely(ages, start, log, s, schedule)
    ensures Inv(start, log, Play(start, log, s, schedule))
    decreases |schedule|
  {
    if schedule != [] {
      StepKeepsInv(start, log, s, schedule[0]);
      PlayKeepsInv(ages, start, log, Step(start, log, s, schedule[0]), schedule[1..]);
    }
  }

  lemma {:induction false} FreshInv(start: Run, log: seq<Stamped>, upTo: nat)
    requires IsLive(start.status) && EndsForGood(start, log) && upTo <= |log|
    ensures Inv(start, log, Fresh(Truth(start, log, upTo)))
  {
    SnapshotKeeps(start, log, 0, upTo);
  }

  // ----- hearing the end --------------------------------------------------------

  /** Opened on a snapshot and put through a schedule of deliveries, drops, reconnects,
      remounts and snapshots of any age, has the console heard the end? */
  predicate HearsTheEnd(start: Run, log: seq<Stamped>, upTo: nat, schedule: seq<Action>) {
    && upTo <= |log|
    && Accepted(start, log, Fresh(Truth(start, log, upTo)), schedule)
    && Position(Play(start, log, Fresh(Truth(start, log, upTo)), schedule).client) >= End(log)
  }

  /** The same, with snapshots no older than `ages` lets them be. */
  predicate HearsTheEndWithin(ages: Ages, start: Run, log: seq<Stamped>, upTo: nat, schedule: seq<Action>) {
    HearsTheEnd(start, log, upTo, schedule) && Timely(ages, start, log, Fresh(Truth(start, log, upTo)), schedule)
  }

  function Shown(start: Run, log: seq<Stamped>, upTo: nat, schedule: seq<Action>): Run
    requires HearsTheEnd(start, log, upTo, schedule)
  {
    Play(start, log, Fresh(Truth(start, log, upTo)), schedule).client.run
  }

  ghost predicate AlwaysConverges(ages: Ages, start: Run, log: seq<Stamped>) {
    forall upTo, schedule :: HearsTheEndWithin(ages, start, log, upTo, schedule) ==>
      SameButClocks(Shown(start, log, upTo, schedule), Fold(start, log))
  }

  /** Every delivery is read at the stamp the log gives its event. */
  predicate OwnStamps(start: Run, log: seq<Stamped>, s: System, schedule: seq<Action>)
    requires Accepted(start, log, s, schedule)
    decreases |schedule|
  {
    schedule == []
    || ((schedule[0].Delivers? ==> schedule[0].now == log[s.feed].now)
        && OwnStamps(start, log, Step(start, log, s, schedule[0]), schedule[1..]))
  }

  // ----- a schedule that hears the log ----------------------------------------------

  function Deliveries(log: seq<Stamped>, k: nat, till: nat): seq<Action>
    requires k <= till <= |log|
    decreases till - k
  {
    if k == till then [] else [Delivers(log[k].now)] + Deliveries(log, k + 1, till)
  }

  /** The deliveries up to here are all folded: none but the last ends the run. */
  predicate Folds(log: seq<Stamped>, s: System, till: nat)
    requires s.feed <= till <= |log|
  {
    || s.feed == till
    || (IsLive(s.client.run.status) && forall i :: s.feed <= i < till - 1 ==> !EndsRun(log[i].event))
  }

  lemma {:induction false} DeliveriesReach(
    ages: Ages, start: Run, log: seq<Stamped>, s: System, till: nat, tail: seq<Action>)
    returns (after: System)
    requires s.connected && s.feed == Position(s.client) <= till <= |log|
    requires s.client.closed ==> s.feed == till
    requires forall i :: s.feed <= i < till - 1 ==> !log[i].event.kind.RunCompleted?
    ensures after.connected && after.feed == Position(after.client) == till
    ensures after.client.closed ==> s.client.closed || (till > 0 && Completes(log, till - 1))
    ensures Folds(log, s, till) ==>
      after.client.run == Fold(s.client.run, log[s.feed..till])
    ensures Accepted(start, log, s, Deliveries(log, s.feed, till) + tail) <==> Accepted(start, log, after, tail)
    ensures Accepted(start, log, after, tail) ==>
      var schedule := Deliveries(log, s.feed, till) + tail;
      && Play(start, log, s, schedule) == Play(start, log, after, tail)
      && (OwnStamps(start, log, s, schedule) <==> OwnStamps(start, log, after, tail))
      && (Timely(ages, start, log, s, schedule) <==> Timely(ages, start, log, after, tail))
    decreases till - s.feed
  {
    var schedule := Deliveries(log, s.feed, till) + tail;
    if s.feed == till {
      assert schedule == tail && log[s.feed..till] == [];
      after := s;
    } else {
      var a := Delivers(log[s.feed].now);
      var next := Step(start, log, s, a);
      assert schedule[0] == a && schedule[1..] == Deliveries(log, s.feed + 1, till) + tail;
      assert log[s.feed..till][0] == log[s.feed] && log[s.feed..till][1..] == log[s.feed + 1..till];
      if Folds(log, s, till) && s.feed + 1 < till {
        StillLive(s.client.run, log[s.feed].event, log[s.feed].now);
      }
      after := DeliveriesReach(ages, start, log, next, till, tail);
    }
  }

  /** Some console hears the end and then shows any later record. */
  lemma {:induction false} EndIsHeard(ages: Ages, start: Run, log: seq<Stamped>, u: nat)
    requires End(log) <= u <= |log| && ages(End(log), u)
    ensures exists upTo, schedule ::
      && HearsTheEndWithin(ages, start, log, upTo, schedule)
      && OwnStamps(start, log, Fresh(Truth(start, log, upTo)), schedule)
      && Shown(start, log, upTo, schedule) == Truth(start, log, u)
  {
    var schedule := SnapshotIsShown(ages, start, log, End(log), u);
  }

  /** Some console hears the first k events and then shows any record that may arrive. */
  lemma {:induction false} SnapshotIsShown(ages: Ages, start: Run, log: seq<Stamped>, k: nat, u: nat)
    returns (schedule: seq<Action>)
    requires End(log) <= k <= |log| && u <= |log| && Reached(log, k) && ages(k, u)
    ensures HearsTheEndWithin(ages, start, log, 0, schedule)
    ensures OwnStamps(start, log, Fresh(Truth(start, log, 0)), schedule)
    ensures Shown(start, log, 0, schedule) == Truth(start, log, u)
  {
    var init := Fresh(Truth(start, log, 0));
    var open := Step(start, log, init, Opens);
    var tail := [Reconciles(u)];
    assert tail[1..] == [];
    forall i | 0 <= i < k - 1
      ensures !log[i].event.kind.RunCompleted?
    {
      assert !Completes(log, i);
    }
    var after := DeliveriesReach(ages, start, log, open, k, tail);
    var heard := Deliveries(log, 0, k) + tail;
    schedule := [Opens] + heard;
    assert schedule[0] == Opens && schedule[1..] == heard;
    assert Accepted(start, log, after, tail) && Timely(ages, start, log, after, tail);
    assert Accepted(start, log, open, heard) && Accepted(start, log, init, schedule);
    assert Play(start, log, init, schedule) == Play(start, log, after, tail);
  }

  /** Some console takes an older snapshot before the end and then hears the rest. */
  lemma {:induction false} SnapshotThenRest(ages: Ages, start: Run, log: seq<Stamped>, k: nat, u: nat)
    returns (schedule: seq<Action>)
    requires IsLive(start.status) && u < k < End(log) && ages(k, u)
    ensures HearsTheEndWithin(ages, start, log, 0, schedule)
    ensures Shown(start, log, 0, schedule) == Fold(Truth(start, log, u), log[k..End(log)])
  {
    var e := End(log);
    var init := Fresh(Truth(start, log, 0));
    var open := Step(start, log, init, Opens);
    var none: seq<Action> := [];
    var rest := Deliveries(log, k, e) + none;
    var tail := [Reconciles(u)] + rest;
    assert tail[0] == Reconciles(u) && tail[1..] == rest;
    var after := DeliveriesReach(ages, start, log, open, k, tail);
    assert !EndsRun(log[k - 1].event);
    var taken := Step(start, log, after, Reconciles(u));
    LiveBeforeTheEnd(start, log, u);
    var end := DeliveriesReach(ages, start, log, taken, e, none);
    var heard := Deliveries(log, 0, k) + tail;
    schedule := [Opens] + heard;
    assert schedule[0] == Opens && schedule[1..] == heard;
    assert Accepted(start, log, taken, rest) && Timely(ages, start, log, taken, rest);
    assert Accepted(start, log, after, tail) && Timely(ages, start, log, after, tail);
    assert Accepted(start, log, open, heard) && Accepted(start, log, init, schedule);
    assert Play(start, log, init, schedule) == Play(start, log, after, tail) == end;
  }

  lemma {:induction false} OnlyHarmlessConverge(ages: Ages, start: Run, log: seq<Stamped>, k: nat, u: nat)
    requires IsLive(start.status) && AlwaysConverges(ages, start, log) && EndsForGood(start, log)
    requires u < k <= |log| && Reached(log, k) && ages(k, u)
    ensures Harmless(start, log, k, u)
  {
    var e := End(log);
    if k >= e {
      var schedule := SnapshotIsShown(ages, start, log, k, u);
      if k == e {
        AgreesAtTheEnd(start, log, Truth(start, log, u));
      }
    } else {
      var schedule := SnapshotThenRest(ages, start, log, k, u);
      assert SameButClocks(Shown(start, log, 0, schedule), Fold(start, log));
      var end := Truth(start, log, e);
      SameButClocksSymmetric(end, Fold(start, log));
      SameTransitive(Fold(Truth(start, log, u), log[k..e]), Fold(start, log), end);
      assert log[..e] == log[..k] + log[k..e];
      FoldConcat(start, log[..k], log[k..e]);
      FoldsMeetExactly(Truth(start, log, u), Truth(start, log, k), log[k..e], log[k..e]);
    }
  }

  // ----- convergence -----------------------------------------------------------

  /** Convergence with late snapshots: for every log and whatever snapshots may arrive
      besides those no older than the cursor, all consoles that have heard the end show
      the fold of the whole log (only what the clock read may differ) if and only if
      nothing lasting happens behind the first end and every older snapshot that may
      arrive is made good by the rest of the log. */
  lemma {:induction false} ConvergesWithinExactly(ages: Ages, start: Run, log: seq<Stamped>)
    requires IsLive(start.status)
    requires forall k: nat, upTo: nat :: NoOlder(k, upTo) ==> ages(k, upTo)
    ensures AlwaysConverges(ages, start, log) <==> EndsForGood(start, log) && Tolerates(start, log, ages)
  {
    if EndsForGood(start, log) && Tolerates(start, log, ages) {
      forall upTo, schedule | HearsTheEndWithin(ages, start, log, upTo, schedule)
        ensures SameButClocks(Shown(start, log, upTo, schedule), Fold(start, log))
      {
        FreshInv(start, log, upTo);
        PlayKeepsInv(ages, start, log, Fresh(Truth(start, log, upTo)), schedule);
      }
    }
    if AlwaysConverges(ages, start, log) {
      forall u | End(log) <= u <= |log|
        ensures SameButClocks(Truth(start, log, u), Fold(start, log))
      {
        assert NoOlder(End(log), u);
        EndIsHeard(ages, start, log, u);
      }
      forall k: nat, upTo: nat | upTo < k <= |log| && Reached(log, k) && ages(k, upTo)
        ensures Harmless(start, log, k, upTo)
      {
        OnlyHarmlessConverge(ages, start, log, k, upTo);
      }
    }
  }

  /** Convergence with snapshots no older than the cursor: for every log it depends only
      on what happens behind the first end. */
  lemma {:induction false} ConvergesExactly(start: Run, log: seq<Stamped>)
    requires IsLive(start.status)
    ensures AlwaysConverges(NoOlder, start, log) <==> EndsForGood(start, log)
  {
    ConvergesWithinExactly(NoOlder, start, log);
  }

  /** Events that change nothing, of which an export may add some behind the end. */
  predicate Idle(e: Event) {
    e.kind.ExportReady? || e.kind.Progress? || e.kind.HumanTaskRequired?
  }

  /** They do no harm there: every console converges, to the stamp. */
  lemma {:induction false} AnIdleTailIsHarmless(start: Run, log: seq<Stamped>)
    requires forall i :: End(log) <= i < |log| ==> Idle(log[i].event)
    ensures EndsExactly(start, log) && EndsForGood(start, log)
  {
    forall u | End(log) <= u <= |log|
      ensures Truth(start, log, u) == Fold(start, log)
    {
      IdleFrom(start, log, u);
    }
    SameButClocksReflexive(Fold(start, log));
  }

  lemma {:induction false} IdleFrom(start: Run, log: seq<Stamped>, u: nat)
    requires u <= |log| && forall i :: u <= i < |log| ==> Idle(log[i].event)
    ensures Truth(start, log, u) == Fold(start, log)
    decreases |log| - u
  {
    if u == |log| {
      assert log[..u] == log;
    } else {
      TruthStep(start, log, u);
      IdleFrom(start, log, u + 1);
    }
  }

  // ----- one snapshot in time heals --------------------------------------------------

  lemma {:induction false} PlayStaysConnected(start: Run, log: seq<Stamped>, s: System, schedule: seq<Action>)
    requires Connected(log, s) && Accepted(start, log, s, schedule)
    ensures Connected(log, Play(start, log, s, schedule))
    decreases |schedule|
  {
    if schedule != [] {
      StepStaysConnected(start, log, s, schedule[0]);
      PlayStaysConnected(start, log, Step(start, log, s, schedule[0]), schedule[1..]);
    }
  }

  /** A run that the first end left open on screen was closed by it. */
  lemma {:induction false} EndedOrClosed(start: Run, log: seq<Stamped>, s: System, run: Run)
    requires EndsForGood(start, log) && Connected(log, s) && SameButClocks(run, Fold(start, log))
    requires End(log) <= Position(s.client) && End(log) < |log|
    ensures s.client.closed || !IsLive(run.status)
  {
    var e := End(log);
    TruthStep(start, log, e - 1);
    SameStatus(run, Truth(start, log, e), Fold(start, log));
    if Completes(log, e - 1) {
      assert Position(s.client) == e;
    }
  }

  lemma {:induction false} HealsAt(start: Run, log: seq<Stamped>, s: System, u: nat)
    requires IsLive(start.status) && EndsForGood(start, log) && Connected(log, s)
    requires Position(s.client) <= u <= |log|
    ensures Inv(start, log, Step(start, log, s, Reconciles(u)))
  {
    StepStaysConnected(start, log, s, Reconciles(u));
    SnapshotKeeps(start, log, Position(s.client), u);
    if End(log) <= Position(s.client) && End(log) < |log| {
      EndedOrClosed(start, log, s, Truth(start, log, u));
    }
  }

  /** Whatever snapshots came before, late ones included: one that is no older than the
      cursor puts the console back on its way, and it converges if no late one follows. */
  lemma {:induction false} ASnapshotInTimeHeals(
    start: Run, log: seq<Stamped>, upTo: nat, before: seq<Action>, u: nat, later: seq<Action>)
    requires IsLive(start.status) && EndsForGood(start, log) && upTo <= |log|
    requires Accepted(start, log, Fresh(Truth(start, log, upTo)), before)
    requires Position(Play(start, log, Fresh(Truth(start, log, upTo)), before).client) <= u <= |log|
    requires var s := Play(start, log, Fresh(Truth(start, log, upTo)), before);
      var healed := Step(start, log, s, Reconciles(u));
      Accepted(start, log, healed, later) && Timely(NoOlder, start, log, healed, later)
    ensures var s := Play(start, log, Fresh(Truth(start, log, upTo)), before);
      var end := Play(start, log, Step(start, log, s, Reconciles(u)), later);
      Position(end.client) >= End(log) ==> SameButClocks(end.client.run, Fold(start, log))
  {
    var init := Fresh(Truth(start, log, upTo));
    PlayStaysConnected(start, log, init, before);
    var s := Play(start, log, init, before);
    HealsAt(start, log, s, u);
    PlayKeepsInv(NoOlder, start, log, Step(start, log, s, Reconciles(u)), later);
  }

  // ----- on the log's own clock --------------------------------------------------

  ghost predicate EndsExactly(start: Run, log: seq<Stamped>) {
    forall u :: End(log) <= u <= |log| ==> Truth(start, log, u) == Fold(start, log)
  }

  /** A first-writer stamp that was there at the start is there still. */
  predicate FirstsKept(start: Run, run: Run) {
    && (start.finishedAt.Some? ==> run.finishedAt.Some?)
    && |start.nodes| == |run.nodes|
    && (forall i :: 0 <= i < |start.nodes| && start.nodes[i].startedAt.Some? ==> run.nodes[i].startedAt.Some?)
  }

  ghost predicate OwnInv(start: Run, log: seq<Stamped>, s: System) {
    var run, k, e := s.client.run, Position(s.client), End(log);
    && Wired(log, s)
    && FirstsKept(start, run)
    && (IsLive(run.status) && k <= e ==> Fold(run, log[k..e]) == Truth(start, log, e))
    && (!IsLive(run.status) || k >= e ==> run == Fold(start, log))
  }

  lemma {:induction false} FoldKeepsIds(run: Run, es: seq<Stamped>)
    ensures |Fold(run, es).nodes| == |run.nodes|
    ensures forall i :: 0 <= i < |run.nodes| ==> Fold(run, es).nodes[i].id == run.nodes[i].id
    decreases |es|
  {
    if es != [] {
      NodesOfApply(run, es[0].event, es[0].now);
      FoldKeepsIds(ApplyRunEvent(run, es[0].event, es[0].now), es[1..]);
    }
  }

  /** A run from which the rest of the log leads to the end is led there by the whole
      log as well. */
  lemma {:induction false} ReplayFromTheStart(start: Run, log: seq<Stamped>, run: Run, k: nat, e: nat)
    requires k <= e <= |log| && FirstsKept(start, run)
    requires Fold(run, log[k..e]) == Truth(start, log, e)
    ensures Fold(run, log[0..e]) == Truth(start, log, e)
  {
    var rest, whole, end := log[k..e], log[0..e], Truth(start, log, e);
    assert whole == log[..k] + rest && whole == log[..e];
    FoldConcat(start, log[..k], rest);
    FoldsMeetExactly(run, Truth(start, log, k), rest, rest);
    SameButClocksReflexive(end);
    MountKeeps(start, log, run, k, e);
    assert Truth(start, log, 0) == start;
    FoldAgrees(run, start, whole, whole);
    FoldClocks(run, rest);
    FoldClocks(run, whole);
    FoldClocks(start, whole);
    FoldKeepsIds(run, rest);
    FoldKeepsIds(run, whole);
    FoldKeepsIds(start, whole);
    forall i | 0 <= i < |run.nodes|
      ensures Fold(run, whole).nodes[i] == end.nodes[i]
    {
      LastCompletionConcat(log[..k], rest, run.nodes[i].id);
      assert AgreeNode(Fold(run, whole).nodes[i], end.nodes[i], []);
      SameNode(Fold(run, whole).nodes[i], end.nodes[i]);
    }
    SameRun(Fold(run, whole), end);
  }

  lemma {:induction false} FirstsAreKept(start: Run, run: Run, es: seq<Stamped>)
    requires FirstsKept(start, run)
    ensures FirstsKept(start, Fold(run, es))
  {
    FoldClocks(run, es);
  }

  lemma {:induction false} TruthLeads(start: Run, log: seq<Stamped>, k: nat, upTo: nat, e: nat)
    requires k <= upTo <= e <= |log|
    ensures Fold(Truth(start, log, upTo), log[k..e]) == Truth(start, log, e)
    ensures FirstsKept(start, Truth(start, log, upTo))
  {
    var part, rest := log[k..upTo], log[upTo..e];
    assert log[k..e] == part + rest && log[..upTo] == log[..k] + part && log[..e] == log[..upTo] + rest;
    SameReplayIsAbsorbed(start, log[..k], part);
    FoldConcat(Truth(start, log, upTo), part, rest);
    FoldConcat(start, log[..upTo], rest);
    FirstsAreKept(start, start, log[..upTo]);
  }

  lemma {:induction false} OwnDeliveryKeeps(start: Run, log: seq<Stamped>, run: Run, k: nat, e: nat)
    requires k < e <= |log| && FirstsKept(start, run) && Fold(run, log[k..e]) == Truth(start, log, e)
    ensures var next := ApplyRunEvent(run, log[k].event, log[k].now);
      FirstsKept(start, next) && Fold(next, log[k + 1..e]) == Truth(start, log, e)
      && (k + 1 == e ==> next == Truth(start, log, e))
  {
    assert log[k..e][0] == log[k] && log[k..e][1..] == log[k + 1..e];
    var one := [log[k]];
    assert one[1..] == [];
    FirstsAreKept(start, run, one);
    assert Fold(run, one) == ApplyRunEvent(run, log[k].event, log[k].now);
  }

  lemma {:induction false} OwnSnapshotKeeps(start: Run, log: seq<Stamped>, k: nat, upTo: nat)
    requires IsLive(start.status) && EndsExactly(start, log) && k <= upTo <= |log|
    ensures var run, e := Truth(start, log, upTo), End(log);
      && FirstsKept(start, run)
      && (k <= e ==> Fold(run, log[k..e]) == Truth(start, log, e))
      && (!IsLive(run.status) || k >= e ==> run == Fold(start, log))
  {
    var e := End(log);
    if upTo < e {
      TruthLeads(start, log, k, upTo, e);
      LiveBeforeTheEnd(start, log, upTo);
    } else {
      assert Truth(start, log, upTo) == Truth(start, log, e);
      FirstsAreKept(start, start, log[..upTo]);
      if k <= e {
        TruthLeads(start, log, k, e, e);
      }
    }
  }

  lemma {:induction false} OwnMountKeepsInv(start: Run, log: seq<Stamped>, s: System)
    requires EndsExactly(start, log) && OwnInv(start, log, s)
    ensures OwnInv(start, log, Step(start, log, s, Mounts))
  {
    var run, k, e := s.client.run, Position(s.client), End(log);
    if IsLive(run.status) {
      if k > e {
        assert run == Truth(start, log, e) && log[e..e] == [];
      }
      ReplayFromTheStart(start, log, run, if k <= e then k else e, e);
    }
  }

  lemma {:induction false} OwnDeliveryKeepsInv(start: Run, log: seq<Stamped>, s: System)
    requires EndsExactly(start, log) && OwnInv(start, log, s)
    requires s.connected && !s.client.closed && s.feed < |log|
    ensures OwnInv(start, log, Step(start, log, s, Delivers(log[s.feed].now)))
  {
    var run, k, e := s.client.run, Position(s.client), End(log);
    if IsLive(run.status) {
      OwnDeliveryKeeps(start, log, run, k, e);
      if k + 1 < e {
        StillLive(run, log[k].event, log[k].now);
      } else {
        assert Truth(start, log, e) == Fold(start, log);
      }
    }
  }

  lemma {:induction false} OwnStepKeepsInv(start: Run, log: seq<Stamped>, s: System, a: Action)
    requires IsLive(start.status) && EndsExactly(start, log)
    requires OwnInv(start, log, s) && Enabled(log, s, a) && (a.Delivers? ==> a.now == log[s.feed].now)
    requires a.Reconciles? ==> NoOlder(Position(s.client), a.upTo)
    ensures OwnInv(start, log, Step(start, log, s, a))
  {
    StepStaysConnected(start, log, s, a);
    match a
    case Mounts => OwnMountKeepsInv(start, log, s);
    case Opens =>
    case Drops =>
    case Delivers(_) => OwnDeliveryKeepsInv(start, log, s);
    case Reconciles(upTo) => OwnSnapshotKeeps(start, log, Position(s.client), upTo);
  }

  lemma {:induction false} OwnPlayKeepsInv(start: Run, log: seq<Stamped>, s: System, schedule: seq<Action>)
    requires IsLive(start.status) && EndsExactly(start, log) && OwnInv(start, log, s)
    requires Accepted(start, log, s, schedule) && OwnStamps(start, log, s, schedule)
    requires Timely(NoOlder, start, log, s, schedule)
    ensures OwnInv(start, log, Play(start, log, s, schedule))
    decreases |schedule|
  {
    if schedule != [] {
      OwnStepKeepsInv(start, log, s, schedule[0]);
      OwnPlayKeepsInv(start, log, Step(start, log, s, schedule[0]), schedule[1..]);
    }
  }

  predicate HearsTheEndOnTime(start: Run, log: seq<Stamped>, upTo: nat, schedule: seq<Action>) {
    && HearsTheEndWithin(NoOlder, start, log, upTo, schedule)
    && OwnStamps(start, log, Fresh(Truth(start, log, upTo)), schedule)
  }

  /** When deliveries carry the log's own stamps, all consoles that have heard the end
      show the very fold of the whole log, every clock field included, if and only if
      the record does not change at all behind the first end. */
  lemma {:induction false} ConvergesToTheRecordExactly(start: Run, log: seq<Stamped>)
    requires IsLive(start.status)
    ensures (forall upTo, schedule :: HearsTheEndOnTime(start, log, upTo, schedule) ==>
               Shown(start, log, upTo, schedule) == Fold(start, log))
       <==> EndsExactly(start, log)
  {
    if EndsExactly(start, log) {
      forall upTo, schedule | HearsTheEndOnTime(start, log, upTo, schedule)
        ensures Shown(start, log, upTo, schedule) == Fold(start, log)
      {
        OwnSnapshotKeeps(start, log, 0, upTo);
        OwnPlayKeepsInv(start, log, Fresh(Truth(start, log, upTo)), schedule);
      }
    } else {
      var u :| End(log) <= u <= |log| && Truth(start, log, u) != Fold(start, log);
      EndIsHeard(NoOlder, start, log, u);
    }
  }

  // ----- the console ------------------------------------------------------------------

  /** The hook and the query cache, listening to one run. */
  class Console {
    ghost const start: Run
    ghost const log: seq<Stamped>
    ghost var connected: bool

    var lastEventId: Option<nat>
    var cursor: Option<nat>
    var connections: nat
    var closed: bool
    var state: StreamState
    var run: Run

    ghost function Model(): Client
      reads this
    {
      Client(lastEventId, cursor, connections, closed, state, run)
    }

    ghost function World(): System
      reads this
    {
      System(Model(), connected, Position(Model()))
    }

    ghost predicate Valid()
      reads this
    {
      IsLive(start.status) && EndsForGood(start, log) && Inv(start, log, World())
    }

    constructor (run: Run, ghost start: Run, ghost log: seq<Stamped>, ghost upTo: nat)
      requires IsLive(start.status) && EndsForGood(start, log)
      requires upTo <= |log| && run == Truth(start, log, upTo)
      ensures Valid() && this.start == start && this.log == log
      ensures Position(Model()) == 0 && !connected && !closed && this.run == run
    {
      this.start, this.log, connected := start, log, false;
      lastEventId, cursor, connections, closed, state := None, None, 0, false, Connecting;
      this.run := run;
      FreshInv(start, log, upTo);
    }

    /** Subscribing again starts at the beginning of the log and keeps what is shown. */
    method Mount()
      requires Valid()
      modifies this
      ensures Valid()
      ensures Model() == OnMount(old(Model()))
      ensures Position(Model()) == 0 && !connected && !closed && state == Connecting && connections == 0
      ensures run == old(run) && cursor.None?
    {
      StepKeepsInv(start, log, World(), Mounts);
      connected := false;
      lastEventId, cursor, connections, closed, state := None, None, 0, false, Connecting;
    }

    /** Every connection after the first asks for the whole run again. */
    method Open() returns (reconcile: bool)
      requires Valid() && !connected && !closed
      modifies this
      ensures Valid()
      ensures Model() == OnOpen(old(Model())) && cursor == old(cursor)
      ensures connected && state == Live && !closed && connections == old(connections) + 1
      ensures Position(Model()) == old(Position(Model())) && run == old(run)
      ensures reconcile <==> old(connections) > 0
    {
      StepKeepsInv(start, log, World(), Opens);
      connected := true;
      connections := connections + 1;
      state := Live;
      reconcile := connections > 1;
    }

    /** A gap costs nothing but the connection, and is not reported once closed. */
    method Error()
      requires Valid() && connected
      modifies this
      ensures Valid()
      ensures Model() == OnError(old(Model())) && cursor == old(cursor)
      ensures !connected && closed == old(closed) && connections == old(connections)
      ensures state == if closed then Closed else Reconnecting
      ensures Position(Model()) == old(Position(Model())) && run == old(run)
    {
      StepKeepsInv(start, log, World(), Drops);
      connected := false;
      if !closed {
        state := Reconnecting;
      }
    }

    /** The next event of the log, whatever the clock reads: the console stays on the
        way to the log's end, and shows it once it has heard it. */
    method Message(id: nat, s: Stamped)
      requires Valid() && connected && !closed
      requires id == Position(Model()) < |log| && s.event == log[id].event
      modifies this
      ensures Valid()
      ensures Position(Model()) == id + 1 && connected == old(connected)
      ensures Model() == OnMessage(old(Model()), id, s)
      ensures cursor == (if s.event.kind == HumanTaskRequired then old(cursor) else Some(id))
      ensures connections == old(connections) && state == if closed then Closed else old(state)
      ensures closed <==> s.event.kind.RunCompleted?
      ensures id + 1 >= End(log) ==> SameButClocks(run, Fold(start, log))
      ensures !IsLive(old(run.status)) ==> run == old(run)
      ensures id + 1 < End(log) && IsLive(old(run.status)) ==>
        IsLive(run.status) && AgreeRun(run, Truth(start, log, id + 1), log[id + 1..End(log)])
    {
      StepKeepsInv(start, log, World(), Delivers(s.now));
      if IsLive(run.status) && id + 1 < End(log) {
        StillLive(run, s.event, s.now);
      }
      lastEventId := Some(id);
      if Listened(s.event.kind) {
        cursor := Some(id);
        if IsLive(run.status) {
          run := ApplyRunEvent(run, s.event, s.now);
        }
        if s.event.kind.RunCompleted? {
          closed := true;
          state := Closed;
        }
      }
    }

    /** A snapshot no older than the cursor replaces what is shown, and nothing of the
        log is lost by it. */
    method Snapshot(snapshot: Run, ghost upTo: nat)
      requires Valid() && Position(Model()) <= upTo <= |log| && snapshot == Truth(start, log, upTo)
      modifies this
      ensures Valid()
      ensures Model() == OnSnapshot(old(Model()), snapshot) && cursor == old(cursor)
      ensures run == snapshot && Position(Model()) == old(Position(Model()))
      ensures connected == old(connected) && closed == old(closed) && state == old(state)
        && connections == old(connections)
    {
      StepKeepsInv(start, log, World(), Reconciles(upTo));
      run := snapshot;
    }
  }

  // ----- a snapshot older than the cursor ------------------------------------

  /** A snapshot read before the cursor was reached is made good by the rest of the
      log exactly when every register it has stale is still going to be written. */
  lemma {:induction false} StaleSnapshotExactly(start: Run, log: seq<Stamped>, stale: nat, k: nat)
    requires stale <= k <= |log|
    ensures SameButClocks(Fold(Truth(start, log, stale), log[k..]), Fold(start, log))
       <==> AgreeRun(Truth(start, log, stale), Truth(start, log, k), log[k..])
  {
    assert log == log[..k] + log[k..];
    FoldConcat(start, log[..k], log[k..]);
    FoldsMeetExactly(Truth(start, log, stale), Truth(start, log, k), log[k..], log[k..]);
  }

  /** One node starts its first attempt and completes. */
  function TwoEvents(id: Str): seq<Stamped> {
    [ Stamped(Event(Started, map["node_id" := String(id), "attempt" := Number(1)]), 1),
      Stamped(Event(Completed, map["node_id" := String(id)]), 2) ]
  }

  function Untried(id: Str): Run {
    Run("", Running, Amount(0), None, None,
        [Node(id, NodeSpec("", "", false, []), None, None, None, None, None, None, None, None, None, None)])
  }

  /** Without the rule that a snapshot is no older than the cursor, an event can be
      lost for good: here the attempt number never comes back. */
  lemma {:induction false} StaleSnapshotLosesAnEvent(id: Str)
    ensures var start, log := Untried(id), TwoEvents(id);
      !SameButClocks(Fold(Truth(start, log, 0), log[1..]), Fold(start, log))
  {
    var start, log := Untried(id), TwoEvents(id);
    assert log[..0] == [] && log[1..][1..] == [] && log[1..][0] == log[1];
    var lost, whole := Fold(start, log[1..]), Fold(start, log);
    FoldNodes(start, log[1..]);
    FoldNodes(start, log);
    assert FoldNode(start.nodes[0], log[1..]) == NodeStep(start.nodes[0], log[1].event, 2);
    assert log[0].event.data["attempt"] == Number(1);
    var once := NodeStep(start.nodes[0], log[0].event, 1);
    assert once.attempt == Some(1);
    assert FoldNode(once, log[1..]) == NodeStep(once, log[1].event, 2);
    assert FoldNode(start.nodes[0], log) == FoldNode(once, log[1..]);
    assert !SameReg(lost.nodes[0], whole.nodes[0], RAttempt);
    assert AgreeNodes(lost.nodes, whole.nodes, []) ==> AgreeNode(lost.nodes[0], whole.nodes[0], []);
  }

  /** So where snapshots of any age may arrive, not every console converges on that log,
      though nothing at all happens behind its end. */
  lemma {:induction false} LateSnapshotsCanDiverge(id: Str)
    ensures EndsForGood(Untried(id), TwoEvents(id))
    ensures !AlwaysConverges((position: nat, upTo: nat) => true, Untried(id), TwoEvents(id))
  {
    var start, log := Untried(id), TwoEvents(id);
    var ages := (position: nat, upTo: nat) => true;
    assert End(log[1..][1..]) == 0 && End(log[1..]) == 1 && End(log) == 2;
    AnIdleTailIsHarmless(start, log);
    StaleSnapshotLosesAnEvent(id);
    StaleSnapshotExactly(start, log, 0, 1);
    assert log[1..] == log[1..End(log)];
    assert !Harmless(start, log, 1, 0) && Reached(log, 1);
    assert !Tolerates(start, log, ages);
    ConvergesWithinExactly(ages, start, log);
  }

  // ----- the terminal event closes the stream ---------------------------------

  predicate CompletesBeforeTheEnd(log: seq<Stamped>, p: nat) {
    p < |log| - 1 && log[p].event.kind.RunCompleted?
  }

  /** A closed stream stays closed, and hears nothing, until the console is mounted
      again: the end of the response is never read as a dropped connection. */
  lemma {:induction false} ClosedStaysClosed(start: Run, log: seq<Stamped>, s: System, schedule: seq<Action>)
    requires s.client.closed && s.client.state == Closed
    requires Accepted(start, log, s, schedule) && Mounts !in schedule
    ensures var end := Play(start, log, s, schedule);
      && end.client.closed && end.client.state == Closed
      && end.client.lastEventId == s.client.lastEventId && end.client.connections == s.client.connections
    decreases |schedule|
  {
    if schedule != [] {
      assert schedule[0] in schedule;
      ClosedStaysClosed(start, log, Step(start, log, s, schedule[0]), schedule[1..]);
    }
  }

  lemma {:induction false} NeverPastACompletion(start: Run, log: seq<Stamped>, s: System, schedule: seq<Action>, p: nat)
    requires CompletesBeforeTheEnd(log, p)
    requires Position(s.client) <= p + 1 && (Position(s.client) == p + 1 ==> s.client.closed)
    requires s.connected ==> s.feed == Position(s.client)
    requires Accepted(start, log, s, schedule)
    ensures Position(Play(start, log, s, schedule).client) <= p + 1
    decreases |schedule|
  {
    if schedule != [] {
      NeverPastACompletion(start, log, Step(start, log, s, schedule[0]), schedule[1..], p);
    }
  }

  /** A schedule that hears the log out. */
  lemma {:induction false} HearsItOut(start: Run, log: seq<Stamped>, snapshot: Run) returns (schedule: seq<Action>)
    requires forall p: nat :: !CompletesBeforeTheEnd(log, p)
    ensures Accepted(start, log, Fresh(snapshot), schedule)
    ensures Position(Play(start, log, Fresh(snapshot), schedule).client) == |log|
  {
    var init := Fresh(snapshot);
    var open := Step(start, log, init, Opens);
    forall i | 0 <= i < |log| - 1
      ensures !log[i].event.kind.RunCompleted?
    {
      assert !CompletesBeforeTheEnd(log, i);
    }
    var none: seq<Action> := [];
    var after := DeliveriesReach(NoOlder, start, log, open, |log|, none);
    var heard := Deliveries(log, 0, |log|) + none;
    schedule := [Opens] + heard;
    assert schedule[0] == Opens && schedule[1..] == heard;
    assert Accepted(start, log, open, heard) && Play(start, log, open, heard) == after;
    assert Accepted(start, log, init, schedule) && Play(start, log, init, schedule) == after;
  }

  /** A console can hear a run out if and only if the run completed once, at the end
      of its log. After a retry it cannot: the replayed first completion closes the
      stream on every mount, and only snapshots show what came after. */
  lemma {:induction false} HeardOutExactly(start: Run, log: seq<Stamped>, snapshot: Run)
    ensures (exists schedule :: Accepted(start, log, Fresh(snapshot), schedule)
               && Position(Play(start, log, Fresh(snapshot), schedule).client) == |log|)
       <==> forall p: nat :: !CompletesBeforeTheEnd(log, p)
  {
    if p: nat :| CompletesBeforeTheEnd(log, p) {
      forall schedule | Accepted(start, log, Fresh(snapshot), schedule)
        ensures Position(Play(start, log, Fresh(snapshot), schedule).client) != |log|
      {
        NeverPastACompletion(start, log, Fresh(snapshot), schedule, p);
      }
    } else {
      var schedule := HearsItOut(start, log, snapshot);
    }
  }

  /** A run that failed, was queued again and succeeded. */
  function Retried(): seq<Stamped> {
    [ Stamped(Event(RunCompleted, map["status" := String(Word("failed"))]), 1),
      Stamped(Event(StatusChanged, map["status" := String(Word("queued"))]), 2),
      Stamped(Event(RunCompleted, map["status" := String(Word("succeeded"))]), 3) ]
  }

  /** No console ever hears that log out, and the console that was there for the first
      end goes on showing a failed run until a snapshot tells it otherwise. */
  lemma {:induction false} ARetryIsNeverHeardOut(start: Run, snapshot: Run, schedule: seq<Action>)
    requires Accepted(start, Retried(), Fresh(snapshot), schedule)
    ensures Position(Play(start, Retried(), Fresh(snapshot), schedule).client) <= 1 < |Retried()|
    ensures Truth(start, Retried(), 1).status == Failed && Fold(start, Retried()).status == Succeeded
  {
    var log := Retried();
    assert CompletesBeforeTheEnd(log, 0);
    NeverPastACompletion(start, log, Fresh(snapshot), schedule, 0);
    TruthStep(start, log, 0);
    TruthStep(start, log, 1);
    TruthStep(start, log, 2);
    assert log[..3] == log;
    assert log[0].event.data["status"] == String(Word("failed"));
    assert log[2].event.data["status"] == String(Word("succeeded"));
  }

  /** A console hears the first end and shows a failed run, although it succeeded. */
  lemma {:induction false} ARetryMisleads(start: Run)
    ensures exists upTo, schedule ::
      HearsTheEnd(start, Retried(), upTo, schedule) && Shown(start, Retried(), upTo, schedule).status == Failed
    ensures Fold(start, Retried()).status == Succeeded
  {
    var log := Retried();
    assert EndsRun(log[0].event) && End(log) == 1;
    EndIsHeard(NoOlder, start, log, 1);
    var none: seq<Action> := [];
    ARetryIsNeverHeardOut(start, start, none);
  }
}
