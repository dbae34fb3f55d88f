/**
 The run graph (orchestrator/dag.py): validation by Kahn's algorithm, widening a
 selection to what it needs, and the waves it runs in.
 */
module Dag {
  import opened Prelude

  type Node = string

  /** What each registered node depends on. */
  type Deps = map<Node, set<Node>>

  datatype Fault = Unregistered | DependsOnItself | Cycle | UnknownNodes

  datatype Checked = Valid | Refused(fault: Fault)

  // ----- paths ------------------------------------------------------------------------------

  /** Each node of a path depends on the next. */
  ghost predicate IsPath(deps: Deps, path: seq<Node>) {
    && path != []
    && (forall i :: 0 <= i < |path| ==> path[i] in deps)
    && (forall i, j :: 0 <= i < |path| - 1 && j == i + 1 ==> path[j] in deps[path[i]])
  }

  ghost predicate IsCycle(deps: Deps, path: seq<Node>) {
    IsPath(deps, path) && |path| > 1 && path[0] == path[|path| - 1]
  }

  ghost predicate Acyclic(deps: Deps) {
    forall path :: !IsCycle(deps, path)
  }

  ghost predicate Closed(deps: Deps, s: set<Node>) {
    s <= deps.Keys && forall n :: n in s ==> deps[n] <= s
  }

  ghost predicate Needs(deps: Deps, from: set<Node>, n: Node) {
    exists path :: IsPath(deps, path) && path[0] in from && path[|path| - 1] == n
  }

  // ----- what is ready ---------------------------------------------------------------------

  function Ready(deps: Deps, left: set<Node>): set<Node>
    requires left <= deps.Keys
  {
    set n | n in left && deps[n] * left == {}
  }

  lemma ReadyLooksBack(deps: Deps, left: set<Node>, n: Node)
    requires left <= deps.Keys && n in Ready(deps, left)
    ensures deps[n] !! left
  {
    assert deps[n] * left == {};
    assert forall d :: d in deps[n] && d in left ==> d in deps[n] * left;
  }

  ghost predicate Stuck(deps: Deps, left: set<Node>) {
    left != {} && left <= deps.Keys && forall n :: n in left ==> deps[n] * left != {}
  }

  // ----- a stuck set holds a cycle ---------------------------------------------------------------

  ghost predicate Distinct(path: seq<Node>) {
    forall i, j :: 0 <= i < j < |path| ==> path[i] != path[j]
  }

  lemma {:induction false} DistinctFits(path: seq<Node>, s: set<Node>)
    requires Distinct(path) && forall n :: n in path ==> n in s
    ensures |path| <= |s|
    decreases |path|
  {
    if path != [] {
      DistinctFits(path[1..], s - {path[0]});
    }
  }

  /** Walk on from the last node: after more steps than there are nodes, one repeats. */
  lemma {:induction false} StuckHoldsACycle(deps: Deps, left: set<Node>, path: seq<Node>)
    requires Stuck(deps, left) && IsPath(deps, path) && Distinct(path)
    requires forall n :: n in path ==> n in left
    ensures !Acyclic(deps)
    decreases |left| - |path|
  {
    DistinctFits(path, left);
    var last := path[|path| - 1];
    var next :| next in deps[last] * left;
    var longer := path + [next];
    assert IsPath(deps, longer);
    if i :| 0 <= i < |path| && path[i] == next {
      var loop := longer[i..];
      assert forall k :: 0 <= k < |loop| ==> loop[k] == longer[i + k];
      assert IsCycle(deps, loop);
    } else {
      DistinctFits(longer, left);
      StuckHoldsACycle(deps, left, longer);
    }
  }

  /** A set every cycle stays out of: what Kahn's algorithm has taken so far. */
  ghost predicate Settled(deps: Deps, done: set<Node>) {
    Closed(deps, done) && forall path :: IsCycle(deps, path) ==> path[0] !in done
  }

  lemma {:induction false} PathStaysIn(deps: Deps, s: set<Node>, path: seq<Node>, i: nat)
    requires Closed(deps, s) && IsPath(deps, path) && path[0] in s && i < |path|
    ensures path[i] in s
  {
    if i > 0 {
      PathStaysIn(deps, s, path, i - 1);
      assert path[i] in deps[path[i - 1]];
    }
  }

  /** Taking what is ready keeps cycles out. */
  lemma ReadySettles(deps: Deps, done: set<Node>, left: set<Node>)
    requires Settled(deps, done) && done + left == deps.Keys && done !! left
    requires forall n :: n in deps ==> deps[n] <= deps.Keys
    ensures Settled(deps, done + Ready(deps, left))
  {
    var ready := Ready(deps, left);
    forall n | n in ready
      ensures deps[n] <= done
    {
      ReadyLooksBack(deps, left, n);
    }
    forall path | IsCycle(deps, path)
      ensures path[0] !in done + ready
    {
      if path[0] in ready {
        assert path[1] in deps[path[0]];
        assert path[1] in done;
        var rest := path[1..];
        assert IsPath(deps, rest);
        PathStaysIn(deps, done, rest, |rest| - 1);
      }
    }
  }

  // ----- validation ----------------------------------------------------------------------------------

  predicate Registered(deps: Deps) {
    forall n :: n in deps ==> deps[n] <= deps.Keys
  }

  /** A graph is accepted exactly when every dependency is registered and no path leads
      back to where it began. */
  method Validate(deps: Deps) returns (r: Checked)
    ensures r.Valid? <==> Registered(deps) && Acyclic(deps)
    ensures r == Refused(Cycle) ==> Registered(deps) && !Acyclic(deps)
  {
    var todo := deps.Keys;
    while todo != {}
      invariant todo <= deps.Keys
      invariant forall n :: n in deps && n !in todo ==> deps[n] <= deps.Keys && n !in deps[n]
      decreases todo
    {
      var n :| n in todo;
      todo := todo - {n};
      if !(deps[n] <= deps.Keys) {
        return Refused(Unregistered);
      }
      if n in deps[n] {
        assert IsCycle(deps, [n, n]);
        return Refused(DependsOnItself);
      }
    }
    var left := deps.Keys;
    while left != {}
      invariant left <= deps.Keys && Settled(deps, deps.Keys - left)
      decreases left
    {
      var ready := Ready(deps, left);
      if ready == {} {
        StuckIsCyclic(deps, left);
        return Refused(Cycle);
      }
      ReadySettles(deps, deps.Keys - left, left);
      assert deps.Keys - left + ready == deps.Keys - (left - ready);
      left := left - ready;
    }
    assert deps.Keys - left == deps.Keys;
    r := Valid;
  }

  lemma StuckIsCyclic(deps: Deps, left: set<Node>)
    requires left != {} && left <= deps.Keys && Ready(deps, left) == {}
    ensures !Acyclic(deps)
  {
    forall n | n in left
      ensures deps[n] * left != {}
    {
      assert n !in Ready(deps, left);
    }
    var n :| n in left;
    StuckHoldsACycle(deps, left, [n]);
  }

  // ----- widening a selection -----------------------------------------------------------------------------

  /** The selection and everything it needs, in any number of steps; refused exactly when
      it names a node the graph does not have. */
  method Closure(deps: Deps, nodes: set<Node>) returns (r: Option<set<Node>>)
    requires Registered(deps)
    ensures r.None? <==> !(nodes <= deps.Keys)
    ensures r.Some? ==> nodes <= r.value && Closed(deps, r.value)
    ensures r.Some? ==> forall n :: n in r.value <==> Needs(deps, nodes, n)
  {
    if !(nodes <= deps.Keys) {
      return None;
    }
    var wanted, frontier := nodes, nodes;
    NeedsItself(deps, nodes);
    while frontier != {}
      invariant Widening(deps, nodes, wanted, frontier)
      decreases deps.Keys - wanted, frontier
    {
      var current :| current in frontier;
      var found := deps[current] - wanted;
      WideningStep(deps, nodes, wanted, frontier, current);
      wanted, frontier := wanted + found, frontier - {current} + found;
    }
    ClosedHoldsAll(deps, nodes, wanted);
    r := Some(wanted);
  }

  ghost predicate Explored(deps: Deps, wanted: set<Node>, frontier: set<Node>) {
    wanted <= deps.Keys && forall n :: n in wanted - frontier ==> deps[n] <= wanted
  }

  lemma ExploredMore(deps: Deps, wanted: set<Node>, frontier: set<Node>, n: Node)
    requires Registered(deps) && Explored(deps, wanted, frontier) && n in frontier && frontier <= wanted
    ensures Explored(deps, wanted + (deps[n] - wanted), frontier - {n} + (deps[n] - wanted))
  {
    var more, next := wanted + (deps[n] - wanted), frontier - {n} + (deps[n] - wanted);
    forall m | m in more - next
      ensures deps[m] <= more
    {
      assert m == n || m in wanted - frontier;
    }
  }

  ghost predicate Widening(deps: Deps, nodes: set<Node>, wanted: set<Node>, frontier: set<Node>) {
    && nodes <= wanted <= deps.Keys && frontier <= wanted
    && Explored(deps, wanted, frontier) && AllNeeded(deps, nodes, wanted)
  }

  /** Following one node: either something unknown was found, or the frontier shrinks. */
  lemma WideningStep(deps: Deps, nodes: set<Node>, wanted: set<Node>, frontier: set<Node>, n: Node)
    requires Registered(deps) && Widening(deps, nodes, wanted, frontier) && n in frontier
    ensures Widening(deps, nodes, wanted + (deps[n] - wanted), frontier - {n} + (deps[n] - wanted))
    ensures deps[n] <= wanted ==>
      wanted + (deps[n] - wanted) == wanted && frontier - {n} + (deps[n] - wanted) < frontier
    ensures !(deps[n] <= wanted) ==> deps.Keys - (wanted + (deps[n] - wanted)) < deps.Keys - wanted
  {
    NeedsOneMore(deps, nodes, wanted, n);
    ExploredMore(deps, wanted, frontier, n);
    if m :| m in deps[n] && m !in wanted {
      assert m in deps.Keys - wanted && m !in deps.Keys - (wanted + (deps[n] - wanted));
    } else {
      assert deps[n] - wanted == {};
      assert n in frontier && n !in frontier - {n};
    }
  }

  ghost predicate AllNeeded(deps: Deps, nodes: set<Node>, wanted: set<Node>) {
    forall n :: n in wanted ==> Needs(deps, nodes, n)
  }

  lemma NeedsItself(deps: Deps, nodes: set<Node>)
    requires nodes <= deps.Keys
    ensures AllNeeded(deps, nodes, nodes)
  {
    forall n | n in nodes
      ensures Needs(deps, nodes, n)
    {
      assert IsPath(deps, [n]);
    }
  }

  lemma NeedsOneMore(deps: Deps, nodes: set<Node>, wanted: set<Node>, n: Node)
    requires Registered(deps) && AllNeeded(deps, nodes, wanted) && n in wanted && n in deps
    ensures AllNeeded(deps, nodes, wanted + (deps[n] - wanted))
  {
    forall next | next in deps[n]
      ensures Needs(deps, nodes, next)
    {
      OneStepOn(deps, nodes, n, next);
    }
  }

  lemma ClosedHoldsAll(deps: Deps, nodes: set<Node>, s: set<Node>)
    requires Explored(deps, s, {}) && nodes <= s
    ensures Closed(deps, s)
    ensures forall n :: Needs(deps, nodes, n) ==> n in s
  {
    forall n | n in s
      ensures deps[n] <= s
    {
      assert n in s - {};
    }
    forall n | Needs(deps, nodes, n)
      ensures n in s
    {
      var path :| IsPath(deps, path) && path[0] in nodes && path[|path| - 1] == n;
      PathStaysIn(deps, s, path, |path| - 1);
    }
  }

  lemma OneStepOn(deps: Deps, from: set<Node>, n: Node, next: Node)
    requires Registered(deps) && Needs(deps, from, n) && n in deps && next in deps[n]
    ensures Needs(deps, from, next)
  {
    var path :| IsPath(deps, path) && path[0] in from && path[|path| - 1] == n;
    var longer := path + [next];
    assert IsPath(deps, longer) && longer[0] in from && longer[|longer| - 1] == next;
  }

  // ----- waves --------------------------------------------------------------------------------------------

  ghost predicate Covers(done: set<Node>, waves: seq<set<Node>>) {
    forall n :: n in done <==> exists k :: 0 <= k < |waves| && n in waves[k]
  }

  ghost predicate Apart(waves: seq<set<Node>>) {
    && (forall k :: 0 <= k < |waves| ==> waves[k] != {})
    && (forall i, j :: 0 <= i < j < |waves| ==> waves[i] !! waves[j])
  }

  ghost predicate Earlier(waves: seq<set<Node>>, k: nat, n: Node) {
    exists j :: 0 <= j < k && j < |waves| && n in waves[j]
  }

  /** What a node depends on ran in earlier waves. */
  ghost predicate InOrder(deps: Deps, waves: seq<set<Node>>) {
    forall k, n, d :: 0 <= k < |waves| && n in waves[k] && n in deps && d in deps[n] ==> Earlier(waves, k, d)
  }

  /** Something of it ran in the wave just before. */
  ghost predicate NotLate(deps: Deps, waves: seq<set<Node>>) {
    forall k, n :: 0 < k < |waves| && n in waves[k] && n in deps ==> deps[n] * waves[k - 1] != {}
  }

  /** The waves split `done`, in order and as soon as can be. */
  ghost predicate IsSchedule(deps: Deps, done: set<Node>, waves: seq<set<Node>>) {
    done <= deps.Keys && Covers(done, waves) && Apart(waves) && InOrder(deps, waves) && NotLate(deps, waves)
  }

  /** What is left was not ready in the last wave. */
  ghost predicate Behind(deps: Deps, left: set<Node>, waves: seq<set<Node>>)
    requires left <= deps.Keys
  {
    waves != [] ==> forall n :: n in left ==> deps[n] * (left + waves[|waves| - 1]) != {}
  }

  lemma CoversMore(done: set<Node>, waves: seq<set<Node>>, wave: set<Node>)
    requires Covers(done, waves)
    ensures Covers(done + wave, waves + [wave])
  {
    var after := waves + [wave];
    forall n
      ensures n in done + wave <==> exists k :: 0 <= k < |after| && n in after[k]
    {
      if n in wave {
        assert n in after[|waves|];
      } else if n in done {
        var k :| 0 <= k < |waves| && n in waves[k];
        assert n in after[k];
      }
    }
  }

  lemma ApartMore(done: set<Node>, waves: seq<set<Node>>, wave: set<Node>)
    requires Covers(done, waves) && Apart(waves) && wave != {} && wave !! done
    ensures Apart(waves + [wave])
  {
    forall i | 0 <= i < |waves|
      ensures waves[i] !! wave
    {
      assert forall n :: n in waves[i] ==> n in done;
    }
  }

  lemma InOrderMore(deps: Deps, done: set<Node>, waves: seq<set<Node>>, wave: set<Node>)
    requires Covers(done, waves) && InOrder(deps, waves)
    requires forall n :: n in wave ==> n in deps && deps[n] <= done
    ensures InOrder(deps, waves + [wave])
  {
    var after := waves + [wave];
    forall k, n, d | 0 <= k < |after| && n in after[k] && n in deps && d in deps[n]
      ensures Earlier(after, k, d)
    {
      if k < |waves| {
        assert Earlier(waves, k, d);
        var j :| 0 <= j < k && j < |waves| && d in waves[j];
        assert d in after[j];
      } else {
        var j :| 0 <= j < |waves| && d in waves[j];
        assert d in after[j];
      }
    }
  }

  lemma NotLateMore(deps: Deps, left: set<Node>, waves: seq<set<Node>>)
    requires left <= deps.Keys && NotLate(deps, waves) && Behind(deps, left, waves)
    ensures NotLate(deps, waves + [Ready(deps, left)])
    ensures Behind(deps, left - Ready(deps, left), waves + [Ready(deps, left)])
  {
    var ready := Ready(deps, left);
    var after := waves + [ready];
    forall k, n | 0 < k < |after| && n in after[k] && n in deps
      ensures deps[n] * after[k - 1] != {}
    {
      assert after[k - 1] == waves[k - 1];
      if k == |waves| {
        ReadyLooksBack(deps, left, n);
        var d :| d in deps[n] * (left + waves[k - 1]);
        assert d in deps[n] * after[k - 1];
      } else {
        assert n in waves[k];
      }
    }
    forall n | n in left - ready
      ensures deps[n] * (left - ready + ready) != {}
    {
      assert left - ready + ready == left;
      assert n !in Ready(deps, left);
    }
  }

  lemma ScheduleGrows(deps: Deps, selected: set<Node>, left: set<Node>, waves: seq<set<Node>>)
    requires Closed(deps, selected) && left <= selected && Ready(deps, left) != {}
    requires IsSchedule(deps, selected - left, waves) && Behind(deps, left, waves)
    ensures IsSchedule(deps, selected - (left - Ready(deps, left)), waves + [Ready(deps, left)])
    ensures Behind(deps, left - Ready(deps, left), waves + [Ready(deps, left)])
  {
    var ready, done := Ready(deps, left), selected - left;
    forall n | n in ready
      ensures deps[n] <= done
    {
      ReadyLooksBack(deps, left, n);
    }
    assert selected - (left - ready) == done + ready;
    CoversMore(done, waves, ready);
    ApartMore(done, waves, ready);
    InOrderMore(deps, done, waves, ready);
    NotLateMore(deps, left, waves);
  }

  /** In a valid graph something is ready until everything has run. */
  method Waves(deps: Deps, selected: set<Node>) returns (waves: seq<set<Node>>)
    requires Registered(deps) && Acyclic(deps) && Closed(deps, selected)
    ensures IsSchedule(deps, selected, waves)
  {
    var left := selected;
    waves := [];
    while left != {}
      invariant left <= selected
      invariant IsSchedule(deps, selected - left, waves) && Behind(deps, left, waves)
      decreases left
    {
      var ready := Ready(deps, left);
      if ready == {} {
        StuckIsCyclic(deps, left);
        assert false;
      }
      ScheduleGrows(deps, selected, left, waves);
      waves := waves + [ready];
      left := left - ready;
    }
    assert selected - left == selected;
  }

  lemma {:induction false} ChainUnder(deps: Deps, waves: seq<set<Node>>, k: nat, n: Node)
    requires NotLate(deps, waves) && k < |waves| && n in waves[k]
    requires forall i :: 0 <= i < |waves| ==> waves[i] <= deps.Keys
    ensures exists path :: IsPath(deps, path) && path[0] == n && |path| == k + 1
    decreases k
  {
    if k == 0 {
      assert IsPath(deps, [n]) && |[n]| == k + 1;
    } else {
      var d :| d in deps[n] * waves[k - 1];
      ChainUnder(deps, waves, k - 1, d);
      var below :| IsPath(deps, below) && below[0] == d && |below| == k;
      Prepend(deps, n, below);
      assert ([n] + below)[0] == n && |[n] + below| == k + 1;
    }
  }

  lemma Prepend(deps: Deps, n: Node, path: seq<Node>)
    requires IsPath(deps, path) && n in deps && path[0] in deps[n]
    ensures IsPath(deps, [n] + path)
  {
  }

  lemma {:induction false} NoLongerChain(deps: Deps, waves: seq<set<Node>>, k: nat, path: seq<Node>)
    requires InOrder(deps, waves) && k < |waves| && IsPath(deps, path) && path[0] in waves[k]
    ensures |path| <= k + 1
    decreases k
  {
    if |path| > 1 {
      assert path[1] in deps[path[0]];
      assert Earlier(waves, k, path[1]);
      var j :| 0 <= j < k && j < |waves| && path[1] in waves[j];
      NoLongerChain(deps, waves, j, path[1..]);
    }
  }

  /** A node runs in the wave of its depth: the longest chain of dependencies under it
      has that many steps, so no schedule could run it sooner. */
  lemma WaveIsDepth(deps: Deps, selected: set<Node>, waves: seq<set<Node>>, k: nat, n: Node)
    requires IsSchedule(deps, selected, waves) && k < |waves| && n in waves[k]
    ensures exists path :: IsPath(deps, path) && path[0] == n && |path| == k + 1
    ensures forall path :: IsPath(deps, path) && path[0] == n ==> |path| <= k + 1
  {
    forall i | 0 <= i < |waves|
      ensures waves[i] <= deps.Keys
    {
      assert forall m :: m in waves[i] ==> m in selected;
    }
    ChainUnder(deps, waves, k, n);
    forall path | IsPath(deps, path) && path[0] == n
      ensures |path| <= k + 1
    {
      NoLongerChain(deps, waves, k, path);
    }
  }
}
