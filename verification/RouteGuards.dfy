/**
 The route guard (apps/api/scripts/check_route_guards.py): every route declares a
 permission or is public, and the build fails otherwise.
 */
module RouteGuards {
  import opened Prelude

  /** A node of a route's dependency tree. `permission` is what the dependency's
      callable declares; the root's own callable is the endpoint. */
  datatype Dependant = Dependant(permission: Option<string>, dependencies: seq<Dependant>)

  // ----- the search -----------------------------------------------------------

  /** The permissions declared anywhere below the root of a tree. */
  ghost function Below(d: Dependant): set<string> {
    BelowAll(d.dependencies)
  }

  ghost function BelowAll(ds: seq<Dependant>): set<string> {
    if ds == [] then {}
    else (if ds[0].permission.Some? then {ds[0].permission.value} else {}) + Below(ds[0]) + BelowAll(ds[1..])
  }

  /** Everything declared below some tree of the stack. */
  ghost function BelowStack(stack: seq<Dependant>): set<string> {
    if stack == [] then {} else BelowStack(stack[..|stack| - 1]) + Below(stack[|stack| - 1])
  }

  ghost function Size(d: Dependant): nat {
    1 + SizeAll(d.dependencies)
  }

  ghost function SizeAll(ds: seq<Dependant>): nat {
    if ds == [] then 0 else Size(ds[0]) + SizeAll(ds[1..])
  }

  ghost function SizeStack(stack: seq<Dependant>): nat {
    if stack == [] then 0 else SizeStack(stack[..|stack| - 1]) + Size(stack[|stack| - 1])
  }

  /** A stack search below the root. The answer is a declared permission, and there
      is one exactly when the tree declares any. */
  method DeclaredPermission(root: Dependant) returns (permission: Option<string>)
    ensures permission.Some? ==> permission.value in Below(root)
    ensures permission.None? ==> Below(root) == {}
  {
    var stack := [root];
    assert stack[..0] == [];
    while stack != []
      invariant BelowStack(stack) == Below(root)
      decreases SizeStack(stack)
    {
      var top := stack[|stack| - 1];
      var rest := stack[..|stack| - 1];
      stack := rest;
      var ds := top.dependencies;
      for i := 0 to |ds|
        invariant BelowStack(stack) + BelowAll(ds[i..]) == Below(root)
        invariant SizeStack(stack) + SizeAll(ds[i..]) == SizeStack(rest) + SizeAll(ds)
      {
        assert ds[i..][0] == ds[i] && ds[i..][1..] == ds[i + 1..];
        if ds[i].permission.Some? {
          return ds[i].permission;
        }
        assert (stack + [ds[i]])[..|stack|] == stack;
        stack := stack + [ds[i]];
      }
    }
    return None;
  }

  // ----- the accounting ---------------------------------------------------------

  type Key = (string, string)

  datatype Route =
    | ApiRoute(path: string, methods: set<string>, dependant: Dependant)
    | OtherRoute

  /** `routes` is None when the module exposes no APIRouter. */
  datatype Module = Module(name: string, routes: Option<seq<Route>>)

  const PUBLIC_ROUTES: set<Key> := {
    ("GET", "/health"),
    ("GET", "/auth/csrf"),
    ("POST", "/auth/bootstrap"),
    ("POST", "/auth/login"),
    ("GET", "/invites/{token}"),
    ("POST", "/invites/{token}/accept")
  }

  datatype Failure =
    | NoRouter(name: string)
    | PublicButGuarded(key: Key)
    | Unguarded(key: Key)
    | NoSuchPublicRoute(key: Key)
    | NeverIncluded(key: Key)

  /** The methods of a route that need a decision. */
  function Methods(r: Route): set<string> {
    if r.ApiRoute? then r.methods - {"HEAD", "OPTIONS"} else {}
  }

  ghost predicate Guarded(r: Route) {
    r.ApiRoute? && Below(r.dependant) != {}
  }

  /** `{path:path}` is printed `{path}` by OpenAPI: a colon, a run of word characters
      and a closing brace become the brace. */
  predicate IsWord(c: char) {
    'a' <= c <= 'z' || 'A' <= c <= 'Z' || '0' <= c <= '9' || c == '_'
  }

  function WordRun(s: string): nat
    ensures WordRun(s) <= |s|
  {
    if s != [] && IsWord(s[0]) then 1 + WordRun(s[1..]) else 0
  }

  function Bare(path: string): string
    decreases |path|
  {
    if path == [] then []
    else
      var run := WordRun(path[1..]);
      if path[0] == ':' && run > 0 && 1 + run < |path| && path[1 + run] == '}' then ['}'] + Bare(path[run + 2..])
      else [path[0]] + Bare(path[1..])
  }

  /** A colon, at least one word character up to k, and a closing brace there. */
  predicate ConverterAt(s: string, k: nat) {
    1 < k < |s| && s[0] == ':' && s[k] == '}' && forall i :: 0 < i < k ==> IsWord(s[i])
  }

  lemma {:induction false} WordRunEnds(s: string, k: nat)
    requires k <= |s| && (forall i :: 0 <= i < k ==> IsWord(s[i])) && (k == |s| || !IsWord(s[k]))
    ensures WordRun(s) == k
  {
    if k > 0 {
      WordRunEnds(s[1..], k - 1);
    }
  }

  lemma {:induction false} WordRunIsWord(s: string)
    ensures forall i :: 0 <= i < WordRun(s) ==> IsWord(s[i])
  {
    if s != [] && IsWord(s[0]) {
      WordRunIsWord(s[1..]);
      assert forall i :: 0 < i < |s| ==> s[i] == s[1..][i - 1];
    }
  }

  /** From a colon on: a converter becomes its brace, and any other colon stays. */
  lemma BareAtColon(s: string)
    requires s != [] && s[0] == ':'
    ensures forall k :: ConverterAt(s, k) ==> Bare(s) == ['}'] + Bare(s[k + 1..])
    ensures (forall k :: !ConverterAt(s, k)) ==> Bare(s) == [':'] + Bare(s[1..])
  {
    forall k: nat | ConverterAt(s, k)
      ensures Bare(s) == ['}'] + Bare(s[k + 1..])
    {
      WordRunEnds(s[1..], k - 1);
    }
    var run := WordRun(s[1..]);
    WordRunIsWord(s[1..]);
    if run > 0 && 1 + run < |s| && s[1 + run] == '}' {
      assert forall i :: 0 < i < 1 + run ==> s[i] == s[1..][i - 1];
      assert ConverterAt(s, 1 + run);
    }
  }

  /** What stands before the first colon stays. */
  lemma {:induction false} BareBefore(front: string, rest: string)
    requires ':' !in front
    ensures Bare(front + rest) == front + Bare(rest)
    decreases |front|
  {
    if front == [] {
      assert front + rest == rest;
    } else {
      assert (front + rest)[1..] == front[1..] + rest;
      BareBefore(front[1..], rest);
    }
  }

  function BareKey(key: Key): Key {
    (key.0, Bare(key.1))
  }

  ghost predicate Serves(m: Module, r: Route, key: Key) {
    m.routes.Some? && r in m.routes.value && r.ApiRoute? && key.0 in Methods(r) && key.1 == r.path
  }

  /** Some router module defines a route under this key. */
  ghost predicate Defined(modules: seq<Module>, key: Key) {
    exists m, r :: m in modules && Serves(m, r, key)
  }

  ghost predicate DefinedWith(modules: seq<Module>, key: Key, guarded: bool) {
    exists m, r :: m in modules && Serves(m, r, key) && Guarded(r) == guarded
  }

  /** Exactly what the guard reports. */
  ghost predicate Reported(modules: seq<Module>, mounted: set<Key>, f: Failure) {
    match f
    case NoRouter(name) => exists m :: m in modules && m.name == name && m.routes.None?
    case PublicButGuarded(key) => key in PUBLIC_ROUTES && DefinedWith(modules, key, true)
    case Unguarded(key) => key !in PUBLIC_ROUTES && DefinedWith(modules, key, false)
    case NoSuchPublicRoute(key) => key in PUBLIC_ROUTES && !Defined(modules, key)
    case NeverIncluded(key) => Defined(modules, key) && BareKey(key) !in mounted
  }

  ghost predicate FromRoutes(f: Failure) {
    f.NoRouter? || f.PublicButGuarded? || f.Unguarded?
  }

  /** One route of one module: its keys are seen and its failures reported. */
  method CheckRoute(r: Route) returns (failures: set<Failure>, seen: set<Key>)
    ensures forall key :: key in seen <==> r.ApiRoute? && key.0 in Methods(r) && key.1 == r.path
    ensures forall f :: f in failures <==>
      || (f.PublicButGuarded? && f.key in seen && f.key in PUBLIC_ROUTES && Guarded(r))
      || (f.Unguarded? && f.key in seen && f.key !in PUBLIC_ROUTES && !Guarded(r))
  {
    failures, seen := {}, {};
    if r.OtherRoute? {
      return;
    }
    var todo := Methods(r);
    while todo != {}
      invariant todo <= Methods(r)
      invariant forall key :: key in seen <==> key.0 in Methods(r) - todo && key.1 == r.path
      invariant forall f :: f in failures <==>
        || (f.PublicButGuarded? && f.key in seen && f.key in PUBLIC_ROUTES && Guarded(r))
        || (f.Unguarded? && f.key in seen && f.key !in PUBLIC_ROUTES && !Guarded(r))
      decreases todo
    {
      var verb :| verb in todo;
      todo := todo - {verb};
      var key := (verb, r.path);
      seen := seen + {key};
      var permission := DeclaredPermission(r.dependant);
      if permission.Some? {
        if key in PUBLIC_ROUTES {
          failures := failures + {PublicButGuarded(key)};
        }
      } else if key !in PUBLIC_ROUTES {
        failures := failures + {Unguarded(key)};
      }
    }
  }

  ghost predicate ReportedByRoutes(routes: seq<Route>, f: Failure) {
    exists r :: r in routes && r.ApiRoute? &&
      ((f.PublicButGuarded? && f.key.0 in Methods(r) && f.key.1 == r.path && f.key in PUBLIC_ROUTES && Guarded(r)) ||
       (f.Unguarded? && f.key.0 in Methods(r) && f.key.1 == r.path && f.key !in PUBLIC_ROUTES && !Guarded(r)))
  }

  ghost predicate SeenIn(routes: seq<Route>, key: Key) {
    exists r :: r in routes && r.ApiRoute? && key.0 in Methods(r) && key.1 == r.path
  }

  method CheckModule(m: Module) returns (failures: set<Failure>, seen: set<Key>)
    ensures forall key :: key in seen <==> m.routes.Some? && SeenIn(m.routes.value, key)
    ensures forall f :: f in failures <==>
      if m.routes.None? then f == NoRouter(m.name) else ReportedByRoutes(m.routes.value, f)
  {
    failures, seen := {}, {};
    if m.routes.None? {
      failures := {NoRouter(m.name)};
      return;
    }
    var routes := m.routes.value;
    for i := 0 to |routes|
      invariant forall key :: key in seen <==> SeenIn(routes[..i], key)
      invariant forall f :: f in failures <==> ReportedByRoutes(routes[..i], f)
    {
      var more, keys := CheckRoute(routes[i]);
      assert forall r :: r in routes[..i + 1] <==> r in routes[..i] || r == routes[i];
      failures := failures + more;
      seen := seen + keys;
    }
    assert routes[..|routes|] == routes;
  }

  lemma OneMoreModule(earlier: seq<Module>, m: Module, key: Key, guarded: bool)
    ensures Defined(earlier + [m], key) <==> Defined(earlier, key) || exists r :: Serves(m, r, key)
    ensures DefinedWith(earlier + [m], key, guarded) <==>
      DefinedWith(earlier, key, guarded) || exists r :: Serves(m, r, key) && Guarded(r) == guarded
  {
    assert m in earlier + [m];
    assert forall x :: x in earlier + [m] <==> x in earlier || x == m;
  }

  lemma ModuleKeys(m: Module, key: Key)
    ensures (exists r :: Serves(m, r, key)) <==> m.routes.Some? && SeenIn(m.routes.value, key)
  {
    if m.routes.Some? && SeenIn(m.routes.value, key) {
      var r :| r in m.routes.value && r.ApiRoute? && key.0 in Methods(r) && key.1 == r.path;
      assert Serves(m, r, key);
    }
  }

  /** What one more module adds to the report. */
  lemma ModuleReport(earlier: seq<Module>, m: Module, mounted: set<Key>, f: Failure)
    requires FromRoutes(f)
    ensures Reported(earlier + [m], mounted, f) <==>
      || Reported(earlier, mounted, f)
      || (if m.routes.None? then f == NoRouter(m.name) else ReportedByRoutes(m.routes.value, f))
  {
    match f
    case NoRouter(name) =>
      assert m in earlier + [m];
      assert forall x :: x in earlier + [m] <==> x in earlier || x == m;
    case PublicButGuarded(key) =>
      OneMoreModule(earlier, m, key, true);
      RoutesReport(m, f, true);
    case Unguarded(key) =>
      OneMoreModule(earlier, m, key, false);
      RoutesReport(m, f, false);
  }

  lemma RoutesReport(m: Module, f: Failure, guarded: bool)
    requires (f.PublicButGuarded? && guarded) || (f.Unguarded? && !guarded)
    ensures m.routes.None? ==> !exists r :: Serves(m, r, f.key)
    ensures m.routes.Some? && (f.key in PUBLIC_ROUTES <==> guarded) ==>
      (ReportedByRoutes(m.routes.value, f) <==> exists r :: Serves(m, r, f.key) && Guarded(r) == guarded)
    ensures m.routes.Some? && !(f.key in PUBLIC_ROUTES <==> guarded) ==> !ReportedByRoutes(m.routes.value, f)
  {
    if r :| Serves(m, r, f.key) && Guarded(r) == guarded {
      assert r in m.routes.value;
    }
  }

  /** The whole check: `failures` is exactly what should be reported. */
  method Check(modules: seq<Module>, mounted: set<Key>) returns (exit: int, failures: set<Failure>)
    ensures forall f :: f in failures <==> Reported(modules, mounted, f)
    ensures exit == if failures == {} then 0 else 1
  {
    failures := {};
    var seen: set<Key> := {};
    for i := 0 to |modules|
      invariant forall key :: key in seen <==> Defined(modules[..i], key)
      invariant forall f :: f in failures <==> FromRoutes(f) && Reported(modules[..i], mounted, f)
    {
      var more, keys := CheckModule(modules[i]);
      assert modules[..i + 1] == modules[..i] + [modules[i]];
      forall key: Key
        ensures Defined(modules[..i + 1], key) <==> key in seen || key in keys
      {
        OneMoreModule(modules[..i], modules[i], key, true);
        ModuleKeys(modules[i], key);
      }
      forall f | FromRoutes(f)
        ensures Reported(modules[..i + 1], mounted, f) <==> f in failures || f in more
      {
        ModuleReport(modules[..i], modules[i], mounted, f);
      }
      failures := failures + more;
      seen := seen + keys;
    }
    assert modules[..|modules|] == modules;
    failures := failures
      + (set key | key in PUBLIC_ROUTES - seen :: NoSuchPublicRoute(key))
      + (set key | key in seen && BareKey(key) !in mounted :: NeverIncluded(key));
    exit := if failures == {} then 0 else 1;
  }

  /** What a passing build means, in the guard's own three promises. */
  ghost predicate Sound(modules: seq<Module>, mounted: set<Key>) {
    && (forall m :: m in modules ==> m.routes.Some?)
    && (forall m, r, key :: m in modules && Serves(m, r, key) ==> (Guarded(r) <==> key !in PUBLIC_ROUTES))
    && (forall key :: key in PUBLIC_ROUTES ==> Defined(modules, key))
    && (forall key :: Defined(modules, key) ==> BareKey(key) in mounted)
  }

  lemma SilentIsSound(modules: seq<Module>, mounted: set<Key>)
    requires forall f :: !Reported(modules, mounted, f)
    ensures Sound(modules, mounted)
  {
    forall m | m in modules
      ensures m.routes.Some?
    {
      assert !Reported(modules, mounted, NoRouter(m.name));
    }
    forall m, r, key | m in modules && Serves(m, r, key)
      ensures Guarded(r) <==> key !in PUBLIC_ROUTES
    {
      assert !Reported(modules, mounted, PublicButGuarded(key)) && !Reported(modules, mounted, Unguarded(key));
      assert DefinedWith(modules, key, Guarded(r));
    }
    forall key: Key
      ensures key in PUBLIC_ROUTES ==> Defined(modules, key)
      ensures Defined(modules, key) ==> BareKey(key) in mounted
    {
      assert !Reported(modules, mounted, NoSuchPublicRoute(key)) && !Reported(modules, mounted, NeverIncluded(key));
    }
  }

  lemma SoundKeyIsSilent(modules: seq<Module>, mounted: set<Key>, key: Key, guarded: bool)
    requires Sound(modules, mounted) && DefinedWith(modules, key, guarded)
    ensures guarded <==> key !in PUBLIC_ROUTES
  {
    var m, r :| m in modules && Serves(m, r, key) && Guarded(r) == guarded;
  }

  lemma SoundIsSilent(modules: seq<Module>, mounted: set<Key>, f: Failure)
    requires Sound(modules, mounted)
    ensures !Reported(modules, mounted, f)
  {
    match f
    case PublicButGuarded(key) =>
      if DefinedWith(modules, key, true) {
        SoundKeyIsSilent(modules, mounted, key, true);
      }
    case Unguarded(key) =>
      if DefinedWith(modules, key, false) {
        SoundKeyIsSilent(modules, mounted, key, false);
      }
    case _ =>
  }

  /** The build passes exactly when every module has a router, every route is
      guarded or public but not both, every public key is a route and every route
      is mounted. */
  method RunGuard(modules: seq<Module>, mounted: set<Key>) returns (exit: int)
    ensures exit == 0 <==> Sound(modules, mounted)
    ensures exit == 0 || exit == 1
  {
    var failures;
    exit, failures := Check(modules, mounted);
    if failures == {} {
      SilentIsSound(modules, mounted);
    } else {
      var f :| f in failures;
      if Sound(modules, mounted) {
        SoundIsSilent(modules, mounted, f);
      }
    }
  }
}
