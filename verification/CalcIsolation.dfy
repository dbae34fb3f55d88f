/**
 The citation rule of the calculation guard
 (apps/api/scripts/check_calc_isolation.py): which `*Output` models hold a number,
 directly or through a model of the same file, and what the guard reports.
 */
module CalcIsolation {
  import opened Prelude

  const NUMERIC_ANNOTATIONS: set<string> := {"int", "float", "Decimal", "complex"}
  const CITATION_FIELD := "calc_evidence_ids"

  /** `direct` says of each class of the file whether it declares a number itself;
      `referenced` holds the names its annotations mention. */
  datatype Graph = Graph(direct: map<string, bool>, referenced: map<string, set<string>>)

  /** The classes of this file that `name` mentions. */
  function Children(g: Graph, name: string): set<string> {
    if name in g.referenced then g.referenced[name] * g.direct.Keys else {}
  }

  predicate DeclaresNumber(g: Graph, name: string) {
    name in g.direct && g.direct[name]
  }

  // ----- reachability -------------------------------------------------------

  ghost predicate IsPath(g: Graph, path: seq<string>) {
    path != [] && forall i :: 0 <= i < |path| - 1 ==> path[i + 1] in Children(g, path[i])
  }

  /** A chain of references leads from `name` to a number without entering `avoid`. */
  ghost predicate LeadsToNumber(g: Graph, name: string, avoid: set<string>, path: seq<string>) {
    && IsPath(g, path)
    && path[0] == name
    && DeclaresNumber(g, path[|path| - 1])
    && forall i :: 0 <= i < |path| ==> path[i] !in avoid
  }

  ghost predicate CarriesAvoiding(g: Graph, name: string, avoid: set<string>) {
    exists path :: LeadsToNumber(g, name, avoid, path)
  }

  ghost predicate Carries(g: Graph, name: string) {
    CarriesAvoiding(g, name, {})
  }

  /** Everything the search entered since `before` holds no number and has all its
      children entered. */
  ghost predicate Explored(g: Graph, before: set<string>, after: set<string>) {
    forall x :: x in after - before ==> !DeclaresNumber(g, x) && Children(g, x) <= after
  }

  lemma {:induction false} ExploredHoldsNoNumber(
    g: Graph, name: string, before: set<string>, after: set<string>, path: seq<string>)
    requires Explored(g, before, after) && name in after
    ensures !LeadsToNumber(g, name, before, path)
    decreases |path|
  {
    if LeadsToNumber(g, name, before, path) && |path| > 1 {
      assert path[1] in Children(g, path[0]);
      assert LeadsToNumber(g, path[1], before, path[1..]) by {
        forall i | 0 <= i < |path[1..]| - 1
          ensures path[1..][i + 1] in Children(g, path[1..][i])
        {
          assert path[(i + 1) + 1] in Children(g, path[i + 1]);
        }
      }
      ExploredHoldsNoNumber(g, path[1], before, after, path[1..]);
    }
  }

  lemma ExtendPath(g: Graph, name: string, child: string, avoid: set<string>, wider: set<string>)
    requires child in Children(g, name) && name !in avoid && avoid <= wider
    requires CarriesAvoiding(g, child, wider)
    ensures CarriesAvoiding(g, name, avoid)
  {
    var path :| LeadsToNumber(g, child, wider, path);
    var longer := [name] + path;
    forall i | 0 <= i < |longer| - 1
      ensures longer[i + 1] in Children(g, longer[i])
    {
      if i > 0 {
        assert path[(i - 1) + 1] in Children(g, path[i - 1]);
      }
    }
    assert LeadsToNumber(g, name, avoid, longer);
  }

  // ----- the search ----------------------------------------------------------

  /** The set every recursive call shares and fills. */
  class Seen {
    var names: set<string>

    constructor ()
      ensures names == {}
    {
      names := {};
    }
  }

  /** Whatever the shared set already holds, and in whatever order the children are
      taken: a number is found exactly when one can be reached without entering a
      name that had been seen. */
  method CarriesANumber(name: string, g: Graph, seen: Seen) returns (found: bool)
    modifies seen
    ensures old(seen.names) <= seen.names
    ensures found <==> CarriesAvoiding(g, name, old(seen.names))
    ensures !found ==> name in seen.names && Explored(g, old(seen.names), seen.names)
    decreases |(g.direct.Keys + {name}) - seen.names|
  {
    ghost var before := seen.names;
    if name in seen.names {
      assert forall path: seq<string> :: path != [] && path[0] == name ==> path[0] in before;
      return false;
    }
    seen.names := seen.names + {name};
    if DeclaresNumber(g, name) {
      assert LeadsToNumber(g, name, before, [name]);
      return true;
    }
    var todo := Children(g, name);
    while todo != {}
      invariant todo <= Children(g, name)
      invariant before + {name} <= seen.names
      invariant Explored(g, before + {name}, seen.names)
      invariant Children(g, name) - todo <= seen.names
      decreases todo
    {
      var child :| child in todo;
      assert (g.direct.Keys + {child}) - seen.names <= ((g.direct.Keys + {name}) - before) - {name};
      Smaller((g.direct.Keys + {child}) - seen.names, (g.direct.Keys + {name}) - before, name);
      ghost var already := seen.names;
      var hit := CarriesANumber(child, g, seen);
      if hit {
        ExtendPath(g, name, child, before, already);
        return true;
      }
      todo := todo - {child};
    }
    forall path
      ensures !LeadsToNumber(g, name, before, path)
    {
      ExploredHoldsNoNumber(g, name, before, seen.names, path);
    }
    return false;
  }

  lemma Smaller(a: set<string>, b: set<string>, x: string)
    requires x in b && a <= b - {x}
    ensures |a| < |b|
  {
    SubsetSize(a, b - {x});
  }

  lemma {:induction false} SubsetSize(a: set<string>, b: set<string>)
    requires a <= b
    ensures |a| <= |b|
    decreases a
  {
    if a != {} {
      var x :| x in a;
      SubsetSize(a - {x}, b - {x});
    }
  }

  /** The guard's question, asked with an empty set. */
  method HoldsANumber(name: string, g: Graph) returns (found: bool)
    ensures found <==> Carries(g, name)
  {
    var seen := new Seen();
    found := CarriesANumber(name, g, seen);
  }

  // ----- reading the file ------------------------------------------------------

  /** One annotated assignment of a class body. `target` is empty when it is not a
      plain name. */
  datatype Field = Field(target: string, names: set<string>, line: nat, minLength: bool)

  datatype ClassDef = ClassDef(name: string, line: nat, body: seq<Field>)

  datatype Failure = NoCitation(line: nat, name: string) | NoMinLength(line: nat, name: string)

  predicate Counts(f: Field) {
    f.target != CITATION_FIELD
  }

  ghost predicate HasNumber(body: seq<Field>) {
    exists f :: f in body && Counts(f) && f.names * NUMERIC_ANNOTATIONS != {}
  }

  ghost predicate Mentions(body: seq<Field>, name: string) {
    exists f :: f in body && Counts(f) && name in f.names
  }

  /** The last citation field of a body wins. */
  function Citation(body: seq<Field>): Option<Field> {
    if body == [] then None
    else if !Counts(body[|body| - 1]) then Some(body[|body| - 1])
    else Citation(body[..|body| - 1])
  }

  /** Said by position: there is none when no field is a citation, and else it is the one with
      no other behind it. */
  lemma {:induction false} CitationIsTheLast(body: seq<Field>, i: nat)
    requires i < |body| && body[i].target == CITATION_FIELD
    requires forall j :: i < j < |body| ==> body[j].target != CITATION_FIELD
    ensures Citation(body) == Some(body[i])
  {
    if i < |body| - 1 {
      CitationIsTheLast(body[..|body| - 1], i);
    }
  }

  lemma {:induction false} NoCitationExactly(body: seq<Field>)
    ensures Citation(body).None? <==> forall f :: f in body ==> f.target != CITATION_FIELD
  {
    if body != [] {
      NoCitationExactly(body[..|body| - 1]);
      assert forall f :: f in body <==> f in body[..|body| - 1] || f == body[|body| - 1];
    }
  }

  method ScanClass(c: ClassDef) returns (number: bool, referenced: set<string>, citation: Option<Field>)
    ensures number <==> HasNumber(c.body)
    ensures forall name :: name in referenced <==> Mentions(c.body, name)
    ensures citation == Citation(c.body)
  {
    number, referenced, citation := false, {}, None;
    for i := 0 to |c.body|
      invariant number <==> HasNumber(c.body[..i])
      invariant forall name :: name in referenced <==> Mentions(c.body[..i], name)
      invariant citation == Citation(c.body[..i])
    {
      var f := c.body[i];
      assert c.body[..i + 1][..i] == c.body[..i];
      assert forall g :: g in c.body[..i + 1] <==> g in c.body[..i] || g == f;
      if f.target == CITATION_FIELD {
        citation := Some(f);
      } else {
        if f.names * NUMERIC_ANNOTATIONS != {} {
          number := true;
        }
        referenced := referenced + f.names;
      }
    }
    assert c.body[..|c.body|] == c.body;
  }

  ghost predicate Declared(classes: seq<ClassDef>, name: string) {
    exists c :: c in classes && c.name == name
  }

  /** A class written twice is its last definition. */
  ghost function LastDef(classes: seq<ClassDef>, name: string): (c: ClassDef)
    requires Declared(classes, name)
    ensures c in classes && c.name == name
  {
    if classes[|classes| - 1].name == name then classes[|classes| - 1]
    else
      assert forall c :: c in classes <==> c in classes[..|classes| - 1] || c == classes[|classes| - 1];
      LastDef(classes[..|classes| - 1], name)
  }

  /** The names of the file in the order they first appear. */
  function FirstNames(classes: seq<ClassDef>): (names: seq<string>)
    ensures forall i, j :: 0 <= i < j < |names| ==> names[i] != names[j]
    ensures forall name :: name in names <==> exists c :: c in classes && c.name == name
  {
    if classes == [] then []
    else
      var c := classes[|classes| - 1];
      var earlier := FirstNames(classes[..|classes| - 1]);
      assert forall d :: d in classes <==> d in classes[..|classes| - 1] || d == c;
      if c.name in earlier then earlier else earlier + [c.name]
  }

  /** The four dictionaries the guard fills, and the order of their keys. */
  datatype File = File(g: Graph, citation: map<string, Option<Field>>, lineno: map<string, nat>, order: seq<string>)

  ghost predicate DescribesClass(f: File, name: string, c: ClassDef) {
    && name in f.g.direct && name in f.g.referenced && name in f.citation && name in f.lineno
    && (f.g.direct[name] <==> HasNumber(c.body))
    && (forall other :: other in f.g.referenced[name] <==> Mentions(c.body, other))
    && f.citation[name] == Citation(c.body)
    && f.lineno[name] == c.line
  }

  /** Every class of the file is filed under its last definition, and nothing else is. */
  ghost predicate Describes(f: File, classes: seq<ClassDef>) {
    && f.order == FirstNames(classes)
    && (forall name :: name in f.g.direct.Keys <==> Declared(classes, name))
    && (forall name :: Declared(classes, name) ==> DescribesClass(f, name, LastDef(classes, name)))
  }

  lemma LastDefStep(classes: seq<ClassDef>, c: ClassDef)
    ensures forall name :: Declared(classes + [c], name) <==> Declared(classes, name) || name == c.name
    ensures forall name :: Declared(classes + [c], name) ==>
      LastDef(classes + [c], name) == if name == c.name then c else LastDef(classes, name)
    ensures FirstNames(classes + [c]) ==
      FirstNames(classes) + if c.name in FirstNames(classes) then [] else [c.name]
  {
    assert (classes + [c])[..|classes|] == classes;
    assert forall d :: d in classes + [c] <==> d in classes || d == c;
    forall name
      ensures Declared(classes + [c], name) <==> Declared(classes, name) || name == c.name
    {
      assert c in classes + [c];
    }
  }

  predicate EndsWithOutput(name: string) {
    |name| >= 6 && name[|name| - 6..] == "Output"
  }

  /** What the guard has to say about one class. */
  ghost function Verdict(g: Graph, classes: seq<ClassDef>, name: string): Option<Failure>
    requires Declared(classes, name)
  {
    var def := LastDef(classes, name);
    if !EndsWithOutput(name) || !Carries(g, name) then None
    else if Citation(def.body).None? then Some(NoCitation(def.line, name))
    else if !Citation(def.body).value.minLength then Some(NoMinLength(Citation(def.body).value.line, name))
    else None
  }

  ghost function Report(g: Graph, classes: seq<ClassDef>, names: seq<string>): seq<Failure>
    requires forall name :: name in names ==> Declared(classes, name)
  {
    if names == [] then []
    else
      var last := names[|names| - 1];
      assert last in names;
      Report(g, classes, names[..|names| - 1])
      + (if Verdict(g, classes, last).Some? then [Verdict(g, classes, last).value] else [])
  }

  function FileClass(f: File, c: ClassDef, number: bool, names: set<string>): File {
    File(
      Graph(f.g.direct[c.name := number], f.g.referenced[c.name := names]),
      f.citation[c.name := Citation(c.body)],
      f.lineno[c.name := c.line],
      if c.name in f.g.direct then f.order else f.order + [c.name])
  }

  lemma FileClassDescribes(f: File, classes: seq<ClassDef>, c: ClassDef, number: bool, names: set<string>)
    requires Describes(f, classes)
    requires number <==> HasNumber(c.body)
    requires forall name :: name in names <==> Mentions(c.body, name)
    ensures Describes(FileClass(f, c, number, names), classes + [c])
  {
    LastDefStep(classes, c);
    var f' := FileClass(f, c, number, names);
    forall name | Declared(classes + [c], name)
      ensures DescribesClass(f', name, LastDef(classes + [c], name))
    {
      if name != c.name {
        assert DescribesClass(f, name, LastDef(classes, name));
      }
    }
  }

  method ReadFile(classes: seq<ClassDef>) returns (f: File)
    ensures Describes(f, classes)
  {
    f := File(Graph(map[], map[]), map[], map[], []);
    for i := 0 to |classes|
      invariant Describes(f, classes[..i])
    {
      var c := classes[i];
      var number, names, declared := ScanClass(c);
      assert classes[..i + 1] == classes[..i] + [c];
      FileClassDescribes(f, classes[..i], c, number, names);
      f := File(
        Graph(f.g.direct[c.name := number], f.g.referenced[c.name := names]),
        f.citation[c.name := declared],
        f.lineno[c.name := c.line],
        if c.name in f.g.direct then f.order else f.order + [c.name]);
    }
    assert classes[..|classes|] == classes;
  }

  method CheckCalcCitations(classes: seq<ClassDef>) returns (failures: seq<Failure>, f: File)
    ensures Describes(f, classes)
    ensures failures == Report(f.g, classes, FirstNames(classes))
  {
    f := ReadFile(classes);
    failures := [];
    assert forall name :: name in f.order ==> Declared(classes, name);
    for i := 0 to |f.order|
      invariant forall name :: name in f.order[..i] ==> Declared(classes, name)
      invariant failures == Report(f.g, classes, f.order[..i])
    {
      var name := f.order[i];
      assert f.order[..i + 1][..i] == f.order[..i] && name in f.order;
      assert DescribesClass(f, name, LastDef(classes, name));
      if EndsWithOutput(name) {
        var carries := HoldsANumber(name, f.g);
        if carries {
          if f.citation[name].None? {
            failures := failures + [NoCitation(f.lineno[name], name)];
          } else if !f.citation[name].value.minLength {
            failures := failures + [NoMinLength(f.citation[name].value.line, name)];
          }
        }
      }
    }
    assert f.order[..|f.order|] == f.order;
  }

  lemma {:induction false} ReportMembers(g: Graph, classes: seq<ClassDef>, names: seq<string>, failure: Failure)
    requires forall name :: name in names ==> Declared(classes, name)
    ensures failure in Report(g, classes, names) <==>
      exists name :: name in names && Verdict(g, classes, name) == Some(failure)
    decreases |names|
  {
    if names != [] {
      var last := names[|names| - 1];
      ReportMembers(g, classes, names[..|names| - 1], failure);
      assert forall name :: name in names <==> name in names[..|names| - 1] || name == last;
    }
  }

  lemma ReportedExactly(g: Graph, classes: seq<ClassDef>, failure: Failure)
    ensures failure in Report(g, classes, FirstNames(classes)) <==>
      Declared(classes, failure.name) && Verdict(g, classes, failure.name) == Some(failure)
  {
    var names := FirstNames(classes);
    ReportMembers(g, classes, names, failure);
    assert forall name :: name in names <==> Declared(classes, name);
    assert forall name :: Declared(classes, name) && Verdict(g, classes, name) == Some(failure) ==>
      name == failure.name;
  }

  /** Which failures are reported: a model without a citation at the line of its last
      definition, and one whose citation may be empty at the line of the citation. */
  lemma FailuresExactly(g: Graph, classes: seq<ClassDef>, line: nat, name: string)
    ensures NoCitation(line, name) in Report(g, classes, FirstNames(classes)) <==>
      && Declared(classes, name) && EndsWithOutput(name) && Carries(g, name)
      && LastDef(classes, name).line == line
      && Citation(LastDef(classes, name).body).None?
    ensures NoMinLength(line, name) in Report(g, classes, FirstNames(classes)) <==>
      && Declared(classes, name) && EndsWithOutput(name) && Carries(g, name)
      && var citation := Citation(LastDef(classes, name).body);
         citation.Some? && !citation.value.minLength && citation.value.line == line
  {
    ReportedExactly(g, classes, NoCitation(line, name));
    ReportedExactly(g, classes, NoMinLength(line, name));
  }

  /** Every `*Output` model that reaches a number cites a calculation, and its
      citation cannot be empty. */
  ghost predicate EveryNumberIsCited(g: Graph, classes: seq<ClassDef>) {
    forall name :: Declared(classes, name) && EndsWithOutput(name) && Carries(g, name) ==>
      var citation := Citation(LastDef(classes, name).body);
      citation.Some? && citation.value.minLength
  }

  lemma CitedExactly(g: Graph, classes: seq<ClassDef>, name: string)
    requires Declared(classes, name)
    ensures Verdict(g, classes, name).None? <==> (EndsWithOutput(name) && Carries(g, name) ==>
      Citation(LastDef(classes, name).body).Some? && Citation(LastDef(classes, name).body).value.minLength)
  {
  }

  /** The guard is silent exactly when every number is cited. */
  lemma SilentExactlyWhenCited(g: Graph, classes: seq<ClassDef>)
    ensures Report(g, classes, FirstNames(classes)) == [] <==> EveryNumberIsCited(g, classes)
  {
    var names := FirstNames(classes);
    var report := Report(g, classes, names);
    assert forall name :: name in names <==> Declared(classes, name);
    if report != [] {
      ReportMembers(g, classes, names, report[0]);
      var name :| name in names && Verdict(g, classes, name) == Some(report[0]);
      CitedExactly(g, classes, name);
    } else {
      forall name | Declared(classes, name)
        ensures Verdict(g, classes, name).None?
      {
        if Verdict(g, classes, name).Some? {
          ReportMembers(g, classes, names, Verdict(g, classes, name).value);
        }
      }
      forall name | Declared(classes, name) && EndsWithOutput(name) && Carries(g, name)
        ensures Citation(LastDef(classes, name).body).Some? && Citation(LastDef(classes, name).body).value.minLength
      {
        CitedExactly(g, classes, name);
      }
    }
  }
}
