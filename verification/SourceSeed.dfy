/**
 The seed of migration 0012 (apps/api/alembic/versions/0012_source_connections.py):
 one connection per workspace and kind that held a stored credential.
 */
module SourceSeed {
  import opened Prelude

  type Id = nat
  type Stamp = int

  datatype Kind = Smtp | Source(name: string)

  datatype Credential = Credential(
    workspace: Id, kind: Kind, createdBy: Id, created: Stamp, tested: Option<Stamp>, testOk: Option<bool>)

  /** The columns carried across; `meta` is not. */
  datatype Connection = Connection(connectedBy: Id, connected: Stamp, tested: Option<Stamp>, testOk: Option<bool>)

  type Pair = (Id, Kind)

  function PairOf(c: Credential): Pair {
    (c.workspace, c.kind)
  }

  function Carried(c: Credential): Connection {
    Connection(c.createdBy, c.created, c.tested, c.testOk)
  }

  /** The rows `DISTINCT ON (workspace_id, kind)` may keep for a pair: one of its
      oldest. */
  ghost predicate OldestOf(credentials: map<Id, Credential>, pair: Pair, k: Id) {
    && k in credentials && PairOf(credentials[k]) == pair && pair.1 != Smtp
    && forall j :: j in credentials && PairOf(credentials[j]) == pair ==>
      credentials[k].created <= credentials[j].created
  }

  /** What the one INSERT may leave. The table is keyed by its unique index. */
  ghost predicate Seeded(credentials: map<Id, Credential>, connections: map<Pair, Connection>) {
    && (forall k :: k in credentials && credentials[k].kind != Smtp ==> PairOf(credentials[k]) in connections)
    && (forall pair :: pair in connections ==>
         exists k :: OldestOf(credentials, pair, k) && connections[pair] == Carried(credentials[k]))
  }

  method Seed(credentials: map<Id, Credential>) returns (connections: map<Pair, Connection>)
    ensures Seeded(credentials, connections)
  {
    connections := map[];
    var todo := set k | k in credentials && credentials[k].kind != Smtp;
    ghost var from: map<Pair, Id> := map[];
    while todo != {}
      invariant todo <= credentials.Keys && from.Keys == connections.Keys
      invariant forall k :: k in credentials && credentials[k].kind != Smtp && k !in todo ==>
        PairOf(credentials[k]) in from && connections[PairOf(credentials[k])].connected <= credentials[k].created
      invariant forall pair :: pair in from ==>
        && from[pair] in credentials && PairOf(credentials[from[pair]]) == pair && pair.1 != Smtp
        && connections[pair] == Carried(credentials[from[pair]])
      invariant forall k :: k in todo ==> credentials[k].kind != Smtp
      decreases todo
    {
      var k :| k in todo;
      todo := todo - {k};
      var c := credentials[k];
      if PairOf(c) !in connections || c.created < connections[PairOf(c)].connected {
        connections := connections[PairOf(c) := Carried(c)];
        from := from[PairOf(c) := k];
      }
    }
    forall pair | pair in connections
      ensures exists k :: OldestOf(credentials, pair, k) && connections[pair] == Carried(credentials[k])
    {
      assert OldestOf(credentials, pair, from[pair]);
    }
  }

  /** Every decision is carried forward and nothing else is: a pair is connected
      exactly when it held a credential that is not for mail, and the connection
      dates from the first of them. */
  lemma SeedCarriesEveryDecision(credentials: map<Id, Credential>, connections: map<Pair, Connection>, pair: Pair)
    requires Seeded(credentials, connections)
    ensures pair in connections <==> pair.1 != Smtp && exists k :: k in credentials && PairOf(credentials[k]) == pair
    ensures pair in connections ==>
      && (forall k :: k in credentials && PairOf(credentials[k]) == pair ==>
           connections[pair].connected <= credentials[k].created)
      && (exists k ::
            && k in credentials && (credentials[k].workspace, credentials[k].kind) == pair
            && connections[pair].connectedBy == credentials[k].createdBy
            && connections[pair].connected == credentials[k].created
            && connections[pair].tested == credentials[k].tested
            && connections[pair].testOk == credentials[k].testOk)
  {
    if pair in connections {
      var k :| OldestOf(credentials, pair, k) && connections[pair] == Carried(credentials[k]);
      assert PairOf(credentials[k]) == pair;
    }
  }

  /** The ORDER BY names no tie-break: the seed has one possible outcome exactly when
      the oldest credentials of each pair carry the same columns. */
  lemma SeedIsDeterminedExactly(credentials: map<Id, Credential>)
    ensures (forall a, b :: Seeded(credentials, a) && Seeded(credentials, b) ==> a == b)
       <==> (forall pair, j, k :: OldestOf(credentials, pair, j) && OldestOf(credentials, pair, k) ==>
               Carried(credentials[j]) == Carried(credentials[k]))
  {
    if forall pair, j, k :: OldestOf(credentials, pair, j) && OldestOf(credentials, pair, k) ==>
         Carried(credentials[j]) == Carried(credentials[k]) {
      forall a, b | Seeded(credentials, a) && Seeded(credentials, b)
        ensures a == b
      {
        SameSeed(credentials, a, b);
      }
    }
    forall pair, j, k | OldestOf(credentials, pair, j) && OldestOf(credentials, pair, k)
      && Carried(credentials[j]) != Carried(credentials[k])
      ensures exists a, b :: Seeded(credentials, a) && Seeded(credentials, b) && a != b
    {
      var a := SomeSeed(credentials);
      var first, second := a[pair := Carried(credentials[j])], a[pair := Carried(credentials[k])];
      assert first[pair] != second[pair];
      ReplaceOne(credentials, a, pair, j);
      ReplaceOne(credentials, a, pair, k);
    }
  }

  lemma SameSeed(credentials: map<Id, Credential>, a: map<Pair, Connection>, b: map<Pair, Connection>)
    requires Seeded(credentials, a) && Seeded(credentials, b)
    requires forall pair, j, k :: OldestOf(credentials, pair, j) && OldestOf(credentials, pair, k) ==>
      Carried(credentials[j]) == Carried(credentials[k])
    ensures a == b
  {
    SameKeys(credentials, a, b);
    forall pair | pair in a
      ensures a[pair] == b[pair]
    {
      var j :| OldestOf(credentials, pair, j) && a[pair] == Carried(credentials[j]);
      var k :| OldestOf(credentials, pair, k) && b[pair] == Carried(credentials[k]);
    }
  }

  lemma SameKeys(credentials: map<Id, Credential>, a: map<Pair, Connection>, b: map<Pair, Connection>)
    requires Seeded(credentials, a) && Seeded(credentials, b)
    ensures a.Keys == b.Keys
  {
    forall pair: Pair
      ensures pair in a <==> pair in b
    {
      SeedCarriesEveryDecision(credentials, a, pair);
      SeedCarriesEveryDecision(credentials, b, pair);
    }
  }

  /** Two keys of one kind stored at the same moment by different people: either may be
      the one the connection is attributed to. */
  lemma ATieLeavesTheSeedOpen(kind: Kind, x: Credential)
    requires kind != Smtp && x.kind == kind
    ensures var credentials := map[1 := x.(createdBy := 7), 2 := x.(createdBy := 8)];
      && Seeded(credentials, map[PairOf(x) := Carried(x.(createdBy := 7))])
      && Seeded(credentials, map[PairOf(x) := Carried(x.(createdBy := 8))])
      && Carried(x.(createdBy := 7)).connectedBy != Carried(x.(createdBy := 8)).connectedBy
  {
    var credentials := map[1 := x.(createdBy := 7), 2 := x.(createdBy := 8)];
    assert OldestOf(credentials, PairOf(x), 1) && OldestOf(credentials, PairOf(x), 2);
  }

  lemma ReplaceOne(credentials: map<Id, Credential>, a: map<Pair, Connection>, pair: Pair, k: Id)
    requires Seeded(credentials, a) && OldestOf(credentials, pair, k)
    ensures Seeded(credentials, a[pair := Carried(credentials[k])])
  {
    var b := a[pair := Carried(credentials[k])];
    forall other | other in b
      ensures exists j :: OldestOf(credentials, other, j) && b[other] == Carried(credentials[j])
    {
      if other != pair {
        var j :| OldestOf(credentials, other, j) && a[other] == Carried(credentials[j]);
      }
    }
  }

  lemma {:induction false} OldestExists(credentials: map<Id, Credential>, s: set<Id>) returns (k: Id)
    requires s != {} && s <= credentials.Keys
    ensures k in s && forall j :: j in s ==> credentials[k].created <= credentials[j].created
    decreases s
  {
    k :| k in s;
    if s != {k} {
      var rest := OldestExists(credentials, s - {k});
      if credentials[rest].created < credentials[k].created {
        k := rest;
      }
    }
  }

  /** There is always an outcome. */
  lemma SomeSeed(credentials: map<Id, Credential>) returns (a: map<Pair, Connection>)
    ensures Seeded(credentials, a)
  {
    var pairs := set k | k in credentials && credentials[k].kind != Smtp :: PairOf(credentials[k]);
    forall pair | pair in pairs
      ensures exists k :: OldestOf(credentials, pair, k)
    {
      var s := set k | k in credentials && PairOf(credentials[k]) == pair;
      var one :| one in credentials && credentials[one].kind != Smtp && PairOf(credentials[one]) == pair;
      assert one in s;
      var k := OldestExists(credentials, s);
      assert OldestOf(credentials, pair, k);
    }
    a := map pair | pair in pairs :: Carried(credentials[Chosen(credentials, pair)]);
    forall pair | pair in a
      ensures exists k :: OldestOf(credentials, pair, k) && a[pair] == Carried(credentials[k])
    {
      assert OldestOf(credentials, pair, Chosen(credentials, pair));
    }
  }

  ghost function Chosen(credentials: map<Id, Credential>, pair: Pair): (k: Id)
    requires exists k :: OldestOf(credentials, pair, k)
    ensures OldestOf(credentials, pair, k)
  {
    var k :| OldestOf(credentials, pair, k);
    k
  }
}
