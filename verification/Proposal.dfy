/**
 Counting the CRM's countries and merging them with the published ones
 (apps/api/src/agent/autofill.py).
 */
module Proposal {
  import opened Prelude
  import opened Countries
  import opened Letters
  import opened Markets

  /** A counter keeps its keys in the order they were first counted. */
  type Counter = seq<(string, nat)>

  function Bump(c: Counter, country: string): Counter {
    if c == [] then [(country, 1)]
    else if c[0].0 == country then [(country, c[0].1 + 1)] + c[1..]
    else [c[0]] + Bump(c[1..], country)
  }

  function CountOf(c: Counter, country: string): nat {
    if c == [] then 0 else if c[0].0 == country then c[0].1 else CountOf(c[1..], country)
  }

  function Total(c: Counter): nat {
    if c == [] then 0 else c[0].1 + Total(c[1..])
  }

  predicate Positive(c: Counter) {
    forall i :: 0 <= i < |c| ==> c[i].1 > 0
  }

  lemma {:induction false} BumpCounts(c: Counter, country: string)
    requires Distinct(Firsts(c)) && Positive(c)
    ensures Distinct(Firsts(Bump(c, country))) && Positive(Bump(c, country))
    ensures forall other :: CountOf(Bump(c, country), other) == CountOf(c, other) + (if other == country then 1 else 0)
    ensures Total(Bump(c, country)) == Total(c) + 1
    ensures forall other :: other in Firsts(Bump(c, country)) <==> other in Firsts(c) || other == country
  {
    if c == [] {
      assert Bump(c, country) == [(country, 1)] && Firsts(Bump(c, country)) == [country];
      assert Bump(c, country)[1..] == [];
    } else if c[0].0 == country {
      var b := Bump(c, country);
      assert b[1..] == c[1..] && Firsts(b) == Firsts(c) && Firsts(c)[0] == country;
    } else {
      var b := Bump(c, country);
      assert b[1..] == Bump(c[1..], country);
      assert Firsts(c) == [c[0].0] + Firsts(c[1..]) && Firsts(b) == [c[0].0] + Firsts(Bump(c[1..], country));
      KeysTail(c);
      BumpCounts(c[1..], country);
    }
  }

  lemma KeysTail(c: Counter)
    requires c != [] && Distinct(Firsts(c))
    ensures Distinct(Firsts(c[1..])) && c[0].0 !in Firsts(c[1..])
  {
    assert Firsts(c)[0] == c[0].0 && forall i :: 0 <= i < |c| - 1 ==> Firsts(c[1..])[i] == Firsts(c)[i + 1];
  }

  // ----- the CRM rows -------------------------------------------------------------------

  /** A row's `country` cell; a missing or empty one is skipped. */
  predicate Filled(cell: Option<string>) {
    cell.Some? && cell.value != ""
  }

  function Reads(cell: Option<string>): Option<string> {
    if Filled(cell) then NormaliseCountry(cell.value) else None
  }

  function RowsIn(cells: seq<Option<string>>, country: string): nat {
    if cells == [] then 0
    else RowsIn(cells[..|cells| - 1], country) + (if Reads(cells[|cells| - 1]) == Some(country) then 1 else 0)
  }

  function FilledRows(cells: seq<Option<string>>): nat {
    if cells == [] then 0 else FilledRows(cells[..|cells| - 1]) + (if Filled(cells[|cells| - 1]) then 1 else 0)
  }

  /** Each country read, where it is read first. */
  function FirstMet(cells: seq<Option<string>>): seq<string> {
    if cells == [] then []
    else Met(FirstMet(cells[..|cells| - 1]), Reads(cells[|cells| - 1]))
  }

  function Met(names: seq<string>, read: Option<string>): seq<string> {
    if read.None? || read.value in names then names else names + [read.value]
  }

  /** Every filled row is counted under its country or as unresolved, every key is a
      country with a known currency, and keys stand in the order first met. */
  ghost predicate Counts(cells: seq<Option<string>>, counts: Counter, unresolved: nat) {
    && Distinct(Firsts(counts)) && Positive(counts)
    && Firsts(counts) == FirstMet(cells)
    && (forall country :: CountOf(counts, country) == RowsIn(cells, country))
    && Total(counts) + unresolved == FilledRows(cells)
    && (forall country :: country in Firsts(counts) ==> Country(country).Some?)
  }

  lemma {:induction false} BumpKeys(c: Counter, country: string)
    ensures Firsts(Bump(c, country)) == Met(Firsts(c), Some(country))
  {
    if c == [] {
      assert Firsts(Bump(c, country)) == [country];
    } else {
      var b := Bump(c, country);
      assert Firsts(c) == [c[0].0] + Firsts(c[1..]);
      if c[0].0 == country {
        assert b[1..] == c[1..];
        assert Firsts(b) == Firsts(c);
      } else {
        BumpKeys(c[1..], country);
        assert b[1..] == Bump(c[1..], country);
        assert Firsts(b) == [c[0].0] + Firsts(b[1..]);
      }
    }
  }

  lemma OneMoreRow(cells: seq<Option<string>>, cell: Option<string>)
    ensures FirstMet(cells + [cell]) == Met(FirstMet(cells), Reads(cell))
    ensures FilledRows(cells + [cell]) == FilledRows(cells) + (if Filled(cell) then 1 else 0)
    ensures forall country ::
      RowsIn(cells + [cell], country) == RowsIn(cells, country) + (if Reads(cell) == Some(country) then 1 else 0)
  {
    assert (cells + [cell])[..|cells|] == cells;
  }

  /** What one row does to the counter and to the unresolved rows. */
  lemma CountsStep(cells: seq<Option<string>>, cell: Option<string>, counts: Counter, unresolved: nat)
    requires Counts(cells, counts, unresolved)
    ensures Reads(cell).Some? ==> Counts(cells + [cell], Bump(counts, Reads(cell).value), unresolved)
    ensures Reads(cell).None? ==> Counts(cells + [cell], counts, unresolved + if Filled(cell) then 1 else 0)
  {
    OneMoreRow(cells, cell);
    if Reads(cell).Some? {
      BumpCounts(counts, Reads(cell).value);
      BumpKeys(counts, Reads(cell).value);
    }
  }

  method CrmCountries(cells: seq<Option<string>>) returns (counts: Counter, unresolved: nat)
    ensures Counts(cells, counts, unresolved)
  {
    counts, unresolved := [], 0;
    for i := 0 to |cells|
      invariant Counts(cells[..i], counts, unresolved)
    {
      assert cells[..i + 1] == cells[..i] + [cells[i]];
      CountsStep(cells[..i], cells[i], counts, unresolved);
      if Filled(cells[i]) {
        var country := NormaliseCountry(cells[i].value);
        if country.None? {
          unresolved := unresolved + 1;
        } else {
          counts := Bump(counts, country.value);
        }
      }
    }
    assert cells[..|cells|] == cells;
  }

  /** One CRM export has one counter: with the counts and the order of its keys given,
      nothing is left open, and so neither is the proposal. */
  lemma CountsAreDetermined(cells: seq<Option<string>>, a: Counter, b: Counter, m: nat, n: nat)
    requires Counts(cells, a, m) && Counts(cells, b, n)
    ensures a == b && m == n
  {
    forall i | 0 <= i < |a|
      ensures a[i] == b[i]
    {
      assert Firsts(a)[i] == Firsts(b)[i];
      CountAt(a, i);
      CountAt(b, i);
    }
    assert |Firsts(a)| == |Firsts(b)|;
  }

  lemma {:induction false} CountAt(c: Counter, i: nat)
    requires Distinct(Firsts(c)) && i < |c|
    ensures CountOf(c, c[i].0) == c[i].1
  {
    if i > 0 {
      KeysTail(c);
      assert Firsts(c[1..])[i - 1] == c[i].0;
      CountAt(c[1..], i - 1);
    }
  }

  // ----- most common first ------------------------------------------------------------------

  function More(): Order {
    (a: (string, nat), b: (string, nat)) => a.1 > b.1
  }

  function MostCommon(c: Counter): Counter {
    StableSort(c, More())
  }

  function WithCount(c: Counter, n: nat): Counter {
    if c == [] then [] else (if c[0].1 == n then [c[0]] else []) + WithCount(c[1..], n)
  }

  predicate Descending(c: Counter) {
    forall i, j :: 0 <= i < j < |c| ==> c[i].1 >= c[j].1
  }

  type Order = ((string, nat), (string, nat)) -> bool

  ghost predicate ByCount(more: Order) {
    forall a: (string, nat), b: (string, nat) :: more(a, b) == (a.1 > b.1)
  }

  lemma {:induction false} InsertKeepsMembers(x: (string, nat), c: Counter, more: Order)
    ensures |Insert(x, c, more)| == |c| + 1
    ensures forall y :: y in Insert(x, c, more) <==> y in c || y == x
    decreases |c|
  {
    if c != [] && !more(x, c[0]) {
      InsertKeepsMembers(x, c[1..], more);
      assert forall y :: y in c <==> y == c[0] || y in c[1..];
    }
  }

  lemma {:induction false} InsertKeepsOrder(x: (string, nat), c: Counter, more: Order)
    requires ByCount(more) && Descending(c)
    ensures Descending(Insert(x, c, more))
    decreases |c|
  {
    var r := Insert(x, c, more);
    if c != [] && !more(x, c[0]) {
      InsertKeepsOrder(x, c[1..], more);
      InsertKeepsMembers(x, c[1..], more);
      forall j | 1 <= j < |r|
        ensures r[0].1 >= r[j].1
      {
        assert r[j] in Insert(x, c[1..], more);
      }
    }
  }

  lemma {:induction false} InsertKeepsTies(x: (string, nat), c: Counter, more: Order, n: nat)
    requires ByCount(more) && Descending(c)
    ensures WithCount(Insert(x, c, more), n) == WithCount(c, n) + (if x.1 == n then [x] else [])
    decreases |c|
  {
    var r := Insert(x, c, more);
    if c == [] {
      assert r == [x] && r[1..] == [];
    } else if more(x, c[0]) {
      assert r[1..] == c;
      if n == x.1 {
        NoneWithCount(c, n);
      }
    } else {
      assert r[1..] == Insert(x, c[1..], more);
      InsertKeepsTies(x, c[1..], more, n);
    }
  }

  lemma {:induction false} InsertKeepsDistinct(x: (string, nat), c: Counter, more: Order)
    requires Distinct(Firsts(c)) && x.0 !in Firsts(c)
    ensures Distinct(Firsts(Insert(x, c, more)))
    decreases |c|
  {
    var r := Insert(x, c, more);
    if c == [] {
    } else if more(x, c[0]) {
      assert Firsts(r) == [x.0] + Firsts(c);
    } else {
      var tail := Insert(x, c[1..], more);
      KeysTail(c);
      assert Firsts(c)[0] == c[0].0 && forall i :: 0 <= i < |c| - 1 ==> Firsts(c[1..])[i] == Firsts(c)[i + 1];
      InsertKeepsDistinct(x, c[1..], more);
      InsertKeepsMembers(x, c[1..], more);
      KeysOfInserted(x, c[1..], tail, c[0].0);
      assert Firsts(r) == [c[0].0] + Firsts(tail);
    }
  }

  lemma KeysOfInserted(x: (string, nat), c: Counter, r: Counter, key: string)
    requires forall y :: y in r <==> y in c || y == x
    requires key !in Firsts(c) && key != x.0
    ensures key !in Firsts(r)
  {
    forall i | 0 <= i < |r|
      ensures Firsts(r)[i] != key
    {
      assert r[i] in r;
      if r[i] != x {
        var j :| 0 <= j < |c| && c[j] == r[i];
        assert Firsts(c)[j] == r[i].0;
      }
    }
  }

  lemma {:induction false} NoneWithCount(c: Counter, n: nat)
    requires forall i :: 0 <= i < |c| ==> c[i].1 < n
    ensures WithCount(c, n) == []
  {
    if c != [] {
      NoneWithCount(c[1..], n);
    }
  }

  lemma {:induction false} WithCountSnoc(c: Counter, x: (string, nat), n: nat)
    ensures WithCount(c + [x], n) == WithCount(c, n) + (if x.1 == n then [x] else [])
    decreases |c|
  {
    if c == [] {
      assert c + [x] == [x] && [x][1..] == [];
    } else {
      assert (c + [x])[1..] == c[1..] + [x] && (c + [x])[0] == c[0];
      WithCountSnoc(c[1..], x, n);
      var head, last := if c[0].1 == n then [c[0]] else [], if x.1 == n then [x] else [];
      assert WithCount(c + [x], n) == head + (WithCount(c[1..], n) + last);
      assert WithCount(c, n) == head + WithCount(c[1..], n);
    }
  }

  /** Highest count first, ties in the order they were first counted, nothing lost. */
  lemma {:induction false} MostCommonIsStable(c: Counter)
    ensures Descending(MostCommon(c)) && |MostCommon(c)| == |c|
    ensures forall y :: y in MostCommon(c) <==> y in c
    ensures forall n :: WithCount(MostCommon(c), n) == WithCount(c, n)
    ensures Distinct(Firsts(c)) ==> Distinct(Firsts(MostCommon(c)))
    decreases |c|
  {
    if c != [] {
      var front, x := c[..|c| - 1], c[|c| - 1];
      assert c == front + [x];
      MostCommonIsStable(front);
      InsertKeepsMembers(x, MostCommon(front), More());
      InsertKeepsOrder(x, MostCommon(front), More());
      forall n
        ensures WithCount(MostCommon(c), n) == WithCount(c, n)
      {
        WithCountSnoc(front, x, n);
        InsertKeepsTies(x, MostCommon(front), More(), n);
      }
      if Distinct(Firsts(c)) {
        KeysFront(c);
        KeysUnderPermutation(front, MostCommon(front), x.0);
        InsertKeepsDistinct(x, MostCommon(front), More());
      }
    }
  }

  lemma KeysFront(c: Counter)
    requires c != [] && Distinct(Firsts(c))
    ensures Distinct(Firsts(c[..|c| - 1])) && c[|c| - 1].0 !in Firsts(c[..|c| - 1])
  {
    var all, front := Firsts(c), Firsts(c[..|c| - 1]);
    assert all == front + [c[|c| - 1].0];
    assert all[|c| - 1] == c[|c| - 1].0;
    forall i | 0 <= i < |front|
      ensures front[i] == all[i] != all[|c| - 1]
    {
    }
  }

  lemma KeysUnderPermutation(a: Counter, b: Counter, key: string)
    requires forall y :: y in b <==> y in a
    ensures key in Firsts(a) <==> key in Firsts(b)
  {
    if key in Firsts(a) {
      var i :| 0 <= i < |a| && Firsts(a)[i] == key;
      assert a[i] in b;
      var j :| 0 <= j < |b| && b[j] == a[i];
      assert Firsts(b)[j] == key;
    }
    if key in Firsts(b) {
      var j :| 0 <= j < |b| && Firsts(b)[j] == key;
      assert b[j] in a;
      var i :| 0 <= i < |a| && a[i] == b[j];
      assert Firsts(a)[i] == key;
    }
  }

  // ----- the merge --------------------------------------------------------------------------

  datatype Market = Market(country: string, language: string, currency: string)

  type Candidate = (string, Option<string>)

  function MarketFor(country: string, language: Option<string>): Option<Market> {
    var known := Country(Upper(country));
    if known.None? then None
    else
      var spoken := Lower(if language.Some? && language.value != "" then language.value else known.value.0);
      Some(Market(Upper(country), if |spoken| > 5 then spoken[..5] else spoken, known.value.1))
  }

  function NotIn(published: seq<(string, string)>, keys: seq<string>): seq<Candidate> {
    if published == [] then []
    else (if published[0].0 in keys then [] else [(published[0].0, Some(published[0].1))]) + NotIn(published[1..], keys)
  }

  /** Where revenue came from, most frequent first, then where somebody published a
      translation. */
  function Candidates(crm: Counter, published: seq<(string, string)>): seq<Candidate> {
    seq(|MostCommon(crm)|, i requires 0 <= i < |MostCommon(crm)| => (MostCommon(crm)[i].0, None))
    + NotIn(published, Firsts(MostCommon(crm)))
  }

  /** How a candidate becomes a market, if it does. */
  type Turn = (string, Option<string>) -> Option<Market>

  /** The markets of every recognised candidate, in order. */
  function Recognised(ordered: seq<Candidate>, turn: Turn): seq<Market> {
    if ordered == [] then []
    else
      var last := turn(ordered[|ordered| - 1].0, ordered[|ordered| - 1].1);
      Recognised(ordered[..|ordered| - 1], turn) + (if last.Some? then [last.value] else [])
  }

  function Unrecognised(ordered: seq<Candidate>, turn: Turn): seq<string> {
    if ordered == [] then []
    else
      var last := ordered[|ordered| - 1];
      Unrecognised(ordered[..|ordered| - 1], turn) + (if turn(last.0, last.1).None? then [last.0] else [])
  }

  lemma {:induction false} EveryCandidateIsOneOrTheOther(ordered: seq<Candidate>, turn: Turn)
    ensures |Recognised(ordered, turn)| + |Unrecognised(ordered, turn)| == |ordered|
  {
    if ordered != [] {
      EveryCandidateIsOneOrTheOther(ordered[..|ordered| - 1], turn);
    }
  }

  lemma {:induction false} RecognisedPrefix(ordered: seq<Candidate>, turn: Turn, k: nat)
    requires k <= |ordered|
    ensures Recognised(ordered[..k], turn) <= Recognised(ordered, turn)
    decreases |ordered|
  {
    if k == |ordered| {
      assert ordered[..k] == ordered;
    } else {
      assert ordered[..|ordered| - 1][..k] == ordered[..k];
      RecognisedPrefix(ordered[..|ordered| - 1], turn, k);
    }
  }

  /** What scanning `all` may leave: its first six recognised candidates. What was
      looked at, recognised or not, and what was dropped add up to every candidate,
      and nothing is dropped before there are six. */
  ghost predicate Merged(all: seq<Candidate>, markets: seq<Market>, unknown: seq<string>, dropped: nat) {
    && |markets| + |unknown| + dropped == |all|
    && markets <= Recognised(all, MarketFor)
    && |markets| == (if |Recognised(all, MarketFor)| <= MAX_MARKETS then |Recognised(all, MarketFor)| else MAX_MARKETS)
    && (dropped > 0 ==> |markets| == MAX_MARKETS)
    && markets == Recognised(all[..|all| - dropped], MarketFor)
    && unknown == Unrecognised(all[..|all| - dropped], MarketFor)
    && (|markets| == MAX_MARKETS ==> EndsInMarket(all, MarketFor, |all| - dropped))
  }

  /** The scan goes no further than the candidate that makes the list full. */
  predicate EndsInMarket(all: seq<Candidate>, turn: Turn, k: nat) {
    0 < k <= |all| && turn(all[k - 1].0, all[k - 1].1).Some?
  }

  lemma ScanIsMerged(all: seq<Candidate>, k: nat, markets: seq<Market>, unknown: seq<string>)
    requires Scanned(all, MarketFor, k, markets, unknown)
    requires k < |all| ==> |markets| == MAX_MARKETS
    ensures |markets| + |unknown| == k
    ensures Merged(all, markets, unknown, |all| - k)
  {
    EveryCandidateIsOneOrTheOther(all[..k], MarketFor);
    RecognisedPrefix(all, MarketFor, k);
    assert all[..|all|] == all;
  }

  /** The first k candidates scanned. */
  ghost predicate Scanned(all: seq<Candidate>, turn: Turn, k: nat, markets: seq<Market>, unknown: seq<string>) {
    && k <= |all| && |markets| <= MAX_MARKETS
    && markets == Recognised(all[..k], turn) && unknown == Unrecognised(all[..k], turn)
    && (|markets| == MAX_MARKETS ==> EndsInMarket(all, turn, k))
  }

  method ComposeMarkets(crm: Counter, published: seq<(string, string)>)
    returns (markets: seq<Market>, unknown: seq<string>, dropped: nat)
    ensures Merged(Candidates(crm, published), markets, unknown, dropped)
    ensures Resolved(crm) ==> Proposed(crm, published, markets, unknown)
  {
    var ordered := Candidates(crm, published);
    markets, unknown := [], [];
    ghost var k := |ordered|;
    for i := 0 to |ordered|
      invariant k == |ordered| && Scanned(ordered, MarketFor, i, markets, unknown)
    {
      if |markets| >= MAX_MARKETS {
        k := i;
        break;
      }
      ScanStep(ordered, MarketFor, i, markets, unknown);
      var market := MarketFor(ordered[i].0, ordered[i].1);
      if market.None? {
        unknown := unknown + [ordered[i].0];
      } else {
        markets := markets + [market.value];
      }
    }
    ScanIsMerged(ordered, k, markets, unknown);
    var left: int := |ordered| - |markets| - |unknown|;
    dropped := if left > 0 then left else 0;
    MergeProposes(crm, published, markets, unknown, dropped);
  }

  lemma ScanStep(ordered: seq<Candidate>, turn: Turn, i: nat, markets: seq<Market>, unknown: seq<string>)
    requires i < |ordered| && Scanned(ordered, turn, i, markets, unknown) && |markets| < MAX_MARKETS
    ensures var market := turn(ordered[i].0, ordered[i].1);
      && (market.Some? ==> Scanned(ordered, turn, i + 1, markets + [market.value], unknown))
      && (market.None? ==> Scanned(ordered, turn, i + 1, markets, unknown + [ordered[i].0]))
  {
    assert ordered[..i + 1][..i] == ordered[..i];
  }

  // ----- what the merge promises about the two sources -------------------------------------------

  predicate AllUpper(names: seq<string>) {
    forall i :: 0 <= i < |names| ==> Upper(names[i]) == names[i]
  }

  lemma {:induction false} NotInNames(published: seq<(string, string)>, keys: seq<string>)
    requires Distinct(Firsts(published))
    ensures Distinct(Firsts(NotIn(published, keys)))
    ensures forall name :: name in Firsts(NotIn(published, keys)) <==> name in Firsts(published) && name !in keys
  {
    var rest := NotIn(published, keys);
    if published == [] {
    } else {
      var name, tail := published[0].0, published[1..];
      assert Firsts(published) == [name] + Firsts(tail);
      assert forall i :: 0 <= i < |tail| ==> Firsts(tail)[i] == Firsts(published)[i + 1];
      assert Firsts(published)[0] == name;
      NotInNames(tail, keys);
      if name in keys {
        assert rest == NotIn(tail, keys);
      } else {
        assert Firsts(rest) == [name] + Firsts(NotIn(tail, keys));
      }
    }
  }

  /** No candidate is named twice, and every name of either source is a candidate. */
  lemma CandidatesAreDistinct(crm: Counter, published: seq<(string, string)>)
    requires Distinct(Firsts(crm)) && Distinct(Firsts(published))
    ensures Distinct(Firsts(Candidates(crm, published)))
    ensures forall name :: name in Firsts(Candidates(crm, published)) <==>
      name in Firsts(crm) || name in Firsts(published)
  {
    var keys := Firsts(MostCommon(crm));
    MostCommonIsStable(crm);
    NotInNames(published, keys);
    forall name
      ensures name in Firsts(crm) <==> name in keys
    {
      KeysUnderPermutation(crm, MostCommon(crm), name);
    }
    var late := Firsts(NotIn(published, keys));
    assert Firsts(Candidates(crm, published)) == keys + late;
    DistinctConcat(keys, late);
  }

  function MarketNames(markets: seq<Market>): (names: seq<string>)
    ensures |names| == |markets|
  {
    seq(|markets|, i requires 0 <= i < |markets| => markets[i].country)
  }

  lemma DistinctConcat(a: seq<string>, b: seq<string>)
    requires Distinct(a) && Distinct(b) && forall x :: x in b ==> x !in a
    ensures Distinct(a + b)
  {
    forall i, j | 0 <= i < j < |a + b|
      ensures (a + b)[i] != (a + b)[j]
    {
      if i < |a| <= j {
        assert b[j - |a|] in b;
      }
    }
  }

  lemma NamesSnoc(ordered: seq<Candidate>)
    requires ordered != [] && Distinct(Firsts(ordered)) && AllUpper(Firsts(ordered))
    ensures var front, last := ordered[..|ordered| - 1], ordered[|ordered| - 1].0;
      && Firsts(ordered) == Firsts(front) + [last]
      && Distinct(Firsts(front)) && AllUpper(Firsts(front))
      && last !in Firsts(front) && Upper(last) == last
  {
    var front, last := ordered[..|ordered| - 1], ordered[|ordered| - 1].0;
    var all, names := Firsts(ordered), Firsts(front);
    assert all[|front|] == last;
    forall i | 0 <= i < |front|
      ensures names[i] == all[i] != all[|front|]
    {
    }
  }

  lemma {:induction false} RecognisedAreDistinct(ordered: seq<Candidate>)
    requires Distinct(Firsts(ordered)) && AllUpper(Firsts(ordered))
    ensures Distinct(MarketNames(Recognised(ordered, MarketFor)))
    ensures forall name :: name in MarketNames(Recognised(ordered, MarketFor)) ==> name in Firsts(ordered)
  {
    if ordered != [] {
      var front, last := ordered[..|ordered| - 1], ordered[|ordered| - 1];
      NamesSnoc(ordered);
      RecognisedAreDistinct(front);
      var earlier := MarketNames(Recognised(front, MarketFor));
      if MarketFor(last.0, last.1).Some? {
        assert MarketNames(Recognised(ordered, MarketFor)) == earlier + [last.0];
        DistinctConcat(earlier, [last.0]);
      } else {
        assert MarketNames(Recognised(ordered, MarketFor)) == earlier;
      }
    }
  }

  lemma {:induction false} UnrecognisedHasNoCurrency(ordered: seq<Candidate>)
    ensures forall name :: name in Unrecognised(ordered, MarketFor) ==> Country(Upper(name)).None?
  {
    if ordered != [] {
      UnrecognisedHasNoCurrency(ordered[..|ordered| - 1]);
    }
  }

  lemma CountriesAreUpper(name: string)
    requires Country(name).Some?
    ensures Upper(name) == name
  {
  }

  /** Every country counted has a known currency, and none twice. */
  predicate Resolved(counts: Counter) {
    Distinct(Firsts(counts)) && forall name :: name in Firsts(counts) ==> Country(name).Some?
  }

  /** Every candidate's name is already in upper case. */
  lemma CandidatesAreUpper(counts: Counter, published: seq<(string, string)>)
    requires Resolved(counts) && Distinct(Firsts(published)) && AllUpper(Firsts(published))
    ensures AllUpper(Firsts(Candidates(counts, published)))
  {
    CandidatesAreDistinct(counts, published);
    var names := Firsts(Candidates(counts, published));
    forall i | 0 <= i < |names|
      ensures Upper(names[i]) == names[i]
    {
      assert names[i] in names;
      if names[i] in Firsts(counts) {
        CountriesAreUpper(names[i]);
      } else {
        assert names[i] in Firsts(published);
      }
    }
  }

  lemma PublishedIsUpper(links: seq<Link>)
    ensures AllUpper(Firsts(Published(links)))
  {
    var names := Firsts(Published(links));
    PublishedIsDuplicateFree(links);
    forall i | 0 <= i < |names|
      ensures Upper(names[i]) == names[i]
    {
      assert names[i] in names;
      RowsAreUpper(links, names[i]);
    }
  }

  lemma RowsAreUpper(links: seq<Link>, name: string)
    requires name in CountriesOf(FirstRows(links))
    ensures Upper(name) == name
  {
    var rows := FirstRows(links);
    var i :| 0 <= i < |rows| && CountriesOf(rows)[i] == name;
    assert rows[i].country == Upper(rows[i].country);
  }

  lemma PrefixNames(all: seq<Candidate>, k: nat)
    requires k <= |all| && Distinct(Firsts(all)) && AllUpper(Firsts(all))
    ensures Distinct(Firsts(all[..k])) && AllUpper(Firsts(all[..k]))
    ensures forall name :: name in Firsts(all[..k]) ==> name in Firsts(all)
  {
    assert Firsts(all[..k]) == Firsts(all)[..k];
  }

  lemma MergeIsSound(
    counts: Counter, published: seq<(string, string)>, markets: seq<Market>, unknown: seq<string>, dropped: nat)
    requires Resolved(counts) && Distinct(Firsts(published)) && AllUpper(Firsts(published))
    requires Merged(Candidates(counts, published), markets, unknown, dropped)
    ensures Distinct(MarketNames(markets))
    ensures forall name :: name in MarketNames(markets) ==> name in Firsts(counts) || name in Firsts(published)
    ensures forall name :: name in Firsts(counts) ==> name !in unknown
  {
    var all := Candidates(counts, published);
    CandidatesAreDistinct(counts, published);
    CandidatesAreUpper(counts, published);
    ScannedAreDistinct(all, |all| - dropped);
    CrmIsRecognised(counts, all[..|all| - dropped]);
  }

  /** The proposal from a CRM export and a site's links: no country is proposed twice,
      every one comes from one of the two sources, and no country of the CRM is ever
      reported as unrecognised. */
  lemma ProposalIsSound(counts: Counter, links: seq<Link>, markets: seq<Market>, unknown: seq<string>, dropped: nat)
    requires Resolved(counts)
    requires Merged(Candidates(counts, Published(links)), markets, unknown, dropped)
    ensures Distinct(MarketNames(markets))
    ensures forall name :: name in MarketNames(markets) ==> name in Firsts(counts) || name in Firsts(Published(links))
    ensures forall name :: name in Firsts(counts) ==> name !in unknown
  {
    PublishedIsDuplicateFree(links);
    PublishedIsUpper(links);
    MergeIsSound(counts, Published(links), markets, unknown, dropped);
  }

  lemma ScannedAreDistinct(all: seq<Candidate>, k: nat)
    requires k <= |all| && Distinct(Firsts(all)) && AllUpper(Firsts(all))
    ensures Distinct(MarketNames(Recognised(all[..k], MarketFor)))
    ensures forall name :: name in MarketNames(Recognised(all[..k], MarketFor)) ==> name in Firsts(all)
  {
    PrefixNames(all, k);
    RecognisedAreDistinct(all[..k]);
  }

  lemma CrmIsRecognised(counts: Counter, scanned: seq<Candidate>)
    requires forall name :: name in Firsts(counts) ==> Country(name).Some?
    ensures forall name :: name in Firsts(counts) ==> name !in Unrecognised(scanned, MarketFor)
  {
    UnrecognisedHasNoCurrency(scanned);
    forall name | name in Firsts(counts)
      ensures name !in Unrecognised(scanned, MarketFor)
    {
      CountriesAreUpper(name);
    }
  }

  // ----- the proposal, market by market ------------------------------------------------------

  predicate HasCurrency(country: string) {
    Country(Upper(country)).Some?
  }

  /** The market of a country: its own currency, and the published language in lower case or,
      when none was published, its primary one; five characters at most. */
  predicate IsMarketOf(m: Market, country: string, language: string) {
    && m.country == Upper(country)
    && Country(m.country).Some?
    && m.currency == Country(m.country).value.1
    && var spoken := Lower(if language == "" then Country(m.country).value.0 else language);
       m.language == if |spoken| <= 5 then spoken else spoken[..5]
  }

  type Test = string -> bool

  type Shape = (Market, string, string) -> bool

  /** A country the site publishes, the CRM does not hold, and the test accepts. */
  predicate SiteOnly(counts: Counter, published: seq<(string, string)>, test: Test, b: nat) {
    b < |published| && published[b].0 !in Firsts(counts) && test(published[b].0)
  }

  /** The CRM's countries come first, most frequent first, ties as first met, up to six;
      behind all of them come the site's own, in the order published, and one is passed
      over only when there are six markets before it. */
  ghost predicate Proposes(
    counts: Counter, published: seq<(string, string)>, test: Test, shape: Shape, markets: seq<Market>,
    picks: seq<nat>)
  {
    var first := MostCommon(counts);
    var n := if |counts| <= MAX_MARKETS then |counts| else MAX_MARKETS;
    && |first| == |counts| && |markets| == n + |picks| <= MAX_MARKETS
    && (forall i :: 0 <= i < n ==> shape(markets[i], first[i].0, ""))
    && Increasing(picks)
    && (forall t :: 0 <= t < |picks| ==>
          SiteOnly(counts, published, test, picks[t])
          && shape(markets[n + t], published[picks[t]].0, published[picks[t]].1))
    && (forall b :: SiteOnly(counts, published, test, b) && b !in picks ==>
          |markets| == MAX_MARKETS && forall t :: 0 <= t < |picks| ==> picks[t] < b)
  }

  /** The site's other countries are reported in the order published: all of them when there
      is room left, otherwise those before the last country taken. */
  ghost predicate Reports(
    counts: Counter, published: seq<(string, string)>, test: Test, full: bool, picks: seq<nat>,
    unknown: seq<string>, misses: seq<nat>)
  {
    && |misses| == |unknown| && Increasing(misses)
    && (forall t :: 0 <= t < |misses| ==>
          SiteOnly(counts, published, Not(test), misses[t]) && unknown[t] == published[misses[t]].0)
    && (forall b :: SiteOnly(counts, published, Not(test), b) ==>
          (b in misses <==> !full || (picks != [] && b < picks[|picks| - 1])))
  }

  function Not(test: Test): Test {
    (name: string) => !test(name)
  }

  /** The proposal and the report, country by country. */
  ghost predicate Proposed(
    counts: Counter, published: seq<(string, string)>, markets: seq<Market>, unknown: seq<string>)
  {
    var full := |markets| == MAX_MARKETS;
    exists picks, misses ::
      Proposes(counts, published, HasCurrency, IsMarketOf, markets, picks)
      && Reports(counts, published, HasCurrency, full, picks, unknown, misses)
  }

  lemma {:induction false} NotInSnoc(published: seq<(string, string)>, last: (string, string), keys: seq<string>)
    ensures NotIn(published + [last], keys) ==
      NotIn(published, keys) + if last.0 in keys then [] else [(last.0, Some(last.1))]
  {
    if published == [] {
      assert published + [last] == [last] && [last][1..] == [];
    } else {
      assert (published + [last])[1..] == published[1..] + [last] && (published + [last])[0] == published[0];
      NotInSnoc(published[1..], last, keys);
      var head: seq<Candidate> := if published[0].0 in keys then [] else [(published[0].0, Some(published[0].1))];
      var tail: seq<Candidate> := if last.0 in keys then [] else [(last.0, Some(last.1))];
      assert NotIn(published + [last], keys) == head + (NotIn(published[1..], keys) + tail);
      assert NotIn(published, keys) == head + NotIn(published[1..], keys);
    }
  }

  /** Where the published countries that are not among the keys stand. */
  ghost function Sites(published: seq<(string, string)>, keys: seq<string>, n: nat): seq<nat> {
    Picked(n, (b: nat) => b < |published| && published[b].0 !in keys)
  }

  ghost predicate StandAt(published: seq<(string, string)>, at: seq<nat>, rest: seq<Candidate>) {
    && |at| == |rest|
    && forall t :: 0 <= t < |rest| ==>
         at[t] < |published| && rest[t] == (published[at[t]].0, Some(published[at[t]].1))
  }

  lemma {:induction false} NotInStands(published: seq<(string, string)>, keys: seq<string>, n: nat)
    requires n <= |published|
    ensures StandAt(published, Sites(published, keys, n), NotIn(published[..n], keys))
  {
    if n > 0 {
      assert published[..n] == published[..n - 1] + [published[n - 1]];
      NotInStands(published, keys, n - 1);
      NotInSnoc(published[..n - 1], published[n - 1], keys);
    }
  }

  /** Where the recognised and the unrecognised candidates stand. */
  ghost function Known(ordered: seq<Candidate>, turn: Turn, n: nat): seq<nat> {
    Picked(n, (u: nat) => u < |ordered| && turn(ordered[u].0, ordered[u].1).Some?)
  }

  ghost function Unknown(ordered: seq<Candidate>, turn: Turn, n: nat): seq<nat> {
    Picked(n, (u: nat) => u < |ordered| && turn(ordered[u].0, ordered[u].1).None?)
  }

  ghost predicate FoundAt(ordered: seq<Candidate>, turn: Turn, at: seq<nat>, found: seq<Market>) {
    && |at| == |found|
    && forall t :: 0 <= t < |found| ==>
         at[t] < |ordered| && turn(ordered[at[t]].0, ordered[at[t]].1) == Some(found[t])
  }

  ghost predicate MissedAt(ordered: seq<Candidate>, at: seq<nat>, missed: seq<string>) {
    && |at| == |missed|
    && forall t :: 0 <= t < |missed| ==> at[t] < |ordered| && ordered[at[t]].0 == missed[t]
  }

  lemma {:induction false} ScanStands(ordered: seq<Candidate>, turn: Turn, n: nat)
    requires n <= |ordered|
    ensures FoundAt(ordered, turn, Known(ordered, turn, n), Recognised(ordered[..n], turn))
    ensures MissedAt(ordered, Unknown(ordered, turn, n), Unrecognised(ordered[..n], turn))
  {
    if n > 0 {
      assert ordered[..n][..n - 1] == ordered[..n - 1];
      ScanStands(ordered, turn, n - 1);
    }
  }

  /** A scan of two lists is a scan of the one and then of the other. */
  lemma {:induction false} ScanConcat(xs: seq<Candidate>, ys: seq<Candidate>, turn: Turn)
    ensures Recognised(xs + ys, turn) == Recognised(xs, turn) + Recognised(ys, turn)
    ensures Unrecognised(xs + ys, turn) == Unrecognised(xs, turn) + Unrecognised(ys, turn)
    decreases |ys|
  {
    if ys == [] {
      assert xs + ys == xs;
    } else {
      var k := |ys| - 1;
      assert (xs + ys)[..|xs + ys| - 1] == xs + ys[..k] && (xs + ys)[|xs + ys| - 1] == ys[k];
      ScanConcat(xs, ys[..k], turn);
    }
  }

  lemma ScanInTwo(xs: seq<Candidate>, ys: seq<Candidate>, turn: Turn, k: nat, taken: nat, j: nat)
    requires k <= |xs + ys| && taken == (if k <= |xs| then k else |xs|) && j == k - taken
    ensures Recognised((xs + ys)[..k], turn) == Recognised(xs[..taken], turn) + Recognised(ys[..j], turn)
    ensures Unrecognised((xs + ys)[..k], turn) == Unrecognised(xs[..taken], turn) + Unrecognised(ys[..j], turn)
    ensures EndsInMarket(xs + ys, turn, k) && j > 0 ==> EndsInMarket(ys, turn, j)
  {
    assert (xs + ys)[..k] == xs[..taken] + ys[..j];
    ScanConcat(xs[..taken], ys[..j], turn);
    assert j > 0 ==> (xs + ys)[k - 1] == ys[j - 1];
  }

  /** The turn makes a market of that shape of every country the test accepts, and of no other. */
  ghost predicate Makes(turn: Turn, test: Test, shape: Shape) {
    forall country, language :: var made := turn(country, language);
      && (made.Some? <==> test(country))
      && (made.Some? ==> shape(made.value, country, language.GetOr("")))
  }

  function FromCrm(first: Counter): seq<Candidate> {
    seq(|first|, i requires 0 <= i < |first| => (first[i].0, None))
  }

  lemma {:induction false} CrmPart(first: Counter, turn: Turn, test: Test, shape: Shape, k: nat)
    requires Makes(turn, test, shape)
    requires k <= |first| && forall i :: 0 <= i < |first| ==> test(first[i].0)
    ensures var found := Recognised(FromCrm(first)[..k], turn);
      |found| == k && forall i :: 0 <= i < k ==> shape(found[i], first[i].0, "")
    ensures Unrecognised(FromCrm(first)[..k], turn) == []
  {
    if k > 0 {
      CrmPart(first, turn, test, shape, k - 1);
      assert FromCrm(first)[..k][..k - 1] == FromCrm(first)[..k - 1];
      assert FromCrm(first)[..k][k - 1] == (first[k - 1].0, None);
    }
  }

  /** Markets of the site's own countries, in the order published. */
  ghost predicate SiteMarkets(
    counts: Counter, published: seq<(string, string)>, test: Test, shape: Shape, picks: seq<nat>, found: seq<Market>)
  {
    && |picks| == |found| && Increasing(picks)
    && forall t :: 0 <= t < |picks| ==>
         SiteOnly(counts, published, test, picks[t])
         && shape(found[t], published[picks[t]].0, published[picks[t]].1)
  }

  /** Which candidates of the site are recognised, said of the countries published. */
  lemma SiteStands(
    counts: Counter, published: seq<(string, string)>, keys: seq<string>, turn: Turn, test: Test, shape: Shape,
    at: seq<nat>, j: nat)
    requires Makes(turn, test, shape) && forall name :: name in keys <==> name in Firsts(counts)
    requires at == Sites(published, keys, |published|) && j <= |at|
    requires StandAt(published, at, NotIn(published, keys))
    ensures forall u :: u in Known(NotIn(published, keys), turn, j) <==>
      0 <= u < j && SiteOnly(counts, published, test, at[u])
    ensures forall u :: u in Unknown(NotIn(published, keys), turn, j) <==>
      0 <= u < j && SiteOnly(counts, published, Not(test), at[u])
  {
    var rest := NotIn(published, keys);
    forall u: nat | u < j
      ensures turn(rest[u].0, rest[u].1).Some? <==> SiteOnly(counts, published, test, at[u])
      ensures turn(rest[u].0, rest[u].1).None? <==> SiteOnly(counts, published, Not(test), at[u])
    {
      assert at[u] in at;
    }
  }

  /** The positions in the published list of the candidates taken. */
  ghost function Places(at: seq<nat>, known: seq<nat>): (picks: seq<nat>)
    requires forall u :: u in known ==> u < |at|
    ensures |picks| == |known| && forall t :: 0 <= t < |known| ==> known[t] < |at| && picks[t] == at[known[t]]
  {
    assert forall t :: 0 <= t < |known| ==> known[t] in known;
    seq(|known|, t requires 0 <= t < |known| => at[known[t]])
  }

  lemma PlacesIncrease(at: seq<nat>, known: seq<nat>)
    requires Increasing(at) && Increasing(known) && forall u :: u in known ==> u < |at|
    ensures Increasing(Places(at, known))
  {
  }

  /** What the scan takes from the site once it has the CRM's countries. */
  lemma SiteIsTaken(
    counts: Counter, published: seq<(string, string)>, keys: seq<string>, turn: Turn, test: Test, shape: Shape,
    at: seq<nat>, j: nat)
    returns (picks: seq<nat>)
    requires Makes(turn, test, shape) && forall name :: name in keys <==> name in Firsts(counts)
    requires at == Sites(published, keys, |published|) && StandAt(published, at, NotIn(published, keys))
    requires j <= |at|
    ensures SiteMarkets(counts, published, test, shape, picks, Recognised(NotIn(published, keys)[..j], turn))
    ensures forall b :: SiteOnly(counts, published, test, b) && b !in picks ==>
      j < |at| && forall t :: 0 <= t < |picks| ==> picks[t] < b
    ensures EndsInMarket(NotIn(published, keys), turn, j) ==> picks != [] && picks[|picks| - 1] == at[j - 1]
  {
    var rest := NotIn(published, keys);
    var known := Known(rest, turn, j);
    ScanStands(rest, turn, j);
    SiteStands(counts, published, keys, turn, test, shape, at, j);
    picks := Places(at, known);
    PlacesIncrease(at, known);
    forall t | 0 <= t < |picks|
      ensures SiteOnly(counts, published, test, picks[t])
      ensures shape(Recognised(rest[..j], turn)[t], published[picks[t]].0, published[picks[t]].1)
    {
      assert known[t] in known;
    }
    forall b | SiteOnly(counts, published, test, b) && b !in picks
      ensures j < |at| && forall t :: 0 <= t < |picks| ==> picks[t] < b
    {
      BehindAll(counts, published, keys, test, at, known, picks, j, b);
    }
    if EndsInMarket(rest, turn, j) {
      assert j - 1 in known;
      LastPicked(known, j - 1);
    }
  }

  lemma LastPicked(known: seq<nat>, last: nat)
    requires Increasing(known) && last in known && forall u :: u in known ==> u <= last
    ensures known[|known| - 1] == last
  {
    var t :| 0 <= t < |known| && known[t] == last;
    assert known[|known| - 1] in known;
  }

  lemma KnownIsPicked(at: seq<nat>, known: seq<nat>, picks: seq<nat>, u: nat)
    requires |picks| == |known| && forall t :: 0 <= t < |known| ==> known[t] < |at| && picks[t] == at[known[t]]
    ensures u in known ==> u < |at| && at[u] in picks
  {
    if u in known {
      var t :| 0 <= t < |known| && known[t] == u;
      assert picks[t] in picks;
    }
  }

  lemma BehindAll(
    counts: Counter, published: seq<(string, string)>, keys: seq<string>, test: Test, at: seq<nat>, known: seq<nat>,
    picks: seq<nat>, j: nat, b: nat)
    requires at == Sites(published, keys, |published|) && j <= |at|
    requires forall name :: name in keys <==> name in Firsts(counts)
    requires forall u :: u in known <==> 0 <= u < j && SiteOnly(counts, published, test, at[u])
    requires |picks| == |known| && forall t :: 0 <= t < |known| ==> known[t] < |at| && picks[t] == at[known[t]]
    requires SiteOnly(counts, published, test, b) && b !in picks
    ensures j < |at| && forall t :: 0 <= t < |picks| ==> picks[t] < b
  {
    assert b in at;
    var u :| 0 <= u < |at| && at[u] == b;
    KnownIsPicked(at, known, picks, u);
    assert j <= u;
    forall t | 0 <= t < |picks|
      ensures picks[t] < b
    {
      assert known[t] in known;
    }
  }

  /** What the scan reports of the site's countries. */
  lemma SiteIsReported(
    counts: Counter, published: seq<(string, string)>, keys: seq<string>, turn: Turn, test: Test, shape: Shape,
    at: seq<nat>, picks: seq<nat>, j: nat, full: bool)
    returns (misses: seq<nat>)
    requires Makes(turn, test, shape) && forall name :: name in keys <==> name in Firsts(counts)
    requires at == Sites(published, keys, |published|) && StandAt(published, at, NotIn(published, keys))
    requires j <= |at|
    requires !full ==> j == |at|
    requires full ==> if j > 0 then EndsInMarket(NotIn(published, keys), turn, j) else picks == []
    requires EndsInMarket(NotIn(published, keys), turn, j) ==> picks != [] && picks[|picks| - 1] == at[j - 1]
    ensures Reports(
      counts, published, test, full, picks, Unrecognised(NotIn(published, keys)[..j], turn), misses)
  {
    var rest := NotIn(published, keys);
    var missed := Unknown(rest, turn, j);
    ScanStands(rest, turn, j);
    SiteStands(counts, published, keys, turn, test, shape, at, j);
    misses := Places(at, missed);
    PlacesIncrease(at, missed);
    forall t | 0 <= t < |misses|
      ensures SiteOnly(counts, published, Not(test), misses[t])
      ensures Unrecognised(rest[..j], turn)[t] == published[misses[t]].0
    {
      assert missed[t] in missed;
    }
    forall b | SiteOnly(counts, published, Not(test), b)
      ensures b in misses <==> !full || (picks != [] && b < picks[|picks| - 1])
    {
      MissedWhere(counts, published, keys, Not(test), at, missed, misses, j, b);
      if full && j > 0 {
        NotTheLast(counts, published, keys, Not(test), at, j, b);
      }
    }
  }

  lemma MissedWhere(
    counts: Counter, published: seq<(string, string)>, keys: seq<string>, test: Test, at: seq<nat>,
    missed: seq<nat>, misses: seq<nat>, j: nat, b: nat)
    requires at == Sites(published, keys, |published|) && j <= |at|
    requires forall name :: name in keys <==> name in Firsts(counts)
    requires forall u :: u in missed <==> 0 <= u < j && SiteOnly(counts, published, test, at[u])
    requires |misses| == |missed| && forall t :: 0 <= t < |missed| ==> missed[t] < |at| && misses[t] == at[missed[t]]
    requires SiteOnly(counts, published, test, b)
    ensures b in misses <==> j == |at| || b < at[j]
  {
    assert b in at;
    var u :| 0 <= u < |at| && at[u] == b;
    KnownIsPicked(at, missed, misses, u);
    if b in misses {
      var t :| 0 <= t < |misses| && misses[t] == b;
      assert missed[t] in missed;
    }
  }

  lemma NotTheLast(
    counts: Counter, published: seq<(string, string)>, keys: seq<string>, test: Test, at: seq<nat>, j: nat, b: nat)
    requires at == Sites(published, keys, |published|) && 0 < j <= |at|
    requires forall name :: name in keys <==> name in Firsts(counts)
    requires SiteOnly(counts, published, test, b) && !SiteOnly(counts, published, test, at[j - 1])
    ensures (j == |at| || b < at[j]) <==> b < at[j - 1]
  {
    assert b in at;
    var u :| 0 <= u < |at| && at[u] == b;
  }

  /** The CRM's part and the site's part, put together. */
  lemma PartsPropose(
    counts: Counter, published: seq<(string, string)>, test: Test, shape: Shape, first: Counter, crm: seq<Market>,
    site: seq<Market>, markets: seq<Market>, picks: seq<nat>)
    requires first == MostCommon(counts) && |first| == |counts| && markets == crm + site
    requires |crm| == (if |counts| <= MAX_MARKETS then |counts| else MAX_MARKETS)
    requires forall i :: 0 <= i < |crm| ==> shape(crm[i], first[i].0, "")
    requires SiteMarkets(counts, published, test, shape, picks, site) && |markets| <= MAX_MARKETS
    requires forall b :: SiteOnly(counts, published, test, b) && b !in picks ==>
      |markets| == MAX_MARKETS && forall t :: 0 <= t < |picks| ==> picks[t] < b
    ensures Proposes(counts, published, test, shape, markets, picks)
  {
  }

  lemma MostCommonKeys(counts: Counter)
    requires Resolved(counts)
    ensures var first := MostCommon(counts);
      && |first| == |counts|
      && (forall i :: 0 <= i < |first| ==> HasCurrency(first[i].0))
      && (forall name :: name in Firsts(first) <==> name in Firsts(counts))
  {
    var first := MostCommon(counts);
    MostCommonIsStable(counts);
    forall name
      ensures name in Firsts(first) <==> name in Firsts(counts)
    {
      KeysUnderPermutation(counts, first, name);
    }
    forall i | 0 <= i < |first|
      ensures HasCurrency(first[i].0)
    {
      assert Firsts(first)[i] == first[i].0;
      assert Firsts(first)[i] in Firsts(first);
      CountriesAreUpper(first[i].0);
    }
  }

  lemma CandidatesAreBoth(counts: Counter, published: seq<(string, string)>)
    ensures Candidates(counts, published) ==
      FromCrm(MostCommon(counts)) + NotIn(published, Firsts(MostCommon(counts)))
  {
  }

  lemma MarketForMakes()
    ensures Makes(MarketFor, HasCurrency, IsMarketOf)
  {
  }

  /** What the scan takes from the site, and what it reports. */
  lemma SitePart(
    counts: Counter, published: seq<(string, string)>, keys: seq<string>, turn: Turn, test: Test, shape: Shape,
    j: nat, full: bool)
    returns (picks: seq<nat>, misses: seq<nat>)
    requires Makes(turn, test, shape) && forall name :: name in keys <==> name in Firsts(counts)
    requires j <= |NotIn(published, keys)|
    requires !full ==> j == |NotIn(published, keys)|
    requires full && j > 0 ==> EndsInMarket(NotIn(published, keys), turn, j)
    ensures SiteMarkets(counts, published, test, shape, picks, Recognised(NotIn(published, keys)[..j], turn))
    ensures forall b :: SiteOnly(counts, published, test, b) && b !in picks ==>
      full && forall t :: 0 <= t < |picks| ==> picks[t] < b
    ensures Reports(
      counts, published, test, full, picks, Unrecognised(NotIn(published, keys)[..j], turn), misses)
  {
    var at := Sites(published, keys, |published|);
    assert published[..|published|] == published;
    NotInStands(published, keys, |published|);
    assert j == 0 ==> NotIn(published, keys)[..j] == [];
    picks := SiteIsTaken(counts, published, keys, turn, test, shape, at, j);
    misses := SiteIsReported(counts, published, keys, turn, test, shape, at, picks, j, full);
  }

  lemma ScanProposes(
    counts: Counter, published: seq<(string, string)>, turn: Turn, test: Test, shape: Shape, markets: seq<Market>,
    unknown: seq<string>, k: nat)
    returns (picks: seq<nat>, misses: seq<nat>)
    requires Makes(turn, test, shape)
    requires var first := MostCommon(counts);
      && |first| == |counts|
      && (forall i :: 0 <= i < |first| ==> test(first[i].0))
      && (forall name :: name in Firsts(first) <==> name in Firsts(counts))
    requires Scanned(Candidates(counts, published), turn, k, markets, unknown)
    requires k < |Candidates(counts, published)| ==> |markets| == MAX_MARKETS
    ensures Proposes(counts, published, test, shape, markets, picks)
    ensures Reports(counts, published, test, |markets| == MAX_MARKETS, picks, unknown, misses)
  {
    var first := MostCommon(counts);
    var crm, rest := FromCrm(first), NotIn(published, Firsts(first));
    CandidatesAreBoth(counts, published);
    var taken := if k <= |first| then k else |first|;
    var j := k - taken;
    ScanInTwo(crm, rest, turn, k, taken, j);
    CrmPart(first, turn, test, shape, taken);
    picks, misses := SitePart(counts, published, Firsts(first), turn, test, shape, j, |markets| == MAX_MARKETS);
    PartsPropose(
      counts, published, test, shape, first, Recognised(crm[..taken], turn), Recognised(rest[..j], turn), markets,
      picks);
  }

  /** Whatever is merged, the proposal and the report are those. */
  lemma MergeProposes(
    counts: Counter, published: seq<(string, string)>, markets: seq<Market>, unknown: seq<string>, dropped: nat)
    requires Merged(Candidates(counts, published), markets, unknown, dropped)
    ensures Resolved(counts) ==> Proposed(counts, published, markets, unknown)
  {
    if Resolved(counts) {
      MostCommonKeys(counts);
      MarketForMakes();
      var picks, misses := ScanProposes(
        counts, published, MarketFor, HasCurrency, IsMarketOf, markets, unknown,
        |Candidates(counts, published)| - dropped);
    }
  }
}
