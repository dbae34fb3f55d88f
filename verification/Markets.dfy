/**
 The market proposal (apps/api/src/agent/autofill.py): reading a site's language
 links, counting a CRM export's countries, and merging the two into at most six
 markets.
 */
module Markets {
  import opened Prelude
  import opened Countries
  import opened Letters

  const MAX_MARKETS := 6

  // ----- text -----------------------------------------------------------------------

  predicate IsSpace(c: char) {
    c == ' ' || 9 <= c as int <= 13
  }

  function Strip(s: string): string {
    if s != [] && IsSpace(s[0]) then Strip(s[1..])
    else if s != [] && IsSpace(s[|s| - 1]) then Strip(s[..|s| - 1])
    else s
  }

  /** From i to j, with nothing but space around it and none at its ends. */
  ghost predicate StrippedAt(s: string, i: nat, j: nat, r: string) {
    && i <= j <= |s| && r == s[i..j]
    && (forall k :: 0 <= k < |s| && (k < i || j <= k) ==> IsSpace(s[k]))
    && (r == "" || (!IsSpace(r[0]) && !IsSpace(r[|r| - 1])))
  }

  lemma StrippedTail(s: string, i: nat, j: nat, r: string)
    requires s != [] && IsSpace(s[0]) && StrippedAt(s[1..], i, j, r)
    ensures StrippedAt(s, i + 1, j + 1, r)
  {
    assert s[1..][i..j] == s[i + 1..j + 1];
    assert forall k :: 0 < k < |s| ==> s[k] == s[1..][k - 1];
  }

  lemma StrippedFront(s: string, i: nat, j: nat, r: string)
    requires s != [] && IsSpace(s[|s| - 1]) && StrippedAt(s[..|s| - 1], i, j, r)
    ensures StrippedAt(s, i, j, r)
  {
    assert s[..|s| - 1][i..j] == s[i..j];
    assert forall k :: 0 <= k < |s| - 1 ==> s[k] == s[..|s| - 1][k];
  }

  lemma {:induction false} StripIsStripped(s: string) returns (i: nat, j: nat)
    ensures StrippedAt(s, i, j, Strip(s))
    decreases |s|
  {
    if s != [] && IsSpace(s[0]) {
      i, j := StripIsStripped(s[1..]);
      StrippedTail(s, i, j, Strip(s));
      i, j := i + 1, j + 1;
    } else if s != [] && IsSpace(s[|s| - 1]) {
      i, j := StripIsStripped(s[..|s| - 1]);
      StrippedFront(s, i, j, Strip(s));
    } else {
      i, j := 0, |s|;
    }
  }

  function NormaliseCountry(value: string): (r: Option<string>)
    ensures r.Some? ==> Country(r.value).Some?
  {
    var text := Strip(value);
    if |text| == 2 && Country(Upper(text)).Some? then Some(Upper(text)) else CountryNamed(Lower(text))
  }

  /** A cell is read as a country exactly when, but for outer space and letter case, it is
      that country's code or one of its names; no cell is one country's code and another's
      name. */
  lemma ReadsExactly(value: string, country: string)
    ensures NormaliseCountry(value) == Some(country) <==>
      || (Country(country).Some? && country == Upper(Strip(value)))
      || CountryNamed(Lower(Strip(value))) == Some(country)
  {
    var text := Strip(value);
    if |text| == 2 && CountryNamed(Lower(text)).Some? {
      NameIsNoCode(text);
    }
  }

  lemma NameIsNoCode(text: string)
    requires |text| == 2 && CountryNamed(Lower(text)).Some?
    ensures Country(Upper(text)).None?
  {
    OnlyUk(Lower(text));
    UpperOfLower(text);
    var uk := "uk";
    assert Upper(uk)[0] == 'U' && Upper(uk)[1] == 'K';
    assert Upper(uk) == "UK";
  }

  /** So reading does not look at letter case. */
  lemma ReadingIgnoresCase(a: string, b: string)
    requires Lower(Strip(a)) == Lower(Strip(b))
    ensures NormaliseCountry(a) == NormaliseCountry(b)
  {
    UpperOfLower(Strip(a));
    UpperOfLower(Strip(b));
  }

  lemma UpperOfLower(s: string)
    ensures Upper(Lower(s)) == Upper(s)
  {
  }

  // ----- sorting ------------------------------------------------------------------------

  /** `sorted` by insertion: an element goes behind everything it does not precede. */
  function Insert<T>(x: T, sorted: seq<T>, precedes: (T, T) -> bool): seq<T> {
    if sorted == [] then [x]
    else if precedes(x, sorted[0]) then [x] + sorted
    else [sorted[0]] + Insert(x, sorted[1..], precedes)
  }

  function StableSort<T>(s: seq<T>, precedes: (T, T) -> bool): seq<T> {
    if s == [] then [] else Insert(s[|s| - 1], StableSort(s[..|s| - 1], precedes), precedes)
  }

  /** An element that precedes the back part and nothing in the front part goes between. */
  lemma {:induction false} InsertBetween<T>(x: T, front: seq<T>, back: seq<T>, precedes: (T, T) -> bool)
    requires forall i :: 0 <= i < |front| ==> !precedes(x, front[i])
    requires back == [] || precedes(x, back[0])
    ensures Insert(x, front + back, precedes) == front + [x] + back
    decreases |front|
  {
    if front == [] {
      assert front + back == back;
    } else {
      assert (front + back)[1..] == front[1..] + back;
      InsertBetween(x, front[1..], back, precedes);
    }
  }

  // ----- the site's language links -----------------------------------------------------------

  datatype Link = Link(hreflang: string, href: string)

  datatype Row = Row(country: string, language: string, href: string)

  predicate IsLetter(c: char) {
    'a' <= c <= 'z' || 'A' <= c <= 'Z'
  }

  /** Two lower-case letters, a dash or underscore and two letters: a language and a
      country. A language alone names no market. */
  function MatchHreflang(value: string): Option<(string, string)> {
    if |value| == 5 && 'a' <= value[0] <= 'z' && 'a' <= value[1] <= 'z' && (value[2] == '-' || value[2] == '_')
       && IsLetter(value[3]) && IsLetter(value[4])
    then Some((value[..2], value[3..])) else None
  }

  function CountriesOf(rows: seq<Row>): seq<string> {
    seq(|rows|, i requires 0 <= i < |rows| => rows[i].country)
  }

  /** The first of each pair. */
  function Firsts<T>(pairs: seq<(string, T)>): (names: seq<string>)
    ensures |names| == |pairs|
  {
    seq(|pairs|, i requires 0 <= i < |pairs| => pairs[i].0)
  }

  predicate Distinct<T(==)>(s: seq<T>) {
    forall i, j :: 0 <= i < j < |s| ==> s[i] != s[j]
  }

  /** The row a link declares, if it declares a country at all. */
  function Declares(link: Link): Option<Row> {
    var found := MatchHreflang(Strip(link.hreflang));
    if found.None? then None else Some(Row(Upper(found.value.1), found.value.0, Strip(link.href)))
  }

  /** The first row of each declared country, in document order. */
  function FirstRows(links: seq<Link>): (rows: seq<Row>)
    ensures Distinct(CountriesOf(rows))
    ensures forall i :: 0 <= i < |rows| ==> rows[i].country == Upper(rows[i].country)
  {
    if links == [] then []
    else
      var rows := FirstRows(links[..|links| - 1]);
      var row := Declares(links[|links| - 1]);
      if row.None? || row.value.country in CountriesOf(rows) then rows
      else
        assert CountriesOf(rows + [row.value]) == CountriesOf(rows) + [row.value.country];
        rows + [row.value]
  }

  /** How many rows carry this address; an empty one is not counted. */
  function Shares(rows: seq<Row>, href: string): nat {
    if rows == [] || href == "" then 0
    else Shares(rows[..|rows| - 1], href) + (if rows[|rows| - 1].href == href then 1 else 0)
  }

  /** A page of its own, or one page with several labels on it. */
  predicate Shared(rows: seq<Row>, i: nat)
    requires i < |rows|
  {
    Shares(rows, rows[i].href) > 1
  }

  /** The positions below k whose sharing is as asked, in document order. */
  function Where(rows: seq<Row>, k: nat, shared: bool): (r: seq<nat>)
    requires k <= |rows|
    ensures forall j :: 0 <= j < |r| ==> r[j] < k && Shared(rows, r[j]) == shared
    ensures forall i, j :: 0 <= i < j < |r| ==> r[i] < r[j]
    ensures forall i :: 0 <= i < k && Shared(rows, i) == shared ==> i in r
  {
    if k == 0 then []
    else if Shared(rows, k - 1) == shared then Where(rows, k - 1, shared) + [k - 1]
    else Where(rows, k - 1, shared)
  }

  function UpTo(n: nat): (r: seq<nat>)
    ensures |r| == n && forall i :: 0 <= i < n ==> r[i] == i
  {
    seq(n, i => i)
  }

  /** The sort key compares sharing first and the row's own position second. */
  predicate KeyBelow(rows: seq<Row>, i: nat, j: nat) {
    i < |rows| && j < |rows| &&
    ((!Shared(rows, i) && Shared(rows, j)) || (Shared(rows, i) == Shared(rows, j) && i < j))
  }

  lemma InsertAtEnd<T>(x: T, front: seq<T>, precedes: (T, T) -> bool)
    requires forall i :: 0 <= i < |front| ==> !precedes(x, front[i])
    ensures Insert(x, front, precedes) == front + [x]
  {
    InsertBetween(x, front, [], precedes);
    assert front + [] == front && front + [x] + [] == front + [x];
  }

  lemma InsertRow(rows: seq<Row>, k: nat, own: seq<nat>, shared: seq<nat>, below: (nat, nat) -> bool)
    requires k < |rows| && forall i, j :: below(i, j) == KeyBelow(rows, i, j)
    requires forall j :: 0 <= j < |own| ==> own[j] < k && !Shared(rows, own[j])
    requires forall j :: 0 <= j < |shared| ==> shared[j] < k && Shared(rows, shared[j])
    ensures Insert(k, own + shared, below) == if Shared(rows, k) then own + (shared + [k]) else (own + [k]) + shared
  {
    var all := own + shared;
    if Shared(rows, k) {
      forall i | 0 <= i < |all|
        ensures !below(k, all[i])
      {
        assert all[i] == if i < |own| then own[i] else shared[i - |own|];
      }
      InsertAtEnd(k, all, below);
      assert all + [k] == own + (shared + [k]);
    } else {
      InsertBetween(k, own, shared, below);
    }
  }

  /** Sorting by that key is the stable partition: unshared pages first, each part in
      document order. */
  lemma {:induction false} SortIsPartition(rows: seq<Row>, k: nat)
    requires k <= |rows|
    ensures StableSort<nat>(UpTo(k), (i: nat, j: nat) => KeyBelow(rows, i, j)) ==
      Where(rows, k, false) + Where(rows, k, true)
  {
    if k > 0 {
      SortIsPartition(rows, k - 1);
      assert UpTo(k)[..k - 1] == UpTo(k - 1);
      InsertRow(rows, k - 1, Where(rows, k - 1, false), Where(rows, k - 1, true),
        (i: nat, j: nat) => KeyBelow(rows, i, j));
    }
  }

  function SortOrder(rows: seq<Row>): (order: seq<nat>)
    ensures forall j :: 0 <= j < |order| ==> order[j] < |rows|
  {
    Where(rows, |rows|, false) + Where(rows, |rows|, true)
  }

  function Pick(rows: seq<Row>, order: seq<nat>): seq<(string, string)>
    requires forall j :: 0 <= j < |order| ==> order[j] < |rows|
  {
    seq(|order|, j requires 0 <= j < |order| => (rows[order[j]].country, rows[order[j]].language))
  }

  function Published(links: seq<Link>): seq<(string, string)> {
    var rows := FirstRows(links);
    Pick(rows, SortOrder(rows))
  }

  // ----- the published list, link by link ------------------------------------------------------

  /** A stripped tag names a language and a country. */
  predicate Labels(tag: string, language: string, country: string) {
    && |tag| == 5 && language == tag[..2] && country == Upper(tag[3..])
    && 'a' <= tag[0] <= 'z' && 'a' <= tag[1] <= 'z'
    && (tag[2] == '-' || tag[2] == '_')
    && ('A' <= country[0] <= 'Z' && 'A' <= country[1] <= 'Z')
  }

  /** A link declares a country exactly when its tag, stripped, names one; the language is
      the tag's and the address is stripped. */
  lemma DeclaresExactly(link: Link, country: string, language: string, href: string)
    ensures Declares(link) == Some(Row(country, language, href)) <==>
      Labels(Strip(link.hreflang), language, country) && href == Strip(link.href)
  {
    var tag := Strip(link.hreflang);
    if |tag| == 5 {
      assert Upper(tag[3..])[0] == UpperChar(tag[3]) && Upper(tag[3..])[1] == UpperChar(tag[4]);
    }
  }

  /** What each link declares. */
  function Declared(links: seq<Link>): seq<Option<Row>> {
    seq(|links|, b requires 0 <= b < |links| => Declares(links[b]))
  }

  /** The first link to declare its country. */
  predicate FirstToDeclare(declared: seq<Option<Row>>, b: nat) {
    && b < |declared| && declared[b].Some?
    && forall a :: 0 <= a < b && declared[a].Some? ==> declared[a].value.country != declared[b].value.country
  }

  /** Another country is declared with the same address. */
  ghost predicate SharesPage(declared: seq<Option<Row>>, b: nat)
    requires FirstToDeclare(declared, b)
  {
    var href := declared[b].value.href;
    href != "" && exists a: nat :: FirstToDeclare(declared, a) && a != b && declared[a].value.href == href
  }

  /** Every country is published once, from the first link that declares it, with that link's
      language: those with a page of their own first, and each part in document order. */
  ghost predicate Publishes(declared: seq<Option<Row>>, published: seq<(string, string)>, at: seq<nat>) {
    && |at| == |published| && Distinct(at)
    && (forall k :: 0 <= k < |at| ==>
          FirstToDeclare(declared, at[k])
          && published[k] == (declared[at[k]].value.country, declared[at[k]].value.language))
    && (forall b :: FirstToDeclare(declared, b) ==> b in at)
    && (forall k, l :: 0 <= k < l < |at| ==>
          if SharesPage(declared, at[k]) == SharesPage(declared, at[l]) then at[k] < at[l]
          else SharesPage(declared, at[l]))
  }

  /** Where the links stand that the rows come from. */
  ghost function Sources(declared: seq<Option<Row>>, n: nat): seq<nat> {
    Picked(n, (b: nat) => FirstToDeclare(declared, b))
  }

  ghost predicate ComeFrom(declared: seq<Option<Row>>, at: seq<nat>, rows: seq<Row>) {
    |at| == |rows| && forall i :: 0 <= i < |at| ==> at[i] < |declared| && declared[at[i]] == Some(rows[i])
  }

  /** Every country declared has its row. */
  ghost predicate Covered(declared: seq<Option<Row>>, n: nat, rows: seq<Row>)
    requires n <= |declared|
  {
    forall b :: 0 <= b < n && declared[b].Some? ==> declared[b].value.country in CountriesOf(rows)
  }

  lemma {:induction false} RowsComeFrom(links: seq<Link>, n: nat)
    requires n <= |links|
    ensures ComeFrom(Declared(links), Sources(Declared(links), n), FirstRows(links[..n]))
    ensures Covered(Declared(links), n, FirstRows(links[..n]))
  {
    if n > 0 {
      RowsComeFrom(links, n - 1);
      assert links[..n][..n - 1] == links[..n - 1];
      var declared, rows := Declared(links), FirstRows(links[..n - 1]);
      if declared[n - 1].Some? {
        IsFirstExactly(declared, n - 1, rows);
        CoversOneMore(declared, n - 1, rows);
      }
    }
  }

  lemma CoversOneMore(declared: seq<Option<Row>>, n: nat, rows: seq<Row>)
    requires n < |declared| && declared[n].Some? && Covered(declared, n, rows)
    ensures Covered(declared, n + 1, rows + [declared[n].value])
    ensures declared[n].value.country in CountriesOf(rows) ==> Covered(declared, n + 1, rows)
  {
    assert CountriesOf(rows + [declared[n].value]) == CountriesOf(rows) + [declared[n].value.country];
  }

  lemma IsFirstExactly(declared: seq<Option<Row>>, b: nat, rows: seq<Row>)
    requires b < |declared| && declared[b].Some? && ComeFrom(declared, Sources(declared, b), rows)
    requires Covered(declared, b, rows)
    ensures FirstToDeclare(declared, b) <==> declared[b].value.country !in CountriesOf(rows)
  {
    var country := declared[b].value.country;
    if country in CountriesOf(rows) {
      var i :| 0 <= i < |rows| && CountriesOf(rows)[i] == country;
      assert Sources(declared, b)[i] in Sources(declared, b);
    }
  }

  lemma {:induction false} SharesMember(rows: seq<Row>, href: string)
    requires href != ""
    ensures Shares(rows, href) > 0 <==> exists i :: 0 <= i < |rows| && rows[i].href == href
  {
    if rows != [] {
      var front := rows[..|rows| - 1];
      SharesMember(front, href);
      if i :| 0 <= i < |rows| && rows[i].href == href && i < |rows| - 1 {
        assert front[i].href == href;
      }
    }
  }

  /** An address counts as shared exactly when two rows carry it and it is not blank. */
  lemma {:induction false} SharedExactly(rows: seq<Row>, href: string)
    ensures Shares(rows, href) > 1 <==>
      href != "" && exists i, j :: 0 <= i < j < |rows| && rows[i].href == href && rows[j].href == href
  {
    if rows != [] && href != "" {
      var front := rows[..|rows| - 1];
      SharedExactly(front, href);
      SharesMember(front, href);
      if i, j :| 0 <= i < j < |rows| && rows[i].href == href && rows[j].href == href {
        assert front[i].href == href;
        if j < |rows| - 1 {
          assert front[j].href == href;
        }
      }
    }
  }

  lemma SharedIsSharesPage(declared: seq<Option<Row>>, at: seq<nat>, rows: seq<Row>, i: nat)
    requires at == Sources(declared, |declared|) && ComeFrom(declared, at, rows) && i < |rows|
    requires FirstToDeclare(declared, at[i])
    ensures Shared(rows, i) <==> SharesPage(declared, at[i])
  {
    var href := rows[i].href;
    SharedExactly(rows, href);
    if Shared(rows, i) {
      var j, k :| 0 <= j < k < |rows| && rows[j].href == href && rows[k].href == href;
      var other := if j == i then k else j;
      assert at[other] in at && FirstToDeclare(declared, at[other]) && at[other] != at[i];
    }
    if SharesPage(declared, at[i]) {
      var a: nat :| FirstToDeclare(declared, a) && a != at[i] && declared[a].value.href == href;
      assert a in at;
      var j :| 0 <= j < |at| && at[j] == a;
      assert rows[if i < j then i else j].href == href && rows[if i < j then j else i].href == href;
    }
  }

  /** Where each published country's link stands. */
  function Chosen(sources: seq<nat>, order: seq<nat>): seq<nat>
    requires forall k :: 0 <= k < |order| ==> order[k] < |sources|
  {
    seq(|order|, k requires 0 <= k < |order| => sources[order[k]])
  }

  lemma ChosenAreFirst(declared: seq<Option<Row>>, rows: seq<Row>)
    requires ComeFrom(declared, Sources(declared, |declared|), rows)
    ensures var order := SortOrder(rows);
      var at := Chosen(Sources(declared, |declared|), order);
      && (forall k :: 0 <= k < |at| ==>
            FirstToDeclare(declared, at[k]) && Shared(rows, order[k]) == SharesPage(declared, at[k]))
      && (forall b :: FirstToDeclare(declared, b) ==> b in at)
  {
    var sources, order := Sources(declared, |declared|), SortOrder(rows);
    var at := Chosen(sources, order);
    SortOrderIsPermutation(rows);
    forall k | 0 <= k < |at|
      ensures FirstToDeclare(declared, at[k]) && Shared(rows, order[k]) == SharesPage(declared, at[k])
    {
      assert at[k] in sources;
      SharedIsSharesPage(declared, sources, rows, order[k]);
    }
    forall b | FirstToDeclare(declared, b)
      ensures b in at
    {
      assert b in sources;
      var i :| 0 <= i < |sources| && sources[i] == b;
      assert i in order;
      var k :| 0 <= k < |order| && order[k] == i;
      assert at[k] == b;
    }
  }

  /** The order of the rows, said of the links. */
  lemma OrderPublishes(declared: seq<Option<Row>>, rows: seq<Row>) returns (at: seq<nat>)
    requires ComeFrom(declared, Sources(declared, |declared|), rows)
    ensures Publishes(declared, Pick(rows, SortOrder(rows)), at)
  {
    var sources, order := Sources(declared, |declared|), SortOrder(rows);
    at := Chosen(sources, order);
    ChosenAreFirst(declared, rows);
    forall k, l | 0 <= k < l < |at|
      ensures at[k] != at[l]
      ensures if SharesPage(declared, at[k]) == SharesPage(declared, at[l]) then at[k] < at[l]
              else SharesPage(declared, at[l])
    {
      OrderIsPartition(rows, k, l);
    }
  }

  lemma PublishedInOrder(links: seq<Link>) returns (at: seq<nat>)
    ensures Publishes(Declared(links), Published(links), at)
  {
    assert links[..|links|] == links;
    RowsComeFrom(links, |links|);
    at := OrderPublishes(Declared(links), FirstRows(links));
  }

  lemma OrderIsPartition(rows: seq<Row>, k: nat, l: nat)
    requires k < l < |SortOrder(rows)|
    ensures var order := SortOrder(rows);
      && order[k] != order[l]
      && if Shared(rows, order[k]) == Shared(rows, order[l]) then order[k] < order[l] else Shared(rows, order[l])
  {
    var own, shared := Where(rows, |rows|, false), Where(rows, |rows|, true);
    assert forall i :: 0 <= i < |own| ==> SortOrder(rows)[i] == own[i];
    assert forall i :: 0 <= i < |shared| ==> SortOrder(rows)[|own| + i] == shared[i];
  }

  method HreflangCountries(links: seq<Link>) returns (published: seq<(string, string)>)
    ensures published == Published(links)
    ensures exists at :: Publishes(Declared(links), published, at)
  {
    var found: seq<Row> := [];
    var seen: set<string> := {};
    for i := 0 to |links|
      invariant found == FirstRows(links[..i])
      invariant forall country :: country in seen <==> country in CountriesOf(found)
    {
      assert links[..i + 1][..i] == links[..i];
      var row := Declares(links[i]);
      if row.Some? && row.value.country !in seen {
        seen := seen + {row.value.country};
        found := found + [row.value];
        assert CountriesOf(found) == CountriesOf(FirstRows(links[..i])) + [row.value.country];
      }
    }
    assert links[..|links|] == links;
    SortIsPartition(found, |found|);
    var order := StableSort<nat>(UpTo(|found|), (i: nat, j: nat) => KeyBelow(found, i, j));
    published := Pick(found, order);
    ghost var at := PublishedInOrder(links);
  }

  /** Sorting moves positions about and loses none of them. */
  lemma SortOrderIsPermutation(rows: seq<Row>)
    ensures Distinct(SortOrder(rows))
    ensures forall k :: 0 <= k < |rows| ==> k in SortOrder(rows)
  {
    var own, shared := Where(rows, |rows|, false), Where(rows, |rows|, true);
    var order := SortOrder(rows);
    forall i, j | 0 <= i < j < |order|
      ensures order[i] != order[j]
    {
      if i < |own| <= j {
        assert order[i] == own[i] && order[j] == shared[j - |own|];
      }
    }
    forall k | 0 <= k < |rows|
      ensures k in order
    {
      assert k in own || k in shared;
    }
  }

  /** The published list names every declared country, and names it once. */
  lemma PublishedIsDuplicateFree(links: seq<Link>)
    ensures Distinct(Firsts(Published(links)))
    ensures forall country :: country in Firsts(Published(links)) <==> country in CountriesOf(FirstRows(links))
  {
    var rows := FirstRows(links);
    var order, countries := SortOrder(rows), CountriesOf(rows);
    SortOrderIsPermutation(rows);
    var names := Firsts(Published(links));
    assert forall i :: 0 <= i < |order| ==> names[i] == countries[order[i]];
    forall country | country in countries
      ensures country in names
    {
      var k :| 0 <= k < |rows| && countries[k] == country;
      assert k in order;
      var i :| 0 <= i < |order| && order[i] == k;
      assert names[i] == country;
    }
  }
}
