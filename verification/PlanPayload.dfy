/**
 The plan payload builder (apps/api/scripts/plan_payload.py): the budget split, the
 month labels and the keys of the account structure. Money is in cents and
 percentages in hundredths of a percent.
 */
module PlanPayload {
  import opened Prelude

  // ----- rounding ----------------------------------------------------------------

  /** `round` to the nearest whole number, ties to the even one. */
  function Rounded(num: int, den: int): int
    requires den > 0
  {
    var q, r := num / den, num % den;
    if 2 * r < den || (2 * r == den && q % 2 == 0) then q else q + 1
  }

  /** Rounding moves a quotient by at most one half. */
  lemma RoundedIsNear(num: int, den: int)
    requires den > 0
    ensures -den <= 2 * (den * Rounded(num, den) - num) <= den
  {
    var q, r := num / den, num % den;
    assert num == den * q + r;
    assert den * (q + 1) == den * q + den;
  }

  /** That and the even tie single it out. */
  lemma RoundedExactly(num: int, den: int, r: int)
    requires den > 0
    ensures r == Rounded(num, den) <==>
      var d := 2 * (den * r - num);
      -den <= d <= den && ((d == den || d == -den) ==> r % 2 == 0)
  {
    var q, rest := num / den, num % den;
    assert num == den * q + rest;
    RoundedIsNear(num, den);
    var d := 2 * (den * r - num);
    assert d == 2 * (den * (r - q)) - 2 * rest;
    if r - q >= 2 {
      Scaled(den, r - q, 2);
    } else if r - q <= -1 {
      Scaled(den, -1, r - q);
    } else if r == q + 1 {
      assert den * (r - q) == den;
    } else {
      assert r == q;
    }
  }

  lemma Scaled(den: int, a: int, b: int)
    requires den > 0 && a >= b
    ensures den * a >= den * b
  {
    assert den * (a - b) >= 0;
  }

  // ----- the budget split -----------------------------------------------------------

  datatype Campaign = Campaign(ref: string, market: string)

  datatype Row = Row(ref: string, market: string, stage: string, usd: int, pct: int)

  const FUNNEL := ["capture", "create"]

  /** Every row but the last carries the rounded even share; the last absorbs what
      rounding left over. */
  function Usd(envelope: int, n: nat, index: nat): int
    requires index < n
  {
    var share := Rounded(envelope, n);
    if index < n - 1 then share else envelope - share * (n - 1)
  }

  function Pct(usd: int, envelope: int): int
    requires envelope != 0
  {
    if envelope > 0 then Rounded(10000 * usd, envelope) else Rounded(-10000 * usd, -envelope)
  }

  /** A percentage is within half a hundredth of the row's part of the envelope. */
  lemma PctIsNear(usd: int, envelope: int)
    requires envelope != 0
    ensures var size := if envelope > 0 then envelope else -envelope;
      -size <= 2 * (envelope * Pct(usd, envelope) - 10000 * usd) <= size
  {
    if envelope > 0 {
      RoundedIsNear(10000 * usd, envelope);
    } else {
      RoundedIsNear(-10000 * usd, -envelope);
      assert (-envelope) * Pct(usd, envelope) == -(envelope * Pct(usd, envelope));
    }
  }

  function SumUsd(rows: seq<Row>): int {
    if rows == [] then 0 else SumUsd(rows[..|rows| - 1]) + rows[|rows| - 1].usd
  }

  lemma SumUsdSnoc(rows: seq<Row>, row: Row)
    ensures SumUsd(rows + [row]) == SumUsd(rows) + row.usd
  {
    assert (rows + [row])[..|rows|] == rows;
  }

  function SumPct(rows: seq<Row>): int {
    if rows == [] then 0 else SumPct(rows[..|rows| - 1]) + rows[|rows| - 1].pct
  }

  ghost predicate SplitRow(campaigns: seq<Campaign>, envelope: int, row: Row, index: nat)
    requires index < |campaigns| && envelope != 0
  {
    && row.ref == campaigns[index].ref && row.market == campaigns[index].market
    && row.stage == FUNNEL[index % 2]
    && row.usd == Usd(envelope, |campaigns|, index)
    && row.pct == Pct(row.usd, envelope)
  }

  /** None is the division by a zero envelope. */
  method Allocation(campaigns: seq<Campaign>, envelope: int) returns (rows: Option<seq<Row>>)
    ensures rows.None? <==> campaigns != [] && envelope == 0
    ensures rows.Some? ==> |rows.value| == |campaigns|
    ensures rows.Some? ==> forall i :: 0 <= i < |campaigns| ==> SplitRow(campaigns, envelope, rows.value[i], i)
    ensures rows.Some? && campaigns != [] ==> SumUsd(rows.value) == envelope
  {
    if campaigns == [] {
      return Some([]);
    }
    if envelope == 0 {
      return None;
    }
    var n := |campaigns|;
    var share := Rounded(envelope, n);
    var built: seq<Row> := [];
    for index := 0 to n
      invariant |built| == index
      invariant forall i :: 0 <= i < index ==> SplitRow(campaigns, envelope, built[i], i)
      invariant SumUsd(built) == if index < n then share * index else envelope
    {
      var usd := if index < n - 1 then share else envelope - share * (n - 1);
      var row := Row(campaigns[index].ref, campaigns[index].market, FUNNEL[index % 2], usd, Pct(usd, envelope));
      SumUsdSnoc(built, row);
      built := built + [row];
      assert share * (index + 1) == share * index + share;
    }
    rows := Some(built);
  }

  /** Each row but the last is within half a cent of the even share, and the last
      within half a cent for each of the others. */
  lemma RowsAreNearTheShare(envelope: int, n: nat, index: nat)
    requires index < n
    ensures var d := 2 * (n * Usd(envelope, n, index) - envelope);
      if index < n - 1 then 0 - n <= d <= n else 0 - n * (n - 1) <= d <= n * (n - 1)
  {
    RoundedIsNear(envelope, n);
    var share := Rounded(envelope, n);
    if index == n - 1 {
      var e := 2 * (n * share - envelope);
      var last := envelope - share * (n - 1);
      Spread(envelope, n, share);
      ScaleBound(e, n, n - 1);
    }
  }

  lemma Spread(envelope: int, n: nat, share: int)
    requires n > 0
    ensures 2 * (n * (envelope - share * (n - 1)) - envelope) == -((n - 1) * (2 * (n * share - envelope)))
  {
    calc {
      2 * (n * (envelope - share * (n - 1)) - envelope);
      2 * (n * envelope - n * (share * (n - 1)) - envelope);
      { assert n * (share * (n - 1)) == (n - 1) * (n * share); }
      { assert n * envelope - envelope == (n - 1) * envelope; }
      2 * ((n - 1) * envelope - (n - 1) * (n * share));
      -((n - 1) * (2 * (n * share - envelope)));
    }
  }

  lemma ScaleBound(e: int, bound: int, k: int)
    requires -bound <= e <= bound && k >= 0
    ensures -(bound * k) <= k * e <= bound * k
  {
    assert k * (bound - e) >= 0 && k * (bound + e) >= 0;
  }

  /** The percentages add up to one hundred, give or take half a hundredth a row. */
  lemma {:induction false} PctSumIsNear(rows: seq<Row>, envelope: int)
    requires envelope > 0 && forall i :: 0 <= i < |rows| ==> rows[i].pct == Pct(rows[i].usd, envelope)
    ensures 0 - envelope * |rows| <= 2 * (envelope * SumPct(rows) - 10000 * SumUsd(rows)) <= envelope * |rows|
  {
    if rows != [] {
      var front, last := rows[..|rows| - 1], rows[|rows| - 1];
      PctSumIsNear(front, envelope);
      RoundedIsNear(10000 * last.usd, envelope);
      Distribute(envelope, |front|, 1);
      Distribute(envelope, SumPct(front), last.pct);
    }
  }

  lemma Distribute(a: int, b: int, c: int)
    ensures a * (b + c) == a * b + a * c
  {
  }

  lemma Cancel(a: int, d: int, bound: int)
    requires a > 0 && 0 - a * bound <= a * d <= a * bound
    ensures 0 - bound <= d <= bound
  {
    if d > bound {
      BelowMinus(a, bound - d);
      Distribute(a, bound, -d);
    } else if d < 0 - bound {
      BelowMinus(a, d + bound);
      Distribute(a, d, bound);
    }
  }

  lemma BelowMinus(a: int, d: int)
    requires a > 0
    ensures d < 0 ==> a * d <= 0 - a
  {
    if d < 0 {
      assert a * d == a * (d + 1) - a;
      NotPositive(a, d + 1);
    }
  }

  lemma NotPositive(a: int, e: int)
    requires a > 0 && e <= 0
    ensures a * e <= 0
  {
  }

  lemma PctsAddUp(rows: seq<Row>, envelope: int)
    requires envelope > 0 && SumUsd(rows) == envelope
    requires forall i :: 0 <= i < |rows| ==> rows[i].pct == Pct(rows[i].usd, envelope)
    ensures 0 - |rows| <= 2 * (SumPct(rows) - 10000) <= |rows|
  {
    PctSumIsNear(rows, envelope);
    Doubled(envelope, SumPct(rows));
    Cancel(envelope, 2 * (SumPct(rows) - 10000), |rows|);
  }

  lemma Doubled(envelope: int, sum: int)
    ensures envelope * (2 * (sum - 10000)) == 2 * (envelope * sum - 10000 * envelope)
  {
  }

  /** The row that absorbs the rounding goes under zero exactly when the even share was
      rounded up and the campaigns outnumber what was left to share. */
  lemma AbsorbingRowIsNegativeExactly(envelope: nat, n: nat)
    requires n > 0
    ensures var q, r := envelope / n, envelope % n;
      Usd(envelope, n, n - 1) < 0 <==> (2 * r > n || (2 * r == n && q % 2 == 1)) && q + r < n - 1
  {
    var q, r := envelope / n, envelope % n;
    assert envelope == n * q + r;
    Distribute(q, n - 1, 1);
    Distribute(q + 1, n - 1, 1);
  }

  /** Three cents over five campaigns: four rows of one cent and one of minus one. */
  lemma ThreeCentsOverFive()
    ensures (forall index :: 0 <= index < 4 ==> Usd(3, 5, index) == 1) && Usd(3, 5, 4) == -1
  {
    assert 3 / 5 == 0 && 3 % 5 == 3;
  }

  // ----- the month labels ---------------------------------------------------------------

  /** The year and month `index` months after the current one. */
  function MonthAfter(year: int, month: int, index: nat): (r: (int, int))
    requires 1 <= month <= 12
    ensures 1 <= r.1 <= 12
    ensures 12 * r.0 + r.1 == 12 * year + month + index
  {
    (year + (month - 1 + index) / 12, (month - 1 + index) % 12 + 1)
  }

  // ----- the keys of the account structure ------------------------------------------------

  const MARKETS := ["US", "DE", "UK", "FR"]

  function Digit(d: nat): char
    requires d < 10
  {
    ('0' as int + d) as char
  }

  function Decimal(n: nat): string {
    if n < 10 then [Digit(n)] else Decimal(n / 10) + [Digit(n % 10)]
  }

  function CampaignRef(index: nat): string {
    "theme" + (Decimal(index / |MARKETS| + 1) + ("-" + FUNNEL[index % |FUNNEL|]))
  }

  function CampaignMarket(index: nat): string {
    MARKETS[index % |MARKETS|]
  }

  /** `ref@market` */
  function CampaignKey(index: nat): string {
    CampaignRef(index) + ("@" + CampaignMarket(index))
  }

  lemma {:induction false} DecimalIsDigits(n: nat)
    ensures Decimal(n) != [] && forall c :: c in Decimal(n) ==> '0' <= c <= '9'
  {
    if n >= 10 {
      DecimalIsDigits(n / 10);
    }
  }

  lemma {:induction false} DecimalIdentifies(m: nat, n: nat)
    ensures Decimal(m) == Decimal(n) ==> m == n
  {
    if Decimal(m) == Decimal(n) {
      DecimalIsDigits(m / 10);
      DecimalIsDigits(n / 10);
      assert Decimal(m)[|Decimal(m)| - 1] == Digit(m % 10) && Decimal(n)[|Decimal(n)| - 1] == Digit(n % 10);
      if m >= 10 && n >= 10 {
        assert Decimal(m / 10) == Decimal(m)[..|Decimal(m)| - 1] == Decimal(n / 10);
        DecimalIdentifies(m / 10, n / 10);
      }
    }
  }

  /** Text up to the first mark, and what follows it. */
  lemma {:induction false} CutAtTheMark(a: string, s: string, b: string, t: string, mark: char)
    requires mark !in a && mark !in b && a + ([mark] + s) == b + ([mark] + t)
    ensures a == b && s == t
  {
    var left, right := a + ([mark] + s), b + ([mark] + t);
    if a == [] {
      assert left[0] == mark && right[0] == mark;
      assert left[1..] == s && right[1..] == t;
    } else {
      assert left[0] == a[0];
      assert b != [];
      assert left[1..] == a[1..] + ([mark] + s) && right[1..] == b[1..] + ([mark] + t);
      CutAtTheMark(a[1..], s, b[1..], t, mark);
    }
  }

  lemma StagesDiffer(i: nat, j: nat)
    ensures FUNNEL[i % |FUNNEL|] == FUNNEL[j % |FUNNEL|] <==> i % 2 == j % 2
    ensures '@' !in FUNNEL[i % |FUNNEL|]
  {
    assert FUNNEL[0][1] == 'a' && FUNNEL[1][1] == 'r';
  }

  lemma MarketsDiffer(i: nat, j: nat)
    ensures CampaignMarket(i) == CampaignMarket(j) <==> i % 4 == j % 4
  {
    assert MARKETS[0][0] == 'U' && MARKETS[0][1] == 'S' && MARKETS[1][0] == 'D';
    assert MARKETS[2][0] == 'U' && MARKETS[2][1] == 'K' && MARKETS[3][0] == 'F';
  }

  /** The reference alone does not identify a campaign: it is shared within a theme by
      the campaigns of one stage. */
  lemma RefIsShared(i: nat, j: nat)
    ensures CampaignRef(i) == CampaignRef(j) <==> i / 4 == j / 4 && i % 2 == j % 2
  {
    StagesDiffer(i, j);
    if CampaignRef(i) == CampaignRef(j) {
      DecimalIsDigits(i / 4 + 1);
      DecimalIsDigits(j / 4 + 1);
      assert |"theme"| == 5;
      assert CampaignRef(i)[5..] == Decimal(i / 4 + 1) + (['-'] + FUNNEL[i % |FUNNEL|]);
      assert CampaignRef(j)[5..] == Decimal(j / 4 + 1) + (['-'] + FUNNEL[j % |FUNNEL|]);
      CutAtTheMark(Decimal(i / 4 + 1), FUNNEL[i % |FUNNEL|], Decimal(j / 4 + 1), FUNNEL[j % |FUNNEL|], '-');
      DecimalIdentifies(i / 4 + 1, j / 4 + 1);
    }
  }

  lemma RefHasNoMark(i: nat)
    ensures '@' !in CampaignRef(i)
  {
    DecimalIsDigits(i / 4 + 1);
    StagesDiffer(i, i);
    var theme := "theme";
    assert theme == ['t', 'h', 'e', 'm', 'e'];
    assert '@' !in theme;
    assert '@' !in "-" + FUNNEL[i % |FUNNEL|];
    assert '@' !in Decimal(i / 4 + 1) + ("-" + FUNNEL[i % |FUNNEL|]);
  }

  /** The reference together with the market does. */
  lemma RefAtMarketIdentifies(i: nat, j: nat)
    ensures CampaignKey(i) == CampaignKey(j) <==> i == j
  {
    if CampaignKey(i) == CampaignKey(j) {
      RefHasNoMark(i);
      RefHasNoMark(j);
      CutAtTheMark(CampaignRef(i), CampaignMarket(i), CampaignRef(j), CampaignMarket(j), '@');
      RefIsShared(i, j);
      MarketsDiffer(i, j);
      assert i == 4 * (i / 4) + i % 4 && j == 4 * (j / 4) + j % 4;
    }
  }
}
