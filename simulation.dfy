/**
 * `simulate_market_day`: each row's price moves by a percentage drawn from
 * the bucket its hype score selects, is clamped at zero, and its market cap
 * is recomputed; then the table is re-sorted.
 */
module Simulation {
  import opened Stocks
  import opened Ranking

  /** A value of `random.random()`. */
  predicate IsDraw(u: real) {
    0.0 <= u < 1.0
  }

  /** One draw per row. */
  predicate AreDraws(d: seq<real>) {
    forall i :: 0 <= i < |d| ==> IsDraw(d[i])
  }

  lemma MulNonNegative(x: real, y: real)
    requires x >= 0.0 && y >= 0.0
    ensures x * y >= 0.0
  {
  }

  /** `random.uniform(a, b)`, which computes `a + (b - a) * random.random()`. */
  function Uniform(a: real, b: real, u: real): (c: real)
    requires a <= b && IsDraw(u)
    ensures a <= c <= b
  {
    MulNonNegative(b - a, u);
    MulNonNegative(b - a, 1.0 - u);
    a + (b - a) * u
  }

  /** The range the percentage change of a row with this hype score lies in. */
  predicate InBucket(hype: int, c: real) {
    if hype < 30 then -1.0 <= c <= 1.0
    else if hype <= 70 then 6.0 <= c <= 30.0
    else -30.0 <= c <= -10.0
  }

  /** The percentage change drawn for a row with hype score `hype`. */
  function ChangePct(hype: int, u: real): (c: real)
    requires IsDraw(u)
    ensures InBucket(hype, c)
  {
    if hype < 30 then Uniform(-1.0, 1.0, u)
    else if hype <= 70 then Uniform(6.0, 30.0, u)
    else Uniform(-30.0, -10.0, u)
  }

  /** The price after a change of `c` percent, clamped at zero. */
  function DayPrice(price: real, c: real): (p: real)
    ensures p >= 0.0
    ensures p == 0.0 || p == price * (1.0 + c / 100.0)
  {
    var q := price * (1.0 + c / 100.0);
    if q < 0.0 then 0.0 else q
  }

  /**
   * On a non-negative price the clamp never fires, and the bucket bounds
   * how far the price moves: within 1% for low hype, up 6% to 30% for
   * medium hype, down 10% to 30% for high hype.
   */
  lemma DayPriceInBucket(price: real, hype: int, c: real)
    requires price >= 0.0 && InBucket(hype, c)
    ensures DayPrice(price, c) == price * (1.0 + c / 100.0)
    ensures hype < 30 ==> 0.99 * price <= DayPrice(price, c) <= 1.01 * price
    ensures 30 <= hype <= 70 ==> 1.06 * price <= DayPrice(price, c) <= 1.30 * price
    ensures hype > 70 ==> 0.70 * price <= DayPrice(price, c) <= 0.90 * price
  {
    var f := 1.0 + c / 100.0;
    var lo, hi := if hype < 30 then 0.99 else if hype <= 70 then 1.06 else 0.70,
                  if hype < 30 then 1.01 else if hype <= 70 then 1.30 else 0.90;
    assert 0.0 < lo <= f <= hi;
    MulNonNegative(price, f - lo);
    MulNonNegative(price, hi - f);
    MulNonNegative(price, f);
  }

  /** A positive price rises on a medium-hype day and falls on a high-hype day. */
  lemma DayPriceDirection(price: real, hype: int, c: real)
    requires price > 0.0 && InBucket(hype, c)
    ensures 30 <= hype <= 70 ==> DayPrice(price, c) > price
    ensures hype > 70 ==> DayPrice(price, c) < price
  {
    DayPriceInBucket(price, hype, c);
  }

  /** Every bucket keeps the price factor positive, so a price at or below zero ends the day at zero. */
  lemma NonPositivePriceResets(price: real, hype: int, c: real)
    requires price <= 0.0 && InBucket(hype, c)
    ensures DayPrice(price, c) == 0.0
  {
    var f := 1.0 + c / 100.0;
    assert f > 0.0;
    MulNonNegative(-price, f);
  }

  /**
   * How a day may move a price, given the hype score: a price at or below
   * zero ends at zero; a non-negative price moves within 1%, up 6% to 30%
   * or down 10% to 30%, by bucket.
   */
  predicate PriceMove(hype: int, before: real, after: real) {
    && (before <= 0.0 ==> after == 0.0)
    && (before >= 0.0 && hype < 30 ==> 0.99 * before <= after <= 1.01 * before)
    && (before >= 0.0 && 30 <= hype <= 70 ==> 1.06 * before <= after <= 1.30 * before)
    && (before >= 0.0 && hype > 70 ==> 0.70 * before <= after <= 0.90 * before)
  }

  /** Every in-bucket change moves a price as `PriceMove` allows. */
  lemma DayPriceMoves(price: real, hype: int, c: real)
    requires InBucket(hype, c)
    ensures PriceMove(hype, price, DayPrice(price, c))
  {
    if price >= 0.0 {
      DayPriceInBucket(price, hype, c);
    }
    if price <= 0.0 {
      NonPositivePriceResets(price, hype, c);
    }
  }

  /**
   * One row after its step of the loop: its price moves as its hype bucket
   * allows, its market cap follows, and nothing else changes.
   */
  function DayRow(x: Stock, u: real): (y: Stock)
    requires IsDraw(u)
    ensures PriceMove(x.hypeScore, x.price, y.price)
    ensures CapConsistent(y) && y.price >= 0.0
    ensures y.(price := x.price, marketCap := x.marketCap) == x
  {
    var c := ChangePct(x.hypeScore, u);
    DayPriceMoves(x.price, x.hypeScore, c);
    WithMarketCap(x.(price := DayPrice(x.price, c)))
  }

  /** The table after the loop of `simulate_market_day`, before the re-sort: every row moved in place. */
  function Day(s: seq<Stock>, d: seq<real>): (r: seq<Stock>)
    requires |d| == |s| && AreDraws(d)
    ensures |r| == |s|
    ensures forall i :: 0 <= i < |s| ==>
              && PriceMove(s[i].hypeScore, s[i].price, r[i].price)
              && CapConsistent(r[i])
              && r[i].(price := s[i].price, marketCap := s[i].marketCap) == s[i]
  {
    seq(|s|, i requires 0 <= i < |s| => DayRow(s[i], d[i]))
  }

  /** The table after `simulate_market_day`. */
  function MarketDay(s: seq<Stock>, d: seq<real>): (r: seq<Stock>)
    requires |d| == |s| && AreDraws(d)
    ensures |r| == |s| && RanksContiguous(r)
  {
    Resort(Day(s, d))
  }

  /** A row with the fields a market day may change blanked. */
  function Profile(x: Stock): Stock {
    x.(rank := 0, price := 0.0, marketCap := 0.0)
  }

  /** Every row of a market day's result is non-negative in price and consistent in market cap. */
  lemma MarketDayRows(s: seq<Stock>, d: seq<real>)
    requires |d| == |s| && AreDraws(d)
    ensures forall i :: 0 <= i < |MarketDay(s, d)| ==> MarketDay(s, d)[i].price >= 0.0
    ensures CapsConsistent(MarketDay(s, d))
  {
    var t := Day(s, d);
    var r := MarketDay(s, d);
    forall i | 0 <= i < |r| ensures CapConsistent(r[i]) && r[i].price >= 0.0 {
      var j := ResortRowOrigin(t, i);
      assert CapConsistent(t[j]) && t[j].price >= 0.0;
    }
  }

  /** A market day only permutes the fields it does not change. */
  lemma MarketDayProfiles(s: seq<Stock>, d: seq<real>)
    requires |d| == |s| && AreDraws(d)
    ensures multiset(Project(MarketDay(s, d), Profile)) == multiset(Project(s, Profile))
  {
    var t := Day(s, d);
    var r := MarketDay(s, d);
    SortProject(t, Profile);
    forall i | 0 <= i < |r| ensures Profile(r[i]) == Profile(SortDesc(t)[i]) {
    }
    assert Project(r, Profile) == Project(SortDesc(t), Profile);
    forall i | 0 <= i < |s| ensures Profile(t[i]) == Profile(s[i]) {
    }
    assert Project(t, Profile) == Project(s, Profile);
  }

  /**
   * After a market day the table is ordered, every price is non-negative,
   * every market cap is consistent, the names, promos, weights, shares and
   * hype scores are those of the rows before, merely permuted, and each row
   * is, up to its rank, a whole row of `Day`, whose prices moved by bucket.
   */
  lemma MarketDaySpec(s: seq<Stock>, d: seq<real>)
    requires |d| == |s| && AreDraws(d)
    ensures |MarketDay(s, d)| == |s|
    ensures Ordered(MarketDay(s, d))
    ensures forall i :: 0 <= i < |s| ==> MarketDay(s, d)[i].price >= 0.0
    ensures CapsConsistent(MarketDay(s, d))
    ensures multiset(Project(MarketDay(s, d), Profile)) == multiset(Project(s, Profile))
    ensures multiset(Project(MarketDay(s, d), Unranked)) == multiset(Project(Day(s, d), Unranked))
  {
    ResortSpec(Day(s, d));
    MarketDayRows(s, d);
    MarketDayProfiles(s, d);
  }

  /** The position `list.index` returns: the first row equal to `x`. */
  function IndexOf(s: seq<Stock>, x: Stock): (k: nat)
    requires x in s
    ensures k < |s| && s[k] == x
    ensures forall j :: 0 <= j < k ==> s[j] != x
  {
    if s[0] == x then 0 else 1 + IndexOf(s[1..], x)
  }

  /**
   * The loop recomputes the market cap of `data.index(row)`, the first row
   * equal to the one being visited. Rows before it were already visited and
   * so are consistent; if one of them equals the visited row, both updates
   * change nothing. Either way the result is that of updating the visited row.
   */
  lemma UpdateFirstEqualRow(s: seq<Stock>, i: nat)
    requires i < |s|
    requires forall j :: 0 <= j < i ==> CapConsistent(s[j])
    ensures IndexOf(s, s[i]) <= i
    ensures s[IndexOf(s, s[i]) := WithMarketCap(s[IndexOf(s, s[i])])] == s[i := WithMarketCap(s[i])]
  {
    var k := IndexOf(s, s[i]);
    if k < i {
      assert CapConsistent(s[k]);
      assert s[k] == s[i];
    }
  }
}
