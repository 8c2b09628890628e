/**
 * One row of the stock table and the per-row rules that tie its derived
 * fields (market capitalisation, promo weight) to the others.
 */
module Stocks {

  /** A stock record. Prices and market capitalisations are exact reals. */
  datatype Stock = Stock(
    rank: int,
    name: string,
    promo: string,
    weight: int,
    price: real,
    shares: int,
    marketCap: real,
    hypeScore: int)

  /** Price times shares outstanding. */
  function MarketCap(x: Stock): real {
    x.price * x.shares as real
  }

  /** The stored market capitalisation agrees with price and shares. */
  predicate CapConsistent(x: Stock) {
    x.marketCap == MarketCap(x)
  }

  /** The stored weight is the character count of the promo text. */
  predicate WeightConsistent(x: Stock) {
    x.weight == |x.promo|
  }

  /** Every row of a table has a consistent market capitalisation. */
  predicate CapsConsistent(s: seq<Stock>) {
    forall i :: 0 <= i < |s| ==> CapConsistent(s[i])
  }

  /** The row after `update_market_cap`: only the market cap changes, and it is made consistent. */
  function WithMarketCap(x: Stock): (y: Stock)
    ensures CapConsistent(y)
    ensures y.(marketCap := x.marketCap) == x
    ensures y == x <==> CapConsistent(x)
  {
    x.(marketCap := MarketCap(x))
  }

  /** The record appended by "Add New Entry", given the table length before the append. */
  function NewEntry(n: nat): (x: Stock)
    ensures x.rank == n + 1
    ensures CapConsistent(x) && WeightConsistent(x)
    ensures x.name == "New Stock" && x.promo == "" && x.weight == 0
    ensures x.price == 100.0 && x.shares == 1000000 && x.hypeScore == 50
  {
    Stock(n + 1, "New Stock", "", 0, 100.0, 1000000, 100000000.0, 50)
  }

  /** The sample row the window starts with. */
  const Sample: Stock :=
    Stock(1, "Tesla", "World Domination!", 20, 991.0, 900000000, 891900000000.0, 55)

  /** The sample row has a consistent market cap but its weight (20) is not its promo length (17). */
  lemma SampleBreaksWeightRule()
    ensures CapConsistent(Sample)
    ensures |Sample.promo| == 17 && !WeightConsistent(Sample)
  {
  }
}
