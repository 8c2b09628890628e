# Hype-driven stock simulator: the record table

This project models the record table behind `HypeDrivenStockSimulator` in
MARKET.py, with its Tk widgets removed. The table is a list of stock records
(rank, name, promo text, promo weight, price, shares outstanding, market cap,
hype score). The model covers the commands that change it:

- re-ranking by descending price (`sort_by_price_desc`);
- the per-row market-cap update;
- the five context-menu edits;
- "Add New Entry" (context menu and button);
- a simulated market day;
- "New File" and the in-memory part of "Load File".

Layout:

- `options.dfy`: `Option`, the result of a modal dialog (`None` is a cancel).
- `stocks.dfy` (module `Stocks`): the record, the market-cap and weight rules,
  the default new entry and the sample row the window starts with.
- `ranking.dfy` (module `Ranking`): the stable descending sort `SortDesc`,
  rank assignment `Ranked`, and `Resort`, which is the two together. The
  lemmas prove that the sort permutes the rows and orders them by
  non-increasing price. They also prove that it is stable: for every price,
  the rows of that price keep their relative order (`Filter`). Finally,
  `SortCharacterised` proves that these two properties determine the result
  uniquely. So `SortDesc` is exactly Python's `list.sort(key=..., reverse=True)`.
- `simulation.dfy` (module `Simulation`): the hype buckets, `random.uniform`
  written out, the clamped price, one market day as a function, and the
  `list.index` lookup the loop uses.
- `edits.dfy` (module `Edits`): the edits and "Add New Entry" as functions
  of the table, with lemmas on what they keep.
- `market.dfy` (module `Market`): class `HypeDrivenStockSimulator`. Its
  fields are `data: seq<Stock>` and `selected: Option<nat>`, the row last
  right-clicked. Each command is a method that changes `data` in place, as
  the source does. Its `ensures` equates the new `data` with the
  corresponding function above. `SortByPriceDesc` and `SimulateMarketDay`
  keep the source's loops, with invariants.

Inputs the source takes from dialogs or the random module are parameters:

- the dialog answer (`Option`);
- the yes/no confirmation (`bool`);
- the loaded rows (`Option<seq<Stock>>`, `None` when no file was chosen);
- one `random.random()` draw in [0, 1) per row, from which `random.uniform`
  computes `a + (b - a) * u`.

The model keeps these behaviours of the code:

- Weight is not always the promo length. The sample row has weight 20, but
  its promo "World Domination!" has 17 characters (MARKET.py:13,
  `Stocks.SampleBreaksWeightRule`). Only `edit_promo` recomputes `weight`
  (`Edits.EditPromo`); a new entry starts with an empty promo and weight 0.
- Prices and shares are not kept non-negative. `edit_price` and
  `edit_shares` store any number the dialog returns. Only a market day clamps
  a price, and a price at or below zero always ends the day at exactly 0
  (`Simulation.NonPositivePriceResets`).
- A medium-hype day raises a price and a high-hype day lowers it only when
  the price is positive. A price of 0 stays 0 (`Simulation.DayPriceDirection`
  requires `price > 0`).
- No edit re-sorts the table, not even a price edit. A table can therefore
  be out of price order until the next sort (`Edits.EditPriceCanBreakOrder`).
  Ranks, however, are 1..N after every command: each command either re-sorts
  or moves no row (`Market.HypeDrivenStockSimulator.Valid`).

## Model

| member | source | states |
|---|---|---|
| `Stocks.WithMarketCap` | MARKET.py:77-79 | the row's market cap becomes price times shares, no other field changes, and the update changes nothing exactly when the row was already consistent |
| `Stocks.NewEntry` | MARKET.py:169-178 | the default record is named "New Stock" with empty promo and weight 0, rank n+1, price 100, 1000000 shares, hype 50, and consistent market cap and weight |
| `Stocks.SampleBreaksWeightRule` | MARKET.py:12-14 | the starting row's market cap is consistent but its weight 20 differs from its promo length 17 |
| `Ranking.Insert` | MARKET.py:144 | inserting a row grows the table by one, and the result starts with the inserted row or with the old first row |
| `Ranking.SortDesc` | MARKET.py:144 | the stable descending sort keeps the table's length; `Ranking.SortCharacterised` proves it is the only price-sorted order that keeps each price's rows in their original order |
| `Ranking.SortProject` | MARKET.py:144 | sorting permutes the rows, so any per-row view of the table is permuted too |
| `Ranking.SortPermutation` | MARKET.py:144 | the sorted table is a permutation of the original |
| `Ranking.SortSorted` | MARKET.py:144 | the sorted table's prices never increase |
| `Ranking.SortStable` | MARKET.py:144 | for every price, the rows of that price keep their original relative order |
| `Ranking.SortedUnique` | MARKET.py:144 | two price-sorted tables that agree price by price on row order are equal |
| `Ranking.SortCharacterised` | MARKET.py:144 | a table is the result of the sort if and only if it is price-sorted and keeps each price's rows in their original order |
| `Ranking.SortedIsFixpoint` | MARKET.py:144 | sorting an already sorted table changes nothing |
| `Ranking.Ranked` | MARKET.py:145-146 | row i gets rank i+1 and no other field of any row changes |
| `Ranking.Resort` | MARKET.py:143-146 | the whole of `sort_by_price_desc` keeps the length and leaves ranks 1..N; `Ranking.ResortSpec` adds the price order and the permutation |
| `Ranking.ResortSpec` | MARKET.py:143-146 | after the sort the table is ordered (prices non-increasing, ranks 1..N) and holds the same rows up to their ranks |
| `Ranking.ResortRowOrigin` | MARKET.py:143-146 | each row of the re-sorted table is some original row with rank i+1 |
| `Ranking.OrderedIsFixpoint` | MARKET.py:153-158 | loading back a table that is already ordered (as a saved one after any sort) gives exactly that table |
| `Ranking.ResortIdempotent` | MARKET.py:143-146 | sorting twice is the same as sorting once |
| `Simulation.Uniform` | MARKET.py:128-132 | `random.uniform(a, b)` with a draw in [0, 1) lies in [a, b] |
| `Simulation.ChangePct` | MARKET.py:126-132 | the change is in [-1, 1] for hype < 30, in [6, 30] for 30 <= hype <= 70, in [-30, -10] for hype > 70 |
| `Simulation.DayPrice` | MARKET.py:134-136 | the new price is never negative and is either 0 or the old price scaled by 1 + c/100 |
| `Simulation.DayPriceInBucket` | MARKET.py:126-136 | on a non-negative price the clamp never fires and the price moves within 1%, up 6% to 30%, or down 10% to 30%, by bucket |
| `Simulation.DayPriceDirection` | MARKET.py:126-136 | a positive price strictly rises on a medium-hype day and strictly falls on a high-hype day |
| `Simulation.NonPositivePriceResets` | MARKET.py:134-136 | a price at or below zero (set by an edit) is exactly 0 after a market day, whatever the bucket |
| `Simulation.DayPriceMoves` | MARKET.py:126-136 | for every change in the hype bucket, a price at or below zero ends at 0 and a non-negative price moves within 1%, up 6-30% or down 10-30%, by bucket |
| `Simulation.DayRow` | MARKET.py:125-137 | after its loop step a row's price has moved as its hype bucket allows (and is non-negative), its market cap is consistent, and only price and market cap changed |
| `Simulation.Day` | MARKET.py:125-137 | the loop keeps the table's length and moves every row in place: each price by its own hype bucket, each market cap made consistent, no other field changed |
| `Simulation.MarketDay` | MARKET.py:124-139 | a market day (the loop, then the re-sort) keeps the length and leaves ranks 1..N; `Simulation.MarketDaySpec` gives the rest |
| `Simulation.MarketDayRows` | MARKET.py:124-139 | after a market day every price is non-negative and every market cap is consistent |
| `Simulation.MarketDayProfiles` | MARKET.py:124-139 | a market day only permutes names, promos, weights, shares and hype scores |
| `Simulation.MarketDaySpec` | MARKET.py:124-139 | after a market day the table is ordered, non-negative in price, consistent in market cap, a permutation of the old rows in every untouched field, and up to ranks a permutation of the rows as moved by `Day` |
| `Simulation.IndexOf` | MARKET.py:137 | `list.index` returns the first position holding an equal row |
| `Simulation.UpdateFirstEqualRow` | MARKET.py:137 | updating the market cap of the first row equal to the visited one gives the same table as updating the visited row itself |
| `Edits.EditName` | MARKET.py:81-87 | a cancel or empty answer changes nothing; otherwise only the selected row's name changes, to the answer |
| `Edits.EditPromo` | MARKET.py:89-96 | any answer but a cancel, including the empty text, sets the selected row's promo and makes its weight the promo length; nothing else changes |
| `Edits.EditPrice` | MARKET.py:98-105 | a cancel changes nothing; otherwise the selected row's price becomes the answer, negative or not, and its market cap becomes consistent; nothing else changes |
| `Edits.EditShares` | MARKET.py:107-114 | a cancel changes nothing; otherwise the selected row's shares become the answer and its market cap becomes consistent; nothing else changes |
| `Edits.EditHype` | MARKET.py:116-122 | a cancel changes nothing; otherwise only the selected row's hype score changes, to the answer |
| `Edits.NonPriceEditsKeepOrder` | MARKET.py:81-122 | name, promo, shares and hype edits keep every row's place, rank and price, so an ordered table stays ordered |
| `Edits.EditsKeepPlaces` | MARKET.py:81-122 | no edit moves a row or changes a rank, on any table, so ranks 1..N stay 1..N |
| `Edits.EditPriceCanBreakOrder` | MARKET.py:98-105 | there is an ordered table that a price edit leaves out of price order |
| `Edits.EditsKeepCapsConsistent` | MARKET.py:81-122 | no edit breaks a consistent market cap anywhere in the table |
| `Edits.AddEntry` | MARKET.py:168-196 | adding an entry makes the table one row longer with ranks 1..N, and the default record is among its rows up to rank |
| `Edits.AddEntrySpec` | MARKET.py:168-196 | adding an entry grows the table by exactly the default record (up to rank) and leaves it ordered |
| `Edits.AddEntryToEmpty` | MARKET.py:168-181 | on an empty table the result is the default record alone, with rank 1 |
| `Market.HypeDrivenStockSimulator.constructor` | MARKET.py:7-17 | the table starts as the sample row alone, ordered (so ranks are 1..N), with nothing selected |
| `Market.HypeDrivenStockSimulator.SortByPriceDesc` | MARKET.py:143-146 | the new table is the stable price sort of the old one with ranks 1..N |
| `Market.HypeDrivenStockSimulator.UpdateMarketCap` | MARKET.py:77-79 | only the given row changes, and only its market cap, which becomes consistent |
| `Market.HypeDrivenStockSimulator.ShowContextMenu` | MARKET.py:70-75 | a right-click on a row selects it; elsewhere the selection stays |
| `Market.HypeDrivenStockSimulator.EditName` | MARKET.py:81-87 | with no selection nothing changes; otherwise the table becomes `Edits.EditName` of the old one |
| `Market.HypeDrivenStockSimulator.EditPromo` | MARKET.py:89-96 | with no selection nothing changes; otherwise the table becomes `Edits.EditPromo` of the old one |
| `Market.HypeDrivenStockSimulator.EditPrice` | MARKET.py:98-105 | with no selection nothing changes; otherwise the table becomes `Edits.EditPrice` of the old one |
| `Market.HypeDrivenStockSimulator.EditShares` | MARKET.py:107-114 | with no selection nothing changes; otherwise the table becomes `Edits.EditShares` of the old one |
| `Market.HypeDrivenStockSimulator.EditHypeScore` | MARKET.py:116-122 | with no selection nothing changes; otherwise the table becomes `Edits.EditHype` of the old one |
| `Market.HypeDrivenStockSimulator.SimulateMarketDay` | MARKET.py:124-141 | the new table is the market day of the old one, so it is ordered, non-negative in price and consistent in market cap |
| `Market.HypeDrivenStockSimulator.NewFile` | MARKET.py:148-151 | confirmed, the table is empty; declined, it is unchanged |
| `Market.HypeDrivenStockSimulator.LoadFile` | MARKET.py:153-159 | the chosen rows replace the table and are sorted; with no file chosen nothing changes |
| `Market.HypeDrivenStockSimulator.AddNewEntryContext` | MARKET.py:168-181 | the table becomes the old one plus the default record, sorted, one row longer |
| `Market.HypeDrivenStockSimulator.AddNewEntryButton` | MARKET.py:183-196 | exactly the same new table as the context-menu command |

## Left out

- Widgets and rendering (`ttk.Treeview`, menus, buttons, `populate_table`,
  the two-decimal currency formatting): UI with no effect on the table.
- Dialogs and message boxes (`simpledialog`, `messagebox`, `filedialog`):
  their answers are parameters; the confirmation boxes after a market day
  and a save are not modelled.
- `save_file` and the file and JSON work of `load_file` (`open`,
  `json.load`, `json.dump`): library I/O. Loading is modelled from the
  decoded rows on. A malformed file or a record with missing keys, which
  crash the source, cannot be expressed, because rows are typed records.
- The random module: each row's `random.random()` value is a parameter
  constrained to [0, 1).
- Floating point: prices and market caps are exact reals. So
  `market_cap == price * shares` holds exactly, and NaN, rounding and the
  int-versus-float type of a clamped price are not modelled.
- Dict identity: rows are values, not shared objects. The `list.index` lookup
  in `simulate_market_day` is kept, and `Simulation.UpdateFirstEqualRow`
  proves that it updates the same table as updating the visited row.
- `Market.HypeDrivenStockSimulator.EditName`: this and the other four edit
  methods require the selection to be absent or in range. The source can
  keep a stale index after "New File" empties the table, or after a
  "Load File" with fewer rows, and the next edit
  then raises `IndexError`; that crash is not modelled. A missing
  selection, the source's `hasattr` check, is modelled as a no-op.
