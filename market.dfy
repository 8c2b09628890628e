/**
 * The record table of `HypeDrivenStockSimulator`, without its widgets.
 * Dialog answers, the right-clicked row and the random draws are
 * parameters; every command leaves `data` equal to the corresponding
 * function of the modules Ranking, Simulation and Edits.
 */
module Market {
  import opened Options
  import opened Stocks
  import opened Ranking
  import opened Simulation
  import opened Edits

  class HypeDrivenStockSimulator {
    /** The table, in display order. */
    var data: seq<Stock>
    /** The row last right-clicked, if any (the source's `selected_item`). */
    var selected: Option<nat>

    /** The table-wide invariant every command keeps: ranks are 1..N in display order. */
    predicate Valid()
      reads this
    {
      RanksContiguous(data)
    }

    /** The selection, if any, names an existing row. */
    predicate SelectionInRange()
      reads this
    {
      selected.Some? ==> selected.value < |data|
    }

    /** The window opens on the sample row, sorted, with nothing selected. */
    constructor ()
      ensures data == [Sample] && Ordered(data)
      ensures selected == None
      ensures Valid()
    {
      data := [Sample];
      selected := None;
      new;
      SortByPriceDesc();
      assert SortDesc([Sample]) == [Sample];
    }

    /** Stable sort by descending price, then ranks 1..N in the new order. */
    method SortByPriceDesc()
      modifies this`data
      ensures data == Resort(old(data))
      ensures Ordered(data) && Valid()
      ensures multiset(Project(data, Unranked)) == multiset(Project(old(data), Unranked))
    {
      ResortSpec(data);
      data := SortDesc(data);
      ghost var sorted := data;
      var i := 0;
      while i < |data|
        invariant 0 <= i <= |data| == |sorted|
        invariant forall j :: 0 <= j < i ==> data[j] == sorted[j].(rank := j + 1)
        invariant forall j :: i <= j < |data| ==> data[j] == sorted[j]
      {
        data := data[i := data[i].(rank := i + 1)];
        i := i + 1;
      }
      assert data == Ranked(sorted);
    }

    /** Recompute one row's market cap; nothing else changes. */
    method UpdateMarketCap(index: nat)
      requires Valid() && index < |data|
      modifies this`data
      ensures data == old(data)[index := WithMarketCap(old(data)[index])]
      ensures CapConsistent(data[index])
      ensures Valid()
    {
      var row := data[index];
      data := data[index := row.(marketCap := row.price * row.shares as real)];
      assert data[index] == WithMarketCap(row);
    }

    /** A right-click on a row selects it; a click outside any row changes nothing. */
    method ShowContextMenu(row: Option<nat>)
      requires Valid() && (row.Some? ==> row.value < |data|)
      modifies this`selected
      ensures selected == if row.Some? then row else old(selected)
      ensures Valid()
    {
      if row.Some? {
        selected := row;
      }
    }

    /** "Edit Name" on the selected row; an empty answer counts as a cancel. */
    method EditName(answer: Option<string>)
      requires Valid() && SelectionInRange()
      modifies this`data
      ensures data == if selected.Some? then Edits.EditName(old(data), selected.value, answer) else old(data)
      ensures Valid() && SelectionInRange()
    {
      if selected.Some? {
        var index := selected.value;
        EditsKeepPlaces(data, index, answer, None, None, None, None);
        if answer.Some? && answer.value != "" {
          data := data[index := data[index].(name := answer.value)];
        }
      }
    }

    /** "Edit Promo" on the selected row; the empty text is a valid answer. */
    method EditPromo(answer: Option<string>)
      requires Valid() && SelectionInRange()
      modifies this`data
      ensures data == if selected.Some? then Edits.EditPromo(old(data), selected.value, answer) else old(data)
      ensures Valid() && SelectionInRange()
    {
      if selected.Some? {
        var index := selected.value;
        EditsKeepPlaces(data, index, None, answer, None, None, None);
        if answer.Some? {
          data := data[index := data[index].(promo := answer.value)];
          data := data[index := data[index].(weight := |answer.value|)];
        }
      }
    }

    /** "Edit Price" on the selected row; the table is not re-sorted. */
    method EditPrice(answer: Option<real>)
      requires Valid() && SelectionInRange()
      modifies this`data
      ensures data == if selected.Some? then Edits.EditPrice(old(data), selected.value, answer) else old(data)
      ensures Valid() && SelectionInRange()
    {
      if selected.Some? {
        var index := selected.value;
        EditsKeepPlaces(data, index, None, None, answer, None, None);
        if answer.Some? {
          data := data[index := data[index].(price := answer.value)];
          UpdateMarketCap(index);
        }
      }
    }

    /** "Edit Shares" on the selected row; the table is not re-sorted. */
    method EditShares(answer: Option<int>)
      requires Valid() && SelectionInRange()
      modifies this`data
      ensures data == if selected.Some? then Edits.EditShares(old(data), selected.value, answer) else old(data)
      ensures Valid() && SelectionInRange()
    {
      if selected.Some? {
        var index := selected.value;
        EditsKeepPlaces(data, index, None, None, None, answer, None);
        if answer.Some? {
          data := data[index := data[index].(shares := answer.value)];
          UpdateMarketCap(index);
        }
      }
    }

    /** "Edit Hype Score" on the selected row. */
    method EditHypeScore(answer: Option<int>)
      requires Valid() && SelectionInRange()
      modifies this`data
      ensures data == if selected.Some? then Edits.EditHype(old(data), selected.value, answer) else old(data)
      ensures Valid() && SelectionInRange()
    {
      if selected.Some? {
        var index := selected.value;
        EditsKeepPlaces(data, index, None, None, None, None, answer);
        if answer.Some? {
          data := data[index := data[index].(hypeScore := answer.value)];
        }
      }
    }

    /**
     * One market day. `draws[i]` is the `random.random()` value behind the
     * `random.uniform` call made for the row at position i.
     */
    method SimulateMarketDay(draws: seq<real>)
      requires Valid() && |draws| == |data| && AreDraws(draws)
      modifies this`data
      ensures data == MarketDay(old(data), draws)
      ensures Ordered(data) && CapsConsistent(data) && Valid()
      ensures forall i :: 0 <= i < |data| ==> data[i].price >= 0.0
    {
      ghost var before := data;
      var i := 0;
      while i < |data|
        invariant 0 <= i <= |data| == |draws| == |before|
        invariant forall j :: 0 <= j < i ==> data[j] == DayRow(before[j], draws[j])
        invariant forall j :: i <= j < |data| ==> data[j] == before[j]
        invariant Valid()
      {
        var row := data[i];
        var hype := row.hypeScore;
        var changePct;
        if hype < 30 {
          changePct := Uniform(-1.0, 1.0, draws[i]);
        } else if hype <= 70 {
          changePct := Uniform(6.0, 30.0, draws[i]);
        } else {
          changePct := Uniform(-30.0, -10.0, draws[i]);
        }
        var price := row.price * (1.0 + changePct / 100.0);
        if price < 0.0 {
          price := 0.0;
        }
        assert row.(price := price) == before[i].(price := DayPrice(before[i].price, ChangePct(hype, draws[i])));
        data := data[i := row.(price := price)];
        UpdateFirstEqualRow(data, i);
        UpdateMarketCap(IndexOf(data, data[i]));
        i := i + 1;
      }
      assert data == Day(before, draws);
      SortByPriceDesc();
      assert data == MarketDay(before, draws);
      MarketDaySpec(before, draws);
    }

    /** With confirmation the table is emptied; the selection is left as it was. */
    method NewFile(confirmed: bool)
      requires Valid()
      modifies this`data
      ensures data == if confirmed then [] else old(data)
      ensures Valid()
    {
      if confirmed {
        data := [];
      }
    }

    /** The in-memory part of loading: the file's rows replace the table, which is then sorted. */
    method LoadFile(rows: Option<seq<Stock>>)
      requires Valid()
      modifies this`data
      ensures data == if rows.Some? then Resort(rows.value) else old(data)
      ensures rows.Some? ==> Ordered(data)
      ensures Valid()
    {
      if rows.Some? {
        data := rows.value;
        SortByPriceDesc();
      }
    }

    /** "Add New Entry" from the context menu. */
    method AddNewEntryContext()
      requires Valid()
      modifies this`data
      ensures data == AddEntry(old(data))
      ensures Ordered(data) && |data| == |old(data)| + 1 && Valid()
    {
      var newEntry := Stock(|data| + 1, "New Stock", "", 0, 100.0, 1000000, 100000000.0, 50);
      data := data + [newEntry];
      SortByPriceDesc();
    }

    /** The "New Entry" button: the same as the context-menu command. */
    method AddNewEntryButton()
      requires Valid()
      modifies this`data
      ensures data == AddEntry(old(data))
      ensures Ordered(data) && |data| == |old(data)| + 1 && Valid()
    {
      var newEntry := Stock(|data| + 1, "New Stock", "", 0, 100.0, 1000000, 100000000.0, 50);
      data := data + [newEntry];
      SortByPriceDesc();
    }
  }
}
