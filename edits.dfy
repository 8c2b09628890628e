/**
 * The context-menu commands on the selected row and "Add New Entry", as
 * functions of the table. A cancelled dialog is `None`.
 */
module Edits {
  import opened Options
  import opened Stocks
  import opened Ranking

  /** `edit_name`: only a non-empty answer is applied; only the name changes. */
  function EditName(s: seq<Stock>, i: nat, v: Option<string>): (r: seq<Stock>)
    requires i < |s|
    ensures |r| == |s| && forall j :: 0 <= j < |s| && j != i ==> r[j] == s[j]
    ensures r[i].(name := s[i].name) == s[i]
    ensures v.None? || v.value == "" ==> r == s
    ensures v.Some? && v.value != "" ==> r[i].name == v.value
  {
    if v.Some? && v.value != "" then s[i := s[i].(name := v.value)] else s
  }

  /** `edit_promo`: any answer but a cancel, the empty text included, sets promo and its weight. */
  function EditPromo(s: seq<Stock>, i: nat, v: Option<string>): (r: seq<Stock>)
    requires i < |s|
    ensures |r| == |s| && forall j :: 0 <= j < |s| && j != i ==> r[j] == s[j]
    ensures r[i].(promo := s[i].promo, weight := s[i].weight) == s[i]
    ensures v.None? ==> r == s
    ensures v.Some? ==> r[i].promo == v.value && WeightConsistent(r[i])
  {
    if v.Some? then s[i := s[i].(promo := v.value, weight := |v.value|)] else s
  }

  /** `edit_price`: any number is stored as given, negative ones too, and the market cap follows. */
  function EditPrice(s: seq<Stock>, i: nat, v: Option<real>): (r: seq<Stock>)
    requires i < |s|
    ensures |r| == |s| && forall j :: 0 <= j < |s| && j != i ==> r[j] == s[j]
    ensures r[i].(price := s[i].price, marketCap := s[i].marketCap) == s[i]
    ensures v.None? ==> r == s
    ensures v.Some? ==> r[i].price == v.value && CapConsistent(r[i])
  {
    if v.Some? then s[i := WithMarketCap(s[i].(price := v.value))] else s
  }

  /** `edit_shares`: any integer is stored as given, and the market cap follows. */
  function EditShares(s: seq<Stock>, i: nat, v: Option<int>): (r: seq<Stock>)
    requires i < |s|
    ensures |r| == |s| && forall j :: 0 <= j < |s| && j != i ==> r[j] == s[j]
    ensures r[i].(shares := s[i].shares, marketCap := s[i].marketCap) == s[i]
    ensures v.None? ==> r == s
    ensures v.Some? ==> r[i].shares == v.value && CapConsistent(r[i])
  {
    if v.Some? then s[i := WithMarketCap(s[i].(shares := v.value))] else s
  }

  /** `edit_hype_score`: any integer is stored; nothing else changes. */
  function EditHype(s: seq<Stock>, i: nat, v: Option<int>): (r: seq<Stock>)
    requires i < |s|
    ensures |r| == |s| && forall j :: 0 <= j < |s| && j != i ==> r[j] == s[j]
    ensures r[i].(hypeScore := s[i].hypeScore) == s[i]
    ensures v.None? ==> r == s
    ensures v.Some? ==> r[i].hypeScore == v.value
  {
    if v.Some? then s[i := s[i].(hypeScore := v.value)] else s
  }

  /** No row moves and no rank changes: the edits never re-sort. */
  predicate SamePlaces(s: seq<Stock>, r: seq<Stock>) {
    |r| == |s| && forall j :: 0 <= j < |s| ==> r[j].rank == s[j].rank
  }

  /** The same, and no price changes either. */
  predicate SamePlacesAndPrices(s: seq<Stock>, r: seq<Stock>) {
    SamePlaces(s, r) && forall j :: 0 <= j < |s| ==> r[j].price == s[j].price
  }

  /** Keeping places and prices keeps an ordered table ordered. */
  lemma SamePlacesAndPricesKeepOrder(s: seq<Stock>, r: seq<Stock>)
    requires SamePlacesAndPrices(s, r) && Ordered(s)
    ensures Ordered(r)
  {
    forall i, j | 0 <= i < j < |r| ensures r[i].price >= r[j].price {
      assert s[i].price >= s[j].price;
    }
  }

  /**
   * Editing name, promo, shares or hype score leaves every row where it was
   * with its rank and price, so an ordered table stays ordered.
   */
  lemma NonPriceEditsKeepOrder(s: seq<Stock>, i: nat, n: Option<string>, m: Option<string>,
                               k: Option<int>, h: Option<int>)
    requires i < |s| && Ordered(s)
    ensures SamePlacesAndPrices(s, EditName(s, i, n)) && Ordered(EditName(s, i, n))
    ensures SamePlacesAndPrices(s, EditPromo(s, i, m)) && Ordered(EditPromo(s, i, m))
    ensures SamePlacesAndPrices(s, EditShares(s, i, k)) && Ordered(EditShares(s, i, k))
    ensures SamePlacesAndPrices(s, EditHype(s, i, h)) && Ordered(EditHype(s, i, h))
  {
    SamePlacesAndPricesKeepOrder(s, EditName(s, i, n));
    SamePlacesAndPricesKeepOrder(s, EditPromo(s, i, m));
    SamePlacesAndPricesKeepOrder(s, EditShares(s, i, k));
    SamePlacesAndPricesKeepOrder(s, EditHype(s, i, h));
  }

  /**
   * No edit moves a row or changes a rank, whether or not the table is in
   * price order, so ranks 1..N stay 1..N.
   */
  lemma EditsKeepPlaces(s: seq<Stock>, i: nat, n: Option<string>, m: Option<string>,
                        p: Option<real>, k: Option<int>, h: Option<int>)
    requires i < |s|
    ensures SamePlaces(s, EditName(s, i, n)) && SamePlaces(s, EditPromo(s, i, m))
    ensures SamePlaces(s, EditPrice(s, i, p)) && SamePlaces(s, EditShares(s, i, k))
    ensures SamePlaces(s, EditHype(s, i, h))
    ensures RanksContiguous(s) ==>
              && RanksContiguous(EditName(s, i, n)) && RanksContiguous(EditPromo(s, i, m))
              && RanksContiguous(EditPrice(s, i, p)) && RanksContiguous(EditShares(s, i, k))
              && RanksContiguous(EditHype(s, i, h))
  {
  }

  /** Because a price edit does not re-sort, it can leave an ordered table out of price order. */
  lemma EditPriceCanBreakOrder()
    ensures var s := [Sample, NewEntry(1)];
            Ordered(s) && !SortedDesc(EditPrice(s, 1, Some(1000.0)))
  {
    var s := [Sample, NewEntry(1)];
    var r := EditPrice(s, 1, Some(1000.0));
    assert r[0].price < r[1].price;
  }

  /** Every edit keeps all market caps consistent; price and shares edits restore the edited row's. */
  lemma EditsKeepCapsConsistent(s: seq<Stock>, i: nat, n: Option<string>, m: Option<string>,
                                p: Option<real>, k: Option<int>, h: Option<int>)
    requires i < |s| && CapsConsistent(s)
    ensures CapsConsistent(EditName(s, i, n))
    ensures CapsConsistent(EditPromo(s, i, m))
    ensures CapsConsistent(EditPrice(s, i, p))
    ensures CapsConsistent(EditShares(s, i, k))
    ensures CapsConsistent(EditHype(s, i, h))
  {
  }

  /** "Add New Entry": append the default record and re-sort. */
  function AddEntry(s: seq<Stock>): (r: seq<Stock>)
    ensures |r| == |s| + 1 && RanksContiguous(r)
    ensures Unranked(NewEntry(|s|)) in Project(r, Unranked)
  {
    var t := s + [NewEntry(|s|)];
    ResortSpec(t);
    assert Project(t, Unranked)[|s|] == Unranked(NewEntry(|s|));
    assert Unranked(NewEntry(|s|)) in multiset(Project(t, Unranked));
    Resort(t)
  }

  /**
   * Adding an entry grows the table by exactly the default record (up to
   * its rank) and leaves it ordered.
   */
  lemma AddEntrySpec(s: seq<Stock>)
    ensures |AddEntry(s)| == |s| + 1
    ensures Ordered(AddEntry(s))
    ensures multiset(Project(AddEntry(s), Unranked)) ==
            multiset(Project(s, Unranked)) + multiset{Unranked(NewEntry(0))}
  {
    var t := s + [NewEntry(|s|)];
    ResortSpec(t);
    assert Project(t, Unranked) == Project(s, Unranked) + [Unranked(NewEntry(|s|))];
  }

  /** On an empty table the new entry is the only row, with rank 1. */
  lemma AddEntryToEmpty()
    ensures AddEntry([]) == [NewEntry(0)]
  {
    assert SortDesc([NewEntry(0)]) == [NewEntry(0)];
  }
}
