/**
 * `sort_by_price_desc`: a stable sort by descending price followed by
 * assigning ranks 1..N in the new order.
 */
module Ranking {
  import opened Stocks

  /** Prices never increase from a row to any later row. */
  predicate SortedDesc(s: seq<Stock>) {
    forall i, j :: 0 <= i < j < |s| ==> s[i].price >= s[j].price
  }

  /** Row i carries rank i + 1. */
  predicate RanksContiguous(s: seq<Stock>) {
    forall i :: 0 <= i < |s| ==> s[i].rank == i + 1
  }

  /** The state `sort_by_price_desc` leaves a table in. */
  predicate Ordered(s: seq<Stock>) {
    SortedDesc(s) && RanksContiguous(s)
  }

  /** The rows of `s` whose price is `p`, in their order in `s`. */
  function Filter(s: seq<Stock>, p: real): seq<Stock> {
    if s == [] then []
    else (if s[0].price == p then [s[0]] else []) + Filter(s[1..], p)
  }

  /** `a` and `b` hold the same rows of each price, in the same relative order. */
  ghost predicate AgreeByPrice(a: seq<Stock>, b: seq<Stock>) {
    forall p :: Filter(a, p) == Filter(b, p)
  }

  /** `f` applied to every row. */
  function Project<U>(s: seq<Stock>, f: Stock -> U): seq<U> {
    seq(|s|, i requires 0 <= i < |s| => f(s[i]))
  }

  function Id(x: Stock): Stock { x }

  /** A row with its rank blanked: what a re-sort may not change. */
  function Unranked(x: Stock): Stock { x.(rank := 0) }

  /**
   * Places `x` in front of the first row whose price is at most its own, so
   * rows already in `t` with the same price stay after it.
   */
  function Insert(x: Stock, t: seq<Stock>): (r: seq<Stock>)
    ensures |r| == |t| + 1
    ensures r[0] == x || (t != [] && r[0] == t[0])
  {
    if t == [] || t[0].price <= x.price then [x] + t
    else [t[0]] + Insert(x, t[1..])
  }

  /** Python's `list.sort(key=price, reverse=True)`: stable, descending. */
  function SortDesc(s: seq<Stock>): (r: seq<Stock>)
    ensures |r| == |s|
  {
    if s == [] then [] else Insert(s[0], SortDesc(s[1..]))
  }

  /** The rank loop of `sort_by_price_desc`: row i gets rank i + 1 and nothing else changes. */
  function Ranked(s: seq<Stock>): (r: seq<Stock>)
    ensures |r| == |s| && RanksContiguous(r)
    ensures forall i :: 0 <= i < |s| ==> r[i].(rank := s[i].rank) == s[i]
  {
    seq(|s|, i requires 0 <= i < |s| => s[i].(rank := i + 1))
  }

  /** The whole of `sort_by_price_desc`. */
  function Resort(s: seq<Stock>): (r: seq<Stock>)
    ensures |r| == |s| && RanksContiguous(r)
  {
    Ranked(SortDesc(s))
  }

  lemma {:induction false} InsertProject<U>(x: Stock, t: seq<Stock>, f: Stock -> U)
    ensures multiset(Project(Insert(x, t), f)) == multiset{f(x)} + multiset(Project(t, f))
  {
    if t == [] || t[0].price <= x.price {
      assert Project([x] + t, f) == [f(x)] + Project(t, f);
    } else {
      InsertProject(x, t[1..], f);
      assert Project([t[0]] + Insert(x, t[1..]), f) == [f(t[0])] + Project(Insert(x, t[1..]), f);
      assert Project(t, f) == [f(t[0])] + Project(t[1..], f);
    }
  }

  /** Sorting permutes the rows, so it permutes any per-row view of them. */
  lemma {:induction false} SortProject<U>(s: seq<Stock>, f: Stock -> U)
    ensures multiset(Project(SortDesc(s), f)) == multiset(Project(s, f))
  {
    if s != [] {
      SortProject(s[1..], f);
      InsertProject(s[0], SortDesc(s[1..]), f);
      assert Project(s, f) == [f(s[0])] + Project(s[1..], f);
    }
  }

  /** The sorted table is a permutation of the original. */
  lemma SortPermutation(s: seq<Stock>)
    ensures multiset(SortDesc(s)) == multiset(s)
  {
    SortProject(s, Id);
    assert Project(SortDesc(s), Id) == SortDesc(s);
    assert Project(s, Id) == s;
  }

  lemma {:induction false} InsertSorted(x: Stock, t: seq<Stock>)
    requires SortedDesc(t)
    ensures SortedDesc(Insert(x, t))
  {
    if t != [] && t[0].price > x.price {
      InsertSorted(x, t[1..]);
      var u := Insert(x, t[1..]);
      assert t[0].price >= u[0].price;
      assert Insert(x, t) == [t[0]] + u;
      forall i, j | 0 <= i < j < |u| + 1
        ensures ([t[0]] + u)[i].price >= ([t[0]] + u)[j].price
      {
        if i == 0 {
          assert u[0].price >= u[j - 1].price;
        }
      }
    }
  }

  /** The sorted table's prices never increase. */
  lemma {:induction false} SortSorted(s: seq<Stock>)
    ensures SortedDesc(SortDesc(s))
  {
    if s != [] {
      SortSorted(s[1..]);
      InsertSorted(s[0], SortDesc(s[1..]));
    }
  }

  lemma {:induction false} InsertFilter(x: Stock, t: seq<Stock>, p: real)
    ensures Filter(Insert(x, t), p) == (if x.price == p then [x] else []) + Filter(t, p)
  {
    if t == [] || t[0].price <= x.price {
      assert ([x] + t)[1..] == t;
    } else {
      InsertFilter(x, t[1..], p);
      assert ([t[0]] + Insert(x, t[1..]))[1..] == Insert(x, t[1..]);
    }
  }

  /** Stability: rows of equal price keep their original relative order. */
  lemma {:induction false} SortStable(s: seq<Stock>, p: real)
    ensures Filter(SortDesc(s), p) == Filter(s, p)
  {
    if s != [] {
      SortStable(s[1..], p);
      InsertFilter(s[0], SortDesc(s[1..]), p);
    }
  }

  lemma {:induction false} FilterElements(s: seq<Stock>, p: real)
    ensures forall y :: y in Filter(s, p) ==> y in s && y.price == p
  {
    if s != [] {
      FilterElements(s[1..], p);
    }
  }

  /** The row heading a table is the first row of its price. */
  lemma FilterHead(s: seq<Stock>)
    requires s != []
    ensures Filter(s, s[0].price) != [] && Filter(s, s[0].price)[0] == s[0]
  {
  }

  /** In a table sorted by descending price, no row's price exceeds the first row's. */
  lemma {:induction false} PriceAtMostHead(s: seq<Stock>, p: real)
    requires SortedDesc(s) && Filter(s, p) != []
    ensures s != [] && p <= s[0].price
  {
    FilterElements(s, p);
    var y := Filter(s, p)[0];
    assert y in Filter(s, p);
    var j :| 0 <= j < |s| && s[j] == y;
    assert j == 0 || s[0].price >= s[j].price;
  }

  /** Two sorted tables that agree price by price start with the same row. */
  lemma SortedHeadsAgree(a: seq<Stock>, b: seq<Stock>)
    requires SortedDesc(a) && SortedDesc(b) && a != [] && b != []
    requires AgreeByPrice(a, b)
    ensures a[0] == b[0]
  {
    FilterHead(a);
    FilterHead(b);
    PriceAtMostHead(a, b[0].price);
    PriceAtMostHead(b, a[0].price);
    assert Filter(a, a[0].price) == Filter(b, a[0].price);
  }

  /** Dropping the same first row from two tables keeps them agreeing price by price. */
  lemma FilterTails(a: seq<Stock>, b: seq<Stock>)
    requires a != [] && b != [] && a[0] == b[0]
    requires AgreeByPrice(a, b)
    ensures AgreeByPrice(a[1..], b[1..])
  {
    forall p ensures Filter(a[1..], p) == Filter(b[1..], p) {
      var head := if a[0].price == p then [a[0]] else [];
      assert Filter(a, p) == head + Filter(a[1..], p);
      assert Filter(b, p) == head + Filter(b[1..], p);
      assert Filter(a[1..], p) == Filter(a, p)[|head|..];
      assert Filter(b[1..], p) == Filter(b, p)[|head|..];
    }
  }

  /**
   * Two tables sorted by descending price that agree, price by price, on
   * the order of their rows are the same table.
   */
  lemma {:induction false} SortedUnique(a: seq<Stock>, b: seq<Stock>)
    requires SortedDesc(a) && SortedDesc(b)
    requires AgreeByPrice(a, b)
    ensures a == b
    decreases |a|
  {
    if a == [] {
      if b != [] {
        FilterHead(b);
      }
    } else if b == [] {
      FilterHead(a);
    } else {
      SortedHeadsAgree(a, b);
      FilterTails(a, b);
      SortedUnique(a[1..], b[1..]);
      assert a == [a[0]] + a[1..];
      assert b == [b[0]] + b[1..];
    }
  }

  /**
   * `SortDesc(s)` is exactly the table that is sorted by descending price
   * and keeps the relative order of equal-priced rows of `s`.
   */
  lemma SortCharacterised(s: seq<Stock>, t: seq<Stock>)
    ensures t == SortDesc(s) <==> SortedDesc(t) && AgreeByPrice(t, s)
  {
    SortSorted(s);
    forall p ensures Filter(SortDesc(s), p) == Filter(s, p) {
      SortStable(s, p);
    }
    if SortedDesc(t) && AgreeByPrice(t, s) {
      forall p ensures Filter(t, p) == Filter(SortDesc(s), p) {
        assert Filter(t, p) == Filter(s, p);
      }
      SortedUnique(t, SortDesc(s));
    }
  }

  /** Sorting an already sorted table changes nothing. */
  lemma SortedIsFixpoint(s: seq<Stock>)
    requires SortedDesc(s)
    ensures SortDesc(s) == s
  {
    SortCharacterised(s, s);
  }

  /**
   * After a re-sort the table is sorted with ranks 1..N, and it holds the
   * same rows as before up to their ranks.
   */
  lemma ResortSpec(s: seq<Stock>)
    ensures |Resort(s)| == |s|
    ensures Ordered(Resort(s))
    ensures multiset(Project(Resort(s), Unranked)) == multiset(Project(s, Unranked))
  {
    SortSorted(s);
    SortProject(s, Unranked);
    forall i | 0 <= i < |s| ensures Unranked(Resort(s)[i]) == Unranked(SortDesc(s)[i]) {
    }
    assert Project(Resort(s), Unranked) == Project(SortDesc(s), Unranked);
  }

  /** Each row of a re-sorted table is a row of the original with a new rank. */
  lemma ResortRowOrigin(s: seq<Stock>, i: nat) returns (j: nat)
    requires i < |s|
    ensures j < |s| && Resort(s)[i] == s[j].(rank := i + 1)
  {
    SortPermutation(s);
    var y := SortDesc(s)[i];
    assert y in multiset(SortDesc(s));
    j :| 0 <= j < |s| && s[j] == y;
  }

  /** Re-sorting an ordered table (a saved table loaded back) gives it back unchanged. */
  lemma OrderedIsFixpoint(s: seq<Stock>)
    requires Ordered(s)
    ensures Resort(s) == s
  {
    SortedIsFixpoint(s);
  }

  /** Re-sorting twice is the same as re-sorting once. */
  lemma ResortIdempotent(s: seq<Stock>)
    ensures Resort(Resort(s)) == Resort(s)
  {
    ResortSpec(s);
    OrderedIsFixpoint(Resort(s));
  }
}
