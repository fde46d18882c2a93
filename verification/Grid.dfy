/**
 The finite price grid: zero, every distinct strike in increasing order, and twice the top strike.
 */
module Grid {
  import opened PayoffModel
  import opened PiecewiseLinear

  datatype GridRow = GridRow(price: real, optionsPnl: real, stockPnl: real, total: real)

  ghost predicate Increasing(s: seq<real>) {
    forall i, j :: 0 <= i < j < |s| ==> s[i] < s[j]
  }

  function InsertDistinct(s: seq<real>, x: real): (r: seq<real>)
    requires Increasing(s)
    ensures Increasing(r)
    ensures forall y :: y in r <==> y == x || y in s
  {
    if s == [] then [x]
    else if x < s[0] then [x] + s
    else if x == s[0] then s
    else
      var rest := InsertDistinct(s[1..], x);
      assert s == [s[0]] + s[1..];
      assert forall y :: y in s[1..] ==> s[0] < y;
      assert forall i :: 0 <= i < |rest| ==> rest[i] in rest;
      [s[0]] + rest
  }

  ghost predicate HasStrike(legs: seq<Leg>, y: real) {
    exists i :: 0 <= i < |legs| && legs[i].strike == y
  }

  lemma HasStrikeSplit(legs: seq<Leg>, y: real)
    requires legs != []
    ensures HasStrike(legs, y) <==> y == legs[|legs| - 1].strike || HasStrike(legs[..|legs| - 1], y)
  {
    var n := |legs| - 1;
    if i :| 0 <= i < |legs| && legs[i].strike == y {
      assert i == n || legs[..n][i].strike == y;
    }
    if HasStrike(legs[..n], y) {
      var i :| 0 <= i < n && legs[..n][i].strike == y;
      assert legs[i].strike == y;
    }
  }

  /** The distinct strikes of the legs, sorted. */
  function DistinctStrikes(legs: seq<Leg>): (r: seq<real>)
    ensures Increasing(r)
    ensures forall y :: y in r <==> HasStrike(legs, y)
  {
    if legs == [] then []
    else
      var n := |legs| - 1;
      var rest := DistinctStrikes(legs[..n]);
      assert forall y :: HasStrike(legs, y) <==> y == legs[n].strike || HasStrike(legs[..n], y) by {
        forall y ensures HasStrike(legs, y) <==> y == legs[n].strike || HasStrike(legs[..n], y) {
          HasStrikeSplit(legs, y);
        }
      }
      InsertDistinct(rest, legs[n].strike)
  }

  function GridPrices(legs: seq<Leg>): seq<real> {
    var strikes := DistinctStrikes(legs);
    [0.0] + strikes + if strikes == [] then [] else [strikes[|strikes| - 1] * 2.0]
  }

  function Last(s: seq<real>): real
    requires s != []
  {
    s[|s| - 1]
  }

  function RowAt(book: Book, price: real): GridRow {
    GridRow(price, OptionsPayoff(book.legs, price), StockPayoff(book, price), Payoff(book, price))
  }

  /** The rows of the grid: none for a book with nothing in it, else one per grid price, in order. */
  method GetRiskGridRows(book: Book) returns (rows: seq<GridRow>)
    ensures book.legs == [] && book.shares <= 0 ==> rows == []
    ensures book.legs != [] || book.shares > 0 ==>
              && |rows| == |GridPrices(book.legs)|
              && forall i :: 0 <= i < |rows| ==> rows[i] == RowAt(book, GridPrices(book.legs)[i])
  {
    rows := [];
    if book.legs == [] && book.shares <= 0 {
      return;
    }
    var points := GridPrices(book.legs);
    for i := 0 to |points|
      invariant |rows| == i
      invariant forall k :: 0 <= k < i ==> rows[k] == RowAt(book, points[k])
    {
      var opt := PayoffOptionsAtPrice(book.legs, points[i]);
      var stk := StockPayoff(book, points[i]);
      rows := rows + [GridRow(points[i], opt, stk, opt + stk)];
    }
  }

  /** The grid starts at zero, strictly increases, and holds every strike and nothing past the last point. */
  lemma GridShape(legs: seq<Leg>)
    requires PositiveStrikes(legs)
    ensures var g := GridPrices(legs);
            g != [] && g[0] == 0.0 && Increasing(g) && StrikesUpTo(legs, Last(g))
    ensures forall i :: 0 <= i < |legs| ==> legs[i].strike in GridPrices(legs)
    ensures legs != [] ==> |GridPrices(legs)| >= 3 && Last(GridPrices(legs)) > 0.0
  {
    var s := DistinctStrikes(legs);
    var g := GridPrices(legs);
    assert forall k :: 0 <= k < |s| ==> s[k] in s && HasStrike(legs, s[k]);
    forall i | 0 <= i < |legs|
      ensures legs[i].strike in s
    {
      assert HasStrike(legs, legs[i].strike);
    }
    if legs != [] {
      assert legs[0].strike in s;
      var top := s[|s| - 1];
      assert forall k :: 0 <= k < |s| ==> s[k] <= top;
      assert Last(g) == top * 2.0;
    }
  }

  /** No strike is above `top`, which is one. */
  ghost predicate IsTopStrike(legs: seq<Leg>, top: real) {
    HasStrike(legs, top) && StrikesUpTo(legs, top)
  }

  /** The last distinct strike is the top one. */
  lemma LastIsTop(legs: seq<Leg>, top: real)
    requires DistinctStrikes(legs) != []
    ensures IsTopStrike(legs, top) <==> top == Last(DistinctStrikes(legs))
  {
    var s := DistinctStrikes(legs);
    var last := Last(s);
    assert last in s && HasStrike(legs, last);
    forall i | 0 <= i < |legs|
      ensures legs[i].strike <= last
    {
      assert HasStrike(legs, legs[i].strike);
      var k :| 0 <= k < |s| && s[k] == legs[i].strike;
    }
    if IsTopStrike(legs, top) {
      assert top in s;
      var i :| 0 <= i < |legs| && legs[i].strike == last;
    }
  }

  /** The grid holds zero, the strikes and twice the top strike, and nothing else. */
  lemma GridMembers(legs: seq<Leg>, p: real)
    ensures p in GridPrices(legs) <==> p == 0.0 || HasStrike(legs, p) || exists top :: IsTopStrike(legs, top) && p == 2.0 * top
  {
    var s := DistinctStrikes(legs);
    if s == [] {
      assert GridPrices(legs) == [0.0];
      forall top
        ensures !HasStrike(legs, top)
      {
        assert top !in s;
      }
    } else {
      LastIsTop(legs, Last(s));
      assert GridPrices(legs) == [0.0] + s + [Last(s) * 2.0];
      if top :| IsTopStrike(legs, top) && p == 2.0 * top {
        LastIsTop(legs, top);
      }
    }
  }

  /** Two neighbouring grid points have no strike strictly between them. */
  lemma NeighboursAreKinkFree(legs: seq<Leg>, i: nat)
    requires PositiveStrikes(legs) && i + 1 < |GridPrices(legs)|
    ensures NoStrikeBetween(legs, GridPrices(legs)[i], GridPrices(legs)[i + 1])
  {
    GridShape(legs);
    var g := GridPrices(legs);
    forall k | 0 <= k < |legs|
      ensures !(g[i] < legs[k].strike < g[i + 1])
    {
      assert legs[k].strike in g;
      var j :| 0 <= j < |g| && g[j] == legs[k].strike;
      assert j <= i || j >= i + 1;
    }
  }

  /** Every price below the last grid point lies in one segment of the grid. */
  lemma Locate(g: seq<real>, x: real) returns (i: nat)
    requires g != [] && g[0] <= x < Last(g)
    ensures i + 1 < |g| && g[i] <= x < g[i + 1]
  {
    i := 0;
    while g[i + 1] <= x
      invariant i + 1 < |g| && g[i] <= x
      decreases |g| - i
    {
      i := i + 1;
    }
  }

  /** `price` is where the payoff is least over every price from zero upward. */
  ghost predicate IsGlobalMin(book: Book, price: real) {
    price >= 0.0 && forall x: real :: x >= 0.0 ==> Payoff(book, x) >= Payoff(book, price)
  }

  ghost predicate IsGlobalMax(book: Book, price: real) {
    price >= 0.0 && forall x: real :: x >= 0.0 ==> Payoff(book, x) <= Payoff(book, price)
  }

  ghost predicate IsGridMin(book: Book, price: real) {
    price in GridPrices(book.legs) && forall g :: g in GridPrices(book.legs) ==> Payoff(book, price) <= Payoff(book, g)
  }

  ghost predicate IsGridMax(book: Book, price: real) {
    price in GridPrices(book.legs) && forall g :: g in GridPrices(book.legs) ==> Payoff(book, price) >= Payoff(book, g)
  }

  /** No price beats the grid on the side where the tail does not. */
  lemma GridDominates(book: Book, x: real)
    requires PositiveStrikes(book.legs) && x >= 0.0
    ensures TailSlope(book) >= 0 ==> exists g :: g in GridPrices(book.legs) && Payoff(book, x) >= Payoff(book, g)
    ensures TailSlope(book) <= 0 ==> exists g :: g in GridPrices(book.legs) && Payoff(book, x) <= Payoff(book, g)
  {
    GridShape(book.legs);
    var g := GridPrices(book.legs);
    if x >= Last(g) {
      PayoffTail(book, Last(g), x);
      LineMonotone(Payoff(book, Last(g)), TailSlope(book), 0.0, x - Last(g));
      assert Last(g) in g;
    } else {
      var i := Locate(g, x);
      NeighboursAreKinkFree(book.legs, i);
      SegmentBounds(book, g[i], g[i + 1], x);
      assert g[i] in g && g[i + 1] in g;
    }
  }

  /** The grid minimum is the minimum over all prices exactly when the tail does not fall. */
  lemma GridMinIsGlobal(book: Book, price: real)
    requires PositiveStrikes(book.legs) && IsGridMin(book, price)
    ensures IsGlobalMin(book, price) <==> TailSlope(book) >= 0
  {
    GridShape(book.legs);
    GridNonNegative(book.legs, price);
    if TailSlope(book) >= 0 {
      forall x: real | x >= 0.0
        ensures Payoff(book, x) >= Payoff(book, price)
      {
        GridDominates(book, x);
      }
    } else {
      TailUnbounded(book, Last(GridPrices(book.legs)), Payoff(book, price));
    }
  }

  /** The grid maximum is the maximum over all prices exactly when the tail does not rise. */
  lemma GridMaxIsGlobal(book: Book, price: real)
    requires PositiveStrikes(book.legs) && IsGridMax(book, price)
    ensures IsGlobalMax(book, price) <==> TailSlope(book) <= 0
  {
    GridShape(book.legs);
    GridNonNegative(book.legs, price);
    if TailSlope(book) <= 0 {
      forall x: real | x >= 0.0
        ensures Payoff(book, x) <= Payoff(book, price)
      {
        GridDominates(book, x);
      }
    } else {
      TailUnbounded(book, Last(GridPrices(book.legs)), Payoff(book, price));
    }
  }

  lemma GridNonNegative(legs: seq<Leg>, price: real)
    requires PositiveStrikes(legs) && price in GridPrices(legs)
    ensures price >= 0.0
  {
    GridShape(legs);
    var g := GridPrices(legs);
    var k :| 0 <= k < |g| && g[k] == price;
    assert k == 0 || g[0] < g[k];
  }

  lemma GridMinExists(book: Book) returns (price: real)
    requires PositiveStrikes(book.legs)
    ensures IsGridMin(book, price)
  {
    var g := GridPrices(book.legs);
    price := g[0];
    for k := 1 to |g|
      invariant price in g && forall j :: 0 <= j < k ==> Payoff(book, price) <= Payoff(book, g[j])
    {
      if Payoff(book, g[k]) < Payoff(book, price) {
        price := g[k];
      }
    }
  }

  lemma GridMaxExists(book: Book) returns (price: real)
    requires PositiveStrikes(book.legs)
    ensures IsGridMax(book, price)
  {
    var g := GridPrices(book.legs);
    price := g[0];
    for k := 1 to |g|
      invariant price in g && forall j :: 0 <= j < k ==> Payoff(book, price) >= Payoff(book, g[j])
    {
      if Payoff(book, g[k]) > Payoff(book, price) {
        price := g[k];
      }
    }
  }

  /** The loss has no bound exactly when the tail falls. */
  lemma UnboundedBelowIffTailFalls(book: Book)
    requires PositiveStrikes(book.legs)
    ensures UnboundedBelow(book) <==> TailSlope(book) < 0
  {
    GridShape(book.legs);
    if TailSlope(book) < 0 {
      forall bound: real
        ensures GoesBelow(book, bound)
      {
        TailUnbounded(book, Last(GridPrices(book.legs)), bound);
      }
    } else {
      var price := GridMinExists(book);
      GridMinIsGlobal(book, price);
      assert !GoesBelow(book, Payoff(book, price));
    }
  }

  /** The gain has no bound exactly when the tail rises. */
  lemma UnboundedAboveIffTailRises(book: Book)
    requires PositiveStrikes(book.legs)
    ensures UnboundedAbove(book) <==> TailSlope(book) > 0
  {
    GridShape(book.legs);
    if TailSlope(book) > 0 {
      forall bound: real
        ensures GoesAbove(book, bound)
      {
        TailUnbounded(book, Last(GridPrices(book.legs)), bound);
      }
    } else {
      var price := GridMaxExists(book);
      GridMaxIsGlobal(book, price);
      assert !GoesAbove(book, Payoff(book, price));
    }
  }
}
