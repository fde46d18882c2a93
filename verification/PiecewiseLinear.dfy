/**
 The payoff of a book is piecewise linear in the price, with its kinks at the strikes.

 The result used everywhere else is `PayoffAffine`: between two prices with no strike strictly
 between them the payoff moves by a fixed slope, the slope at the lower one.
 */
module PiecewiseLinear {
  import opened Prelude
  import opened PayoffModel

  /** Slope of a leg's payoff immediately above `price`. */
  function LegSlope(leg: Leg, price: real): int {
    if leg.right.Call? then
      if leg.strike <= price then 100 * leg.qty else 0
    else
      if price < leg.strike then -100 * leg.qty else 0
  }

  function OptionsSlope(legs: seq<Leg>, price: real): int {
    if legs == [] then 0
    else OptionsSlope(legs[..|legs| - 1], price) + LegSlope(legs[|legs| - 1], price)
  }

  function Slope(book: Book, price: real): int {
    OptionsSlope(book.legs, price) + PricedShares(book)
  }

  ghost predicate NoStrikeBetween(legs: seq<Leg>, a: real, b: real) {
    forall i :: 0 <= i < |legs| ==> !(a < legs[i].strike < b)
  }

  ghost predicate StrikesUpTo(legs: seq<Leg>, top: real) {
    forall i :: 0 <= i < |legs| ==> legs[i].strike <= top
  }

  /** The value `d` to the right of a point of height `start`, on a line of slope `m`. */
  function Line(start: real, m: int, d: real): real {
    start + m as real * d
  }

  lemma LineSum(f: real, m: int, g: real, n: int, d: real)
    ensures Line(f, m, d) + Line(g, n, d) == Line(f + g, m + n, d)
  {
    assert (m + n) as real == m as real + n as real;
  }

  lemma LineMonotone(start: real, m: int, u: real, v: real)
    requires 0.0 <= u <= v
    ensures m >= 0 ==> start <= Line(start, m, u) <= Line(start, m, v)
    ensures m <= 0 ==> start >= Line(start, m, u) >= Line(start, m, v)
  {
    if m >= 0 {
      assert m as real * (v - u) >= 0.0;
    } else {
      assert m as real * (v - u) <= 0.0;
    }
  }

  lemma LegAffine(leg: Leg, a: real, b: real)
    requires a <= b && !(a < leg.strike < b)
    ensures LegPayoff(leg, b) == Line(LegPayoff(leg, a), LegSlope(leg, a), b - a)
  {
    var q, c := (100 * leg.qty) as real, leg.avgCost;
    var d := Intrinsic(leg, b) - Intrinsic(leg, a);
    assert (Intrinsic(leg, b) - c) * q == (Intrinsic(leg, a) - c) * q + d * q;
    if leg.right.Call? {
      assert d == if leg.strike <= a then b - a else 0.0;
    } else {
      assert d == if a < leg.strike then -(b - a) else 0.0;
      assert -(b - a) * q == (-q) * (b - a);
      assert (-100 * leg.qty) as real == -q;
    }
  }

  lemma {:induction false} OptionsAffine(legs: seq<Leg>, a: real, b: real)
    requires a <= b && NoStrikeBetween(legs, a, b)
    ensures OptionsPayoff(legs, b) == Line(OptionsPayoff(legs, a), OptionsSlope(legs, a), b - a)
  {
    if legs != [] {
      var n := |legs| - 1;
      OptionsAffine(legs[..n], a, b);
      LegAffine(legs[n], a, b);
      LineSum(OptionsPayoff(legs[..n], a), OptionsSlope(legs[..n], a),
              LegPayoff(legs[n], a), LegSlope(legs[n], a), b - a);
    }
  }

  lemma StockAffine(book: Book, a: real, b: real)
    ensures StockPayoff(book, b) == Line(StockPayoff(book, a), PricedShares(book), b - a)
  {
  }

  /** Between neighbouring kinks the payoff is a straight line. */
  lemma PayoffAffine(book: Book, a: real, b: real)
    requires a <= b && NoStrikeBetween(book.legs, a, b)
    ensures Payoff(book, b) == Line(Payoff(book, a), Slope(book, a), b - a)
  {
    OptionsAffine(book.legs, a, b);
    StockAffine(book, a, b);
    LineSum(OptionsPayoff(book.legs, a), OptionsSlope(book.legs, a),
            StockPayoff(book, a), PricedShares(book), b - a);
  }

  /** Past the top strike the slope is long calls less short calls. */
  lemma {:induction false} OptionsTailSlope(legs: seq<Leg>, top: real)
    requires StrikesUpTo(legs, top)
    ensures OptionsSlope(legs, top) == LongCallShares(legs) - ShortCallShares(legs)
  {
    if legs != [] {
      OptionsTailSlope(legs[..|legs| - 1], top);
    }
  }

  /** The payoff above the top strike, for every price. */
  lemma PayoffTail(book: Book, top: real, price: real)
    requires StrikesUpTo(book.legs, top) && top <= price
    ensures Payoff(book, price) == Line(Payoff(book, top), TailSlope(book), price - top)
  {
    OptionsTailSlope(book.legs, top);
    PayoffAffine(book, top, price);
  }

  /** On a segment without kinks the payoff stays between its two end values. */
  lemma SegmentBounds(book: Book, a: real, b: real, x: real)
    requires a <= x <= b && NoStrikeBetween(book.legs, a, b)
    ensures Payoff(book, x) >= Payoff(book, a) || Payoff(book, x) >= Payoff(book, b)
    ensures Payoff(book, x) <= Payoff(book, a) || Payoff(book, x) <= Payoff(book, b)
  {
    PayoffAffine(book, a, b);
    PayoffAffine(book, a, x);
    LineMonotone(Payoff(book, a), Slope(book, a), x - a, b - a);
  }

  // ----- the value the line starts from -----

  /** Contracts at the strike are worth nothing, so the leg shows the premium alone: paid when long, kept
      when short. With the slope (`LegAffine`) this fixes the leg's payoff at every price. */
  lemma LegAtStrike(leg: Leg)
    ensures leg.qty >= 0 ==> LegPayoff(leg, leg.strike) == -(leg.avgCost * (leg.qty as real * 100.0))
    ensures leg.qty < 0 ==> LegPayoff(leg, leg.strike) == leg.avgCost * ((-leg.qty) as real * 100.0)
  {
    assert (100 * leg.qty) as real == leg.qty as real * 100.0;
  }

  /** Shares sold at what they cost earn nothing, however many they are. */
  lemma SharesAtCost(book: Book)
    requires PricedShares(book) > 0
    ensures book.shares > 0 && book.shareCost.Some?
    ensures StockPayoff(book, book.shareCost.value) == 0.0
    ensures Payoff(book, book.shareCost.value) == OptionsPayoff(book.legs, book.shareCost.value)
  {
  }

  /** Shares that are not there, or whose cost is not known, earn nothing at any price. */
  lemma UnpricedEarnNothing(book: Book, price: real)
    requires book.shares <= 0 || book.shareCost.None?
    ensures Payoff(book, price) == OptionsPayoff(book.legs, price)
  {
  }

  /** One more share earns the price less its cost. */
  lemma OneMoreShare(legs: seq<Leg>, n: nat, cost: real, price: real)
    ensures Payoff(Book(legs, n + 1, Some(cost)), price) == Payoff(Book(legs, n, Some(cost)), price) + price - cost
  {
    var earned := price - cost;
    assert (n + 1) as real == n as real + 1.0;
    assert earned * (n as real + 1.0) == earned * n as real + earned;
    if n == 0 {
      assert earned * n as real == 0.0;
    }
  }

  /** Two calls short at 60 for 2 against two hundred shares at 40: 7600 is lost at a price of zero. */
  lemma CoveredPairAtZero()
    ensures Payoff(Book([Leg(60.0, Call, -2, 2.0, None)], 200, Some(40.0)), 0.0) == -7600.0
  {
    var leg := Leg(60.0, Call, -2, 2.0, None);
    OneLeg(leg, 0.0);
    assert LegPayoff(leg, 0.0) == 400.0;
  }

  ghost predicate GoesBelow(book: Book, bound: real) {
    exists x: real :: x >= 0.0 && Payoff(book, x) < bound
  }

  ghost predicate GoesAbove(book: Book, bound: real) {
    exists x: real :: x >= 0.0 && Payoff(book, x) > bound
  }

  /** No price bound holds the loss. */
  ghost predicate UnboundedBelow(book: Book) {
    forall bound: real :: GoesBelow(book, bound)
  }

  ghost predicate UnboundedAbove(book: Book) {
    forall bound: real :: GoesAbove(book, bound)
  }

  /** Any line that is not flat passes any bound, far enough to the right. */
  lemma LineReaches(start: real, m: int, bound: real) returns (d: real)
    requires m != 0
    ensures d >= 0.0
    ensures m < 0 ==> Line(start, m, d) < bound
    ensures m > 0 ==> Line(start, m, d) > bound
  {
    var gap := if m < 0 then bound - start - 1.0 else bound - start + 1.0;
    if (m < 0 && gap >= 0.0) || (m > 0 && gap <= 0.0) {
      d := 0.0;
    } else {
      d := gap / m as real;
      assert m as real * d == gap;
    }
  }

  lemma TailUnbounded(book: Book, top: real, bound: real)
    requires StrikesUpTo(book.legs, top) && top >= 0.0
    ensures TailSlope(book) < 0 ==> GoesBelow(book, bound)
    ensures TailSlope(book) > 0 ==> GoesAbove(book, bound)
  {
    if TailSlope(book) != 0 {
      var d := LineReaches(Payoff(book, top), TailSlope(book), bound);
      PayoffTail(book, top, top + d);
    }
  }
}
