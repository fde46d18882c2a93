/**
 The expiration payoff of a book: option legs plus shares of the underlying.

 Prices, strikes and costs are `real`; quantities are whole contracts or shares. The functions
 here say what a book is worth at a price; the methods are the loops that compute it.
 */
module PayoffModel {
  import opened Prelude

  datatype Right = Call | Put

  /** One option leg: `qty` is signed (+long / -short) and `avgCost` is the premium per share. */
  datatype Leg = Leg(strike: real, right: Right, qty: int, avgCost: real, expiry: Option<nat>)

  /** A book of one underlying. `shareCost` is the average cost of the shares, when known. */
  datatype Book = Book(legs: seq<Leg>, shares: int, shareCost: Option<real>)

  /** Assumed of the legs: the strike parser of fills drops any other strike, the position reader does not. */
  ghost predicate PositiveStrikes(legs: seq<Leg>) {
    forall i :: 0 <= i < |legs| ==> legs[i].strike > 0.0
  }

  function Max(a: real, b: real): real {
    if a >= b then a else b
  }

  function Intrinsic(leg: Leg, price: real): real {
    if leg.right.Call? then Max(price - leg.strike, 0.0) else Max(leg.strike - price, 0.0)
  }

  /** Signed value of a leg at expiration: intrinsic less premium, per share, times signed shares. */
  function LegPayoff(leg: Leg, price: real): real {
    (Intrinsic(leg, price) - leg.avgCost) * (100 * leg.qty) as real
  }

  function OptionsPayoff(legs: seq<Leg>, price: real): real {
    if legs == [] then 0.0
    else OptionsPayoff(legs[..|legs| - 1], price) + LegPayoff(legs[|legs| - 1], price)
  }

  /** Shares that enter the payoff: none when there are none, or when their cost is unknown. */
  function PricedShares(book: Book): int {
    if book.shares <= 0 || book.shareCost.None? then 0 else book.shares
  }

  function StockPayoff(book: Book, price: real): real {
    if book.shares <= 0 || book.shareCost.None? then 0.0
    else (price - book.shareCost.value) * book.shares as real
  }

  function Payoff(book: Book, price: real): real {
    OptionsPayoff(book.legs, price) + StockPayoff(book, price)
  }

  /** Shares sold through short calls (a positive number). */
  function ShortCallShares(legs: seq<Leg>): nat {
    if legs == [] then 0
    else
      var p := legs[|legs| - 1];
      ShortCallShares(legs[..|legs| - 1]) + if p.right.Call? && p.qty < 0 then -p.qty * 100 else 0
  }

  function LongCallShares(legs: seq<Leg>): nat {
    if legs == [] then 0
    else
      var p := legs[|legs| - 1];
      LongCallShares(legs[..|legs| - 1]) + if p.right.Call? && p.qty > 0 then p.qty * 100 else 0
  }

  /** What one more leg adds. */
  lemma OneMoreLeg(legs: seq<Leg>, p: Leg, price: real)
    ensures OptionsPayoff(legs + [p], price) == OptionsPayoff(legs, price) + LegPayoff(p, price)
    ensures ShortCallShares(legs + [p]) == ShortCallShares(legs) + if p.right.Call? && p.qty < 0 then -p.qty * 100 else 0
    ensures LongCallShares(legs + [p]) == LongCallShares(legs) + if p.right.Call? && p.qty > 0 then p.qty * 100 else 0
  {
    assert (legs + [p])[..|legs|] == legs;
  }

  lemma OneLeg(p: Leg, price: real)
    ensures OptionsPayoff([p], price) == LegPayoff(p, price)
    ensures ShortCallShares([p]) == if p.right.Call? && p.qty < 0 then -p.qty * 100 else 0
    ensures LongCallShares([p]) == if p.right.Call? && p.qty > 0 then p.qty * 100 else 0
  {
    assert [] + [p] == [p];
    OneMoreLeg([], p, price);
  }

  /** Shares gained per unit of price once every strike is passed. */
  function TailSlope(book: Book): int {
    LongCallShares(book.legs) - ShortCallShares(book.legs) + PricedShares(book)
  }

  /** The loop of `payoff_options_at_price`, with its two branches on the sign of the quantity. */
  method PayoffOptionsAtPrice(legs: seq<Leg>, price: real) returns (total: real)
    ensures total == OptionsPayoff(legs, price)
  {
    total := 0.0;
    for i := 0 to |legs|
      invariant total == OptionsPayoff(legs[..i], price)
    {
      var p := legs[i];
      var intrinsic := if p.right.Call? then Max(price - p.strike, 0.0) else Max(p.strike - price, 0.0);
      var absQty := if p.qty >= 0 then p.qty else -p.qty;
      if p.qty > 0 {
        total := total + (intrinsic - p.avgCost) * absQty as real * 100.0;
      } else {
        total := total + (p.avgCost - intrinsic) * absQty as real * 100.0;
      }
      assert legs[..i + 1][..i] == legs[..i];
      SignedForm(intrinsic - p.avgCost, p.qty);
    }
    assert legs[..|legs|] == legs;
  }

  lemma SignedForm(perShare: real, qty: int)
    ensures qty > 0 ==> perShare * qty as real * 100.0 == perShare * (100 * qty) as real
    ensures qty <= 0 ==> -perShare * (-qty) as real * 100.0 == perShare * (100 * qty) as real
  {
    assert (100 * qty) as real == 100.0 * qty as real;
  }
}
