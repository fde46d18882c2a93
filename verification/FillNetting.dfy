/**
 From fills to legs: option fills are netted per (strike, right), every open key becomes one leg at
 its average cost, and the legs go through the payoff engine.

 The question is what netting does to the payoff. `NettingShiftsByConstant` answers it for every
 price: it moves the whole curve by a fixed amount, `NettingGap`, and says what that amount is.
 */
module FillNetting {
  import opened Prelude
  import opened PayoffModel
  import opened PiecewiseLinear
  import opened Rounding
  import opened Grid
  import opened Envelope
  import opened RiskProfile

  /** A fill as the netting reads it, after its text fields are parsed: `right` and `strike` are empty
      when the row does not name them. */
  datatype Fill = Fill(isOption: bool, right: Option<Right>, strike: Option<real>, isBuy: bool, quantity: real, price: real)

  datatype Key = Key(strike: real, right: Right)

  /** Running totals of one key. */
  datatype Net = Net(qty: real, cost: real)

  function AbsReal(v: real): real {
    if v >= 0.0 then v else -v
  }

  /** Fills the loop does not skip. */
  predicate Counts(f: Fill) {
    f.isOption && f.right.Some? && f.strike.Some? && AbsReal(f.quantity) > 0.0
  }

  function KeyOf(f: Fill): Key
    requires Counts(f)
  {
    Key(f.strike.value, f.right.value)
  }

  function SignedQty(f: Fill): real {
    if f.isBuy then AbsReal(f.quantity) else -AbsReal(f.quantity)
  }

  /** Cash paid (positive) or received (negative) per multiplier unit. */
  function SignedCost(f: Fill): real {
    f.price * SignedQty(f)
  }

  // ----- netting, as a specification -----

  function NetQty(fills: seq<Fill>, k: Key): real {
    if fills == [] then 0.0
    else
      var n := |fills| - 1;
      NetQty(fills[..n], k) + if Counts(fills[n]) && KeyOf(fills[n]) == k then SignedQty(fills[n]) else 0.0
  }

  function NetCost(fills: seq<Fill>, k: Key): real {
    if fills == [] then 0.0
    else
      var n := |fills| - 1;
      NetCost(fills[..n], k) + if Counts(fills[n]) && KeyOf(fills[n]) == k then SignedCost(fills[n]) else 0.0
  }

  /** Keys in order of first appearance. */
  function Keys(fills: seq<Fill>): (ks: seq<Key>)
    ensures forall i, j :: 0 <= i < j < |ks| ==> ks[i] != ks[j]
  {
    if fills == [] then []
    else
      var n := |fills| - 1;
      var rest := Keys(fills[..n]);
      if Counts(fills[n]) && KeyOf(fills[n]) !in rest then rest + [KeyOf(fills[n])] else rest
  }

  /** The leg of one key, if its rounded quantity is not zero. */
  function LegOf(k: Key, net: Net): Option<Leg> {
    var qty := RoundHalfEven(net.qty);
    if qty == 0 then None
    else
      var avg := if AbsReal(net.qty) > 0.000000001 then AbsReal(net.cost / net.qty) else 0.0;
      Some(Leg(k.strike, k.right, qty, avg, None))
  }

  function LegsOf(fills: seq<Fill>, ks: seq<Key>): seq<Leg> {
    if ks == [] then []
    else
      var n := |ks| - 1;
      var leg := LegOf(ks[n], Net(NetQty(fills, ks[n]), NetCost(fills, ks[n])));
      LegsOf(fills, ks[..n]) + if leg.Some? then [leg.value] else []
  }

  /** The netted legs of a list of fills. */
  function NettedLegs(fills: seq<Fill>): seq<Leg> {
    LegsOf(fills, Keys(fills))
  }

  // ----- the two loops -----

  ghost predicate NetsTo(net: map<Key, Net>, fills: seq<Fill>, ks: seq<Key>) {
    && (forall k :: k in net <==> k in ks)
    && (forall k :: k in net ==> net[k] == Net(NetQty(fills, k), NetCost(fills, k)))
  }

  lemma {:induction false} UnseenKeyIsZero(fills: seq<Fill>, k: Key)
    requires k !in Keys(fills)
    ensures NetQty(fills, k) == 0.0 && NetCost(fills, k) == 0.0
  {
    if fills != [] {
      UnseenKeyIsZero(fills[..|fills| - 1], k);
    }
  }

  /** The cost a fill adds: price times size, with the sign of the signed quantity. */
  function CostStep(price: real, qty: real, signed: real): real {
    price * qty * (if signed > 0.0 then 1.0 else -1.0)
  }

  lemma CostStepIsSignedCost(f: Fill)
    requires Counts(f)
    ensures CostStep(f.price, AbsReal(f.quantity), SignedQty(f)) == SignedCost(f)
  {
  }

  /** One more fill of a key: its totals move, every other key stays. */
  lemma NetStep(net: map<Key, Net>, fills: seq<Fill>, order: seq<Key>, f: Fill)
    requires order == Keys(fills) && NetsTo(net, fills, order) && Counts(f)
    ensures var key := KeyOf(f);
            var prev := if key in net then net[key] else Net(0.0, 0.0);
            && Keys(fills + [f]) == (if key in order then order else order + [key])
            && NetsTo(net[key := Net(prev.qty + SignedQty(f), prev.cost + SignedCost(f))], fills + [f], Keys(fills + [f]))
  {
    assert (fills + [f])[..|fills|] == fills;
    if KeyOf(f) !in order {
      UnseenKeyIsZero(fills, KeyOf(f));
    }
  }

  lemma SkipStep(net: map<Key, Net>, fills: seq<Fill>, order: seq<Key>, f: Fill)
    requires order == Keys(fills) && NetsTo(net, fills, order) && !Counts(f)
    ensures Keys(fills + [f]) == order && NetsTo(net, fills + [f], order)
  {
    assert (fills + [f])[..|fills|] == fills;
  }

  /** The first loop: totals per key, keys in order of first appearance. */
  method Accumulate(fills: seq<Fill>) returns (net: map<Key, Net>, order: seq<Key>)
    ensures order == Keys(fills) && NetsTo(net, fills, order)
  {
    net, order := map[], [];
    for i := 0 to |fills|
      invariant order == Keys(fills[..i]) && NetsTo(net, fills[..i], order)
    {
      var f := fills[i];
      assert fills[..i + 1] == fills[..i] + [f];
      var qty := AbsReal(f.quantity);
      if !f.isOption || f.right.None? || f.strike.None? || qty <= 0.0 {
        SkipStep(net, fills[..i], order, f);
      } else {
        NetStep(net, fills[..i], order, f);
        CostStepIsSignedCost(f);
        var signed := if f.isBuy then qty else -qty;
        var key := Key(f.strike.value, f.right.value);
        var prev := if key in net then net[key] else Net(0.0, 0.0);
        net := net[key := Net(prev.qty + signed, prev.cost + CostStep(f.price, qty, signed))];
        if key !in order {
          order := order + [key];
        }
      }
    }
    assert fills[..|fills|] == fills;
  }

  /** Both loops: the fills of a trade as legs. */
  method NetFills(fills: seq<Fill>) returns (legs: seq<Leg>)
    ensures legs == NettedLegs(fills)
  {
    var net, order := Accumulate(fills);
    legs := [];
    for i := 0 to |order|
      invariant legs == LegsOf(fills, order[..i])
    {
      assert order[i] in order;
      assert order[..i + 1][..i] == order[..i];
      var leg := LegOf(order[i], net[order[i]]);
      if leg.Some? {
        legs := legs + [leg.value];
      }
    }
    assert order[..|order|] == order;
  }

  // ----- payoff of the fills, and the gap -----

  /** Intrinsic value per share of a key at a price. */
  function KeyIntrinsic(k: Key, price: real): real {
    if k.right.Call? then Max(price - k.strike, 0.0) else Max(k.strike - price, 0.0)
  }

  /** Each fill held on its own to expiration. */
  function FillPayoff(f: Fill, price: real): real {
    if Counts(f) then (KeyIntrinsic(KeyOf(f), price) - f.price) * SignedQty(f) * 100.0 else 0.0
  }

  function FillsPayoff(fills: seq<Fill>, price: real): real {
    if fills == [] then 0.0
    else FillsPayoff(fills[..|fills| - 1], price) + FillPayoff(fills[|fills| - 1], price)
  }

  /** Every key nets to a whole number of contracts, as whole fills do (`WholeFillsNetWhole`). */
  ghost predicate WholeNets(fills: seq<Fill>) {
    forall i :: 0 <= i < |Keys(fills)| ==> IsWhole(NetQty(fills, Keys(fills)[i]))
  }

  ghost predicate IsWhole(v: real) {
    v == v.Floor as real
  }

  /** A key's payoff from its totals. */
  function KeyPayoff(fills: seq<Fill>, k: Key, price: real): real {
    Held(KeyIntrinsic(k, price), NetQty(fills, k), NetCost(fills, k))
  }

  /** Value of `q` contracts worth `v` per share that cost `c` in all. */
  function Held(v: real, q: real, c: real): real {
    (v * q - c) * 100.0
  }

  /** Value of `q` contracts worth `v` per share at an average cost. */
  function HeldAt(v: real, avg: real, q: real): real {
    (v - avg) * q * 100.0
  }

  /** What pricing the contracts at an average cost adds. */
  function Shift(avg: real, q: real, c: real): real {
    (c - avg * q) * 100.0
  }

  function KeysPayoff(fills: seq<Fill>, ks: seq<Key>, price: real): real {
    if ks == [] then 0.0
    else KeysPayoff(fills, ks[..|ks| - 1], price) + KeyPayoff(fills, ks[|ks| - 1], price)
  }

  /** What one key adds to the gap between the netted legs and the fills: the cash of a flat key, or
      the sign an average cost cannot carry. */
  function KeyGap(fills: seq<Fill>, k: Key): real {
    var q, c := NetQty(fills, k), NetCost(fills, k);
    if q == 0.0 then 100.0 * c
    else Shift(AbsReal(c / q), q, c)
  }

  /** What rounding a key's net quantity adds at a price: the contracts gained or lost, at the average cost. */
  function KeyDrift(fills: seq<Fill>, k: Key, price: real): real {
    var q, c := NetQty(fills, k), NetCost(fills, k);
    HeldAt(KeyIntrinsic(k, price), if q == 0.0 then 0.0 else AbsReal(c / q), RoundHalfEven(q) as real - q)
  }

  function DriftOver(fills: seq<Fill>, ks: seq<Key>, price: real): real {
    if ks == [] then 0.0 else DriftOver(fills, ks[..|ks| - 1], price) + KeyDrift(fills, ks[|ks| - 1], price)
  }

  function RoundingDrift(fills: seq<Fill>, price: real): real {
    DriftOver(fills, Keys(fills), price)
  }

  function GapOver(fills: seq<Fill>, ks: seq<Key>): real {
    if ks == [] then 0.0 else GapOver(fills, ks[..|ks| - 1]) + KeyGap(fills, ks[|ks| - 1])
  }

  function NettingGap(fills: seq<Fill>): real {
    GapOver(fills, Keys(fills))
  }

  /** Which fills count, and for how much: a buy is worth what its contracts are worth less their price, a
      sale the price less what they are worth; any other row is worth nothing. */
  lemma FillPayoffIs(f: Fill, price: real)
    ensures !f.isOption || f.right.None? || f.strike.None? || f.quantity == 0.0 ==> FillPayoff(f, price) == 0.0
    ensures f.isOption && f.right == Some(Call) && f.strike.Some? ==>
              var worth := if price > f.strike.value then price - f.strike.value else 0.0;
              FillPayoff(f, price) == PerHundred(if f.isBuy then worth - f.price else f.price - worth, f.quantity)
    ensures f.isOption && f.right == Some(Put) && f.strike.Some? ==>
              var worth := if price < f.strike.value then f.strike.value - price else 0.0;
              FillPayoff(f, price) == PerHundred(if f.isBuy then worth - f.price else f.price - worth, f.quantity)
  {
    if f.isOption && f.right.Some? && f.strike.Some? {
      var worth := KeyIntrinsic(Key(f.strike.value, f.right.value), price);
      Negate(worth - f.price, AbsReal(f.quantity));
    }
  }

  lemma Negate(v: real, q: real)
    ensures v * -q * 100.0 == -v * q * 100.0
  {
  }

  /** `v` a share, for so many contracts of a hundred, whatever the sign the quantity is written with. */
  function PerHundred(v: real, quantity: real): real {
    v * (if quantity < 0.0 then -quantity else quantity) * 100.0
  }

  /** A row that does not count leaves the legs as they are. */
  lemma SkippedFill(fills: seq<Fill>, f: Fill)
    requires !f.isOption || f.right.None? || f.strike.None? || f.quantity == 0.0
    ensures NettedLegs(fills + [f]) == NettedLegs(fills)
  {
    assert (fills + [f])[..|fills|] == fills;
    SameTotals(fills, f, Keys(fills));
  }

  lemma {:induction false} SameTotals(fills: seq<Fill>, f: Fill, ks: seq<Key>)
    requires !Counts(f)
    ensures LegsOf(fills + [f], ks) == LegsOf(fills, ks)
  {
    if ks != [] {
      assert (fills + [f])[..|fills|] == fills;
      SameTotals(fills, f, ks[..|ks| - 1]);
    }
  }

  // Step 1: fill by fill equals key by key.

  lemma {:induction false} KeysPayoffExtend(fills: seq<Fill>, f: Fill, ks: seq<Key>, price: real)
    requires forall i, j :: 0 <= i < j < |ks| ==> ks[i] != ks[j]
    ensures KeysPayoff(fills + [f], ks, price) == KeysPayoff(fills, ks, price)
         + if Counts(f) && KeyOf(f) in ks then FillPayoff(f, price) else 0.0
  {
    if ks != [] {
      var n := |ks| - 1;
      KeysPayoffExtend(fills, f, ks[..n], price);
      KeyPayoffExtend(fills, f, ks[n], price);
      assert ks == ks[..n] + [ks[n]];
    }
  }

  lemma KeyPayoffExtend(fills: seq<Fill>, f: Fill, k: Key, price: real)
    ensures KeyPayoff(fills + [f], k, price) == KeyPayoff(fills, k, price)
         + if Counts(f) && KeyOf(f) == k then FillPayoff(f, price) else 0.0
  {
    assert (fills + [f])[..|fills|] == fills;
    if Counts(f) && KeyOf(f) == k {
      AddFill(KeyIntrinsic(k, price), NetQty(fills, k), NetCost(fills, k), SignedQty(f), f.price);
    }
  }

  lemma AddFill(v: real, q: real, c: real, s: real, p: real)
    ensures Held(v, q + s, c + p * s) == Held(v, q, c) + (v - p) * s * 100.0
  {
  }

  lemma {:induction false} FillsPayoffByKey(fills: seq<Fill>, price: real)
    ensures FillsPayoff(fills, price) == KeysPayoff(fills, Keys(fills), price)
  {
    if fills != [] {
      var n := |fills| - 1;
      var f, rest := fills[n], Keys(fills[..n]);
      assert fills == fills[..n] + [f];
      FillsPayoffByKey(fills[..n], price);
      KeysPayoffExtend(fills[..n], f, rest, price);
      if Counts(f) && KeyOf(f) !in rest {
        UnseenKeyIsZero(fills[..n], KeyOf(f));
        KeyPayoffExtend(fills[..n], f, KeyOf(f), price);
        assert Keys(fills)[..|rest|] == rest;
      }
    }
  }

  // Step 2: key by key equals the netted legs plus the gap.

  lemma WholeSum(a: real, b: real)
    requires IsWhole(a) && IsWhole(b)
    ensures IsWhole(a + b) && IsWhole(a - b)
  {
    WholeInt(a.Floor + b.Floor);
    WholeInt(a.Floor - b.Floor);
  }

  lemma WholeInt(n: int)
    ensures IsWhole(n as real)
  {
  }

  lemma {:induction false} WholeNet(fills: seq<Fill>, k: Key)
    requires forall i :: 0 <= i < |fills| ==> IsWhole(fills[i].quantity)
    ensures IsWhole(NetQty(fills, k))
  {
    if fills == [] {
      assert 0.0 == (0.0).Floor as real;
    } else {
      var n := |fills| - 1;
      WholeNet(fills[..n], k);
      WholeSum(NetQty(fills[..n], k), fills[n].quantity);
    }
  }

  lemma WholeFillsNetWhole(fills: seq<Fill>)
    requires forall i :: 0 <= i < |fills| ==> IsWhole(fills[i].quantity)
    ensures WholeNets(fills)
  {
    forall i | 0 <= i < |Keys(fills)|
      ensures IsWhole(NetQty(fills, Keys(fills)[i]))
    {
      WholeNet(fills, Keys(fills)[i]);
    }
  }

  lemma KeyIsLegPlusGap(fills: seq<Fill>, k: Key, price: real)
    ensures var leg := LegOf(k, Net(NetQty(fills, k), NetCost(fills, k)));
            KeyPayoff(fills, k, price) ==
              (if leg.Some? then LegPayoff(leg.value, price) else 0.0) - KeyGap(fills, k) - KeyDrift(fills, k, price)
  {
    var q, c, v := NetQty(fills, k), NetCost(fills, k), KeyIntrinsic(k, price);
    var avg := if q == 0.0 then 0.0 else AbsReal(c / q);
    var r := RoundHalfEven(q);
    if q == 0.0 {
      FlatKey(v, c);
      NothingHeld(v, avg);
    } else {
      SplitHeld(v, avg, q, c);
      HeldMore(v, avg, q, r as real);
      if r == 0 {
        NothingHeld(v, avg);
      } else {
        var leg := LegOf(k, Net(q, c)).value;
        assert leg.avgCost == avg;
        LegIsHeldAt(leg, price);
      }
    }
  }

  lemma HeldMore(v: real, avg: real, q: real, r: real)
    ensures HeldAt(v, avg, r) == HeldAt(v, avg, q) + HeldAt(v, avg, r - q)
  {
  }

  lemma NothingHeld(v: real, avg: real)
    ensures HeldAt(v, avg, 0.0) == 0.0
  {
  }

  lemma FlatKey(v: real, c: real)
    ensures Held(v, 0.0, c) == -(100.0 * c)
  {
  }

  lemma SplitHeld(v: real, avg: real, q: real, c: real)
    ensures Held(v, q, c) == HeldAt(v, avg, q) - Shift(avg, q, c)
  {
  }

  lemma LegIsHeldAt(leg: Leg, price: real)
    ensures LegPayoff(leg, price) == HeldAt(Intrinsic(leg, price), leg.avgCost, leg.qty as real)
  {
    assert (100 * leg.qty) as real == 100.0 * leg.qty as real;
  }

  lemma {:induction false} KeysAreLegsPlusGap(fills: seq<Fill>, ks: seq<Key>, price: real)
    ensures KeysPayoff(fills, ks, price) ==
              OptionsPayoff(LegsOf(fills, ks), price) - GapOver(fills, ks) - DriftOver(fills, ks, price)
  {
    if ks != [] {
      var n := |ks| - 1;
      KeysAreLegsPlusGap(fills, ks[..n], price);
      KeyIsLegPlusGap(fills, ks[n], price);
      var rest, legs := LegsOf(fills, ks[..n]), LegsOf(fills, ks);
      if |legs| == |rest| + 1 {
        assert legs[..|rest|] == rest;
      } else {
        assert legs == rest;
      }
    }
  }

  /** For any fills: the netted legs are worth the fills, plus an amount that does not depend on the price,
      plus what rounding the net quantities adds. */
  lemma NettingShift(fills: seq<Fill>, price: real)
    ensures OptionsPayoff(NettedLegs(fills), price) == FillsPayoff(fills, price) + NettingGap(fills) + RoundingDrift(fills, price)
  {
    FillsPayoffByKey(fills, price);
    KeysAreLegsPlusGap(fills, Keys(fills), price);
  }

  lemma {:induction false} WholeNetsDoNotDrift(fills: seq<Fill>, ks: seq<Key>, price: real)
    requires forall i :: 0 <= i < |ks| ==> IsWhole(NetQty(fills, ks[i]))
    ensures DriftOver(fills, ks, price) == 0.0
  {
    if ks != [] {
      var n := |ks| - 1;
      WholeNetsDoNotDrift(fills, ks[..n], price);
      WholeRoundsToItself(NetQty(fills, ks[n]));
      var q, c := NetQty(fills, ks[n]), NetCost(fills, ks[n]);
      NothingHeld(KeyIntrinsic(ks[n], price), if q == 0.0 then 0.0 else AbsReal(c / q));
    }
  }

  lemma WholeRoundsToItself(v: real)
    ensures RoundHalfEven(v) as real == v <==> IsWhole(v)
  {
  }

  /** Netting to whole contracts moves the payoff by the same amount at every price. */
  lemma NettingShiftsByConstant(fills: seq<Fill>, price: real)
    requires WholeNets(fills)
    ensures OptionsPayoff(NettedLegs(fills), price) == FillsPayoff(fills, price) + NettingGap(fills)
  {
    NettingShift(fills, price);
    WholeNetsDoNotDrift(fills, Keys(fills), price);
  }

  ghost predicate SameDrift(fills: seq<Fill>, k: Key, x: real, y: real) {
    KeyDrift(fills, k, x) == KeyDrift(fills, k, y)
  }

  /** What rounding adds for one key depends on the price exactly when its net quantity is not whole. */
  lemma DriftIsFlatIff(fills: seq<Fill>, k: Key)
    requires k.strike > 0.0
    ensures (forall x: real, y: real :: x >= 0.0 && y >= 0.0 ==> SameDrift(fills, k, x, y)) <==> IsWhole(NetQty(fills, k))
  {
    var q, c := NetQty(fills, k), NetCost(fills, k);
    var avg := if q == 0.0 then 0.0 else AbsReal(c / q);
    var d := RoundHalfEven(q) as real - q;
    WholeRoundsToItself(q);
    if d == 0.0 {
      forall x: real, y: real | x >= 0.0 && y >= 0.0
        ensures SameDrift(fills, k, x, y)
      {
        NothingHeld(KeyIntrinsic(k, x), avg);
        NothingHeld(KeyIntrinsic(k, y), avg);
      }
    } else {
      var x, y := k.strike, if k.right.Call? then k.strike + k.strike else 0.0;
      assert KeyIntrinsic(k, x) == 0.0 && KeyIntrinsic(k, y) == k.strike;
      DriftDiffers(0.0, k.strike, avg, d);
      assert !SameDrift(fills, k, x, y);
    }
  }

  lemma DriftDiffers(v: real, w: real, avg: real, d: real)
    requires v < w && d != 0.0
    ensures HeldAt(v, avg, d) != HeldAt(w, avg, d)
  {
    assert (w - v) * d != 0.0;
    assert (w - avg) * d == (v - avg) * d + (w - v) * d;
  }

  /** An open key adds nothing exactly when its net cost has the sign of its net quantity (or is zero);
      a flat key adds its cash. */
  lemma KeyGapIsZero(fills: seq<Fill>, k: Key)
    ensures var q, c := NetQty(fills, k), NetCost(fills, k);
            && (q != 0.0 ==> (KeyGap(fills, k) == 0.0 <==> c * q >= 0.0))
            && (q == 0.0 ==> KeyGap(fills, k) == 100.0 * c)
  {
    var q, c := NetQty(fills, k), NetCost(fills, k);
    if q != 0.0 {
      SignAlgebra(c, q);
      ShiftIsZero(AbsReal(c / q), q, c);
    }
  }

  lemma ShiftIsZero(avg: real, q: real, c: real)
    ensures Shift(avg, q, c) == 0.0 <==> avg * q == c
  {
  }

  lemma SignAlgebra(c: real, q: real)
    requires q != 0.0
    ensures c * q >= 0.0 <==> AbsReal(c / q) * q == c
  {
    var r := c / q;
    assert r * q == c;
    SignOfProduct(r, q);
    assert r < 0.0 ==> -r * q == -c && c != 0.0;
  }

  /** `r * q` has the sign of `q` exactly when `r` is not negative. */
  lemma SignOfProduct(r: real, q: real)
    requires q != 0.0
    ensures r * q * q >= 0.0 <==> r >= 0.0
    ensures r != 0.0 ==> r * q != 0.0
  {
    var p := r * q;
    if r == 0.0 {
      assert p == 0.0;
    } else {
      assert p > 0.0 <==> (r > 0.0) == (q > 0.0);
      assert p != 0.0;
      assert p * q > 0.0 <==> (p > 0.0) == (q > 0.0);
      assert p * q != 0.0;
    }
  }

  /** Every open key's cost runs with its quantity. */
  ghost predicate CostFollowsQty(fills: seq<Fill>) {
    forall i :: 0 <= i < |Keys(fills)| ==> var k := Keys(fills)[i];
      NetQty(fills, k) != 0.0 ==> NetCost(fills, k) * NetQty(fills, k) >= 0.0
  }

  /** Cash left in the keys that net to zero contracts. */
  function FlatCash(fills: seq<Fill>, ks: seq<Key>): real {
    if ks == [] then 0.0
    else
      var k := ks[|ks| - 1];
      FlatCash(fills, ks[..|ks| - 1]) + if NetQty(fills, k) == 0.0 then 100.0 * NetCost(fills, k) else 0.0
  }

  /** Then the only gap is the cash of the flat keys. */
  lemma {:induction false} GapIsFlatCash(fills: seq<Fill>, ks: seq<Key>)
    requires forall i :: 0 <= i < |ks| && NetQty(fills, ks[i]) != 0.0 ==> NetCost(fills, ks[i]) * NetQty(fills, ks[i]) >= 0.0
    ensures GapOver(fills, ks) == FlatCash(fills, ks)
  {
    if ks != [] {
      GapIsFlatCash(fills, ks[..|ks| - 1]);
      KeyGapIsZero(fills, ks[|ks| - 1]);
    }
  }

  lemma NettingGapIsFlatCash(fills: seq<Fill>)
    requires CostFollowsQty(fills)
    ensures NettingGap(fills) == FlatCash(fills, Keys(fills))
  {
    GapIsFlatCash(fills, Keys(fills));
  }

  // ----- the risk of a trade -----

  /** The strike parser answers a positive strike or none. */
  ghost predicate ParsedStrikes(fills: seq<Fill>) {
    forall i :: 0 <= i < |fills| && fills[i].strike.Some? ==> fills[i].strike.value > 0.0
  }

  lemma {:induction false} KeysArePositive(fills: seq<Fill>)
    requires ParsedStrikes(fills)
    ensures forall i :: 0 <= i < |Keys(fills)| ==> Keys(fills)[i].strike > 0.0
  {
    if fills != [] {
      KeysArePositive(fills[..|fills| - 1]);
    }
  }

  lemma {:induction false} LegsArePositive(fills: seq<Fill>, ks: seq<Key>)
    requires forall i :: 0 <= i < |ks| ==> ks[i].strike > 0.0
    ensures PositiveStrikes(LegsOf(fills, ks))
  {
    if ks != [] {
      LegsArePositive(fills, ks[..|ks| - 1]);
    }
  }

  /** The netted fills as a book without shares. */
  function TradeBook(fills: seq<Fill>): Book {
    Book(NettedLegs(fills), 0, None)
  }

  /** The engine has a finite loss to report: some leg is open, the upside is covered and the loss is
      at least a cent after rounding. */
  ghost predicate LossReported(fills: seq<Fill>, lossAt: real) {
    && NettedLegs(fills) != []
    && !UnlimitedLossFlag(TradeBook(fills))
    && Round2(Payoff(TradeBook(fills), lossAt)) < 0.0
  }

  method InstanceMaxRisk(fills: seq<Fill>, fallback: real) returns (risk: real, ghost lossAt: real)
    ensures risk >= 0.0
    ensures risk ==
              if && NettedLegs(fills) != [] && !UnlimitedLossFlag(TradeBook(fills))
                 && Round2(Payoff(TradeBook(fills), lossAt)) < 0.0
              then -Round2(Payoff(TradeBook(fills), lossAt)) else if fallback > 0.0 then fallback else 0.0
    ensures ParsedStrikes(fills) ==> IsLossPoint(TradeBook(fills), lossAt)
    ensures ParsedStrikes(fills) && !UnlimitedLossFlag(TradeBook(fills)) ==> IsGlobalMin(TradeBook(fills), lossAt)
    ensures ParsedStrikes(fills) && WholeNets(fills) ==>
              (Covers(fills, risk) <==> !UnlimitedLossFlag(TradeBook(fills)) && GapAllowed(fills, lossAt, risk))
  {
    var legs := NetFills(fills);
    lossAt := 0.0;
    if ParsedStrikes(fills) {
      TradeStrikes(fills);
    }
    if legs == [] {
      risk := Max(0.0, fallback);
      if ParsedStrikes(fills) {
        LossIsExact(TradeBook(fills), lossAt);
        if WholeNets(fills) {
          RiskCoversIff(fills, lossAt, risk);
        }
      }
      return;
    }
    var rp;
    ghost var gainAt, d, hedgedAt;
    rp, lossAt, gainAt, d, hedgedAt := ComputeRiskProfile(Book(legs, 0, None));
    if rp.maxLoss.Some? && rp.maxLoss.value < 0.0 {
      risk := -rp.maxLoss.value;
    } else {
      risk := Max(0.0, fallback);
    }
    if ParsedStrikes(fills) {
      LossIsExact(TradeBook(fills), lossAt);
      if WholeNets(fills) {
        RiskCoversIff(fills, lossAt, risk);
      }
    }
  }

  lemma TradeStrikes(fills: seq<Fill>)
    requires ParsedStrikes(fills)
    ensures PositiveStrikes(TradeBook(fills).legs)
  {
    KeysArePositive(fills);
    LegsArePositive(fills, Keys(fills));
  }

  /** A reported risk covers the fills themselves at every price, up to half a cent, the gap and the drift. */
  lemma RiskCoversFills(fills: seq<Fill>, lossAt: real, risk: real, price: real)
    requires price >= 0.0 && LossReported(fills, lossAt) && IsGlobalMin(TradeBook(fills), lossAt)
    requires risk == -Round2(Payoff(TradeBook(fills), lossAt))
    ensures FillsPayoff(fills, price) >= -risk - 0.005 - NettingGap(fills) - RoundingDrift(fills, price)
  {
    NettingShift(fills, price);
    assert Payoff(TradeBook(fills), price) >= Payoff(TradeBook(fills), lossAt);
  }

  /** No price loses more on the fills than the risk says. */
  ghost predicate Covers(fills: seq<Fill>, risk: real) {
    forall x: real :: x >= 0.0 ==> FillsPayoff(fills, x) >= -risk
  }

  /** The gap leaves the risk at least the worst the fills come to. */
  predicate GapAllowed(fills: seq<Fill>, lossAt: real, risk: real) {
    NettingGap(fills) <= Payoff(TradeBook(fills), lossAt) + risk
  }

  /** Whatever figure is given as the risk, reported loss or fallback: it covers the fills at every price
      exactly when their loss has a bound and the gap is allowed. */
  lemma RiskCoversIff(fills: seq<Fill>, lossAt: real, risk: real)
    requires WholeNets(fills) && ParsedStrikes(fills) && IsLossPoint(TradeBook(fills), lossAt)
    ensures Covers(fills, risk) <==> !UnlimitedLossFlag(TradeBook(fills)) && GapAllowed(fills, lossAt, risk)
  {
    var book := TradeBook(fills);
    TradeStrikes(fills);
    LossIsExact(book, lossAt);
    NettingShiftsByConstant(fills, lossAt);
    if UnlimitedLossFlag(book) {
      assert GoesBelow(book, NettingGap(fills) - risk);
      var x: real :| x >= 0.0 && Payoff(book, x) < NettingGap(fills) - risk;
      NettingShiftsByConstant(fills, x);
      assert FillsPayoff(fills, x) < -risk;
    } else {
      forall x: real | x >= 0.0
        ensures FillsPayoff(fills, x) >= FillsPayoff(fills, lossAt)
      {
        NettingShiftsByConstant(fills, x);
        assert Payoff(book, x) >= Payoff(book, lossAt);
      }
      assert Covers(fills, risk) ==> FillsPayoff(fills, lossAt) >= -risk;
    }
  }

  /** A reported loss was rounded by at most half a cent, so it covers the fills whenever the gap is at most
      minus half a cent, and never when it is more than half a cent. */
  lemma ReportedRiskCovers(fills: seq<Fill>, lossAt: real, risk: real)
    requires WholeNets(fills) && ParsedStrikes(fills) && IsLossPoint(TradeBook(fills), lossAt)
    requires LossReported(fills, lossAt) && risk == -Round2(Payoff(TradeBook(fills), lossAt))
    ensures Covers(fills, risk) <==> GapAllowed(fills, lossAt, risk)
    ensures NettingGap(fills) <= -0.005 ==> Covers(fills, risk)
    ensures NettingGap(fills) > 0.005 ==> !Covers(fills, risk)
  {
    RiskCoversIff(fills, lossAt, risk);
  }

  /** Two puts sold at 1 and one bought back at 5. */
  const PUTS_BOUGHT_BACK := [
    Fill(true, Some(Put), Some(10.0), false, 2.0, 1.0),
    Fill(true, Some(Put), Some(10.0), true, 1.0, 5.0)]

  /** They net to one short put at an average cost of 3, where its cost is a debit. */
  lemma NetsToShortPut()
    ensures NettedLegs(PUTS_BOUGHT_BACK) == [Leg(10.0, Put, -1, 3.0, None)]
  {
    var fills, k := PUTS_BOUGHT_BACK, Key(10.0, Put);
    var first := fills[..1];
    assert first == [fills[0]] && first[..0] == [] && fills[..|fills| - 1] == first;
    assert Keys(first) == [k] && Keys(fills) == [k];
    assert NetQty(first, k) == -2.0 && NetQty(fills, k) == -1.0;
    assert NetCost(first, k) == -2.0 && NetCost(fills, k) == 3.0;
    NetIsShortPut();
    assert [k][..0] == [] && LegsOf(fills, []) == [];
  }

  lemma NetIsShortPut()
    ensures LegOf(Key(10.0, Put), Net(-1.0, 3.0)) == Some(Leg(10.0, Put, -1, 3.0, None))
  {
    assert (-1.0).Floor == -1;
    assert 3.0 / -1.0 == -3.0;
  }

  lemma FillsLose1300()
    ensures FillsPayoff(PUTS_BOUGHT_BACK, 0.0) == -1300.0
  {
    var fills := PUTS_BOUGHT_BACK;
    var first := fills[..1];
    assert first == [fills[0]] && first[..0] == [] && fills[..|fills| - 1] == first;
    assert FillPayoff(fills[0], 0.0) == -1800.0 && FillPayoff(fills[1], 0.0) == 500.0;
    assert FillsPayoff(first, 0.0) == -1800.0;
  }

  /** The risk reported is 700, and at a price of zero the fills lose 1300. */
  lemma RiskFallsShort()
    ensures IsLossPoint(TradeBook(PUTS_BOUGHT_BACK), 0.0) && LossReported(PUTS_BOUGHT_BACK, 0.0)
    ensures Round2(Payoff(TradeBook(PUTS_BOUGHT_BACK), 0.0)) == -700.0
    ensures FillsPayoff(PUTS_BOUGHT_BACK, 0.0) == -1300.0 && !Covers(PUTS_BOUGHT_BACK, 700.0)
  {
    NetsToShortPut();
    ShortPut(Leg(10.0, Put, -1, 3.0, None));
    FillsLose1300();
  }

  /** One short 10-strike put at 3 loses most at zero: 700. */
  lemma ShortPut(leg: Leg)
    requires leg == Leg(10.0, Put, -1, 3.0, None)
    ensures var book := Book([leg], 0, None);
            && IsLossPoint(book, 0.0) && !UnlimitedLossFlag(book)
            && Payoff(book, 0.0) == -700.0 && Round2(Payoff(book, 0.0)) == -700.0
  {
    var legs := [leg];
    assert legs[..0] == [] && OptionsPayoff([], 0.0) == 0.0;
    OneLeg(leg, 0.0);
    assert DistinctStrikes(legs[..0]) == [];
    assert GridPrices(legs) == [0.0, 10.0, 20.0];
    assert forall x: real :: OptionsPayoff(legs, x) == LegPayoff(leg, x);
    RoundFixesCents(-70000);
  }
}
