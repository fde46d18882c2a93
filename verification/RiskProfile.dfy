/**
 The risk profile of one underlying group: the envelope to the cent, the premium, the naked short
 calls, and the envelope of the book with those stripped.
 */
module RiskProfile {
  import opened Prelude
  import opened PayoffModel
  import opened PiecewiseLinear
  import opened Rounding
  import opened Grid
  import opened Breakevens
  import opened Envelope
  import opened NakedStrip

  datatype Profile = Profile(
    maxGain: Option<real>, maxLoss: Option<real>, riskType: RiskType, breakevens: seq<real>,
    gainScenario: Option<Scenario>, gainSample: Option<Scenario>, lossScenario: Option<Scenario>,
    netPremium: real, nakedContracts: nat,
    hedgedMaxLoss: Option<real>, hedgedScenario: Option<Scenario>,
    sharesModeled: int, costKnown: bool)

  function RoundOption(v: Option<real>): Option<real> {
    if v.Some? then Some(Round2(v.value)) else None
  }

  // ----- premium -----

  function NetPremium(legs: seq<Leg>): real {
    if legs == [] then 0.0
    else
      var p := legs[|legs| - 1];
      NetPremium(legs[..|legs| - 1]) - p.avgCost * (100 * p.qty) as real
  }

  function IntrinsicValue(legs: seq<Leg>, price: real): real {
    if legs == [] then 0.0
    else
      var p := legs[|legs| - 1];
      IntrinsicValue(legs[..|legs| - 1], price) + Intrinsic(p, price) * (100 * p.qty) as real
  }

  /** The options payoff is the premium taken in plus what the contracts are worth. */
  lemma {:induction false} PayoffIsPremiumPlusIntrinsic(legs: seq<Leg>, price: real)
    ensures OptionsPayoff(legs, price) == NetPremium(legs) + IntrinsicValue(legs, price)
  {
    if legs != [] {
      var n := |legs| - 1;
      PayoffIsPremiumPlusIntrinsic(legs[..n], price);
      LegSplit(legs[n], price);
    }
  }

  lemma LegSplit(leg: Leg, price: real)
    ensures LegPayoff(leg, price) == Intrinsic(leg, price) * (100 * leg.qty) as real - leg.avgCost * (100 * leg.qty) as real
  {
  }

  method ComputeNetPremium(legs: seq<Leg>) returns (premium: real)
    ensures premium == NetPremium(legs)
  {
    premium := 0.0;
    for i := 0 to |legs|
      invariant premium == NetPremium(legs[..i])
    {
      var p := legs[i];
      var absQty := Abs(p.qty);
      if p.qty < 0 {
        premium := premium + p.avgCost * absQty as real * 100.0;
      } else {
        premium := premium - p.avgCost * absQty as real * 100.0;
      }
      assert legs[..i + 1][..i] == legs[..i];
      SignedForm(p.avgCost, p.qty);
    }
    assert legs[..|legs|] == legs;
  }

  /** To the cent as before it: no price shows a rounded result below the reported loss. */
  lemma RoundedLossIsLeast(book: Book, lossAt: real, price: real)
    requires PositiveStrikes(book.legs) && CoverPriced(book) && IsLossPoint(book, lossAt)
    requires !UnlimitedLossFlag(book) && price >= 0.0
    ensures Round2(Payoff(book, lossAt)) <= Round2(Payoff(book, price))
  {
    LossIsExact(book, lossAt);
    RoundMonotone(Payoff(book, lossAt), Payoff(book, price));
  }

  // ----- naked short calls -----

  function NakedContracts(book: Book): nat {
    var residual := OpenCallShares(book) - book.shares;
    if residual > 0 then (residual + 99) / 100 else 0
  }

  /** The least number of contracts whose removal leaves no uncovered upside; there are always that
      many to remove. */
  lemma NakedIsLeast(book: Book)
    ensures forall n: nat {:trigger 100 * n} :: OpenCallShares(book) - 100 * n - book.shares <= 0 <==> n >= NakedContracts(book)
    ensures book.shares >= 0 ==> NakedContracts(book) <= TotalShort(book.legs)
  {
    ShortSharesAreContracts(book.legs);
  }

  /** The book after giving up the naked contracts. */
  lemma HedgedCover(book: Book, d: seq<nat>)
    requires IsRemoval(book.legs, d) && book.shares >= 0 && Sum(d) == NakedContracts(book)
    ensures var hedged := book.(legs := Stripped(book.legs, d));
            && OpenCallShares(hedged) == OpenCallShares(book) - 100 * Sum(d)
            && !UnlimitedLossFlag(hedged)
            && PricedShares(hedged) == PricedShares(book)
  {
    StrippedCounts(book.legs, d);
    ShortSharesAreContracts(book.legs);
    ShortSharesAreContracts(Stripped(book.legs, d));
    NakedIsLeast(book);
  }

  /** After any removal the loss point is a true minimum exactly when the shares that are priced cover the
      calls still open. */
  lemma HedgedLossIsGlobalIff(book: Book, d: seq<nat>, lossAt: real)
    requires PositiveStrikes(book.legs) && IsRemoval(book.legs, d)
    requires IsLossPoint(book.(legs := Stripped(book.legs, d)), lossAt)
    ensures IsGlobalMin(book.(legs := Stripped(book.legs, d)), lossAt) <==>
              OpenCallShares(book) - 100 * Sum(d) <= PricedShares(book)
  {
    var hedged := book.(legs := Stripped(book.legs, d));
    StrippedCounts(book.legs, d);
    ShortSharesAreContracts(book.legs);
    ShortSharesAreContracts(hedged.legs);
    StrippedStrikes(book.legs, d);
    GridMinIsGlobal(hedged, lossAt);
  }

  /** Stripping the naked contracts makes the loss of every book with priced cover finite. */
  lemma HedgedLossIsGlobal(book: Book, d: seq<nat>, lossAt: real)
    requires PositiveStrikes(book.legs) && CoverPriced(book)
    requires IsRemoval(book.legs, d) && Sum(d) == NakedContracts(book)
    requires IsLossPoint(book.(legs := Stripped(book.legs, d)), lossAt)
    ensures IsGlobalMin(book.(legs := Stripped(book.legs, d)), lossAt)
  {
    HedgedLossIsGlobalIff(book, d, lossAt);
    NakedIsLeast(book);
  }

  lemma {:induction false} OtherAndShort(legs: seq<Leg>, price: real)
    ensures IntrinsicValue(legs, price) == IntrinsicValue(OtherLegs(legs), price) - ShortCallLiability(legs, price)
  {
    if legs != [] {
      var n := |legs| - 1;
      var rest, others := OtherLegs(legs[..n]), OtherLegs(legs);
      OtherAndShort(legs[..n], price);
      if ShortContracts(legs[n]) > 0 {
        assert others == rest;
        TimesIsProduct(100 * ShortContracts(legs[n]), Intrinsic(legs[n], price));
        Negated(Intrinsic(legs[n], price), 100 * legs[n].qty);
      } else {
        assert others[..|rest|] == rest;
      }
    }
  }

  lemma Negated(v: real, n: int)
    ensures v * n as real == -((-n) as real * v)
  {
    assert (-n) as real == -(n as real);
  }

  /** Two removals leave books whose payoffs differ by the premium kept less the liability kept. */
  lemma StripDifference(legs: seq<Leg>, d: seq<nat>, e: seq<nat>, price: real)
    requires IsRemoval(legs, d) && IsRemoval(legs, e)
    ensures OptionsPayoff(Stripped(legs, d), price) - OptionsPayoff(Stripped(legs, e), price) ==
              (NetPremium(Stripped(legs, d)) - NetPremium(Stripped(legs, e)))
              - (ShortCallLiability(Stripped(legs, d), price) - ShortCallLiability(Stripped(legs, e), price))
  {
    PayoffIsPremiumPlusIntrinsic(Stripped(legs, d), price);
    PayoffIsPremiumPlusIntrinsic(Stripped(legs, e), price);
    OtherAndShort(Stripped(legs, d), price);
    OtherAndShort(Stripped(legs, e), price);
    StrippedCounts(legs, d);
    StrippedCounts(legs, e);
  }

  const SHORT_AT_60 := Leg(60.0, Call, -1, 1.0, None)
  const SHORT_AT_50 := Leg(50.0, Call, -1, 12.0, None)

  lemma CoveredShortAtZero(p: Leg)
    requires p.right.Call? && p.qty == -1 && p.strike >= 0.0
    ensures Payoff(Book([p], 100, Some(40.0)), 0.0) == 100.0 * p.avgCost - 4000.0
  {
    OneLeg(p, 0.0);
    assert LegPayoff(p, 0.0) == 100.0 * p.avgCost;
  }

  lemma OneIsNaked()
    ensures NakedContracts(Book([SHORT_AT_60, SHORT_AT_50], 100, Some(40.0))) == 1
  {
    assert [SHORT_AT_60, SHORT_AT_50] == [SHORT_AT_60] + [SHORT_AT_50];
    OneLeg(SHORT_AT_60, 0.0);
    OneMoreLeg([SHORT_AT_60], SHORT_AT_50, 0.0);
  }

  /** So the greedy hedge does not always show the larger loss: with calls short at 60 for 1 and at 50 for
      12 against a hundred shares at 40, it loses 2800 at a price of zero and the other removal 3900. */
  lemma GreedyMayLoseLess()
    ensures var legs := [SHORT_AT_60, SHORT_AT_50];
            && NakedContracts(Book(legs, 100, Some(40.0))) == 1
            && IsGreedy(legs, 1, [1, 0]) && IsRemoval(legs, [0, 1])
            && Payoff(Book(Stripped(legs, [1, 0]), 100, Some(40.0)), 0.0) == -2800.0
            && Payoff(Book(Stripped(legs, [0, 1]), 100, Some(40.0)), 0.0) == -3900.0
  {
    OneIsNaked();
    ShortPair(SHORT_AT_60, SHORT_AT_50);
    CoveredShortAtZero(SHORT_AT_60);
    CoveredShortAtZero(SHORT_AT_50);
  }

  /** The removals of one contract from two short calls. */
  lemma ShortPair(a: Leg, b: Leg)
    requires a.right.Call? && b.right.Call? && a.qty == -1 && b.qty == -1 && a.strike > b.strike
    ensures IsGreedy([a, b], 1, [1, 0]) && IsRemoval([a, b], [0, 1])
    ensures Stripped([a, b], [1, 0]) == [b] && Stripped([a, b], [0, 1]) == [a]
  {
    var legs := [a, b];
    var d: seq<nat>, e: seq<nat> := [1, 0], [0, 1];
    assert legs[..1] == [a] && [a][..0] == [] && d[..1] == [1] && e[..1] == [0];
    assert TotalShort([a]) == TotalShort([]) + ShortContracts(a) == 1;
    assert TotalShort(legs) == TotalShort([a]) + ShortContracts(b) == 2;
    SumOfTwo(1, 0);
    assert Stripped([a], [1]) == [] && Stripped([a], [0]) == [a];
  }

  /** How the hedged figures relate to the stripped book. */
  ghost predicate HedgeReported(book: Book, d: seq<nat>, rp: Profile, hedgedAt: real)
    requires |d| == |book.legs|
  {
    var hedged := book.(legs := Stripped(book.legs, d));
    if NothingIn(hedged) then
      rp.hedgedMaxLoss == Some(0.0) && rp.hedgedScenario == None
    else if UnlimitedLossFlag(hedged) then
      rp.hedgedMaxLoss == None && rp.hedgedScenario == None
    else
      && rp.hedgedMaxLoss == Some(Round2(Payoff(hedged, hedgedAt)))
      && Shows(rp.hedgedScenario, hedged, hedgedAt)
      && (PositiveStrikes(book.legs) ==> IsLossPoint(hedged, hedgedAt))
  }

  method ComputeRiskProfile(book: Book)
    returns (rp: Profile, ghost lossAt: real, ghost gainAt: real, ghost d: seq<nat>, ghost hedgedAt: real)
    ensures book.legs == [] ==>
              rp == Profile(Some(0.0), Some(0.0), Defined, [], None, None, None, 0.0, 0, None, None,
                            book.shares, book.shares <= 0 || book.shareCost.Some?)
    ensures book.legs != [] ==>
              && rp.maxLoss == (if UnlimitedLossFlag(book) then None else Some(Round2(Payoff(book, lossAt))))
              && rp.maxGain == (if UnlimitedGainFlag(book) then None else Some(Round2(Payoff(book, gainAt))))
              && rp.riskType == (if UnlimitedLossFlag(book) then Unlimited else Defined)
              && AreBreakevens(book, rp.breakevens)
              && (if UnlimitedLossFlag(book) then rp.lossScenario == None else Shows(rp.lossScenario, book, lossAt))
              && Shows(rp.gainSample, book, gainAt)
              && rp.gainScenario == (if UnlimitedGainFlag(book) then None else rp.gainSample)
              && rp.netPremium == Round2(NetPremium(book.legs))
              && rp.nakedContracts == NakedContracts(book)
              && rp.sharesModeled == book.shares
              && (rp.costKnown <==> book.shares <= 0 || book.shareCost.Some?)
    ensures book.legs != [] && PositiveStrikes(book.legs) ==>
              IsLossPoint(book, lossAt) && IsGainPoint(book, gainAt)
    ensures book.legs != [] && rp.nakedContracts == 0 ==> rp.hedgedMaxLoss == None && rp.hedgedScenario == None
    ensures book.legs != [] && rp.nakedContracts > 0 ==> IsGreedy(book.legs, rp.nakedContracts, d) && HedgeReported(book, d, rp, hedgedAt)
  {
    lossAt, gainAt, d, hedgedAt := 0.0, 0.0, [], 0.0;
    if book.legs == [] {
      rp := Profile(Some(0.0), Some(0.0), Defined, [], None, None, None, 0.0, 0, None, None,
                    book.shares, book.shares <= 0 || book.shareCost.Some?);
      return;
    }
    var premium := ComputeNetPremium(book.legs);
    var naked := NakedContracts(book);
    var env;
    env, lossAt, gainAt := ComputeEnvelope(book);
    var hedgedLoss: Option<real>, hedgedScenario: Option<Scenario> := None, None;
    if naked > 0 {
      var stripped := StripNakedShortCalls(book.legs, naked);
      d :| IsGreedy(book.legs, naked, d) && stripped == Stripped(book.legs, d);
      if PositiveStrikes(book.legs) {
        StrippedStrikes(book.legs, d);
      }
      var hedgedEnv;
      ghost var otherGain;
      hedgedEnv, hedgedAt, otherGain := ComputeEnvelope(book.(legs := stripped));
      RoundFixesCents(0);
      hedgedLoss := RoundOption(hedgedEnv.maxLoss);
      hedgedScenario := hedgedEnv.lossScenario;
    }
    rp := Profile(
      RoundOption(env.maxGain), RoundOption(env.maxLoss), env.riskType, env.breakevens,
      env.gainScenario, env.gainSample, env.lossScenario,
      Round2(premium), naked, hedgedLoss, hedgedScenario,
      book.shares, book.shares <= 0 || book.shareCost.Some?);
  }
}
