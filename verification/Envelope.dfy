/**
 The envelope of a book: maximum loss and gain, whether either is unlimited, and the breakevens.
 */
module Envelope {
  import opened Prelude
  import opened PayoffModel
  import opened PiecewiseLinear
  import opened Rounding
  import opened Grid
  import opened Breakevens

  datatype Scenario = Scenario(price: real, optionsPnl: real, stockPnl: real)

  datatype RiskType = Defined | Unlimited

  datatype Envelope = Envelope(
    maxGain: Option<real>, maxLoss: Option<real>, riskType: RiskType, breakevens: seq<real>,
    gainScenario: Option<Scenario>, gainSample: Option<Scenario>, lossScenario: Option<Scenario>)

  const NOTHING_HELD := Envelope(Some(0.0), Some(0.0), Defined, [], None, None, None)

  predicate UnlimitedLossFlag(book: Book) {
    ShortCallShares(book.legs) - LongCallShares(book.legs) - book.shares > 0
  }

  predicate UnlimitedGainFlag(book: Book) {
    || LongCallShares(book.legs) > ShortCallShares(book.legs) + book.shares
    || (book.shares > 0 && ShortCallShares(book.legs) == 0)
  }

  function RoundScenario(s: Scenario): Scenario {
    Scenario(Round2(s.price), Round2(s.optionsPnl), Round2(s.stockPnl))
  }

  function ScenarioOf(row: GridRow): Scenario {
    Scenario(row.price, row.optionsPnl, row.stockPnl)
  }

  /** The scenario shown for a price: the price and what options and stock make there, each to the cent. */
  ghost predicate Shows(s: Option<Scenario>, book: Book, price: real) {
    && s.Some?
    && s.value.price == Round2(price)
    && s.value.optionsPnl == Round2(OptionsPayoff(book.legs, price))
    && s.value.stockPnl == Round2(StockPayoff(book, price))
  }

  /** The shares are priced: there are none, or there are some and their cost is known. */
  ghost predicate CoverPriced(book: Book) {
    book.shares == PricedShares(book)
  }

  ghost predicate NothingIn(book: Book) {
    book.legs == [] && book.shares <= 0
  }

  /** First index of the least total and first index of the greatest. */
  method ExtremeRows(rows: seq<GridRow>) returns (minIdx: nat, maxIdx: nat)
    requires rows != []
    ensures minIdx < |rows| && maxIdx < |rows|
    ensures forall i :: 0 <= i < |rows| ==> rows[minIdx].total <= rows[i].total <= rows[maxIdx].total
    ensures forall i :: 0 <= i < minIdx ==> rows[minIdx].total < rows[i].total
    ensures forall i :: 0 <= i < maxIdx ==> rows[i].total < rows[maxIdx].total
  {
    minIdx, maxIdx := 0, 0;
    for i := 1 to |rows|
      invariant minIdx < i && maxIdx < i
      invariant forall k :: 0 <= k < i ==> rows[minIdx].total <= rows[k].total <= rows[maxIdx].total
      invariant forall k :: 0 <= k < minIdx ==> rows[minIdx].total < rows[k].total
      invariant forall k :: 0 <= k < maxIdx ==> rows[k].total < rows[maxIdx].total
    {
      if rows[i].total < rows[minIdx].total {
        minIdx := i;
      }
      if rows[i].total > rows[maxIdx].total {
        maxIdx := i;
      }
    }
  }

  /** The lowest price at which the grid is least. */
  ghost predicate IsLossPoint(book: Book, price: real) {
    IsGridMin(book, price) &&
    forall g :: g in GridPrices(book.legs) && g < price ==> Payoff(book, g) > Payoff(book, price)
  }

  ghost predicate IsGainPoint(book: Book, price: real) {
    IsGridMax(book, price) &&
    forall g :: g in GridPrices(book.legs) && g < price ==> Payoff(book, g) < Payoff(book, price)
  }

  lemma ExtremesArePoints(book: Book, rows: seq<GridRow>, minIdx: nat, maxIdx: nat)
    requires PositiveStrikes(book.legs) && RowsOfGrid(book, rows) && minIdx < |rows| && maxIdx < |rows|
    requires forall i :: 0 <= i < |rows| ==> rows[minIdx].total <= rows[i].total <= rows[maxIdx].total
    requires forall i :: 0 <= i < minIdx ==> rows[minIdx].total < rows[i].total
    requires forall i :: 0 <= i < maxIdx ==> rows[i].total < rows[maxIdx].total
    ensures IsLossPoint(book, rows[minIdx].price) && IsGainPoint(book, rows[maxIdx].price)
  {
    GridShape(book.legs);
    var g := GridPrices(book.legs);
    assert forall k :: 0 <= k < |g| ==> rows[k].price == g[k] && rows[k].total == Payoff(book, g[k]);
    forall p | p in g
      ensures Payoff(book, g[minIdx]) <= Payoff(book, p) <= Payoff(book, g[maxIdx])
      ensures p < g[minIdx] ==> Payoff(book, p) > Payoff(book, g[minIdx])
      ensures p < g[maxIdx] ==> Payoff(book, p) < Payoff(book, g[maxIdx])
    {
      var k :| 0 <= k < |g| && g[k] == p;
      EarlierIffLower(g, k, minIdx);
      EarlierIffLower(g, k, maxIdx);
      assert rows[minIdx].total <= rows[k].total <= rows[maxIdx].total;
    }
  }

  lemma EarlierIffLower(g: seq<real>, k: nat, m: nat)
    requires Increasing(g) && k < |g| && m < |g|
    ensures g[k] < g[m] <==> k < m
  {
  }

  method ComputeEnvelope(book: Book)
    returns (env: Envelope, ghost lossAt: real, ghost gainAt: real)
    ensures NothingIn(book) ==> env == Envelope(Some(0.0), Some(0.0), Defined, [], None, None, None)
    ensures !NothingIn(book) ==>
              && env.maxLoss == (if UnlimitedLossFlag(book) then None else Some(Payoff(book, lossAt)))
              && env.maxGain == (if UnlimitedGainFlag(book) then None else Some(Payoff(book, gainAt)))
              && env.riskType == (if UnlimitedLossFlag(book) then Unlimited else Defined)
              && (if UnlimitedLossFlag(book) then env.lossScenario == None else Shows(env.lossScenario, book, lossAt))
              && Shows(env.gainSample, book, gainAt)
              && env.gainScenario == (if UnlimitedGainFlag(book) then None else env.gainSample)
              && AreBreakevens(book, env.breakevens)
    ensures !NothingIn(book) && PositiveStrikes(book.legs) ==>
              IsLossPoint(book, lossAt) && IsGainPoint(book, gainAt)
  {
    if book.legs == [] && book.shares <= 0 {
      return NOTHING_HELD, 0.0, 0.0;
    }
    var lossFlag, gainFlag := UnlimitedLossFlag(book), UnlimitedGainFlag(book);
    var rows := GetRiskGridRows(book);
    var breakevens := FindBreakevens(book, rows);
    var minIdx, maxIdx := ExtremeRows(rows);
    var minRow, maxRow := rows[minIdx], rows[maxIdx];
    lossAt, gainAt := minRow.price, maxRow.price;
    if PositiveStrikes(book.legs) {
      ExtremesArePoints(book, rows, minIdx, maxIdx);
    }
    var gainSample := Some(RoundScenario(ScenarioOf(maxRow)));
    env := Envelope(
      if gainFlag then None else Some(maxRow.total),
      if lossFlag then None else Some(minRow.total),
      if lossFlag then Unlimited else Defined,
      breakevens,
      if gainFlag then None else gainSample,
      gainSample,
      if lossFlag then None else Some(RoundScenario(ScenarioOf(minRow))));
  }

  // ----- what the flags and figures mean -----

  /** With priced cover, "unlimited" is raised exactly when no bound holds the loss, and otherwise the
      loss point is the minimum over every price from zero upward. */
  lemma LossIsExact(book: Book, lossAt: real)
    requires PositiveStrikes(book.legs) && CoverPriced(book) && IsLossPoint(book, lossAt)
    ensures UnlimitedLossFlag(book) <==> UnboundedBelow(book)
    ensures !UnlimitedLossFlag(book) <==> IsGlobalMin(book, lossAt)
  {
    UnboundedBelowIffTailFalls(book);
    GridMinIsGlobal(book, lossAt);
  }

  /** Short calls not offset by long ones, in shares. */
  function OpenCallShares(book: Book): int {
    ShortCallShares(book.legs) - LongCallShares(book.legs)
  }

  /** Books on which the loss flag is wrong: shares of unknown cost that cover the open calls but are
      left out of the payoff, or a negative share count. */
  predicate LossFlagWrong(book: Book) {
    || (book.shares > 0 && book.shareCost.None? && 0 < OpenCallShares(book) <= book.shares)
    || (book.shares < 0 && book.shares < OpenCallShares(book) <= 0)
  }

  lemma LossFlagCondition(book: Book)
    requires PositiveStrikes(book.legs)
    ensures (UnlimitedLossFlag(book) <==> UnboundedBelow(book)) <==> !LossFlagWrong(book)
  {
    UnboundedBelowIffTailFalls(book);
  }

  /** Priced books whose gain is unlimited although the flag is down. */
  predicate GainFlagMisses(book: Book) {
    && book.shares > 0
    && ShortCallShares(book.legs) > 0
    && ShortCallShares(book.legs) - book.shares < LongCallShares(book.legs) <= ShortCallShares(book.legs) + book.shares
  }

  /** Books on which the gain flag is wrong. With priced shares it is only ever missed. Shares of unknown
      cost raise it although they earn nothing here, and hide a lead of the long calls; a negative share
      count raises it although the calls cancel. */
  predicate GainFlagWrong(book: Book) {
    var short, long := ShortCallShares(book.legs), LongCallShares(book.legs);
    if book.shares <= 0 then short + book.shares < long <= short
    else if book.shareCost.Some? then GainFlagMisses(book)
    else (short == 0 && long == 0) || (short > 0 && short < long <= short + book.shares)
  }

  /** For every book: the gain flag is right exactly outside these cases. */
  lemma GainFlagCondition(book: Book)
    requires PositiveStrikes(book.legs)
    ensures (UnlimitedGainFlag(book) <==> UnboundedAbove(book)) <==> !GainFlagWrong(book)
  {
    UnboundedAboveIffTailRises(book);
  }

  /** And the finite figure that goes with a lowered flag is the true maximum exactly outside them. */
  lemma GainIsExact(book: Book, gainAt: real)
    requires PositiveStrikes(book.legs) && IsGainPoint(book, gainAt)
    ensures !UnlimitedGainFlag(book) ==> (IsGlobalMax(book, gainAt) <==> !GainFlagWrong(book))
    ensures CoverPriced(book) && UnlimitedGainFlag(book) ==> UnboundedAbove(book)
    ensures CoverPriced(book) && !UnlimitedGainFlag(book) ==> (UnboundedAbove(book) <==> GainFlagMisses(book))
  {
    GainFlagCondition(book);
    UnboundedAboveIffTailRises(book);
    GridMaxIsGlobal(book, gainAt);
  }

  /** The shares the position report hands to the engine: those held, as far as the open calls use them. */
  function SharesBackingShortCalls(legs: seq<Leg>, held: int): int {
    var required := ShortCallShares(legs) - LongCallShares(legs);
    if required <= 0 || held <= 0 then 0 else if held <= required then held else required
  }

  /** Of the books of that report the gain flag is never wrong, and the loss flag is wrong exactly when
      shares of unknown cost cover every open call. */
  lemma ReportFlags(legs: seq<Leg>, held: int, cost: Option<real>)
    requires PositiveStrikes(legs)
    ensures var book := Book(legs, SharesBackingShortCalls(legs, held), cost);
            && (UnlimitedGainFlag(book) <==> UnboundedAbove(book))
            && ((UnlimitedLossFlag(book) <==> UnboundedBelow(book)) <==>
                  !(cost.None? && 0 < OpenCallShares(book) <= held))
  {
    var book := Book(legs, SharesBackingShortCalls(legs, held), cost);
    GainFlagCondition(book);
    LossFlagCondition(book);
  }

  /** One short call against two hundred shares: the gain is unlimited and the flag is down. */
  lemma HalfCoveredCallMissesGain(cost: real)
    ensures var book := Book([Leg(60.0, Call, -1, 2.0, None)], 200, Some(cost));
            !UnlimitedGainFlag(book) && UnboundedAbove(book)
  {
    var legs := [Leg(60.0, Call, -1, 2.0, None)];
    var book := Book(legs, 200, Some(cost));
    assert legs[..0] == [];
    assert ShortCallShares(legs) == 100 && LongCallShares(legs) == 0;
    UnboundedAboveIffTailRises(book);
  }

  /** A hundred shares of unknown cost beside a short put: the flag is up and the gain is bounded. */
  lemma UnknownCostRaisesGain()
    ensures var book := Book([Leg(60.0, Put, -1, 2.0, None)], 100, None);
            UnlimitedGainFlag(book) && !UnboundedAbove(book)
  {
    var legs := [Leg(60.0, Put, -1, 2.0, None)];
    assert legs[..0] == [];
    assert ShortCallShares(legs) == 0 && LongCallShares(legs) == 0;
    UnboundedAboveIffTailRises(Book(legs, 100, None));
  }

  /** One short call against a hundred shares of unknown cost: reported as defined, in fact unlimited. */
  lemma UnknownCostHidesLoss()
    ensures var book := Book([Leg(60.0, Call, -1, 2.0, None)], 100, None);
            !UnlimitedLossFlag(book) && UnboundedBelow(book)
  {
    var legs := [Leg(60.0, Call, -1, 2.0, None)];
    var book := Book(legs, 100, None);
    assert legs[..0] == [];
    assert ShortCallShares(legs) == 100 && LongCallShares(legs) == 0;
    UnboundedBelowIffTailFalls(book);
  }
}
