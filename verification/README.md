# Bifrost core: verified models

Dafny models of the parts of the trading core whose answers are claims about every price, every run
or every table contents, with proofs of those claims. `dafny verify dfyconfig.toml` checks the project.

Where the source works by changing things (loops over legs and fills, the tables, the message keys),
the model is a method or a class, proved against a function; what the source promises is then proved
about that function. Where the source is an expression (payoff formulas, views, keys), so is the model.

## Layout

| part | modules |
|---|---|
| Expiration payoff | `PayoffModel` (what a book is worth at a price), `PiecewiseLinear`, `Rounding`, `Grid`, `Breakevens`, `Envelope`, `NakedStrip`, `RiskProfile` |
| Fills to legs | `FillNetting` |
| Trade lifecycle | `TradeSchema` (tables and constraints), `TradeOps` (the writers as functions), `DeleteGuards`, `TradeRuns` (all runs), `TradeEffects` (what each writer stores and answers, column by column), `FillAttribution` (whole or in splits), `TradeStore` (the writers as methods of an object holding the tables) |
| Execution views | `ExecutionViews`, `InstanceCounts` |
| Account sync | `ContractKey`, `AccountSync` |
| Message center | `MessageCenter`, `MessageReplay`, `MessageStore`, `StatusTracker` |
| Gate parameters | `GateMerge` |

`Prelude` holds the option type.

## How the main results are built

- Payoff. The engine looks at a finite grid and answers for all prices. `PayoffAffine` (by induction over
  the legs) makes the payoff a line between neighbouring strikes; with segment location and the tail slope
  this gives `GridMinIsGlobal`, `LossIsExact` and the breakeven results. That strikes are
  positive is an assumption: the strike parser of fills guarantees it, the position reader (`core.py`
  165-184) does not. Prices are `real`; rounding is a separate last step.
- Naked calls. A removal is a vector of contracts per leg. `GreedyKeepsMostLiability` compares the greedy
  removal with every other one through a pivot strike. It is about what the calls owe, not about the
  premium that goes with them (`StripDifference`, `GreedyMayLoseLess`).
- Lifecycle. `Commit` is a transaction: it takes effect exactly when the declared constraints hold
  afterwards. `Good` adds what only the writers keep. `DeleteGuards`, `LifecycleMovesExact`, `PatchExact`,
  `PatchNeverFails` and `SplitsNeverFail` say that past those guards the constraints never fire;
  `RunKeepsGood` and `RunEvolves` carry one step to all runs.
- Views. Tables are sequences of rows, so a row met twice would show.
- Message center. The invariant relates items, index and pointers through the time each was last
  written; expired keys count as gone from the moment the clock reaches their expiry. `CallsAreRun` and
  `AppliedIsBatch` tie the methods of `Queue` to the run and replay results.

## Where the code does less than a simple reading suggests

Each of these is a lemma giving the exact condition, with a concrete case where one helps.

- The unlimited-gain flag (`payoff.py` 165-167) with priced shares > 0 is down although the gain is
  unlimited when shorts > 0 and shorts - shares < longs <= shorts + shares (`HalfCoveredCallMissesGain`).
  Shares of unknown cost are left out of the payoff: the flag is then wrongly up with no calls at all
  (`UnknownCostRaisesGain`), and wrongly down when shorts > 0 and shorts < longs <= shorts + shares. With
  a negative share count it is wrongly up when shorts + shares < longs <= shorts. `GainFlagCondition` says
  that these are all the cases. They arise only for callers other than the position report, which passes
  the shares its open calls use (`ReportFlags`).
- The unlimited-loss flag (161-164) counts shares of unknown cost as cover while the payoff leaves them
  out, and takes a negative share count at face value (`LossFlagCondition`, `UnknownCostHidesLoss`).
- `compute_risk_profile` answers zeros for an empty leg list even when there are shares
  (`ComputeRiskProfile`); a trade whose loss is unlimited gets the underlying fallback as its risk
  (`InstanceMaxRisk`).
- Netting prices an open key at the absolute value of its average cost; when the net cost runs against the
  net quantity the payoff shifts by a fixed amount (`KeyGapIsZero`), and the reported risk can then fall
  short of what the fills lose (`RiskCoversIff`, `RiskFallsShort`). Net quantities that are not whole are rounded, which
  bends the payoff (`NettingShift`, `DriftIsFlatIff`).
- The plan rules (`strategy_plan.py` 11-28) say that after intend only the expiry changes. Deleting an
  opportunity or a parent draft also clears the link to it (`LinksClearedIff`).
- A fill is meant to be attributed one way, whole or in splits (`accounts.py` 165-179, 1553-1556), and only
  `patch_execution` always checks. `insert_one_execution` (1107-1114) puts a whole row without looking for
  splits, and `update_one_execution` (1413-1417) looks only when `fill_splits` is missing, so a null passes.
  Either leaves a split fill whole as well, or fails on the unique key when the trade has one of the splits
  (`OneWayKeptIff`, `InsertFailsIff`, `UpdateFailsIff`, `SplitFillTakesWhole`).
- The update's pair rule reads the payload alone, so clearing half a stored pair passes it and is stopped
  only by the table's CHECK (`UpdatePairGap`, `UpdateRefusedByTable`, `ClearingHalfIsRefused`).
- The gate and allocation guards refuse deletes the schema would allow by clearing the settings row
  (`GateGuardMatchesSchema`, `DeleteAllocationExact`).
- Exec ids are unique per table only, and a journal row takes any. One with the exec id of a Flex row is
  twice in the final view, and one with that of a TWS row is in the final and the pending view, although
  `docs/BROKERAGE_GOLDEN_SOURCE.md` 66-67 says that the pending view leaves out a TWS row with a journal
  counterpart; the query tests Flex alone (`brokerage_views.py` 151-156). An exec id of spaces that Flex has
  is also counted in both. `CountedTwiceIff` says that these are all the cases (`JournalRepeatsFlex`,
  `JournalRepeatsPending`, `SpacesCountedTwice`).
- A split is not met when its only rows are TWS rows whose exec id Flex has for another account, and met twice
  when a journal row stands beside another shown row (`RecordedMetOnceIff`, `ForeignTwinLosesSplit`,
  `JournalTwinDoublesSplit`). A TWS key of 1e9 plus a journal key gets that row's id (`IdsDistinctIff`,
  `ShiftedKeysCollide`), and the way back from an id takes a TWS key from 1e9 on for a journal row (`RawOfEid`).
- A fill that has left the pending view comes back when a Flex correction lowers the day covered for its
  account (`ImportBringsNothingBackIff`, `CorrectionBringsBack`).
- A breakeven on a strike is listed twice when the payoff comes to it from a loss, and the last grid point is
  also listed twice then unless it is a whole number of cents (`ListedTimes`, `StrikeListedTwice`).
- `save_review` does not look whether the trade is there and leaves that to the foreign key (`ReviewExact`).
- The unknown-path test accepts an object where the reference has a leaf (`FullShapeKeptIff`, `ObjectReplacesLeaf`).

## Model

| member | source | states |
|---|---|---|
| `PayoffModel.PayoffOptionsAtPrice` | src/bifrost_core/portfolio/model/payoff.py:63-72 | the two-branch loop computes the signed sum of leg payoffs |
| `PiecewiseLinear.OptionsAffine` | src/bifrost_core/portfolio/model/payoff.py:63-72 | between two prices with no strike strictly between them the options payoff is a straight line, by induction over the legs |
| `PiecewiseLinear.PayoffAffine` | src/bifrost_core/portfolio/model/payoff.py:63-78 | the same for the whole book, shares included |
| `PiecewiseLinear.PayoffTail` | src/bifrost_core/portfolio/model/payoff.py:63-78 | past the top strike the payoff is the line whose slope is long calls less short calls plus priced shares |
| `PiecewiseLinear.SegmentBounds` | src/bifrost_core/portfolio/model/payoff.py:63-78 | on a kink-free segment the payoff never leaves the range of its two end values |
| `PiecewiseLinear.TailUnbounded` | src/bifrost_core/portfolio/model/payoff.py:63-78 | a tail that falls (rises) passes every bound |
| `PiecewiseLinear.LegAtStrike` | src/bifrost_core/portfolio/model/payoff.py:63-72 | at its strike a leg shows the premium alone, paid when long and kept when short; with the slope this fixes the leg at every price |
| `PiecewiseLinear.SharesAtCost` | src/bifrost_core/portfolio/model/payoff.py:75-78 | shares sold at their cost earn nothing, however many they are; with the slope this fixes their payoff |
| `PiecewiseLinear.OneMoreShare` | src/bifrost_core/portfolio/model/payoff.py:75-78 | one more share earns the price less its cost |
| `PiecewiseLinear.CoveredPairAtZero` | src/bifrost_core/portfolio/model/payoff.py:63-78 | a concrete book of 200 shares: 7600 lost at a price of zero |
| `Rounding.NearestIsUnique` | src/bifrost_core/portfolio/model/payoff.py:100-101 | the rounding is the nearest whole number and, between two, the even one: if and only if |
| `Rounding.Round2IsNearestCent` | src/bifrost_core/portfolio/model/payoff.py:100-101 | to cents: the result is n cents if and only if n is the nearest whole number of cents, the even one between two |
| `Rounding.RoundMonotone` | src/bifrost_core/portfolio/model/payoff.py:100-101 | rounding keeps order, so minima survive it |
| `Rounding.RoundHalfCentDown` | src/bifrost_core/portfolio/model/payoff.py:100-101 | at most half a cent rounds to zero (needed for the last breakeven's membership test) |
| `Grid.DistinctStrikes` | src/bifrost_core/portfolio/model/payoff.py:88 | strictly increasing, and exactly the strikes that occur |
| `Grid.GetRiskGridRows` | src/bifrost_core/portfolio/model/payoff.py:81-97 | no rows for an empty book, else the exact payoff at every grid price, in order |
| `Grid.GridShape` | src/bifrost_core/portfolio/model/payoff.py:88-91 | the grid starts at 0, strictly increases, holds every strike and reaches past all of them |
| `Grid.GridMembers` | src/bifrost_core/portfolio/model/payoff.py:88-91 | the grid holds zero, the strikes and twice the top strike, and nothing else |
| `Grid.GridDominates` | src/bifrost_core/portfolio/model/payoff.py:81-97 | every price from 0 upward is bounded below by a grid price unless the tail falls, and above unless it rises |
| `Grid.GridMinIsGlobal` | src/bifrost_core/portfolio/model/payoff.py:187-211 | the grid minimum is the minimum over all prices if and only if the tail does not fall |
| `Grid.GridMaxIsGlobal` | src/bifrost_core/portfolio/model/payoff.py:187-211 | the grid maximum is the maximum over all prices if and only if the tail does not rise |
| `Grid.UnboundedBelowIffTailFalls` | src/bifrost_core/portfolio/model/payoff.py:161-164 | no bound holds the loss if and only if the tail falls |
| `Grid.UnboundedAboveIffTailRises` | src/bifrost_core/portfolio/model/payoff.py:165-167 | no bound holds the gain if and only if the tail rises |
| `Breakevens.CrossingIsTheZero` | src/bifrost_core/portfolio/model/payoff.py:176-179 | the interpolated crossing lies in its segment, is an exact zero, and is the only zero there |
| `Breakevens.NoInnerZero` | src/bifrost_core/portfolio/model/payoff.py:176-181 | a segment without a sign change has an inner zero only if both ends are zero |
| `Breakevens.SegmentStep` | src/bifrost_core/portfolio/model/payoff.py:173-181 | one pass of the loop keeps: exact zeros, in order, none missed so far |
| `Breakevens.FindBreakevens` | src/bifrost_core/portfolio/model/payoff.py:172-185 | the reported list is the rounding of a list of zeros that is exact, non-decreasing, complete up to the end of the grid except inside flat segments, and lists each zero as often as stated |
| `Breakevens.SegmentReports` | src/bifrost_core/portfolio/model/payoff.py:173-181 | what a segment adds to the reported list, by the payoff at its ends: its zero to the cent, its first price as it is, or nothing |
| `Breakevens.ListedTimes` | src/bifrost_core/portfolio/model/payoff.py:172-185 | a zero off the grid is listed once; one on an inner grid point twice if and only if the payoff comes to it from a loss; the last point twice if and only if, besides, it is not a whole number of cents |
| `Breakevens.LastReportedIff` | src/bifrost_core/portfolio/model/payoff.py:182-185 | the last point is already in the reported list if and only if the payoff comes to it from a loss and it is a whole number of cents |
| `Breakevens.StrikeListedTwice` | src/bifrost_core/portfolio/model/payoff.py:176-181 | a concrete book whose one breakeven above zero is a strike and is listed twice |
| `Breakevens.ListedMeansExact` | src/bifrost_core/portfolio/model/payoff.py:182-185 | the membership test on the rounded list never drops the last grid zero |
| `Breakevens.ZeroBeyondGrid` | src/bifrost_core/portfolio/model/payoff.py:172-185 | exactly when the payoff has a zero past the grid, which is never listed |
| `Envelope.ExtremeRows` | src/bifrost_core/portfolio/model/payoff.py:187-211 | first row of least total and first row of greatest total |
| `Envelope.ComputeEnvelope` | src/bifrost_core/portfolio/model/payoff.py:149-217 | figures, flags, scenarios and breakevens of a book; loss and gain points are the lowest-priced grid extremes |
| `Envelope.LossIsExact` | src/bifrost_core/portfolio/model/payoff.py:161-164 | with a known share cost: the flag is raised if and only if no bound holds the loss; otherwise the loss point is the minimum over every price |
| `Envelope.LossFlagCondition` | src/bifrost_core/portfolio/model/payoff.py:161-164 | for every book: the loss flag is right if and only if the book is not in the stated family (unpriced cover, negative share count) |
| `Envelope.GainFlagCondition` | src/bifrost_core/portfolio/model/payoff.py:165-170 | for every book: the gain flag is right if and only if the book is outside the stated cases (priced, unpriced and negative shares) |
| `Envelope.GainIsExact` | src/bifrost_core/portfolio/model/payoff.py:165-170 | for every book: with the flag down, the grid maximum is the true one if and only if the book is outside those cases; with a known share cost a raised flag is always right |
| `Envelope.UnknownCostRaisesGain` | src/bifrost_core/portfolio/model/payoff.py:165-167 | a concrete book with a raised gain flag and a bounded gain |
| `Envelope.HalfCoveredCallMissesGain` | src/bifrost_core/portfolio/model/payoff.py:165-167 | a concrete book with a lowered gain flag and an unlimited gain |
| `Envelope.ReportFlags` | src/bifrost_core/portfolio/model/core.py:199-221 | of the books the position report builds the gain flag is never wrong, and the loss flag is wrong if and only if shares of unknown cost cover every open call |
| `Envelope.UnknownCostHidesLoss` | src/bifrost_core/portfolio/model/payoff.py:161-164 | a concrete book reported as defined whose loss is unlimited |
| `NakedStrip.ShortCallOrder` | src/bifrost_core/portfolio/model/payoff.py:117-120 | the short calls, by falling strike, equal strikes in book order |
| `NakedStrip.TakeHighestFirst` | src/bifrost_core/portfolio/model/payoff.py:117-129 | the greedy loop removes min(n, short contracts) contracts, highest strike first, and records the new quantities |
| `NakedStrip.StripNakedShortCalls` | src/bifrost_core/portfolio/model/payoff.py:112-146 | the legs that remain are the original ones less that removal; nothing is removed for n <= 0 |
| `NakedStrip.GreedyTakesFirst` | src/bifrost_core/portfolio/model/payoff.py:117-129 | while a leg gives up a contract, every short call of a higher strike, or before it at the same strike, has given up all |
| `NakedStrip.GreedyIsUnique` | src/bifrost_core/portfolio/model/payoff.py:117-129 | the size of a highest-first removal determines it, so the stripped book is determined |
| `NakedStrip.StrippedShape` | src/bifrost_core/portfolio/model/payoff.py:130-146 | the remaining legs are original legs in their order, with only contracts taken off, and no short leg changes side |
| `NakedStrip.StrippedCounts` | src/bifrost_core/portfolio/model/payoff.py:130-146 | every other leg is still there and exactly the removed contracts are gone |
| `NakedStrip.ExchangeAtPivot` | src/bifrost_core/portfolio/model/payoff.py:112-146 | the exchange argument: relative to a pivot strike, taking above and sparing below loses no liability |
| `NakedStrip.GreedyKeepsMostLiability` | src/bifrost_core/portfolio/model/payoff.py:112-146 | among all removals of the same size, highest strike first leaves the largest short-call liability at every price |
| `RiskProfile.PayoffIsPremiumPlusIntrinsic` | src/bifrost_core/portfolio/model/payoff.py:240-246 | the options payoff is the net premium plus the intrinsic value, at every price |
| `RiskProfile.ComputeNetPremium` | src/bifrost_core/portfolio/model/payoff.py:240-246 | the premium loop computes that net premium |
| `RiskProfile.StripDifference` | src/bifrost_core/portfolio/model/payoff.py:112-146 | two removals leave payoffs that differ by the premium kept less the liability kept |
| `RiskProfile.GreedyMayLoseLess` | src/bifrost_core/portfolio/model/payoff.py:255-262 | a concrete book whose greedy hedge loses less than another removal of the same size would |
| `RiskProfile.RoundedLossIsLeast` | src/bifrost_core/portfolio/model/payoff.py:255-278 | after rounding too, no price shows less than the reported loss |
| `RiskProfile.NakedIsLeast` | src/bifrost_core/portfolio/model/payoff.py:248-251 | the naked count is the least n whose removal leaves no uncovered upside, and there are that many to remove |
| `RiskProfile.HedgedCover` | src/bifrost_core/portfolio/model/payoff.py:255-262 | removing the naked contracts leaves a covered book |
| `RiskProfile.HedgedLossIsGlobalIff` | src/bifrost_core/portfolio/model/payoff.py:255-262 | for every book and removal: the stripped book's loss point is the minimum over all prices if and only if the priced shares cover the calls still open |
| `RiskProfile.HedgedLossIsGlobal` | src/bifrost_core/portfolio/model/payoff.py:255-262 | so with a known share cost the hedged book always has a finite loss, attained at its loss point |
| `RiskProfile.ComputeRiskProfile` | src/bifrost_core/portfolio/model/payoff.py:220-278 | the whole profile: rounded figures, premium, naked count and hedged figures tied to the exact ones; zeros for an empty leg list, shares or not |
| `FillNetting.Accumulate` | src/bifrost_core/monitor/reader/strategy_win_rate.py:164-183 | the first loop holds, per (strike, right), the sums of signed quantity and signed cost, keys in order of first appearance |
| `FillNetting.NetFills` | src/bifrost_core/monitor/reader/strategy_win_rate.py:164-191 | both loops compute the netted legs |
| `FillNetting.FillPayoffIs` | src/bifrost_core/monitor/reader/strategy_win_rate.py:166-182 | which rows count and for how much, by their columns: a buy earns worth less price, a sale price less worth, any other row nothing |
| `FillNetting.SkippedFill` | src/bifrost_core/monitor/reader/strategy_win_rate.py:167-175 | a row that does not count leaves the netted legs as they are |
| `FillNetting.FillsPayoffByKey` | src/bifrost_core/monitor/reader/strategy_win_rate.py:166-183 | the payoff fill by fill equals the payoff key by key |
| `FillNetting.NettingShift` | src/bifrost_core/monitor/reader/strategy_win_rate.py:164-191 | for any fills: netting moves the payoff by an amount that does not depend on the price, plus what rounding the net quantities adds |
| `FillNetting.NettingShiftsByConstant` | src/bifrost_core/monitor/reader/strategy_win_rate.py:164-191 | when every key nets to whole contracts, by the one amount at every price |
| `FillNetting.DriftIsFlatIff` | src/bifrost_core/monitor/reader/strategy_win_rate.py:186-191 | what rounding a key adds is the same at every price if and only if its net quantity is whole |
| `FillNetting.KeyGapIsZero` | src/bifrost_core/monitor/reader/strategy_win_rate.py:185-191 | a key adds nothing to that amount if and only if its net cost does not run against its net quantity; a flat key adds its cash |
| `FillNetting.NettingGapIsFlatCash` | src/bifrost_core/monitor/reader/strategy_win_rate.py:185-191 | when no open key's cost runs against its quantity, the amount is the cash of the flat keys |
| `FillNetting.InstanceMaxRisk` | src/bifrost_core/monitor/reader/strategy_win_rate.py:164-199 | the risk is the rounded global minimum of the netted book, or the fallback when there is no leg, no finite loss or no loss; and with whole net contracts the exact condition under which it covers the fills |
| `FillNetting.RiskCoversFills` | src/bifrost_core/monitor/reader/strategy_win_rate.py:193-199 | a reported risk covers the fills themselves at every price, up to half a cent, the netting amount and the rounding |
| `FillNetting.RiskCoversIff` | src/bifrost_core/monitor/reader/strategy_win_rate.py:193-199 | whatever the risk is, reported loss or fallback: with whole net contracts it covers the fills at every price if and only if their loss has a bound and the netting amount is at most the netted minimum plus the risk |
| `FillNetting.ReportedRiskCovers` | src/bifrost_core/monitor/reader/strategy_win_rate.py:197-198 | a reported loss covers them always when the netting amount is at most minus half a cent, and never when it is above half a cent |
| `FillNetting.RiskFallsShort` | src/bifrost_core/monitor/reader/strategy_win_rate.py:186-198 | concrete fills: the risk reported is 700 and the fills lose 1300 |
| `DeleteGuards.TradeGuardMatchesSchema` | src/bifrost_core/monitor/reader/strategy_instance.py:297-341 | the guard finds a reference if and only if the delete would violate a foreign key |
| `DeleteGuards.DeleteTradeExact` | src/bifrost_core/monitor/reader/strategy_instance.py:297-341 | a trade delete succeeds if and only if the trade exists and nothing the guard names refers to it; otherwise nothing changes |
| `DeleteGuards.OpportunityGuardMatchesSchema` | src/bifrost_core/monitor/reader/strategy_rules_delete.py:77-87 | trades are exactly what the schema restricts; memberships cascade and plan links are cleared |
| `DeleteGuards.DeleteOpportunityExact` | src/bifrost_core/monitor/reader/strategy_rules_delete.py:172-183 | success if and only if it exists and has no trade |
| `DeleteGuards.GateGuardMatchesSchema` | src/bifrost_core/monitor/reader/strategy_rules_delete.py:127-150 | the guard is the schema's restriction plus the settings row, which the schema would only clear |
| `DeleteGuards.DeleteGateExact` | src/bifrost_core/monitor/reader/strategy_rules_delete.py:127-150 | success if and only if it exists and no opportunity, allocation or setting uses it |
| `DeleteGuards.DeleteAllocationExact` | src/bifrost_core/monitor/reader/strategy_rules_delete.py:108-113 | success if and only if it exists and is not the active one; no foreign key can stop it |
| `DeleteGuards.DeletePlanExact` | src/bifrost_core/monitor/reader/strategy_plan.py:720-734 | success if and only if the plan is a draft; no foreign key can stop it |
| `TradeEffects.DeletedPlan` | src/bifrost_core/monitor/reader/strategy_plan.py:720-734 | a deleted plan is gone and nothing else is; plans rolled from it lose the link, every other row is unchanged |
| `TradeEffects.DeletedTrade` | src/bifrost_core/monitor/reader/strategy_instance.py:297-341 | a deleted trade is gone and nothing else is |
| `TradeEffects.DeletedOpportunity` | src/bifrost_core/monitor/reader/strategy_rules_delete.py:172-183 | a deleted opportunity is gone with its memberships and the plans' links to it, and nothing else is |
| `TradeEffects.DeletedAllocation` | src/bifrost_core/monitor/reader/strategy_rules_delete.py:108-113 | a deleted allocation is gone with its memberships, and nothing else is |
| `TradeEffects.DeletedGate` | src/bifrost_core/monitor/reader/strategy_rules_delete.py:127-150 | a deleted gate set is gone and nothing else is |
| `TradeEffects.DeleteAnswers` | src/bifrost_core/monitor/reader/strategy_rules_delete.py:172-183 | what each delete answers: not found, conflict or done |
| `TradeEffects.RefusedChangesNothing` | src/bifrost_core/monitor/reader/strategy_plan.py:290-534 | every refused operation leaves the tables as they are |
| `TradeEffects.CreateExact` | src/bifrost_core/monitor/reader/strategy_plan.py:290-321 | exactly when a plan is created, what a refusal answers, and the row |
| `TradeEffects.EditStores` | src/bifrost_core/monitor/reader/strategy_plan.py:699-711 | after an accepted edit every field holds what was sent, or what it held; status, links and every other row are unchanged |
| `TradeEffects.IntendedExpiryStored` | src/bifrost_core/monitor/reader/strategy_plan.py:690-711 | an intended plan's new expiry is stored and nothing else changes |
| `TradeEffects.UpdateAnswers` | src/bifrost_core/monitor/reader/strategy_plan.py:324-372 | what an update answers, by the fields sent |
| `TradeEffects.PatchAnswers` | src/bifrost_core/monitor/reader/strategy_plan.py:661-717 | what a patch answers, by the fields sent |
| `TradeEffects.PatchRefused` | src/bifrost_core/monitor/reader/strategy_plan.py:699-711 | a patch past those guards fails only on a pair that would not be whole or on a missing reference |
| `TradeEffects.MovesStore` | src/bifrost_core/monitor/reader/strategy_plan.py:375-502 | intend, link and cancel change the status, and a link the trade, of one row |
| `TradeEffects.MoveAnswers` | src/bifrost_core/monitor/reader/strategy_plan.py:375-502 | what intend, link and cancel answer |
| `TradeEffects.CreateTradeExact` | src/bifrost_core/monitor/reader/strategy_instance.py:169-209 | exactly when a trade is created, and the row |
| `TradeEffects.TradePatchStores` | src/bifrost_core/monitor/reader/strategy_instance.py:222-251 | exactly when a trade is patched, and what it stores |
| `TradeEffects.ReviewStores` | src/bifrost_core/monitor/reader/trade_review.py:127-137 | a confirm stamps once, a retraction clears, a save that does not say keeps; no other review changes |
| `TradeEffects.ActiveStores` | src/bifrost_core/monitor/reader/settings.py:125-172 | exactly when the settings are written, and that columns not sent are kept |
| `TradeEffects.ReachablePlanRows` | src/bifrost_core/persistence/postgres/trade_ddl.py:105-141 | in every reachable state each plan meets its column checks and names only rows that are there |
| `TradeEffects.ReachableOtherRows` | src/bifrost_core/persistence/postgres/trade_ddl.py:70-154 | and so do trades, fills and reviews |
| `TradeEffects.ReachableRules` | src/bifrost_core/persistence/postgres/ddl.py:481-524 | and opportunities, allocations, memberships and settings |
| `TradeRuns.StepKeepsGood` | src/bifrost_core/persistence/postgres/trade_ddl.py:70-154 | every writer keeps all declared constraints and the plan rules (leg and exit once intended, the trade's account once filled) |
| `TradeRuns.StepEvolves` | src/bifrost_core/monitor/reader/strategy_plan.py:11-28 | one step moves a plan's status only along draft, intended, filled or to cancelled; only a draft disappears, by its own delete |
| `TradeRuns.LinksClearedIff` | src/bifrost_core/persistence/postgres/trade_ddl.py:105-141 | past draft, a link changes if and only if what it names is deleted, and then it is cleared; the expiry moves only by a patch of an intended plan |
| `TradeRuns.DraftDeleteClears` | src/bifrost_core/monitor/reader/strategy_plan.py:720-734 | deleting a draft clears the parent link of every plan rolled from it, and nothing else of it |
| `TradeRuns.RunKeepsGood` | src/bifrost_core/persistence/postgres/trade_ddl.py:70-154 | no run of any length leaves a dangling reference, a half pair or a plan without leg or exit |
| `TradeRuns.RunEvolves` | src/bifrost_core/monitor/reader/strategy_plan.py:324-502 | over any run a plan evolves along its life with its judged content frozen after draft, or is gone for good if it was a draft |
| `TradeRuns.FilledForever` | src/bifrost_core/monitor/reader/strategy_plan.py:421-472 | a filled plan stays filled by the same trade, which stays, in the same account |
| `TradeRuns.ReachablePlans` | src/bifrost_core/persistence/postgres/trade_ddl.py:132-139 | in every reachable state: filled if and only if a trade is linked, that trade exists in the plan's account, intended and filled plans have a leg and an exit, pairs are whole |
| `TradeRuns.FilledThroughIntended` | src/bifrost_core/monitor/reader/strategy_plan.py:375-472 | every run from draft to filled passes through intended |
| `TradeRuns.OpportunityDeleteClears` | src/bifrost_core/monitor/reader/strategy_rules_delete.py:77-87 | deleting an opportunity clears the link of every plan to it, whatever its status, and nothing else of it |
| `TradeRuns.LinkLossHappens` | src/bifrost_core/monitor/reader/strategy_rules_delete.py:77-87 | a concrete intended plan that loses its link, with nothing to refuse the delete |
| `TradeRuns.UpdatePairGap` | src/bifrost_core/monitor/reader/strategy_plan.py:568-576 | an update's pair rule lets through exactly the edits that clear half of a stored pair |
| `TradeRuns.UpdateRefusedByTable` | src/bifrost_core/monitor/reader/strategy_plan.py:324-372 | exactly when an update that passed its guards is refused by the table |
| `TradeRuns.ClearingHalfIsRefused` | src/bifrost_core/monitor/reader/strategy_plan.py:568-576 | a concrete draft and update that pass the guards and are refused by the table |
| `TradeRuns.ReviewExact` | src/bifrost_core/monitor/reader/trade_review.py:100-230 | a save and a patch of a review succeed if and only if the trade is there; the save is otherwise stopped by the foreign key, the patch by its guard |
| `TradeRuns.NoStampUntilConfirm` | src/bifrost_core/monitor/reader/trade_review.py:127-137 | after a retraction, or from the start, there is no stamp until the next confirm |
| `TradeRuns.StampIsFirstConfirm` | src/bifrost_core/monitor/reader/trade_review.py:127-137 | over any sequence of saves the stamp is the time of the first confirm since the last retraction |
| `TradeRuns.OneRowChanged` | src/bifrost_core/persistence/postgres/trade_ddl.py:105-141 | rewriting one plan is legal if and only if the new row meets its CHECKs and references |
| `TradeRuns.LifecycleMovesExact` | src/bifrost_core/monitor/reader/strategy_plan.py:375-502 | intend, link and cancel succeed exactly under their guards: no constraint can fire after them |
| `TradeRuns.PatchExact` | src/bifrost_core/monitor/reader/strategy_plan.py:661-717 | a patch succeeds exactly under its guards and with existing references |
| `TradeStore.Store.constructor` | src/bifrost_core/persistence/postgres/trade_ddl.py:70-154 | the empty tables satisfy every rule |
| `TradeStore.Store.CommitTo` | src/bifrost_core/monitor/reader/strategy_plan.py:290-321 | a transaction writes everything or nothing |
| `TradeStore.Store.CreateDraft` | src/bifrost_core/monitor/reader/strategy_plan.py:299-321 | create, against its specification |
| `TradeStore.Store.Update` | src/bifrost_core/monitor/reader/strategy_plan.py:324-372 | update of a draft, against its specification |
| `TradeStore.Store.Patch` | src/bifrost_core/monitor/reader/strategy_plan.py:661-717 | patch, against its specification |
| `TradeStore.Store.Intend` | src/bifrost_core/monitor/reader/strategy_plan.py:375-418 | intend, with its three refusals |
| `TradeStore.Store.Link` | src/bifrost_core/monitor/reader/strategy_plan.py:421-472 | link, with its three refusals |
| `TradeStore.Store.Cancel` | src/bifrost_core/monitor/reader/strategy_plan.py:475-502 | cancel of a draft or intended plan |
| `TradeStore.Store.RemovePlan` | src/bifrost_core/monitor/reader/strategy_plan.py:720-734 | delete of a draft; children lose their parent link |
| `TradeStore.Store.OpenTrade` | src/bifrost_core/monitor/reader/strategy_instance.py:169-209 | create a trade |
| `TradeStore.Store.RemoveTrade` | src/bifrost_core/monitor/reader/strategy_instance.py:297-341 | delete a trade |
| `TradeStore.Store.RemoveOpportunity` | src/bifrost_core/monitor/reader/strategy_rules_delete.py:77-87 | delete an opportunity |
| `TradeStore.Store.RemoveAllocation` | src/bifrost_core/monitor/reader/strategy_rules_delete.py:108-113 | delete an allocation |
| `TradeStore.Store.RemoveGate` | src/bifrost_core/monitor/reader/strategy_rules_delete.py:127-150 | delete a gate set |
| `TradeStore.Store.CheckSplits` | src/bifrost_core/portfolio/reader/accounts.py:165-204 | the loop accepts a split list if and only if every split names a trade of the account and is not zero, no trade twice, and they add up |
| `TradeStore.Store.PutSplitRows` | src/bifrost_core/portfolio/reader/accounts.py:213-231 | splits deleted, whole row cleared, new splits inserted row by row |
| `TradeStore.Store.SetSplits` | src/bifrost_core/portfolio/reader/accounts.py:234-265 | replace a fill's splits |
| `TradeStore.Store.CommitWhole` | src/bifrost_core/portfolio/reader/accounts.py:133-150 | drop or upsert the whole-fill row; a clash with the unique key rolls back |
| `TradeStore.Store.PatchFill` | src/bifrost_core/portfolio/reader/accounts.py:1586-1616 | change an attribution, with the test for splits |
| `TradeStore.Store.EditFill` | src/bifrost_core/portfolio/reader/accounts.py:1396-1423 | edit an execution: splits first, then the whole row, the test for splits only when the field is missing |
| `TradeStore.Store.InsertFill` | src/bifrost_core/portfolio/reader/accounts.py:1104-1128 | attribute a new execution: whole row first, without the test, then splits |
| `TradeStore.Store.RemoveFill` | src/bifrost_core/portfolio/reader/accounts.py:116-130 | a fill whose last raw row is gone loses its attribution |
| `TradeStore.Store.EditTrade` | src/bifrost_core/monitor/reader/strategy_instance.py:222-251 | patch a trade's label and opening time |
| `TradeStore.Store.Review` | src/bifrost_core/monitor/reader/trade_review.py:100-159 | save a trade's review: a second confirm keeps the stamp, a retraction clears it, a save that does not say keeps what is stored |
| `TradeStore.Store.EditReview` | src/bifrost_core/monitor/reader/trade_review.py:184-234 | patch a review of a trade that is there |
| `TradeStore.Store.Activate` | src/bifrost_core/monitor/reader/settings.py:125-172 | write the settings columns sent, each reference checked |
| `FillAttribution.AddedSplitsRows` | src/bifrost_core/portfolio/reader/accounts.py:213-231 | after a replacement the fill's rows are exactly the splits sent |
| `FillAttribution.WholeRows` | src/bifrost_core/portfolio/reader/accounts.py:133-150 | the upsert leaves exactly the new whole row, every split and every other fill; it meets the unique key if and only if the trade has a split of the fill |
| `FillAttribution.SplitRows` | src/bifrost_core/portfolio/reader/accounts.py:205-231 | a replacement leaves exactly the splits sent, or with an empty list only the whole row; every other fill keeps its rows |
| `FillAttribution.SplitsOkIff` | src/bifrost_core/portfolio/reader/accounts.py:185-204 | which lists pass, split by split |
| `FillAttribution.AddsUpIff` | src/bifrost_core/portfolio/reader/accounts.py:203-204 | within one part in a hundred thousand of the fill, or of one share for a smaller fill |
| `FillAttribution.PatchRows` | src/bifrost_core/portfolio/reader/accounts.py:1586-1616 | the rows a committed patch leaves, trade by trade |
| `FillAttribution.UpdateRows` | src/bifrost_core/portfolio/reader/accounts.py:1396-1423 | the rows a committed edit leaves |
| `FillAttribution.InsertRows` | src/bifrost_core/portfolio/reader/accounts.py:1104-1128 | the rows a committed insert leaves: a trade sent beside splits counts for nothing |
| `FillAttribution.DropRowsOfFill` | src/bifrost_core/portfolio/reader/accounts.py:116-130 | a fill whose last raw row is gone has no rows left, and every other fill keeps its own |
| `FillAttribution.UpdateDoneIff` | src/bifrost_core/portfolio/reader/accounts.py:1396-1423 | exactly when an edit commits |
| `FillAttribution.SplitsNeverFail` | src/bifrost_core/portfolio/reader/accounts.py:165-231 | replacing splits succeeds if and only if every split is checked and they add up: no constraint fires |
| `FillAttribution.PatchNeverFails` | src/bifrost_core/portfolio/reader/accounts.py:1586-1616 | the guarded writer succeeds if and only if its guards pass: no constraint fires |
| `FillAttribution.PatchConflictIff` | src/bifrost_core/portfolio/reader/accounts.py:1599-1605 | it answers a conflict if and only if a trade is sent for a split fill without a list of splits |
| `FillAttribution.UpdateFailsIff` | src/bifrost_core/portfolio/reader/accounts.py:1396-1423 | the edit meets the unique key if and only if it sends `fill_splits: null` and a trade that has a split of the fill |
| `FillAttribution.InsertFailsIff` | src/bifrost_core/portfolio/reader/accounts.py:1104-1128 | the insert meets it if and only if its trade has a split of the fill |
| `FillAttribution.OneWayKeptIff` | src/bifrost_core/portfolio/reader/accounts.py:1104-1128 | from a state where every fill is whole or split, an operation keeps it so if and only if it is not an insert, or an edit with `fill_splits: null`, that names a trade without a split of a split fill |
| `FillAttribution.RunKeepsOneWay` | src/bifrost_core/portfolio/reader/accounts.py:1413-1423 | a run without such a step ends with every fill whole or split |
| `FillAttribution.PatchLeavesOneWay` | src/bifrost_core/portfolio/reader/accounts.py:1586-1616 | whatever state it finds, the guarded writer leaves its fill whole or split |
| `FillAttribution.SplitFillTakesWhole` | src/bifrost_core/portfolio/reader/accounts.py:1107-1114 | a state in which the insert and the edit each commit and leave a fill both whole and split |
| `ExecutionViews.EidsEqualIff` | src/bifrost_core/persistence/postgres/brokerage_views.py:182-201 | two raw rows share a synthetic id if and only if they are one row of one table, or a TWS key is 1e9 plus a journal key |
| `ExecutionViews.RawOfEid` | src/bifrost_core/portfolio/reader/accounts.py:272-302 | the way back from a synthetic id finds its table and key if and only if it is not a TWS row with a key from 1e9 on |
| `ExecutionViews.FlyMembers` | src/bifrost_core/persistence/postgres/brokerage_views.py:140-158 | the pending view, by columns: a TWS row that is no combo, has an account and a day, an exec id that is blank or that no Flex row has, and is later than every dated Flex row of its account |
| `ExecutionViews.ExecutionsMembers` | src/bifrost_core/persistence/postgres/brokerage_views.py:182-201 | the executions view, by columns |
| `ExecutionViews.FinalMembers` | src/bifrost_core/persistence/postgres/brokerage_views.py:203-212 | the final view, by columns |
| `ExecutionViews.IdsDistinctIff` | src/bifrost_core/persistence/postgres/brokerage_views.py:182-201 | over the three tables the synthetic ids are distinct if and only if no TWS key is 1e9 plus a journal key |
| `ExecutionViews.ViewsHaveDistinctIds` | src/bifrost_core/persistence/postgres/brokerage_views.py:182-212 | then no view holds a synthetic id twice |
| `ExecutionViews.LeftJoinKeepsRows` | src/bifrost_core/persistence/postgres/brokerage_views.py:56-74 | attribution keeps the raw rows one for one and in order, each with the trade of its whole row |
| `ExecutionViews.MetOnceCondition` | src/bifrost_core/persistence/postgres/brokerage_views.py:182-248 | the join has exactly one row for a split, counted by places, if and only if exactly one table shows its fill |
| `ExecutionViews.RecordedMetOnceIff` | src/bifrost_core/persistence/postgres/brokerage_views.py:182-248 | for a recorded fill: once, unless a journal row stands beside another shown row, or its only rows are TWS rows whose exec id Flex has for another account |
| `ExecutionViews.ForeignTwinLosesSplit` | src/bifrost_core/persistence/postgres/brokerage_views.py:182-248 | a TWS row whose Flex twin is of another account: its split is not met |
| `ExecutionViews.JournalTwinDoublesSplit` | src/bifrost_core/persistence/postgres/brokerage_views.py:182-248 | a journal row with a Flex row's account and exec id: the split is met twice |
| `ExecutionViews.ShiftedKeysCollide` | src/bifrost_core/persistence/postgres/brokerage_views.py:182-201 | a TWS key of 1e9 plus a journal key: two rows share an id |
| `ExecutionViews.SplitsMetOnce` | src/bifrost_core/persistence/postgres/brokerage_views.py:227-248 | when twins share the account and journal ids are apart, every split of a recorded fill is met exactly once, also when the fill has a TWS and a Flex row |
| `ExecutionViews.CountedTwiceIff` | src/bifrost_core/persistence/postgres/brokerage_views.py:140-212 | an exec id occurs twice over the final and the pending view if and only if a journal row has it beside a Flex or a pending row, or it is spaces and both Flex and a pending row have it |
| `ExecutionViews.NoExecCountedTwice` | src/bifrost_core/persistence/postgres/brokerage_views.py:140-212 | so with journal ids apart only an id of spaces occurs twice |
| `ExecutionViews.JournalRepeatsFlex` | src/bifrost_core/persistence/postgres/brokerage_views.py:203-212 | a journal row with a Flex row's exec id: the final view alone has it twice |
| `ExecutionViews.JournalRepeatsPending` | src/bifrost_core/persistence/postgres/brokerage_views.py:151-156 | a journal row with a pending row's exec id: the pending test does not look at the journal |
| `ExecutionViews.SpacesCountedTwice` | src/bifrost_core/persistence/postgres/brokerage_views.py:152-157 | a Flex and a later TWS row with one space for an exec id: it is in both views |
| `ExecutionViews.NothingReturnsIff` | src/bifrost_core/persistence/postgres/brokerage_views.py:140-158 | a change of the Flex rows makes no fill pending, whichever fills there are, if and only if no exec id leaves Flex and no account's covered day falls |
| `ExecutionViews.MoreRowsHold` | src/bifrost_core/persistence/postgres/brokerage_views.py:140-158 | Flex rows added beside the stored ones meet that |
| `ExecutionViews.UpsertFlexIs` | src/bifrost_core/portfolio/reader/accounts.py:860-878 | an import replaces the first row of the same exec id, under its key, or adds a row; every other row stays |
| `ExecutionViews.ImportBringsNothingBackIff` | src/bifrost_core/portfolio/reader/accounts.py:860-878 | the upserting import meets it if and only if it lowers no account's covered day |
| `ExecutionViews.CorrectionBringsBack` | src/bifrost_core/portfolio/reader/accounts.py:860-878 | a correction to an earlier date lowers it, and a fill is pending again |
| `ExecutionViews.FlyShrinks` | src/bifrost_core/persistence/postgres/brokerage_views.py:123-158 | then the pending view only shrinks |
| `InstanceCounts.RewriteAgrees` | src/bifrost_core/monitor/reader/strategy_instance.py:74-106 | the union-then-group count equals the correlated OR EXISTS count for every trade and every contents |
| `InstanceCounts.RowsAreIds` | src/bifrost_core/monitor/reader/strategy_instance.py:74-106 | with distinct ids, counting rows and counting ids agree |
| `InstanceCounts.SchemaGivesWholeUnique` | src/bifrost_core/persistence/postgres/trade_ddl.py:87-88 | the partial unique index is what the attribution join needs |
| `InstanceCounts.FinalCountAgrees` | src/bifrost_core/monitor/reader/strategy_instance.py:74-106 | over the attributed final view the new count is the old row count |
| `ContractKey.StkKeyNames` | src/bifrost_core/portfolio/contract_key.py:32-34 | a stock key starts with its symbol and security type |
| `ContractKey.OptKeyNames` | src/bifrost_core/portfolio/contract_key.py:37-41 | an option key starts with its symbol and OPT |
| `ContractKey.KeyNamesOne` | src/bifrost_core/portfolio/contract_key.py:32-41 | a key names one symbol and one security type, when they hold no bar |
| `ContractKey.StkKeyBars` | src/bifrost_core/portfolio/contract_key.py:32-34 | a key of bar-free parts has five parts |
| `ContractKey.OptKeysEqualIff` | src/bifrost_core/portfolio/contract_key.py:37-41 | option keys of bar-free parts are equal if and only if their parts are |
| `ContractKey.StkKeysEqualIff` | src/bifrost_core/portfolio/contract_key.py:32-34 | so are the keys of other rows |
| `ContractKey.StkIsNotOpt` | src/bifrost_core/portfolio/contract_key.py:32-41 | and neither kind is the other |
| `ContractKey.BarsCollide` | src/bifrost_core/portfolio/contract_key.py:37-41 | with bars two contracts share a key |
| `AccountSync.ParseSummary` | src/bifrost_core/persistence/postgres/accounts_sync.py:50-76 | the three figures when they are finite numbers, and every other entry kept |
| `AccountSync.Tables.SyncPositions` | src/bifrost_core/persistence/postgres/accounts_sync.py:141-220 | one account's loop: upserts in order, then the rows not seen are deleted |
| `AccountSync.Tables.Sync` | src/bifrost_core/persistence/postgres/accounts_sync.py:79-220 | the whole nested loop, against its specification |
| `AccountSync.UpsertIsWhole` | src/bifrost_core/persistence/postgres/accounts_sync.py:141-207 | the columns an upsert does not update are never stale: the result is the entry itself |
| `AccountSync.KeysEqualIff` | src/bifrost_core/persistence/postgres/accounts_sync.py:175-178 | two entries share a key if and only if they are of one symbol and security type and, if options, of one expiry, strike and right |
| `AccountSync.OneAccount` | src/bifrost_core/persistence/postgres/accounts_sync.py:141-220 | a read account ends with exactly the snapshot's keys, last entry winning; every other account is unchanged |
| `AccountSync.SyncMeetsSpec` | src/bifrost_core/persistence/postgres/accounts_sync.py:87-220 | key by key, the last successful read of the account decides, and without one nothing changed |
| `AccountSync.PositionFromSnapshot` | src/bifrost_core/persistence/postgres/accounts_sync.py:141-207 | a position has, column by column, what the last entry of its key says in the last successful read of its account |
| `AccountSync.PositionGoneOrKept` | src/bifrost_core/persistence/postgres/accounts_sync.py:137-220 | a key that read does not have is gone; an account without a successful read keeps its positions |
| `AccountSync.PositionsIdempotent` | src/bifrost_core/persistence/postgres/accounts_sync.py:137-220 | repeating the snapshot changes no position |
| `AccountSync.AccountsOnlyGrow` | src/bifrost_core/persistence/postgres/accounts_sync.py:110-136 | no account row is deleted and accounts not in the snapshot do not change |
| `AccountSync.FigureFromSnapshot` | src/bifrost_core/persistence/postgres/accounts_sync.py:110-136 | a figure of an account, stored or new, is after the sync the last number the snapshot gives for it |
| `AccountSync.FigureKept` | src/bifrost_core/persistence/postgres/accounts_sync.py:110-136 | a figure the snapshot gives no number for is the stored one |
| `AccountSync.ExtrasFromSnapshot` | src/bifrost_core/persistence/postgres/accounts_sync.py:110-136 | the extras are those of the last entry with a net liquidation |
| `AccountSync.ExtrasKept` | src/bifrost_core/persistence/postgres/accounts_sync.py:110-136 | without one a stored account keeps its extras |
| `AccountSync.StoredAccountAfter` | src/bifrost_core/persistence/postgres/accounts_sync.py:110-136 | a stored account ends as its row merged with all the snapshot says of it |
| `AccountSync.AccountsIdempotent` | src/bifrost_core/persistence/postgres/accounts_sync.py:110-136 | repeating the snapshot changes no account |
| `MessageCenter.MaterializeKeepsInv` | src/bifrost_core/core/message_center.py:477-522 | one event keeps the invariant over index, items and pointers |
| `MessageCenter.FreshIsShown` | src/bifrost_core/core/message_center.py:484-522 | an event younger than the lifetime is indexed by its time and live until the lifetime is over, less than a second longer |
| `MessageCenter.ExpiredChangesNothing` | src/bifrost_core/core/message_center.py:484-487 | an event whose lifetime is over changes nothing |
| `MessageCenter.FreshTakesPointer` | src/bifrost_core/core/message_center.py:505-515 | it takes its key's pointer for the window, or as long as it lives |
| `MessageCenter.FreshPushesOut` | src/bifrost_core/core/message_center.py:505-522 | the message that a live pointer of its key names goes, and no other does |
| `MessageCenter.RunKeepsInv` | src/bifrost_core/core/message_center.py:477-548 | every run with a clock that does not go back keeps it |
| `MessageCenter.LivePointerNamesLiveItem` | src/bifrost_core/core/message_center.py:498-522 | in every run a live dedupe pointer names a live, indexed item of its key |
| `MessageCenter.LiveItemsAreApart` | src/bifrost_core/core/message_center.py:498-522 | in every run two live items of one key were last written at least the window apart |
| `MessageReplay.BatchFates` | src/bifrost_core/core/message_center.py:525-548 | which messages a batch adds, pushes out and leaves alone |
| `MessageReplay.ReplayChangesNothing` | src/bifrost_core/core/message_center.py:525-548 | reprocessing a batch at the same clock leaves index, items and pointers exactly as they are |
| `MessageStore.Queue.MaterializeEvent` | src/bifrost_core/core/message_center.py:477-522 | the in-place writes, against the specification |
| `MessageStore.Queue.SyncEvents` | src/bifrost_core/core/message_center.py:525-548 | the batch loop: state, emitted messages and saved offset |
| `MessageStore.EmittedIff` | src/bifrost_core/core/message_center.py:525-548 | a batch emits an entry's event if and only if it parses and is younger than an hour |
| `MessageStore.HourAndHalfMinute` | src/bifrost_core/core/message_center.py:477-522 | with the service's numbers: shown for an hour, pushed out by the next one of its key within half a minute |
| `MessageStore.Queue.ScanPages` | src/bifrost_core/core/message_center.py:555-577 | the paging loop: the live messages of the places scanned, at most the limit, and the ids found stale |
| `MessageStore.Queue.Fetch` | src/bifrost_core/core/message_center.py:551-585 | newest first, nothing newer left out, and exactly the stale entries found are dropped, which is a clean-up step of the run results |
| `MessageStore.FetchIsNewest` | src/bifrost_core/core/message_center.py:551-585 | the answer is newest first and no live message outside it is newer; with at most three stale entries per message asked for it has as many as asked for, or all there are |
| `MessageStore.AppliedIsRun` | src/bifrost_core/core/message_center.py:525-548 | the batch loop is a run of its parsed events at their times |
| `MessageStore.SyncTwiceIsOnce` | src/bifrost_core/core/message_center.py:525-548 | the batch loop repeated at the same clock leaves the state as it is |
| `MessageStore.CallsKeepInv` | src/bifrost_core/core/message_center.py:477-585 | after any sequence of batches and reads from empty, live pointers name live indexed items and live items of a key are the window apart |
| `StatusTracker.Tracker.Update` | src/bifrost_core/core/message_center.py:401-437 | what one update stores and publishes |
| `StatusTracker.BlankReport` | src/bifrost_core/core/message_center.py:401-437 | an update without a slot is about the host, one without a status says unknown |
| `StatusTracker.PublishedIsHistory` | src/bifrost_core/core/message_center.py:401-437 | for every sequence of updates, a slot's transitions are the moves of its stutter-free history, missing only a first status that is not "connected" |
| `StatusTracker.PublishedIsChain` | src/bifrost_core/core/message_center.py:401-437 | they form a chain without self-loops |
| `GateMerge.DeepMerge` | src/bifrost_core/monitor/reader/gate_safety_write.py:197-204 | the copy-and-overwrite loop computes the tree merge |
| `GateMerge.UnknownGatePaths` | src/bifrost_core/monitor/reader/gate_safety_write.py:180-194 | the loop collects exactly the complaints of the patch |
| `GateMerge.AcceptedByKey` | src/bifrost_core/monitor/reader/gate_safety_write.py:180-194 | no complaint if and only if every key is known and is an object where the reference has one, all the way down |
| `GateMerge.ComplaintsAre` | src/bifrost_core/monitor/reader/gate_safety_write.py:180-194 | the complaints are exactly the unknown paths and the plain values sent for objects, each at its place |
| `GateMerge.ShapeKeptIffAccepted` | src/bifrost_core/monitor/reader/gate_safety_write.py:180-204 | the merged tree has the reference's shape if and only if nothing is complained of |
| `GateMerge.FullShapeKeptIff` | src/bifrost_core/monitor/reader/gate_safety_write.py:180-204 | leaves included: if and only if, besides, no object is put where the reference has a leaf |
| `GateMerge.ObjectReplacesLeaf` | src/bifrost_core/monitor/reader/gate_safety_write.py:180-194 | an object sent for a leaf: nothing is complained of and the leaf is gone |
| `GateMerge.UnnamedKept` | src/bifrost_core/monitor/reader/gate_safety_write.py:197-204 | a path the patch does not name keeps its value |
| `GateMerge.NamedLeafWritten` | src/bifrost_core/monitor/reader/gate_safety_write.py:197-204 | a leaf the patch names is written |
| `GateMerge.MergeIdempotent` | src/bifrost_core/core/dict_merge.py:8-16 | applying a patch twice is applying it once |
| `GateMerge.DisjointPatchesCommute` | src/bifrost_core/core/dict_merge.py:8-16 | patches on disjoint leaves commute on every base |
| `GateMerge.WithDatesIsMerge` | src/bifrost_core/monitor/reader/gate_safety_write.py:245-279 | replacing the earnings dates is itself a merge, so every other path keeps its value |
| `GateMerge.HasPlaceIff` | src/bifrost_core/monitor/reader/gate_safety_write.py:269-273 | the dates have a place unless a plain value stands where an object belongs: a missing object is made |
| `GateMerge.PatchGateParams` | src/bifrost_core/monitor/reader/gate_safety_write.py:245-279 | the merge step: refused exactly on a complaint or on dates inside the gates; otherwise the dates are the ones sent or the stored ones, and stored parameters of the reference shape keep it |

## Left out

- Connections, cursors, locks, SQL text, Redis and HTTP clients, logging, timeouts: tables and keys are maps, and each writer is one atomic step.
- Floating-point error: prices, costs and quantities of fills are `real`, so a zero of the payoff is an exact zero.
- Text handling: trimming, case, parsing of fills, legs, strikes, slots and statuses; values enter the model already parsed, and `strikeText` stands for a strike as a key prints it.
- Timestamps (`intended_at`, `cancelled_at`, `updated_at`), the plan's `source` list, and the reading of an intended plan as expired: no writer decides anything by them.
- Validation of each plan leg: a leg is a value; only whether a plan has one matters to the rules.
- The writers that create and edit rule objects: one step, `EditRules`, that may add or change rows under the constraints but delete none.
- The raw execution rows the attribution writers edit, insert or delete: `InsertExecution` starts once the raw row is in, and `DropFill` once the last one is gone. An opportunity sent beside a trade, which must be the trade's own, is not an argument.
- A trade's `created_at`, which its patch can also set.
- The tags of a review: a save replaces them or leaves them alone, and decides nothing by them.
- An import of Flex rows beyond its effect on exec ids, accounts and dates.
- Id sequences advance only on a committed insert here; a rolled-back insert leaves a gap in the database.
- Order of dictionary keys in merges, complaints and summaries: maps and sets, and the loops take keys in any order.
- Redis failures, stream trimming and several consumers: one consumer, unique message ids and a clock that does not go back; item payloads always parse, since the consumer wrote them. The listing a read pages through is the index by falling score, as it stands when the read starts.
- View columns that are only carried along; a raw row keeps the columns the views read.
- The correlated count query is known from the description beside its replacement; it is modelled with both a row count and a distinct count.
- Pydantic validation of merged gate parameters, and the checks on the earnings dates themselves.
- Black-Scholes and implied volatility, control-stream consumption, configuration and ports, health lamps and aliases, schema waves, foreign data wrappers and grants: plumbing, or easy members.
