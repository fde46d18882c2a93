/**
 The tables of the trade lifecycle and the constraints the database declares over them.

 Tables are maps from primary key to row. `Constraints` is everything the schema declares: CHECKs,
 foreign keys and unique indexes; a statement commits exactly when it leaves them true.
 */
module TradeSchema {
  import opened Prelude

  datatype Status = Draft | Intended | Filled | Cancelled
  datatype TargetKind = CreditPct | TargetOptionPrice | TargetUnderlyingPrice
  datatype StopKind = CreditMultiple | StopOptionPrice | StopUnderlyingPrice
  datatype PriceEffect = Credit | Debit
  datatype SourceKind = Manual | Symbol | Hypothesis | InboxDraft | Roll | Lens | BacktestRun

  /** A leg as `normalize_plan_legs` writes it. */
  datatype PlanLeg = PlanLeg(isBuy: bool, contract: string, ratio: nat)

  /** The descriptive columns. */
  datatype Prose = Prose(
    symbol: string, structureLabel: string, priceEffect: Option<PriceEffect>,
    rationale: Option<string>, sourceKind: SourceKind, sourceRef: Option<string>)

  /** The columns a caller may write. */
  datatype Content = Content(
    account: string, prose: Prose, structureId: Option<nat>, opportunityId: Option<nat>,
    legs: seq<PlanLeg>, qty: int, limitPrice: Option<real>,
    targetKind: Option<TargetKind>, targetValue: Option<real>,
    stopKind: Option<StopKind>, stopValue: Option<real>,
    exitBy: Option<int>, expiresAt: Option<int>)

  datatype Plan = Plan(content: Content, status: Status, tradeId: Option<nat>, parentId: Option<nat>)

  datatype Trade = Trade(opportunityId: nat, account: string, openedAt: int, caption: Option<string>)

  /** A fill attributed to a trade; the three columns are unique together. */
  datatype FillKey = FillKey(account: string, execId: string, tradeId: nat)

  datatype Opportunity = Opportunity(structureId: nat, gateId: Option<nat>)
  datatype Allocation = Allocation(gateId: Option<nat>)
  datatype Settings = Settings(structureId: Option<nat>, gateId: Option<nat>, allocationId: Option<nat>)

  /** The rule objects and the settings row that points at some of them. */
  datatype Rules = Rules(
    opportunities: map<nat, Opportunity>, allocations: map<nat, Allocation>, memberships: set<(nat, nat)>,
    gates: set<nat>, structures: set<nat>, settings: Settings)

  /** `fills` maps an attribution to its split quantity, none for the whole fill. `reviews` maps a trade to
      the time its review was confirmed, none for one that is not. The two counters are the id sequences. */
  datatype Db = Db(
    plans: map<nat, Plan>, trades: map<nat, Trade>, fills: map<FillKey, Option<real>>, reviews: map<nat, Option<int>>,
    rules: Rules, nextPlan: nat, nextTrade: nat)

  predicate RefIn(ref: Option<nat>, keys: set<nat>) {
    ref.None? || ref.value in keys
  }

  // ----- CHECKs -----

  predicate TargetPaired(c: Content) {
    c.targetKind.None? <==> c.targetValue.None?
  }

  predicate StopPaired(c: Content) {
    c.stopKind.None? <==> c.stopValue.None?
  }

  predicate RowChecks(p: Plan) {
    && p.content.qty > 0
    && (p.content.limitPrice.Some? ==> p.content.limitPrice.value >= 0.0)
    && TargetPaired(p.content)
    && StopPaired(p.content)
    && (p.status == Filled <==> p.tradeId.Some?)
  }

  // ----- foreign keys -----

  predicate PlanRefs(db: Db, p: Plan) {
    && RefIn(p.content.structureId, db.rules.structures)
    && RefIn(p.content.opportunityId, db.rules.opportunities.Keys)
    && RefIn(p.tradeId, db.trades.Keys)
    && RefIn(p.parentId, db.plans.Keys)
  }

  predicate PlansOk(db: Db) {
    forall id :: id in db.plans ==> RowChecks(db.plans[id]) && PlanRefs(db, db.plans[id])
  }

  predicate TradesOk(db: Db) {
    forall id :: id in db.trades ==> db.trades[id].opportunityId in db.rules.opportunities
  }

  /** The attributed trade exists and is of the fill's account; a split is not zero; one whole row per fill. */
  predicate FillsOk(db: Db) {
    && (forall k :: k in db.fills ==>
          && k.tradeId in db.trades && db.trades[k.tradeId].account == k.account
          && (db.fills[k].Some? ==> db.fills[k].value != 0.0))
    && (forall k, l :: k in db.fills && l in db.fills && BothWhole(db, k, l) ==> k == l)
  }

  predicate BothWhole(db: Db, k: FillKey, l: FillKey)
    requires k in db.fills && l in db.fills
  {
    db.fills[k].None? && db.fills[l].None? && k.account == l.account && k.execId == l.execId
  }

  predicate RulesOk(r: Rules) {
    && (forall id :: id in r.opportunities ==>
          r.opportunities[id].structureId in r.structures && RefIn(r.opportunities[id].gateId, r.gates))
    && (forall id :: id in r.allocations ==> RefIn(r.allocations[id].gateId, r.gates))
    && (forall m :: m in r.memberships ==> m.0 in r.allocations && m.1 in r.opportunities)
    && RefIn(r.settings.structureId, r.structures)
    && RefIn(r.settings.gateId, r.gates)
    && RefIn(r.settings.allocationId, r.allocations.Keys)
  }

  predicate Constraints(db: Db) {
    PlansOk(db) && TradesOk(db) && FillsOk(db) && db.reviews.Keys <= db.trades.Keys && RulesOk(db.rules)
  }

  // ----- what the writers keep beyond the schema -----

  /** The plan says something about getting out. */
  predicate ExitWritten(c: Content) {
    c.targetKind.Some? || c.stopKind.Some? || c.exitBy.Some?
  }

  /** An intended or filled plan has a leg and an exit; a filled one is of its trade's account. */
  ghost predicate PlanKept(db: Db, p: Plan) {
    && (p.status == Intended || p.status == Filled ==> p.content.legs != [] && ExitWritten(p.content))
    && (p.status == Filled ==>
          p.tradeId.Some? && p.tradeId.value in db.trades && db.trades[p.tradeId.value].account == p.content.account)
  }

  /** Ids at or above the sequences are free. */
  ghost predicate FreshIds(db: Db) {
    && (forall id :: id in db.plans ==> id < db.nextPlan)
    && (forall id :: id in db.trades ==> id < db.nextTrade)
  }

  ghost predicate Kept(db: Db) {
    && (forall id :: id in db.plans ==> PlanKept(db, db.plans[id]))
    && FreshIds(db)
  }

  /** The states the writers work in: the schema's constraints and their own rules. */
  ghost predicate Good(db: Db) {
    Constraints(db) && Kept(db)
  }
}
