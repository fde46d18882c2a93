/**
 What the writers store, row by row and column by column, and what they leave alone.
 */
module TradeEffects {
  import opened Prelude
  import opened TradeSchema
  import opened TradeOps
  import opened DeleteGuards
  import opened TradeRuns

  // ----- nothing dangles -----

  /** A reference is empty or names a row. */
  ghost predicate Names<T>(ref: Option<nat>, rows: map<nat, T>) {
    ref.Some? ==> ref.value in rows
  }

  /** In every reachable state each plan meets its column checks and names only rows that are there. */
  lemma ReachablePlanRows(db: Db, ops: seq<Op>, id: nat)
    requires Good(db) && id in Run(db, ops).plans
    ensures var end := Run(db, ops);
            var p := end.plans[id];
            && p.content.qty > 0
            && (p.content.limitPrice.Some? ==> p.content.limitPrice.value >= 0.0)
            && (p.content.targetKind.Some? <==> p.content.targetValue.Some?)
            && (p.content.stopKind.Some? <==> p.content.stopValue.Some?)
            && (p.status == Filled <==> p.tradeId.Some?)
            && (p.content.structureId.Some? ==> p.content.structureId.value in end.rules.structures)
            && Names(p.content.opportunityId, end.rules.opportunities)
            && Names(p.tradeId, end.trades) && Names(p.parentId, end.plans)
            && (p.status == Intended || p.status == Filled ==>
                  && |p.content.legs| > 0
                  && (p.content.targetKind.Some? || p.content.stopKind.Some? || p.content.exitBy.Some?))
            && (p.tradeId.Some? ==> end.trades[p.tradeId.value].account == p.content.account)
  {
    RunKeepsGood(db, ops);
    var end := Run(db, ops);
    assert RowChecks(end.plans[id]) && PlanRefs(end, end.plans[id]) && PlanKept(end, end.plans[id]);
  }

  /** And so do the rows of every other table. */
  lemma ReachableOtherRows(db: Db, ops: seq<Op>)
    requires Good(db)
    ensures var end := Run(db, ops);
            && (forall t :: t in end.trades ==> end.trades[t].opportunityId in end.rules.opportunities)
            && (forall k :: k in end.fills ==> k.tradeId in end.trades && end.trades[k.tradeId].account == k.account)
            && (forall k :: k in end.fills ==> end.fills[k] != Some(0.0))
            && (forall k, l ::
                  (k in end.fills && l in end.fills && end.fills[k] == end.fills[l] == None) ==>
                    (k.account == l.account && k.execId == l.execId ==> k == l))
            && (forall t :: t in end.reviews ==> t in end.trades)
  {
    RunKeepsGood(db, ops);
    var end := Run(db, ops);
    forall k, l | k in end.fills && l in end.fills && k.account == l.account && k.execId == l.execId
                  && end.fills[k] == None && end.fills[l] == None
      ensures k == l
    {
      assert BothWhole(end, k, l);
    }
  }

  lemma ReachableRules(db: Db, ops: seq<Op>)
    requires Good(db)
    ensures var r := Run(db, ops).rules;
            && (forall o :: o in r.opportunities ==>
                  && r.opportunities[o].structureId in r.structures
                  && (r.opportunities[o].gateId.Some? ==> r.opportunities[o].gateId.value in r.gates))
            && (forall a :: a in r.allocations && r.allocations[a].gateId.Some? ==> r.allocations[a].gateId.value in r.gates)
            && (forall a, o :: (a, o) in r.memberships ==> a in r.allocations && o in r.opportunities)
            && (r.settings.structureId.Some? ==> r.settings.structureId.value in r.structures)
            && (r.settings.gateId.Some? ==> r.settings.gateId.value in r.gates)
            && Names(r.settings.allocationId, r.allocations)
  {
    RunKeepsGood(db, ops);
  }

  // ----- deletes: gone, and nothing else gone -----

  /** A deleted plan is gone; a plan rolled from it loses the link; no other row of any table changes. */
  lemma DeletedPlan(db: Db, id: nat)
    requires Constraints(db) && Apply(db, OpDeletePlan(id)).outcome == Done
    ensures var next := Apply(db, OpDeletePlan(id)).db;
            && id in db.plans && next.plans.Keys == db.plans.Keys - {id}
            && (forall k :: k in next.plans ==>
                  next.plans[k] == if db.plans[k].parentId == Some(id) then db.plans[k].(parentId := None) else db.plans[k])
            && next == db.(plans := next.plans)
  {
  }

  lemma DeletedTrade(db: Db, id: nat)
    requires Constraints(db) && Apply(db, OpDeleteTrade(id)).outcome == Done
    ensures var next := Apply(db, OpDeleteTrade(id)).db;
            && id in db.trades && next.trades.Keys == db.trades.Keys - {id}
            && (forall k :: k in next.trades ==> next.trades[k] == db.trades[k])
            && next == db.(trades := next.trades)
  {
  }

  /** With an opportunity go its memberships and the plans' links to it. */
  lemma DeletedOpportunity(db: Db, id: nat)
    requires Constraints(db) && Apply(db, OpDeleteOpportunity(id)).outcome == Done
    ensures var next := Apply(db, OpDeleteOpportunity(id)).db;
            && id in db.rules.opportunities && next.rules.opportunities.Keys == db.rules.opportunities.Keys - {id}
            && (forall k :: k in next.rules.opportunities ==> next.rules.opportunities[k] == db.rules.opportunities[k])
            && (forall a, o :: (a, o) in next.rules.memberships <==> (a, o) in db.rules.memberships && o != id)
            && next.plans.Keys == db.plans.Keys
            && (forall k :: k in next.plans ==>
                  next.plans[k] == if db.plans[k].content.opportunityId == Some(id)
                                   then db.plans[k].(content := db.plans[k].content.(opportunityId := None)) else db.plans[k])
            && next == db.(plans := next.plans, rules := db.rules.(
                 opportunities := next.rules.opportunities, memberships := next.rules.memberships))
  {
  }

  /** With an allocation go its memberships. */
  lemma DeletedAllocation(db: Db, id: nat)
    requires Constraints(db) && Apply(db, OpDeleteAllocation(id)).outcome == Done
    ensures var next := Apply(db, OpDeleteAllocation(id)).db;
            && id in db.rules.allocations && next.rules.allocations.Keys == db.rules.allocations.Keys - {id}
            && (forall k :: k in next.rules.allocations ==> next.rules.allocations[k] == db.rules.allocations[k])
            && (forall a, o :: (a, o) in next.rules.memberships <==> (a, o) in db.rules.memberships && a != id)
            && next == db.(rules := db.rules.(allocations := next.rules.allocations, memberships := next.rules.memberships))
  {
  }

  lemma DeletedGate(db: Db, id: nat)
    requires Constraints(db) && Apply(db, OpDeleteGate(id)).outcome == Done
    ensures var next := Apply(db, OpDeleteGate(id)).db;
            && id in db.rules.gates
            && (forall g :: g in next.rules.gates <==> g in db.rules.gates && g != id)
            && next == db.(rules := db.rules.(gates := next.rules.gates))
  {
  }

  // ----- plans: what an edit stores -----

  /** A value that was sent is the one stored, and one that was not is as it was. */
  ghost predicate Stores<T>(sent: Sent<T>, was: T, now: T) {
    match sent
    case Sent(v) => now == v
    case Unsent => now == was
  }

  ghost predicate StoresProse(p: ProsePatch, was: Prose, now: Prose) {
    && Stores(p.symbol, was.symbol, now.symbol)
    && Stores(p.structureLabel, was.structureLabel, now.structureLabel)
    && Stores(p.priceEffect, was.priceEffect, now.priceEffect)
    && Stores(p.rationale, was.rationale, now.rationale)
    && Stores(p.sourceKind, was.sourceKind, now.sourceKind)
    && Stores(p.sourceRef, was.sourceRef, now.sourceRef)
  }

  ghost predicate StoresAll(p: PlanPatch, was: Content, now: Content) {
    && Stores(p.account, was.account, now.account)
    && StoresProse(p.prose, was.prose, now.prose)
    && Stores(p.structureId, was.structureId, now.structureId)
    && Stores(p.opportunityId, was.opportunityId, now.opportunityId)
    && Stores(p.legs, was.legs, now.legs)
    && Stores(p.qty, was.qty, now.qty)
    && Stores(p.limitPrice, was.limitPrice, now.limitPrice)
    && Stores(p.targetKind, was.targetKind, now.targetKind)
    && Stores(p.targetValue, was.targetValue, now.targetValue)
    && Stores(p.stopKind, was.stopKind, now.stopKind)
    && Stores(p.stopValue, was.stopValue, now.stopValue)
    && Stores(p.exitBy, was.exitBy, now.exitBy)
    && Stores(p.expiresAt, was.expiresAt, now.expiresAt)
  }

  /** After an accepted edit the plan holds what was sent, field by field; its status and links and every
      other row are as they were. */
  lemma EditStores(db: Db, id: nat, p: PlanPatch, op: Op)
    requires op == OpUpdatePlan(id, p) || op == OpPatchPlan(id, p)
    requires Apply(db, op).outcome == Done
    ensures var next := Apply(db, op).db;
            && id in db.plans && id in next.plans
            && StoresAll(p, db.plans[id].content, next.plans[id].content)
            && next == db.(plans := db.plans[id := db.plans[id].(content := next.plans[id].content)])
  {
    assert StoresAll(NOTHING_SENT, db.plans[id].content, db.plans[id].content);
  }

  /** The one edit of an intended plan: a new expiry is stored, and nothing else changes. */
  lemma IntendedExpiryStored(db: Db, id: nat, expiry: Option<int>)
    requires Good(db) && id in db.plans && db.plans[id].status == Intended
    ensures var r := Apply(db, OpPatchPlan(id, NOTHING_SENT.(expiresAt := Sent(expiry))));
            && r.outcome == Done
            && r.db == db.(plans := db.plans[id := db.plans[id].(content := db.plans[id].content.(expiresAt := expiry))])
  {
    var p := NOTHING_SENT.(expiresAt := Sent(expiry));
    assert RowChecks(db.plans[id]);
    PatchExact(db, id, p);
    EditStores(db, id, p, OpPatchPlan(id, p));
  }

  /** The text fields that were sent are not blank, and the quantity sent is at least one. */
  ghost predicate FieldsSentOk(p: PlanPatch) {
    && p.account != Sent("") && p.prose.symbol != Sent("") && p.prose.structureLabel != Sent("")
    && (p.qty.Sent? ==> p.qty.value >= 1)
  }

  ghost predicate SentSome<T>(s: Sent<Option<T>>) {
    s.Sent? && s.value.Some?
  }

  /** Of a pair of which something was sent, both halves are set by the payload or neither is. */
  ghost predicate PairSentOk<T, U>(kind: Sent<Option<T>>, value: Sent<Option<U>>) {
    kind.Sent? || value.Sent? ==> (SentSome(kind) <==> SentSome(value))
  }

  ghost predicate RefsSentOk(db: Db, p: PlanPatch) {
    && (SentSome(p.structureId) ==> p.structureId.value.value in db.rules.structures)
    && (SentSome(p.opportunityId) ==> p.opportunityId.value.value in db.rules.opportunities)
  }

  /** What an update answers. */
  lemma UpdateAnswers(db: Db, id: nat, p: PlanPatch)
    requires Good(db)
    ensures var outcome := Apply(db, OpUpdatePlan(id, p)).outcome;
            var ok := FieldsSentOk(p) && PairSentOk(p.targetKind, p.targetValue) && PairSentOk(p.stopKind, p.stopValue);
            && (outcome == Conflict <==> !ok || (id in db.plans && db.plans[id].status != Draft))
            && (outcome == NotFound <==> ok && id !in db.plans)
            && (outcome == Done || outcome == Failed <==> ok && id in db.plans && db.plans[id].status == Draft)
            && (outcome == Failed ==>
                  || !RefsSentOk(db, p) || (SentSome(p.limitPrice) && p.limitPrice.value.value < 0.0)
                  || ClearsHalf(db.plans[id].content, p))
            && (outcome == Done ==>
                  RefsSentOk(db, p) && (SentSome(p.limitPrice) ==> p.limitPrice.value.value >= 0.0))
  {
    if id in db.plans && db.plans[id].status == Draft && FieldsOk(p) && PayloadPaired(p) && p != NOTHING_SENT {
      UpdateRefusedByTable(db, id, p);
    }
  }

  /** Nothing was sent, or nothing but the expiry. */
  ghost predicate NothingButExpiry(p: PlanPatch) {
    && p.account.Unsent? && p.prose.symbol.Unsent? && p.prose.structureLabel.Unsent? && p.prose.priceEffect.Unsent?
    && p.prose.rationale.Unsent? && p.prose.sourceKind.Unsent? && p.prose.sourceRef.Unsent?
    && p.structureId.Unsent? && p.opportunityId.Unsent? && p.legs.Unsent? && p.qty.Unsent? && p.limitPrice.Unsent?
    && p.targetKind.Unsent? && p.targetValue.Unsent? && p.stopKind.Unsent? && p.stopValue.Unsent? && p.exitBy.Unsent?
  }

  /** What a patch answers. */
  lemma PatchAnswers(db: Db, id: nat, p: PlanPatch)
    requires Good(db)
    ensures var outcome := Apply(db, OpPatchPlan(id, p)).outcome;
            var ok := && FieldsSentOk(p) && !(NothingButExpiry(p) && p.expiresAt.Unsent?)
                      && (SentSome(p.limitPrice) ==> p.limitPrice.value.value >= 0.0)
                      && p.prose.sourceKind != Sent(Lens) && p.prose.sourceKind != Sent(BacktestRun);
            var free := id in db.plans &&
                        (db.plans[id].status == Draft || (db.plans[id].status == Intended && NothingButExpiry(p)));
            && (outcome == NotFound <==> ok && id !in db.plans)
            && (outcome == Conflict <==> ok && id in db.plans && !free)
            && (outcome == Done ==> ok && free && RefsSentOk(db, p))
            && outcome != Failed
  {
    PatchExact(db, id, p);
    assert p == NOTHING_SENT.(expiresAt := p.expiresAt) <==> NothingButExpiry(p) by {
      if NothingButExpiry(p) {
        assert p.prose == NO_PROSE;
      }
    }
  }

  /** A patch that passed those fails only on a pair that would not be whole or on a reference. */
  lemma PatchRefused(db: Db, id: nat, p: PlanPatch)
    requires Good(db) && Apply(db, OpPatchPlan(id, p)).outcome == Invalid && id in db.plans && PatchFieldsOk(p) && p != NOTHING_SENT
    ensures || (p.targetKind.Or(db.plans[id].content.targetKind).Some? != p.targetValue.Or(db.plans[id].content.targetValue).Some?)
            || (p.stopKind.Or(db.plans[id].content.stopKind).Some? != p.stopValue.Or(db.plans[id].content.stopValue).Some?)
            || !RefsSentOk(db, p)
  {
    PatchExact(db, id, p);
  }

  /** Exactly when a plan is created, and the row it gets. */
  lemma CreateExact(db: Db, c: Content, parent: Option<nat>)
    requires Good(db)
    ensures var outcome := Apply(db, OpCreatePlan(c, parent)).outcome;
            var ok := && c.account != "" && c.prose.symbol != "" && c.prose.structureLabel != "" && c.qty >= 1
                      && (c.targetKind.Some? <==> c.targetValue.Some?) && (c.stopKind.Some? <==> c.stopValue.Some?);
            && (outcome == Conflict <==> !ok)
            && (outcome == Done <==>
                  && ok && (c.limitPrice.Some? ==> c.limitPrice.value >= 0.0)
                  && (c.structureId.Some? ==> c.structureId.value in db.rules.structures)
                  && Names(c.opportunityId, db.rules.opportunities)
                  && (parent.Some? ==> parent.value in db.plans || parent.value == db.nextPlan))
    ensures Apply(db, OpCreatePlan(c, parent)).outcome == Done ==>
              var next := Apply(db, OpCreatePlan(c, parent)).db;
              && db.nextPlan !in db.plans
              && next == db.(plans := db.plans[db.nextPlan := Plan(c, Draft, None, parent)], nextPlan := db.nextPlan + 1)
  {
    assert FreshIds(db);
    NewRowOk(db, Plan(c, Draft, None, parent));
  }

  lemma NewRowOk(db: Db, p: Plan)
    requires Constraints(db) && FreshIds(db)
    ensures var next := db.(plans := db.plans[db.nextPlan := p], nextPlan := db.nextPlan + 1);
            Constraints(next) <==> RowChecks(p) && PlanRefs(next, p)
  {
    var next := db.(plans := db.plans[db.nextPlan := p], nextPlan := db.nextPlan + 1);
    forall k | k in db.plans
      ensures k != db.nextPlan && RowChecks(next.plans[k]) && PlanRefs(next, next.plans[k])
    {
      assert RowChecks(db.plans[k]) && PlanRefs(db, db.plans[k]);
    }
    assert next.plans[db.nextPlan] == p;
  }

  /** The lifecycle moves change the status, and a link the trade, of one row. */
  lemma MovesStore(db: Db, id: nat, t: nat)
    ensures Apply(db, OpIntendPlan(id)).outcome == Done ==>
              id in db.plans && Apply(db, OpIntendPlan(id)).db == db.(plans := db.plans[id := db.plans[id].(status := Intended)])
    ensures Apply(db, OpLinkFill(id, t)).outcome == Done ==>
              && id in db.plans
              && Apply(db, OpLinkFill(id, t)).db ==
                   db.(plans := db.plans[id := db.plans[id].(status := Filled, tradeId := Some(t))])
    ensures Apply(db, OpCancelPlan(id)).outcome == Done ==>
              id in db.plans && Apply(db, OpCancelPlan(id)).db == db.(plans := db.plans[id := db.plans[id].(status := Cancelled)])
  {
  }

  // ----- trades, reviews, settings -----

  /** Exactly when a trade is created, and the row it gets. */
  lemma CreateTradeExact(db: Db, opportunityId: nat, account: string, openedAt: int, caption: Option<string>)
    requires Good(db)
    ensures Apply(db, OpCreateTrade(opportunityId, account, openedAt, caption)).outcome == Done <==>
              account != "" && caption != Some("") && opportunityId in db.rules.opportunities
    ensures Apply(db, OpCreateTrade(opportunityId, account, openedAt, caption)).outcome == Done ==>
              && db.nextTrade !in db.trades
              && Apply(db, OpCreateTrade(opportunityId, account, openedAt, caption)).db ==
                   db.(trades := db.trades[db.nextTrade := Trade(opportunityId, account, openedAt, caption)],
                       nextTrade := db.nextTrade + 1)
  {
    assert FreshIds(db);
    if opportunityId in db.rules.opportunities {
      NewTradeOk(db, Trade(opportunityId, account, openedAt, caption));
    }
  }

  lemma NewTradeOk(db: Db, t: Trade)
    requires Constraints(db) && FreshIds(db) && t.opportunityId in db.rules.opportunities
    ensures Constraints(WithNewTrade(db, t))
  {
    var next := WithNewTrade(db, t);
    assert db.nextTrade !in db.trades;
    assert forall k :: k in db.trades ==> k in next.trades && next.trades[k] == db.trades[k];
    forall p | p in next.plans
      ensures RowChecks(next.plans[p]) && PlanRefs(next, next.plans[p])
    {
      assert RowChecks(db.plans[p]) && PlanRefs(db, db.plans[p]);
    }
  }

  /** A patched trade: its label and opening time as sent, everything else as it was. */
  lemma TradePatchStores(db: Db, id: nat, caption: Sent<Option<string>>, openedAt: Sent<int>)
    requires Good(db)
    ensures Apply(db, OpPatchTrade(id, caption, openedAt)).outcome == Done <==>
              id in db.trades && (caption.Sent? || openedAt.Sent?) && caption != Sent(Some(""))
    ensures Apply(db, OpPatchTrade(id, caption, openedAt)).outcome == Done ==>
              var next := Apply(db, OpPatchTrade(id, caption, openedAt)).db;
              && id in next.trades
              && Stores(caption, db.trades[id].caption, next.trades[id].caption)
              && Stores(openedAt, db.trades[id].openedAt, next.trades[id].openedAt)
              && next == db.(trades := db.trades[id := db.trades[id].(
                   caption := next.trades[id].caption, openedAt := next.trades[id].openedAt)])
  {
    if id in db.trades {
      var t := db.trades[id];
      SameTradeOk(db, id, t.(caption := caption.Or(t.caption), openedAt := openedAt.Or(t.openedAt)));
    }
  }

  lemma SameTradeOk(db: Db, id: nat, t: Trade)
    requires Constraints(db) && id in db.trades
    requires t.opportunityId == db.trades[id].opportunityId && t.account == db.trades[id].account
    ensures Constraints(db.(trades := db.trades[id := t]))
  {
    var next := db.(trades := db.trades[id := t]);
    assert next.trades.Keys == db.trades.Keys;
    forall p | p in next.plans
      ensures RowChecks(next.plans[p]) && PlanRefs(next, next.plans[p])
    {
      assert RowChecks(db.plans[p]) && PlanRefs(db, db.plans[p]);
    }
  }

  /** A confirm stamps a review that has no stamp and keeps one it has; a retraction clears it; a save that
      does not say keeps what is stored, nothing for a new review. No other review changes. */
  lemma ReviewStores(db: Db, tradeId: nat, reviewed: Option<bool>, now: int, op: Op)
    requires op == OpSaveReview(tradeId, reviewed, now) || op == OpPatchReview(tradeId, reviewed, now)
    requires Apply(db, op).outcome == Done
    ensures var next := Apply(db, op).db;
            && tradeId in next.reviews && next == db.(reviews := db.reviews[tradeId := next.reviews[tradeId]])
            && (reviewed == Some(false) ==> next.reviews[tradeId] == None)
            && (reviewed == None ==> next.reviews[tradeId] == if tradeId in db.reviews then db.reviews[tradeId] else None)
            && (reviewed == Some(true) ==>
                  next.reviews[tradeId] ==
                    if tradeId in db.reviews && db.reviews[tradeId].Some? then db.reviews[tradeId] else Some(now))
  {
  }

  /** The settings hold the references sent, if each is there, and keep the others. */
  lemma ActiveStores(db: Db, structure: Sent<Option<nat>>, gate: Sent<Option<nat>>, allocation: Sent<Option<nat>>)
    requires Good(db)
    ensures Apply(db, OpSetActive(structure, gate, allocation)).outcome == Done <==>
              && (structure.Sent? && structure.value.Some? ==> structure.value.value in db.rules.structures)
              && (gate.Sent? && gate.value.Some? ==> gate.value.value in db.rules.gates)
              && (allocation.Sent? && allocation.value.Some? ==> allocation.value.value in db.rules.allocations)
    ensures Apply(db, OpSetActive(structure, gate, allocation)).outcome == Done ==>
              var was, next := db.rules.settings, Apply(db, OpSetActive(structure, gate, allocation)).db;
              && Stores(structure, was.structureId, next.rules.settings.structureId)
              && Stores(gate, was.gateId, next.rules.settings.gateId)
              && Stores(allocation, was.allocationId, next.rules.settings.allocationId)
              && next == db.(rules := db.rules.(settings := next.rules.settings))
  {
    SettingsOk(db, Settings(structure.Or(db.rules.settings.structureId), gate.Or(db.rules.settings.gateId),
                            allocation.Or(db.rules.settings.allocationId)));
  }

  lemma SettingsOk(db: Db, s: Settings)
    requires Constraints(db)
    ensures Constraints(db.(rules := db.rules.(settings := s))) <==>
              && RefIn(s.structureId, db.rules.structures) && RefIn(s.gateId, db.rules.gates)
              && RefIn(s.allocationId, db.rules.allocations.Keys)
  {
    var next := db.(rules := db.rules.(settings := s));
    forall p | p in next.plans
      ensures RowChecks(next.plans[p]) && PlanRefs(next, next.plans[p])
    {
      assert RowChecks(db.plans[p]) && PlanRefs(db, db.plans[p]);
    }
  }

  /** The writers that create and edit rule objects delete none and leave the settings alone. */
  lemma EditsKeepRows(db: Db, rules: Rules)
    ensures var next := Apply(db, OpEditRules(rules)).db;
            && (forall o :: o in db.rules.opportunities ==> o in next.rules.opportunities)
            && (forall a :: a in db.rules.allocations ==> a in next.rules.allocations)
            && (forall g :: g in db.rules.gates ==> g in next.rules.gates)
            && (forall s :: s in db.rules.structures ==> s in next.rules.structures)
            && next == db.(rules := next.rules) && next.rules.settings == db.rules.settings
  {
  }

  // ----- refusals -----

  /** Every refused operation leaves the tables as they are. */
  lemma RefusedChangesNothing(db: Db, op: Op)
    requires Apply(db, op).outcome != Done
    ensures Apply(db, op).db == db
  {
    match op
    case OpUpdatePlan(_, _) =>
    case OpPatchPlan(_, _) =>
    case OpPatchExecution(_, _, _, _, _) =>
    case OpUpdateExecution(_, _, _, _, _) =>
    case OpInsertExecution(_, _, _, _, _) =>
    case _ =>
  }

  /** A delete of what is not there answers that; one that the guard stops, a conflict. */
  lemma DeleteAnswers(db: Db, id: nat)
    requires Good(db)
    ensures Apply(db, OpDeletePlan(id)).outcome ==
              if id !in db.plans then NotFound else if db.plans[id].status == Draft then Done else Conflict
    ensures Apply(db, OpDeleteTrade(id)).outcome ==
              if id !in db.trades then NotFound else if TradeReferenced(db, id) then Conflict else Done
    ensures Apply(db, OpDeleteOpportunity(id)).outcome ==
              if id !in db.rules.opportunities then NotFound else if OpportunityReferenced(db, id) then Conflict else Done
    ensures Apply(db, OpDeleteAllocation(id)).outcome ==
              if id !in db.rules.allocations then NotFound
              else if db.rules.settings.allocationId == Some(id) then Conflict else Done
    ensures Apply(db, OpDeleteGate(id)).outcome ==
              if id !in db.rules.gates then NotFound else if GateReferenced(db, id) then Conflict else Done
  {
    DeletePlanExact(db, id);
    DeleteTradeExact(db, id);
    DeleteOpportunityExact(db, id);
    DeleteAllocationExact(db, id);
    DeleteGateExact(db, id);
  }

  /** A lifecycle move of a plan that is not there answers that; one that its rules stop, a conflict. */
  lemma MoveAnswers(db: Db, id: nat, t: nat)
    requires Good(db)
    ensures Apply(db, OpIntendPlan(id)).outcome ==
              if id !in db.plans then NotFound
              else if db.plans[id].status == Draft && db.plans[id].content.legs != [] && ExitWritten(db.plans[id].content)
              then Done else Conflict
    ensures Apply(db, OpLinkFill(id, t)).outcome ==
              if id !in db.plans then NotFound
              else if db.plans[id].status == Intended && t in db.trades && db.trades[t].account == db.plans[id].content.account
              then Done else Conflict
    ensures Apply(db, OpCancelPlan(id)).outcome ==
              if id !in db.plans then NotFound
              else if db.plans[id].status == Draft || db.plans[id].status == Intended then Done else Conflict
  {
    LifecycleMovesExact(db, id, t);
  }

  /** The other writers refuse with what is wrong: a bad value or reference, or a missing row. */
  lemma OtherAnswers(db: Db, id: nat, account: string, openedAt: int, caption: Option<string>,
                     newCaption: Sent<Option<string>>, newOpenedAt: Sent<int>,
                     structure: Sent<Option<nat>>, gate: Sent<Option<nat>>, allocation: Sent<Option<nat>>)
    requires Good(db)
    ensures var outcome := Apply(db, OpCreateTrade(id, account, openedAt, caption)).outcome; outcome == Done || outcome == Invalid
    ensures var outcome := Apply(db, OpPatchTrade(id, newCaption, newOpenedAt)).outcome;
            && (outcome == Invalid <==> (newCaption.Unsent? && newOpenedAt.Unsent?) || newCaption == Sent(Some("")))
            && (outcome == Invalid || outcome == NotFound || outcome == Done)
    ensures var outcome := Apply(db, OpSetActive(structure, gate, allocation)).outcome; outcome == Done || outcome == Invalid
  {
    CreateTradeExact(db, id, account, openedAt, caption);
    TradePatchStores(db, id, newCaption, newOpenedAt);
    ActiveStores(db, structure, gate, allocation);
  }
}
