/**
 The delete guards against the schema: what a guard lets through never meets a foreign key, and
 what it stops is stopped for a reason.
 */
module DeleteGuards {
  import opened Prelude
  import opened TradeSchema
  import opened TradeOps

  /** The trade guard names exactly the RESTRICT references: with one, the delete breaks the schema;
      without, it cannot. */
  lemma TradeGuardMatchesSchema(db: Db, id: nat)
    requires Constraints(db) && id in db.trades
    ensures TradeReferenced(db, id) <==> !Constraints(WithoutTrade(db, id))
  {
    var next := WithoutTrade(db, id);
    if k :| k in db.fills && k.tradeId == id {
      assert k in next.fills && !FillsOk(next);
    } else if p :| p in db.plans && db.plans[p].tradeId == Some(id) {
      assert !PlanRefs(next, next.plans[p]);
    }
  }

  lemma DeleteTradeExact(db: Db, id: nat)
    requires Constraints(db)
    ensures Apply(db, OpDeleteTrade(id)).outcome == Done <==> id in db.trades && !TradeReferenced(db, id)
    ensures Apply(db, OpDeleteTrade(id)).outcome == Done ==> id !in Apply(db, OpDeleteTrade(id)).db.trades
    ensures Apply(db, OpDeleteTrade(id)).outcome != Done ==> Apply(db, OpDeleteTrade(id)).db == db
  {
    if id in db.trades {
      TradeGuardMatchesSchema(db, id);
    }
  }

  lemma OpportunityGuardMatchesSchema(db: Db, id: nat)
    requires Constraints(db) && id in db.rules.opportunities
    ensures OpportunityReferenced(db, id) <==> !Constraints(WithoutOpportunity(db, id))
  {
    var next := WithoutOpportunity(db, id);
    if t :| t in db.trades && db.trades[t].opportunityId == id {
      assert t in next.trades && next.trades[t].opportunityId !in next.rules.opportunities;
    } else {
      forall p | p in next.plans
        ensures RowChecks(next.plans[p]) && PlanRefs(next, next.plans[p])
      {
        assert RowChecks(db.plans[p]) && PlanRefs(db, db.plans[p]);
        assert next.plans.Keys == db.plans.Keys;
      }
    }
  }

  lemma DeleteOpportunityExact(db: Db, id: nat)
    requires Constraints(db)
    ensures Apply(db, OpDeleteOpportunity(id)).outcome == Done <==> id in db.rules.opportunities && !OpportunityReferenced(db, id)
    ensures Apply(db, OpDeleteOpportunity(id)).outcome != Done ==> Apply(db, OpDeleteOpportunity(id)).db == db
  {
    if id in db.rules.opportunities {
      OpportunityGuardMatchesSchema(db, id);
    }
  }

  /** The gate guard is the schema's, plus one reference the schema would clear: the settings row. */
  lemma GateGuardMatchesSchema(db: Db, id: nat)
    requires Constraints(db) && id in db.rules.gates
    ensures GateReferenced(db, id) <==> !Constraints(WithoutGate(db, id)) || db.rules.settings.gateId == Some(id)
  {
    var next := WithoutGate(db, id);
    if o :| o in db.rules.opportunities && db.rules.opportunities[o].gateId == Some(id) {
      assert o in next.rules.opportunities && !RefIn(next.rules.opportunities[o].gateId, next.rules.gates);
    } else if a :| a in db.rules.allocations && db.rules.allocations[a].gateId == Some(id) {
      assert a in next.rules.allocations && !RefIn(next.rules.allocations[a].gateId, next.rules.gates);
    }
    if !GateReferenced(db, id) {
      assert RulesOk(next.rules);
      forall p | p in next.plans
        ensures PlanRefs(next, next.plans[p])
      {
        assert PlanRefs(db, db.plans[p]);
      }
    }
  }

  lemma DeleteGateExact(db: Db, id: nat)
    requires Constraints(db)
    ensures Apply(db, OpDeleteGate(id)).outcome == Done <==> id in db.rules.gates && !GateReferenced(db, id)
    ensures Apply(db, OpDeleteGate(id)).outcome != Done ==> Apply(db, OpDeleteGate(id)).db == db
  {
    if id in db.rules.gates {
      GateGuardMatchesSchema(db, id);
    }
  }

  /** No foreign key restricts an allocation's delete: the guard alone decides. */
  lemma DeleteAllocationExact(db: Db, id: nat)
    requires Constraints(db)
    ensures Apply(db, OpDeleteAllocation(id)).outcome == Done <==> id in db.rules.allocations && db.rules.settings.allocationId != Some(id)
    ensures id in db.rules.allocations ==> Constraints(WithoutAllocation(db, id))
    ensures Apply(db, OpDeleteAllocation(id)).outcome != Done ==> Apply(db, OpDeleteAllocation(id)).db == db
  {
    if id in db.rules.allocations {
      var next := WithoutAllocation(db, id);
      assert RulesOk(next.rules);
      forall p | p in next.plans
        ensures PlanRefs(next, next.plans[p])
      {
        assert PlanRefs(db, db.plans[p]);
      }
    }
  }

  /** A draft always goes; what was rolled from it keeps its text and loses the link. */
  lemma DeletePlanExact(db: Db, id: nat)
    requires Constraints(db)
    ensures Apply(db, OpDeletePlan(id)).outcome == Done <==> id in db.plans && db.plans[id].status == Draft
    ensures id in db.plans ==> Constraints(WithoutPlan(db, id))
    ensures Apply(db, OpDeletePlan(id)).outcome != Done ==> Apply(db, OpDeletePlan(id)).db == db
  {
    if id in db.plans {
      var next := WithoutPlan(db, id);
      forall p | p in next.plans
        ensures RowChecks(next.plans[p]) && PlanRefs(next, next.plans[p])
      {
        assert RowChecks(db.plans[p]) && PlanRefs(db, db.plans[p]);
      }
    }
  }
}
