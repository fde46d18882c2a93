/**
 What every run of the writers keeps.

 A run is any sequence of operations, successful or not, from any good state. One step preserves
 `Good` and moves each plan by `Evolves`; both carry over to runs of any length.
 */
module TradeRuns {
  import opened Prelude
  import opened TradeSchema
  import opened TradeOps
  import opened DeleteGuards

  // ----- the transition relation -----

  /** What a successful operation did to the tables. */
  ghost predicate Moved(db: Db, op: Op, next: Db) {
    match op
    case OpCreatePlan(c, parent) =>
      next == db.(plans := db.plans[db.nextPlan := Plan(c, Draft, None, parent)], nextPlan := db.nextPlan + 1)
    case OpUpdatePlan(id, p) =>
      && id in db.plans && db.plans[id].status == Draft
      && next == WithPlan(db, id, db.plans[id].(content := Patched(db.plans[id].content, p)))
    case OpPatchPlan(id, p) =>
      && id in db.plans
      && (db.plans[id].status == Draft || (db.plans[id].status == Intended && ExpiryOnly(p)))
      && next == WithPlan(db, id, db.plans[id].(content := Patched(db.plans[id].content, p)))
    case OpIntendPlan(id) =>
      && id in db.plans && db.plans[id].status == Draft
      && db.plans[id].content.legs != [] && ExitWritten(db.plans[id].content)
      && next == WithPlan(db, id, db.plans[id].(status := Intended))
    case OpLinkFill(id, t) =>
      && id in db.plans && db.plans[id].status == Intended
      && t in db.trades && db.trades[t].account == db.plans[id].content.account
      && next == WithPlan(db, id, db.plans[id].(status := Filled, tradeId := Some(t)))
    case OpCancelPlan(id) =>
      && id in db.plans && (db.plans[id].status == Draft || db.plans[id].status == Intended)
      && next == WithPlan(db, id, db.plans[id].(status := Cancelled))
    case OpDeletePlan(id) =>
      id in db.plans && db.plans[id].status == Draft && next == WithoutPlan(db, id)
    case OpCreateTrade(o, a, at, l) =>
      next == db.(trades := db.trades[db.nextTrade := Trade(o, a, at, l)], nextTrade := db.nextTrade + 1)
    case OpPatchTrade(id, l, at) =>
      && id in db.trades && next == db.(trades := next.trades) && next.trades.Keys == db.trades.Keys
      && forall t :: t in db.trades ==> next.trades[t].account == db.trades[t].account
    case OpDeleteTrade(id) => !TradeReferenced(db, id) && next == WithoutTrade(db, id)
    case OpDeleteOpportunity(id) => next == WithoutOpportunity(db, id)
    case _ =>
      if OnFills(op) then next == db.(fills := next.fills)
      else && next.plans == db.plans && next.trades == db.trades && next.fills == db.fills
           && next.nextPlan == db.nextPlan && next.nextTrade == db.nextTrade
  }

  /** The writers of fill attribution. */
  ghost predicate OnFills(op: Op) {
    op.OpReplaceSplits? || op.OpPatchExecution? || op.OpUpdateExecution? || op.OpInsertExecution? || op.OpDropFill?
  }

  /** An operation moves the tables as above, under the declared constraints, or leaves them alone. */
  ghost predicate LegalStep(db: Db, op: Op) {
    var next := Apply(db, op).db;
    next == db || (Moved(db, op, next) && Constraints(next))
  }

  lemma EditsMove(db: Db, op: Op)
    requires op.OpCreatePlan? || op.OpUpdatePlan? || op.OpPatchPlan?
    ensures LegalStep(db, op)
  {
  }

  lemma StatusMoves(db: Db, op: Op)
    requires op.OpIntendPlan? || op.OpLinkFill? || op.OpCancelPlan?
    ensures LegalStep(db, op)
  {
  }

  lemma DeletesMove(db: Db, op: Op)
    requires op.OpDeletePlan? || op.OpDeleteTrade? || op.OpDeleteOpportunity?
    ensures LegalStep(db, op)
  {
  }

  lemma TradesMove(db: Db, op: Op)
    requires op.OpCreateTrade? || op.OpPatchTrade?
    ensures LegalStep(db, op)
  {
  }

  lemma FillsMove(db: Db, op: Op)
    requires OnFills(op)
    ensures LegalStep(db, op)
  {
  }

  lemma RulesMove(db: Db, op: Op)
    requires op.OpDeleteAllocation? || op.OpDeleteGate? || op.OpSaveReview? || op.OpPatchReview? || op.OpSetActive? || op.OpEditRules?
    ensures LegalStep(db, op)
  {
  }

  lemma ApplyMoves(db: Db, op: Op)
    ensures LegalStep(db, op)
  {
    match op
    case OpCreatePlan(_, _) => EditsMove(db, op);
    case OpUpdatePlan(_, _) => EditsMove(db, op);
    case OpPatchPlan(_, _) => EditsMove(db, op);
    case OpIntendPlan(_) => StatusMoves(db, op);
    case OpLinkFill(_, _) => StatusMoves(db, op);
    case OpCancelPlan(_) => StatusMoves(db, op);
    case OpDeletePlan(_) => DeletesMove(db, op);
    case OpDeleteTrade(_) => DeletesMove(db, op);
    case OpDeleteOpportunity(_) => DeletesMove(db, op);
    case OpCreateTrade(_, _, _, _) => TradesMove(db, op);
    case OpPatchTrade(_, _, _) => TradesMove(db, op);
    case _ => if OnFills(op) { FillsMove(db, op); } else { RulesMove(db, op); }
  }

  // ----- one step keeps the rules -----

  ghost predicate OnPlans(op: Op) {
    op.OpCreatePlan? || op.OpUpdatePlan? || op.OpPatchPlan? || op.OpIntendPlan? || op.OpLinkFill? || op.OpCancelPlan? || op.OpDeletePlan?
  }

  lemma PlanStepKeeps(db: Db, op: Op, next: Db)
    requires Kept(db) && OnPlans(op) && Moved(db, op, next)
    ensures Kept(next)
  {
    assert next.trades == db.trades && next.fills == db.fills;
    forall id | id in next.plans
      ensures PlanKept(next, next.plans[id])
    {
      if id in db.plans {
        assert PlanKept(db, db.plans[id]);
      }
    }
  }

  lemma FillStepKeeps(db: Db, op: Op, next: Db)
    requires Kept(db) && OnFills(op) && Moved(db, op, next)
    ensures Kept(next)
  {
    forall id | id in next.plans
      ensures PlanKept(next, next.plans[id])
    {
      assert PlanKept(db, db.plans[id]);
    }
  }

  lemma OtherStepKeeps(db: Db, op: Op, next: Db)
    requires Kept(db) && !OnPlans(op) && !OnFills(op) && Moved(db, op, next)
    ensures Kept(next)
  {
    assert next.plans.Keys == db.plans.Keys;
    forall id | id in next.plans
      ensures PlanKept(next, next.plans[id])
    {
      assert PlanKept(db, db.plans[id]);
    }
  }

  lemma StepKeepsGood(db: Db, op: Op)
    requires Good(db)
    ensures Good(Apply(db, op).db)
  {
    ApplyMoves(db, op);
    var next := Apply(db, op).db;
    if next != db {
      KeptStep(db, op, next);
    }
  }

  /** The same of an operation's answer. */
  lemma AnswerKeepsGood(db: Db, op: Op, r: Result)
    requires r == Apply(db, op)
    ensures Good(db) ==> Good(r.db)
  {
    if Good(db) {
      StepKeepsGood(db, op);
    }
  }

  lemma KeptStep(db: Db, op: Op, next: Db)
    requires Kept(db) && Moved(db, op, next)
    ensures Kept(next)
  {
    if OnPlans(op) {
      PlanStepKeeps(db, op, next);
    } else if OnFills(op) {
      FillStepKeeps(db, op, next);
    } else {
      OtherStepKeeps(db, op, next);
    }
  }

  // ----- one step moves each plan along its life -----

  /** The edges of the plan's life: stay, or one of the four moves. */
  predicate StatusStep(a: Status, b: Status) {
    || a == b
    || (a == Draft && b == Intended)
    || (a == Intended && b == Filled)
    || ((a == Draft || a == Intended) && b == Cancelled)
  }

  /** Everything reachable along those edges. */
  predicate StatusPath(a: Status, b: Status) {
    a == b || a == Draft || (a == Intended && b != Draft)
  }

  /** What is judged is untouched: only the expiry and the opportunity link may differ, and the link
      only by being cleared. */
  ghost predicate Frozen(c: Content, e: Content) {
    && e == c.(expiresAt := e.expiresAt, opportunityId := e.opportunityId)
    && (e.opportunityId == c.opportunityId || e.opportunityId == None)
  }

  ghost predicate Evolves(p: Plan, q: Plan) {
    && StatusPath(p.status, q.status)
    && (p.status != Draft ==> Frozen(p.content, q.content))
    && (p.status == Filled || p.status == Cancelled ==> q.content.expiresAt == p.content.expiresAt)
    && (q.parentId == p.parentId || q.parentId == None)
    && (p.tradeId.Some? ==> q.tradeId == p.tradeId)
  }

  /** A plan that is still there has evolved; one that is not was a draft someone deleted. */
  ghost predicate StepOf(db: Db, op: Op, next: Db, id: nat)
    requires id in db.plans
  {
    if id in next.plans
    then Evolves(db.plans[id], next.plans[id]) && StatusStep(db.plans[id].status, next.plans[id].status)
    else op == OpDeletePlan(id) && db.plans[id].status == Draft
  }

  lemma PlanMoveEvolves(db: Db, op: Op, next: Db, id: nat)
    requires FreshIds(db) && OnPlans(op) && Moved(db, op, next) && id in db.plans
    requires db.plans[id].tradeId.Some? ==> db.plans[id].status == Filled
    ensures StepOf(db, op, next, id)
  {
  }

  lemma MoveEvolves(db: Db, op: Op, next: Db, id: nat)
    requires FreshIds(db) && Moved(db, op, next) && id in db.plans
    requires db.plans[id].tradeId.Some? ==> db.plans[id].status == Filled
    ensures StepOf(db, op, next, id)
  {
    if OnPlans(op) {
      PlanMoveEvolves(db, op, next, id);
    }
  }

  lemma StepEvolves(db: Db, op: Op, id: nat)
    requires Good(db) && id in db.plans
    ensures StepOf(db, op, Apply(db, op).db, id)
  {
    assert RowChecks(db.plans[id]);
    ApplyMoves(db, op);
    var next := Apply(db, op).db;
    if next != db {
      MoveEvolves(db, op, next, id);
    }
  }

  /** Who touches a plan past draft: the delete of what it links to, and a patch of its expiry. */
  ghost predicate TouchedBy(db: Db, op: Op, p: Plan, q: Plan, id: nat) {
    && q.content.opportunityId ==
         (if p.content.opportunityId.Some? && op == OpDeleteOpportunity(p.content.opportunityId.value) then None
          else p.content.opportunityId)
    && q.parentId == (if p.parentId.Some? && op == OpDeletePlan(p.parentId.value) then None else p.parentId)
    && (q.content.expiresAt != p.content.expiresAt ==> p.status == Intended && op.OpPatchPlan? && op.planId == id)
  }

  lemma PlanOpTouches(db: Db, op: Op, next: Db, id: nat)
    requires OnPlans(op) && FreshIds(db) && Moved(db, op, next) && id in db.plans && db.plans[id].status != Draft
    ensures id in next.plans && TouchedBy(db, op, db.plans[id], next.plans[id], id)
  {
  }

  lemma MoveTouches(db: Db, op: Op, next: Db, id: nat)
    requires FreshIds(db) && Moved(db, op, next) && id in db.plans && db.plans[id].status != Draft
    ensures id in next.plans && TouchedBy(db, op, db.plans[id], next.plans[id], id)
  {
    if OnPlans(op) {
      PlanOpTouches(db, op, next, id);
    }
  }

  lemma StepTouches(db: Db, op: Op, id: nat)
    requires Good(db) && id in db.plans && db.plans[id].status != Draft
    ensures var next := Apply(db, op).db;
            id in next.plans && (next == db || TouchedBy(db, op, db.plans[id], next.plans[id], id))
  {
    ApplyMoves(db, op);
    if Apply(db, op).db != db {
      MoveTouches(db, op, Apply(db, op).db, id);
    }
  }

  /** Deleting an opportunity clears the link of every plan to it, whatever the plan's status, and changes
      nothing else of the plan. */
  lemma OpportunityDeleteClears(db: Db, id: nat, opportunity: nat)
    requires Good(db) && id in db.plans && opportunity in db.rules.opportunities && !OpportunityReferenced(db, opportunity)
    ensures var r := Apply(db, OpDeleteOpportunity(opportunity));
            && r.outcome == Done && id in r.db.plans
            && r.db.plans[id] == db.plans[id].(content := db.plans[id].content.(
                 opportunityId := Cleared(db.plans[id].content.opportunityId, opportunity)))
  {
    DeleteOpportunityExact(db, opportunity);
  }

  /** Deleting a draft clears the parent link of every plan rolled from it. */
  lemma DraftDeleteClears(db: Db, id: nat, parent: nat)
    requires Good(db) && id in db.plans && id != parent && parent in db.plans && db.plans[parent].status == Draft
    ensures var r := Apply(db, OpDeletePlan(parent));
            && r.outcome == Done && id in r.db.plans
            && r.db.plans[id] == db.plans[id].(parentId := Cleared(db.plans[id].parentId, parent))
  {
    DeletePlanExact(db, parent);
  }

  /** The row of a plan past draft after an operation: its expiry as patched, and a link cleared exactly
      when what it names was deleted. */
  ghost predicate LinksAfter(db: Db, op: Op, p: Plan, q: Plan) {
    && (q.content.opportunityId != p.content.opportunityId <==>
          && p.content.opportunityId.Some? && op == OpDeleteOpportunity(p.content.opportunityId.value)
          && !OpportunityReferenced(db, p.content.opportunityId.value))
    && (q.content.opportunityId != p.content.opportunityId ==> q.content.opportunityId == None)
    && (q.parentId != p.parentId <==>
          && p.parentId.Some? && op == OpDeletePlan(p.parentId.value)
          && p.parentId.value in db.plans && db.plans[p.parentId.value].status == Draft)
    && (q.parentId != p.parentId ==> q.parentId == None)
  }

  /** Past draft a link changes exactly when what it names is deleted, and then it is cleared; the expiry
      changes only by a patch of the intended plan itself. */
  lemma LinksClearedIff(db: Db, op: Op, id: nat)
    requires Good(db) && id in db.plans && db.plans[id].status != Draft
    ensures id in Apply(db, op).db.plans && LinksAfter(db, op, db.plans[id], Apply(db, op).db.plans[id])
    ensures Apply(db, op).db.plans[id].content.expiresAt != db.plans[id].content.expiresAt ==>
              db.plans[id].status == Intended && op.OpPatchPlan? && op.planId == id
  {
    var p := db.plans[id];
    assert PlanRefs(db, p);
    StepTouches(db, op, id);
    if p.content.opportunityId.Some? && op == OpDeleteOpportunity(p.content.opportunityId.value) {
      LinkStays(db, id, p.content.opportunityId.value);
    }
    if p.parentId.Some? && op == OpDeletePlan(p.parentId.value) {
      ParentStays(db, id, p.parentId.value);
    }
  }

  lemma LinkStays(db: Db, id: nat, opportunity: nat)
    requires Good(db) && id in db.plans && opportunity in db.rules.opportunities
    ensures var next := Apply(db, OpDeleteOpportunity(opportunity)).db;
            && id in next.plans
            && (OpportunityReferenced(db, opportunity) ==> next == db)
            && (!OpportunityReferenced(db, opportunity) ==>
                  next.plans[id].content.opportunityId == Cleared(db.plans[id].content.opportunityId, opportunity))
  {
    if !OpportunityReferenced(db, opportunity) {
      OpportunityDeleteClears(db, id, opportunity);
    }
  }

  lemma ParentStays(db: Db, id: nat, parent: nat)
    requires Good(db) && id in db.plans && parent in db.plans && db.plans[id].status != Draft
    ensures var next := Apply(db, OpDeletePlan(parent)).db;
            && id in next.plans
            && (db.plans[parent].status != Draft ==> next == db)
            && (db.plans[parent].status == Draft ==> next.plans[id].parentId == Cleared(db.plans[id].parentId, parent))
  {
    if db.plans[parent].status == Draft {
      DraftDeleteClears(db, id, parent);
    }
  }

  // ----- runs -----

  function Run(db: Db, ops: seq<Op>): Db {
    if ops == [] then db else Apply(Run(db, ops[..|ops| - 1]), ops[|ops| - 1]).db
  }

  lemma {:induction false} RunKeepsGood(db: Db, ops: seq<Op>)
    requires Good(db)
    ensures Good(Run(db, ops))
  {
    if ops != [] {
      RunKeepsGood(db, ops[..|ops| - 1]);
      StepKeepsGood(Run(db, ops[..|ops| - 1]), ops[|ops| - 1]);
    }
  }

  lemma EvolvesTransitive(p: Plan, q: Plan, r: Plan)
    requires Evolves(p, q) && Evolves(q, r)
    ensures Evolves(p, r)
  {
  }

  /** Ids are never handed out twice. */
  lemma MoveKeepsGone(db: Db, op: Op, next: Db, id: nat)
    requires Moved(db, op, next) && id !in db.plans && id < db.nextPlan
    ensures id !in next.plans && id < next.nextPlan
  {
  }

  lemma StepKeepsGone(db: Db, op: Op, id: nat)
    requires id !in db.plans && id < db.nextPlan
    ensures id !in Apply(db, op).db.plans && id < Apply(db, op).db.nextPlan
  {
    ApplyMoves(db, op);
    if Apply(db, op).db != db {
      MoveKeepsGone(db, op, Apply(db, op).db, id);
    }
  }

  /** Over any run a plan either evolves or, if it was a draft, is gone for good. */
  lemma {:induction false} RunEvolves(db: Db, ops: seq<Op>, id: nat)
    requires Good(db) && id in db.plans
    ensures var end := Run(db, ops);
            && id < end.nextPlan
            && (id in end.plans ==> Evolves(db.plans[id], end.plans[id]))
            && (id !in end.plans ==> db.plans[id].status == Draft)
  {
    assert FreshIds(db);
    if ops != [] {
      var n := |ops| - 1;
      var mid := Run(db, ops[..n]);
      RunEvolves(db, ops[..n], id);
      RunKeepsGood(db, ops[..n]);
      assert FreshIds(mid);
      if id in mid.plans {
        StepEvolves(mid, ops[n], id);
        RunKeepsGood(db, ops);
        var end := Run(db, ops);
        assert FreshIds(end);
        if id in end.plans {
          EvolvesTransitive(db.plans[id], mid.plans[id], end.plans[id]);
        } else {
          assert ops[n] == OpDeletePlan(id) && mid.plans[id].status == Draft;
        }
      } else {
        StepKeepsGone(mid, ops[n], id);
      }
    }
  }

  /** A filled plan stays filled by the same trade, and that trade stays, in the plan's account. */
  lemma FilledForever(db: Db, ops: seq<Op>, id: nat)
    requires Good(db) && id in db.plans && db.plans[id].status == Filled
    ensures var end, t := Run(db, ops), db.plans[id].tradeId;
            && id in end.plans && end.plans[id].status == Filled && end.plans[id].tradeId == t
            && t.Some? && t.value in end.trades
            && end.trades[t.value].account == end.plans[id].content.account == db.plans[id].content.account
  {
    RunEvolves(db, ops, id);
    RunKeepsGood(db, ops);
    var end := Run(db, ops);
    assert PlanKept(end, end.plans[id]);
    assert RowChecks(db.plans[id]);
  }

  /** In every reachable state the status, the trade link and the written exit agree. */
  lemma ReachablePlans(db: Db, ops: seq<Op>, id: nat)
    requires Good(db) && id in Run(db, ops).plans
    ensures var end := Run(db, ops);
            var p := end.plans[id];
            && (p.status == Filled <==> p.tradeId.Some?)
            && (p.tradeId.Some? ==> p.tradeId.value in end.trades && end.trades[p.tradeId.value].account == p.content.account)
            && (p.status == Intended || p.status == Filled ==> p.content.legs != [] && ExitWritten(p.content))
            && TargetPaired(p.content) && StopPaired(p.content)
  {
    RunKeepsGood(db, ops);
    assert RowChecks(Run(db, ops).plans[id]) && PlanKept(Run(db, ops), Run(db, ops).plans[id]);
  }

  ghost predicate IntendedAt(db: Db, ops: seq<Op>, id: nat, k: nat)
    requires k <= |ops|
  {
    id in Run(db, ops[..k]).plans && Run(db, ops[..k]).plans[id].status == Intended
  }

  /** A plan that goes from draft to filled was intended on the way. */
  lemma {:induction false} FilledThroughIntended(db: Db, ops: seq<Op>, id: nat)
    requires Good(db) && id in db.plans && db.plans[id].status == Draft
    requires id in Run(db, ops).plans && Run(db, ops).plans[id].status == Filled
    ensures exists k :: 0 <= k <= |ops| && IntendedAt(db, ops, id, k)
  {
    assert ops != [];
    var n := |ops| - 1;
    FilledStep(db, ops, id);
    if !IntendedAt(db, ops, id, n) {
      FilledThroughIntended(db, ops[..n], id);
      var k :| 0 <= k <= n && IntendedAt(db, ops[..n], id, k);
      assert ops[..n][..k] == ops[..k];
      assert IntendedAt(db, ops, id, k);
    }
  }

  lemma FilledStep(db: Db, ops: seq<Op>, id: nat)
    requires Good(db) && id in db.plans && ops != []
    requires id in Run(db, ops).plans && Run(db, ops).plans[id].status == Filled
    ensures var mid := Run(db, ops[..|ops| - 1]);
            id in mid.plans && (mid.plans[id].status == Intended || mid.plans[id].status == Filled)
  {
    var n := |ops| - 1;
    RunKeepsGood(db, ops[..n]);
    RunEvolves(db, ops[..n], id);
    BeforeFilled(Run(db, ops[..n]), ops[n], id);
  }

  lemma BeforeFilled(db: Db, op: Op, id: nat)
    requires Good(db) && id < db.nextPlan
    requires id in Apply(db, op).db.plans && Apply(db, op).db.plans[id].status == Filled
    ensures id in db.plans && (db.plans[id].status == Intended || db.plans[id].status == Filled)
  {
    if id !in db.plans {
      StepKeepsGone(db, op, id);
    } else {
      StepEvolves(db, op, id);
    }
  }

  // ----- reviews -----

  /** Saving and patching a review succeed exactly for a trade that is there; otherwise the save meets the
      foreign key and the patch its own guard. */
  lemma ReviewExact(db: Db, tradeId: nat, reviewed: Option<bool>, now: int)
    requires Good(db)
    ensures Apply(db, OpSaveReview(tradeId, reviewed, now)) ==
              if tradeId in db.trades then Result(WithReview(db, tradeId, reviewed, now), Done) else Result(db, Failed)
    ensures Apply(db, OpPatchReview(tradeId, reviewed, now)) ==
              if tradeId in db.trades then Result(WithReview(db, tradeId, reviewed, now), Done) else Result(db, NotFound)
  {
    ReviewCommits(db, tradeId, reviewed, now);
  }

  lemma ReviewCommits(db: Db, tradeId: nat, reviewed: Option<bool>, now: int)
    requires Constraints(db)
    ensures Constraints(WithReview(db, tradeId, reviewed, now)) <==> tradeId in db.trades
  {
    var next := WithReview(db, tradeId, reviewed, now);
    assert next.reviews.Keys == db.reviews.Keys + {tradeId};
    if tradeId in db.trades {
      forall p | p in next.plans
        ensures RowChecks(next.plans[p]) && PlanRefs(next, next.plans[p])
      {
        assert RowChecks(db.plans[p]) && PlanRefs(db, db.plans[p]);
      }
    }
  }

  /** The stamp of a trade's review, after any run of saves and patches of it. */
  function StampAfter(stored: Option<int>, saves: seq<(Option<bool>, int)>): Option<int> {
    if saves == [] then stored
    else Stamp(StampAfter(stored, saves[..|saves| - 1]), saves[|saves| - 1].0, saves[|saves| - 1].1)
  }

  /** Nothing says "confirmed" from place `k` on. */
  ghost predicate NoConfirm(saves: seq<(Option<bool>, int)>, k: nat) {
    forall i :: k <= i < |saves| ==> saves[i].0 != Some(true)
  }

  ghost predicate NoRetraction(saves: seq<(Option<bool>, int)>, k: nat) {
    forall i :: k <= i < |saves| ==> saves[i].0 != Some(false)
  }

  /** After a retraction, or from the start, there is no stamp until the next confirm. */
  lemma {:induction false} NoStampUntilConfirm(saves: seq<(Option<bool>, int)>, k: nat)
    requires k <= |saves| && NoConfirm(saves, k) && (k == 0 || saves[k - 1].0 == Some(false))
    ensures StampAfter(None, saves) == None
  {
    if saves != [] {
      var n := |saves| - 1;
      if k <= n {
        NoStampUntilConfirm(saves[..n], k);
      }
    }
  }

  /** Confirm `k` is the first one since the last retraction before it, or since the start. */
  ghost predicate FirstConfirm(saves: seq<(Option<bool>, int)>, k: nat) {
    && k < |saves| && saves[k].0 == Some(true)
    && exists r :: 0 <= r <= k && (r == 0 || saves[r - 1].0 == Some(false)) && NoConfirm(saves[..k], r)
  }

  /** A review holds the time of the first confirm since the last retraction. */
  lemma {:induction false} StampIsFirstConfirm(saves: seq<(Option<bool>, int)>, k: nat)
    requires FirstConfirm(saves, k) && NoRetraction(saves, k)
    ensures StampAfter(None, saves) == Some(saves[k].1)
  {
    var n := |saves| - 1;
    if k < n {
      assert saves[..n][..k] == saves[..k];
      StampIsFirstConfirm(saves[..n], k);
    } else {
      var r :| 0 <= r <= k && (r == 0 || saves[r - 1].0 == Some(false)) && NoConfirm(saves[..k], r);
      NoStampUntilConfirm(saves[..k], r);
    }
  }

  // ----- findings -----

  /** An intended plan that loses its opportunity link: nothing refuses the opportunity's delete. */
  lemma LinkLossHappens() returns (db: Db)
    ensures Good(db) && 1 in db.plans && db.plans[1].status == Intended
    ensures db.plans[1].content.opportunityId == Some(7) && !OpportunityReferenced(db, 7)
    ensures 1 in Apply(db, OpDeleteOpportunity(7)).db.plans
    ensures Apply(db, OpDeleteOpportunity(7)).db.plans[1].content.opportunityId == None
  {
    var c := Content("U1", Prose("ABC", "Short put", None, None, Manual, None), None, Some(7),
                     [PlanLeg(false, "ABC P", 1)], 1, None, None, None, None, None, Some(20261016), None);
    var rules := Rules(map[7 := Opportunity(3, None)], map[], {}, {}, {3}, Settings(None, None, None));
    db := Db(map[1 := Plan(c, Intended, None, None)], map[], map[], map[], rules, 2, 1);
    assert RowChecks(db.plans[1]) && PlanRefs(db, db.plans[1]);
    OpportunityDeleteClears(db, 1, 7);
  }

  /** The half of a pair that is cleared on its own while its other half stays stored. */
  predicate ClearsHalf(c: Content, p: PlanPatch) {
    || (p.targetKind == Sent(None) && p.targetValue.Unsent? && c.targetValue.Some?)
    || (p.targetValue == Sent(None) && p.targetKind.Unsent? && c.targetKind.Some?)
    || (p.stopKind == Sent(None) && p.stopValue.Unsent? && c.stopValue.Some?)
    || (p.stopValue == Sent(None) && p.stopKind.Unsent? && c.stopKind.Some?)
  }

  /** The update's own pair rule reads the payload alone, so it lets exactly these edits through and the
      table's CHECK is what stops them. */
  lemma UpdatePairGap(c: Content, p: PlanPatch)
    requires TargetPaired(c) && StopPaired(c) && PayloadPaired(p)
    ensures (TargetPaired(Patched(c, p)) && StopPaired(Patched(c, p))) <==> !ClearsHalf(c, p)
  {
  }

  /** Exactly when an update of a draft that passes its guards is refused by the table. */
  lemma UpdateRefusedByTable(db: Db, id: nat, p: PlanPatch)
    requires Good(db) && id in db.plans && db.plans[id].status == Draft
    requires FieldsOk(p) && PayloadPaired(p) && p != NOTHING_SENT
    ensures Apply(db, OpUpdatePlan(id, p)).outcome == Failed <==>
              || ClearsHalf(db.plans[id].content, p)
              || (p.limitPrice.Or(None).Some? && p.limitPrice.Or(None).value < 0.0)
              || !RefIn(p.structureId.Or(None), db.rules.structures)
              || !RefIn(p.opportunityId.Or(None), db.rules.opportunities.Keys)
    ensures Apply(db, OpUpdatePlan(id, p)).outcome == Failed || Apply(db, OpUpdatePlan(id, p)).outcome == Done
  {
    var was, c := db.plans[id], db.plans[id].content;
    assert RowChecks(was) && PlanRefs(db, was);
    UpdatePairGap(c, p);
    OneRowChanged(db, id, was.(content := Patched(c, p)));
  }

  /** A draft with a target, and an update that clears the target's kind alone. */
  lemma ClearingHalfIsRefused() returns (db: Db)
    ensures Good(db) && 1 in db.plans && db.plans[1].status == Draft
    ensures var p := NOTHING_SENT.(targetKind := Sent(None));
            FieldsOk(p) && PayloadPaired(p) && Apply(db, OpUpdatePlan(1, p)).outcome == Failed
  {
    var c := Content("U1", Prose("ABC", "Short put", None, None, Manual, None), None, None,
                     [], 1, None, Some(CreditPct), Some(50.0), None, None, None, None);
    db := Db(map[1 := Plan(c, Draft, None, None)], map[], map[], map[],
             Rules(map[], map[], {}, {}, {}, Settings(None, None, None)), 2, 1);
    assert RowChecks(db.plans[1]) && PlanRefs(db, db.plans[1]);
    UpdateRefusedByTable(db, 1, NOTHING_SENT.(targetKind := Sent(None)));
  }

  /** Rewriting one plan is legal exactly when the new row is. */
  lemma OneRowChanged(db: Db, id: nat, q: Plan)
    requires Constraints(db) && id in db.plans
    ensures Constraints(WithPlan(db, id, q)) <==> RowChecks(q) && PlanRefs(db, q)
  {
    OneRowOk(db, id, q);
  }

  lemma OneRowOk(db: Db, id: nat, q: Plan)
    requires PlansOk(db) && id in db.plans
    ensures PlansOk(WithPlan(db, id, q)) <==> RowChecks(q) && PlanRefs(db, q)
  {
    var next := WithPlan(db, id, q);
    assert next.plans.Keys == db.plans.Keys;
    assert next.plans[id] == q;
    forall k | k in next.plans && k != id
      ensures RowChecks(next.plans[k]) && PlanRefs(next, next.plans[k])
    {
      assert RowChecks(db.plans[k]) && PlanRefs(db, db.plans[k]);
    }
  }

  /** The lifecycle moves never meet a constraint: what their guards let through commits. */
  lemma LifecycleMovesExact(db: Db, id: nat, t: nat)
    requires Good(db)
    ensures Apply(db, OpIntendPlan(id)).outcome == Done <==>
              && id in db.plans && db.plans[id].status == Draft
              && db.plans[id].content.legs != [] && ExitWritten(db.plans[id].content)
    ensures Apply(db, OpLinkFill(id, t)).outcome == Done <==>
              && id in db.plans && db.plans[id].status == Intended
              && t in db.trades && db.trades[t].account == db.plans[id].content.account
    ensures Apply(db, OpCancelPlan(id)).outcome == Done <==>
              id in db.plans && (db.plans[id].status == Draft || db.plans[id].status == Intended)
  {
    if id in db.plans {
      var p := db.plans[id];
      assert RowChecks(p) && PlanRefs(db, p);
      OneRowChanged(db, id, p.(status := Intended));
      OneRowChanged(db, id, p.(status := Filled, tradeId := Some(t)));
      OneRowChanged(db, id, p.(status := Cancelled));
    }
  }

  /** A patch judges the merged row itself, so past its guards only a missing reference stops it. */
  lemma PatchExact(db: Db, id: nat, p: PlanPatch)
    requires Good(db)
    ensures Apply(db, OpPatchPlan(id, p)).outcome == Done <==>
              && p != NOTHING_SENT && PatchFieldsOk(p) && id in db.plans
              && (db.plans[id].status == Draft || (db.plans[id].status == Intended && ExpiryOnly(p)))
              && TargetPaired(Patched(db.plans[id].content, p)) && StopPaired(Patched(db.plans[id].content, p))
              && RefIn(p.structureId.Or(None), db.rules.structures)
              && RefIn(p.opportunityId.Or(None), db.rules.opportunities.Keys)
  {
    if id in db.plans {
      var was := db.plans[id];
      assert RowChecks(was) && PlanRefs(db, was);
      OneRowChanged(db, id, was.(content := Patched(was.content, p)));
    }
  }
}
