/**
 The writers as they run: an object holding the tables, whose methods check, change and commit.

 Each method answers what its operation in `TradeOps` answers and leaves the tables as it says, and keeps
 them good. A sequence of calls is a run: each call is one `Apply`.
 */
module TradeStore {
  import opened Prelude
  import opened TradeSchema
  import opened TradeOps
  import opened TradeRuns

  class Store {
    var plans: map<nat, Plan>
    var trades: map<nat, Trade>
    var fills: map<FillKey, Option<real>>
    var reviews: map<nat, Option<int>>
    var rules: Rules
    var nextPlan: nat
    var nextTrade: nat

    function State(): Db
      reads this
    {
      Db(plans, trades, fills, reviews, rules, nextPlan, nextTrade)
    }

    constructor ()
      ensures Good(State())
      ensures plans == map[] && trades == map[] && fills == map[]
    {
      plans, trades, fills, reviews := map[], map[], map[], map[];
      rules := Rules(map[], map[], {}, {}, {}, Settings(None, None, None));
      nextPlan, nextTrade := 1, 1;
    }

    /** End of a transaction: write the new tables, or roll back on a violated constraint. */
    method CommitTo(next: Db, onError: Outcome) returns (outcome: Outcome)
      modifies this
      ensures Result(State(), outcome) == Commit(old(State()), next, onError)
    {
      if Constraints(next) {
        Write(next);
        outcome := Done;
      } else {
        outcome := onError;
      }
    }

    method Write(next: Db)
      modifies this
      ensures State() == next
    {
      plans, trades, fills, reviews := next.plans, next.trades, next.fills, next.reviews;
      rules, nextPlan, nextTrade := next.rules, next.nextPlan, next.nextTrade;
    }

    method CreateDraft(c: Content, parent: Option<nat>) returns (outcome: Outcome)
      modifies this
      ensures Result(State(), outcome) == CreatePlan(old(State()), c, parent)
      ensures Good(old(State())) ==> Good(State())
    {
      AnswerKeepsGood(State(), OpCreatePlan(c, parent), CreatePlan(State(), c, parent));
      if !NewContentOk(c) {
        outcome := Conflict;
      } else {
        var draft := Plan(c, Draft, None, parent);
        outcome := CommitTo(State().(plans := plans[nextPlan := draft], nextPlan := nextPlan + 1), Failed);
      }
    }

    method Update(id: nat, p: PlanPatch) returns (outcome: Outcome)
      modifies this
      ensures Result(State(), outcome) == UpdatePlan(old(State()), id, p)
      ensures Good(old(State())) ==> Good(State())
    {
      AnswerKeepsGood(State(), OpUpdatePlan(id, p), UpdatePlan(State(), id, p));
      if !FieldsOk(p) || !PayloadPaired(p) {
        outcome := Conflict;
      } else if id !in plans {
        outcome := NotFound;
      } else {
        var plan := plans[id];
        if plan.status != Draft {
          outcome := Conflict;
        } else if p == NOTHING_SENT {
          outcome := Done;
        } else {
          outcome := CommitTo(State().(plans := plans[id := plan.(content := Patched(plan.content, p))]), Failed);
        }
      }
    }

    method Patch(id: nat, p: PlanPatch) returns (outcome: Outcome)
      modifies this
      ensures Result(State(), outcome) == PatchPlan(old(State()), id, p)
      ensures Good(old(State())) ==> Good(State())
    {
      AnswerKeepsGood(State(), OpPatchPlan(id, p), PatchPlan(State(), id, p));
      if p == NOTHING_SENT || !PatchFieldsOk(p) {
        outcome := Invalid;
      } else if id !in plans {
        outcome := NotFound;
      } else {
        var plan := plans[id];
        var merged := Patched(plan.content, p);
        if plan.status == Intended && !ExpiryOnly(p) {
          outcome := Conflict;
        } else if plan.status == Filled || plan.status == Cancelled {
          outcome := Conflict;
        } else if !TargetPaired(merged) || !StopPaired(merged) {
          outcome := Invalid;
        } else {
          outcome := CommitTo(State().(plans := plans[id := plan.(content := merged)]), Invalid);
        }
      }
    }

    method Intend(id: nat) returns (outcome: Outcome)
      modifies this
      ensures Result(State(), outcome) == IntendPlan(old(State()), id)
      ensures Good(old(State())) ==> Good(State())
    {
      AnswerKeepsGood(State(), OpIntendPlan(id), IntendPlan(State(), id));
      if id !in plans {
        outcome := NotFound;
      } else {
        var plan := plans[id];
        if plan.status != Draft {
          outcome := Conflict;
        } else if plan.content.legs == [] {
          outcome := Conflict;
        } else if !ExitWritten(plan.content) {
          outcome := Conflict;
        } else {
          outcome := CommitTo(State().(plans := plans[id := plan.(status := Intended)]), Failed);
        }
      }
    }

    method Link(id: nat, tradeId: nat) returns (outcome: Outcome)
      modifies this
      ensures Result(State(), outcome) == LinkFill(old(State()), id, tradeId)
      ensures Good(old(State())) ==> Good(State())
    {
      AnswerKeepsGood(State(), OpLinkFill(id, tradeId), LinkFill(State(), id, tradeId));
      if id !in plans {
        outcome := NotFound;
      } else {
        var plan := plans[id];
        if plan.status != Intended {
          outcome := Conflict;
        } else if tradeId !in trades {
          outcome := Conflict;
        } else if trades[tradeId].account != plan.content.account {
          outcome := Conflict;
        } else {
          outcome := CommitTo(State().(plans := plans[id := plan.(status := Filled, tradeId := Some(tradeId))]), Failed);
        }
      }
    }

    method Cancel(id: nat) returns (outcome: Outcome)
      modifies this
      ensures Result(State(), outcome) == CancelPlan(old(State()), id)
      ensures Good(old(State())) ==> Good(State())
    {
      AnswerKeepsGood(State(), OpCancelPlan(id), CancelPlan(State(), id));
      if id !in plans {
        outcome := NotFound;
      } else {
        var plan := plans[id];
        if plan.status == Filled || plan.status == Cancelled {
          outcome := Conflict;
        } else {
          outcome := CommitTo(State().(plans := plans[id := plan.(status := Cancelled)]), Failed);
        }
      }
    }

    method RemovePlan(id: nat) returns (outcome: Outcome)
      modifies this
      ensures Result(State(), outcome) == DeletePlan(old(State()), id)
      ensures Good(old(State())) ==> Good(State())
    {
      AnswerKeepsGood(State(), OpDeletePlan(id), DeletePlan(State(), id));
      if id !in plans {
        outcome := NotFound;
      } else if plans[id].status != Draft {
        outcome := Conflict;
      } else {
        var kept := map p | p in plans && p != id :: plans[p].(parentId := Cleared(plans[p].parentId, id));
        outcome := CommitTo(State().(plans := kept), Conflict);
      }
    }

    method OpenTrade(opportunityId: nat, account: string, openedAt: int, caption: Option<string>) returns (outcome: Outcome)
      modifies this
      ensures Result(State(), outcome) == CreateTrade(old(State()), opportunityId, account, openedAt, caption)
      ensures Good(old(State())) ==> Good(State())
    {
      AnswerKeepsGood(State(), OpCreateTrade(opportunityId, account, openedAt, caption), CreateTrade(State(), opportunityId, account, openedAt, caption));
      if !TradeFieldsOk(account, caption) || opportunityId !in rules.opportunities {
        outcome := Invalid;
      } else {
        var trade := Trade(opportunityId, account, openedAt, caption);
        outcome := CommitTo(WithNewTrade(State(), trade), Invalid);
      }
    }

    method RemoveTrade(id: nat) returns (outcome: Outcome)
      modifies this
      ensures Result(State(), outcome) == DeleteTrade(old(State()), id)
      ensures Good(old(State())) ==> Good(State())
    {
      AnswerKeepsGood(State(), OpDeleteTrade(id), DeleteTrade(State(), id));
      if id !in trades {
        outcome := NotFound;
      } else {
        var attributed := exists k :: k in fills && k.tradeId == id;
        var filledPlans := exists p :: p in plans && plans[p].tradeId == Some(id);
        if attributed || filledPlans || id in reviews {
          outcome := Conflict;
        } else {
          outcome := CommitTo(State().(trades := trades - {id}), Conflict);
        }
      }
    }

    method RemoveOpportunity(id: nat) returns (outcome: Outcome)
      modifies this
      ensures Result(State(), outcome) == DeleteOpportunity(old(State()), id)
      ensures Good(old(State())) ==> Good(State())
    {
      AnswerKeepsGood(State(), OpDeleteOpportunity(id), DeleteOpportunity(State(), id));
      if id !in rules.opportunities {
        outcome := NotFound;
      } else if exists t :: t in trades && trades[t].opportunityId == id {
        outcome := Conflict;
      } else {
        outcome := CommitTo(WithoutOpportunity(State(), id), Conflict);
      }
    }

    method RemoveAllocation(id: nat) returns (outcome: Outcome)
      modifies this
      ensures Result(State(), outcome) == DeleteAllocation(old(State()), id)
      ensures Good(old(State())) ==> Good(State())
    {
      AnswerKeepsGood(State(), OpDeleteAllocation(id), DeleteAllocation(State(), id));
      if id !in rules.allocations {
        outcome := NotFound;
      } else if rules.settings.allocationId == Some(id) {
        outcome := Conflict;
      } else {
        outcome := CommitTo(WithoutAllocation(State(), id), Conflict);
      }
    }

    method RemoveGate(id: nat) returns (outcome: Outcome)
      modifies this
      ensures Result(State(), outcome) == DeleteGate(old(State()), id)
      ensures Good(old(State())) ==> Good(State())
    {
      AnswerKeepsGood(State(), OpDeleteGate(id), DeleteGate(State(), id));
      if id !in rules.gates {
        outcome := NotFound;
      } else {
        var byOpportunity := exists o :: o in rules.opportunities && rules.opportunities[o].gateId == Some(id);
        var byAllocation := exists a :: a in rules.allocations && rules.allocations[a].gateId == Some(id);
        if !byOpportunity && !byAllocation && rules.settings.gateId == Some(id) {
          outcome := Conflict;
        } else if byOpportunity || byAllocation {
          outcome := Conflict;
        } else {
          outcome := CommitTo(WithoutGate(State(), id), Conflict);
        }
      }
    }

    /** Check every split of a fill, as the loop over the request body does. */
    method CheckSplits(account: string, splits: seq<Split>, expected: real) returns (ok: bool)
      ensures ok <==> SplitsOk(State(), account, splits, expected)
    {
      ok := true;
      var total := 0.0;
      for i := 0 to |splits|
        invariant total == Total(splits[..i])
        invariant ok <==> forall j :: 0 <= j < i ==>
                    splits[j].quantity != 0.0 && TakesFill(State(), splits[j].tradeId, account)
      {
        assert splits[..i + 1][..i] == splits[..i];
        if splits[i].quantity == 0.0 || splits[i].tradeId !in trades || trades[splits[i].tradeId].account != account {
          ok := false;
        }
        total := total + splits[i].quantity;
      }
      assert splits[..|splits|] == splits;
      if exists i, j :: 0 <= i < j < |splits| && splits[i].tradeId == splits[j].tradeId {
        ok := false;
      }
      if splits != [] && !AddsUp(total, expected) {
        ok := false;
      }
    }

    /** Replace a fill's splits: delete them, clear the whole-fill row when there are new ones, insert row by
        row. */
    method PutSplitRows(before: map<FillKey, Option<real>>, account: string, execId: string, splits: seq<Split>)
      returns (rows: map<FillKey, Option<real>>)
      ensures rows == PutSplits(before, account, execId, splits)
    {
      rows := DropRows(before, account, execId, true);
      if splits == [] {
        return;
      }
      rows := DropRows(rows, account, execId, false);
      ghost var base := rows;
      for i := 0 to |splits|
        invariant rows == AddSplits(base, account, execId, splits[..i])
      {
        assert splits[..i + 1][..i] == splits[..i];
        rows := rows[FillKey(account, execId, splits[i].tradeId) := Some(splits[i].quantity)];
      }
      assert splits[..|splits|] == splits;
    }

    /** Replace the split rows of one fill. */
    method SetSplits(account: string, execId: string, splits: seq<Split>, expected: real) returns (outcome: Outcome)
      modifies this
      ensures Result(State(), outcome) == ReplaceSplits(old(State()), account, execId, splits, expected)
      ensures Good(old(State())) ==> Good(State())
    {
      AnswerKeepsGood(State(), OpReplaceSplits(account, execId, splits, expected), ReplaceSplits(State(), account, execId, splits, expected));
      var ok := CheckSplits(account, splits, expected);
      if execId == "" || !ok {
        outcome := Invalid;
      } else {
        var rows := PutSplitRows(fills, account, execId, splits);
        outcome := CommitTo(State().(fills := rows), Failed);
      }
    }

    /** Write the whole-fill row of `rows`, and commit; a clash with the unique key rolls back. */
    method CommitWhole(rows: map<FillKey, Option<real>>, account: string, execId: string, trade: Option<nat>)
      returns (outcome: Outcome)
      modifies this
      ensures Result(State(), outcome) == CommitFills(old(State()), PutWhole(rows, account, execId, trade))
    {
      var next := DropRows(rows, account, execId, false);
      if trade.Some? {
        var k := FillKey(account, execId, trade.value);
        if k in next {
          return Failed;
        }
        next := next[k := None];
      }
      outcome := CommitTo(State().(fills := next), Failed);
    }

    /** Change the attribution of an execution. */
    method PatchFill(account: string, execId: string, whole: Sent<Option<nat>>, splits: Sent<seq<Split>>, expected: real)
      returns (outcome: Outcome)
      modifies this
      ensures Result(State(), outcome) == PatchExecution(old(State()), account, execId, whole, splits, expected)
      ensures Good(old(State())) ==> Good(State())
    {
      AnswerKeepsGood(State(), OpPatchExecution(account, execId, whole, splits, expected), PatchExecution(State(), account, execId, whole, splits, expected));
      var names := whole.Sent? && whole.value.Some?;
      if whole.Unsent? && splits.Unsent? {
        return Invalid;
      }
      if names && splits.Sent? && splits.value != [] {
        return Invalid;
      }
      if execId == "" || (names && !TakesFill(State(), whole.value.value, account)) {
        return Invalid;
      }
      if names && splits.Unsent? && HasSplits(fills, account, execId) {
        return Conflict;
      }
      var rows := fills;
      if splits.Sent? {
        var ok := CheckSplits(account, splits.value, expected);
        if !ok {
          return Invalid;
        }
        rows := PutSplitRows(rows, account, execId, splits.value);
      }
      if whole.Sent? {
        outcome := CommitWhole(rows, account, execId, whole.value);
      } else {
        outcome := CommitTo(State().(fills := rows), Failed);
      }
    }

    /** Edit an execution: splits first, then the whole-fill row. */
    method EditFill(account: string, execId: string, whole: Sent<Option<nat>>, splits: Sent<Option<seq<Split>>>, expected: real)
      returns (outcome: Outcome)
      modifies this
      ensures Result(State(), outcome) == UpdateExecution(old(State()), account, execId, whole, splits, expected)
      ensures Good(old(State())) ==> Good(State())
    {
      AnswerKeepsGood(State(), OpUpdateExecution(account, execId, whole, splits, expected), UpdateExecution(State(), account, execId, whole, splits, expected));
      var rows := fills;
      if splits.Sent? && splits.value.Some? {
        var ok := CheckSplits(account, splits.value.value, expected);
        if execId == "" || !ok {
          return Invalid;
        }
        rows := PutSplitRows(rows, account, execId, splits.value.value);
      }
      if whole.Unsent? {
        outcome := CommitTo(State().(fills := rows), Failed);
        return;
      }
      if execId == "" {
        return Invalid;
      }
      if whole.value.Some? {
        if !TakesFill(State(), whole.value.value, account) {
          return Invalid;
        }
        if splits.Sent? && splits.value.Some? && splits.value.value != [] {
          return Invalid;
        }
        if splits.Unsent? && HasSplits(fills, account, execId) {
          return Invalid;
        }
      }
      outcome := CommitWhole(rows, account, execId, whole.value);
    }

    /** Attribute a new execution: the whole-fill row first, then the splits. */
    method InsertFill(account: string, execId: string, trade: Option<nat>, splits: Option<seq<Split>>, expected: real)
      returns (outcome: Outcome)
      modifies this
      ensures Result(State(), outcome) == InsertExecution(old(State()), account, execId, trade, splits, expected)
      ensures Good(old(State())) ==> Good(State())
    {
      AnswerKeepsGood(State(), OpInsertExecution(account, execId, trade, splits, expected), InsertExecution(State(), account, execId, trade, splits, expected));
      if execId == "" {
        return Invalid;
      }
      var rows := fills;
      if trade.Some? {
        if !TakesFill(State(), trade.value, account) {
          return Invalid;
        }
        var k := FillKey(account, execId, trade.value);
        rows := DropRows(rows, account, execId, false);
        if k in rows {
          return Failed;
        }
        rows := rows[k := None];
      }
      if splits.Some? {
        var ok := CheckSplits(account, splits.value, expected);
        if !ok {
          return Invalid;
        }
        rows := PutSplitRows(rows, account, execId, splits.value);
      }
      outcome := CommitTo(State().(fills := rows), Failed);
    }

    /** Remove the attribution of a fill whose last raw row is gone. */
    method RemoveFill(account: string, execId: string) returns (outcome: Outcome)
      modifies this
      ensures Result(State(), outcome) == DropFill(old(State()), account, execId)
      ensures Good(old(State())) ==> Good(State())
    {
      AnswerKeepsGood(State(), OpDropFill(account, execId), DropFill(State(), account, execId));
      if execId == "" {
        return Done;
      }
      outcome := CommitTo(State().(fills := WithoutFill(fills, account, execId)), Failed);
    }

    method EditTrade(id: nat, caption: Sent<Option<string>>, openedAt: Sent<int>) returns (outcome: Outcome)
      modifies this
      ensures Result(State(), outcome) == PatchTrade(old(State()), id, caption, openedAt)
      ensures Good(old(State())) ==> Good(State())
    {
      AnswerKeepsGood(State(), OpPatchTrade(id, caption, openedAt), PatchTrade(State(), id, caption, openedAt));
      if (caption.Unsent? && openedAt.Unsent?) || (caption.Sent? && caption.value == Some("")) {
        outcome := Invalid;
      } else if id !in trades {
        outcome := NotFound;
      } else {
        var trade := trades[id].(caption := caption.Or(trades[id].caption), openedAt := openedAt.Or(trades[id].openedAt));
        outcome := CommitTo(State().(trades := trades[id := trade]), Invalid);
      }
    }

    /** Upsert a review, leaving a missing trade to the foreign key. */
    method Review(tradeId: nat, reviewed: Option<bool>, now: int) returns (outcome: Outcome)
      modifies this
      ensures Result(State(), outcome) == SaveReview(old(State()), tradeId, reviewed, now)
      ensures Good(old(State())) ==> Good(State())
    {
      AnswerKeepsGood(State(), OpSaveReview(tradeId, reviewed, now), SaveReview(State(), tradeId, reviewed, now));
      var stamp := ReviewStamp(tradeId, reviewed, now);
      outcome := CommitTo(State().(reviews := reviews[tradeId := stamp]), Failed);
    }

    /** The stamp a save leaves on a review. */
    method ReviewStamp(tradeId: nat, reviewed: Option<bool>, now: int) returns (stamp: Option<int>)
      ensures stamp == Stamp(if tradeId in reviews then reviews[tradeId] else None, reviewed, now)
    {
      stamp := if tradeId in reviews then reviews[tradeId] else None;
      if reviewed == Some(true) {
        if stamp.None? {
          stamp := Some(now);
        }
      } else if reviewed == Some(false) {
        stamp := None;
      }
    }

    /** Change a review's sent fields; the trade must be there. */
    method EditReview(tradeId: nat, reviewed: Option<bool>, now: int) returns (outcome: Outcome)
      modifies this
      ensures Result(State(), outcome) == PatchReview(old(State()), tradeId, reviewed, now)
      ensures Good(old(State())) ==> Good(State())
    {
      AnswerKeepsGood(State(), OpPatchReview(tradeId, reviewed, now), PatchReview(State(), tradeId, reviewed, now));
      if tradeId !in trades {
        return NotFound;
      }
      var stamp := ReviewStamp(tradeId, reviewed, now);
      outcome := CommitTo(State().(reviews := reviews[tradeId := stamp]), NotFound);
    }

    /** Write the settings columns sent. */
    method Activate(structure: Sent<Option<nat>>, gate: Sent<Option<nat>>, allocation: Sent<Option<nat>>)
      returns (outcome: Outcome)
      modifies this
      ensures Result(State(), outcome) == SetActive(old(State()), structure, gate, allocation)
      ensures Good(old(State())) ==> Good(State())
    {
      AnswerKeepsGood(State(), OpSetActive(structure, gate, allocation), SetActive(State(), structure, gate, allocation));
      if structure.Unsent? && gate.Unsent? && allocation.Unsent? {
        return Done;
      }
      var next := rules.settings;
      if structure.Sent? {
        if !RefIn(structure.value, rules.structures) {
          return Invalid;
        }
        next := next.(structureId := structure.value);
      }
      if gate.Sent? {
        if !RefIn(gate.value, rules.gates) {
          return Invalid;
        }
        next := next.(gateId := gate.value);
      }
      if allocation.Sent? {
        if !RefIn(allocation.value, rules.allocations.Keys) {
          return Invalid;
        }
        next := next.(allocationId := allocation.value);
      }
      outcome := CommitTo(State().(rules := rules.(settings := next)), Failed);
    }
  }
}
