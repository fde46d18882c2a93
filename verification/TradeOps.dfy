/**
 The guarded writers, each as a function from the tables to the tables and an outcome.

 Every writer runs its own guards first and then one transaction. The transaction commits when the
 declared constraints hold afterwards (`Commit`), and otherwise changes nothing.
 */
module TradeOps {
  import opened Prelude
  import opened TradeSchema

  datatype Outcome = Done | NotFound | Conflict | Invalid | Failed

  datatype Result = Result(db: Db, outcome: Outcome)

  /** The end of a transaction. `onError` is what the writer makes of a violated constraint. */
  function Commit(db: Db, next: Db, onError: Outcome): Result {
    if Constraints(next) then Result(next, Done) else Result(db, onError)
  }

  // ----- plan payloads -----

  datatype Sent<T> = Unsent | Sent(value: T) {
    function Or(stored: T): T {
      if Sent? then value else stored
    }
  }

  /** The fields a client sent. */
  datatype PlanPatch = PlanPatch(
    account: Sent<string>, prose: ProsePatch, structureId: Sent<Option<nat>>, opportunityId: Sent<Option<nat>>,
    legs: Sent<seq<PlanLeg>>, qty: Sent<int>, limitPrice: Sent<Option<real>>,
    targetKind: Sent<Option<TargetKind>>, targetValue: Sent<Option<real>>,
    stopKind: Sent<Option<StopKind>>, stopValue: Sent<Option<real>>,
    exitBy: Sent<Option<int>>, expiresAt: Sent<Option<int>>)

  datatype ProsePatch = ProsePatch(
    symbol: Sent<string>, structureLabel: Sent<string>, priceEffect: Sent<Option<PriceEffect>>,
    rationale: Sent<Option<string>>, sourceKind: Sent<SourceKind>, sourceRef: Sent<Option<string>>)

  const NO_PROSE := ProsePatch(Unsent, Unsent, Unsent, Unsent, Unsent, Unsent)

  const NOTHING_SENT := PlanPatch(
    Unsent, NO_PROSE, Unsent, Unsent, Unsent, Unsent, Unsent, Unsent, Unsent, Unsent, Unsent, Unsent, Unsent)

  function PatchedProse(c: Prose, p: ProsePatch): Prose {
    Prose(p.symbol.Or(c.symbol), p.structureLabel.Or(c.structureLabel), p.priceEffect.Or(c.priceEffect),
          p.rationale.Or(c.rationale), p.sourceKind.Or(c.sourceKind), p.sourceRef.Or(c.sourceRef))
  }

  function Patched(c: Content, p: PlanPatch): Content {
    Content(
      p.account.Or(c.account), PatchedProse(c.prose, p.prose),
      p.structureId.Or(c.structureId), p.opportunityId.Or(c.opportunityId),
      p.legs.Or(c.legs), p.qty.Or(c.qty), p.limitPrice.Or(c.limitPrice),
      p.targetKind.Or(c.targetKind), p.targetValue.Or(c.targetValue),
      p.stopKind.Or(c.stopKind), p.stopValue.Or(c.stopValue),
      p.exitBy.Or(c.exitBy), p.expiresAt.Or(c.expiresAt))
  }

  /** Required text is not blank and the quantity is at least one. */
  predicate FieldsOk(p: PlanPatch) {
    && p.account.Or("x") != "" && p.prose.symbol.Or("x") != "" && p.prose.structureLabel.Or("x") != ""
    && p.qty.Or(1) >= 1
  }

  /** The pair rule of create and update: it looks at the payload alone, a missing half read as null. */
  predicate PayloadPaired(p: PlanPatch) {
    && (p.targetKind.Sent? || p.targetValue.Sent? ==> (p.targetKind.Or(None).None? <==> p.targetValue.Or(None).None?))
    && (p.stopKind.Sent? || p.stopValue.Sent? ==> (p.stopKind.Or(None).None? <==> p.stopValue.Or(None).None?))
  }

  predicate NewContentOk(c: Content) {
    c.account != "" && c.prose.symbol != "" && c.prose.structureLabel != "" && c.qty >= 1 && TargetPaired(c) && StopPaired(c)
  }

  // ----- plans -----

  function CreatePlan(db: Db, c: Content, parent: Option<nat>): Result {
    if !NewContentOk(c) then Result(db, Conflict)
    else Commit(db, db.(plans := db.plans[db.nextPlan := Plan(c, Draft, None, parent)], nextPlan := db.nextPlan + 1), Failed)
  }

  function WithPlan(db: Db, id: nat, p: Plan): Db {
    db.(plans := db.plans[id := p])
  }

  /** Replace a draft's fields (PUT). */
  function UpdatePlan(db: Db, id: nat, p: PlanPatch): Result {
    if !FieldsOk(p) || !PayloadPaired(p) then Result(db, Conflict)
    else if id !in db.plans then Result(db, NotFound)
    else if db.plans[id].status != Draft then Result(db, Conflict)
    else if p == NOTHING_SENT then Result(db, Done)
    else Commit(db, WithPlan(db, id, db.plans[id].(content := Patched(db.plans[id].content, p))), Failed)
  }

  /** Only the expiry is sent. */
  predicate ExpiryOnly(p: PlanPatch) {
    p == NOTHING_SENT.(expiresAt := p.expiresAt)
  }

  /** The validators of a PATCH: required text, a quantity of at least one, no negative limit, and a source
      kind from the shorter list that PATCH accepts. */
  predicate PatchFieldsOk(p: PlanPatch) {
    && FieldsOk(p)
    && (p.limitPrice.Or(None).Some? ==> p.limitPrice.Or(None).value >= 0.0)
    && p.prose.sourceKind.Or(Manual) != Lens && p.prose.sourceKind.Or(Manual) != BacktestRun
  }

  /** Change the fields sent (PATCH): any of a draft's, the expiry alone of an intended plan. */
  function PatchPlan(db: Db, id: nat, p: PlanPatch): Result {
    if p == NOTHING_SENT || !PatchFieldsOk(p) then Result(db, Invalid)
    else if id !in db.plans then Result(db, NotFound)
    else
      var plan := db.plans[id];
      var next := Patched(plan.content, p);
      if plan.status == Intended && !ExpiryOnly(p) then Result(db, Conflict)
      else if plan.status != Intended && plan.status != Draft then Result(db, Conflict)
      else if !TargetPaired(next) || !StopPaired(next) then Result(db, Invalid)
      else Commit(db, WithPlan(db, id, plan.(content := next)), Invalid)
  }

  function IntendPlan(db: Db, id: nat): Result {
    if id !in db.plans then Result(db, NotFound)
    else
      var plan := db.plans[id];
      if plan.status != Draft || plan.content.legs == [] || !ExitWritten(plan.content) then Result(db, Conflict)
      else Commit(db, WithPlan(db, id, plan.(status := Intended)), Failed)
  }

  function LinkFill(db: Db, id: nat, tradeId: nat): Result {
    if id !in db.plans then Result(db, NotFound)
    else
      var plan := db.plans[id];
      if plan.status != Intended || tradeId !in db.trades || db.trades[tradeId].account != plan.content.account then
        Result(db, Conflict)
      else Commit(db, WithPlan(db, id, plan.(status := Filled, tradeId := Some(tradeId))), Failed)
  }

  function CancelPlan(db: Db, id: nat): Result {
    if id !in db.plans then Result(db, NotFound)
    else if db.plans[id].status != Draft && db.plans[id].status != Intended then Result(db, Conflict)
    else Commit(db, WithPlan(db, id, db.plans[id].(status := Cancelled)), Failed)
  }

  // ----- deletes: the row goes, CASCADE rows go with it, SET NULL columns are cleared -----

  function Cleared(ref: Option<nat>, id: nat): Option<nat> {
    if ref == Some(id) then None else ref
  }

  function WithoutPlan(db: Db, id: nat): Db {
    db.(plans := map p | p in db.plans && p != id :: db.plans[p].(parentId := Cleared(db.plans[p].parentId, id)))
  }

  function DeletePlan(db: Db, id: nat): Result {
    if id !in db.plans then Result(db, NotFound)
    else if db.plans[id].status != Draft then Result(db, Conflict)
    else Commit(db, WithoutPlan(db, id), Conflict)
  }

  function WithoutTrade(db: Db, id: nat): Db {
    db.(trades := db.trades - {id})
  }

  /** Fills attributed to the trade, plans filled by it, its review. */
  predicate TradeReferenced(db: Db, id: nat) {
    || (exists k :: k in db.fills && k.tradeId == id)
    || (exists p :: p in db.plans && db.plans[p].tradeId == Some(id))
    || id in db.reviews
  }

  function DeleteTrade(db: Db, id: nat): Result {
    if id !in db.trades then Result(db, NotFound)
    else if TradeReferenced(db, id) then Result(db, Conflict)
    else Commit(db, WithoutTrade(db, id), Conflict)
  }

  function WithoutOpportunity(db: Db, id: nat): Db {
    db.(plans := map p | p in db.plans :: db.plans[p].(content :=
          db.plans[p].content.(opportunityId := Cleared(db.plans[p].content.opportunityId, id))),
        rules := db.rules.(opportunities := db.rules.opportunities - {id},
                           memberships := (set m | m in db.rules.memberships && m.1 != id)))
  }

  predicate OpportunityReferenced(db: Db, id: nat) {
    exists t :: t in db.trades && db.trades[t].opportunityId == id
  }

  function DeleteOpportunity(db: Db, id: nat): Result {
    if id !in db.rules.opportunities then Result(db, NotFound)
    else if OpportunityReferenced(db, id) then Result(db, Conflict)
    else Commit(db, WithoutOpportunity(db, id), Conflict)
  }

  function WithoutAllocation(db: Db, id: nat): Db {
    db.(rules := db.rules.(
      allocations := db.rules.allocations - {id},
      memberships := (set m | m in db.rules.memberships && m.0 != id),
      settings := db.rules.settings.(allocationId := Cleared(db.rules.settings.allocationId, id))))
  }

  function DeleteAllocation(db: Db, id: nat): Result {
    if id !in db.rules.allocations then Result(db, NotFound)
    else if db.rules.settings.allocationId == Some(id) then Result(db, Conflict)
    else Commit(db, WithoutAllocation(db, id), Conflict)
  }

  function WithoutGate(db: Db, id: nat): Db {
    db.(rules := db.rules.(
      gates := db.rules.gates - {id},
      settings := db.rules.settings.(gateId := Cleared(db.rules.settings.gateId, id))))
  }

  predicate GateReferenced(db: Db, id: nat) {
    || (exists o :: o in db.rules.opportunities && db.rules.opportunities[o].gateId == Some(id))
    || (exists a :: a in db.rules.allocations && db.rules.allocations[a].gateId == Some(id))
    || db.rules.settings.gateId == Some(id)
  }

  function DeleteGate(db: Db, id: nat): Result {
    if id !in db.rules.gates then Result(db, NotFound)
    else if GateReferenced(db, id) then Result(db, Conflict)
    else Commit(db, WithoutGate(db, id), Conflict)
  }

  // ----- trades, reviews, settings -----

  /** The account is named and a caption is not blank. */
  predicate TradeFieldsOk(account: string, caption: Option<string>) {
    account != "" && caption != Some("")
  }

  function WithNewTrade(db: Db, t: Trade): Db {
    db.(trades := db.trades[db.nextTrade := t], nextTrade := db.nextTrade + 1)
  }

  function CreateTrade(db: Db, opportunityId: nat, account: string, openedAt: int, caption: Option<string>): Result {
    if !TradeFieldsOk(account, caption) || opportunityId !in db.rules.opportunities then Result(db, Invalid)
    else Commit(db, WithNewTrade(db, Trade(opportunityId, account, openedAt, caption)), Invalid)
  }

  function PatchTrade(db: Db, id: nat, caption: Sent<Option<string>>, openedAt: Sent<int>): Result {
    if (caption.Unsent? && openedAt.Unsent?) || caption.Or(None) == Some("") then Result(db, Invalid)
    else if id !in db.trades then Result(db, NotFound)
    else
      var t := db.trades[id];
      Commit(db, db.(trades := db.trades[id := t.(caption := caption.Or(t.caption), openedAt := openedAt.Or(t.openedAt))]), Invalid)
  }

  /** When a review was confirmed: a second confirm keeps the first stamp, a retraction clears it, and a save
      that does not say keeps what is stored. */
  function Stamp(stored: Option<int>, reviewed: Option<bool>, now: int): Option<int> {
    if reviewed.None? then stored
    else if !reviewed.value then None
    else if stored.Some? then stored
    else Some(now)
  }

  function WithReview(db: Db, tradeId: nat, reviewed: Option<bool>, now: int): Db {
    var stored := if tradeId in db.reviews then db.reviews[tradeId] else None;
    db.(reviews := db.reviews[tradeId := Stamp(stored, reviewed, now)])
  }

  /** Upsert a review; a trade that is not there is left to the foreign key. */
  function SaveReview(db: Db, tradeId: nat, reviewed: Option<bool>, now: int): Result {
    Commit(db, WithReview(db, tradeId, reviewed, now), Failed)
  }

  /** Change the fields of a review that were sent; its tags are not kept here. */
  function PatchReview(db: Db, tradeId: nat, reviewed: Option<bool>, now: int): Result {
    if tradeId !in db.trades then Result(db, NotFound)
    else Commit(db, WithReview(db, tradeId, reviewed, now), NotFound)
  }

  /** Write the settings columns sent; each new reference must exist. */
  function SetActive(db: Db, structure: Sent<Option<nat>>, gate: Sent<Option<nat>>, allocation: Sent<Option<nat>>): Result {
    if structure.Unsent? && gate.Unsent? && allocation.Unsent? then Result(db, Done)
    else if || !RefIn(gate.Or(None), db.rules.gates)
            || !RefIn(structure.Or(None), db.rules.structures)
            || !RefIn(allocation.Or(None), db.rules.allocations.Keys) then Result(db, Invalid)
    else
      var s := db.rules.settings;
      var next := Settings(structure.Or(s.structureId), gate.Or(s.gateId), allocation.Or(s.allocationId));
      Commit(db, db.(rules := db.rules.(settings := next)), Failed)
  }

  // ----- fill attribution -----

  predicate SameFill(k: FillKey, account: string, execId: string) {
    k.account == account && k.execId == execId
  }

  /** The fills without the rows of one fill that are whole (`splits` false) or split (`splits` true). */
  function DropRows(fills: map<FillKey, Option<real>>, account: string, execId: string, splits: bool): map<FillKey, Option<real>> {
    map k | k in fills && !(SameFill(k, account, execId) && fills[k].Some? == splits) :: fills[k]
  }

  predicate HasSplits(fills: map<FillKey, Option<real>>, account: string, execId: string) {
    exists k :: k in fills && SameFill(k, account, execId) && fills[k].Some?
  }

  predicate TakesFill(db: Db, tradeId: nat, account: string) {
    tradeId in db.trades && db.trades[tradeId].account == account
  }

  /** The whole-fill row of a fill: dropped, or pointed at a trade. No rows when the trade already has a
      split of the fill, which the table's unique key refuses. */
  function PutWhole(fills: map<FillKey, Option<real>>, account: string, execId: string, trade: Option<nat>)
    : Option<map<FillKey, Option<real>>>
  {
    var rest := DropRows(fills, account, execId, false);
    if trade.None? then Some(rest)
    else
      var k := FillKey(account, execId, trade.value);
      if k in rest then None else Some(rest[k := None])
  }

  datatype Split = Split(tradeId: nat, quantity: real)

  function Total(splits: seq<Split>): real {
    if splits == [] then 0.0 else Total(splits[..|splits| - 1]) + splits[|splits| - 1].quantity
  }

  function Gap(a: real, b: real): real {
    if a >= b then a - b else b - a
  }

  /** Adding up to the fill, to one part in a hundred thousand. */
  predicate AddsUp(total: real, expected: real) {
    Gap(total, expected) <= 0.00001 * (if Gap(expected, 0.0) > 1.0 then Gap(expected, 0.0) else 1.0)
  }

  predicate SplitsOk(db: Db, account: string, splits: seq<Split>, expected: real) {
    && (forall i :: 0 <= i < |splits| ==> splits[i].quantity != 0.0 && TakesFill(db, splits[i].tradeId, account))
    && (forall i, j :: 0 <= i < j < |splits| ==> splits[i].tradeId != splits[j].tradeId)
    && (splits != [] ==> AddsUp(Total(splits), expected))
  }

  function AddSplits(fills: map<FillKey, Option<real>>, account: string, execId: string, splits: seq<Split>): map<FillKey, Option<real>> {
    if splits == [] then fills
    else
      var n := |splits| - 1;
      AddSplits(fills, account, execId, splits[..n])[FillKey(account, execId, splits[n].tradeId) := Some(splits[n].quantity)]
  }

  /** The fills without any row of one fill. */
  function WithoutFill(fills: map<FillKey, Option<real>>, account: string, execId: string): map<FillKey, Option<real>> {
    DropRows(DropRows(fills, account, execId, true), account, execId, false)
  }

  /** Replace the fill's splits; a non-empty list also clears the whole-fill row. */
  function PutSplits(fills: map<FillKey, Option<real>>, account: string, execId: string, splits: seq<Split>)
    : map<FillKey, Option<real>>
  {
    if splits == [] then DropRows(fills, account, execId, true)
    else AddSplits(WithoutFill(fills, account, execId), account, execId, splits)
  }

  /** The end of a write of fill rows; no rows mean that a statement met the unique key. */
  function CommitFills(db: Db, fills: Option<map<FillKey, Option<real>>>): Result {
    if fills.None? then Result(db, Failed) else Commit(db, db.(fills := fills.value), Failed)
  }

  function ReplaceSplits(db: Db, account: string, execId: string, splits: seq<Split>, expected: real): Result {
    if execId == "" || !SplitsOk(db, account, splits, expected) then Result(db, Invalid)
    else CommitFills(db, Some(PutSplits(db.fills, account, execId, splits)))
  }

  /** Splits and a trade for the whole fill, in one body. */
  predicate BothWays(whole: Sent<Option<nat>>, splits: seq<Split>) {
    whole.Or(None).Some? && splits != []
  }

  /** Splits, if a list was given, then the whole-fill row, if a trade or null was. */
  function PutBoth(fills: map<FillKey, Option<real>>, account: string, execId: string,
                   whole: Sent<Option<nat>>, splits: Option<seq<Split>>): Option<map<FillKey, Option<real>>>
  {
    var base := if splits.Some? then PutSplits(fills, account, execId, splits.value) else fills;
    if whole.Sent? then PutWhole(base, account, execId, whole.value) else Some(base)
  }

  /** Change the attribution of an execution (PATCH): a split fill takes a trade only with an empty list of
      splits beside it. */
  function PatchExecution(db: Db, account: string, execId: string, whole: Sent<Option<nat>>,
                          splits: Sent<seq<Split>>, expected: real): Result
  {
    var list := splits.Or([]);
    if (whole.Unsent? && splits.Unsent?) || BothWays(whole, list) || execId == "" then Result(db, Invalid)
    else if whole.Or(None).Some? && !TakesFill(db, whole.value.value, account) then Result(db, Invalid)
    else if whole.Or(None).Some? && splits.Unsent? && HasSplits(db.fills, account, execId) then Result(db, Conflict)
    else if splits.Sent? && !SplitsOk(db, account, list, expected) then Result(db, Invalid)
    else CommitFills(db, PutBoth(db.fills, account, execId, whole, if splits.Sent? then Some(list) else None))
  }

  /** Edit an execution (PUT). The same two fields, but `fill_splits: null` counts as sent without being a
      list, so it passes by the test for splits. */
  function UpdateExecution(db: Db, account: string, execId: string, whole: Sent<Option<nat>>,
                           splits: Sent<Option<seq<Split>>>, expected: real): Result
  {
    var list := splits.Or(None);
    if list.Some? && (execId == "" || !SplitsOk(db, account, list.value, expected)) then Result(db, Invalid)
    else if whole.Sent? && execId == "" then Result(db, Invalid)
    else if && whole.Or(None).Some?
            && (|| !TakesFill(db, whole.value.value, account)
                || (list.Some? && BothWays(whole, list.value))
                || (splits.Unsent? && HasSplits(db.fills, account, execId))) then Result(db, Invalid)
    else CommitFills(db, PutBoth(db.fills, account, execId, whole, list))
  }

  /** Attribute a new execution: the whole-fill row first, with no test for splits, then the splits. The exec
      id is the row's own, or one made up for it, so it is not blank. */
  function InsertExecution(db: Db, account: string, execId: string, trade: Option<nat>,
                           splits: Option<seq<Split>>, expected: real): Result
  {
    if execId == "" || (trade.Some? && !TakesFill(db, trade.value, account)) then Result(db, Invalid)
    else
      var whole := if trade.Some? then PutWhole(db.fills, account, execId, trade) else Some(db.fills);
      if whole.None? then Result(db, Failed)
      else if splits.None? then CommitFills(db, whole)
      else if !SplitsOk(db, account, splits.value, expected) then Result(db, Invalid)
      else CommitFills(db, Some(PutSplits(whole.value, account, execId, splits.value)))
  }

  /** The last raw row of a fill is gone: so is its attribution. */
  function DropFill(db: Db, account: string, execId: string): Result {
    if execId == "" then Result(db, Done) else CommitFills(db, Some(WithoutFill(db.fills, account, execId)))
  }

  /** The writers of the rule objects (create and patch): rows are added or edited, none is deleted,
      except that an allocation's memberships are replaced as a list. */
  function EditRules(db: Db, rules: Rules): Result {
    if && db.rules.opportunities.Keys <= rules.opportunities.Keys
       && db.rules.allocations.Keys <= rules.allocations.Keys
       && db.rules.gates <= rules.gates && db.rules.structures <= rules.structures
       && rules.settings == db.rules.settings
    then Commit(db, db.(rules := rules), Invalid)
    else Result(db, Invalid)
  }

  // ----- one name for all of them -----

  datatype Op =
    | OpCreatePlan(content: Content, parent: Option<nat>)
    | OpUpdatePlan(planId: nat, patch: PlanPatch)
    | OpPatchPlan(planId: nat, patch: PlanPatch)
    | OpIntendPlan(planId: nat)
    | OpLinkFill(planId: nat, tradeId: nat)
    | OpCancelPlan(planId: nat)
    | OpDeletePlan(planId: nat)
    | OpCreateTrade(opportunityId: nat, account: string, openedAt: int, caption: Option<string>)
    | OpPatchTrade(tradeId: nat, newCaption: Sent<Option<string>>, newOpenedAt: Sent<int>)
    | OpDeleteTrade(tradeId: nat)
    | OpDeleteOpportunity(opportunityId: nat)
    | OpDeleteAllocation(allocationId: nat)
    | OpDeleteGate(gateId: nat)
    | OpSaveReview(tradeId: nat, reviewed: Option<bool>, now: int)
    | OpPatchReview(tradeId: nat, reviewed: Option<bool>, now: int)
    | OpSetActive(structure: Sent<Option<nat>>, gate: Sent<Option<nat>>, allocation: Sent<Option<nat>>)
    | OpReplaceSplits(account: string, execId: string, splits: seq<Split>, expected: real)
    | OpPatchExecution(account: string, execId: string, whole: Sent<Option<nat>>, sentSplits: Sent<seq<Split>>, expected: real)
    | OpUpdateExecution(account: string, execId: string, whole: Sent<Option<nat>>, bodySplits: Sent<Option<seq<Split>>>, expected: real)
    | OpInsertExecution(account: string, execId: string, trade: Option<nat>, newSplits: Option<seq<Split>>, expected: real)
    | OpDropFill(account: string, execId: string)
    | OpEditRules(rules: Rules)

  function Apply(db: Db, op: Op): Result {
    match op
    case OpCreatePlan(c, parent) => CreatePlan(db, c, parent)
    case OpUpdatePlan(id, p) => UpdatePlan(db, id, p)
    case OpPatchPlan(id, p) => PatchPlan(db, id, p)
    case OpIntendPlan(id) => IntendPlan(db, id)
    case OpLinkFill(id, t) => LinkFill(db, id, t)
    case OpCancelPlan(id) => CancelPlan(db, id)
    case OpDeletePlan(id) => DeletePlan(db, id)
    case OpCreateTrade(o, a, at, l) => CreateTrade(db, o, a, at, l)
    case OpPatchTrade(id, l, at) => PatchTrade(db, id, l, at)
    case OpDeleteTrade(id) => DeleteTrade(db, id)
    case OpDeleteOpportunity(id) => DeleteOpportunity(db, id)
    case OpDeleteAllocation(id) => DeleteAllocation(db, id)
    case OpDeleteGate(id) => DeleteGate(db, id)
    case OpSaveReview(t, r, now) => SaveReview(db, t, r, now)
    case OpPatchReview(t, r, now) => PatchReview(db, t, r, now)
    case OpSetActive(s, g, a) => SetActive(db, s, g, a)
    case OpReplaceSplits(a, e, s, x) => ReplaceSplits(db, a, e, s, x)
    case OpPatchExecution(a, e, w, s, x) => PatchExecution(db, a, e, w, s, x)
    case OpUpdateExecution(a, e, w, s, x) => UpdateExecution(db, a, e, w, s, x)
    case OpInsertExecution(a, e, t, s, x) => InsertExecution(db, a, e, t, s, x)
    case OpDropFill(a, e) => DropFill(db, a, e)
    case OpEditRules(rules) => EditRules(db, rules)
  }
}
