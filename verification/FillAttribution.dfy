/**
 Attributing fills: what each writer does to the rows of a fill, when it meets the unique key, and which
 writers keep a fill attributed one way, whole or in splits.
 */
module FillAttribution {
  import opened Prelude
  import opened TradeSchema
  import opened TradeOps
  import opened TradeRuns

  // ----- the rows of a fill -----

  /** Adding splits of one fill touches only that fill's rows and makes all of them splits. */
  lemma {:induction false} AddedSplits(fills: map<FillKey, Option<real>>, account: string, execId: string, splits: seq<Split>)
    ensures var r := AddSplits(fills, account, execId, splits);
            && (forall k :: k in r && !SameFill(k, account, execId) ==> k in fills && r[k] == fills[k])
            && (forall k :: k in fills && !SameFill(k, account, execId) ==> k in r)
            && (forall k :: k in r && SameFill(k, account, execId) ==> r[k].Some? || (k in fills && r[k] == fills[k]))
  {
    if splits != [] {
      AddedSplits(fills, account, execId, splits[..|splits| - 1]);
    }
  }

  /** The rows of the fill after a replacement are the splits sent, with their quantities. */
  lemma {:induction false} AddedSplitsRows(fills: map<FillKey, Option<real>>, account: string, execId: string, splits: seq<Split>)
    requires forall k :: k in fills ==> !SameFill(k, account, execId)
    requires forall i, j :: 0 <= i < j < |splits| ==> splits[i].tradeId != splits[j].tradeId
    ensures var r := AddSplits(fills, account, execId, splits);
            && (forall i :: 0 <= i < |splits| ==>
                  var k := FillKey(account, execId, splits[i].tradeId); k in r && r[k] == Some(splits[i].quantity))
            && (forall k :: k in r && SameFill(k, account, execId) ==>
                  exists i :: 0 <= i < |splits| && splits[i].tradeId == k.tradeId && r[k] == Some(splits[i].quantity))
  {
    if splits != [] {
      var n := |splits| - 1;
      AddedSplitsRows(fills, account, execId, splits[..n]);
      var r := AddSplits(fills, account, execId, splits);
      forall k | k in r && SameFill(k, account, execId)
        ensures exists i :: 0 <= i < |splits| && splits[i].tradeId == k.tradeId && r[k] == Some(splits[i].quantity)
      {
        if k.tradeId == splits[n].tradeId {
          assert r[k] == Some(splits[n].quantity);
        } else {
          var i :| 0 <= i < n && splits[..n][i].tradeId == k.tradeId && r[k] == Some(splits[..n][i].quantity);
          assert splits[i] == splits[..n][i];
        }
      }
    }
  }

  /** Pointing the whole fill at a trade, or at none: its only whole row is the new one, and its splits and
      every other fill keep their rows. There are no rows exactly when the trade has a split of the fill. */
  lemma WholeRows(fills: map<FillKey, Option<real>>, account: string, execId: string, trade: Option<nat>)
    ensures var r := PutWhole(fills, account, execId, trade);
            && (r.None? <==>
                  && trade.Some? && FillKey(account, execId, trade.value) in fills
                  && fills[FillKey(account, execId, trade.value)].Some?)
            && (r.Some? ==> forall k ::
                  if k in fills && (!SameFill(k, account, execId) || fills[k].Some?) then k in r.value && r.value[k] == fills[k]
                  else k in r.value <==> trade.Some? && k == FillKey(account, execId, trade.value))
            && (r.Some? && trade.Some? ==> r.value[FillKey(account, execId, trade.value)] == None)
  {
  }

  /** Replacing the splits: every other fill keeps its rows; an empty list leaves the fill its whole row, if
      it has one, and nothing else; any other list leaves exactly the splits sent. */
  lemma SplitRows(fills: map<FillKey, Option<real>>, account: string, execId: string, splits: seq<Split>)
    requires forall i, j :: 0 <= i < j < |splits| ==> splits[i].tradeId != splits[j].tradeId
    ensures var r := PutSplits(fills, account, execId, splits);
            && (forall k: FillKey :: k.account != account || k.execId != execId ==>
                  (k in r <==> k in fills) && (k in r ==> r[k] == fills[k]))
            && (splits == [] ==> forall t ::
                  var k := FillKey(account, execId, t);
                  (k in r <==> k in fills && fills[k] == None) && (k in r ==> r[k] == None))
            && (splits != [] ==>
                  && (forall i :: 0 <= i < |splits| ==>
                        var k := FillKey(account, execId, splits[i].tradeId); k in r && r[k] == Some(splits[i].quantity))
                  && (forall t :: FillKey(account, execId, t) in r ==> exists i :: 0 <= i < |splits| && splits[i].tradeId == t))
  {
    if splits != [] {
      var base := WithoutFill(fills, account, execId);
      AddedSplits(base, account, execId, splits);
      AddedSplitsRows(base, account, execId, splits);
    }
  }

  /** What a fill's rows are after a write, trade by trade: the splits sent, or those it had; and the whole
      row sent, or the one it had unless splits were sent. Every other fill keeps its rows. */
  ghost predicate RowsAfter(fills: map<FillKey, Option<real>>, r: map<FillKey, Option<real>>, account: string, execId: string,
                            splits: Option<seq<Split>>, whole: Sent<Option<nat>>)
  {
    && (forall k: FillKey :: k.account != account || k.execId != execId ==>
          (k in r <==> k in fills) && (k in r ==> r[k] == fills[k]))
    && (forall t :: var k := FillKey(account, execId, t);
          && (k in r && r[k].Some? <==>
                if splits.Some? then exists i :: 0 <= i < |splits.value| && splits.value[i].tradeId == t
                else k in fills && fills[k].Some?)
          && (k in r && r[k].Some? && splits.None? ==> r[k] == fills[k])
          && (k in r && r[k].None? <==>
                if whole.Sent? then whole.value == Some(t)
                else k in fills && fills[k].None? && (splits.Some? ==> splits.value == [])))
    && (splits.Some? ==> forall i :: 0 <= i < |splits.value| ==>
          var k := FillKey(account, execId, splits.value[i].tradeId); k in r && r[k] == Some(splits.value[i].quantity))
  }

  ghost predicate DistinctTrades(splits: seq<Split>) {
    forall i, j :: 0 <= i < j < |splits| ==> splits[i].tradeId != splits[j].tradeId
  }

  lemma BothRows(fills: map<FillKey, Option<real>>, account: string, execId: string,
                 whole: Sent<Option<nat>>, splits: Option<seq<Split>>)
    requires splits.Some? ==> DistinctTrades(splits.value) && !BothWays(whole, splits.value)
    ensures var r := PutBoth(fills, account, execId, whole, splits);
            r.Some? ==> RowsAfter(fills, r.value, account, execId, splits, whole)
  {
    var base := if splits.Some? then PutSplits(fills, account, execId, splits.value) else fills;
    if splits.Some? {
      SplitRows(fills, account, execId, splits.value);
    }
    if whole.Sent? {
      WholeRows(base, account, execId, whole.value);
    }
  }

  /** What a committed patch leaves. */
  lemma PatchRows(db: Db, account: string, execId: string, whole: Sent<Option<nat>>, splits: Sent<seq<Split>>, expected: real)
    requires Apply(db, OpPatchExecution(account, execId, whole, splits, expected)).outcome == Done
    ensures var next := Apply(db, OpPatchExecution(account, execId, whole, splits, expected)).db;
            && next == db.(fills := next.fills)
            && RowsAfter(db.fills, next.fills, account, execId, if splits.Sent? then Some(splits.value) else None, whole)
  {
    BothRows(db.fills, account, execId, whole, if splits.Sent? then Some(splits.value) else None);
  }

  /** What a committed edit leaves. */
  lemma UpdateRows(db: Db, account: string, execId: string, whole: Sent<Option<nat>>, splits: Sent<Option<seq<Split>>>, expected: real)
    requires Apply(db, OpUpdateExecution(account, execId, whole, splits, expected)).outcome == Done
    ensures var next := Apply(db, OpUpdateExecution(account, execId, whole, splits, expected)).db;
            && next == db.(fills := next.fills)
            && RowsAfter(db.fills, next.fills, account, execId, if splits.Sent? then splits.value else None, whole)
  {
    BothRows(db.fills, account, execId, whole, splits.Or(None));
  }

  /** What a committed insert leaves: a trade sent beside splits counts for nothing. */
  lemma InsertRows(db: Db, account: string, execId: string, trade: Option<nat>, splits: Option<seq<Split>>, expected: real)
    requires Apply(db, OpInsertExecution(account, execId, trade, splits, expected)).outcome == Done
    ensures var next := Apply(db, OpInsertExecution(account, execId, trade, splits, expected)).db;
            && next == db.(fills := next.fills)
            && RowsAfter(db.fills, next.fills, account, execId, splits,
                         if trade.None? || (splits.Some? && splits.value != []) then Unsent else Sent(trade))
  {
    var whole := if trade.Some? then PutWhole(db.fills, account, execId, trade) else Some(db.fills);
    if trade.Some? {
      WholeRows(db.fills, account, execId, trade);
    }
    if splits.Some? {
      SplitRows(whole.value, account, execId, splits.value);
    }
  }

  /** A fill whose last raw row is gone has no rows left, and every other fill keeps its own. */
  lemma DropRowsOfFill(db: Db, account: string, execId: string)
    requires execId != "" && Apply(db, OpDropFill(account, execId)).outcome == Done
    ensures var next := Apply(db, OpDropFill(account, execId)).db;
            && next == db.(fills := next.fills)
            && (forall k :: k in next.fills <==> k in db.fills && (k.account != account || k.execId != execId))
            && (forall k :: k in next.fills ==> next.fills[k] == db.fills[k])
  {
  }

  /** Splits add up when they miss the fill's quantity by at most one part in a hundred thousand, of one share
      for a fill of less than a share. */
  lemma AddsUpIff(total: real, expected: real)
    ensures AddsUp(total, expected) <==>
              var slack := if expected > 1.0 then expected / 100000.0 else if expected < -1.0 then -expected / 100000.0 else 0.00001;
              expected - slack <= total <= expected + slack
  {
  }

  /** The total of a list is what its splits come to, one after the other. */
  lemma TotalIs(splits: seq<Split>, s: Split)
    ensures Total([]) == 0.0 && Total(splits + [s]) == Total(splits) + s.quantity
  {
    assert (splits + [s])[..|splits|] == splits;
  }

  /** Which lists pass: each split is not zero and of a trade of the account, no trade twice, and unless the
      list is empty they add up to the fill. */
  lemma SplitsOkIff(db: Db, account: string, splits: seq<Split>, expected: real)
    ensures SplitsOk(db, account, splits, expected) <==>
              && (forall i :: 0 <= i < |splits| ==>
                    && splits[i].quantity != 0.0 && splits[i].tradeId in db.trades
                    && db.trades[splits[i].tradeId].account == account)
              && (forall i, j :: 0 <= i < |splits| && 0 <= j < |splits| && splits[i].tradeId == splits[j].tradeId ==> i == j)
              && (|splits| > 0 ==> AddsUp(Total(splits), expected))
  {
    if SplitsOk(db, account, splits, expected) {
      forall i | 0 <= i < |splits|
        ensures splits[i].tradeId in db.trades && db.trades[splits[i].tradeId].account == account
      {
        assert TakesFill(db, splits[i].tradeId, account);
      }
    }
  }

  // ----- no other constraint can fire -----

  /** One row after a replacement: a split that was checked, or a row of another fill. */
  lemma SplitRowOk(db: Db, account: string, execId: string, splits: seq<Split>, expected: real, k: FillKey)
    requires SplitsOk(db, account, splits, expected)
    requires k in AddSplits(WithoutFill(db.fills, account, execId), account, execId, splits)
    ensures var r := AddSplits(WithoutFill(db.fills, account, execId), account, execId, splits);
            if SameFill(k, account, execId)
            then TakesFill(db, k.tradeId, account) && r[k].Some? && r[k].value != 0.0
            else k in db.fills && r[k] == db.fills[k]
  {
    var base := WithoutFill(db.fills, account, execId);
    AddedSplits(base, account, execId, splits);
    AddedSplitsRows(base, account, execId, splits);
    var r := AddSplits(base, account, execId, splits);
    if SameFill(k, account, execId) {
      var i :| 0 <= i < |splits| && splits[i].tradeId == k.tradeId && r[k] == Some(splits[i].quantity);
      assert TakesFill(db, splits[i].tradeId, account);
    }
  }

  lemma SplitRowsOk(db: Db, account: string, execId: string, splits: seq<Split>, expected: real)
    requires FillsOk(db) && SplitsOk(db, account, splits, expected)
    ensures FillsOk(db.(fills := AddSplits(WithoutFill(db.fills, account, execId), account, execId, splits)))
  {
    var r := AddSplits(WithoutFill(db.fills, account, execId), account, execId, splits);
    forall k | k in r
      ensures k.tradeId in db.trades && db.trades[k.tradeId].account == k.account
      ensures r[k].Some? ==> r[k].value != 0.0
      ensures r[k].None? ==> k in db.fills && db.fills[k].None?
    {
      SplitRowOk(db, account, execId, splits, expected, k);
    }
  }

  lemma OnlyFillsChanged(db: Db, next: Db)
    requires Constraints(db) && next == db.(fills := next.fills) && FillsOk(next)
    ensures Constraints(next)
  {
    forall k | k in next.plans
      ensures RowChecks(next.plans[k]) && PlanRefs(next, next.plans[k])
    {
      assert RowChecks(db.plans[k]) && PlanRefs(db, db.plans[k]);
    }
  }

  lemma PutSplitsOk(db: Db, account: string, execId: string, splits: seq<Split>, expected: real)
    requires FillsOk(db) && SplitsOk(db, account, splits, expected)
    ensures FillsOk(db.(fills := PutSplits(db.fills, account, execId, splits)))
  {
    if splits != [] {
      SplitRowsOk(db, account, execId, splits, expected);
    }
  }

  lemma PutWholeOk(db: Db, account: string, execId: string, trade: Option<nat>)
    requires FillsOk(db) && (trade.Some? ==> TakesFill(db, trade.value, account))
    ensures var r := PutWhole(db.fills, account, execId, trade); r.Some? ==> FillsOk(db.(fills := r.value))
  {
  }

  /** The statements of a write, checked against the table one after the other. */
  lemma PutBothOk(db: Db, account: string, execId: string, whole: Sent<Option<nat>>, splits: Option<seq<Split>>, expected: real)
    requires Constraints(db) && (splits.Some? ==> SplitsOk(db, account, splits.value, expected))
    requires whole.Or(None).Some? ==> TakesFill(db, whole.value.value, account)
    ensures var r := PutBoth(db.fills, account, execId, whole, splits); r.Some? ==> Constraints(db.(fills := r.value))
  {
    var base := if splits.Some? then PutSplits(db.fills, account, execId, splits.value) else db.fills;
    if splits.Some? {
      PutSplitsOk(db, account, execId, splits.value, expected);
    }
    var mid := db.(fills := base);
    if whole.Sent? {
      PutWholeOk(mid, account, execId, whole.value);
    }
    var r := PutBoth(db.fills, account, execId, whole, splits);
    if r.Some? {
      assert mid.(fills := r.value) == db.(fills := r.value);
      OnlyFillsChanged(db, db.(fills := r.value));
    }
  }

  /** A split of the fill by the trade. */
  predicate HasSplitBy(fills: map<FillKey, Option<real>>, account: string, execId: string, tradeId: nat) {
    FillKey(account, execId, tradeId) in fills && fills[FillKey(account, execId, tradeId)].Some?
  }

  /** The rows left by a replacement with nothing hold no split. */
  lemma NoSplitsAfterEmpty(fills: map<FillKey, Option<real>>, account: string, execId: string)
    ensures !HasSplits(PutSplits(fills, account, execId, []), account, execId)
  {
  }

  lemma SplitsNeverFail(db: Db, account: string, execId: string, splits: seq<Split>, expected: real)
    requires Good(db)
    ensures Apply(db, OpReplaceSplits(account, execId, splits, expected)).outcome ==
              if execId != "" && SplitsOk(db, account, splits, expected) then Done else Invalid
  {
    if SplitsOk(db, account, splits, expected) {
      PutBothOk(db, account, execId, Unsent, Some(splits), expected);
    }
  }

  /** What the guarded writer checks. */
  predicate PatchGuards(db: Db, account: string, execId: string, whole: Sent<Option<nat>>, splits: Sent<seq<Split>>, expected: real) {
    && execId != "" && (whole.Sent? || splits.Sent?) && !BothWays(whole, splits.Or([]))
    && (whole.Or(None).Some? ==> TakesFill(db, whole.value.value, account))
    && (whole.Or(None).Some? && splits.Unsent? ==> !HasSplits(db.fills, account, execId))
    && (splits.Sent? ==> SplitsOk(db, account, splits.value, expected))
  }

  /** It commits exactly when its guards pass: no constraint fires after them. */
  lemma PatchNeverFails(db: Db, account: string, execId: string, whole: Sent<Option<nat>>, splits: Sent<seq<Split>>, expected: real)
    requires Good(db)
    ensures var outcome := Apply(db, OpPatchExecution(account, execId, whole, splits, expected)).outcome;
            && (outcome == Done || outcome == Conflict || outcome == Invalid)
            && (outcome == Done <==> PatchGuards(db, account, execId, whole, splits, expected))
  {
    var list := if splits.Sent? then Some(splits.value) else None;
    if PatchGuards(db, account, execId, whole, splits, expected) {
      NoSplitsAfterEmpty(db.fills, account, execId);
      PutBothOk(db, account, execId, whole, list, expected);
      assert PutBoth(db.fills, account, execId, whole, list).Some?;
    }
  }

  /** Its Conflict is exactly a trade for a split fill without a list beside it. */
  lemma PatchConflictIff(db: Db, account: string, execId: string, whole: Sent<Option<nat>>, splits: Sent<seq<Split>>, expected: real)
    requires Good(db)
    ensures Apply(db, OpPatchExecution(account, execId, whole, splits, expected)).outcome == Conflict <==>
              && execId != "" && whole.Or(None).Some? && splits.Unsent?
              && TakesFill(db, whole.value.value, account) && HasSplits(db.fills, account, execId)
  {
  }

  /** The unguarded writers meet the unique key exactly when the trade already has a split of the fill. */
  lemma UpdateFailsIff(db: Db, account: string, execId: string, whole: Sent<Option<nat>>, splits: Sent<Option<seq<Split>>>, expected: real)
    requires Good(db)
    ensures Apply(db, OpUpdateExecution(account, execId, whole, splits, expected)).outcome == Failed <==>
              && execId != "" && whole.Or(None).Some? && splits == Sent(None)
              && TakesFill(db, whole.value.value, account) && HasSplitBy(db.fills, account, execId, whole.value.value)
  {
    NoSplitsAfterEmpty(db.fills, account, execId);
    var list := splits.Or(None);
    if (list.Some? ==> SplitsOk(db, account, list.value, expected)) && (whole.Or(None).Some? ==> TakesFill(db, whole.value.value, account)) {
      PutBothOk(db, account, execId, whole, list, expected);
    }
  }

  /** Exactly when an edit commits. */
  lemma UpdateDoneIff(db: Db, account: string, execId: string, whole: Sent<Option<nat>>, splits: Sent<Option<seq<Split>>>, expected: real)
    requires Good(db)
    ensures var outcome := Apply(db, OpUpdateExecution(account, execId, whole, splits, expected)).outcome;
            var list, names := splits.Or(None), whole.Sent? && whole.value.Some?;
            && (outcome == Done || outcome == Failed || outcome == Invalid)
            && (outcome == Done <==>
                  && (list.Some? ==> execId != "" && SplitsOk(db, account, list.value, expected))
                  && (whole.Sent? ==> execId != "")
                  && (names ==>
                        && TakesFill(db, whole.value.value, account)
                        && (list.Some? ==> list.value == [])
                        && (splits.Unsent? ==> !HasSplits(db.fills, account, execId))
                        && (splits == Sent(None) ==> !HasSplitBy(db.fills, account, execId, whole.value.value))))
  {
    UpdateFailsIff(db, account, execId, whole, splits, expected);
  }

  lemma InsertFailsIff(db: Db, account: string, execId: string, trade: Option<nat>, splits: Option<seq<Split>>, expected: real)
    requires Good(db)
    ensures Apply(db, OpInsertExecution(account, execId, trade, splits, expected)).outcome == Failed <==>
              && execId != "" && trade.Some?
              && TakesFill(db, trade.value, account) && HasSplitBy(db.fills, account, execId, trade.value)
  {
    if trade.Some? ==> TakesFill(db, trade.value, account) {
      var whole := if trade.Some? then PutWhole(db.fills, account, execId, trade) else Some(db.fills);
      if whole.Some? {
        PutWholeOk(db, account, execId, trade);
        var mid := db.(fills := whole.value);
        OnlyFillsChanged(db, mid);
        if splits.Some? && SplitsOk(db, account, splits.value, expected) {
          PutBothOk(mid, account, execId, Unsent, splits, expected);
        }
      }
    }
  }

  // ----- one way or the other -----

  /** No two rows of a fill disagree on whether it is whole or split. */
  ghost predicate OneWay(fills: map<FillKey, Option<real>>) {
    forall k, l :: k in fills && l in fills && SameFill(k, l.account, l.execId) ==> (fills[k].None? <==> fills[l].None?)
  }

  ghost predicate OneWayAt(fills: map<FillKey, Option<real>>, account: string, execId: string) {
    forall k, l :: k in fills && l in fills && SameFill(k, account, execId) && SameFill(l, account, execId) ==>
      (fills[k].None? <==> fills[l].None?)
  }

  /** The bodies that put a whole-fill row beside splits: a new execution, or an edit with
      `fill_splits: null`, that names a trade without a split of an already split fill. */
  predicate BreaksOneWay(db: Db, op: Op) {
    match op
    case OpInsertExecution(a, e, trade, splits, _) =>
      trade.Some? && splits.None? && JoinsSplits(db, a, e, trade.value)
    case OpUpdateExecution(a, e, whole, splits, _) =>
      whole.Or(None).Some? && splits == Sent(None) && JoinsSplits(db, a, e, whole.value.value)
    case _ => false
  }

  predicate JoinsSplits(db: Db, account: string, execId: string, tradeId: nat) {
    && execId != "" && TakesFill(db, tradeId, account)
    && HasSplits(db.fills, account, execId) && !HasSplitBy(db.fills, account, execId, tradeId)
  }

  lemma DropRowsOneWay(fills: map<FillKey, Option<real>>, account: string, execId: string, splits: bool)
    requires OneWay(fills)
    ensures OneWay(DropRows(fills, account, execId, splits))
  {
  }

  /** Splits put in place of whatever the fill had, or nothing in place of its splits. */
  lemma PutSplitsOneWay(fills: map<FillKey, Option<real>>, account: string, execId: string, splits: seq<Split>)
    ensures OneWayAt(PutSplits(fills, account, execId, splits), account, execId)
    ensures OneWay(fills) ==> OneWay(PutSplits(fills, account, execId, splits))
  {
    AddedSplits(WithoutFill(fills, account, execId), account, execId, splits);
  }

  lemma PutWholeOneWay(fills: map<FillKey, Option<real>>, account: string, execId: string, trade: Option<nat>)
    requires PutWhole(fills, account, execId, trade).Some?
    ensures var r := PutWhole(fills, account, execId, trade).value;
            && (OneWay(fills) ==> (OneWay(r) <==> trade.None? || !HasSplits(fills, account, execId)))
            && (trade.None? || !HasSplits(fills, account, execId) ==> OneWayAt(r, account, execId))
  {
    var r := PutWhole(fills, account, execId, trade).value;
    if trade.Some? && HasSplits(fills, account, execId) {
      var k :| k in fills && SameFill(k, account, execId) && fills[k].Some?;
      assert k in r && r[k].Some?;
      assert !OneWay(r);
    }
  }

  /** The rows an insert leaves. */
  lemma InsertedFills(db: Db, account: string, execId: string, trade: Option<nat>, splits: Option<seq<Split>>, expected: real)
    requires Good(db)
    ensures var r := Apply(db, OpInsertExecution(account, execId, trade, splits, expected));
            var whole := if trade.Some? then PutWhole(db.fills, account, execId, trade) else Some(db.fills);
            r.db.fills ==
              if r.outcome != Done || whole.None? then db.fills
              else if splits.None? then whole.value
              else PutSplits(whole.value, account, execId, splits.value)
    ensures Apply(db, OpInsertExecution(account, execId, trade, splits, expected)).outcome == Done <==>
              && execId != ""
              && (trade.Some? ==> TakesFill(db, trade.value, account) && !HasSplitBy(db.fills, account, execId, trade.value))
              && (splits.Some? ==> SplitsOk(db, account, splits.value, expected))
  {
    InsertFailsIff(db, account, execId, trade, splits, expected);
  }

  lemma InsertOneWay(db: Db, account: string, execId: string, trade: Option<nat>, splits: Option<seq<Split>>, expected: real)
    requires Good(db) && OneWay(db.fills)
    ensures var op := OpInsertExecution(account, execId, trade, splits, expected);
            OneWay(Apply(db, op).db.fills) <==> !BreaksOneWay(db, op)
  {
    InsertedFills(db, account, execId, trade, splits, expected);
    if trade.Some? && PutWhole(db.fills, account, execId, trade).Some? {
      PutWholeOneWay(db.fills, account, execId, trade);
      if splits.Some? {
        InsertedSplitsOneWay(db.fills, account, execId, trade, splits.value);
      }
    } else if splits.Some? {
      PutSplitsOneWay(db.fills, account, execId, splits.value);
    }
  }

  /** Whatever whole row was put first, the splits put after it clear it or leave it alone. */
  lemma InsertedSplitsOneWay(fills: map<FillKey, Option<real>>, account: string, execId: string, trade: Option<nat>, splits: seq<Split>)
    requires OneWay(fills) && PutWhole(fills, account, execId, trade).Some?
    ensures OneWay(PutSplits(PutWhole(fills, account, execId, trade).value, account, execId, splits))
  {
    var r := PutWhole(fills, account, execId, trade).value;
    AddedSplits(WithoutFill(r, account, execId), account, execId, splits);
  }

  lemma UpdateOneWay(db: Db, op: Op)
    requires Good(db) && OneWay(db.fills) && op.OpUpdateExecution?
    ensures OneWay(Apply(db, op).db.fills) <==> !BreaksOneWay(db, op)
  {
    UpdateFailsIff(db, op.account, op.execId, op.whole, op.bodySplits, op.expected);
    BothOneWay(db.fills, op.account, op.execId, op.whole, op.bodySplits.Or(None));
  }

  /** Both statements of a write: broken exactly when a trade joins splits that were left standing. */
  lemma BothOneWay(fills: map<FillKey, Option<real>>, account: string, execId: string,
                   whole: Sent<Option<nat>>, splits: Option<seq<Split>>)
    requires OneWay(fills)
    ensures var r := PutBoth(fills, account, execId, whole, splits);
            r.Some? && !(splits.Some? && BothWays(whole, splits.value)) ==>
              (OneWay(r.value) <==> !(whole.Or(None).Some? && splits.None? && HasSplits(fills, account, execId)))
  {
    var base := if splits.Some? then PutSplits(fills, account, execId, splits.value) else fills;
    if splits.Some? {
      PutSplitsOneWay(fills, account, execId, splits.value);
      NoSplitsAfterEmpty(fills, account, execId);
    }
    if whole.Sent? && PutWhole(base, account, execId, whole.value).Some? {
      PutWholeOneWay(base, account, execId, whole.value);
    }
  }

  lemma PatchOneWay(db: Db, op: Op)
    requires OneWay(db.fills) && op.OpPatchExecution?
    ensures OneWay(Apply(db, op).db.fills)
  {
    BothOneWay(db.fills, op.account, op.execId, op.whole, if op.sentSplits.Sent? then Some(op.sentSplits.value) else None);
  }

  lemma DropOneWay(db: Db, op: Op)
    requires OneWay(db.fills) && op.OpDropFill?
    ensures OneWay(Apply(db, op).db.fills)
  {
    DropRowsOneWay(db.fills, op.account, op.execId, true);
    DropRowsOneWay(DropRows(db.fills, op.account, op.execId, true), op.account, op.execId, false);
  }

  /** Exactly when an operation keeps every fill attributed one way. */
  lemma OneWayKeptIff(db: Db, op: Op)
    requires Good(db) && OneWay(db.fills)
    ensures OneWay(Apply(db, op).db.fills) <==> !BreaksOneWay(db, op)
  {
    match op
    case OpInsertExecution(a, e, trade, splits, x) => InsertOneWay(db, a, e, trade, splits, x);
    case OpUpdateExecution(_, _, _, _, _) => UpdateOneWay(db, op);
    case OpPatchExecution(_, _, _, _, _) => PatchOneWay(db, op);
    case OpReplaceSplits(a, e, splits, _) => PutSplitsOneWay(db.fills, a, e, splits);
    case OpDropFill(_, _) => DropOneWay(db, op);
    case _ => OthersLeaveFills(db, op);
  }

  lemma OthersLeaveFills(db: Db, op: Op)
    requires !OnFills(op)
    ensures Apply(db, op).db.fills == db.fills
  {
    ApplyMoves(db, op);
  }

  /** A run none of whose steps is such a body ends with every fill attributed one way. */
  lemma {:induction false} RunKeepsOneWay(db: Db, ops: seq<Op>)
    requires Good(db) && OneWay(db.fills)
    requires forall k :: 0 <= k < |ops| ==> !BreaksOneWay(Run(db, ops[..k]), ops[k])
    ensures OneWay(Run(db, ops).fills)
  {
    if ops != [] {
      var n := |ops| - 1;
      forall k | 0 <= k < n
        ensures !BreaksOneWay(Run(db, ops[..n][..k]), ops[..n][k])
      {
        assert ops[..n][..k] == ops[..k] && !BreaksOneWay(Run(db, ops[..k]), ops[k]);
      }
      RunKeepsOneWay(db, ops[..n]);
      RunKeepsGood(db, ops[..n]);
      OneWayKeptIff(Run(db, ops[..n]), ops[n]);
    }
  }

  /** Whatever state it finds, a committed patch leaves the fill it names attributed one way. */
  lemma PatchLeavesOneWay(db: Db, account: string, execId: string, whole: Sent<Option<nat>>, splits: Sent<seq<Split>>, expected: real)
    requires Apply(db, OpPatchExecution(account, execId, whole, splits, expected)).outcome == Done
    ensures OneWayAt(Apply(db, OpPatchExecution(account, execId, whole, splits, expected)).db.fills, account, execId)
  {
    var base := if splits.Sent? then PutSplits(db.fills, account, execId, splits.value) else db.fills;
    if splits.Sent? {
      PutSplitsOneWay(db.fills, account, execId, splits.value);
      NoSplitsAfterEmpty(db.fills, account, execId);
    }
    if whole.Sent? {
      PutWholeOneWay(base, account, execId, whole.value);
    }
  }

  /** A fill split over trades 1 and 2, with a third trade in its account. */
  lemma SplitFill(account: string, execId: string) returns (db: Db)
    requires execId != ""
    ensures Good(db) && OneWay(db.fills) && JoinsSplits(db, account, execId, 3)
  {
    var rules := Rules(map[7 := Opportunity(3, None)], map[], {}, {}, {3}, Settings(None, None, None));
    var trade := Trade(7, account, 0, None);
    var one, two := FillKey(account, execId, 1), FillKey(account, execId, 2);
    db := Db(map[], map[1 := trade, 2 := trade, 3 := trade], map[one := Some(1.0), two := Some(1.0)], map[], rules, 1, 4);
    assert one in db.fills && SameFill(one, account, execId);
  }

  /** A new execution of it for the third trade, or an edit that names it beside `fill_splits: null`, commits
      and leaves the fill both whole and split. */
  lemma SplitFillTakesWhole(account: string, execId: string, quantity: real) returns (db: Db)
    requires execId != ""
    ensures Good(db) && OneWay(db.fills)
    ensures !OneWay(Apply(db, OpInsertExecution(account, execId, Some(3), None, quantity)).db.fills)
    ensures !OneWay(Apply(db, OpUpdateExecution(account, execId, Sent(Some(3)), Sent(None), quantity)).db.fills)
  {
    db := SplitFill(account, execId);
    OneWayKeptIff(db, OpInsertExecution(account, execId, Some(3), None, quantity));
    OneWayKeptIff(db, OpUpdateExecution(account, execId, Sent(Some(3)), Sent(None), quantity));
  }
}
