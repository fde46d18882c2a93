/**
 Writing an accounts snapshot into the account and position tables.

 The loops upsert and prune; what they amount to is a map specification: an account whose positions
 were read ends with exactly the snapshot's keys, the last entry of a key winning, and everything
 else stays. Timestamps are not part of the rows here.
 */
module AccountSync {
  import opened Prelude
  import opened ContractKey

  // ----- the snapshot -----

  /** A value of the account summary: a finite number, or anything else. */
  datatype Value = Number(v: real) | Other

  /** A position as the snapshot gives it, after its numbers are parsed. `strikeText` is the strike as
      the key prints it. */
  datatype SnapPosition = SnapPosition(
    symbol: string, secType: string, exchange: string, currency: string,
    position: Option<real>, avgCost: Option<real>,
    expiry: string, strike: Option<real>, strikeText: string, right: string)

  /** One entry of the snapshot. `accountId` is empty for an entry the sync skips (no id, or not the shape
      of a broker id). `positions` is empty when the key is missing; a value that is not a list reads as
      the empty list. */
  datatype SnapAccount = SnapAccount(
    accountId: Option<string>, summary: map<string, Value>, positions: Option<seq<SnapPosition>>, positionsOk: bool)

  // ----- the tables -----

  datatype AccountRow = AccountRow(netLiq: Option<real>, totalCash: Option<real>, buyingPower: Option<real>, extra: map<string, Value>)

  datatype PositionRow = PositionRow(
    symbol: string, secType: string, exchange: string, currency: string,
    position: Option<real>, avgCost: Option<real>, expiry: string, strike: Option<real>, right: string)

  type Positions = map<(string, string), PositionRow>
  type Accounts = map<string, AccountRow>

  function Key(p: SnapPosition): string {
    if p.secType == "OPT" then OptKey(p.symbol, p.expiry, p.strikeText, p.right) else StkKey(p.symbol, p.secType)
  }

  function RowOf(p: SnapPosition): PositionRow {
    PositionRow(p.symbol, p.secType, p.exchange, p.currency, p.position, p.avgCost, p.expiry, p.strike, p.right)
  }

  // ----- the summary -----

  const NET_LIQ := "NetLiquidation"
  const TOTAL_CASH := "TotalCashValue"
  const BUYING_POWER := "BuyingPower"

  function NumberAt(summary: map<string, Value>, key: string): Option<real> {
    if key in summary && summary[key].Number? then Some(summary[key].v) else None
  }

  predicate Extracted(summary: map<string, Value>, key: string) {
    (key == NET_LIQ || key == TOTAL_CASH || key == BUYING_POWER) && NumberAt(summary, key).Some?
  }

  /** The loop over the summary's items. */
  method ParseSummary(summary: map<string, Value>) returns (nl: Option<real>, tc: Option<real>, bp: Option<real>, extra: map<string, Value>)
    ensures nl == NumberAt(summary, NET_LIQ) && tc == NumberAt(summary, TOTAL_CASH) && bp == NumberAt(summary, BUYING_POWER)
    ensures extra == map k | k in summary && !Extracted(summary, k) :: summary[k]
  {
    nl, tc, bp, extra := None, None, None, summary;
    var todo := summary.Keys;
    while todo != {}
      invariant todo <= summary.Keys
      invariant nl == (if NET_LIQ in todo then None else NumberAt(summary, NET_LIQ))
      invariant tc == (if TOTAL_CASH in todo then None else NumberAt(summary, TOTAL_CASH))
      invariant bp == (if BUYING_POWER in todo then None else NumberAt(summary, BUYING_POWER))
      invariant extra == map k | k in summary && (k in todo || !Extracted(summary, k)) :: summary[k]
      decreases todo
    {
      var key :| key in todo;
      todo := todo - {key};
      if summary[key].Number? {
        if key == NET_LIQ {
          nl := Some(summary[key].v);
          extra := extra - {key};
        } else if key == TOTAL_CASH {
          tc := Some(summary[key].v);
          extra := extra - {key};
        } else if key == BUYING_POWER {
          bp := Some(summary[key].v);
          extra := extra - {key};
        }
      }
    }
  }

  function SummaryRow(summary: map<string, Value>): AccountRow {
    AccountRow(NumberAt(summary, NET_LIQ), NumberAt(summary, TOTAL_CASH), NumberAt(summary, BUYING_POWER),
               map k | k in summary && !Extracted(summary, k) :: summary[k])
  }

  function Coalesce(a: Option<real>, b: Option<real>): Option<real> {
    if a.Some? then a else b
  }

  /** ON CONFLICT for an account: new numbers win where there are any; the rest of the summary is replaced
      only together with a net liquidation. */
  function Merged(stored: AccountRow, e: AccountRow): AccountRow {
    AccountRow(Coalesce(e.netLiq, stored.netLiq), Coalesce(e.totalCash, stored.totalCash),
               Coalesce(e.buyingPower, stored.buyingPower), if e.netLiq.None? then stored.extra else e.extra)
  }

  function UpsertAccount(accounts: Accounts, id: string, e: AccountRow): Accounts {
    accounts[id := if id in accounts then Merged(accounts[id], e) else e]
  }

  // ----- positions -----

  /** ON CONFLICT for a position: everything but symbol and security type. */
  function Conflicted(stored: PositionRow, e: PositionRow): PositionRow {
    e.(symbol := stored.symbol, secType := stored.secType)
  }

  function UpsertPosition(positions: Positions, id: string, key: string, e: PositionRow): Positions {
    positions[(id, key) := if (id, key) in positions then Conflicted(positions[(id, key)], e) else e]
  }

  function UpsertAll(positions: Positions, id: string, list: seq<SnapPosition>): Positions {
    if list == [] then positions
    else
      var p := list[|list| - 1];
      UpsertPosition(UpsertAll(positions, id, list[..|list| - 1]), id, Key(p), RowOf(p))
  }

  predicate Listed(list: seq<SnapPosition>, key: string) {
    exists i :: 0 <= i < |list| && Key(list[i]) == key
  }

  /** The keys seen by the loop, in order. */
  function KeysOf(list: seq<SnapPosition>): seq<string> {
    if list == [] then [] else KeysOf(list[..|list| - 1]) + [Key(list[|list| - 1])]
  }

  lemma {:induction false} SeenIsListed(list: seq<SnapPosition>, key: string)
    ensures key in KeysOf(list) <==> Listed(list, key)
  {
    if list != [] {
      SeenIsListed(list[..|list| - 1], key);
      ListedSplit(list, key);
    }
  }

  lemma ListedSplit(list: seq<SnapPosition>, key: string)
    requires list != []
    ensures Listed(list, key) <==> Key(list[|list| - 1]) == key || Listed(list[..|list| - 1], key)
  {
    var n := |list| - 1;
    if Listed(list[..n], key) {
      var i :| 0 <= i < n && Key(list[..n][i]) == key;
      assert Key(list[i]) == key;
    }
    if Listed(list, key) && Key(list[n]) != key {
      var i :| 0 <= i < |list| && Key(list[i]) == key;
      assert Key(list[..n][i]) == key;
    }
  }

  /** The rows of the account that the snapshot does not name are deleted. */
  function Pruned(positions: Positions, id: string, list: seq<SnapPosition>): Positions {
    map k | k in positions && (k.0 != id || Listed(list, k.1)) :: positions[k]
  }

  predicate Read(acc: SnapAccount) {
    acc.accountId.Some? && acc.positions.Some? && acc.positionsOk
  }

  // ----- the loops -----

  class Tables {
    var accounts: Accounts
    var positions: Positions

    constructor (accounts: Accounts, positions: Positions)
      ensures this.accounts == accounts && this.positions == positions
    {
      this.accounts, this.positions := accounts, positions;
    }

    method SyncPositions(id: string, list: seq<SnapPosition>)
      modifies this`positions
      ensures positions == Pruned(UpsertAll(old(positions), id, list), id, list)
    {
      var seen: seq<string> := [];
      for i := 0 to |list|
        invariant positions == UpsertAll(old(positions), id, list[..i])
        invariant seen == KeysOf(list[..i])
      {
        var p := list[i];
        assert list[..i + 1][..i] == list[..i];
        Upsert(id, Key(p), RowOf(p));
        seen := seen + [Key(p)];
      }
      assert list[..|list|] == list;
      Prune(id, list, seen);
    }

    method Upsert(id: string, key: string, row: PositionRow)
      modifies this`positions
      ensures positions == UpsertPosition(old(positions), id, key, row)
    {
      if (id, key) in positions {
        positions := positions[(id, key) := Conflicted(positions[(id, key)], row)];
      } else {
        positions := positions[(id, key) := row];
      }
    }

    /** The two deletes: rows not seen, or every row of the account when nothing was seen. */
    method Prune(id: string, ghost list: seq<SnapPosition>, seen: seq<string>)
      requires seen == KeysOf(list)
      modifies this`positions
      ensures positions == Pruned(old(positions), id, list)
    {
      forall k: string ensures k in seen <==> Listed(list, k) { SeenIsListed(list, k); }
      if seen != [] {
        positions := map k | k in positions && !(k.0 == id && k.1 !in seen) :: positions[k];
      } else {
        positions := map k | k in positions && k.0 != id :: positions[k];
      }
    }

    method Sync(snapshot: seq<SnapAccount>)
      modifies this
      ensures accounts == SyncedAccounts(old(accounts), snapshot)
      ensures positions == SyncedPositions(old(positions), snapshot)
    {
      for i := 0 to |snapshot|
        invariant accounts == SyncedAccounts(old(accounts), snapshot[..i])
        invariant positions == SyncedPositions(old(positions), snapshot[..i])
      {
        var acc := snapshot[i];
        assert snapshot[..i + 1][..i] == snapshot[..i];
        if acc.accountId.Some? {
          var id := acc.accountId.value;
          var nl, tc, bp, extra := ParseSummary(acc.summary);
          accounts := UpsertAccount(accounts, id, AccountRow(nl, tc, bp, extra));
          if acc.positions.Some? && acc.positionsOk {
            SyncPositions(id, acc.positions.value);
          }
        }
      }
      assert snapshot[..|snapshot|] == snapshot;
    }
  }

  function SyncedAccounts(accounts: Accounts, snapshot: seq<SnapAccount>): Accounts {
    if snapshot == [] then accounts
    else
      var acc := snapshot[|snapshot| - 1];
      var rest := SyncedAccounts(accounts, snapshot[..|snapshot| - 1]);
      if acc.accountId.Some? then UpsertAccount(rest, acc.accountId.value, SummaryRow(acc.summary)) else rest
  }

  function SyncedPositions(positions: Positions, snapshot: seq<SnapAccount>): Positions {
    if snapshot == [] then positions
    else
      var acc := snapshot[|snapshot| - 1];
      var rest := SyncedPositions(positions, snapshot[..|snapshot| - 1]);
      if Read(acc) then Pruned(UpsertAll(rest, acc.accountId.value, acc.positions.value), acc.accountId.value, acc.positions.value)
      else rest
  }

  // ----- the map specification -----

  /** The row the list means for a key: that of its last entry with the key. */
  function LastRow(list: seq<SnapPosition>, key: string): Option<PositionRow> {
    if list == [] then None
    else if Key(list[|list| - 1]) == key then Some(RowOf(list[|list| - 1]))
    else LastRow(list[..|list| - 1], key)
  }

  /** The last successful read of an account in the snapshot. */
  function LastRead(snapshot: seq<SnapAccount>, id: string): Option<seq<SnapPosition>> {
    if snapshot == [] then None
    else
      var acc := snapshot[|snapshot| - 1];
      if Read(acc) && acc.accountId.value == id then acc.positions else LastRead(snapshot[..|snapshot| - 1], id)
  }

  function Lookup(positions: Positions, id: string, key: string): Option<PositionRow> {
    if (id, key) in positions then Some(positions[(id, key)]) else None
  }

  /** Symbols and security types carry no bar. */
  ghost predicate Clean(list: seq<SnapPosition>) {
    forall i :: 0 <= i < |list| ==> BarFree(list[i].symbol) && BarFree(list[i].secType)
  }

  ghost predicate CleanSnapshot(snapshot: seq<SnapAccount>) {
    forall i :: 0 <= i < |snapshot| && snapshot[i].positions.Some? ==> Clean(snapshot[i].positions.value)
  }

  /** Every stored row has the symbol and security type its key names. */
  ghost predicate NamedByKey(positions: Positions) {
    forall k :: k in positions ==> KeyNames(k.1, positions[k].symbol, positions[k].secType)
  }

  lemma KeyNamesEntry(p: SnapPosition)
    requires BarFree(p.symbol) && BarFree(p.secType)
    ensures KeyNames(Key(p), p.symbol, p.secType)
  {
    if p.secType == "OPT" {
      OptKeyNames(p.symbol, p.expiry, p.strikeText, p.right);
    } else {
      StkKeyNames(p.symbol, p.secType);
    }
  }

  ghost predicate CleanEntry(p: SnapPosition) {
    BarFree(p.symbol) && BarFree(p.secType) && BarFree(p.expiry) && BarFree(p.strikeText) && BarFree(p.right)
  }

  /** Two entries have one key exactly when they are of one symbol and security type and, if options, of one
      expiry, strike and right. */
  lemma KeysEqualIff(p: SnapPosition, q: SnapPosition)
    requires CleanEntry(p) && CleanEntry(q)
    ensures Key(p) == Key(q) <==>
              && p.symbol == q.symbol && p.secType == q.secType
              && (p.secType == "OPT" ==> p.expiry == q.expiry && p.strikeText == q.strikeText && p.right == q.right)
  {
    if p.secType == "OPT" && q.secType == "OPT" {
      OptKeysEqualIff(p.symbol, p.expiry, p.strikeText, p.right, q.symbol, q.expiry, q.strikeText, q.right);
    } else if p.secType == "OPT" {
      StkIsNotOpt(q.symbol, q.secType, p.symbol, p.expiry, p.strikeText, p.right);
    } else if q.secType == "OPT" {
      StkIsNotOpt(p.symbol, p.secType, q.symbol, q.expiry, q.strikeText, q.right);
    } else {
      StkKeysEqualIff(p.symbol, p.secType, q.symbol, q.secType);
    }
  }

  /** An upsert writes the entry whole: the symbol and security type it keeps are the entry's own. */
  lemma UpsertIsWhole(positions: Positions, id: string, p: SnapPosition)
    requires NamedByKey(positions) && BarFree(p.symbol) && BarFree(p.secType)
    ensures UpsertPosition(positions, id, Key(p), RowOf(p)) == positions[(id, Key(p)) := RowOf(p)]
    ensures NamedByKey(UpsertPosition(positions, id, Key(p), RowOf(p)))
  {
    KeyNamesEntry(p);
    var key := Key(p);
    if (id, key) in positions {
      var stored := positions[(id, key)];
      assert KeyNames((id, key).1, stored.symbol, stored.secType);
      KeyNamesOne(key, p.symbol, p.secType, stored.symbol, stored.secType);
    }
  }

  lemma {:induction false} UpsertKeepsNames(positions: Positions, id: string, list: seq<SnapPosition>)
    requires NamedByKey(positions) && Clean(list)
    ensures NamedByKey(UpsertAll(positions, id, list))
  {
    if list != [] {
      var n := |list| - 1;
      UpsertKeepsNames(positions, id, list[..n]);
      UpsertIsWhole(UpsertAll(positions, id, list[..n]), id, list[n]);
    }
  }

  /** After the upserts a listed key holds its last entry; every other row is as it was. */
  lemma {:induction false} UpsertedRow(positions: Positions, id: string, list: seq<SnapPosition>, a: string, k: string)
    requires NamedByKey(positions) && Clean(list)
    ensures Lookup(UpsertAll(positions, id, list), a, k) ==
              if a == id && LastRow(list, k).Some? then LastRow(list, k) else Lookup(positions, a, k)
  {
    if list != [] {
      var n := |list| - 1;
      UpsertedRow(positions, id, list[..n], a, k);
      UpsertKeepsNames(positions, id, list[..n]);
      UpsertIsWhole(UpsertAll(positions, id, list[..n]), id, list[n]);
    }
  }

  lemma {:induction false} ListedIffLastRow(list: seq<SnapPosition>, key: string)
    ensures Listed(list, key) <==> LastRow(list, key).Some?
  {
    if list != [] {
      ListedIffLastRow(list[..|list| - 1], key);
      ListedSplit(list, key);
    }
  }

  /** One account: exactly the snapshot's keys, the last entry of each; nothing else moves. */
  lemma OneAccount(positions: Positions, id: string, list: seq<SnapPosition>, a: string, k: string)
    requires NamedByKey(positions) && Clean(list)
    ensures var after := Pruned(UpsertAll(positions, id, list), id, list);
            Lookup(after, a, k) == if a == id then LastRow(list, k) else Lookup(positions, a, k)
  {
    UpsertedRow(positions, id, list, a, k);
    ListedIffLastRow(list, k);
    PrunedLookup(UpsertAll(positions, id, list), id, list, a, k);
  }

  lemma PrunedLookup(positions: Positions, id: string, list: seq<SnapPosition>, a: string, k: string)
    ensures Lookup(Pruned(positions, id, list), a, k) == if a == id && !Listed(list, k) then None else Lookup(positions, a, k)
  {
    var x := (a, k);
    assert x in Pruned(positions, id, list) <==> x in positions && (x.0 != id || Listed(list, x.1));
  }

  lemma OneAccountNamed(positions: Positions, id: string, list: seq<SnapPosition>)
    requires NamedByKey(positions) && Clean(list)
    ensures NamedByKey(Pruned(UpsertAll(positions, id, list), id, list))
  {
    UpsertKeepsNames(positions, id, list);
  }

  lemma {:induction false} SyncKeepsNames(positions: Positions, snapshot: seq<SnapAccount>)
    requires NamedByKey(positions) && CleanSnapshot(snapshot)
    ensures NamedByKey(SyncedPositions(positions, snapshot))
  {
    if snapshot != [] {
      var n := |snapshot| - 1;
      SyncKeepsNames(positions, snapshot[..n]);
      if Read(snapshot[n]) {
        OneAccountNamed(SyncedPositions(positions, snapshot[..n]), snapshot[n].accountId.value, snapshot[n].positions.value);
      }
    }
  }

  /** The whole sync, key by key: the last successful read of the account decides, else nothing changed. */
  lemma {:induction false} SyncMeetsSpec(positions: Positions, snapshot: seq<SnapAccount>, a: string, k: string)
    requires NamedByKey(positions) && CleanSnapshot(snapshot)
    ensures Lookup(SyncedPositions(positions, snapshot), a, k) ==
              match LastRead(snapshot, a) case Some(list) => LastRow(list, k) case None => Lookup(positions, a, k)
  {
    if snapshot != [] {
      var n := |snapshot| - 1;
      SyncMeetsSpec(positions, snapshot[..n], a, k);
      SyncKeepsNames(positions, snapshot[..n]);
      if Read(snapshot[n]) {
        OneAccount(SyncedPositions(positions, snapshot[..n]), snapshot[n].accountId.value, snapshot[n].positions.value, a, k);
      }
    }
  }

  lemma SameLookups(p: Positions, q: Positions)
    requires forall a, k :: Lookup(p, a, k) == Lookup(q, a, k)
    ensures p == q
  {
    forall x: (string, string)
      ensures x in p <==> x in q
      ensures x in p ==> p[x] == q[x]
    {
      assert Lookup(p, x.0, x.1) == Lookup(q, x.0, x.1);
      assert x == (x.0, x.1);
    }
  }

  /** Writing the same snapshot again changes no position. */
  lemma PositionsIdempotent(positions: Positions, snapshot: seq<SnapAccount>)
    requires NamedByKey(positions) && CleanSnapshot(snapshot)
    ensures SyncedPositions(SyncedPositions(positions, snapshot), snapshot) == SyncedPositions(positions, snapshot)
  {
    var once := SyncedPositions(positions, snapshot);
    SyncKeepsNames(positions, snapshot);
    forall a, k
      ensures Lookup(SyncedPositions(once, snapshot), a, k) == Lookup(once, a, k)
    {
      SyncMeetsSpec(positions, snapshot, a, k);
      SyncMeetsSpec(once, snapshot, a, k);
    }
    SameLookups(SyncedPositions(once, snapshot), once);
  }

  // ----- accounts -----

  /** No account row is deleted, and only accounts of the snapshot change. */
  lemma {:induction false} AccountsOnlyGrow(accounts: Accounts, snapshot: seq<SnapAccount>, id: string)
    ensures id in accounts ==> id in SyncedAccounts(accounts, snapshot)
    ensures (forall i :: 0 <= i < |snapshot| ==> snapshot[i].accountId != Some(id)) ==>
              (id in SyncedAccounts(accounts, snapshot) <==> id in accounts)
              && (id in accounts ==> SyncedAccounts(accounts, snapshot)[id] == accounts[id])
  {
    if snapshot != [] {
      AccountsOnlyGrow(accounts, snapshot[..|snapshot| - 1], id);
    }
  }

  /** What the snapshot says about an account over all its entries: the last number of each kind, and the
      extras of the entry that gave the last net liquidation. */
  function Said(snapshot: seq<SnapAccount>, id: string): AccountRow {
    if snapshot == [] then AccountRow(None, None, None, map[])
    else
      var acc := snapshot[|snapshot| - 1];
      var rest := Said(snapshot[..|snapshot| - 1], id);
      if acc.accountId == Some(id) then Merged(rest, SummaryRow(acc.summary)) else rest
  }

  lemma MergedAssociative(r: AccountRow, s: AccountRow, e: AccountRow)
    ensures Merged(r, Merged(s, e)) == Merged(Merged(r, s), e)
  {
  }

  /** A stored account ends as its row merged with what the snapshot says of it. */
  lemma {:induction false} StoredAccountAfter(accounts: Accounts, snapshot: seq<SnapAccount>, id: string)
    requires id in accounts
    ensures id in SyncedAccounts(accounts, snapshot)
    ensures SyncedAccounts(accounts, snapshot)[id] == Merged(accounts[id], Said(snapshot, id))
  {
    if snapshot != [] {
      var n := |snapshot| - 1;
      StoredAccountAfter(accounts, snapshot[..n], id);
      MergedAssociative(accounts[id], Said(snapshot[..n], id), SummaryRow(snapshot[n].summary));
    }
  }

  /** After a sync an account's row already holds everything the snapshot says. */
  lemma {:induction false} SyncAbsorbs(accounts: Accounts, snapshot: seq<SnapAccount>, id: string)
    requires id in SyncedAccounts(accounts, snapshot)
    ensures Merged(SyncedAccounts(accounts, snapshot)[id], Said(snapshot, id)) == SyncedAccounts(accounts, snapshot)[id]
  {
    if snapshot != [] {
      var n := |snapshot| - 1;
      var rest := SyncedAccounts(accounts, snapshot[..n]);
      if id in rest {
        SyncAbsorbs(accounts, snapshot[..n], id);
      } else {
        UnseenSaysNothing(accounts, snapshot[..n], id);
      }
    }
  }

  lemma {:induction false} UnseenSaysNothing(accounts: Accounts, snapshot: seq<SnapAccount>, id: string)
    requires id !in SyncedAccounts(accounts, snapshot)
    ensures Said(snapshot, id) == AccountRow(None, None, None, map[])
  {
    if snapshot != [] {
      UnseenSaysNothing(accounts, snapshot[..|snapshot| - 1], id);
    }
  }

  /** Writing the same snapshot again changes no account. */
  lemma AccountsIdempotent(accounts: Accounts, snapshot: seq<SnapAccount>)
    ensures SyncedAccounts(SyncedAccounts(accounts, snapshot), snapshot) == SyncedAccounts(accounts, snapshot)
  {
    var once := SyncedAccounts(accounts, snapshot);
    var twice := SyncedAccounts(once, snapshot);
    forall id
      ensures id in twice <==> id in once
      ensures id in once ==> twice[id] == once[id]
    {
      if id in once {
        StoredAccountAfter(once, snapshot, id);
        SyncAbsorbs(accounts, snapshot, id);
      } else {
        NoNewAccount(accounts, once, snapshot, id);
      }
    }
  }

  lemma {:induction false} NoNewAccount(accounts: Accounts, other: Accounts, snapshot: seq<SnapAccount>, id: string)
    requires id !in SyncedAccounts(accounts, snapshot) && id !in other
    ensures id !in SyncedAccounts(other, snapshot)
  {
    if snapshot != [] {
      NoNewAccount(accounts, other, snapshot[..|snapshot| - 1], id);
    }
  }

  // ----- the accounts, figure by figure -----

  /** Entry `i` is of the account and its summary has a number under the key. */
  ghost predicate Gives(snapshot: seq<SnapAccount>, id: string, key: string, i: int) {
    && 0 <= i < |snapshot| && snapshot[i].accountId == Some(id)
    && key in snapshot[i].summary && snapshot[i].summary[key].Number?
  }

  /** The last entry that gives a number for the key is `i`. */
  ghost predicate LastGives(snapshot: seq<SnapAccount>, id: string, key: string, i: int) {
    Gives(snapshot, id, key, i) && forall j :: Gives(snapshot, id, key, j) ==> j <= i
  }

  ghost predicate NoneGives(snapshot: seq<SnapAccount>, id: string, key: string) {
    forall i :: !Gives(snapshot, id, key, i)
  }

  lemma GivesBefore(snapshot: seq<SnapAccount>, id: string, key: string, i: int)
    requires snapshot != []
    ensures Gives(snapshot, id, key, i) <==>
              Gives(snapshot[..|snapshot| - 1], id, key, i) || (i == |snapshot| - 1 && Gives(snapshot, id, key, i))
  {
  }

  /** The stored figures of an account, if it has a row. */
  function Figure(accounts: Accounts, id: string, key: string): Option<real> {
    if id !in accounts then None
    else if key == NET_LIQ then accounts[id].netLiq
    else if key == TOTAL_CASH then accounts[id].totalCash
    else accounts[id].buyingPower
  }

  ghost predicate IsFigure(key: string) {
    key == "NetLiquidation" || key == "TotalCashValue" || key == "BuyingPower"
  }

  /** One more entry: its number for the figure, or what was there. */
  lemma FigureStep(accounts: Accounts, snapshot: seq<SnapAccount>, id: string, key: string)
    requires snapshot != [] && IsFigure(key)
    ensures var n := |snapshot| - 1;
            Figure(SyncedAccounts(accounts, snapshot), id, key) ==
              if Gives(snapshot, id, key, n) then Some(snapshot[n].summary[key].v)
              else Figure(SyncedAccounts(accounts, snapshot[..n]), id, key)
  {
  }

  /** After a sync a figure of an account, stored before or new, is the last number the snapshot gives for
      it. */
  lemma {:induction false} FigureFromSnapshot(accounts: Accounts, snapshot: seq<SnapAccount>, id: string, key: string, i: int)
    requires IsFigure(key) && LastGives(snapshot, id, key, i)
    ensures Figure(SyncedAccounts(accounts, snapshot), id, key) == Some(snapshot[i].summary[key].v)
  {
    var n := |snapshot| - 1;
    FigureStep(accounts, snapshot, id, key);
    if i < n {
      forall j
        ensures Gives(snapshot[..n], id, key, j) ==> j <= i
        ensures Gives(snapshot[..n], id, key, i)
      {
        GivesBefore(snapshot, id, key, j);
        GivesBefore(snapshot, id, key, i);
      }
      assert !Gives(snapshot, id, key, n);
      FigureFromSnapshot(accounts, snapshot[..n], id, key, i);
    }
  }

  /** A figure the snapshot gives no number for is the stored one, none for a new account. */
  lemma {:induction false} FigureKept(accounts: Accounts, snapshot: seq<SnapAccount>, id: string, key: string)
    requires IsFigure(key) && NoneGives(snapshot, id, key)
    ensures Figure(SyncedAccounts(accounts, snapshot), id, key) == Figure(accounts, id, key)
  {
    if snapshot != [] {
      var n := |snapshot| - 1;
      FigureStep(accounts, snapshot, id, key);
      forall j
        ensures !Gives(snapshot[..n], id, key, j)
      {
        GivesBefore(snapshot, id, key, j);
      }
      FigureKept(accounts, snapshot[..n], id, key);
    }
  }

  /** The rest of a summary: every entry but the three figures that are numbers. */
  ghost predicate IsExtra(extra: map<string, Value>, summary: map<string, Value>) {
    && (forall k :: k in extra ==> k in summary && extra[k] == summary[k])
    && (forall k :: k in summary ==> (k in extra <==> !(IsFigure(k) && summary[k].Number?)))
  }

  /** The extras are those of the last entry with a net liquidation. */
  lemma {:induction false} ExtrasFromSnapshot(accounts: Accounts, snapshot: seq<SnapAccount>, id: string, i: int)
    requires LastGives(snapshot, id, "NetLiquidation", i)
    ensures id in SyncedAccounts(accounts, snapshot)
    ensures IsExtra(SyncedAccounts(accounts, snapshot)[id].extra, snapshot[i].summary)
  {
    var n := |snapshot| - 1;
    if i < n {
      forall j
        ensures Gives(snapshot[..n], id, NET_LIQ, j) ==> j <= i
        ensures Gives(snapshot[..n], id, NET_LIQ, i)
      {
        GivesBefore(snapshot, id, NET_LIQ, j);
        GivesBefore(snapshot, id, NET_LIQ, i);
      }
      ExtrasFromSnapshot(accounts, snapshot[..n], id, i);
      assert !Gives(snapshot, id, NET_LIQ, n);
    }
  }

  /** Without one a stored account keeps its extras. */
  lemma {:induction false} ExtrasKept(accounts: Accounts, snapshot: seq<SnapAccount>, id: string)
    requires id in accounts && NoneGives(snapshot, id, "NetLiquidation")
    ensures id in SyncedAccounts(accounts, snapshot)
    ensures SyncedAccounts(accounts, snapshot)[id].extra == accounts[id].extra
  {
    if snapshot != [] {
      var n := |snapshot| - 1;
      forall j
        ensures !Gives(snapshot[..n], id, NET_LIQ, j)
      {
        GivesBefore(snapshot, id, NET_LIQ, j);
      }
      ExtrasKept(accounts, snapshot[..n], id);
      assert !Gives(snapshot, id, NET_LIQ, n);
    }
  }

  // ----- the positions, column by column -----

  /** Entry `i` is the last one of the account whose positions were read. */
  ghost predicate LastReadAt(snapshot: seq<SnapAccount>, id: string, i: int) {
    && 0 <= i < |snapshot| && ReadAt(snapshot, id, i)
    && forall j :: i < j < |snapshot| ==> !ReadAt(snapshot, id, j)
  }

  ghost predicate ReadAt(snapshot: seq<SnapAccount>, id: string, i: int)
    requires 0 <= i < |snapshot|
  {
    snapshot[i].accountId == Some(id) && snapshot[i].positions.Some? && snapshot[i].positionsOk
  }

  ghost predicate LastWithKey(list: seq<SnapPosition>, key: string, j: int) {
    && 0 <= j < |list| && Key(list[j]) == key
    && forall l :: j < l < |list| ==> Key(list[l]) != key
  }

  lemma {:induction false} LastReadIs(snapshot: seq<SnapAccount>, id: string, i: int)
    requires LastReadAt(snapshot, id, i)
    ensures LastRead(snapshot, id) == snapshot[i].positions
  {
    var n := |snapshot| - 1;
    if i < n {
      assert !ReadAt(snapshot, id, n);
      forall j | i < j < n
        ensures !ReadAt(snapshot[..n], id, j)
      {
        assert !ReadAt(snapshot, id, j);
      }
      LastReadIs(snapshot[..n], id, i);
    }
  }

  lemma {:induction false} LastReadNone(snapshot: seq<SnapAccount>, id: string)
    requires forall i :: 0 <= i < |snapshot| ==> !ReadAt(snapshot, id, i)
    ensures LastRead(snapshot, id) == None
  {
    if snapshot != [] {
      var n := |snapshot| - 1;
      assert !ReadAt(snapshot, id, n);
      forall i | 0 <= i < n
        ensures !ReadAt(snapshot[..n], id, i)
      {
        assert !ReadAt(snapshot, id, i);
      }
      LastReadNone(snapshot[..n], id);
    }
  }

  lemma {:induction false} LastRowIs(list: seq<SnapPosition>, key: string, j: int)
    requires LastWithKey(list, key, j)
    ensures LastRow(list, key) == Some(RowOf(list[j]))
  {
    if j < |list| - 1 {
      LastRowIs(list[..|list| - 1], key, j);
    }
  }

  /** A position after the sync has, column by column, what the last entry of its key says in the last
      successful read of its account. */
  lemma PositionFromSnapshot(positions: Positions, snapshot: seq<SnapAccount>, id: string, i: int, key: string, j: int)
    requires NamedByKey(positions) && CleanSnapshot(snapshot)
    requires LastReadAt(snapshot, id, i) && LastWithKey(snapshot[i].positions.value, key, j)
    ensures var after, p := SyncedPositions(positions, snapshot), snapshot[i].positions.value[j];
            && (id, key) in after
            && after[(id, key)] == PositionRow(p.symbol, p.secType, p.exchange, p.currency, p.position, p.avgCost, p.expiry, p.strike, p.right)
  {
    SyncMeetsSpec(positions, snapshot, id, key);
    LastReadIs(snapshot, id, i);
    LastRowIs(snapshot[i].positions.value, key, j);
  }

  /** A key that read does not have is gone; an account without a successful read keeps its positions. */
  lemma PositionGoneOrKept(positions: Positions, snapshot: seq<SnapAccount>, id: string, key: string)
    requires NamedByKey(positions) && CleanSnapshot(snapshot)
    ensures forall i :: LastReadAt(snapshot, id, i) && (forall j :: !LastWithKey(snapshot[i].positions.value, key, j)) ==>
              (id, key) !in SyncedPositions(positions, snapshot)
    ensures (forall i :: 0 <= i < |snapshot| ==> !ReadAt(snapshot, id, i)) ==>
              && ((id, key) in SyncedPositions(positions, snapshot) <==> (id, key) in positions)
              && ((id, key) in positions ==> SyncedPositions(positions, snapshot)[(id, key)] == positions[(id, key)])
  {
    SyncMeetsSpec(positions, snapshot, id, key);
    forall i | LastReadAt(snapshot, id, i) && forall j :: !LastWithKey(snapshot[i].positions.value, key, j)
      ensures (id, key) !in SyncedPositions(positions, snapshot)
    {
      LastReadIs(snapshot, id, i);
      NoRow(snapshot[i].positions.value, key);
    }
    if forall i :: 0 <= i < |snapshot| ==> !ReadAt(snapshot, id, i) {
      LastReadNone(snapshot, id);
    }
  }

  lemma NoRow(list: seq<SnapPosition>, key: string)
    requires forall j :: !LastWithKey(list, key, j)
    ensures LastRow(list, key) == None
  {
    if LastRow(list, key).Some? {
      var j := RowHasPlace(list, key);
    }
  }

  lemma {:induction false} RowHasPlace(list: seq<SnapPosition>, key: string) returns (j: int)
    requires LastRow(list, key).Some?
    ensures LastWithKey(list, key, j)
  {
    var n := |list| - 1;
    if Key(list[n]) == key {
      j := n;
    } else {
      j := RowHasPlace(list[..n], key);
    }
  }
}
