/**
 The execution views as relational expressions over the three raw tables.

 Raw tables and views are sequences of rows, so a row met twice is visible. A raw row keeps only the
 columns the views look at: the others travel with it unread.
 */
module ExecutionViews {
  import opened Prelude

  datatype Origin = Flex | Tws | Journal

  /** `tradeDate` is the stored date; `day` is the session day derived for a TWS row. */
  datatype Raw = Raw(id: nat, account: Option<string>, execId: Option<string>, isBag: bool, tradeDate: Option<int>, day: Option<int>)

  datatype Tables = Tables(flex: seq<Raw>, tws: seq<Raw>, journal: seq<Raw>)

  /** A row of a view: where it comes from, its synthetic id, and the raw row. */
  datatype ViewRow = ViewRow(origin: Origin, eid: int, raw: Raw)

  const JOURNAL_OFFSET: int := 1000000000

  function Eid(origin: Origin, id: nat): int {
    match origin
    case Flex => id
    case Tws => 0 - id
    case Journal => -(JOURNAL_OFFSET + id)
  }

  predicate Named(execId: Option<string>) {
    execId.Some? && execId.value != ""
  }

  /** Only spaces, or nothing. */
  predicate BlankText(s: string) {
    forall i :: 0 <= i < |s| ==> s[i] == ' '
  }

  predicate Blank(text: Option<string>) {
    text.None? || BlankText(text.value)
  }

  /** Primary keys are positive and unique; a named exec id occurs once in a table. */
  ghost predicate TableOk(rows: seq<Raw>) {
    && (forall i :: 0 <= i < |rows| ==> rows[i].id >= 1)
    && (forall i, j :: 0 <= i < j < |rows| ==> rows[i].id != rows[j].id)
    && (forall i, j :: 0 <= i < j < |rows| && Named(rows[i].execId) ==> rows[i].execId != rows[j].execId)
  }

  ghost predicate TablesOk(t: Tables) {
    TableOk(t.flex) && TableOk(t.tws) && TableOk(t.journal)
  }

  /** No TWS key is a journal key moved up by the offset; TWS keys up to the offset never are. */
  ghost predicate IdsApart(t: Tables) {
    KeysApart(t.tws, t.journal)
  }

  ghost predicate KeysApart(tws: seq<Raw>, journal: seq<Raw>) {
    forall i, j :: 0 <= i < |tws| && 0 <= j < |journal| ==> tws[i].id != JOURNAL_OFFSET + journal[j].id
  }

  predicate HasExec(rows: seq<Raw>, execId: Option<string>) {
    exists i :: 0 <= i < |rows| && rows[i].execId == execId
  }

  // ----- the views -----

  function Rows(origin: Origin, rows: seq<Raw>): seq<ViewRow> {
    seq(|rows|, i requires 0 <= i < |rows| => ViewRow(origin, Eid(origin, rows[i].id), rows[i]))
  }

  /** Flex has a row for this TWS fill. */
  predicate Confirmed(flex: seq<Raw>, t: Raw) {
    Named(t.execId) && HasExec(flex, t.execId)
  }

  function Unconfirmed(tws: seq<Raw>, flex: seq<Raw>): seq<Raw> {
    if tws == [] then []
    else
      var n := |tws| - 1;
      Unconfirmed(tws[..n], flex) + if Confirmed(flex, tws[n]) then [] else [tws[n]]
  }

  function Executions(t: Tables): seq<ViewRow> {
    Rows(Flex, t.flex) + Rows(Tws, Unconfirmed(t.tws, t.flex)) + Rows(Journal, t.journal)
  }

  function ExecutionsFinal(t: Tables): seq<ViewRow> {
    Rows(Flex, t.flex) + Rows(Journal, t.journal)
  }

  /** The raw side of the split view: every representation of every fill. */
  function AllRows(t: Tables): seq<ViewRow> {
    Rows(Flex, t.flex) + Rows(Tws, t.tws) + Rows(Journal, t.journal)
  }

  /** Last day Flex covers for an account; none when it has no dated row of it. */
  function FlexThrough(flex: seq<Raw>, account: Option<string>): Option<int> {
    if flex == [] then None
    else
      var r := flex[|flex| - 1];
      var rest := FlexThrough(flex[..|flex| - 1], account);
      if r.account == account && r.tradeDate.Some? && (rest.None? || r.tradeDate.value > rest.value) then r.tradeDate else rest
  }

  /** A TWS fill Flex has not confirmed yet. */
  predicate Pending(flex: seq<Raw>, t: Raw) {
    && !t.isBag
    && !Blank(t.account)
    && !(!Blank(t.execId) && HasExec(flex, t.execId))
    && t.day.Some?
    && (FlexThrough(flex, t.account).None? || t.day.value > FlexThrough(flex, t.account).value)
  }

  function PendingRows(tws: seq<Raw>, flex: seq<Raw>): seq<Raw> {
    if tws == [] then []
    else
      var n := |tws| - 1;
      PendingRows(tws[..n], flex) + if Pending(flex, tws[n]) then [tws[n]] else []
  }

  function ExecutionsFly(t: Tables): seq<ViewRow> {
    Rows(Tws, PendingRows(t.tws, t.flex))
  }

  // ----- filters keep keys apart -----

  /** `sub` is `rows` with some rows left out. */
  ghost predicate SubTable(sub: seq<Raw>, rows: seq<Raw>) {
    && (forall r :: r in sub ==> r in rows)
    && (TableOk(rows) ==> TableOk(sub))
  }

  lemma SubTableStep(sub: seq<Raw>, rows: seq<Raw>, r: Raw)
    requires SubTable(sub, rows)
    ensures SubTable(sub, rows + [r]) && SubTable(sub + [r], rows + [r])
  {
    if TableOk(rows + [r]) {
      assert forall i :: 0 <= i < |rows| ==> (rows + [r])[i] == rows[i];
      assert TableOk(rows);
      assert r.id >= 1 by { assert (rows + [r])[|rows|] == r; }
      forall i | 0 <= i < |sub|
        ensures sub[i].id != r.id && (Named(sub[i].execId) ==> sub[i].execId != r.execId)
      {
        assert sub[i] in rows;
        var k :| 0 <= k < |rows| && rows[k] == sub[i];
        assert (rows + [r])[k] == sub[i] && (rows + [r])[|rows|] == r;
      }
    }
  }

  lemma {:induction false} UnconfirmedFilter(tws: seq<Raw>, flex: seq<Raw>)
    ensures SubTable(Unconfirmed(tws, flex), tws)
    ensures forall r :: r in Unconfirmed(tws, flex) <==> r in tws && !Confirmed(flex, r)
  {
    if tws != [] {
      var n := |tws| - 1;
      UnconfirmedFilter(tws[..n], flex);
      assert tws == tws[..n] + [tws[n]];
      SubTableStep(Unconfirmed(tws[..n], flex), tws[..n], tws[n]);
    }
  }

  lemma {:induction false} PendingFilter(tws: seq<Raw>, flex: seq<Raw>)
    ensures SubTable(PendingRows(tws, flex), tws)
    ensures forall r :: r in PendingRows(tws, flex) <==> r in tws && Pending(flex, r)
  {
    if tws != [] {
      var n := |tws| - 1;
      PendingFilter(tws[..n], flex);
      assert tws == tws[..n] + [tws[n]];
      SubTableStep(PendingRows(tws[..n], flex), tws[..n], tws[n]);
    }
  }

  // ----- the views, column by column -----

  ghost predicate OnlySpaces(s: string) {
    forall i :: 0 <= i < |s| ==> s[i] == ' '
  }

  /** A row of the pending view is a TWS row that is no combo, has an account and a day, has an exec id that
      is blank or that no Flex row has, and is of a day after the date of every dated Flex row of its
      account. */
  lemma FlyMembers(t: Tables, v: ViewRow)
    ensures v in ExecutionsFly(t) <==>
              && v.origin == Tws && v.eid == 0 - v.raw.id && v.raw in t.tws
              && !v.raw.isBag
              && v.raw.account.Some? && !OnlySpaces(v.raw.account.value)
              && (v.raw.execId.Some? && !OnlySpaces(v.raw.execId.value) ==> forall f :: f in t.flex ==> f.execId != v.raw.execId)
              && v.raw.day.Some?
              && (forall f :: f in t.flex && f.account == v.raw.account && f.tradeDate.Some? ==> f.tradeDate.value < v.raw.day.value)
  {
    RowsMembers(Tws, PendingRows(t.tws, t.flex), v);
    PendingFilter(t.tws, t.flex);
    HasExecIff(t.flex, v.raw.execId);
    ThroughCovers(t.flex, v.raw.account);
  }

  lemma HasExecIff(rows: seq<Raw>, execId: Option<string>)
    ensures HasExec(rows, execId) <==> exists r :: r in rows && r.execId == execId
  {
    if r :| r in rows && r.execId == execId {
      var i :| 0 <= i < |rows| && rows[i] == r;
    }
  }

  /** A row of the executions view is a Flex or a journal row, or a TWS row without an exec id or with one
      that no Flex row has. */
  lemma ExecutionsMembers(t: Tables, v: ViewRow)
    ensures v in Executions(t) <==>
              || (v.origin == Flex && v.eid == v.raw.id && v.raw in t.flex)
              || (v.origin == Journal && v.eid == -1000000000 - v.raw.id && v.raw in t.journal)
              || (v.origin == Tws && v.eid == 0 - v.raw.id && v.raw in t.tws
                  && (v.raw.execId == None || v.raw.execId == Some("") || forall f :: f in t.flex ==> f.execId != v.raw.execId))
  {
    ViewMembers(t, v);
    HasExecIff(t.flex, v.raw.execId);
  }

  /** A row of the final view is a Flex or a journal row. */
  lemma FinalMembers(t: Tables, v: ViewRow)
    ensures v in ExecutionsFinal(t) <==>
              || (v.origin == Flex && v.eid == v.raw.id && v.raw in t.flex)
              || (v.origin == Journal && v.eid == -1000000000 - v.raw.id && v.raw in t.journal)
  {
    RowsMembers(Flex, t.flex, v);
    RowsMembers(Journal, t.journal, v);
  }

  // ----- synthetic ids -----

  /** Two raw rows share a synthetic id exactly when they are one key of one table, or a TWS key is the
      other's journal key moved up by the offset. */
  lemma EidsEqualIff(o: Origin, a: nat, p: Origin, b: nat)
    requires a >= 1 && b >= 1
    ensures Eid(o, a) == Eid(p, b) <==>
              || (o == p && a == b)
              || (o == Tws && p == Journal && a == JOURNAL_OFFSET + b)
              || (o == Journal && p == Tws && b == JOURNAL_OFFSET + a)
  {
  }

  /** Back from a synthetic id to its table and key. */
  function RawOf(eid: int): (Origin, int) {
    if eid > 0 then (Flex, eid)
    else if eid <= -JOURNAL_OFFSET then (Journal, -eid - JOURNAL_OFFSET)
    else (Tws, -eid)
  }

  /** The way back finds the row exactly when it is not a TWS row with a key from the offset on. */
  lemma RawOfEid(o: Origin, id: nat)
    requires id >= 1
    ensures RawOf(Eid(o, id)) == (o, id) <==> o != Tws || id < 1000000000
  {
  }

  ghost predicate DistinctEids(rows: seq<ViewRow>) {
    forall i, j :: 0 <= i < j < |rows| ==> rows[i].eid != rows[j].eid
  }

  lemma MergedEids(flex: seq<Raw>, tws: seq<Raw>, journal: seq<Raw>)
    requires TableOk(flex) && TableOk(tws) && TableOk(journal) && KeysApart(tws, journal)
    ensures DistinctEids(Rows(Flex, flex) + Rows(Tws, tws) + Rows(Journal, journal))
  {
  }

  /** Over the three tables the synthetic ids are distinct exactly when the keys are apart. */
  lemma IdsDistinctIff(t: Tables)
    requires TablesOk(t)
    ensures DistinctEids(AllRows(t)) <==> IdsApart(t)
  {
    if IdsApart(t) {
      MergedEids(t.flex, t.tws, t.journal);
    } else {
      var i, j :| 0 <= i < |t.tws| && 0 <= j < |t.journal| && t.tws[i].id == JOURNAL_OFFSET + t.journal[j].id;
      var all, f, g := AllRows(t), |t.flex|, |t.flex| + |t.tws|;
      assert all[f + i] == ViewRow(Tws, Eid(Tws, t.tws[i].id), t.tws[i]);
      assert all[g + j] == ViewRow(Journal, Eid(Journal, t.journal[j].id), t.journal[j]);
      assert all[f + i].eid == all[g + j].eid;
    }
  }

  lemma SmallKeysAreApart(t: Tables)
    requires TablesOk(t) && forall i :: 0 <= i < |t.tws| ==> t.tws[i].id <= JOURNAL_OFFSET
    ensures IdsApart(t)
  {
  }

  /** Then no view holds a synthetic id twice. */
  lemma ViewsHaveDistinctIds(t: Tables)
    requires TablesOk(t) && IdsApart(t)
    ensures DistinctEids(Executions(t)) && DistinctEids(ExecutionsFinal(t)) && DistinctEids(AllRows(t)) && DistinctEids(ExecutionsFly(t))
  {
    UnconfirmedFilter(t.tws, t.flex);
    PendingFilter(t.tws, t.flex);
    var open, pending := Unconfirmed(t.tws, t.flex), PendingRows(t.tws, t.flex);
    SubKeysApart(open, t.tws, t.journal);
    MergedEids(t.flex, t.tws, t.journal);
    MergedEids(t.flex, open, t.journal);
    MergedEids(t.flex, [], t.journal);
    MergedEids([], pending, []);
    assert Rows(Flex, t.flex) + Rows(Tws, []) + Rows(Journal, t.journal) == ExecutionsFinal(t);
    assert Rows(Flex, []) + Rows(Tws, pending) + Rows(Journal, []) == ExecutionsFly(t);
  }

  lemma SubKeysApart(sub: seq<Raw>, rows: seq<Raw>, journal: seq<Raw>)
    requires SubTable(sub, rows) && KeysApart(rows, journal)
    ensures KeysApart(sub, journal)
  {
    forall i, j | 0 <= i < |sub| && 0 <= j < |journal|
      ensures sub[i].id != JOURNAL_OFFSET + journal[j].id
    {
      assert sub[i] in rows;
    }
  }

  // ----- attribution: the LEFT JOIN with trade_execution -----

  datatype Attribution = Attribution(account: string, execId: string, tradeId: nat, split: Option<real>)

  datatype Attributed = Attributed(row: ViewRow, tradeId: Option<nat>)

  predicate WholeMatch(u: ViewRow, a: Attribution) {
    u.raw.account == Some(a.account) && u.raw.execId == Some(a.execId) && a.split.None?
  }

  function Matches(u: ViewRow, te: seq<Attribution>): seq<Attribution> {
    if te == [] then []
    else
      var n := |te| - 1;
      Matches(u, te[..n]) + if WholeMatch(u, te[n]) then [te[n]] else []
  }

  function JoinOne(u: ViewRow, te: seq<Attribution>): seq<Attributed> {
    var m := Matches(u, te);
    if m == [] then [Attributed(u, None)] else seq(|m|, i requires 0 <= i < |m| => Attributed(u, Some(m[i].tradeId)))
  }

  function LeftJoin(rows: seq<ViewRow>, te: seq<Attribution>): seq<Attributed> {
    if rows == [] then [] else LeftJoin(rows[..|rows| - 1], te) + JoinOne(rows[|rows| - 1], te)
  }

  /** The partial unique index: one whole row per fill. */
  ghost predicate WholeUnique(te: seq<Attribution>) {
    forall i, j :: 0 <= i < j < |te| && te[i].split.None? && te[j].split.None? ==>
      te[i].account != te[j].account || te[i].execId != te[j].execId
  }

  lemma {:induction false} MatchesAre(u: ViewRow, te: seq<Attribution>)
    ensures forall a :: a in Matches(u, te) <==> a in te && WholeMatch(u, a)
    ensures WholeUnique(te) ==> |Matches(u, te)| <= 1
  {
    if te != [] {
      var n := |te| - 1;
      MatchesAre(u, te[..n]);
      assert te == te[..n] + [te[n]];
      if WholeUnique(te) && WholeMatch(u, te[n]) {
        NoMatches(u, te[..n]);
      }
    }
  }

  lemma {:induction false} NoMatches(u: ViewRow, te: seq<Attribution>)
    requires forall i :: 0 <= i < |te| ==> !WholeMatch(u, te[i])
    ensures Matches(u, te) == []
  {
    if te != [] {
      NoMatches(u, te[..|te| - 1]);
    }
  }

  /** What the view reads for a fill: the trade of its whole row, if it has one. */
  ghost predicate ReadsAttribution(out: Attributed, te: seq<Attribution>) {
    forall t: nat :: out.tradeId == Some(t) <==>
      exists a :: a in te && a.tradeId == t && a.split == None
                  && out.row.raw.account == Some(a.account) && out.row.raw.execId == Some(a.execId)
  }

  /** One row out for each row in, in order, each with its own trade. */
  ghost predicate RowForRow(rows: seq<ViewRow>, out: seq<Attributed>, te: seq<Attribution>) {
    && |out| == |rows|
    && forall i :: 0 <= i < |rows| ==> out[i].row == rows[i] && ReadsAttribution(out[i], te)
  }

  lemma OneMoreRow(rows: seq<ViewRow>, out: seq<Attributed>, u: ViewRow, o: Attributed, te: seq<Attribution>)
    requires RowForRow(rows, out, te) && o.row == u && ReadsAttribution(o, te)
    ensures RowForRow(rows + [u], out + [o], te)
  {
  }

  /** The attributed view has the raw rows, one for one and in order, each with its own trade. */
  lemma {:induction false} LeftJoinKeepsRows(rows: seq<ViewRow>, te: seq<Attribution>)
    requires WholeUnique(te)
    ensures RowForRow(rows, LeftJoin(rows, te), te)
  {
    if rows != [] {
      var n := |rows| - 1;
      LeftJoinKeepsRows(rows[..n], te);
      JoinOneReads(rows[n], te);
      var out, o := LeftJoin(rows[..n], te), JoinOne(rows[n], te)[0];
      OneMoreRow(rows[..n], out, rows[n], o, te);
      assert rows == rows[..n] + [rows[n]] && JoinOne(rows[n], te) == [o];
    }
  }

  lemma JoinOneReads(u: ViewRow, te: seq<Attribution>)
    requires WholeUnique(te)
    ensures var out := JoinOne(u, te); |out| == 1 && out[0].row == u && ReadsAttribution(out[0], te)
  {
    MatchesAre(u, te);
    var out, m := JoinOne(u, te)[0], Matches(u, te);
    assert m != [] ==> m[0] in m;
    assert forall a :: a in te && WholeMatch(u, a) ==> a in m;
  }

  // ----- splits -----

  /** `e` and `x` meet on split `s`: `x` represents the split's fill and `e` carries `x`'s id. */
  ghost predicate Meets(t: Tables, s: Attribution, e: ViewRow, x: ViewRow) {
    && e in Executions(t) && x in AllRows(t)
    && x.raw.account == Some(s.account) && x.raw.execId == Some(s.execId)
    && e.eid == x.eid && e.raw.account == Some(s.account)
  }

  /** They meet at these places of the two sides of the join. */
  ghost predicate MeetAt(t: Tables, s: Attribution, i: int, j: int) {
    0 <= i < |Executions(t)| && 0 <= j < |AllRows(t)| && Meets(t, s, Executions(t)[i], AllRows(t)[j])
  }

  /** The join has one row for the split: one pair of places meets on it. */
  ghost predicate MetOnce(t: Tables, s: Attribution) {
    exists i, j :: MeetAt(t, s, i, j) && forall k, l :: MeetAt(t, s, k, l) ==> k == i && l == j
  }

  /** The same of the rows themselves. */
  ghost predicate OneMeeting(t: Tables, s: Attribution) {
    && (exists e, x :: Meets(t, s, e, x))
    && (forall e, x, f, y :: Meets(t, s, e, x) && Meets(t, s, f, y) ==> e == f && x == y)
  }

  /** No row stands at two places, so counting rows is counting places. */
  lemma PlacesAreRows(t: Tables, s: Attribution)
    requires TablesOk(t) && IdsApart(t)
    ensures MetOnce(t, s) <==> OneMeeting(t, s)
  {
    ViewsHaveDistinctIds(t);
    if MetOnce(t, s) {
      var i, j :| MeetAt(t, s, i, j) && forall k, l :: MeetAt(t, s, k, l) ==> k == i && l == j;
      forall e, x | Meets(t, s, e, x)
        ensures e == Executions(t)[i] && x == AllRows(t)[j]
      {
        var k, l := PlacesOf(t, s, e, x);
      }
    }
    if OneMeeting(t, s) {
      var e, x :| Meets(t, s, e, x);
      var i, j := PlacesOf(t, s, e, x);
      forall k, l | MeetAt(t, s, k, l)
        ensures k == i && l == j
      {
        SamePlace(Executions(t), k, i);
        SamePlace(AllRows(t), l, j);
      }
    }
  }

  lemma PlacesOf(t: Tables, s: Attribution, e: ViewRow, x: ViewRow) returns (i: int, j: int)
    requires Meets(t, s, e, x)
    ensures MeetAt(t, s, i, j) && Executions(t)[i] == e && AllRows(t)[j] == x
  {
    i :| 0 <= i < |Executions(t)| && Executions(t)[i] == e;
    j :| 0 <= j < |AllRows(t)| && AllRows(t)[j] == x;
  }

  lemma SamePlace(rows: seq<ViewRow>, k: int, i: int)
    requires DistinctEids(rows) && 0 <= k < |rows| && 0 <= i < |rows| && rows[k] == rows[i]
    ensures k == i
  {
  }

  predicate Records(rows: seq<Raw>, s: Attribution) {
    exists i :: 0 <= i < |rows| && IsFill(rows[i], s)
  }

  predicate IsFill(r: Raw, s: Attribution) {
    r.account == Some(s.account) && r.execId == Some(s.execId)
  }

  lemma RowsMembers(origin: Origin, rows: seq<Raw>, v: ViewRow)
    ensures v in Rows(origin, rows) <==> v.origin == origin && v.raw in rows && v.eid == Eid(origin, v.raw.id)
  {
    if v.origin == origin && v.raw in rows && v.eid == Eid(origin, v.raw.id) {
      var i :| 0 <= i < |rows| && rows[i] == v.raw;
      assert Rows(origin, rows)[i] == v;
    }
  }

  ghost predicate InTables(t: Tables, v: ViewRow) {
    && v.eid == Eid(v.origin, v.raw.id)
    && v.raw in (match v.origin case Flex => t.flex case Tws => t.tws case Journal => t.journal)
  }

  lemma ViewMembers(t: Tables, v: ViewRow)
    ensures v in AllRows(t) <==> InTables(t, v)
    ensures v in Executions(t) <==> InTables(t, v) && (v.origin == Tws ==> !Confirmed(t.flex, v.raw))
  {
    RowsMembers(Flex, t.flex, v);
    RowsMembers(Tws, t.tws, v);
    RowsMembers(Tws, Unconfirmed(t.tws, t.flex), v);
    RowsMembers(Journal, t.journal, v);
    UnconfirmedFilter(t.tws, t.flex);
  }

  lemma SameIdSameRow(t: Tables, v: ViewRow, w: ViewRow)
    requires TablesOk(t) && IdsApart(t) && InTables(t, v) && InTables(t, w) && v.eid == w.eid
    ensures v == w
  {
    EidsEqualIff(v.origin, v.raw.id, w.origin, w.raw.id);
  }

  /** A meeting is one row of the fill that the executions view kept. */
  lemma MeetingsAre(t: Tables, s: Attribution, e: ViewRow, x: ViewRow)
    requires TablesOk(t) && IdsApart(t)
    ensures Meets(t, s, e, x) <==>
              e == x && InTables(t, e) && IsFill(e.raw, s) && (e.origin == Tws ==> !Confirmed(t.flex, e.raw))
  {
    ViewMembers(t, e);
    ViewMembers(t, x);
    if Meets(t, s, e, x) {
      SameIdSameRow(t, e, x);
    }
  }

  /** Which representation of the fill the executions view shows; at most one per table. */
  ghost predicate ShownBy(t: Tables, s: Attribution, origin: Origin) {
    match origin
    case Flex => Records(t.flex, s)
    case Tws => Records(t.tws, s) && !HasExec(t.flex, Some(s.execId))
    case Journal => Records(t.journal, s)
  }

  lemma ShownOnce(t: Tables, s: Attribution, origin: Origin) returns (v: ViewRow)
    requires TablesOk(t) && IdsApart(t) && s.execId != "" && ShownBy(t, s, origin)
    ensures v.origin == origin && Meets(t, s, v, v)
  {
    var rows := match origin case Flex => t.flex case Tws => t.tws case Journal => t.journal;
    var i :| 0 <= i < |rows| && IsFill(rows[i], s);
    v := ViewRow(origin, Eid(origin, rows[i].id), rows[i]);
    MeetingsAre(t, s, v, v);
  }

  lemma MeetingShows(t: Tables, s: Attribution, e: ViewRow, x: ViewRow)
    requires TablesOk(t) && IdsApart(t) && s.execId != "" && Meets(t, s, e, x)
    ensures e == x && ShownBy(t, s, e.origin)
  {
    MeetingsAre(t, s, e, x);
  }

  lemma OneMeetingPerTable(t: Tables, s: Attribution, e: ViewRow, f: ViewRow)
    requires TablesOk(t) && IdsApart(t) && s.execId != "" && Meets(t, s, e, e) && Meets(t, s, f, f) && e.origin == f.origin
    ensures e == f
  {
    MeetingsAre(t, s, e, e);
    MeetingsAre(t, s, f, f);
    var rows := match e.origin case Flex => t.flex case Tws => t.tws case Journal => t.journal;
    var i :| 0 <= i < |rows| && rows[i] == e.raw;
    var j :| 0 <= j < |rows| && rows[j] == f.raw;
    assert i == j;
  }

  /** A split is met exactly once exactly when one table shows its fill. */
  lemma MetOnceCondition(t: Tables, s: Attribution)
    requires TablesOk(t) && IdsApart(t) && s.execId != ""
    ensures MetOnce(t, s) <==> exists o :: ShownBy(t, s, o) && forall p :: ShownBy(t, s, p) ==> p == o
  {
    PlacesAreRows(t, s);
    if OneMeeting(t, s) {
      var e, x :| Meets(t, s, e, x);
      MeetingShows(t, s, e, x);
      forall p | ShownBy(t, s, p)
        ensures p == e.origin
      {
        var v := ShownOnce(t, s, p);
      }
    }
    if o :| ShownBy(t, s, o) && forall p :: ShownBy(t, s, p) ==> p == o {
      var v := ShownOnce(t, s, o);
      forall e, x, f, y | Meets(t, s, e, x) && Meets(t, s, f, y)
        ensures e == f && x == y
      {
        MeetingShows(t, s, e, x);
        MeetingShows(t, s, f, y);
        OneMeetingPerTable(t, s, e, f);
      }
    }
  }

  /** The split of a recorded fill is met exactly once, unless a journal row stands beside another shown row of
      it, or its only rows are TWS rows whose exec id Flex has for another account. */
  lemma RecordedMetOnceIff(t: Tables, s: Attribution)
    requires TablesOk(t) && IdsApart(t) && s.execId != ""
    requires Records(t.flex, s) || Records(t.tws, s) || Records(t.journal, s)
    ensures MetOnce(t, s) <==>
              if Records(t.journal, s) then !Records(t.flex, s) && !ShownBy(t, s, Tws)
              else Records(t.flex, s) || !HasExec(t.flex, Some(s.execId))
  {
    MetOnceCondition(t, s);
    if i :| 0 <= i < |t.flex| && IsFill(t.flex[i], s) {
      assert HasExec(t.flex, Some(s.execId));
    }
    var flex, tws, journal := ShownBy(t, s, Flex), ShownBy(t, s, Tws), ShownBy(t, s, Journal);
    assert !(flex && tws);
    if journal && !flex && !tws {
      assert forall p :: ShownBy(t, s, p) ==> p == Journal;
    } else if flex && !journal {
      assert forall p :: ShownBy(t, s, p) ==> p == Flex;
    } else if tws && !journal {
      assert forall p :: ShownBy(t, s, p) ==> p == Tws;
    }
  }

  /** A TWS row and its Flex twin are of one account. */
  ghost predicate TwinsShareAccount(t: Tables) {
    forall i, j :: 0 <= i < |t.tws| && 0 <= j < |t.flex| && Named(t.tws[i].execId) && t.tws[i].execId == t.flex[j].execId ==>
      t.tws[i].account == t.flex[j].account
  }

  /** Journal exec ids are its own. */
  ghost predicate JournalApart(t: Tables) {
    forall i :: 0 <= i < |t.journal| && Named(t.journal[i].execId) ==>
      !HasExec(t.flex, t.journal[i].execId) && !HasExec(t.tws, t.journal[i].execId)
  }

  /** Every split of a recorded fill is met exactly once, twin or no twin. */
  lemma SplitsMetOnce(t: Tables, s: Attribution)
    requires TablesOk(t) && IdsApart(t) && TwinsShareAccount(t) && JournalApart(t)
    requires s.execId != "" && (Records(t.flex, s) || Records(t.tws, s) || Records(t.journal, s))
    ensures MetOnce(t, s)
  {
    if Records(t.journal, s) {
      var i :| 0 <= i < |t.journal| && IsFill(t.journal[i], s);
      assert !HasExec(t.flex, t.journal[i].execId) && !HasExec(t.tws, t.journal[i].execId);
      assert ShownBy(t, s, Journal);
      assert forall p :: ShownBy(t, s, p) ==> p == Journal;
    } else if Records(t.flex, s) {
      assert ShownBy(t, s, Flex);
      assert HasExec(t.flex, Some(s.execId));
      assert forall p :: ShownBy(t, s, p) ==> p == Flex;
    } else {
      var i :| 0 <= i < |t.tws| && IsFill(t.tws[i], s);
      if j :| 0 <= j < |t.flex| && t.flex[j].execId == Some(s.execId) {
        assert IsFill(t.flex[j], s);
      }
      assert ShownBy(t, s, Tws);
      assert forall p :: ShownBy(t, s, p) ==> p == Tws;
    }
    MetOnceCondition(t, s);
  }

  /** A TWS row whose Flex twin is of another account: the fill's split is not met. */
  lemma ForeignTwinLosesSplit(execId: string, mine: string, other: string)
    requires execId != "" && mine != other
    ensures var t := Tables([Raw(1, Some(other), Some(execId), false, None, None)],
                            [Raw(1, Some(mine), Some(execId), false, None, None)], []);
            var s := Attribution(mine, execId, 1, Some(1.0));
            TablesOk(t) && IdsApart(t) && Records(t.tws, s) && !MetOnce(t, s) && !OneMeeting(t, s)
  {
    var t := Tables([Raw(1, Some(other), Some(execId), false, None, None)],
                    [Raw(1, Some(mine), Some(execId), false, None, None)], []);
    var s := Attribution(mine, execId, 1, Some(1.0));
    assert IsFill(t.tws[0], s) && t.flex[0].execId == Some(execId);
    assert forall o :: !ShownBy(t, s, o);
    MetOnceCondition(t, s);
    PlacesAreRows(t, s);
  }

  /** A split whose fill two tables show is met at two rows. */
  lemma ShownByTwo(t: Tables, s: Attribution, o: Origin, p: Origin) returns (e: ViewRow, f: ViewRow)
    requires TablesOk(t) && IdsApart(t) && s.execId != "" && o != p && ShownBy(t, s, o) && ShownBy(t, s, p)
    ensures Meets(t, s, e, e) && Meets(t, s, f, f) && e != f && !MetOnce(t, s)
  {
    e := ShownOnce(t, s, o);
    f := ShownOnce(t, s, p);
    MetOnceCondition(t, s);
  }

  /** A journal row with a Flex row's account and exec id: the fill's split is met twice. */
  lemma JournalTwinDoublesSplit(r: Raw, s: Attribution) returns (e: ViewRow, f: ViewRow)
    requires r.id >= 1 && IsFill(r, s) && s.execId != ""
    ensures var t := Tables([r], [], [r]);
            TablesOk(t) && IdsApart(t) && Meets(t, s, e, e) && Meets(t, s, f, f) && e != f && !MetOnce(t, s)
  {
    var t := Tables([r], [], [r]);
    assert IsFill(t.flex[0], s) && IsFill(t.journal[0], s);
    e, f := ShownByTwo(t, s, Flex, Journal);
  }

  /** A TWS key of the offset plus a journal key. */
  lemma ShiftedKeysCollide(tws: Raw, journal: Raw)
    requires journal.id >= 1 && tws.id == JOURNAL_OFFSET + journal.id
    ensures TablesOk(Tables([], [tws], [journal])) && !DistinctEids(AllRows(Tables([], [tws], [journal])))
  {
    var t := Tables([], [tws], [journal]);
    assert t.tws[0].id == JOURNAL_OFFSET + t.journal[0].id;
    IdsDistinctIff(t);
  }

  // ----- final and pending -----

  /** The rows the two views count together. */
  function Counted(t: Tables): seq<ViewRow> {
    ExecutionsFinal(t) + ExecutionsFly(t)
  }

  /** Two places of them carry the exec id. */
  ghost predicate CountedTwice(t: Tables, x: string) {
    exists i, j :: TwoPlaces(t, x, i, j)
  }

  ghost predicate TwoPlaces(t: Tables, x: string, i: int, j: int) {
    0 <= i < j < |Counted(t)| && Counted(t)[i].raw.execId == Some(x) && Counted(t)[j].raw.execId == Some(x)
  }

  predicate PendingHas(t: Tables, x: string) {
    HasExec(PendingRows(t.tws, t.flex), Some(x))
  }

  /** The tables that show the id disagree on it: a journal row beside a Flex or a pending row, or Flex
      beside a pending row, whose id is then only spaces. */
  ghost predicate ShownTwice(t: Tables, x: string) {
    || (HasExec(t.journal, Some(x)) && (HasExec(t.flex, Some(x)) || PendingHas(t, x)))
    || (BlankText(x) && HasExec(t.flex, Some(x)) && PendingHas(t, x))
  }

  /** A pending row repeats a Flex id only when the id is blank. */
  lemma PendingRepeatsBlanks(t: Tables, x: string)
    requires HasExec(t.flex, Some(x)) && PendingHas(t, x)
    ensures BlankText(x)
  {
    var pending := PendingRows(t.tws, t.flex);
    PendingFilter(t.tws, t.flex);
    var i :| 0 <= i < |pending| && pending[i].execId == Some(x);
    assert pending[i] in pending;
  }

  /** Each table shows a named id at one place at most. */
  lemma OnePlacePerTable(rows: seq<Raw>, x: string, i: int, j: int)
    requires TableOk(rows) && x != "" && 0 <= i < |rows| && 0 <= j < |rows|
    requires rows[i].execId == Some(x) && rows[j].execId == Some(x)
    ensures i == j
  {
  }

  lemma TwoPlacesAreTwoTables(t: Tables, x: string, i: int, j: int)
    requires TablesOk(t) && x != "" && TwoPlaces(t, x, i, j)
    ensures ShownTwice(t, x)
  {
    var pending := PendingRows(t.tws, t.flex);
    PendingFilter(t.tws, t.flex);
    var f, g := |t.flex|, |t.flex| + |t.journal|;
    CountedAt(t, i);
    CountedAt(t, j);
    if j < f {
      OnePlacePerTable(t.flex, x, i, j);
    } else if f <= i && j < g {
      OnePlacePerTable(t.journal, x, i - f, j - f);
    } else if g <= i {
      OnePlacePerTable(pending, x, i - g, j - g);
    } else if i < f && g <= j {
      PendingRepeatsBlanks(t, x);
    }
  }

  /** Which table a place belongs to. */
  lemma CountedAt(t: Tables, i: int)
    requires 0 <= i < |Counted(t)|
    ensures var f, g, r := |t.flex|, |t.flex| + |t.journal|, Counted(t)[i].raw;
            if i < f then r == t.flex[i]
            else if i < g then r == t.journal[i - f]
            else i - g < |PendingRows(t.tws, t.flex)| && r == PendingRows(t.tws, t.flex)[i - g]
  {
  }

  lemma TwoTablesAreTwoPlaces(t: Tables, x: string)
    requires ShownTwice(t, x)
    ensures CountedTwice(t, x)
  {
    var pending := PendingRows(t.tws, t.flex);
    var f, g := |t.flex|, |t.flex| + |t.journal|;
    var p, q := 0, 0;
    if HasExec(t.flex, Some(x)) {
      p :| 0 <= p < f && t.flex[p].execId == Some(x);
    } else {
      p :| 0 <= p < |t.journal| && t.journal[p].execId == Some(x);
      p := p + f;
    }
    if p < f && HasExec(t.journal, Some(x)) {
      q :| 0 <= q < |t.journal| && t.journal[q].execId == Some(x);
      q := q + f;
    } else {
      q :| 0 <= q < |pending| && pending[q].execId == Some(x);
      q := q + g;
    }
    CountedAt(t, p);
    CountedAt(t, q);
    assert TwoPlaces(t, x, p, q);
  }

  /** An exec id is counted twice over the two views exactly when two of their tables show it. */
  lemma CountedTwiceIff(t: Tables, x: string)
    requires TablesOk(t) && x != ""
    ensures CountedTwice(t, x) <==> ShownTwice(t, x)
  {
    if i, j :| TwoPlaces(t, x, i, j) {
      TwoPlacesAreTwoTables(t, x, i, j);
    }
    if ShownTwice(t, x) {
      TwoTablesAreTwoPlaces(t, x);
    }
  }

  /** So with journal ids apart no id but spaces is counted twice. */
  lemma NoExecCountedTwice(t: Tables, x: string)
    requires TablesOk(t) && JournalApart(t) && x != ""
    ensures CountedTwice(t, x) <==> BlankText(x) && HasExec(t.flex, Some(x)) && PendingHas(t, x)
  {
    CountedTwiceIff(t, x);
    if HasExec(t.journal, Some(x)) {
      var i :| 0 <= i < |t.journal| && t.journal[i].execId == Some(x);
      assert !HasExec(t.flex, t.journal[i].execId) && !HasExec(t.tws, t.journal[i].execId);
      if PendingHas(t, x) {
        PendingIsTws(t, x);
      }
    }
  }

  lemma PendingIsTws(t: Tables, x: string)
    requires PendingHas(t, x)
    ensures HasExec(t.tws, Some(x))
  {
    var pending := PendingRows(t.tws, t.flex);
    PendingFilter(t.tws, t.flex);
    var i :| 0 <= i < |pending| && pending[i].execId == Some(x);
    assert pending[i] in t.tws;
  }

  /** A journal row with the exec id of a Flex row: the final view alone counts it twice. */
  lemma JournalRepeatsFlex(x: string, flex: Raw, journal: Raw)
    requires x != "" && flex.id >= 1 && journal.id >= 1 && flex.execId == journal.execId == Some(x)
    ensures TablesOk(Tables([flex], [], [journal])) && CountedTwice(Tables([flex], [], [journal]), x)
  {
    var t := Tables([flex], [], [journal]);
    assert t.flex[0].execId == Some(x) && t.journal[0].execId == Some(x);
    TwoTablesAreTwoPlaces(t, x);
  }

  /** A journal row with the exec id of a pending row: the pending test does not look at the journal. */
  lemma JournalRepeatsPending(x: string, tws: Raw, journal: Raw)
    requires x != "" && tws.id >= 1 && journal.id >= 1 && tws.execId == journal.execId == Some(x)
    requires !tws.isBag && !Blank(tws.account) && tws.day.Some?
    ensures TablesOk(Tables([], [tws], [journal])) && CountedTwice(Tables([], [tws], [journal]), x)
  {
    var t := Tables([], [tws], [journal]);
    assert Pending([], tws);
    assert [tws][..0] == [];
    assert PendingRows(t.tws, t.flex) == [tws];
    assert PendingRows(t.tws, t.flex)[0].execId == Some(x) && t.journal[0].execId == Some(x);
    TwoTablesAreTwoPlaces(t, x);
  }

  /** One Flex row and one TWS row, a day later, with one space for an exec id. */
  lemma SpacesCountedTwice(flex: Raw, tws: Raw)
    requires flex.id >= 1 && tws.id >= 1 && flex.execId == tws.execId == Some(" ")
    requires flex.account == tws.account && !Blank(tws.account) && !tws.isBag
    requires flex.tradeDate.Some? && tws.day.Some? && flex.tradeDate.value < tws.day.value
    ensures TablesOk(Tables([flex], [tws], [])) && CountedTwice(Tables([flex], [tws], []), " ")
  {
    var t := Tables([flex], [tws], []);
    assert [flex][..0] == [] && [tws][..0] == [];
    assert FlexThrough([flex], tws.account) == flex.tradeDate;
    assert Pending([flex], tws);
    assert PendingRows([tws], [flex]) == [tws];
    assert t.flex[0].execId == Some(" ") && PendingRows([tws], [flex])[0].execId == Some(" ");
    TwoTablesAreTwoPlaces(t, " ");
  }

  lemma {:induction false} ThroughCovers(flex: seq<Raw>, account: Option<string>)
    ensures forall r :: r in flex && r.account == account && r.tradeDate.Some? ==>
              FlexThrough(flex, account).Some? && r.tradeDate.value <= FlexThrough(flex, account).value
    ensures FlexThrough(flex, account).Some? ==>
              exists r :: r in flex && r.account == account && r.tradeDate == FlexThrough(flex, account)
  {
    if flex != [] {
      var n := |flex| - 1;
      ThroughCovers(flex[..n], account);
      assert flex == flex[..n] + [flex[n]];
      if FlexThrough(flex, account).Some? {
        if FlexThrough(flex, account) == FlexThrough(flex[..n], account) {
          var r :| r in flex[..n] && r.account == account && r.tradeDate == FlexThrough(flex[..n], account);
          assert r in flex;
        } else {
          assert flex[n] in flex;
        }
      }
    }
  }

  /** The covered day of an account does not fall. */
  ghost predicate DayHolds(flex: seq<Raw>, later: seq<Raw>, account: Option<string>) {
    FlexThrough(flex, account).Some? ==>
      FlexThrough(later, account).Some? && FlexThrough(later, account).value >= FlexThrough(flex, account).value
  }

  ghost predicate IdHolds(flex: seq<Raw>, later: seq<Raw>, x: string) {
    HasExec(flex, Some(x)) ==> HasExec(later, Some(x))
  }

  /** The exec ids of Flex remain and no account's covered day falls. */
  ghost predicate CoverHolds(flex: seq<Raw>, later: seq<Raw>) {
    && (forall x :: !BlankText(x) ==> IdHolds(flex, later, x))
    && (forall a :: !BlankText(a) ==> DayHolds(flex, later, Some(a)))
  }

  /** No fill that is not pending becomes pending. */
  ghost predicate NothingReturns(flex: seq<Raw>, later: seq<Raw>) {
    forall r :: Pending(later, r) ==> Pending(flex, r)
  }

  /** A change of the Flex rows brings no fill back to pending, whichever fills there are, exactly when the
      exec ids and the covered days hold. */
  lemma NothingReturnsIff(flex: seq<Raw>, later: seq<Raw>)
    ensures NothingReturns(flex, later) <==> CoverHolds(flex, later)
  {
    if CoverHolds(flex, later) {
      forall r | Pending(later, r)
        ensures Pending(flex, r)
      {
        assert DayHolds(flex, later, Some(r.account.value));
        assert r.execId.Some? && !BlankText(r.execId.value) ==> IdHolds(flex, later, r.execId.value);
      }
    }
    if NothingReturns(flex, later) {
      forall x | !BlankText(x)
        ensures IdHolds(flex, later, x)
      {
        LostIdReturns(flex, later, x);
      }
      forall a | !BlankText(a)
        ensures DayHolds(flex, later, Some(a))
      {
        LostDayReturns(flex, later, a);
      }
    }
  }

  /** A fill with a lost exec id, dated after everything Flex covers, comes back. */
  lemma LostIdReturns(flex: seq<Raw>, later: seq<Raw>, x: string)
    requires NothingReturns(flex, later) && !BlankText(x)
    ensures IdHolds(flex, later, x)
  {
    var through := FlexThrough(later, Some(x));
    var r := Raw(1, Some(x), Some(x), false, None, Some(if through.Some? then through.value + 1 else 0));
    assert Pending(later, r) ==> Pending(flex, r);
  }

  /** So does a fill without an exec id on a day that is no longer covered. */
  lemma LostDayReturns(flex: seq<Raw>, later: seq<Raw>, a: string)
    requires NothingReturns(flex, later) && !BlankText(a)
    ensures DayHolds(flex, later, Some(a))
  {
    if FlexThrough(flex, Some(a)).Some? {
      var r := Raw(1, Some(a), None, false, None, FlexThrough(flex, Some(a)));
      assert Pending(later, r) ==> Pending(flex, r);
    }
  }

  /** Then the pending view only shrinks. */
  lemma FlyShrinks(t: Tables, later: seq<Raw>, v: ViewRow)
    requires CoverHolds(t.flex, later)
    requires v in ExecutionsFly(t.(flex := later))
    ensures v in ExecutionsFly(t)
  {
    PendingFilter(t.tws, later);
    PendingFilter(t.tws, t.flex);
    RowsMembers(Tws, PendingRows(t.tws, later), v);
    RowsMembers(Tws, PendingRows(t.tws, t.flex), v);
    NothingReturnsIff(t.flex, later);
  }

  /** New Flex rows beside the stored ones hold the cover. */
  lemma MoreRowsHold(flex: seq<Raw>, more: seq<Raw>)
    requires forall f :: f in flex ==> f in more
    ensures CoverHolds(flex, more)
  {
    forall x | HasExec(flex, Some(x))
      ensures HasExec(more, Some(x))
    {
      var i :| 0 <= i < |flex| && flex[i].execId == Some(x);
      assert flex[i] in more;
    }
    forall a | FlexThrough(flex, Some(a)).Some?
      ensures DayHolds(flex, more, Some(a))
    {
      ThroughCovers(flex, Some(a));
      ThroughCovers(more, Some(a));
      var f :| f in flex && f.account == Some(a) && f.tradeDate == FlexThrough(flex, Some(a));
      assert f in more;
    }
  }

  /** The Flex import: a row of a stored exec id replaces that row, under its key; any other is added. */
  function UpsertFlex(flex: seq<Raw>, row: Raw): seq<Raw> {
    if flex == [] then [row]
    else if Named(row.execId) && flex[0].execId == row.execId then [row.(id := flex[0].id)] + flex[1..]
    else [flex[0]] + UpsertFlex(flex[1..], row)
  }

  /** An import changes one place or adds one: at the first row of the same named exec id, which keeps its
      key, or at the end; every other row stays as and where it is. */
  lemma {:induction false} UpsertFlexIs(flex: seq<Raw>, row: Raw) returns (i: nat)
    ensures i <= |flex|
    ensures forall j :: 0 <= j < i ==> row.execId.None? || row.execId == Some("") || flex[j].execId != row.execId
    ensures i == |flex| ==> UpsertFlex(flex, row) == flex + [row]
    ensures i < |flex| ==>
              && row.execId.Some? && row.execId != Some("") && flex[i].execId == row.execId
              && UpsertFlex(flex, row) == flex[i := row.(id := flex[i].id)]
  {
    if flex == [] {
      i := 0;
    } else if Named(row.execId) && flex[0].execId == row.execId {
      i := 0;
      assert flex[0 := row.(id := flex[0].id)] == [row.(id := flex[0].id)] + flex[1..];
    } else {
      var k := UpsertFlexIs(flex[1..], row);
      i := k + 1;
      assert flex == [flex[0]] + flex[1..];
      if k == |flex| - 1 {
        assert [flex[0]] + (flex[1..] + [row]) == flex + [row];
      } else {
        assert [flex[0]] + flex[1..][k := row.(id := flex[1..][k].id)] == flex[i := row.(id := flex[i].id)];
      }
    }
  }

  /** An import keeps every exec id. */
  lemma {:induction false} UpsertKeepsIds(flex: seq<Raw>, row: Raw, x: string)
    ensures HasExec(UpsertFlex(flex, row), Some(x)) <==> HasExec(flex, Some(x)) || row.execId == Some(x)
  {
    var after := UpsertFlex(flex, row);
    if flex == [] {
      assert after[0] == row;
    } else {
      HasExecSplit(flex, x);
      HasExecSplit(after, x);
      if !(Named(row.execId) && flex[0].execId == row.execId) {
        UpsertKeepsIds(flex[1..], row, x);
        assert after[1..] == UpsertFlex(flex[1..], row);
      } else {
        assert after[1..] == flex[1..];
      }
    }
  }

  lemma HasExecSplit(rows: seq<Raw>, x: string)
    requires rows != []
    ensures HasExec(rows, Some(x)) <==> rows[0].execId == Some(x) || HasExec(rows[1..], Some(x))
  {
    if i :| 0 <= i < |rows| && rows[i].execId == Some(x) {
      assert i > 0 ==> rows[1..][i - 1] == rows[i];
    }
    if i :| 0 <= i < |rows| - 1 && rows[1..][i].execId == Some(x) {
      assert rows[i + 1] == rows[1..][i];
    }
  }

  /** So an import brings nothing back exactly when it lowers no account's covered day. */
  lemma ImportBringsNothingBackIff(flex: seq<Raw>, row: Raw)
    ensures NothingReturns(flex, UpsertFlex(flex, row)) <==>
              forall a :: !BlankText(a) ==> DayHolds(flex, UpsertFlex(flex, row), Some(a))
  {
    forall x
      ensures IdHolds(flex, UpsertFlex(flex, row), x)
    {
      UpsertKeepsIds(flex, row, x);
    }
    NothingReturnsIff(flex, UpsertFlex(flex, row));
  }

  /** A corrected row with an earlier date lowers it, when the row was the account's last. */
  lemma CorrectionBringsBack(account: string, x: string, day: int)
    requires !BlankText(account) && x != ""
    ensures var flex := [Raw(1, Some(account), Some(x), false, Some(day), None)];
            var corrected := Raw(1, Some(account), Some(x), false, Some(day - 1), None);
            var late := Raw(1, Some(account), None, false, None, Some(day));
            TableOk(flex) && !Pending(flex, late) && Pending(UpsertFlex(flex, corrected), late)
  {
    var flex := [Raw(1, Some(account), Some(x), false, Some(day), None)];
    var corrected := Raw(1, Some(account), Some(x), false, Some(day - 1), None);
    assert flex[..0] == [] && UpsertFlex(flex, corrected) == [corrected] && [corrected][..0] == [];
    assert FlexThrough(flex, Some(account)) == Some(day);
    assert FlexThrough([corrected], Some(account)) == Some(day - 1);
  }
}
