/**
 How many executions a trade has: the one-pass query against the per-trade query it replaced.
 */
module InstanceCounts {
  import opened Prelude
  import opened TradeSchema
  import opened ExecutionViews

  /** An execution as the count reads it, and a split link. */
  datatype Exec = Exec(eid: int, tradeId: Option<nat>)
  datatype Link = Link(eid: int, tradeId: nat)

  // ----- the one-pass query -----

  /** Whole links UNION split links of executions that are in the read table. */
  function Linked(ex: seq<Exec>, splits: seq<Link>): set<(int, nat)> {
    (set i | 0 <= i < |ex| && ex[i].tradeId.Some? :: (ex[i].eid, ex[i].tradeId.value))
    + (set i, j | 0 <= i < |splits| && 0 <= j < |ex| && ex[j].eid == splits[i].eid :: (splits[i].eid, splits[i].tradeId))
  }

  /** GROUP BY trade, COUNT(DISTINCT execution). */
  function GroupCounts(linked: set<(int, nat)>): map<nat, nat> {
    map t | t in Traders(linked) :: |Group(linked, t)|
  }

  function Traders(linked: set<(int, nat)>): set<nat> {
    set p | p in linked :: p.1
  }

  function Group(linked: set<(int, nat)>, t: nat): set<int> {
    set p | p in linked && p.1 == t :: p.0
  }

  /** LEFT JOIN on the trade, COALESCE to zero. */
  function FastCount(ex: seq<Exec>, splits: seq<Link>, t: nat): nat {
    var counts := GroupCounts(Linked(ex, splits));
    if t in counts then counts[t] else 0
  }

  // ----- the correlated query -----

  predicate Counted(e: Exec, splits: seq<Link>, t: nat) {
    e.tradeId == Some(t) || exists i :: 0 <= i < |splits| && splits[i].eid == e.eid && splits[i].tradeId == t
  }

  /** COUNT(DISTINCT id) WHERE the execution is the trade's OR EXISTS a split of it. */
  function SlowDistinct(ex: seq<Exec>, splits: seq<Link>, t: nat): nat {
    |CountedIds(ex, splits, t)|
  }

  function CountedIds(ex: seq<Exec>, splits: seq<Link>, t: nat): set<int> {
    set i | 0 <= i < |ex| && Counted(ex[i], splits, t) :: ex[i].eid
  }

  /** COUNT(*) of the same rows. */
  function SlowRows(ex: seq<Exec>, splits: seq<Link>, t: nat): nat {
    if ex == [] then 0
    else SlowRows(ex[..|ex| - 1], splits, t) + if Counted(ex[|ex| - 1], splits, t) then 1 else 0
  }

  /** For every trade and every contents of the tables the rewrite answers what the old query did. */
  lemma RewriteAgrees(ex: seq<Exec>, splits: seq<Link>, t: nat)
    ensures FastCount(ex, splits, t) == SlowDistinct(ex, splits, t)
  {
    var linked := Linked(ex, splits);
    var ids := Group(linked, t);
    forall e
      ensures e in ids <==> e in CountedIds(ex, splits, t)
    {
      if e in ids {
        assert (e, t) in linked;
        if i :| 0 <= i < |ex| && ex[i].tradeId.Some? && (ex[i].eid, ex[i].tradeId.value) == (e, t) {
          assert Counted(ex[i], splits, t);
        } else {
          var i, j :| 0 <= i < |splits| && 0 <= j < |ex| && ex[j].eid == splits[i].eid && (splits[i].eid, splits[i].tradeId) == (e, t);
          assert Counted(ex[j], splits, t);
        }
      }
      if e in CountedIds(ex, splits, t) {
        var i :| 0 <= i < |ex| && Counted(ex[i], splits, t) && ex[i].eid == e;
        if ex[i].tradeId != Some(t) {
          var k :| 0 <= k < |splits| && splits[k].eid == e && splits[k].tradeId == t;
          assert (splits[k].eid, splits[k].tradeId) in linked;
        }
        assert (e, t) in linked;
        assert (e, t).0 in ids;
      }
    }
    assert ids == CountedIds(ex, splits, t);
    if t !in GroupCounts(linked) {
      forall p | p in linked
        ensures p.1 != t
      {
        assert p.1 in Traders(linked);
      }
      assert ids == {};
    }
  }

  ghost predicate DistinctExecs(ex: seq<Exec>) {
    forall i, j :: 0 <= i < j < |ex| ==> ex[i].eid != ex[j].eid
  }

  /** With distinct ids, counting rows and counting ids are the same. */
  lemma {:induction false} RowsAreIds(ex: seq<Exec>, splits: seq<Link>, t: nat)
    requires DistinctExecs(ex)
    ensures SlowRows(ex, splits, t) == SlowDistinct(ex, splits, t)
  {
    if ex != [] {
      var n := |ex| - 1;
      RowsAreIds(ex[..n], splits, t);
      var rest := CountedIds(ex[..n], splits, t);
      assert CountedIds(ex, splits, t) == rest + (if Counted(ex[n], splits, t) then {ex[n].eid} else {});
      assert ex[n].eid !in rest;
    }
  }

  // ----- over the attributed final view -----

  function ExecOf(a: Attributed): Exec {
    Exec(a.row.eid, a.tradeId)
  }

  function ExecsOf(rows: seq<Attributed>): seq<Exec> {
    seq(|rows|, i requires 0 <= i < |rows| => ExecOf(rows[i]))
  }

  /** `te` lists the attribution table, each row once. */
  ghost predicate ListsFills(te: seq<Attribution>, fills: map<FillKey, Option<real>>) {
    && (forall i :: 0 <= i < |te| ==> KeyOf(te[i]) in fills && fills[KeyOf(te[i])] == te[i].split)
    && (forall i, j :: 0 <= i < j < |te| ==> KeyOf(te[i]) != KeyOf(te[j]))
  }

  function KeyOf(a: Attribution): FillKey {
    FillKey(a.account, a.execId, a.tradeId)
  }

  /** The declared unique index is the one the join needs. */
  lemma SchemaGivesWholeUnique(te: seq<Attribution>, db: Db)
    requires FillsOk(db) && ListsFills(te, db.fills)
    ensures WholeUnique(te)
  {
    forall i, j | 0 <= i < j < |te| && te[i].split.None? && te[j].split.None?
      ensures te[i].account != te[j].account || te[i].execId != te[j].execId
    {
      var k, l := KeyOf(te[i]), KeyOf(te[j]);
      assert k in db.fills && l in db.fills;
      if te[i].account == te[j].account && te[i].execId == te[j].execId {
        assert BothWhole(db, k, l);
      }
    }
  }

  /** The count a trade list shows over `executions_final` is the old row count. */
  lemma FinalCountAgrees(tables: Tables, te: seq<Attribution>, db: Db, splits: seq<Link>, t: nat)
    requires TablesOk(tables) && IdsApart(tables) && FillsOk(db) && ListsFills(te, db.fills)
    ensures var ex := ExecsOf(LeftJoin(ExecutionsFinal(tables), te));
            FastCount(ex, splits, t) == SlowRows(ex, splits, t)
  {
    var rows := ExecutionsFinal(tables);
    var ex := ExecsOf(LeftJoin(rows, te));
    SchemaGivesWholeUnique(te, db);
    LeftJoinKeepsRows(rows, te);
    ViewsHaveDistinctIds(tables);
    forall i, j | 0 <= i < j < |ex|
      ensures ex[i].eid != ex[j].eid
    {
      assert ex[i].eid == rows[i].eid && ex[j].eid == rows[j].eid;
    }
    RowsAreIds(ex, splits, t);
    RewriteAgrees(ex, splits, t);
  }
}
