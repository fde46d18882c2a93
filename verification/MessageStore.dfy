/**
 The consumer and the reader as they run, over the keys they update in place.

 The stream, the clock and the order of the sorted set come from the store: entries, times and the
 index listing (newest first) are arguments.
 */
module MessageStore {
  import opened Prelude
  import opened MessageCenter
  import opened MessageReplay

  /** A stream entry: its id, and its event unless the fields do not parse. */
  datatype Entry = Entry(streamId: nat, event: Option<Event>)

  /** The events of a batch with the times they are handled at. */
  function Applied(s: Center, entries: seq<Entry>, times: seq<real>): Center
    requires |times| == |entries|
  {
    if entries == [] then s
    else
      var n := |entries| - 1;
      var rest := Applied(s, entries[..n], times[..n]);
      if entries[n].event.Some? then Materialize(rest, entries[n].event.value, times[n], DEFAULT_POLICY) else rest
  }

  // ----- the batch as a run -----

  /** The steps of a batch: its entries that parse, at their times. */
  function StepsOf(entries: seq<Entry>, times: seq<real>): seq<Step>
    requires |times| == |entries|
  {
    if entries == [] then []
    else
      var n := |entries| - 1;
      StepsOf(entries[..n], times[..n]) + if entries[n].event.Some? then [Mat(entries[n].event.value, times[n])] else []
  }

  function Parsed(entries: seq<Entry>): seq<Event> {
    if entries == [] then []
    else
      var n := |entries| - 1;
      Parsed(entries[..n]) + if entries[n].event.Some? then [entries[n].event.value] else []
  }

  /** A batch is a run of its steps, so what holds over runs holds over batches. */
  lemma {:induction false} AppliedIsRun(s: Center, entries: seq<Entry>, times: seq<real>)
    requires |times| == |entries|
    ensures Applied(s, entries, times) == Run(s, StepsOf(entries, times), DEFAULT_POLICY)
  {
    if entries != [] {
      var n := |entries| - 1;
      AppliedIsRun(s, entries[..n], times[..n]);
      var steps, earlier := StepsOf(entries, times), StepsOf(entries[..n], times[..n]);
      if entries[n].event.Some? {
        assert steps == earlier + [Mat(entries[n].event.value, times[n])];
        assert steps[..|steps| - 1] == earlier;
      } else {
        assert steps == earlier;
      }
    }
  }

  /** At one clock it is the batch of its parsed events. */
  lemma {:induction false} AppliedIsBatch(s: Center, entries: seq<Entry>, times: seq<real>, now: real)
    requires |times| == |entries| && forall i :: 0 <= i < |times| ==> times[i] == now
    ensures Applied(s, entries, times) == Batch(s, Parsed(entries), now, DEFAULT_POLICY)
  {
    if entries != [] {
      var n := |entries| - 1;
      AppliedIsBatch(s, entries[..n], times[..n], now);
      var events, earlier := Parsed(entries), Parsed(entries[..n]);
      if entries[n].event.Some? {
        assert events == earlier + [entries[n].event.value];
        assert events[..|events| - 1] == earlier;
      } else {
        assert events == earlier;
      }
    }
  }

  ghost predicate EntriesRegistered(reg: Registry, entries: seq<Entry>) {
    forall i :: 0 <= i < |entries| && entries[i].event.Some? ==> Registered(reg, entries[i].event.value)
  }

  lemma {:induction false} ParsedRegistered(reg: Registry, entries: seq<Entry>)
    requires EntriesRegistered(reg, entries)
    ensures AllRegistered(reg, Parsed(entries))
  {
    if entries != [] {
      ParsedRegistered(reg, entries[..|entries| - 1]);
    }
  }

  /** A batch that is read again, because its offset was lost, changes nothing at the same clock. */
  lemma SyncTwiceIsOnce(s: Center, entries: seq<Entry>, times: seq<real>, now: real, reg: Registry)
    requires Inv(s, now, DEFAULT_POLICY, reg) && EntriesRegistered(reg, entries)
    requires |times| == |entries| && forall i :: 0 <= i < |times| ==> times[i] == now
    ensures Applied(Applied(s, entries, times), entries, times) == Applied(s, entries, times)
  {
    ParsedRegistered(reg, entries);
    AppliedIsBatch(s, entries, times, now);
    AppliedIsBatch(Applied(s, entries, times), entries, times, now);
    ReplayChangesNothing(s, Parsed(entries), now, DEFAULT_POLICY, reg);
  }

  // ----- any sequence of calls -----

  /** A call of the consumer or of the reader. */
  datatype Call = Sync(entries: seq<Entry>, times: seq<real>) | Read(stale: set<string>, now: real)

  ghost predicate WellTimed(c: Call) {
    c.Sync? ==> |c.times| == |c.entries|
  }

  function StepsOfCall(c: Call): seq<Step>
    requires WellTimed(c)
  {
    if c.Sync? then StepsOf(c.entries, c.times) else [Clean(c.stale, c.now)]
  }

  /** What one call does: a batch, or the clean-up that ends a read. */
  function AfterCall(s: Center, c: Call): Center
    requires WellTimed(c)
  {
    if c.Sync? then Applied(s, c.entries, c.times) else Do(s, Clean(c.stale, c.now), DEFAULT_POLICY)
  }

  function AfterCalls(s: Center, calls: seq<Call>): Center
    requires forall i :: 0 <= i < |calls| ==> WellTimed(calls[i])
  {
    if calls == [] then s else AfterCall(AfterCalls(s, calls[..|calls| - 1]), calls[|calls| - 1])
  }

  function StepsOfCalls(calls: seq<Call>): seq<Step>
    requires forall i :: 0 <= i < |calls| ==> WellTimed(calls[i])
  {
    if calls == [] then [] else StepsOfCalls(calls[..|calls| - 1]) + StepsOfCall(calls[|calls| - 1])
  }

  lemma CallIsRun(s: Center, c: Call)
    requires WellTimed(c)
    ensures AfterCall(s, c) == Run(s, StepsOfCall(c), DEFAULT_POLICY)
  {
    if c.Sync? {
      AppliedIsRun(s, c.entries, c.times);
    } else {
      var steps := [Clean(c.stale, c.now)];
      assert steps[..0] == [] && steps[|steps| - 1] == Clean(c.stale, c.now);
      assert Run(s, [], DEFAULT_POLICY) == s;
    }
  }

  /** Calls in any order are one run. */
  lemma {:induction false} CallsAreRun(s: Center, calls: seq<Call>)
    requires forall i :: 0 <= i < |calls| ==> WellTimed(calls[i])
    ensures AfterCalls(s, calls) == Run(s, StepsOfCalls(calls), DEFAULT_POLICY)
  {
    if calls != [] {
      var n := |calls| - 1;
      CallsAreRun(s, calls[..n]);
      CallIsRun(AfterCalls(s, calls[..n]), calls[n]);
      RunSplit(s, StepsOfCalls(calls[..n]), StepsOfCall(calls[n]), DEFAULT_POLICY);
    }
  }

  /** The steps of the calls are of registered events and the clock does not go back. */
  ghost predicate GoodCalls(calls: seq<Call>, start: real, reg: Registry)
    requires forall i :: 0 <= i < |calls| ==> WellTimed(calls[i])
  {
    var steps := StepsOfCalls(calls);
    Monotone(steps, start) && forall i :: 0 <= i < |steps| && steps[i].Mat? ==> Registered(reg, steps[i].event)
  }

  /** Whatever calls the store answers, from empty: the invariant holds, live pointers name live items, and
      live items of a key are the window apart. */
  lemma CallsKeepInv(calls: seq<Call>, start: real, reg: Registry)
    requires forall i :: 0 <= i < |calls| ==> WellTimed(calls[i])
    requires GoodCalls(calls, start, reg)
    ensures var end, now := AfterCalls(EMPTY, calls), Clock(StepsOfCalls(calls), start);
            && Inv(end, now, DEFAULT_POLICY, reg)
            && (forall key :: LivePointer(end, key, now).Some? ==>
                  LiveId(end.items, LivePointer(end, key, now).value, now) && LivePointer(end, key, now).value in end.index)
            && (forall a, b ::
                  (a != b && LiveId(end.items, a, now) && LiveId(end.items, b, now) && SameKey(end.items[a], end.items[b]))
                  ==> WindowApart(end.items[a], end.items[b]))
  {
    InitialInv(start, DEFAULT_POLICY, reg);
    CallsAreRun(EMPTY, calls);
    var steps := StepsOfCalls(calls);
    var end, now := AfterCalls(EMPTY, calls), Clock(steps, start);
    RunKeepsInv(EMPTY, steps, start, DEFAULT_POLICY, reg);
    forall key | LivePointer(end, key, now).Some?
      ensures LiveId(end.items, LivePointer(end, key, now).value, now) && LivePointer(end, key, now).value in end.index
    {
      LivePointerNamesLiveItem(EMPTY, steps, start, DEFAULT_POLICY, reg, key);
    }
    forall a, b | a != b && LiveId(end.items, a, now) && LiveId(end.items, b, now) && SameKey(end.items[a], end.items[b])
      ensures WindowApart(end.items[a], end.items[b])
    {
      LiveItemsAreApart(EMPTY, steps, start, DEFAULT_POLICY, reg, a, b);
    }
  }

  const EMPTY := Center(map[], map[], map[])

  ghost predicate WindowApart(i: Item, j: Item) {
    i.setAt + DEDUPE_WINDOW_SEC as real <= j.setAt || j.setAt + DEDUPE_WINDOW_SEC as real <= i.setAt
  }

  // ----- what is emitted and what is read -----

  /** The messages a batch emits. */
  function Emitted(entries: seq<Entry>, times: seq<real>): seq<Event>
    requires |times| == |entries|
  {
    if entries == [] then []
    else
      var n := |entries| - 1;
      Emitted(entries[..n], times[..n]) +
      if entries[n].event.Some? && !TooOld(entries[n].event.value, times[n], DEFAULT_POLICY) then [entries[n].event.value] else []
  }

  /** A batch emits an entry's event exactly when it parses and is younger than an hour. */
  lemma {:induction false} EmittedIff(entries: seq<Entry>, times: seq<real>, e: Event)
    requires |times| == |entries|
    ensures e in Emitted(entries, times) <==>
              exists i :: 0 <= i < |entries| && entries[i].event == Some(e) && times[i] < e.occurredAt + 3600.0
  {
    if entries != [] {
      var n := |entries| - 1;
      EmittedIff(entries[..n], times[..n], e);
      if i :| 0 <= i < n && entries[..n][i].event == Some(e) && times[..n][i] < e.occurredAt + 3600.0 {
        assert entries[i].event == Some(e) && times[i] < e.occurredAt + 3600.0;
      }
      if i :| 0 <= i < |entries| && entries[i].event == Some(e) && times[i] < e.occurredAt + 3600.0 {
        if i < n {
          assert entries[..n][i].event == Some(e) && times[..n][i] < e.occurredAt + 3600.0;
        }
      }
    }
  }

  /** The numbers of the service: an event shows for an hour, and pushes out the one before it within half a
      minute. */
  lemma HourAndHalfMinute(s: Center, e: Event, f: Event, now: real)
    requires e.messageId != f.messageId && e.dedupeKey == f.dedupeKey != ""
    requires e.occurredAt == now && now <= f.occurredAt < now + 3000.0
    ensures var one := Materialize(s, e, now, DEFAULT_POLICY);
            var two := Materialize(one, f, f.occurredAt, DEFAULT_POLICY);
            && (forall t: real :: LiveId(one.items, e.messageId, t) <==> t < now + 3600.0)
            && (e.messageId in two.items <==> f.occurredAt >= now + 30.0)
  {
    FreshIsShown(s, e, now, DEFAULT_POLICY);
    FreshTakesPointer(s, e, now, DEFAULT_POLICY);
    FreshPushesOut(Materialize(s, e, now, DEFAULT_POLICY), f, f.occurredAt, DEFAULT_POLICY, e.messageId);
  }

  predicate LiveId(items: map<string, Item>, id: string, now: real) {
    id in items && Live(items[id], now)
  }

  /** The live messages of a listing, in its order. */
  function LiveOf(items: map<string, Item>, order: seq<string>, now: real): seq<Event> {
    if order == [] then []
    else
      var n := |order| - 1;
      LiveOf(items, order[..n], now) + if LiveId(items, order[n], now) then [items[order[n]].event] else []
  }

  function StaleOf(items: map<string, Item>, order: seq<string>, now: real): set<string> {
    set i | 0 <= i < |order| && !LiveId(items, order[i], now) :: order[i]
  }

  lemma {:induction false} LiveOfPrefix(items: map<string, Item>, order: seq<string>, now: real, n: nat)
    requires n <= |order|
    ensures LiveOf(items, order[..n], now) <= LiveOf(items, order, now)
    ensures |LiveOf(items, order, now)| - |LiveOf(items, order[..n], now)| <= |order| - n
  {
    if n < |order| {
      var m := |order| - 1;
      LiveOfPrefix(items, order[..m], now, n);
      assert order[..m][..n] == order[..n];
    } else {
      assert order[..n] == order;
    }
  }

  class Queue {
    var index: map<string, real>
    var items: map<string, Item>
    var dedupe: map<string, Pointer>
    var lastId: nat

    constructor ()
      ensures State() == EMPTY && lastId == 0
      ensures forall now: real, reg: Registry :: Inv(State(), now, DEFAULT_POLICY, reg)
    {
      index, items, dedupe, lastId := map[], map[], map[], 0;
      new;
      forall now: real, reg: Registry
        ensures Inv(EMPTY, now, DEFAULT_POLICY, reg)
      {
        InitialInv(now, DEFAULT_POLICY, reg);
      }
    }

    function State(): Center
      reads this
    {
      Center(index, items, dedupe)
    }

    method MaterializeEvent(e: Event, now: real) returns (shown: bool)
      modifies this`index, this`items, this`dedupe
      ensures State() == Materialize(old(State()), e, now, DEFAULT_POLICY)
      ensures shown <==> !TooOld(e, now, DEFAULT_POLICY)
    {
      var age := if now - e.occurredAt > 0.0 then now - e.occurredAt else 0.0;
      if age >= TTL_SEC as real {
        return false;
      }
      var remaining := MaxInt(1, Ceil(TTL_SEC as real - age));
      if e.dedupeKey != "" {
        var prev := LivePointer(State(), e.dedupeKey, now);
        if prev.Some? && prev.value != e.messageId {
          index := index - {prev.value};
          items := items - {prev.value};
        }
        var life := MaxInt(1, MinInt(DEDUPE_WINDOW_SEC, remaining));
        dedupe := dedupe[e.dedupeKey := Pointer(e.messageId, now, now + life as real)];
      }
      items := items[e.messageId := Item(e, now, now + remaining as real)];
      index := index[e.messageId := e.occurredAt];
      return true;
    }

    /** One batch: handle every entry, then save the offset. */
    method SyncEvents(entries: seq<Entry>, times: seq<real>) returns (emitted: seq<Event>)
      requires |times| == |entries|
      modifies this
      ensures State() == Applied(old(State()), entries, times)
      ensures emitted == Emitted(entries, times)
      ensures lastId == if entries == [] then old(lastId) else entries[|entries| - 1].streamId
    {
      emitted := [];
      var newest := lastId;
      for i := 0 to |entries|
        invariant State() == Applied(old(State()), entries[..i], times[..i])
        invariant emitted == Emitted(entries[..i], times[..i])
        invariant newest == if i == 0 then old(lastId) else entries[i - 1].streamId
        invariant lastId == old(lastId)
      {
        assert entries[..i + 1][..i] == entries[..i] && times[..i + 1][..i] == times[..i];
        newest := entries[i].streamId;
        if entries[i].event.Some? {
          var shown := MaterializeEvent(entries[i].event.value, times[i]);
          if shown {
            emitted := emitted + [entries[i].event.value];
          }
        }
      }
      assert entries[..|entries|] == entries && times[..|entries|] == times;
      if newest != lastId {
        lastId := newest;
      }
    }

    /** Read the newest messages page by page, and drop the index entries found stale. */
    method Fetch(order: seq<string>, limit: int, now: real) returns (out: seq<Event>, ghost scanned: nat)
      requires ByScore(order, index)
      modifies this`index
      ensures scanned <= |order|
      ensures out == LiveOf(items, order[..scanned], now)
      ensures |out| <= MaxInt(0, limit)
      ensures |out| >= limit || scanned == |order| || scanned >= 4 * limit
      ensures index == old(index) - StaleOf(items, order[..scanned], now)
      ensures State() == AfterCall(old(State()), Read(StaleOf(items, order[..scanned], now), now))
      ensures forall reg: Registry :: Inv(old(State()), now, DEFAULT_POLICY, reg) ==>
                NewestFirst(out) && NothingNewerLeft(old(State()), out, now)
    {
      var stale;
      out, stale, scanned := ScanPages(order, limit, now);
      AnswerIsNewest(State(), order, scanned, now);
      StaleIsStale(items, order[..scanned], now);
      index := index - stale;
    }

    /** The paging loop: live messages of the places scanned, and the ids found stale. */
    method ScanPages(order: seq<string>, limit: int, now: real)
      returns (out: seq<Event>, stale: set<string>, ghost scanned: nat)
      ensures scanned <= |order|
      ensures out == LiveOf(items, order[..scanned], now) && stale == StaleOf(items, order[..scanned], now)
      ensures |out| <= MaxInt(0, limit)
      ensures |out| >= limit || scanned == |order| || scanned >= 4 * limit
    {
      out := [];
      stale := {};
      var start, remaining := 0, MaxInt(1, limit);
      scanned := 0;
      while |out| < limit && start < limit * 4
        invariant 0 <= start <= |order| && scanned == start
        invariant out == LiveOf(items, order[..start], now)
        invariant stale == StaleOf(items, order[..start], now)
        invariant |out| <= MaxInt(0, limit)
        invariant remaining == MaxInt(1, limit - |out|)
        decreases |order| - start
      {
        if start == |order| {
          break;
        }
        var end := MinInt(start + remaining, |order|);
        var i := start;
        while i < end && |out| < limit
          invariant start <= i <= end
          invariant out == LiveOf(items, order[..i], now)
          invariant stale == StaleOf(items, order[..i], now)
          invariant |out| + (end - i) <= limit
          {
          StaleGrows(items, order, now, i);
          assert order[..i + 1][..i] == order[..i];
          if LiveId(items, order[i], now) {
            out := out + [items[order[i]].event];
          } else {
            stale := stale + {order[i]};
          }
          i := i + 1;
        }
        start := end;
        scanned := start;
        remaining := MaxInt(1, limit - |out|);
      }
    }
  }

  lemma StaleIsStale(items: map<string, Item>, order: seq<string>, now: real)
    ensures StaleOf(items, order, now) ==
              set id | id in StaleOf(items, order, now) && !(id in items && Live(items[id], now))
  {
  }

  // ----- newest first -----

  /** The listing of the sorted set: every indexed id once, by falling score. */
  ghost predicate ByScore(order: seq<string>, index: map<string, real>) {
    && (forall id :: id in order <==> id in index)
    && (forall i, j :: 0 <= i < j < |order| ==> order[i] != order[j] && index[order[i]] >= index[order[j]])
  }

  ghost predicate NewestFirst(out: seq<Event>) {
    forall i, j :: 0 <= i < j < |out| ==> out[i].occurredAt >= out[j].occurredAt
  }

  /** A live message that is not in the answer is no newer than any that is. */
  ghost predicate NothingNewerLeft(s: Center, out: seq<Event>, now: real) {
    forall id, e :: LiveId(s.items, id, now) && s.items[id].event !in out && e in out ==>
      s.items[id].event.occurredAt <= e.occurredAt
  }

  lemma AnswerIsNewest(s: Center, order: seq<string>, scanned: nat, now: real)
    requires ByScore(order, s.index) && scanned <= |order|
    ensures var out := LiveOf(s.items, order[..scanned], now);
            forall reg: Registry :: Inv(s, now, DEFAULT_POLICY, reg) ==> NewestFirst(out) && NothingNewerLeft(s, out, now)
  {
    forall reg: Registry | Inv(s, now, DEFAULT_POLICY, reg)
      ensures var out := LiveOf(s.items, order[..scanned], now); NewestFirst(out) && NothingNewerLeft(s, out, now)
    {
      ScannedAreNewest(s, order, scanned, now, reg);
    }
  }

  lemma {:induction false} LiveOfMembers(items: map<string, Item>, order: seq<string>, now: real, e: Event)
    ensures e in LiveOf(items, order, now) <==>
              exists i :: 0 <= i < |order| && LiveId(items, order[i], now) && items[order[i]].event == e
  {
    if order != [] {
      var n := |order| - 1;
      LiveOfMembers(items, order[..n], now, e);
      if i :| 0 <= i < n && LiveId(items, order[..n][i], now) && items[order[..n][i]].event == e {
        assert order[i] == order[..n][i];
      }
      if i :| 0 <= i < |order| && LiveId(items, order[i], now) && items[order[i]].event == e {
        assert i < n ==> order[..n][i] == order[i];
      }
    }
  }

  lemma ScannedIsIn(items: map<string, Item>, order: seq<string>, n: nat, k: nat, now: real)
    requires k < n <= |order| && LiveId(items, order[k], now)
    ensures items[order[k]].event in LiveOf(items, order[..n], now)
  {
    LiveOfMembers(items, order[..n], now, items[order[k]].event);
    assert order[..n][k] == order[k];
  }

  /** Every message of the first `n` places is at least as new as the live one at a later place. */
  lemma EarlierIsNewer(s: Center, order: seq<string>, n: nat, k: nat, now: real, reg: Registry, e: Event)
    requires Inv(s, now, DEFAULT_POLICY, reg) && ByScore(order, s.index) && n <= k < |order|
    requires LiveId(s.items, order[k], now) && e in LiveOf(s.items, order[..n], now)
    ensures e.occurredAt >= s.items[order[k]].event.occurredAt
  {
    LiveOfMembers(s.items, order[..n], now, e);
    var i :| 0 <= i < n && LiveId(s.items, order[..n][i], now) && s.items[order[..n][i]].event == e;
    assert order[i] in order && order[k] in order;
    assert s.index[order[i]] >= s.index[order[k]];
  }

  lemma {:induction false} PrefixNewestFirst(s: Center, order: seq<string>, n: nat, now: real, reg: Registry)
    requires Inv(s, now, DEFAULT_POLICY, reg) && ByScore(order, s.index) && n <= |order|
    ensures NewestFirst(LiveOf(s.items, order[..n], now))
  {
    if n > 0 {
      PrefixNewestFirst(s, order, n - 1, now, reg);
      assert order[..n][..n - 1] == order[..n - 1];
      var earlier := LiveOf(s.items, order[..n - 1], now);
      if LiveId(s.items, order[n - 1], now) {
        forall i | 0 <= i < |earlier|
          ensures earlier[i].occurredAt >= s.items[order[n - 1]].event.occurredAt
        {
          EarlierIsNewer(s, order, n - 1, n - 1, now, reg, earlier[i]);
        }
      }
    }
  }

  /** However far the reader gets, what it returns is newest first, and nothing it leaves out is newer. */
  lemma ScannedAreNewest(s: Center, order: seq<string>, scanned: nat, now: real, reg: Registry)
    requires Inv(s, now, DEFAULT_POLICY, reg) && ByScore(order, s.index) && scanned <= |order|
    ensures NewestFirst(LiveOf(s.items, order[..scanned], now))
    ensures NothingNewerLeft(s, LiveOf(s.items, order[..scanned], now), now)
  {
    PrefixNewestFirst(s, order, scanned, now, reg);
    var out := LiveOf(s.items, order[..scanned], now);
    forall id, e | LiveId(s.items, id, now) && s.items[id].event !in out && e in out
      ensures s.items[id].event.occurredAt <= e.occurredAt
    {
      assert id in order;
      var k :| 0 <= k < |order| && order[k] == id;
      if k < scanned {
        ScannedIsIn(s.items, order, scanned, k, now);
      } else {
        EarlierIsNewer(s, order, scanned, k, now, reg, e);
      }
    }
  }

  lemma StaleGrows(items: map<string, Item>, order: seq<string>, now: real, i: nat)
    requires i < |order|
    ensures StaleOf(items, order[..i + 1], now) ==
              StaleOf(items, order[..i], now) + if LiveId(items, order[i], now) then {} else {order[i]}
  {
    var a, b := order[..i], order[..i + 1];
    assert forall k :: 0 <= k < i ==> a[k] == b[k];
    forall x | x in StaleOf(items, b, now)
      ensures x in StaleOf(items, a, now) || x == order[i]
    {
      var k :| 0 <= k < |b| && !LiveId(items, b[k], now) && b[k] == x;
      assert k < i ==> a[k] == x;
    }
    forall x | x in StaleOf(items, a, now)
      ensures x in StaleOf(items, b, now)
    {
      var k :| 0 <= k < |a| && !LiveId(items, a[k], now) && a[k] == x;
      assert b[k] == x;
    }
    assert b[i] == order[i];
  }

  function CountStale(items: map<string, Item>, order: seq<string>, now: real): nat {
    if order == [] then 0
    else CountStale(items, order[..|order| - 1], now) + if LiveId(items, order[|order| - 1], now) then 0 else 1
  }

  lemma {:induction false} LivePlusStale(items: map<string, Item>, order: seq<string>, now: real)
    ensures |LiveOf(items, order, now)| + CountStale(items, order, now) == |order|
  {
    if order != [] {
      LivePlusStale(items, order[..|order| - 1], now);
    }
  }

  lemma {:induction false} CountStalePrefix(items: map<string, Item>, order: seq<string>, now: real, n: nat)
    requires n <= |order|
    ensures CountStale(items, order[..n], now) <= CountStale(items, order, now)
  {
    if n < |order| {
      var m := |order| - 1;
      CountStalePrefix(items, order[..m], now, n);
      assert order[..m][..n] == order[..n];
    } else {
      assert order[..n] == order;
    }
  }

  /** What `Fetch` returns are the newest live messages, newest first; and whenever the index holds at most
      three stale entries per message asked for, there are as many as asked for, or all there are. */
  lemma FetchIsNewest(s: Center, order: seq<string>, limit: nat, now: real, scanned: nat, reg: Registry)
    requires Inv(s, now, DEFAULT_POLICY, reg) && ByScore(order, s.index) && scanned <= |order|
    requires |LiveOf(s.items, order[..scanned], now)| >= limit || scanned == |order| || scanned >= 4 * limit
    ensures var out := LiveOf(s.items, order[..scanned], now);
            && NewestFirst(out) && NothingNewerLeft(s, out, now)
            && (CountStale(s.items, order, now) <= 3 * limit ==>
                  |out| >= limit || forall id :: LiveId(s.items, id, now) ==> s.items[id].event in out)
  {
    ScannedAreNewest(s, order, scanned, now, reg);
    var out := LiveOf(s.items, order[..scanned], now);
    if |out| < limit && CountStale(s.items, order, now) <= 3 * limit {
      if scanned < |order| {
        LivePlusStale(s.items, order[..scanned], now);
        CountStalePrefix(s.items, order, now, scanned);
      }
      assert out == LiveOf(s.items, order, now) by {
        LiveOfPrefix(s.items, order, now, scanned);
        assert scanned == |order| ==> order[..scanned] == order;
        LivePlusStale(s.items, order, now);
        LivePlusStale(s.items, order[..scanned], now);
      }
      forall id | LiveId(s.items, id, now)
        ensures s.items[id].event in out
      {
        LiveOfMembers(s.items, order, now, s.items[id].event);
        assert id in order;
      }
    }
  }
}
