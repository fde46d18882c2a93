/**
 The message center: stream events are materialised as items with a lifetime, and within a short
 window a newer event of the same dedupe key replaces the older one.

 Keys with an expiry stay in the maps here and count as gone once the clock reaches it, which is all
 a reader can tell. `setAt` records when an item or a pointer was last written.
 */
module MessageCenter {
  import opened Prelude

  const TTL_SEC := 3600
  const DEDUPE_WINDOW_SEC := 30

  datatype Event = Event(messageId: string, dedupeKey: string, occurredAt: real, body: string)

  datatype Item = Item(event: Event, setAt: real, expires: real)
  datatype Pointer = Pointer(messageId: string, setAt: real, expires: real)

  /** The index (a sorted set: id to score), the items, and the dedupe pointers. */
  datatype Center = Center(index: map<string, real>, items: map<string, Item>, dedupe: map<string, Pointer>)

  datatype Policy = Policy(ttl: int, window: int)

  const DEFAULT_POLICY := Policy(TTL_SEC, DEDUPE_WINDOW_SEC)

  function MaxInt(a: int, b: int): int {
    if a >= b then a else b
  }

  function MinInt(a: int, b: int): int {
    if a <= b then a else b
  }

  function Ceil(v: real): int {
    -((-v).Floor)
  }

  function Age(e: Event, now: real): real {
    if now - e.occurredAt > 0.0 then now - e.occurredAt else 0.0
  }

  /** The event is too old to show. */
  predicate TooOld(e: Event, now: real, policy: Policy) {
    Age(e, now) >= policy.ttl as real
  }

  /** Whole seconds the item still lives. */
  function Remaining(e: Event, now: real, policy: Policy): (r: int)
    ensures r >= 1
  {
    MaxInt(1, Ceil(policy.ttl as real - Age(e, now)))
  }

  /** Whole seconds the dedupe pointer lives: the window, but no longer than the item. */
  function PointerLife(e: Event, now: real, policy: Policy): (r: int)
    ensures 1 <= r <= Remaining(e, now, policy)
    ensures r == Remaining(e, now, policy) || r >= policy.window
  {
    MaxInt(1, MinInt(policy.window, Remaining(e, now, policy)))
  }

  function ItemOf(e: Event, now: real, policy: Policy): Item {
    Item(e, now, now + Remaining(e, now, policy) as real)
  }

  function PointerTo(e: Event, now: real, policy: Policy): Pointer {
    Pointer(e.messageId, now, now + PointerLife(e, now, policy) as real)
  }

  /** The message a live pointer of the key names. */
  function LivePointer(s: Center, key: string, now: real): Option<string> {
    if key in s.dedupe && now < s.dedupe[key].expires then Some(s.dedupe[key].messageId) else None
  }

  /** The message this event pushes out. */
  function Displaces(s: Center, e: Event, now: real): Option<string> {
    if e.dedupeKey == "" then None
    else
      var prev := LivePointer(s, e.dedupeKey, now);
      if prev.Some? && prev.value != e.messageId then prev else None
  }

  function Without<T>(m: map<string, T>, gone: Option<string>): map<string, T> {
    if gone.Some? then m - {gone.value} else m
  }

  function Materialize(s: Center, e: Event, now: real, policy: Policy): Center {
    if TooOld(e, now, policy) then s
    else
      var gone := Displaces(s, e, now);
      Center(
        Without(s.index, gone)[e.messageId := e.occurredAt],
        Without(s.items, gone)[e.messageId := ItemOf(e, now, policy)],
        if e.dedupeKey == "" then s.dedupe else s.dedupe[e.dedupeKey := PointerTo(e, now, policy)])
  }

  /** Drop index entries whose item is gone. */
  function DropStale(s: Center, stale: set<string>): Center {
    s.(index := s.index - stale)
  }

  // ----- what one event does, by its time -----

  /** How long an item of an event that is not from the future lives: to the end of its lifetime, and less
      than a second longer, or one second. */
  lemma RemainingIs(e: Event, now: real, policy: Policy)
    requires e.occurredAt <= now < e.occurredAt + policy.ttl as real
    ensures var expires := now + Remaining(e, now, policy) as real;
            expires >= e.occurredAt + policy.ttl as real && (expires < e.occurredAt + policy.ttl as real + 1.0 || expires == now + 1.0)
  {
    var left := policy.ttl as real - (now - e.occurredAt);
    assert left <= Ceil(left) as real < left + 1.0;
  }

  /** An event younger than the lifetime is there afterwards, with its time as score. One that is not from the
      future is live until its lifetime is over, and less than a second longer, a second at least; one from
      the future lives the whole lifetime from now. */
  lemma FreshIsShown(s: Center, e: Event, now: real, policy: Policy)
    requires now < e.occurredAt + policy.ttl as real && policy.ttl > 0
    ensures var next := Materialize(s, e, now, policy);
            && e.messageId in next.index && next.index[e.messageId] == e.occurredAt
            && e.messageId in next.items && next.items[e.messageId].event == e && next.items[e.messageId].setAt == now
            && LivesRight(e, now, policy, next.items[e.messageId])
  {
    if e.occurredAt <= now {
      RemainingIs(e, now, policy);
    } else {
      FutureRemaining(e, now, policy);
    }
  }

  lemma FutureRemaining(e: Event, now: real, policy: Policy)
    requires e.occurredAt > now && policy.ttl > 0
    ensures Age(e, now) == 0.0 && Remaining(e, now, policy) == policy.ttl
  {
    assert Ceil(policy.ttl as real) == policy.ttl;
  }

  ghost predicate LivesRight(e: Event, now: real, policy: Policy, i: Item) {
    && (e.occurredAt <= now ==>
          && (forall t: real :: t < e.occurredAt + policy.ttl as real ==> Live(i, t))
          && (forall t: real :: t >= e.occurredAt + policy.ttl as real + 1.0 && t >= now + 1.0 ==> !Live(i, t)))
    && (e.occurredAt > now ==> forall t: real :: Live(i, t) <==> t < now + policy.ttl as real)
  }

  /** An event whose lifetime is over changes nothing. */
  lemma ExpiredChangesNothing(s: Center, e: Event, now: real, policy: Policy)
    requires now >= e.occurredAt + policy.ttl as real && policy.ttl > 0
    ensures Materialize(s, e, now, policy) == s
  {
  }

  /** A fresh event with a dedupe key takes the key's pointer, for the window or as long as it lives if that
      is less; without one no pointer changes. */
  lemma FreshTakesPointer(s: Center, e: Event, now: real, policy: Policy)
    requires now < e.occurredAt + policy.ttl as real && policy.ttl > 0 && policy.window > 0
    ensures var next := Materialize(s, e, now, policy);
            && (e.dedupeKey == "" ==> next.dedupe == s.dedupe)
            && (e.dedupeKey != "" ==>
                  && e.dedupeKey in next.dedupe && next.dedupe == s.dedupe[e.dedupeKey := next.dedupe[e.dedupeKey]]
                  && next.dedupe[e.dedupeKey].messageId == e.messageId && next.dedupe[e.dedupeKey].setAt == now
                  && next.dedupe[e.dedupeKey].expires ==
                       if now + policy.window as real <= next.items[e.messageId].expires then now + policy.window as real
                       else next.items[e.messageId].expires)
  {
  }

  /** The message that a live pointer of the key names goes, if it is another; no other message does, and
      none changes. */
  lemma FreshPushesOut(s: Center, e: Event, now: real, policy: Policy, id: string)
    requires now < e.occurredAt + policy.ttl as real && policy.ttl > 0 && id != e.messageId
    ensures var next := Materialize(s, e, now, policy);
            var out := e.dedupeKey != "" && e.dedupeKey in s.dedupe && now < s.dedupe[e.dedupeKey].expires
                       && s.dedupe[e.dedupeKey].messageId == id;
            && (id in next.items <==> id in s.items && !out) && (id in next.index <==> id in s.index && !out)
            && (id in next.items ==> next.items[id] == s.items[id])
            && (id in next.index ==> next.index[id] == s.index[id])
  {
  }

  // ----- the invariant -----

  predicate Live(i: Item, now: real) {
    now < i.expires
  }

  /** `t` is at least a window after the item was written, or the item was gone by then. */
  ghost predicate Apart(i: Item, t: real, policy: Policy) {
    i.setAt + policy.window as real <= t || i.expires <= t
  }

  /** Message ids are unique: an id stands for one event. */
  type Registry = map<string, Event>

  ghost predicate Registered(reg: Registry, e: Event) {
    e.messageId in reg && reg[e.messageId] == e
  }

  ghost predicate ItemsOk(s: Center, now: real, reg: Registry) {
    forall id :: id in s.items ==>
      && s.items[id].event.messageId == id && Registered(reg, s.items[id].event)
      && s.items[id].setAt <= now
      && (Live(s.items[id], now) ==> id in s.index)
      && (id in s.index ==> s.index[id] == s.items[id].event.occurredAt)
  }

  /** A pointer names an item of its key, written with it, and outlives neither it nor, alone, the window. */
  ghost predicate PointerOk(s: Center, key: string, policy: Policy)
    requires key in s.dedupe
  {
    var p := s.dedupe[key];
    && key != "" && p.messageId in s.items
    && s.items[p.messageId].event.dedupeKey == key
    && p.setAt == s.items[p.messageId].setAt
    && p.expires <= s.items[p.messageId].expires
    && (p.expires == s.items[p.messageId].expires || p.expires >= p.setAt + policy.window as real)
  }

  ghost predicate PointersOk(s: Center, policy: Policy) {
    forall key :: key in s.dedupe ==> PointerOk(s, key, policy)
  }

  /** Every other item of a key is apart from the one its pointer names. */
  ghost predicate BehindPointer(s: Center, id: string, policy: Policy)
    requires id in s.items
  {
    var i, key := s.items[id], s.items[id].event.dedupeKey;
    key != "" ==>
      && key in s.dedupe && i.setAt <= s.dedupe[key].setAt
      && (s.dedupe[key].messageId == id || Apart(i, s.dedupe[key].setAt, policy))
  }

  ghost predicate SameKey(i: Item, j: Item) {
    i.event.dedupeKey != "" && i.event.dedupeKey == j.event.dedupeKey
  }

  ghost predicate PairApart(s: Center, a: string, b: string, policy: Policy)
    requires a in s.items && b in s.items
  {
    a != b && SameKey(s.items[a], s.items[b]) ==>
      Apart(s.items[a], s.items[b].setAt, policy) || Apart(s.items[b], s.items[a].setAt, policy)
  }

  ghost predicate Inv(s: Center, now: real, policy: Policy, reg: Registry) {
    && ItemsOk(s, now, reg)
    && PointersOk(s, policy)
    && (forall id :: id in s.items ==> BehindPointer(s, id, policy))
    && (forall a, b :: a in s.items && b in s.items ==> PairApart(s, a, b, policy))
  }

  lemma InitialInv(now: real, policy: Policy, reg: Registry)
    ensures Inv(Center(map[], map[], map[]), now, policy, reg)
  {
  }

  lemma ClockMoves(s: Center, now: real, later: real, policy: Policy, reg: Registry)
    requires Inv(s, now, policy, reg) && now <= later
    ensures Inv(s, later, policy, reg)
  {
  }

  /** Once a newer event of its key is written, every item that stays is apart from it. */
  lemma OthersAreApart(s: Center, e: Event, now: real, policy: Policy, reg: Registry, id: string)
    requires Inv(s, now, policy, reg) && e.dedupeKey != ""
    requires id in s.items && id != e.messageId && s.items[id].event.dedupeKey == e.dedupeKey
    requires Displaces(s, e, now) != Some(id)
    ensures Apart(s.items[id], now, policy)
  {
    assert BehindPointer(s, id, policy);
    var key := e.dedupeKey;
    assert PointerOk(s, key, policy);
    assert s.items[s.dedupe[key].messageId].setAt <= now;
  }

  lemma MaterializeItemsOk(s: Center, e: Event, now: real, policy: Policy, reg: Registry)
    requires Inv(s, now, policy, reg) && Registered(reg, e) && !TooOld(e, now, policy)
    ensures ItemsOk(Materialize(s, e, now, policy), now, reg)
  {
  }

  lemma MaterializePointersOk(s: Center, e: Event, now: real, policy: Policy, reg: Registry)
    requires Inv(s, now, policy, reg) && Registered(reg, e) && !TooOld(e, now, policy)
    ensures PointersOk(Materialize(s, e, now, policy), policy)
  {
    var next := Materialize(s, e, now, policy);
    forall key | key in next.dedupe
      ensures PointerOk(next, key, policy)
    {
      if key != e.dedupeKey {
        assert PointerOk(s, key, policy);
        var m := s.dedupe[key].messageId;
        assert Registered(reg, s.items[m].event);
        assert m != e.messageId;
        if e.dedupeKey in s.dedupe {
          assert PointerOk(s, e.dedupeKey, policy);
        }
      }
    }
  }

  lemma MaterializeBehind(s: Center, e: Event, now: real, policy: Policy, reg: Registry, id: string)
    requires Inv(s, now, policy, reg) && Registered(reg, e) && !TooOld(e, now, policy)
    requires id in Materialize(s, e, now, policy).items
    ensures BehindPointer(Materialize(s, e, now, policy), id, policy)
  {
    if id != e.messageId {
      assert BehindPointer(s, id, policy);
      if e.dedupeKey != "" && s.items[id].event.dedupeKey == e.dedupeKey {
        OthersAreApart(s, e, now, policy, reg, id);
      }
    }
  }

  lemma MaterializePairs(s: Center, e: Event, now: real, policy: Policy, reg: Registry, a: string, b: string)
    requires Inv(s, now, policy, reg) && Registered(reg, e) && !TooOld(e, now, policy)
    requires var next := Materialize(s, e, now, policy); a in next.items && b in next.items
    ensures PairApart(Materialize(s, e, now, policy), a, b, policy)
  {
    if a != e.messageId && b != e.messageId {
      assert PairApart(s, a, b, policy);
    } else if a != b {
      var o := if a == e.messageId then b else a;
      if e.dedupeKey != "" && s.items[o].event.dedupeKey == e.dedupeKey {
        OthersAreApart(s, e, now, policy, reg, o);
      }
    }
  }

  lemma MaterializeKeepsInv(s: Center, e: Event, now: real, policy: Policy, reg: Registry)
    requires Inv(s, now, policy, reg) && Registered(reg, e)
    ensures Inv(Materialize(s, e, now, policy), now, policy, reg)
  {
    if !TooOld(e, now, policy) {
      MaterializeItemsOk(s, e, now, policy, reg);
      MaterializePointersOk(s, e, now, policy, reg);
      var next := Materialize(s, e, now, policy);
      forall id | id in next.items
        ensures BehindPointer(next, id, policy)
      {
        MaterializeBehind(s, e, now, policy, reg, id);
      }
      forall a, b | a in next.items && b in next.items
        ensures PairApart(next, a, b, policy)
      {
        MaterializePairs(s, e, now, policy, reg, a, b);
      }
    }
  }

  /** Only ids whose item is gone are dropped. */
  lemma DropStaleKeepsInv(s: Center, stale: set<string>, now: real, policy: Policy, reg: Registry)
    requires Inv(s, now, policy, reg)
    requires forall id :: id in stale && id in s.items ==> !Live(s.items[id], now)
    ensures Inv(DropStale(s, stale), now, policy, reg)
  {
    var next := DropStale(s, stale);
    assert forall id :: id in next.items ==> BehindPointer(s, id, policy);
    assert forall key :: key in next.dedupe ==> PointerOk(s, key, policy);
    assert forall a, b :: a in next.items && b in next.items ==> PairApart(s, a, b, policy);
  }

  // ----- runs -----

  /** A step of the consumer: materialise an event, or clean the index, at a time. */
  datatype Step = Mat(event: Event, at: real) | Clean(stale: set<string>, at: real)

  function Do(s: Center, step: Step, policy: Policy): Center {
    match step
    case Mat(e, now) => Materialize(s, e, now, policy)
    case Clean(stale, now) => DropStale(s, set id | id in stale && !(id in s.items && Live(s.items[id], now)))
  }

  function Run(s: Center, steps: seq<Step>, policy: Policy): Center {
    if steps == [] then s else Do(Run(s, steps[..|steps| - 1], policy), steps[|steps| - 1], policy)
  }

  ghost predicate Monotone(steps: seq<Step>, start: real) {
    && (forall i :: 0 <= i < |steps| ==> start <= steps[i].at)
    && (forall i, j :: 0 <= i < j < |steps| ==> steps[i].at <= steps[j].at)
  }

  function Clock(steps: seq<Step>, start: real): real {
    if steps == [] then start else steps[|steps| - 1].at
  }

  /** A run in two parts. */
  lemma {:induction false} RunSplit(s: Center, first: seq<Step>, second: seq<Step>, policy: Policy)
    ensures Run(s, first + second, policy) == Run(Run(s, first, policy), second, policy)
  {
    if second == [] {
      assert first + second == first;
    } else {
      var n := |second| - 1;
      RunSplit(s, first, second[..n], policy);
      assert (first + second)[..|first + second| - 1] == first + second[..n];
    }
  }

  lemma {:induction false} RunKeepsInv(s: Center, steps: seq<Step>, start: real, policy: Policy, reg: Registry)
    requires Inv(s, start, policy, reg) && Monotone(steps, start)
    requires forall i :: 0 <= i < |steps| && steps[i].Mat? ==> Registered(reg, steps[i].event)
    ensures Inv(Run(s, steps, policy), Clock(steps, start), policy, reg)
  {
    if steps != [] {
      var n := |steps| - 1;
      RunKeepsInv(s, steps[..n], start, policy, reg);
      var mid := Run(s, steps[..n], policy);
      ClockMoves(mid, Clock(steps[..n], start), steps[n].at, policy, reg);
      if steps[n].Mat? {
        MaterializeKeepsInv(mid, steps[n].event, steps[n].at, policy, reg);
      } else {
        var stale := set id | id in steps[n].stale && !(id in mid.items && Live(mid.items[id], steps[n].at));
        DropStaleKeepsInv(mid, stale, steps[n].at, policy, reg);
      }
    }
  }

  /** In every run, at its clock: a live pointer names a live indexed item of its key. */
  lemma LivePointerNamesLiveItem(s: Center, steps: seq<Step>, start: real, policy: Policy, reg: Registry, key: string)
    requires Inv(s, start, policy, reg) && Monotone(steps, start)
    requires forall i :: 0 <= i < |steps| && steps[i].Mat? ==> Registered(reg, steps[i].event)
    ensures var end, now := Run(s, steps, policy), Clock(steps, start);
            var id := LivePointer(end, key, now);
            id.Some? ==> id.value in end.items && Live(end.items[id.value], now) && id.value in end.index
                         && end.items[id.value].event.dedupeKey == key
  {
    RunKeepsInv(s, steps, start, policy, reg);
    var end := Run(s, steps, policy);
    if key in end.dedupe {
      assert PointerOk(end, key, policy);
    }
  }

  /** And two live items of one key were last written at least the window apart. */
  lemma LiveItemsAreApart(s: Center, steps: seq<Step>, start: real, policy: Policy, reg: Registry, a: string, b: string)
    requires Inv(s, start, policy, reg) && Monotone(steps, start)
    requires forall i :: 0 <= i < |steps| && steps[i].Mat? ==> Registered(reg, steps[i].event)
    requires var end, now := Run(s, steps, policy), Clock(steps, start);
             && a in end.items && b in end.items && a != b && SameKey(end.items[a], end.items[b])
             && Live(end.items[a], now) && Live(end.items[b], now)
    ensures var items := Run(s, steps, policy).items;
            || items[a].setAt + policy.window as real <= items[b].setAt
            || items[b].setAt + policy.window as real <= items[a].setAt
  {
    RunKeepsInv(s, steps, start, policy, reg);
    assert PairApart(Run(s, steps, policy), a, b, policy);
  }
}
