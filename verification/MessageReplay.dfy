/**
 Reprocessing a batch. The consumer's offset is saved after its batch, so a batch can come again;
 `ReplayChangesNothing` says that at the same clock this leaves everything as it is.
 */
module MessageReplay {
  import opened Prelude
  import opened MessageCenter

  function Batch(s: Center, es: seq<Event>, now: real, policy: Policy): Center {
    if es == [] then s else Materialize(Batch(s, es[..|es| - 1], now, policy), es[|es| - 1], now, policy)
  }

  /** The last event of a key that is young enough to be shown. */
  function LastOf(es: seq<Event>, key: string, now: real, policy: Policy): Option<Event> {
    if es == [] then None
    else
      var e := es[|es| - 1];
      if e.dedupeKey == key && !TooOld(e, now, policy) then Some(e) else LastOf(es[..|es| - 1], key, now, policy)
  }

  /** The event of an id in the batch, if it is young enough. */
  function EntryOf(es: seq<Event>, id: string, now: real, policy: Policy): Option<Event> {
    if es == [] then None
    else
      var e := es[|es| - 1];
      if e.messageId == id && !TooOld(e, now, policy) then Some(e) else EntryOf(es[..|es| - 1], id, now, policy)
  }

  function Get<T>(m: map<string, T>, k: string): Option<T> {
    if k in m then Some(m[k]) else None
  }

  /** The batch pushes out a message that was there before it. */
  ghost predicate PushedOut(s: Center, es: seq<Event>, now: real, policy: Policy, id: string) {
    exists key :: key != "" && LastOf(es, key, now, policy).Some? && LivePointer(s, key, now) == Some(id)
  }

  /** Whether an id is present after the batch, and from where. */
  datatype Fate = FromBatch(event: Event) | Kept | Gone

  ghost function FateOf(s: Center, es: seq<Event>, now: real, policy: Policy, id: string): Fate {
    var e := EntryOf(es, id, now, policy);
    if e.Some? then
      if e.value.dedupeKey == "" || LastOf(es, e.value.dedupeKey, now, policy) == e then FromBatch(e.value) else Gone
    else if PushedOut(s, es, now, policy, id) then Gone
    else Kept
  }

  ghost predicate AllRegistered(reg: Registry, es: seq<Event>) {
    forall i :: 0 <= i < |es| ==> Registered(reg, es[i])
  }

  lemma {:induction false} LastOfIs(es: seq<Event>, key: string, now: real, policy: Policy, reg: Registry)
    requires AllRegistered(reg, es)
    ensures var e := LastOf(es, key, now, policy);
            e.Some? ==> e.value.dedupeKey == key && Registered(reg, e.value)
                        && EntryOf(es, e.value.messageId, now, policy) == e
  {
    if es != [] {
      LastOfIs(es[..|es| - 1], key, now, policy, reg);
    }
  }

  lemma {:induction false} EntryOfIs(es: seq<Event>, id: string, now: real, policy: Policy, reg: Registry)
    requires AllRegistered(reg, es)
    ensures var e := EntryOf(es, id, now, policy);
            e.Some? ==> e.value.messageId == id && Registered(reg, e.value) && LastOf(es, e.value.dedupeKey, now, policy).Some?
  {
    if es != [] {
      EntryOfIs(es[..|es| - 1], id, now, policy, reg);
    }
  }

  /** After the batch a key's pointer is that of its last event, else untouched. */
  lemma {:induction false} BatchPointers(s: Center, es: seq<Event>, now: real, policy: Policy, key: string)
    requires key != ""
    ensures var e := LastOf(es, key, now, policy);
            Get(Batch(s, es, now, policy).dedupe, key) ==
              if e.Some? then Some(PointerTo(e.value, now, policy)) else Get(s.dedupe, key)
  {
    if es != [] {
      BatchPointers(s, es[..|es| - 1], now, policy, key);
    }
  }

  lemma {:induction false} BatchNoBlankPointer(s: Center, es: seq<Event>, now: real, policy: Policy)
    ensures Get(Batch(s, es, now, policy).dedupe, "") == Get(s.dedupe, "")
  {
    if es != [] {
      BatchNoBlankPointer(s, es[..|es| - 1], now, policy);
    }
  }

  /** Pointers of the state before the batch name messages of their own key. */
  ghost predicate PointersNamed(s: Center, reg: Registry) {
    forall key :: key in s.dedupe ==>
      key != "" && s.dedupe[key].messageId in reg && reg[s.dedupe[key].messageId].dedupeKey == key
  }

  lemma InvNamesPointers(s: Center, now: real, policy: Policy, reg: Registry)
    requires Inv(s, now, policy, reg)
    ensures PointersNamed(s, reg)
  {
    forall key | key in s.dedupe
      ensures key != "" && s.dedupe[key].messageId in reg && reg[s.dedupe[key].messageId].dedupeKey == key
    {
      assert PointerOk(s, key, policy);
      assert Registered(reg, s.items[s.dedupe[key].messageId].event);
    }
  }

  /** The message the next event finds its key pointing at. */
  lemma PointerBefore(s: Center, es: seq<Event>, now: real, policy: Policy, key: string)
    requires key != ""
    ensures var f := LastOf(es, key, now, policy);
            LivePointer(Batch(s, es, now, policy), key, now) ==
              if f.Some? then Some(f.value.messageId) else LivePointer(s, key, now)
  {
    BatchPointers(s, es, now, policy, key);
    var b := Batch(s, es, now, policy);
    assert Get(b.dedupe, key).Some? <==> key in b.dedupe;
  }

  /** One more event, seen from one message. */
  lemma FateStep(s: Center, es: seq<Event>, e: Event, now: real, policy: Policy, reg: Registry, id: string)
    requires PointersNamed(s, reg) && AllRegistered(reg, es) && Registered(reg, e) && !TooOld(e, now, policy)
    ensures var f := FateOf(s, es + [e], now, policy, id);
            if id == e.messageId then f == FromBatch(e)
            else if Displaces(Batch(s, es, now, policy), e, now) == Some(id) then f == Gone
            else f == FateOf(s, es, now, policy, id)
  {
    assert (es + [e])[..|es|] == es;
    EntryOfIs(es, id, now, policy, reg);
    if id != e.messageId {
      if e.dedupeKey != "" {
        PointerBefore(s, es, now, policy, e.dedupeKey);
        LastOfIs(es, e.dedupeKey, now, policy, reg);
      }
      PushedOutStep(s, es, e, now, policy, id);
    }
  }

  lemma PushedOutStep(s: Center, es: seq<Event>, e: Event, now: real, policy: Policy, id: string)
    requires !TooOld(e, now, policy)
    ensures PushedOut(s, es + [e], now, policy, id) <==>
              PushedOut(s, es, now, policy, id) || (e.dedupeKey != "" && LivePointer(s, e.dedupeKey, now) == Some(id))
  {
    assert (es + [e])[..|es|] == es;
    if key :| key != "" && LastOf(es, key, now, policy).Some? && LivePointer(s, key, now) == Some(id) {
      assert LastOf(es + [e], key, now, policy).Some?;
    }
    if e.dedupeKey != "" && LivePointer(s, e.dedupeKey, now) == Some(id) {
      assert LastOf(es + [e], e.dedupeKey, now, policy).Some?;
    }
  }

  /** Where every message stands after the batch. */
  lemma {:induction false} BatchFates(s: Center, es: seq<Event>, now: real, policy: Policy, reg: Registry, id: string)
    requires PointersNamed(s, reg) && AllRegistered(reg, es)
    ensures var b := Batch(s, es, now, policy);
            match FateOf(s, es, now, policy, id)
            case FromBatch(e) => Get(b.items, id) == Some(ItemOf(e, now, policy)) && Get(b.index, id) == Some(e.occurredAt)
            case Kept => Get(b.items, id) == Get(s.items, id) && Get(b.index, id) == Get(s.index, id)
            case Gone => id !in b.items && id !in b.index
  {
    if es != [] {
      var n := |es| - 1;
      assert es == es[..n] + [es[n]];
      BatchFates(s, es[..n], now, policy, reg, id);
      if TooOld(es[n], now, policy) {
        SkippedFate(s, es[..n], es[n], now, policy, id);
      } else {
        FateStep(s, es[..n], es[n], now, policy, reg, id);
      }
    }
  }

  lemma SkippedFate(s: Center, es: seq<Event>, e: Event, now: real, policy: Policy, id: string)
    requires TooOld(e, now, policy)
    ensures FateOf(s, es + [e], now, policy, id) == FateOf(s, es, now, policy, id)
  {
    assert (es + [e])[..|es|] == es;
    assert forall key :: LastOf(es + [e], key, now, policy) == LastOf(es, key, now, policy);
  }

  /** After the batch its keys point into the batch, so it can push nothing more out. */
  lemma NothingMoreToPush(s: Center, es: seq<Event>, now: real, policy: Policy, reg: Registry, id: string)
    requires PointersNamed(s, reg) && AllRegistered(reg, es) && EntryOf(es, id, now, policy).None?
    ensures !PushedOut(Batch(s, es, now, policy), es, now, policy, id)
  {
    var b := Batch(s, es, now, policy);
    forall key | key != "" && LastOf(es, key, now, policy).Some?
      ensures LivePointer(b, key, now) != Some(id)
    {
      PointerBefore(s, es, now, policy, key);
      LastOfIs(es, key, now, policy, reg);
    }
  }

  lemma {:induction false} BatchPointersNamed(s: Center, es: seq<Event>, now: real, policy: Policy, reg: Registry)
    requires PointersNamed(s, reg) && AllRegistered(reg, es)
    ensures PointersNamed(Batch(s, es, now, policy), reg)
  {
    if es != [] {
      BatchPointersNamed(s, es[..|es| - 1], now, policy, reg);
    }
  }

  /** Reprocessing the batch at the same clock leaves index, items and pointers exactly as they are. */
  lemma ReplayChangesNothing(s: Center, es: seq<Event>, now: real, policy: Policy, reg: Registry)
    requires Inv(s, now, policy, reg) && AllRegistered(reg, es)
    ensures Batch(Batch(s, es, now, policy), es, now, policy) == Batch(s, es, now, policy)
  {
    InvNamesPointers(s, now, policy, reg);
    BatchPointersNamed(s, es, now, policy, reg);
    var once := Batch(s, es, now, policy);
    var twice := Batch(once, es, now, policy);
    forall id: string
      ensures Get(twice.items, id) == Get(once.items, id) && Get(twice.index, id) == Get(once.index, id)
    {
      BatchFates(s, es, now, policy, reg, id);
      BatchFates(once, es, now, policy, reg, id);
      if EntryOf(es, id, now, policy).None? {
        NothingMoreToPush(s, es, now, policy, reg, id);
      }
    }
    forall key: string
      ensures Get(twice.dedupe, key) == Get(once.dedupe, key)
    {
      if key != "" {
        BatchPointers(s, es, now, policy, key);
        BatchPointers(once, es, now, policy, key);
      } else {
        BatchNoBlankPointer(once, es, now, policy);
      }
    }
    SameEntries(twice.items, once.items);
    SameEntries(twice.index, once.index);
    SameEntries(twice.dedupe, once.dedupe);
  }

  lemma SameEntries<T>(m: map<string, T>, n: map<string, T>)
    requires forall k: string :: Get(m, k) == Get(n, k)
    ensures m == n
  {
    forall k: string
      ensures k in m <==> k in n
      ensures k in m ==> m[k] == n[k]
    {
      assert Get(m, k) == Get(n, k);
    }
  }
}
