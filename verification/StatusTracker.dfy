/**
 The connection status tracker: it publishes changes and swallows repeats, per slot.
 */
module StatusTracker {
  import opened Prelude

  const CONNECTED := "connected"
  const UNKNOWN := "unknown"
  const HOST := "host"

  datatype Transition = Transition(slot: string, statusFrom: string, statusTo: string)

  /** An update with its texts trimmed and lower-cased. */
  datatype Report = Report(slot: string, status: string)

  function SlotOf(r: Report): string {
    if r.slot == "" then HOST else r.slot
  }

  function StatusOf(r: Report): string {
    if r.status == "" then UNKNOWN else r.status
  }

  class Tracker {
    var lastStatus: map<string, string>

    constructor ()
      ensures lastStatus == map[]
    {
      lastStatus := map[];
    }

    method Update(r: Report) returns (published: Option<Transition>)
      modifies this
      ensures lastStatus == old(lastStatus)[SlotOf(r) := StatusOf(r)]
      ensures published == Publishes(old(lastStatus), r)
    {
      var slot, next := SlotOf(r), StatusOf(r);
      var prev: Option<string> := if slot in lastStatus then Some(lastStatus[slot]) else None;
      lastStatus := lastStatus[slot := next];
      if prev == Some(next) {
        return None;
      }
      if prev.None? && next != CONNECTED {
        return None;
      }
      return Some(Transition(slot, if prev.Some? then prev.value else UNKNOWN, next));
    }
  }

  function Publishes(last: map<string, string>, r: Report): Option<Transition> {
    var slot, next := SlotOf(r), StatusOf(r);
    if slot in last then
      if last[slot] == next then None else Some(Transition(slot, last[slot], next))
    else if next == CONNECTED then Some(Transition(slot, UNKNOWN, next))
    else None
  }

  /** An update without a slot is about the host, one without a status says "unknown". */
  lemma BlankReport(last: map<string, string>, status: string)
    ensures Publishes(last, Report("", status)) == Publishes(last, Report("host", status))
    ensures Publishes(map[], Report("", "connected")) == Some(Transition("host", "unknown", "connected"))
    ensures Publishes(map["host" := "connected"], Report("", "")) == Some(Transition("host", "connected", "unknown"))
    ensures Publishes(map["host" := "unknown"], Report("host", "")) == None
  {
  }

  // ----- runs -----

  /** What the tracker holds after a sequence of updates. */
  function After(reports: seq<Report>): map<string, string> {
    if reports == [] then map[]
    else After(reports[..|reports| - 1])[SlotOf(reports[|reports| - 1]) := StatusOf(reports[|reports| - 1])]
  }

  /** The transitions it published for a slot. */
  function Published(reports: seq<Report>, slot: string): seq<Transition> {
    if reports == [] then []
    else
      var n := |reports| - 1;
      var t := Publishes(After(reports[..n]), reports[n]);
      Published(reports[..n], slot) + if t.Some? && t.value.slot == slot then [t.value] else []
  }

  /** The statuses reported for a slot without repeats in a row. */
  function History(reports: seq<Report>, slot: string): seq<string> {
    if reports == [] then []
    else
      var n := |reports| - 1;
      var rest := History(reports[..n], slot);
      if SlotOf(reports[n]) != slot || (rest != [] && rest[|rest| - 1] == StatusOf(reports[n])) then rest
      else rest + [StatusOf(reports[n])]
  }

  /** The moves of a history, and before them the arrival of a first status that is "connected". */
  function MovesOf(history: seq<string>, slot: string): seq<Transition> {
    if history == [] then []
    else if |history| == 1 then if history[0] == CONNECTED then [Transition(slot, UNKNOWN, CONNECTED)] else []
    else
      var n := |history| - 1;
      MovesOf(history[..n], slot) + [Transition(slot, history[n - 1], history[n])]
  }

  lemma {:induction false} HoldsLast(reports: seq<Report>, slot: string)
    ensures var h := History(reports, slot);
            && (slot in After(reports) <==> h != [])
            && (h != [] ==> After(reports)[slot] == h[|h| - 1])
  {
    if reports != [] {
      HoldsLast(reports[..|reports| - 1], slot);
    }
  }

  /** A status that differs from the one held adds the move it publishes. */
  lemma {:induction false} OneMoreMove(last: map<string, string>, rest: seq<string>, r: Report)
    requires SlotOf(r) in last <==> rest != []
    requires rest != [] ==> last[SlotOf(r)] == rest[|rest| - 1] && rest[|rest| - 1] != StatusOf(r)
    ensures var t := Publishes(last, r);
            MovesOf(rest + [StatusOf(r)], SlotOf(r)) == MovesOf(rest, SlotOf(r)) + if t.Some? then [t.value] else []
  {
    MovesGrow(rest, StatusOf(r), SlotOf(r));
    if rest == [] {
      assert MovesOf(rest, SlotOf(r)) == [];
    } else {
      assert Publishes(last, r) == Some(Transition(SlotOf(r), rest[|rest| - 1], StatusOf(r)));
    }
  }

  lemma {:induction false} MovesGrow(rest: seq<string>, status: string, slot: string)
    ensures rest == [] ==> MovesOf(rest + [status], slot) == if status == CONNECTED then [Transition(slot, UNKNOWN, CONNECTED)] else []
    ensures rest != [] ==> MovesOf(rest + [status], slot) == MovesOf(rest, slot) + [Transition(slot, rest[|rest| - 1], status)]
  {
    var h := rest + [status];
    if rest == [] {
      assert |h| == 1 && h[0] == status;
    } else {
      assert h[..|rest|] == rest && h[|rest| - 1] == rest[|rest| - 1] && h[|rest|] == status;
    }
  }

  /** For every sequence of updates the transitions of a slot are exactly the moves of its history. */
  lemma {:induction false} PublishedIsHistory(reports: seq<Report>, slot: string)
    ensures Published(reports, slot) == MovesOf(History(reports, slot), slot)
  {
    if reports != [] {
      var n := |reports| - 1;
      var rest := History(reports[..n], slot);
      PublishedIsHistory(reports[..n], slot);
      HoldsLast(reports[..n], slot);
      if SlotOf(reports[n]) == slot && History(reports, slot) != rest {
        OneMoreMove(After(reports[..n]), rest, reports[n]);
      }
    }
  }

  lemma {:induction false} HistoryHasNoRepeats(reports: seq<Report>, slot: string)
    ensures forall i :: 0 < i < |History(reports, slot)| ==> History(reports, slot)[i - 1] != History(reports, slot)[i]
  {
    if reports != [] {
      HistoryHasNoRepeats(reports[..|reports| - 1], slot);
    }
  }

  lemma {:induction false} MovesAreAt(history: seq<string>, slot: string, i: nat)
    requires 0 < i < |history|
    ensures var m := MovesOf(history, slot);
            var shift := if history[0] == CONNECTED then 0 else 1;
            && |m| == |history| - shift
            && m[i - shift] == Transition(slot, history[i - 1], history[i])
            && (shift == 0 ==> m[0] == Transition(slot, UNKNOWN, CONNECTED))
  {
    var n := |history| - 1;
    if n > 1 {
      MovesAreAt(history[..n], slot, if i < n then i else n - 1);
    }
  }

  /** So they form a chain: each starts where the one before ended, and none stays in place. */
  lemma PublishedIsChain(reports: seq<Report>, slot: string, k: nat)
    requires k < |Published(reports, slot)|
    ensures var t := Published(reports, slot);
            && t[k].slot == slot && t[k].statusFrom != t[k].statusTo
            && (k > 0 ==> t[k].statusFrom == t[k - 1].statusTo)
  {
    PublishedIsHistory(reports, slot);
    HistoryHasNoRepeats(reports, slot);
    var h := History(reports, slot);
    if |h| >= 2 {
      MovesAreAt(h, slot, 1);
      var at := k + if h[0] == CONNECTED then 0 else 1;
      if at > 0 {
        MovesAreAt(h, slot, at);
      }
      if at > 1 {
        MovesAreAt(h, slot, at - 1);
      }
    }
  }
}
