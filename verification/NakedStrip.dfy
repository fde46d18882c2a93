/**
 Removing naked short calls from a book, highest strike first.

 A removal is a vector: how many contracts each leg gives up. `StripNakedShortCalls` is the
 greedy loop over the legs sorted by falling strike. Of what the short calls owe, that order leaves
 the most (`GreedyKeepsMostLiability`); the premium that goes with the contracts is another matter
 (`RiskProfile.StripDifference`).
 */
module NakedStrip {
  import opened PayoffModel

  /** Contracts a leg is short as a call, else none. */
  function ShortContracts(leg: Leg): nat {
    if leg.right.Call? && leg.qty < 0 then -leg.qty else 0
  }

  function TotalShort(legs: seq<Leg>): nat {
    if legs == [] then 0 else TotalShort(legs[..|legs| - 1]) + ShortContracts(legs[|legs| - 1])
  }

  function Sum(d: seq<nat>): nat {
    if d == [] then 0 else Sum(d[..|d| - 1]) + d[|d| - 1]
  }

  ghost predicate IsRemoval(legs: seq<Leg>, d: seq<nat>) {
    |d| == |legs| && forall i :: 0 <= i < |d| ==> d[i] <= ShortContracts(legs[i])
  }

  /** A leg less some of its short contracts. */
  function Less(leg: Leg, contracts: nat): Leg {
    leg.(qty := leg.qty + contracts)
  }

  /** The legs left after a removal: a leg that gives up everything goes, the others keep their place. */
  function Stripped(legs: seq<Leg>, d: seq<nat>): seq<Leg>
    requires |d| == |legs|
  {
    if legs == [] then []
    else
      var n := |legs| - 1;
      var rest := Stripped(legs[..n], d[..n]);
      if d[n] > 0 && legs[n].qty + d[n] == 0 then rest else rest + [Less(legs[n], d[n])]
  }

  lemma LessNothing(leg: Leg)
    ensures Less(leg, 0) == leg
  {
  }

  // ----- the order of the greedy loop -----

  /** Leg `i` is taken before leg `j`: higher strike first, equal strikes in book order. */
  predicate Before(legs: seq<Leg>, i: nat, j: nat)
    requires i < |legs| && j < |legs|
  {
    legs[i].strike > legs[j].strike || (legs[i].strike == legs[j].strike && i < j)
  }

  ghost predicate InOrder(legs: seq<Leg>, order: seq<nat>) {
    && (forall p :: 0 <= p < |order| ==> order[p] < |legs|)
    && forall p, q :: 0 <= p < q < |order| ==> Before(legs, order[p], order[q])
  }

  function InsertByStrike(legs: seq<Leg>, order: seq<nat>, i: nat): (r: seq<nat>)
    requires InOrder(legs, order) && i < |legs|
    requires forall p :: 0 <= p < |order| ==> order[p] < i
    ensures InOrder(legs, r)
    ensures forall j: nat :: j in r <==> j == i || j in order
  {
    if order == [] then [i]
    else if legs[order[0]].strike >= legs[i].strike then
      var rest := InsertByStrike(legs, order[1..], i);
      assert forall p :: 0 <= p < |rest| ==> Before(legs, order[0], rest[p]) by {
        forall p | 0 <= p < |rest| ensures Before(legs, order[0], rest[p]) {
          assert rest[p] in rest;
        }
      }
      assert order == [order[0]] + order[1..];
      [order[0]] + rest
    else [i] + order
  }

  /** The short calls among the first `n` legs, by falling strike (a stable sort). */
  function ShortCallOrder(legs: seq<Leg>, n: nat): (r: seq<nat>)
    requires n <= |legs|
    ensures InOrder(legs, r)
    ensures forall j: nat :: j in r <==> j < n && ShortContracts(legs[j]) > 0
  {
    if n == 0 then []
    else
      var rest := ShortCallOrder(legs, n - 1);
      assert forall p :: 0 <= p < |rest| ==> rest[p] in rest;
      if ShortContracts(legs[n - 1]) > 0 then InsertByStrike(legs, rest, n - 1) else rest
  }

  /** No leg gives up a contract while a leg before it still has one. */
  ghost predicate HighestFirst(legs: seq<Leg>, d: seq<nat>)
    requires |d| == |legs|
  {
    forall i, j :: 0 <= i < |legs| && 0 <= j < |legs| && d[i] > 0 && Before(legs, j, i) ==> d[j] == ShortContracts(legs[j])
  }

  // ----- the loop -----

  lemma SumOfTwo(x: nat, y: nat)
    ensures Sum([x, y]) == x + y
  {
    assert [x, y][..1] == [x] && [x][..0] == [];
    assert Sum([x]) == x;
  }

  lemma {:induction false} SumUpdate(d: seq<nat>, i: nat, v: nat)
    requires i < |d|
    ensures Sum(d[i := v]) == Sum(d) - d[i] + v
  {
    var n := |d| - 1;
    if i == n {
      assert d[i := v][..n] == d[..n];
    } else {
      SumUpdate(d[..n], i, v);
      assert d[i := v][..n] == d[..n][i := v];
    }
  }

  lemma {:induction false} SumZeros(d: seq<nat>)
    requires forall i :: 0 <= i < |d| ==> d[i] == 0
    ensures Sum(d) == 0
  {
    if d != [] {
      SumZeros(d[..|d| - 1]);
    }
  }

  lemma {:induction false} SumBound(legs: seq<Leg>, d: seq<nat>)
    requires IsRemoval(legs, d)
    ensures Sum(d) <= TotalShort(legs)
    ensures (forall i :: 0 <= i < |d| ==> d[i] == ShortContracts(legs[i])) ==> Sum(d) == TotalShort(legs)
  {
    if d != [] {
      SumBound(legs[..|d| - 1], d[..|d| - 1]);
    }
  }

  function Abs(a: int): int {
    if a >= 0 then a else -a
  }

  function Min(a: int, b: int): int {
    if a <= b then a else b
  }

  /** What the greedy loop has done after `k` legs of the order. */
  ghost predicate Taken(legs: seq<Leg>, order: seq<nat>, d: seq<nat>, k: nat, rem: int)
    requires InOrder(legs, order) && k <= |order|
  {
    && IsRemoval(legs, d)
    && (forall p :: 0 <= p < k - 1 ==> d[order[p]] == ShortContracts(legs[order[p]]))
    && (rem > 0 && k > 0 ==> d[order[k - 1]] == ShortContracts(legs[order[k - 1]]))
    && (forall p :: k <= p < |order| ==> d[order[p]] == 0)
  }

  /** The invariant of the greedy loop. */
  ghost predicate LoopState(legs: seq<Leg>, order: seq<nat>, d: seq<nat>, newQty: map<nat, int>, k: nat, contracts: int, rem: int)
  {
    && InOrder(legs, order) && k <= |order| && rem >= 0
    && Taken(legs, order, d, k, rem)
    && Sum(d) == contracts - rem
    && Records(legs, d, newQty)
  }

  lemma LoopStart(legs: seq<Leg>, order: seq<nat>, d: seq<nat>, contracts: nat)
    requires InOrder(legs, order) && |d| == |legs| && forall i :: 0 <= i < |d| ==> d[i] == 0
    ensures LoopState(legs, order, d, map[], 0, contracts, contracts)
  {
    SumZeros(d);
  }

  lemma LoopStep(legs: seq<Leg>, order: seq<nat>, d: seq<nat>, newQty: map<nat, int>, k: nat, contracts: int, rem: int)
    requires LoopState(legs, order, d, newQty, k, contracts, rem) && k < |order| && rem > 0
    requires ShortContracts(legs[order[k]]) > 0
    ensures var i := order[k];
            var dec := Min(rem, ShortContracts(legs[i]));
            LoopState(legs, order, d[i := dec], newQty[i := legs[i].qty + dec], k + 1, contracts, rem - dec)
  {
    TakeOne(legs, order, d, k, rem);
  }

  lemma LoopEnd(legs: seq<Leg>, order: seq<nat>, d: seq<nat>, newQty: map<nat, int>, k: nat, contracts: nat, rem: int)
    requires LoopState(legs, order, d, newQty, k, contracts, rem) && (k == |order| || rem == 0)
    requires order == ShortCallOrder(legs, |legs|)
    ensures IsRemoval(legs, d) && HighestFirst(legs, d)
    ensures Sum(d) == Min(contracts, TotalShort(legs))
    ensures Records(legs, d, newQty)
  {
    TakenIsHighestFirst(legs, order, d, k, rem);
    SumBound(legs, d);
  }

  lemma TakeOne(legs: seq<Leg>, order: seq<nat>, d: seq<nat>, k: nat, rem: int)
    requires InOrder(legs, order) && k < |order| && rem > 0 && Taken(legs, order, d, k, rem)
    ensures var i := order[k];
            var dec := Min(rem, ShortContracts(legs[i]));
            && Taken(legs, order, d[i := dec], k + 1, rem - dec)
            && Sum(d[i := dec]) == Sum(d) + dec
  {
    var i := order[k];
    var dec := Min(rem, ShortContracts(legs[i]));
    forall p | 0 <= p < |order| && p != k
      ensures order[p] != i
    {
      assert if p < k then Before(legs, order[p], order[k]) else Before(legs, order[k], order[p]);
    }
    SumUpdate(d, i, dec);
  }

  /** Where a short call stands in the order. */
  lemma PlaceOf(legs: seq<Leg>, i: nat) returns (p: nat)
    requires i < |legs| && ShortContracts(legs[i]) > 0
    ensures p < |ShortCallOrder(legs, |legs|)| && ShortCallOrder(legs, |legs|)[p] == i
  {
    var order := ShortCallOrder(legs, |legs|);
    assert i in order;
    p :| 0 <= p < |order| && order[p] == i;
  }

  lemma TakenIsHighestFirst(legs: seq<Leg>, order: seq<nat>, d: seq<nat>, k: nat, rem: int)
    requires order == ShortCallOrder(legs, |legs|) && k <= |order| && Taken(legs, order, d, k, rem)
    ensures HighestFirst(legs, d)
    ensures rem > 0 && k == |order| ==> Sum(d) == TotalShort(legs)
  {
    forall i, j | 0 <= i < |legs| && 0 <= j < |legs| && d[i] > 0 && Before(legs, j, i)
      ensures d[j] == ShortContracts(legs[j])
    {
      if ShortContracts(legs[j]) > 0 {
        var p := PlaceOf(legs, i);
        var q := PlaceOf(legs, j);
        assert p < k;
        assert q < p;
      }
    }
    if rem > 0 && k == |order| {
      forall i | 0 <= i < |legs|
        ensures d[i] == ShortContracts(legs[i])
      {
        if ShortContracts(legs[i]) > 0 {
          var p := PlaceOf(legs, i);
        }
      }
      SumBound(legs, d);
    }
  }

  /** New quantities for the legs the loop touches, and the removal they stand for. */
  ghost predicate Records(legs: seq<Leg>, d: seq<nat>, newQty: map<nat, int>)
    requires |d| == |legs|
  {
    && (forall i: nat :: i in newQty <==> i < |legs| && d[i] > 0)
    && (forall i: nat :: i in newQty ==> newQty[i] == legs[i].qty + d[i])
  }

  /** A highest-first removal of the contracts asked for, or of all there are. There is only one:
      `GreedyIsUnique`. */
  ghost predicate IsGreedy(legs: seq<Leg>, contracts: int, d: seq<nat>) {
    && IsRemoval(legs, d) && HighestFirst(legs, d)
    && Sum(d) == if contracts <= 0 then 0 else Min(contracts, TotalShort(legs))
  }

  /** The greedy loop. */
  method TakeHighestFirst(legs: seq<Leg>, contracts: nat) returns (newQty: map<nat, int>)
    ensures exists d :: IsGreedy(legs, contracts, d) && Records(legs, d, newQty)
  {
    ghost var d: seq<nat> := seq(|legs|, i => 0);
    newQty := map[];
    var order := ShortCallOrder(legs, |legs|);
    var rem: int := contracts;
    var k := 0;
    LoopStart(legs, order, d, contracts);
    while k < |order| && rem > 0
      invariant LoopState(legs, order, d, newQty, k, contracts, rem)
    {
      var i := order[k];
      assert i in order;
      LoopStep(legs, order, d, newQty, k, contracts, rem);
      var dec := Min(rem, Abs(legs[i].qty));
      newQty := newQty[i := legs[i].qty + dec];
      d := d[i := dec];
      rem := rem - dec;
      k := k + 1;
    }
    LoopEnd(legs, order, d, newQty, k, contracts, rem);
    assert IsGreedy(legs, contracts, d);
  }

  method StripNakedShortCalls(legs: seq<Leg>, contracts: int) returns (out: seq<Leg>)
    ensures exists d :: IsGreedy(legs, contracts, d) && out == Stripped(legs, d)
  {
    if contracts <= 0 {
      ghost var none: seq<nat> := seq(|legs|, i => 0);
      SumZeros(none);
      StrippedByNothing(legs, none);
      assert IsGreedy(legs, contracts, none);
      return legs;
    }
    var newQty := TakeHighestFirst(legs, contracts);
    ghost var d :| IsGreedy(legs, contracts, d) && Records(legs, d, newQty);
    out := [];
    for i := 0 to |legs|
      invariant out == Stripped(legs[..i], d[..i])
    {
      if i in newQty {
        if newQty[i] != 0 {
          out := out + [legs[i].(qty := newQty[i])];
        }
      } else {
        out := out + [legs[i]];
        LessNothing(legs[i]);
      }
      assert legs[..i + 1][..i] == legs[..i] && d[..i + 1][..i] == d[..i];
    }
    assert legs[..|legs|] == legs && d[..|legs|] == d;
  }

  /** Taking at least as much everywhere and more somewhere takes more in all. */
  lemma {:induction false} SumDominates(d: seq<nat>, e: seq<nat>, i: nat)
    requires |d| == |e| && i < |d| && d[i] > e[i]
    requires forall j :: 0 <= j < |d| ==> d[j] >= e[j]
    ensures Sum(d) > Sum(e)
  {
    var n := |d| - 1;
    if i < n {
      SumDominates(d[..n], e[..n], i);
    } else {
      SumAtLeast(d[..n], e[..n]);
    }
  }

  lemma {:induction false} SumAtLeast(d: seq<nat>, e: seq<nat>)
    requires |d| == |e| && forall j :: 0 <= j < |d| ==> d[j] >= e[j]
    ensures Sum(d) >= Sum(e)
  {
    if d != [] {
      SumAtLeast(d[..|d| - 1], e[..|d| - 1]);
    }
  }

  /** A highest-first removal that takes more from one leg takes more in all. */
  lemma MoreAtOneMoreInAll(legs: seq<Leg>, d: seq<nat>, e: seq<nat>, i: nat)
    requires IsRemoval(legs, d) && HighestFirst(legs, d) && IsRemoval(legs, e) && HighestFirst(legs, e)
    requires i < |legs| && d[i] > e[i]
    ensures Sum(d) > Sum(e)
  {
    forall j | 0 <= j < |legs|
      ensures d[j] >= e[j]
    {
      assert j == i || Before(legs, j, i) || Before(legs, i, j);
    }
    SumDominates(d, e, i);
  }

  /** The size of a highest-first removal determines it, so it determines the legs that remain. */
  lemma GreedyIsUnique(legs: seq<Leg>, contracts: int, d: seq<nat>, e: seq<nat>)
    requires IsGreedy(legs, contracts, d) && IsGreedy(legs, contracts, e)
    ensures d == e
  {
    forall i | 0 <= i < |legs|
      ensures d[i] == e[i]
    {
      if d[i] > e[i] {
        MoreAtOneMoreInAll(legs, d, e, i);
      } else if e[i] > d[i] {
        MoreAtOneMoreInAll(legs, e, d, i);
      }
    }
  }

  /** What the order means for two legs: while one gives up a contract, every short call with a higher strike,
      and every one before it with the same strike, has given up all of its own. */
  lemma GreedyTakesFirst(legs: seq<Leg>, contracts: int, d: seq<nat>, i: nat, j: nat)
    requires IsGreedy(legs, contracts, d) && i < |legs| && j < |legs| && d[j] > 0
    requires legs[i].strike > legs[j].strike || (legs[i].strike == legs[j].strike && i < j)
    requires legs[i].right.Call? && legs[i].qty < 0
    ensures d[i] == -legs[i].qty
  {
  }

  lemma {:induction false} StrippedByNothing(legs: seq<Leg>, d: seq<nat>)
    requires |d| == |legs| && forall i :: 0 <= i < |d| ==> d[i] == 0
    ensures Stripped(legs, d) == legs
  {
    if legs != [] {
      var n := |legs| - 1;
      StrippedByNothing(legs[..n], d[..n]);
      LessNothing(legs[n]);
    }
  }

  // ----- what is left -----

  /** Everything but the short calls, in order. */
  function OtherLegs(legs: seq<Leg>): seq<Leg> {
    if legs == [] then []
    else
      var n := |legs| - 1;
      OtherLegs(legs[..n]) + if ShortContracts(legs[n]) > 0 then [] else [legs[n]]
  }

  /** `origin[k]` is the leg that `out[k]` comes from: same leg, same place, only contracts taken off. */
  ghost predicate ComesFrom(legs: seq<Leg>, d: seq<nat>, out: seq<Leg>, origin: seq<nat>)
    requires |d| == |legs|
  {
    && |origin| == |out|
    && (forall p, q :: 0 <= p < q < |origin| ==> origin[p] < origin[q])
    && (forall k :: 0 <= k < |out| ==> origin[k] < |legs| && out[k] == legs[origin[k]].(qty := legs[origin[k]].qty + d[origin[k]]))
  }

  /** The legs that are left are the original ones in their order, and none changes side. */
  lemma {:induction false} StrippedShape(legs: seq<Leg>, d: seq<nat>) returns (origin: seq<nat>)
    requires IsRemoval(legs, d)
    ensures ComesFrom(legs, d, Stripped(legs, d), origin)
    ensures StillShort(legs, Stripped(legs, d), origin)
  {
    origin := [];
    if legs != [] {
      var n := |legs| - 1;
      var earlier := StrippedShape(legs[..n], d[..n]);
      origin := if |Stripped(legs, d)| == |earlier| then earlier else earlier + [n];
      StrippedStep(legs, d);
      ShapeStep(legs, d, Stripped(legs[..n], d[..n]), Stripped(legs, d), earlier);
    }
  }

  ghost predicate StillShort(legs: seq<Leg>, out: seq<Leg>, origin: seq<nat>)
    requires |origin| == |out| && forall k :: 0 <= k < |origin| ==> origin[k] < |legs|
  {
    forall k :: 0 <= k < |origin| && ShortContracts(legs[origin[k]]) > 0 ==> out[k].qty < 0
  }

  /** What the last leg adds to the legs that are left. */
  lemma StrippedStep(legs: seq<Leg>, d: seq<nat>)
    requires |d| == |legs| && legs != []
    ensures var n := |legs| - 1;
            Stripped(legs, d) == Stripped(legs[..n], d[..n]) + if d[n] > 0 && legs[n].qty + d[n] == 0 then [] else [Less(legs[n], d[n])]
  {
  }

  lemma ShapeStep(legs: seq<Leg>, d: seq<nat>, rest: seq<Leg>, out: seq<Leg>, earlier: seq<nat>)
    requires IsRemoval(legs, d) && legs != []
    requires var n := |legs| - 1;
             && ComesFrom(legs[..n], d[..n], rest, earlier) && StillShort(legs[..n], rest, earlier)
             && out == rest + if d[n] > 0 && legs[n].qty + d[n] == 0 then [] else [Less(legs[n], d[n])]
    ensures var origin := if |out| == |rest| then earlier else earlier + [|legs| - 1];
            ComesFrom(legs, d, out, origin) && StillShort(legs, out, origin)
  {
    var n := |legs| - 1;
    Widen(legs, d, rest, earlier);
    if d[n] > 0 && legs[n].qty + d[n] == 0 {
      assert out == rest;
    } else {
      Append(legs, d, rest, earlier, Less(legs[n], d[n]));
    }
  }

  lemma Widen(legs: seq<Leg>, d: seq<nat>, out: seq<Leg>, origin: seq<nat>)
    requires |d| == |legs| && legs != []
    requires var n := |legs| - 1; ComesFrom(legs[..n], d[..n], out, origin) && StillShort(legs[..n], out, origin)
    ensures ComesFrom(legs, d, out, origin) && StillShort(legs, out, origin)
    ensures forall k :: 0 <= k < |origin| ==> origin[k] < |legs| - 1
  {
    var n := |legs| - 1;
    forall k | 0 <= k < |origin|
      ensures legs[..n][origin[k]] == legs[origin[k]] && d[..n][origin[k]] == d[origin[k]] && origin[k] < n
    {
    }
  }

  lemma Append(legs: seq<Leg>, d: seq<nat>, out: seq<Leg>, origin: seq<nat>, leg: Leg)
    requires |d| == |legs| && legs != []
    requires ComesFrom(legs, d, out, origin) && StillShort(legs, out, origin)
    requires var n := |legs| - 1;
             && (forall k :: 0 <= k < |origin| ==> origin[k] < n)
             && leg == Less(legs[n], d[n])
             && (ShortContracts(legs[n]) > 0 ==> leg.qty < 0)
    ensures ComesFrom(legs, d, out + [leg], origin + [|legs| - 1])
    ensures StillShort(legs, out + [leg], origin + [|legs| - 1])
  {
  }

  /** Legs that are not short calls are all still there; exactly the removed contracts are gone. */
  lemma {:induction false} StrippedCounts(legs: seq<Leg>, d: seq<nat>)
    requires IsRemoval(legs, d)
    ensures OtherLegs(Stripped(legs, d)) == OtherLegs(legs)
    ensures TotalShort(Stripped(legs, d)) == TotalShort(legs) - Sum(d)
    ensures LongCallShares(Stripped(legs, d)) == LongCallShares(legs)
  {
    if legs != [] {
      var n := |legs| - 1;
      StrippedCounts(legs[..n], d[..n]);
      var rest, out := Stripped(legs[..n], d[..n]), Stripped(legs, d);
      if |out| == |rest| + 1 {
        assert out[..|rest|] == rest;
      }
    }
  }

  lemma {:induction false} ShortSharesAreContracts(legs: seq<Leg>)
    ensures ShortCallShares(legs) == 100 * TotalShort(legs)
  {
    if legs != [] {
      ShortSharesAreContracts(legs[..|legs| - 1]);
    }
  }

  lemma {:induction false} StrippedStrikes(legs: seq<Leg>, d: seq<nat>)
    requires |d| == |legs| && PositiveStrikes(legs)
    ensures PositiveStrikes(Stripped(legs, d))
  {
    if legs != [] {
      StrippedStrikes(legs[..|legs| - 1], d[..|legs| - 1]);
    }
  }

  // ----- the exchange argument -----

  /** `v` taken `n` times. */
  function Times(n: int, v: real): real
    decreases if n < 0 then -n else n
  {
    if n == 0 then 0.0 else if n > 0 then Times(n - 1, v) + v else Times(n + 1, v) - v
  }

  lemma {:induction false} TimesIsProduct(n: int, v: real)
    ensures Times(n, v) == n as real * v
    decreases if n < 0 then -n else n
  {
    if n > 0 {
      TimesIsProduct(n - 1, v);
    } else if n < 0 {
      TimesIsProduct(n + 1, v);
    }
  }

  lemma TimesSum(m: int, n: int, v: real)
    ensures Times(m, v) + Times(n, v) == Times(m + n, v)
  {
    TimesIsProduct(m, v);
    TimesIsProduct(n, v);
    TimesIsProduct(m + n, v);
  }

  lemma {:induction false} TimesMonotone(n: int, v: real, w: real)
    requires (n >= 0 && v >= w) || (n <= 0 && v <= w) || v == w
    ensures Times(n, v) >= Times(n, w)
    decreases if n < 0 then -n else n
  {
    if n > 0 {
      TimesMonotone(n - 1, v, w);
    } else if n < 0 {
      TimesMonotone(n + 1, v, w);
    }
  }

  /** What the short calls owe at a price, per the intrinsic value of their contracts. */
  function ShortCallLiability(legs: seq<Leg>, price: real): real {
    if legs == [] then 0.0
    else
      var n := |legs| - 1;
      ShortCallLiability(legs[..n], price) + Times(100 * ShortContracts(legs[n]), Max(price - legs[n].strike, 0.0))
  }

  function KeptLiability(legs: seq<Leg>, d: seq<nat>, price: real): real
    requires |d| == |legs|
  {
    if legs == [] then 0.0
    else
      var n := |legs| - 1;
      KeptLiability(legs[..n], d[..n], price)
      + Times(100 * (ShortContracts(legs[n]) - d[n]), Max(price - legs[n].strike, 0.0))
  }

  lemma {:induction false} KeptIsLiability(legs: seq<Leg>, d: seq<nat>, price: real)
    requires IsRemoval(legs, d)
    ensures ShortCallLiability(Stripped(legs, d), price) == KeptLiability(legs, d, price)
  {
    if legs != [] {
      var n := |legs| - 1;
      KeptIsLiability(legs[..n], d[..n], price);
      var rest, out := Stripped(legs[..n], d[..n]), Stripped(legs, d);
      if |out| == |rest| + 1 {
        assert out[..|rest|] == rest;
      } else {
        assert ShortContracts(legs[n]) - d[n] == 0;
      }
    }
  }

  lemma ExchangeTerm(short: int, d: int, e: int, v: real, pivot: real)
    requires (v <= pivot && e <= d) || (v >= pivot && e >= d) || v == pivot
    ensures Times(100 * (short - d), v) - Times(100 * (short - e), v) >= Times(100 * (e - d), pivot)
  {
    TimesSum(100 * (short - e), 100 * (e - d), v);
    assert 100 * (short - e) + 100 * (e - d) == 100 * (short - d);
    TimesMonotone(100 * (e - d), v, pivot);
  }

  /** Relative to a pivot strike, taking from above and sparing below costs no liability. */
  lemma {:induction false} ExchangeAtPivot(legs: seq<Leg>, d: seq<nat>, e: seq<nat>, pivot: real, price: real)
    requires IsRemoval(legs, d) && IsRemoval(legs, e)
    requires forall i :: 0 <= i < |legs| && legs[i].strike > pivot ==> d[i] == ShortContracts(legs[i])
    requires forall i :: 0 <= i < |legs| && legs[i].strike < pivot ==> d[i] == 0
    ensures KeptLiability(legs, d, price) - KeptLiability(legs, e, price)
         >= Times(100 * (Sum(e) - Sum(d)), Max(price - pivot, 0.0))
  {
    if legs != [] {
      var n := |legs| - 1;
      ExchangeAtPivot(legs[..n], d[..n], e[..n], pivot, price);
      ExchangeTerm(ShortContracts(legs[n]), d[n], e[n], Max(price - legs[n].strike, 0.0), Max(price - pivot, 0.0));
      var dn: int, en: int := d[n], e[n];
      TimesSum(100 * (Sum(e[..n]) - Sum(d[..n])), 100 * (en - dn), Max(price - pivot, 0.0));
      assert 100 * (Sum(e[..n]) - Sum(d[..n])) + 100 * (en - dn) == 100 * (Sum(e) - Sum(d));
    }
  }

  /** The strike at which a highest-first removal stops. */
  lemma PivotExists(legs: seq<Leg>, d: seq<nat>) returns (pivot: real)
    requires IsRemoval(legs, d) && HighestFirst(legs, d) && legs != []
    ensures forall i :: 0 <= i < |legs| && legs[i].strike > pivot ==> d[i] == ShortContracts(legs[i])
    ensures forall i :: 0 <= i < |legs| && legs[i].strike < pivot ==> d[i] == 0
  {
    var found, top := false, legs[0].strike;
    pivot := top;
    for k := 0 to |legs|
      invariant forall i :: 0 <= i < k ==> legs[i].strike <= top
      invariant found ==> exists j :: 0 <= j < k && d[j] > 0 && legs[j].strike == pivot
      invariant found ==> forall i :: 0 <= i < k && legs[i].strike < pivot ==> d[i] == 0
      invariant !found ==> forall i :: 0 <= i < k ==> d[i] == 0
    {
      if legs[k].strike > top {
        top := legs[k].strike;
      }
      if d[k] > 0 && (!found || legs[k].strike < pivot) {
        found, pivot := true, legs[k].strike;
      }
    }
    if !found {
      pivot := top;
    }
  }

  /**
   Among all ways of giving up the same number of short-call contracts, highest strike first leaves
   the largest remaining liability, at every price.
   */
  lemma GreedyKeepsMostLiability(legs: seq<Leg>, d: seq<nat>, e: seq<nat>, price: real)
    requires IsRemoval(legs, d) && HighestFirst(legs, d)
    requires IsRemoval(legs, e) && Sum(e) == Sum(d)
    ensures ShortCallLiability(Stripped(legs, d), price) >= ShortCallLiability(Stripped(legs, e), price)
  {
    KeptIsLiability(legs, d, price);
    KeptIsLiability(legs, e, price);
    if legs != [] {
      var pivot := PivotExists(legs, d);
      ExchangeAtPivot(legs, d, e, pivot, price);
      assert Sum(e) - Sum(d) == 0;
    }
  }
}
