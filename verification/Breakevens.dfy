/**
 Breakeven prices, read off the grid segment by segment.

 The list that is reported rounds the crossings it interpolates to cents and leaves the grid
 points it hits as they are. The claims are about the list before rounding, `AllZeros`: exact zeros,
 in order, none missed up to the end of the grid apart from stretches where the payoff is zero
 throughout, and how often each is listed.
 */
module Breakevens {
  import opened Prelude
  import opened PayoffModel
  import opened PiecewiseLinear
  import opened Grid
  import opened Rounding

  /** One end of the segment is a gain or zero and the other a loss. */
  predicate Crosses(a: real, b: real) {
    (a >= 0.0 && b < 0.0) || (a < 0.0 && b >= 0.0)
  }

  /** How far into a segment of width `w` the straight line from `f0` to `f1` is zero. */
  function ZeroOffset(f0: real, f1: real, w: real): real
    requires Crosses(f0, f1)
  {
    f0 / (f0 - f1) * w
  }

  function Crossing(a: GridRow, b: GridRow): real
    requires Crosses(a.total, b.total)
  {
    a.price + ZeroOffset(a.total, b.total, b.price - a.price)
  }

  lemma OffsetWithin(f0: real, f1: real, w: real)
    requires w > 0.0 && Crosses(f0, f1)
    ensures 0.0 <= ZeroOffset(f0, f1, w) <= w
    ensures f1 == 0.0 ==> ZeroOffset(f0, f1, w) == w
  {
    var t := f0 / (f0 - f1);
    assert t * (f0 - f1) == f0;
    assert 0.0 <= t <= 1.0 by {
      if f0 >= 0.0 { assert f0 <= f0 - f1; } else { assert f0 >= f0 - f1; }
    }
  }

  lemma OffsetIsZero(f0: real, f1: real, m: int, w: real)
    requires w > 0.0 && f1 == Line(f0, m, w) && Crosses(f0, f1)
    ensures Line(f0, m, ZeroOffset(f0, f1, w)) == 0.0
  {
    var t := f0 / (f0 - f1);
    var k := m as real;
    assert t * (f0 - f1) == f0;
    assert k * w == f1 - f0;
    assert k * (t * w) == t * (k * w);
  }

  lemma OffsetIsOnlyZero(f0: real, f1: real, m: int, w: real, u: real)
    requires w > 0.0 && f1 == Line(f0, m, w) && Crosses(f0, f1) && Line(f0, m, u) == 0.0
    ensures u == ZeroOffset(f0, f1, w)
  {
    OffsetIsZero(f0, f1, m, w);
    var z := ZeroOffset(f0, f1, w);
    assert m as real * (u - z) == 0.0;
    assert m != 0;
  }

  /** The crossing is the one zero of its segment. */
  lemma CrossingIsTheZero(book: Book, a: real, b: real)
    requires a < b && NoStrikeBetween(book.legs, a, b) && Crosses(Payoff(book, a), Payoff(book, b))
    ensures var c := Crossing(RowAt(book, a), RowAt(book, b));
            && a <= c <= b && Payoff(book, c) == 0.0
            && (Payoff(book, b) == 0.0 ==> c == b)
    ensures forall x: real :: a <= x <= b && Payoff(book, x) == 0.0 ==> x == Crossing(RowAt(book, a), RowAt(book, b))
  {
    var f0, f1, m, w := Payoff(book, a), Payoff(book, b), Slope(book, a), b - a;
    var c := Crossing(RowAt(book, a), RowAt(book, b));
    PayoffAffine(book, a, b);
    OffsetWithin(f0, f1, w);
    OffsetIsZero(f0, f1, m, w);
    PayoffAffine(book, a, c);
    assert c - a == ZeroOffset(f0, f1, w);
    forall x: real | a <= x <= b && Payoff(book, x) == 0.0
      ensures x == c
    {
      PayoffAffine(book, a, x);
      OffsetIsOnlyZero(f0, f1, m, w, x - a);
    }
  }

  /** Without a sign change a segment has no zero in its interior unless both ends are zero. */
  lemma NoInnerZero(book: Book, a: real, b: real, x: real)
    requires a < x < b && NoStrikeBetween(book.legs, a, b)
    requires !Crosses(Payoff(book, a), Payoff(book, b)) && Payoff(book, x) == 0.0
    ensures Payoff(book, a) == 0.0 && Payoff(book, b) == 0.0
  {
    PayoffAffine(book, a, b);
    PayoffAffine(book, a, x);
    var f0, m := Payoff(book, a), Slope(book, a);
    LineMonotone(f0, m, x - a, b - a);
    LineStrict(f0, m, x - a);
    LineStrict(f0, m, b - a);
    assert m != 0 ==> Line(f0, m, b - a) != Line(f0, m, x - a) by {
      assert m != 0 ==> m as real * (b - x) != 0.0;
    }
  }

  /** `x` is strictly inside a grid segment on which the payoff is zero at both ends. */
  ghost predicate InFlatSegment(book: Book, x: real) {
    var g := GridPrices(book.legs);
    exists i :: 0 <= i < |g| - 1 && InFlat(book, g[i], g[i + 1], x)
  }

  ghost predicate InFlat(book: Book, a: real, b: real, x: real) {
    a < x < b && Payoff(book, a) == 0.0 && Payoff(book, b) == 0.0
  }

  /** Every zero in the open range (0, bound) is listed or lies in a flat stretch. */
  ghost predicate CompleteBelow(book: Book, zeros: seq<real>, bound: real) {
    forall x: real :: 0.0 < x < bound && Payoff(book, x) == 0.0 ==> x in zeros || InFlatSegment(book, x)
  }

  ghost predicate Complete(book: Book, zeros: seq<real>) {
    forall x: real :: 0.0 < x <= Last(GridPrices(book.legs)) && Payoff(book, x) == 0.0 ==>
      x in zeros || InFlatSegment(book, x)
  }

  ghost predicate ExactZeros(book: Book, zeros: seq<real>) {
    forall k :: 0 <= k < |zeros| ==> zeros[k] >= 0.0 && Payoff(book, zeros[k]) == 0.0
  }

  ghost predicate NonDecreasing(s: seq<real>) {
    forall i, j :: 0 <= i < j < |s| ==> s[i] <= s[j]
  }

  /** Reported values are the exact ones to the cent; only a grid price may be reported as it is. */
  ghost predicate RoundingOf(book: Book, reported: seq<real>, exact: seq<real>) {
    |reported| == |exact| &&
    forall k :: 0 <= k < |exact| ==>
      reported[k] == Round2(exact[k]) || (reported[k] == exact[k] && exact[k] in GridPrices(book.legs))
  }

  ghost predicate RowsOfGrid(book: Book, rows: seq<GridRow>) {
    && |rows| == |GridPrices(book.legs)|
    && forall i :: 0 <= i < |rows| ==> rows[i] == RowAt(book, GridPrices(book.legs)[i])
  }

  /** What the loop has established once the first `i` segments are done. */
  ghost predicate Progress(book: Book, exact: seq<real>, i: nat)
    requires i < |GridPrices(book.legs)|
  {
    var g := GridPrices(book.legs);
    && ExactZeros(book, exact)
    && NonDecreasing(exact)
    && (forall k :: 0 <= k < |exact| ==> exact[k] <= g[i])
    && CompleteBelow(book, exact, g[i])
    && (i > 0 && Payoff(book, g[i]) == 0.0 ==> forall k :: 0 <= k < |exact| ==> exact[k] <= g[i - 1] || exact[k] == g[i])
  }

  /** The zeros one segment contributes, before rounding. */
  function SegmentZeros(a: GridRow, b: GridRow): seq<real> {
    if Crosses(a.total, b.total) then
      if b.price != a.price then [Crossing(a, b)] else []
    else if a.total == 0.0 && a.price > 0.0 then [a.price]
    else []
  }

  /** A zero that starts in the segment, or is inside it, is contributed or lies in a flat stretch. */
  lemma SegmentMissesNothing(book: Book, i: nat, x: real)
    requires PositiveStrikes(book.legs) && i + 1 < |GridPrices(book.legs)|
    requires var g := GridPrices(book.legs); g[i] <= x < g[i + 1] && 0.0 < x && Payoff(book, x) == 0.0
    ensures var g := GridPrices(book.legs);
            x in SegmentZeros(RowAt(book, g[i]), RowAt(book, g[i + 1])) || InFlatSegment(book, x)
  {
    NeighboursAreKinkFree(book.legs, i);
    var g := GridPrices(book.legs);
    var a, b := g[i], g[i + 1];
    if Crosses(Payoff(book, a), Payoff(book, b)) {
      CrossingIsTheZero(book, a, b);
    } else if x != a {
      NoInnerZero(book, a, b, x);
      assert InFlat(book, g[i], g[i + 1], x);
    }
  }

  /** What a segment contributes: at most one zero, inside it, and at its end when the end is one. */
  lemma SegmentZerosFit(book: Book, i: nat)
    requires PositiveStrikes(book.legs) && i + 1 < |GridPrices(book.legs)|
    ensures var g := GridPrices(book.legs);
            var more := SegmentZeros(RowAt(book, g[i]), RowAt(book, g[i + 1]));
            && 0.0 <= g[i] < g[i + 1]
            && |more| <= 1
            && (more != [] ==>
                  && g[i] <= more[0] <= g[i + 1] && Payoff(book, more[0]) == 0.0
                  && (Payoff(book, g[i + 1]) == 0.0 ==> more[0] == g[i] || more[0] == g[i + 1]))
  {
    GridShape(book.legs);
    NeighboursAreKinkFree(book.legs, i);
    var g := GridPrices(book.legs);
    assert g[i] >= 0.0 by { assert i == 0 || g[0] < g[i]; }
    if Crosses(Payoff(book, g[i]), Payoff(book, g[i + 1])) {
      CrossingIsTheZero(book, g[i], g[i + 1]);
    }
  }

  lemma SegmentStep(book: Book, exact: seq<real>, i: nat)
    requires PositiveStrikes(book.legs) && i + 1 < |GridPrices(book.legs)|
    requires Progress(book, exact, i)
    ensures var g := GridPrices(book.legs);
            Progress(book, exact + SegmentZeros(RowAt(book, g[i]), RowAt(book, g[i + 1])), i + 1)
  {
    var g := GridPrices(book.legs);
    var more := SegmentZeros(RowAt(book, g[i]), RowAt(book, g[i + 1]));
    SegmentZerosFit(book, i);
    assert CompleteBelow(book, exact + more, g[i + 1]) by {
      forall x: real | 0.0 < x < g[i + 1] && Payoff(book, x) == 0.0
        ensures x in exact + more || InFlatSegment(book, x)
      {
        if x < g[i] {
          assert x in exact || InFlatSegment(book, x);
        } else {
          SegmentMissesNothing(book, i, x);
        }
      }
    }
  }

  // ----- how often a zero is listed -----

  /** What one segment adds to the reported list. */
  function SegmentReported(a: GridRow, b: GridRow): seq<real> {
    if Crosses(a.total, b.total) then
      if b.price != a.price then [Round2(Crossing(a, b))] else []
    else if a.total == 0.0 && a.price > 0.0 then [a.price]
    else []
  }

  function ZerosAt(book: Book, j: nat): seq<real>
    requires j + 1 < |GridPrices(book.legs)|
  {
    SegmentZeros(RowAt(book, GridPrices(book.legs)[j]), RowAt(book, GridPrices(book.legs)[j + 1]))
  }

  function ReportedAt(book: Book, j: nat): seq<real>
    requires j + 1 < |GridPrices(book.legs)|
  {
    SegmentReported(RowAt(book, GridPrices(book.legs)[j]), RowAt(book, GridPrices(book.legs)[j + 1]))
  }

  /** The zeros of the first `n` segments, and what is reported for them. */
  function ZerosTo(book: Book, n: nat): seq<real>
    requires n < |GridPrices(book.legs)|
  {
    if n == 0 then [] else ZerosTo(book, n - 1) + ZerosAt(book, n - 1)
  }

  function ReportedTo(book: Book, n: nat): seq<real>
    requires n < |GridPrices(book.legs)|
  {
    if n == 0 then [] else ReportedTo(book, n - 1) + ReportedAt(book, n - 1)
  }

  ghost predicate ReportsZero(book: Book, reported: seq<real>, a: real, b: real, c: real) {
    a <= c <= b && Payoff(book, c) == 0.0 && reported == [Round2(c)]
  }

  /** What is reported for a segment, by the payoff at its ends: from a gain or zero to a loss, or from a loss
      to a gain or zero, its zero to the cent; else its first price as it is, if that is a zero above zero;
      else nothing. */
  lemma SegmentReports(book: Book, j: nat)
    requires PositiveStrikes(book.legs) && j + 1 < |GridPrices(book.legs)|
    ensures var g := GridPrices(book.legs);
            var a, b, more := g[j], g[j + 1], ReportedAt(book, j);
            if Payoff(book, a) >= 0.0 && Payoff(book, b) < 0.0 then exists c :: ReportsZero(book, more, a, b, c)
            else if Payoff(book, a) < 0.0 && Payoff(book, b) >= 0.0 then exists c :: ReportsZero(book, more, a, b, c)
            else more == if Payoff(book, a) == 0.0 && a > 0.0 then [a] else []
  {
    GridShape(book.legs);
    NeighboursAreKinkFree(book.legs, j);
    var g := GridPrices(book.legs);
    if Crosses(Payoff(book, g[j]), Payoff(book, g[j + 1])) {
      CrossingIsTheZero(book, g[j], g[j + 1]);
      assert ReportsZero(book, ReportedAt(book, j), g[j], g[j + 1], Crossing(RowAt(book, g[j]), RowAt(book, g[j + 1])));
    }
  }

  lemma {:induction false} RoundingTo(book: Book, n: nat)
    requires n < |GridPrices(book.legs)|
    ensures RoundingOf(book, ReportedTo(book, n), ZerosTo(book, n))
  {
    if n > 0 {
      RoundingTo(book, n - 1);
    }
  }

  lemma {:induction false} ProgressTo(book: Book, n: nat)
    requires PositiveStrikes(book.legs) && n < |GridPrices(book.legs)|
    ensures Progress(book, ZerosTo(book, n), n)
  {
    if n > 0 {
      ProgressTo(book, n - 1);
      SegmentStep(book, ZerosTo(book, n - 1), n - 1);
    } else {
      GridShape(book.legs);
    }
  }

  /** The payoff rises to the grid point `i` from a loss. */
  predicate FromLoss(book: Book, i: nat)
    requires 0 < i < |GridPrices(book.legs)|
  {
    Payoff(book, GridPrices(book.legs)[i - 1]) < 0.0
  }

  /** A zero at a grid point is listed once for the segment it starts, and once more for the segment it ends
      when the payoff comes to it from a loss. The last point starts no segment: it is added unless the
      reported list holds it, which it does when the crossing onto it is a whole number of cents. */
  function TimesListed(book: Book, i: nat): nat
    requires 0 < i < |GridPrices(book.legs)|
  {
    var g := GridPrices(book.legs);
    if i < |g| - 1 then if FromLoss(book, i) then 2 else 1
    else if FromLoss(book, i) && Round2(g[i]) != g[i] then 2 else 1
  }

  /** Every zero at a grid point is listed that often, every other once. */
  ghost predicate ListedAsOften(book: Book, zeros: seq<real>) {
    var g := GridPrices(book.legs);
    && (forall i :: 0 < i < |g| && Payoff(book, g[i]) == 0.0 ==> multiset(zeros)[g[i]] == TimesListed(book, i))
    && (forall x :: x in zeros && x !in g ==> multiset(zeros)[x] == 1)
  }

  /** What a segment contributes at a grid point. */
  lemma GridZeroOf(book: Book, i: nat, j: nat)
    requires PositiveStrikes(book.legs) && 0 < i < |GridPrices(book.legs)| && j + 1 < |GridPrices(book.legs)|
    requires Payoff(book, GridPrices(book.legs)[i]) == 0.0
    ensures var x, more := GridPrices(book.legs)[i], ZerosAt(book, j);
            multiset(more)[x] == if j == i || (j + 1 == i && FromLoss(book, i)) then 1 else 0
  {
    GridShape(book.legs);
    NeighboursAreKinkFree(book.legs, j);
    var g := GridPrices(book.legs);
    SegmentZerosFit(book, j);
    assert j < i ==> g[j] < g[i];
    assert j > i ==> g[j] > g[i];
    assert j + 1 < i ==> g[j + 1] < g[i];
    if Crosses(Payoff(book, g[j]), Payoff(book, g[j + 1])) {
      CrossingIsTheZero(book, g[j], g[j + 1]);
    }
  }

  lemma {:induction false} GridZeroCount(book: Book, i: nat, n: nat)
    requires PositiveStrikes(book.legs) && 0 < i < |GridPrices(book.legs)| && n < |GridPrices(book.legs)|
    requires Payoff(book, GridPrices(book.legs)[i]) == 0.0
    ensures multiset(ZerosTo(book, n))[GridPrices(book.legs)[i]] ==
              (if n >= i && FromLoss(book, i) then 1 else 0) + (if n > i then 1 else 0)
  {
    if n > 0 {
      GridZeroCount(book, i, n - 1);
      GridZeroOf(book, i, n - 1);
    }
  }

  /** A zero off the grid comes from the one segment it lies in. */
  lemma {:induction false} InnerZeroCount(book: Book, x: real, n: nat)
    requires PositiveStrikes(book.legs) && n < |GridPrices(book.legs)| && x !in GridPrices(book.legs)
    ensures multiset(ZerosTo(book, n))[x] <= 1
    ensures multiset(ZerosTo(book, n))[x] > 0 ==> x < GridPrices(book.legs)[n]
  {
    if n > 0 {
      InnerZeroCount(book, x, n - 1);
      InnerZeroOf(book, x, n - 1);
    }
  }

  lemma InnerZeroOf(book: Book, x: real, j: nat)
    requires PositiveStrikes(book.legs) && j + 1 < |GridPrices(book.legs)| && x !in GridPrices(book.legs)
    ensures multiset(ZerosAt(book, j))[x] <= 1
    ensures GridPrices(book.legs)[j] < GridPrices(book.legs)[j + 1]
    ensures multiset(ZerosAt(book, j))[x] > 0 ==> GridPrices(book.legs)[j] < x < GridPrices(book.legs)[j + 1]
  {
    SegmentZerosFit(book, j);
    var g, more := GridPrices(book.legs), ZerosAt(book, j);
    assert g[j] in g && g[j + 1] in g;
    assert more != [] ==> more == [more[0]];
  }

  /** Nothing reported for the segments before the last one is the last grid price. */
  lemma {:induction false} EarlierIsNotLast(book: Book, n: nat)
    requires PositiveStrikes(book.legs) && n + 1 < |GridPrices(book.legs)|
    ensures Last(GridPrices(book.legs)) !in ReportedTo(book, n)
  {
    if n > 0 {
      EarlierIsNotLast(book, n - 1);
      SegmentIsNotLast(book, n - 1);
    }
  }

  lemma SegmentIsNotLast(book: Book, j: nat)
    requires PositiveStrikes(book.legs) && j + 2 < |GridPrices(book.legs)|
    ensures Last(GridPrices(book.legs)) !in ReportedAt(book, j)
  {
    GridShape(book.legs);
    var g := GridPrices(book.legs);
    var top := g[|g| - 2];
    assert g[j + 1] <= top && Last(g) == 2.0 * top;
    SegmentZerosFit(book, j);
    if Crosses(Payoff(book, g[j]), Payoff(book, g[j + 1])) {
      RoundsBelowDouble(Crossing(RowAt(book, g[j]), RowAt(book, g[j + 1])), top);
    }
  }

  /** Nothing up to a positive price rounds to its double. */
  lemma RoundsBelowDouble(c: real, top: real)
    requires 0.0 <= c <= top && top > 0.0
    ensures Round2(c) != 2.0 * top
  {
    if c <= 0.005 {
      RoundHalfCentDown(c);
    }
  }

  /** When the last grid price is already in the reported list. */
  lemma LastReportedIff(book: Book)
    requires PositiveStrikes(book.legs) && |GridPrices(book.legs)| > 1
    requires Payoff(book, Last(GridPrices(book.legs))) == 0.0
    ensures var g := GridPrices(book.legs);
            Last(g) in ReportedTo(book, |g| - 1) <==> FromLoss(book, |g| - 1) && Round2(Last(g)) == Last(g)
  {
    GridShape(book.legs);
    var g := GridPrices(book.legs);
    var n := |g| - 1;
    EarlierIsNotLast(book, n - 1);
    NeighboursAreKinkFree(book.legs, n - 1);
    if FromLoss(book, n) {
      CrossingIsTheZero(book, g[n - 1], g[n]);
    }
  }

  /** The last grid price is added: it is a zero and not in the reported list. */
  predicate AddsLast(book: Book) {
    var g := GridPrices(book.legs);
    Payoff(book, Last(g)) == 0.0 && Last(g) > 0.0 && Last(g) !in ReportedTo(book, |g| - 1)
  }

  /** The whole list before rounding. */
  function AllZeros(book: Book): seq<real> {
    var g := GridPrices(book.legs);
    ZerosTo(book, |g| - 1) + if AddsLast(book) then [Last(g)] else []
  }

  lemma ListedTimes(book: Book)
    requires PositiveStrikes(book.legs)
    ensures ListedAsOften(book, AllZeros(book))
  {
    GridShape(book.legs);
    var g := GridPrices(book.legs);
    forall i | 0 < i < |g| && Payoff(book, g[i]) == 0.0
      ensures multiset(AllZeros(book))[g[i]] == TimesListed(book, i)
    {
      GridZeroTotal(book, i);
    }
    forall x | x in AllZeros(book) && x !in g
      ensures multiset(AllZeros(book))[x] == 1
    {
      InnerZeroCount(book, x, |g| - 1);
    }
  }

  lemma GridZeroTotal(book: Book, i: nat)
    requires PositiveStrikes(book.legs) && 0 < i < |GridPrices(book.legs)|
    requires Payoff(book, GridPrices(book.legs)[i]) == 0.0
    ensures multiset(AllZeros(book))[GridPrices(book.legs)[i]] == TimesListed(book, i)
  {
    GridShape(book.legs);
    var g := GridPrices(book.legs);
    var n := |g| - 1;
    GridZeroCount(book, i, n);
    assert g[0] < g[n] && (i < n ==> g[i] < g[n]);
    if i == n {
      LastReportedIff(book);
    }
  }

  lemma AllZerosAreZeros(book: Book)
    requires PositiveStrikes(book.legs)
    ensures ExactZeros(book, AllZeros(book)) && NonDecreasing(AllZeros(book)) && Complete(book, AllZeros(book))
  {
    var g := GridPrices(book.legs);
    var n := |g| - 1;
    var zeros := ZerosTo(book, n);
    ProgressTo(book, n);
    assert CompleteBelow(book, zeros, Last(g));
    if Payoff(book, Last(g)) == 0.0 && Last(g) > 0.0 && !AddsLast(book) {
      RoundingTo(book, n);
      ListedMeansExact(book, zeros, ReportedTo(book, n));
    }
  }

  /** The list reported is the rounding of the book's zeros: exact, in order, none missed, each as often as
      said above. */
  ghost predicate AreBreakevens(book: Book, reported: seq<real>) {
    exists exact :: RoundingOf(book, reported, exact) &&
      (PositiveStrikes(book.legs) ==>
         ExactZeros(book, exact) && NonDecreasing(exact) && Complete(book, exact) && ListedAsOften(book, exact))
  }

  lemma ReportedAreBreakevens(book: Book, reported: seq<real>)
    requires var g := GridPrices(book.legs);
             reported == ReportedTo(book, |g| - 1) + if AddsLast(book) then [Last(g)] else []
    ensures AreBreakevens(book, reported)
  {
    var g := GridPrices(book.legs);
    RoundingTo(book, |g| - 1);
    assert RoundingOf(book, reported, AllZeros(book));
    if PositiveStrikes(book.legs) {
      AllZerosAreZeros(book);
      ListedTimes(book);
    }
  }

  method FindBreakevens(book: Book, rows: seq<GridRow>) returns (reported: seq<real>)
    requires RowsOfGrid(book, rows)
    ensures AreBreakevens(book, reported)
    ensures var g := GridPrices(book.legs);
            reported == ReportedTo(book, |g| - 1) + if AddsLast(book) then [Last(g)] else []
  {
    reported := [];
    for i := 0 to |rows| - 1
      invariant reported == ReportedTo(book, i)
    {
      var a, b := rows[i], rows[i + 1];
      ReportedStep(book, rows, i);
      if Crosses(a.total, b.total) {
        if b.price != a.price {
          reported := reported + [Round2(Crossing(a, b))];
        }
      } else if a.total == 0.0 && a.price > 0.0 {
        reported := reported + [a.price];
      }
    }
    var last := rows[|rows| - 1];
    if last.total == 0.0 && last.price > 0.0 {
      if last.price !in reported {
        reported := reported + [last.price];
      }
    }
    LastStep(book, rows);
    ReportedAreBreakevens(book, reported);
  }

  lemma ReportedStep(book: Book, rows: seq<GridRow>, i: nat)
    requires RowsOfGrid(book, rows) && i + 1 < |rows|
    ensures ReportedTo(book, i + 1) == ReportedTo(book, i) + SegmentReported(rows[i], rows[i + 1])
  {
  }

  lemma LastStep(book: Book, rows: seq<GridRow>)
    requires RowsOfGrid(book, rows)
    ensures rows[|rows| - 1].price == Last(GridPrices(book.legs))
    ensures AddsLast(book) <==>
              var last := rows[|rows| - 1];
              last.total == 0.0 && last.price > 0.0 && last.price !in ReportedTo(book, |rows| - 1)
  {
  }

  /** When the last grid point is a zero and is in the reported list, it is there for itself and not
      because another crossing was rounded onto it. */
  lemma ListedMeansExact(book: Book, exact: seq<real>, reported: seq<real>)
    requires PositiveStrikes(book.legs) && RoundingOf(book, reported, exact)
    requires var g := GridPrices(book.legs);
             Progress(book, exact, |g| - 1) && Last(g) in reported && Last(g) > 0.0 && Payoff(book, Last(g)) == 0.0
    ensures Last(GridPrices(book.legs)) in exact
  {
    GridShape(book.legs);
    var g := GridPrices(book.legs);
    var n := |g| - 1;
    assert n > 0 && g[n] == 2.0 * g[n - 1];
    NotRoundedOnto(book, exact, reported, g[n - 1], g[n]);
  }

  lemma NotRoundedOnto(book: Book, exact: seq<real>, reported: seq<real>, top: real, last: real)
    requires RoundingOf(book, reported, exact) && last in reported && top > 0.0 && last == 2.0 * top
    requires forall k :: 0 <= k < |exact| ==> 0.0 <= exact[k] && (exact[k] <= top || exact[k] == last)
    ensures last in exact
  {
    var k :| 0 <= k < |reported| && reported[k] == last;
    if exact[k] != last {
      RoundsBelowDouble(exact[k], top);
    }
  }

  lemma TwoStrikeGrid(a: Leg, b: Leg)
    requires 0.0 < a.strike < b.strike
    ensures GridPrices([a, b]) == [0.0, a.strike, b.strike, b.strike * 2.0]
  {
    var legs, x, y := [a, b], a.strike, b.strike;
    assert legs[..1] == [a] && [a][..0] == [];
    assert DistinctStrikes([]) == [] && InsertDistinct([], x) == [x] && InsertDistinct([], y) == [y];
    assert DistinctStrikes([a]) == [x];
    assert [x][1..] == [] && InsertDistinct([x], y) == [x, y];
    assert DistinctStrikes(legs) == [x, y];
  }

  lemma TwoCalls(a: Leg, b: Leg)
    requires a == Leg(10.0, Call, 1, 10.0, None) && b == Leg(20.0, Call, 1, 0.0, None)
    ensures Payoff(Book([a, b], 0, None), 10.0) == -1000.0 && Payoff(Book([a, b], 0, None), 20.0) == 0.0
  {
    assert [a, b] == [a] + [b];
    OneLeg(a, 10.0);
    OneLeg(a, 20.0);
    OneMoreLeg([a], b, 10.0);
    OneMoreLeg([a], b, 20.0);
    assert LegPayoff(a, 10.0) == -1000.0 && LegPayoff(b, 10.0) == 0.0;
    assert LegPayoff(a, 20.0) == 0.0 && LegPayoff(b, 20.0) == 0.0;
  }

  /** A strike the payoff comes to from a loss, and is zero at, is listed twice. */
  lemma StrikeListedTwice()
    ensures var book := Book([Leg(10.0, Call, 1, 10.0, None), Leg(20.0, Call, 1, 0.0, None)], 0, None);
            multiset(AllZeros(book))[20.0] == 2
  {
    var a, b := Leg(10.0, Call, 1, 10.0, None), Leg(20.0, Call, 1, 0.0, None);
    TwoStrikeGrid(a, b);
    TwoCalls(a, b);
    GridZeroTotal(Book([a, b], 0, None), 2);
  }

  /** Past the grid nothing is listed; the payoff has a zero there exactly in these cases. */
  lemma ZeroBeyondGrid(book: Book)
    requires PositiveStrikes(book.legs)
    ensures var f, m := Payoff(book, Last(GridPrices(book.legs))), TailSlope(book);
            (exists x: real :: x > Last(GridPrices(book.legs)) && Payoff(book, x) == 0.0)
            <==> (m > 0 && f < 0.0) || (m < 0 && f > 0.0) || (m == 0 && f == 0.0)
  {
    GridShape(book.legs);
    var last := Last(GridPrices(book.legs));
    var f, m := Payoff(book, last), TailSlope(book);
    if x: real :| x > last && Payoff(book, x) == 0.0 {
      PayoffTail(book, last, x);
      LineStrict(f, m, x - last);
    }
    if (m > 0 && f < 0.0) || (m < 0 && f > 0.0) || (m == 0 && f == 0.0) {
      var d := LineHitsZero(f, m);
      PayoffTail(book, last, last + d);
      assert Payoff(book, last + d) == 0.0;
    }
  }

  lemma LineStrict(start: real, m: int, d: real)
    requires d > 0.0
    ensures m > 0 ==> Line(start, m, d) > start
    ensures m < 0 ==> Line(start, m, d) < start
    ensures m == 0 ==> Line(start, m, d) == start
  {
  }

  lemma LineHitsZero(start: real, m: int) returns (d: real)
    requires (m > 0 && start < 0.0) || (m < 0 && start > 0.0) || (m == 0 && start == 0.0)
    ensures d > 0.0 && Line(start, m, d) == 0.0
  {
    if m == 0 {
      d := 1.0;
    } else {
      d := -start / m as real;
      assert m as real * d == -start;
    }
  }
}
