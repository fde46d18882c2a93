/** Rounding to cents: nearest, ties to even, as the built-in `round` does. */
module Rounding {
  /** The nearest whole number; between two, the even one. */
  function RoundHalfEven(v: real): (r: int)
    ensures v - 0.5 <= r as real <= v + 0.5
  {
    var f := v.Floor;
    var d := v - f as real;
    if d < 0.5 then f
    else if d > 0.5 then f + 1
    else if f % 2 == 0 then f
    else f + 1
  }

  /** Nearest to `v`, and even when two are. */
  predicate IsNearest(v: real, r: int) {
    && v - 0.5 <= r as real <= v + 0.5
    && (v - r as real == 0.5 || r as real - v == 0.5 ==> r % 2 == 0)
  }

  /** The rounding is the one whole number with that property. */
  lemma NearestIsUnique(v: real, r: int)
    ensures r == RoundHalfEven(v) <==> IsNearest(v, r)
  {
  }

  function Round2(v: real): (r: real)
    ensures v - 0.005 <= r <= v + 0.005
  {
    RoundHalfEven(v * 100.0) as real / 100.0
  }

  /** A whole number of cents: the nearest one, and the even one when two are as near. */
  lemma Round2IsNearestCent(v: real, cents: int)
    ensures Round2(v) == cents as real / 100.0 <==> IsNearest(v * 100.0, cents)
  {
    NearestIsUnique(v * 100.0, cents);
  }

  /** Rounding keeps order, so the rounded minimum is the minimum of the rounded values. */
  lemma RoundMonotone(u: real, v: real)
    requires u <= v
    ensures Round2(u) <= Round2(v)
  {
    WholeMonotone(u * 100.0, v * 100.0);
  }

  lemma WholeMonotone(a: real, b: real)
    requires a <= b
    ensures RoundHalfEven(a) <= RoundHalfEven(b)
  {
    if a < b {
      assert RoundHalfEven(a) as real <= a + 0.5 < b + 0.5 <= (RoundHalfEven(b) + 1) as real;
    }
  }

  /** A whole number of cents is left alone; in particular rounding twice is rounding once. */
  lemma RoundFixesCents(cents: int)
    ensures Round2(cents as real / 100.0) == cents as real / 100.0
  {
    assert (cents as real / 100.0) * 100.0 == cents as real;
  }

  /** A value of at most half a cent rounds to nothing: the tie goes to the even side. */
  lemma RoundHalfCentDown(v: real)
    requires 0.0 <= v <= 0.005
    ensures Round2(v) == 0.0
  {
    assert 0.0 <= v * 100.0 <= 0.5;
  }
}
