/** The two named segments and the filter that selects, in index order, the
    points lying in the chosen rectangle. */
module Zones {
  import opened Points

  /** An axis-aligned rectangle (xMin, xMax, yMin, yMax). */
  datatype Zone = Zone(xMin: real, xMax: real, yMin: real, yMax: real)

  /** The two segments a user can pick. */
  datatype Segment = StrikeZone | AllPoints

  /** What a range slider over [0, 1] can return: a pair lo <= hi inside [0, 1]. */
  predicate SliderRange(r: (real, real)) {
    0.0 <= r.0 <= r.1 <= 1.0
  }

  predicate WellOrdered(z: Zone) {
    z.xMin <= z.xMax && z.yMin <= z.yMax
  }

  /** The closed unit square, the "All Points" segment. */
  const UnitSquare: Zone := Zone(0.0, 1.0, 0.0, 1.0)

  /** Inclusive membership on all four sides. */
  predicate Contains(z: Zone, x: real, y: real) {
    z.xMin <= x <= z.xMax && z.yMin <= y <= z.yMax
  }

  /** Every point of `inner` is a point of `outer`. */
  predicate Within(inner: Zone, outer: Zone) {
    outer.xMin <= inner.xMin && inner.xMax <= outer.xMax &&
    outer.yMin <= inner.yMin && inner.yMax <= outer.yMax
  }

  /** The segment table: the Strike Zone comes from the two sliders, All Points is
      the unit square. */
  function SegmentRange(seg: Segment, valuesX: (real, real), valuesY: (real, real)): (z: Zone)
    ensures seg == StrikeZone ==> (z.xMin, z.xMax) == valuesX && (z.yMin, z.yMax) == valuesY
    ensures seg == AllPoints ==> forall x, y :: Contains(z, x, y) <==> 0.0 <= x <= 1.0 && 0.0 <= y <= 1.0
    ensures SliderRange(valuesX) && SliderRange(valuesY) ==> WellOrdered(z) && Within(z, UnitSquare)
  {
    match seg
    case StrikeZone => Zone(valuesX.0, valuesX.1, valuesY.0, valuesY.1)
    case AllPoints => UnitSquare
  }

  predicate StrictlyIncreasing(s: seq<nat>) {
    forall j, k :: 0 <= j < k < |s| ==> s[j] < s[k]
  }

  /** The indices 0 .. n-1 in order. */
  function Range(n: nat): (r: seq<nat>)
    ensures |r| == n
    ensures forall k :: 0 <= k < n ==> r[k] == k
  {
    seq(n, k requires 0 <= k < n => k)
  }

  /** The comprehension run over the first n indices, in index order. */
  function SelectUpTo(xs: seq<real>, ys: seq<real>, z: Zone, n: nat): (r: seq<nat>)
    requires n <= |xs| && n <= |ys|
    ensures |r| <= n
  {
    if n == 0 then []
    else
      SelectUpTo(xs, ys, z, n - 1) +
      (if Contains(z, xs[n - 1], ys[n - 1]) then [n - 1] else [])
  }

  /** The first n indices yield exactly those i < n whose point is in z, in
      strictly increasing order. */
  lemma {:induction false} SelectUpToExact(xs: seq<real>, ys: seq<real>, z: Zone, n: nat)
    requires n <= |xs| && n <= |ys|
    ensures forall k :: 0 <= k < |SelectUpTo(xs, ys, z, n)| ==> SelectUpTo(xs, ys, z, n)[k] < n
    ensures StrictlyIncreasing(SelectUpTo(xs, ys, z, n))
    ensures forall i: nat :: i in SelectUpTo(xs, ys, z, n) <==> i < n && Contains(z, xs[i], ys[i])
  {
    if n > 0 {
      SelectUpToExact(xs, ys, z, n - 1);
    }
  }

  /** The filter over the whole population: the indices i, in increasing order,
      whose point lies in the closed rectangle z. */
  function Select(xs: seq<real>, ys: seq<real>, z: Zone): (r: seq<nat>)
    requires |xs| == |ys|
    ensures |r| <= |xs|
    ensures forall k :: 0 <= k < |r| ==> r[k] < |xs|
    ensures StrictlyIncreasing(r)
    ensures forall i: nat :: i in r <==> i < |xs| && Contains(z, xs[i], ys[i])
  {
    SelectUpToExact(xs, ys, z, |xs|);
    SelectUpTo(xs, ys, z, |xs|)
  }

  /** The indices of `sel`, in their order, that name a point lying in z. */
  function Keep(sel: seq<nat>, xs: seq<real>, ys: seq<real>, z: Zone): seq<nat> {
    if sel == [] then []
    else
      var i := sel[|sel| - 1];
      Keep(sel[..|sel| - 1], xs, ys, z) +
      (if i < |xs| && i < |ys| && Contains(z, xs[i], ys[i]) then [i] else [])
  }

  lemma KeepAppend(a: seq<nat>, i: nat, xs: seq<real>, ys: seq<real>, z: Zone)
    requires i < |xs| && i < |ys|
    ensures Keep(a + [i], xs, ys, z) ==
            Keep(a, xs, ys, z) + (if Contains(z, xs[i], ys[i]) then [i] else [])
  {
    assert (a + [i])[..|a + [i]| - 1] == a;
  }

  /** With every coordinate in range, the unit square picks each of the first
      n indices, in order. */
  lemma {:induction false} AllPointsSelectPrefix(xs: seq<real>, ys: seq<real>, n: nat)
    requires n <= |xs| && n <= |ys|
    requires AllInRange(xs) && AllInRange(ys)
    ensures SelectUpTo(xs, ys, UnitSquare, n) == Range(n)
  {
    if n > 0 {
      AllPointsSelectPrefix(xs, ys, n - 1);
      assert InRange(xs[n - 1]) && InRange(ys[n - 1]);
      assert Range(n) == Range(n - 1) + [n - 1];
    }
  }

  /** Once the coordinates are clamped, "All Points" selects every index, in order. */
  lemma ClampedAllPointsSelectsAll(rawX: seq<real>, rawY: seq<real>,
                                   valuesX: (real, real), valuesY: (real, real))
    requires |rawX| == |rawY|
    ensures Select(Clip(rawX), Clip(rawY), SegmentRange(AllPoints, valuesX, valuesY)) == Range(|rawX|)
  {
    AllPointsSelectPrefix(Clip(rawX), Clip(rawY), |rawX|);
  }

  lemma {:induction false} SelectPrefixMonotone(xs: seq<real>, ys: seq<real>, inner: Zone, outer: Zone, n: nat)
    requires n <= |xs| && n <= |ys|
    requires Within(inner, outer)
    ensures SelectUpTo(xs, ys, inner, n) == Keep(SelectUpTo(xs, ys, outer, n), xs, ys, inner)
  {
    if n > 0 {
      var i := n - 1;
      SelectPrefixMonotone(xs, ys, inner, outer, i);
      if Contains(outer, xs[i], ys[i]) {
        OuterStep(xs, ys, inner, outer, n);
      } else {
        OuterSkip(xs, ys, inner, outer, n);
      }
    }
  }

  lemma OuterSkip(xs: seq<real>, ys: seq<real>, inner: Zone, outer: Zone, n: nat)
    requires 0 < n <= |xs| && n <= |ys|
    requires Within(inner, outer)
    requires !Contains(outer, xs[n - 1], ys[n - 1])
    ensures SelectUpTo(xs, ys, outer, n) == SelectUpTo(xs, ys, outer, n - 1)
    ensures SelectUpTo(xs, ys, inner, n) == SelectUpTo(xs, ys, inner, n - 1)
  {
    assert !Contains(inner, xs[n - 1], ys[n - 1]);
  }

  lemma OuterStep(xs: seq<real>, ys: seq<real>, inner: Zone, outer: Zone, n: nat)
    requires 0 < n <= |xs| && n <= |ys|
    requires Contains(outer, xs[n - 1], ys[n - 1])
    ensures Keep(SelectUpTo(xs, ys, outer, n), xs, ys, inner) ==
            Keep(SelectUpTo(xs, ys, outer, n - 1), xs, ys, inner) +
            (if Contains(inner, xs[n - 1], ys[n - 1]) then [n - 1] else [])
  {
    KeepAppend(SelectUpTo(xs, ys, outer, n - 1), n - 1, xs, ys, inner);
  }

  /** Monotonicity in the zone: a rectangle inside another selects exactly the
      indices of the larger selection that it contains, in the same order. */
  lemma SelectMonotone(xs: seq<real>, ys: seq<real>, inner: Zone, outer: Zone)
    requires |xs| == |ys|
    requires Within(inner, outer)
    ensures Select(xs, ys, inner) == Keep(Select(xs, ys, outer), xs, ys, inner)
    ensures forall i :: i in Select(xs, ys, inner) ==> i in Select(xs, ys, outer)
  {
    SelectPrefixMonotone(xs, ys, inner, outer, |xs|);
  }

  /** A slider-derived Strike Zone selects a subsequence of the All Points selection. */
  lemma StrikeZoneWithinAllPoints(xs: seq<real>, ys: seq<real>,
                                  valuesX: (real, real), valuesY: (real, real))
    requires |xs| == |ys|
    requires SliderRange(valuesX) && SliderRange(valuesY)
    ensures Select(xs, ys, SegmentRange(StrikeZone, valuesX, valuesY)) ==
            Keep(Select(xs, ys, SegmentRange(AllPoints, valuesX, valuesY)), xs, ys,
                 SegmentRange(StrikeZone, valuesX, valuesY))
    ensures forall i :: i in Select(xs, ys, SegmentRange(StrikeZone, valuesX, valuesY)) ==>
              i in Select(xs, ys, SegmentRange(AllPoints, valuesX, valuesY))
    ensures |Select(xs, ys, SegmentRange(StrikeZone, valuesX, valuesY))| <=
            |Select(xs, ys, SegmentRange(AllPoints, valuesX, valuesY))|
  {
    var strike := SegmentRange(StrikeZone, valuesX, valuesY);
    var all := SegmentRange(AllPoints, valuesX, valuesY);
    SelectMonotone(xs, ys, strike, all);
    KeepShorter(Select(xs, ys, all), xs, ys, strike);
  }

  lemma {:induction false} KeepShorter(sel: seq<nat>, xs: seq<real>, ys: seq<real>, z: Zone)
    ensures |Keep(sel, xs, ys, z)| <= |sel|
  {
    if sel != [] {
      KeepShorter(sel[..|sel| - 1], xs, ys, z);
    }
  }

  /** A degenerate but well-ordered rectangle is accepted: with min == max on
      the x axis it picks exactly the points on that value within the y range,
      and with min == max on both axes exactly the points at that corner. */
  lemma DegenerateZone(xs: seq<real>, ys: seq<real>, z: Zone)
    requires |xs| == |ys|
    requires z.xMin == z.xMax
    ensures forall i: nat :: i in Select(xs, ys, z) <==>
              i < |xs| && xs[i] == z.xMin && z.yMin <= ys[i] <= z.yMax
    ensures z.yMin == z.yMax ==>
              forall i: nat :: i in Select(xs, ys, z) <==>
                i < |xs| && xs[i] == z.xMin && ys[i] == z.yMin
  {
  }

  lemma {:induction false} InvertedPrefixEmpty(xs: seq<real>, ys: seq<real>, z: Zone, n: nat)
    requires n <= |xs| && n <= |ys|
    requires z.xMin > z.xMax || z.yMin > z.yMax
    ensures SelectUpTo(xs, ys, z, n) == []
  {
    if n > 0 {
      InvertedPrefixEmpty(xs, ys, z, n - 1);
    }
  }

  /** The filter has no error case: a rectangle with min > max on an axis
      simply selects nothing. */
  lemma InvertedZoneSelectsNothing(xs: seq<real>, ys: seq<real>, z: Zone)
    requires |xs| == |ys|
    requires z.xMin > z.xMax || z.yMin > z.yMax
    ensures Select(xs, ys, z) == []
  {
    InvertedPrefixEmpty(xs, ys, z, |xs|);
  }
}
