/**
What re-bucketing a histogram means: the output samples a curve through the input's
cumulative counts at consecutive points of the grid.  The translator's loops are proved
against `Rebucket`; the laws of the translation are proved about it.
 */
module Rebucketing {
  import opened Grid

  datatype Bound = Finite(v: real) | PosInf

  datatype Bucket = Bucket(upper: Bound, count: nat)

  /** A histogram definition: bins per decade, first grid point, and last value of interest (none if not positive). */
  datatype Histogram = Histogram(bins: int, start: int, end: int)

  predicate ValidHistogram(h: Histogram) {
    h.bins >= 1 && h.start >= 1
  }

  /** Buckets in the exposition format: increasing bounds, cumulative counts, +Inf only at the end. */
  ghost predicate Cumulative(bs: seq<Bucket>) {
    && (forall i :: 0 <= i < |bs| - 1 ==> bs[i].upper.Finite?)
    && (forall i, j :: 0 <= i < j < |bs| && bs[j].upper.Finite? ==> bs[i].upper.v < bs[j].upper.v)
    && (forall i, j :: 0 <= i < j < |bs| ==> bs[i].count <= bs[j].count)
  }

  predicate Closed(bs: seq<Bucket>) {
    |bs| > 0 && bs[|bs| - 1].upper.PosInf?
  }

  /** The number of buckets with a finite bound. */
  function FiniteCount(bs: seq<Bucket>): nat {
    if Closed(bs) then |bs| - 1 else |bs|
  }

  ghost function LastFinite(bs: seq<Bucket>): real
    requires Cumulative(bs) && FiniteCount(bs) > 0
  {
    bs[FiniteCount(bs) - 1].upper.v
  }

  /** The value past which the translator stops interpolating. */
  ghost function MaxBound(h: Histogram, bs: seq<Bucket>): real
    requires Cumulative(bs)
  {
    if |bs| < 2 then 0.0
    else if h.end > 0 then h.end as real
    else if LastFinite(bs) > 0.0 then LastFinite(bs) else 0.0
  }

  /***** The curve *****/

  /** The part of a that falls into d of w. */
  function Share(a: real, d: real, w: real): real
    requires w > 0.0
  {
    a * d / w
  }

  /** The cumulative count at g, on the line from p to c, as the translator computes it. */
  function Interpolate(p: Bucket, c: Bucket, g: real): (n: int)
    requires p.upper.Finite? && c.upper.Finite? && p.upper.v < c.upper.v
  {
    c.count - Share((c.count - p.count) as real, c.upper.v - g, c.upper.v - p.upper.v).Floor
  }

  lemma ShareTimes(a: real, d: real, w: real)
    requires w > 0.0
    ensures Share(a, d, w) * w == a * d
  {}

  lemma ShareOfAll(a: real, w: real)
    requires w > 0.0
    ensures Share(a, w, w) == a
  {
    hide Share;
    ShareTimes(a, w, w);
    CancelFactor(Share(a, w, w), a, w);
    CancelFactor(a, Share(a, w, w), w);
  }

  lemma ShareMonotone(a: real, d: real, e: real, w: real)
    requires a >= 0.0 && w > 0.0 && d <= e
    ensures Share(a, d, w) <= Share(a, e, w)
  {
    hide Share;
    ShareTimes(a, d, w);
    ShareTimes(a, e, w);
    MulMono(d, e, a);
    CancelFactor(Share(a, d, w), Share(a, e, w), w);
  }

  lemma ShareOfNone(a: real, w: real)
    requires w > 0.0
    ensures Share(a, 0.0, w) == 0.0
  {}

  lemma ShareComplement(a: real, d: real, e: real, w: real)
    requires w > 0.0 && d + e == w
    ensures Share(a, d, w) + Share(a, e, w) == a
  {
    hide Share;
    var q, r := Share(a, d, w), Share(a, e, w);
    ShareTimes(a, d, w);
    ShareTimes(a, e, w);
    assert (q + r) * w == a * w by {
      assert (q + r) * w == q * w + r * w;
      assert a * w == a * d + a * e;
    }
    CancelFactor(q + r, a, w);
    CancelFactor(a, q + r, w);
  }

  /** No unsigned subtraction underflows, the count stays between its neighbours and meets them at their bounds. */
  lemma InterpolateBetween(p: Bucket, c: Bucket, g: real)
    requires p.upper.Finite? && c.upper.Finite? && p.upper.v < c.upper.v && p.count <= c.count
    requires p.upper.v <= g <= c.upper.v
    ensures p.count <= Interpolate(p, c, g) <= c.count
    ensures g == p.upper.v ==> Interpolate(p, c, g) == p.count
    ensures g == c.upper.v ==> Interpolate(p, c, g) == c.count
  {
    hide Share;
    var n, w := (c.count - p.count) as real, c.upper.v - p.upper.v;
    ShareOfNone(n, w);
    ShareOfAll(n, w);
    ShareMonotone(n, 0.0, c.upper.v - g, w);
    ShareMonotone(n, c.upper.v - g, w, w);
  }

  lemma InterpolateMonotone(p: Bucket, c: Bucket, g: real, g': real)
    requires p.upper.Finite? && c.upper.Finite? && p.upper.v < c.upper.v && p.count <= c.count
    requires g <= g'
    ensures Interpolate(p, c, g) <= Interpolate(p, c, g')
  {
    hide Share;
    ShareMonotone((c.count - p.count) as real, c.upper.v - g', c.upper.v - g, c.upper.v - p.upper.v);
  }

  /** The straight line through two buckets. */
  function OnLine(p: Bucket, c: Bucket, g: real): real
    requires p.upper.Finite? && c.upper.Finite? && p.upper.v < c.upper.v
  {
    p.count as real + (c.count - p.count) as real * (g - p.upper.v) / (c.upper.v - p.upper.v)
  }

  /** Exact to the unit: the count is the linear interpolant, rounded up. */
  lemma InterpolateIsCeiling(p: Bucket, c: Bucket, g: real)
    requires p.upper.Finite? && c.upper.Finite? && p.upper.v < c.upper.v
    ensures Interpolate(p, c, g) == Ceil(OnLine(p, c, g))
  {
    var n, d, w := (c.count - p.count) as real, g - p.upper.v, c.upper.v - p.upper.v;
    assert OnLine(p, c, g) == p.count as real + Share(n, d, w);
    hide Share, OnLine;
    ShareComplement(n, c.upper.v - g, d, w);
  }

  /** The first bucket from i on whose bound is above g. */
  function Slot(bs: seq<Bucket>, i: nat, g: real): (s: nat)
    requires i <= |bs|
    ensures i <= s <= |bs|
    ensures s < |bs| && bs[s].upper.Finite? ==> g < bs[s].upper.v
    ensures forall j :: i <= j < s ==> bs[j].upper.Finite? && bs[j].upper.v <= g
    decreases |bs| - i
  {
    if i < |bs| && bs[i].upper.Finite? && bs[i].upper.v <= g then Slot(bs, i + 1, g) else i
  }

  lemma SlotUnique(bs: seq<Bucket>, g: real, s: nat)
    requires Cumulative(bs) && s <= |bs|
    requires s < |bs| && bs[s].upper.Finite? ==> g < bs[s].upper.v
    requires s > 0 ==> bs[s - 1].upper.Finite? && bs[s - 1].upper.v <= g
    ensures Slot(bs, 0, g) == s
  {}

  /** The cumulative count of the histogram at g: linear within a bucket, constant past the last finite one. */
  ghost function Curve(bs: seq<Bucket>, g: real): (n: nat)
    requires Cumulative(bs) && |bs| > 0
  {
    var s := Slot(bs, 0, g);
    if s == 0 then bs[0].count
    else if s == |bs| then bs[s - 1].count
    else if bs[s].upper.PosInf? then bs[s].count
    else
      InterpolateBetween(bs[s - 1], bs[s], g);
      Interpolate(bs[s - 1], bs[s], g)
  }

  /** The curve goes through every finite input bucket but the one below +Inf, where it jumps to the total. */
  lemma CurveThroughInput(bs: seq<Bucket>, i: nat)
    requires Cumulative(bs) && i < FiniteCount(bs)
    ensures i < FiniteCount(bs) - 1 || !Closed(bs) ==> Curve(bs, bs[i].upper.v) == bs[i].count
    ensures bs[i].count <= Curve(bs, bs[i].upper.v)
  {
    var g := bs[i].upper.v;
    SlotUnique(bs, g, i + 1);
    if i + 1 < |bs| && bs[i + 1].upper.Finite? {
      InterpolateBetween(bs[i], bs[i + 1], g);
    }
  }

  lemma CurveMonotone(bs: seq<Bucket>, g: real, g': real)
    requires Cumulative(bs) && |bs| > 0 && g <= g'
    requires bs[0].upper.Finite? ==> bs[0].upper.v <= g
    ensures Curve(bs, g) <= Curve(bs, g')
  {
    hide Interpolate;
    var s, t := Slot(bs, 0, g), Slot(bs, 0, g');
    if s == t {
      if 0 < s < |bs| && bs[s].upper.Finite? {
        InterpolateMonotone(bs[s - 1], bs[s], g, g');
      }
    } else {
      if 0 < s { InterpolateBetween(bs[s - 1], bs[s], g); }
      if t < |bs| && bs[t].upper.Finite? { InterpolateBetween(bs[t - 1], bs[t], g'); }
    }
  }

  lemma CurveAtMostTotal(bs: seq<Bucket>, g: real)
    requires Cumulative(bs) && |bs| > 0
    ensures Curve(bs, g) <= bs[|bs| - 1].count
  {
    var s := Slot(bs, 0, g);
    if 0 < s < |bs| && bs[s].upper.Finite? { InterpolateBetween(bs[s - 1], bs[s], g); }
  }

  /***** The translation *****/

  /** Index of the first grid point that is kept. */
  ghost function Lo(h: Histogram, bs: seq<Bucket>): nat
    requires ValidHistogram(h) && Cumulative(bs)
  {
    if FiniteCount(bs) == 0 then 0
    else Reach(h.start as real, h.bins, 0, bs[0].upper.v, MaxBound(h, bs))
  }

  /** Index of the first grid point that the finite buckets leave to the closing one. */
  ghost function Mid(h: Histogram, bs: seq<Bucket>): nat
    requires ValidHistogram(h) && Cumulative(bs)
  {
    if FiniteCount(bs) == 0 then 0
    else Reach(h.start as real, h.bins, 0, LastFinite(bs), MaxBound(h, bs))
  }

  /** Index of the grid point that carries the total. */
  ghost function Hi(h: Histogram, bs: seq<Bucket>): nat
    requires ValidHistogram(h) && Cumulative(bs)
  {
    Reach(h.start as real, h.bins, Mid(h, bs), MaxBound(h, bs), MaxBound(h, bs))
  }

  ghost function Sample(h: Histogram, bs: seq<Bucket>, k: nat): Bucket
    requires ValidHistogram(h) && Cumulative(bs) && |bs| > 0
  {
    var g := Point(h.start as real, h.bins, k);
    Bucket(Finite(g), Curve(bs, g))
  }

  ghost function Samples(h: Histogram, bs: seq<Bucket>, from: nat, to: nat): seq<Bucket>
    requires ValidHistogram(h) && Cumulative(bs) && |bs| > 0 && from <= to
  {
    seq(to - from, i requires 0 <= i < to - from => Sample(h, bs, from + i))
  }

  lemma IndicesOrdered(h: Histogram, bs: seq<Bucket>)
    requires ValidHistogram(h) && Cumulative(bs)
    ensures Lo(h, bs) <= Mid(h, bs) <= Hi(h, bs)
  {
    if FiniteCount(bs) > 0 {
      assert bs[0].upper.v <= LastFinite(bs);
      ReachThrough(h.start as real, h.bins, 0, bs[0].upper.v, LastFinite(bs), MaxBound(h, bs));
    }
  }

  /** The translated histogram: consecutive grid points with the curve's counts, closed by one with the total. */
  ghost function Rebucket(h: Histogram, bs: seq<Bucket>): seq<Bucket>
    requires ValidHistogram(h) && Cumulative(bs)
  {
    IndicesOrdered(h, bs);
    if |bs| == 0 then []
    else if Closed(bs) then
      Samples(h, bs, Lo(h, bs), Hi(h, bs)) +
      [Bucket(Finite(Point(h.start as real, h.bins, Hi(h, bs))), bs[|bs| - 1].count)]
    else Samples(h, bs, Lo(h, bs), Mid(h, bs))
  }

  /***** Laws *****/

  /** A kept point is at or above the first input bound. */
  lemma KeptAboveFirst(h: Histogram, bs: seq<Bucket>, k: nat)
    requires ValidHistogram(h) && Cumulative(bs) && FiniteCount(bs) > 0
    requires Lo(h, bs) <= k < Hi(h, bs)
    ensures bs[0].upper.v <= Point(h.start as real, h.bins, k)
    ensures Point(h.start as real, h.bins, k) <= MaxBound(h, bs)
    ensures Mid(h, bs) <= k ==> LastFinite(bs) <= Point(h.start as real, h.bins, k)
  {
    hide Point, Reach, MaxBound;
    var start, lo, mid := h.start as real, Lo(h, bs), Mid(h, bs);
    IndicesOrdered(h, bs);
    if lo < k { PointsIncrease(start, h.bins, lo, k); }
    if mid <= k {
      if mid < k { PointsIncrease(start, h.bins, mid, k); }
      assert bs[0].upper.v <= LastFinite(bs);
    }
  }

  /** The number of grid points that are sampled before the closing bucket. */
  ghost function SampleCount(h: Histogram, bs: seq<Bucket>): nat
    requires ValidHistogram(h) && Cumulative(bs)
  {
    IndicesOrdered(h, bs);
    if Closed(bs) then Hi(h, bs) - Lo(h, bs) else Mid(h, bs) - Lo(h, bs)
  }

  lemma RunLength(h: Histogram, bs: seq<Bucket>)
    requires ValidHistogram(h) && Cumulative(bs)
    ensures |Rebucket(h, bs)| == SampleCount(h, bs) + (if Closed(bs) then 1 else 0)
  {
    hide Reach, Sample;
  }

  /** The output bounds are one contiguous run of the grid, with the curve's counts and, at the end, the total. */
  lemma ContiguousRun(h: Histogram, bs: seq<Bucket>, i: nat)
    requires ValidHistogram(h) && Cumulative(bs) && i < |Rebucket(h, bs)|
    ensures |bs| > 0
    ensures Rebucket(h, bs)[i].upper == Finite(Point(h.start as real, h.bins, Lo(h, bs) + i))
    ensures Rebucket(h, bs)[i].count ==
            if i < SampleCount(h, bs) then Curve(bs, Point(h.start as real, h.bins, Lo(h, bs) + i))
            else bs[|bs| - 1].count
  {
    hide Point, Curve, Lo, Mid, Hi;
    IndicesOrdered(h, bs);
    RunLength(h, bs);
    if i == SampleCount(h, bs) { assert Lo(h, bs) + i == Hi(h, bs); }
  }

  lemma OutputIncreases(h: Histogram, bs: seq<Bucket>, i: nat, j: nat)
    requires ValidHistogram(h) && Cumulative(bs) && i < j < |Rebucket(h, bs)|
    ensures Rebucket(h, bs)[i].upper.Finite? && Rebucket(h, bs)[j].upper.Finite?
    ensures Rebucket(h, bs)[i].upper.v < Rebucket(h, bs)[j].upper.v
    ensures Rebucket(h, bs)[i].count <= Rebucket(h, bs)[j].count
  {
    hide Point, Curve, Rebucket, Lo, Mid, Hi, LastFinite, MaxBound;
    ContiguousRun(h, bs, i);
    ContiguousRun(h, bs, j);
    RunLength(h, bs);
    var start, k, l := h.start as real, Lo(h, bs) + i, Lo(h, bs) + j;
    PointsIncrease(start, h.bins, k, l);
    CurveAtMostTotal(bs, Point(start, h.bins, k));
    IndicesOrdered(h, bs);
    if FiniteCount(bs) > 0 { KeptAboveFirst(h, bs, k); }
    CurveMonotone(bs, Point(start, h.bins, k), Point(start, h.bins, l));
  }

  /** The output is a legal histogram whose last bucket carries the full count. */
  lemma LegalHistogram(h: Histogram, bs: seq<Bucket>)
    requires ValidHistogram(h) && Cumulative(bs)
    ensures Cumulative(Rebucket(h, bs)) && !Closed(Rebucket(h, bs))
    ensures Closed(bs) ==> Rebucket(h, bs) != [] && Rebucket(h, bs)[|Rebucket(h, bs)| - 1].count == bs[|bs| - 1].count
  {
    hide Point, Curve, Rebucket, Lo, Mid, Hi;
    var out := Rebucket(h, bs);
    RunLength(h, bs);
    forall i | 0 <= i < |out| ensures out[i].upper.Finite? { ContiguousRun(h, bs, i); }
    forall i, j | 0 <= i < j < |out|
      ensures out[i].upper.v < out[j].upper.v && out[i].count <= out[j].count
    {
      OutputIncreases(h, bs, i, j);
    }
    if Closed(bs) { ContiguousRun(h, bs, |out| - 1); }
  }

  /** Sampled counts respect every input bucket: at least those at or below the new bound, at most those at or above
      it. */
  lemma SampleRespectsInput(h: Histogram, bs: seq<Bucket>, i: nat, j: nat)
    requires ValidHistogram(h) && Cumulative(bs) && i < |Rebucket(h, bs)| && i < SampleCount(h, bs)
    requires j < FiniteCount(bs) && Rebucket(h, bs)[i].upper.Finite?
    ensures bs[j].upper.v <= Rebucket(h, bs)[i].upper.v ==> bs[j].count <= Rebucket(h, bs)[i].count
    ensures Rebucket(h, bs)[i].upper.v <= bs[j].upper.v && j < FiniteCount(bs) - 1 ==>
              Rebucket(h, bs)[i].count <= bs[j].count
  {
    hide Point, Curve, Rebucket, Lo, Mid, Hi, LastFinite, MaxBound;
    ContiguousRun(h, bs, i);
    IndicesOrdered(h, bs);
    var g := Point(h.start as real, h.bins, Lo(h, bs) + i);
    KeptAboveFirst(h, bs, Lo(h, bs) + i);
    CurveThroughInput(bs, j);
    if bs[j].upper.v <= g { CurveMonotone(bs, bs[j].upper.v, g); } else { CurveMonotone(bs, g, bs[j].upper.v); }
    if g == bs[j].upper.v { CurveMonotone(bs, g, bs[j].upper.v); }
  }

  /***** What is in the output, by the numbers of the input *****/

  /** x is the bound of an output bucket. */
  ghost predicate IsBound(out: seq<Bucket>, x: real) {
    exists i :: 0 <= i < |out| && out[i].upper == Finite(x)
  }

  lemma BoundIsIndex(h: Histogram, bs: seq<Bucket>, k: nat)
    requires ValidHistogram(h) && Cumulative(bs)
    ensures IsBound(Rebucket(h, bs), Point(h.start as real, h.bins, k)) <==>
            Lo(h, bs) <= k < Lo(h, bs) + |Rebucket(h, bs)|
  {
    hide Point, Rebucket, Lo;
    var out, start, lo := Rebucket(h, bs), h.start as real, Lo(h, bs);
    if IsBound(out, Point(start, h.bins, k)) {
      var i :| 0 <= i < |out| && out[i].upper == Finite(Point(start, h.bins, k));
      ContiguousRun(h, bs, i);
      if k < lo + i { PointsIncrease(start, h.bins, k, lo + i); }
      if lo + i < k { PointsIncrease(start, h.bins, lo + i, k); }
    }
    if lo <= k < lo + |out| {
      ContiguousRun(h, bs, k - lo);
      assert out[k - lo].upper == Finite(Point(start, h.bins, k));
    }
  }

  /** How index and value of a grid point compare to where a walk ends. */
  lemma ReachIff(start: real, bins: nat, k: nat, le: real, max: real)
    requires start >= 1.0 && bins >= 1
    ensures k < Reach(start, bins, 0, le, max) <==> Point(start, bins, k) < le && Point(start, bins, k) <= max
  {
    hide Point, Reach;
    var j := Reach(start, bins, 0, le, max);
    if j < k { PointsIncrease(start, bins, j, k); }
  }

  /** Exactly which grid points are output bounds.  In front, those below the first bound are left out, up to the limit
      that is `end`, or the last finite bound if `end` is not set.  At the end, a closed histogram goes on to the first
      point at or past the limit, or past it if there are finite buckets beyond; an open one stops below its last bound
      and at the limit. */
  lemma OutputBoundIff(h: Histogram, bs: seq<Bucket>, k: nat)
    requires ValidHistogram(h) && Cumulative(bs) && |bs| >= 2
    ensures var last := bs[if bs[|bs| - 1].upper.PosInf? then |bs| - 2 else |bs| - 1].upper.v;
            var limit := if h.end > 0 then h.end as real else if last > 0.0 then last else 0.0;
            var g := Point(h.start as real, h.bins, k);
            IsBound(Rebucket(h, bs), g) <==>
            && (bs[0].upper.v <= g || limit < g)
            && if bs[|bs| - 1].upper.PosInf? then
                 || k == 0
                 || Point(h.start as real, h.bins, k - 1) < limit
                 || (Point(h.start as real, h.bins, k - 1) == limit && limit < last)
               else g < last && g <= limit
  {
    hide Point, Reach, Rebucket;
    var start, max, last := h.start as real, MaxBound(h, bs), LastFinite(bs);
    var first := Reach(start, h.bins, 0, max, max);
    BoundIsIndex(h, bs, k);
    RunLength(h, bs);
    IndicesOrdered(h, bs);
    assert Lo(h, bs) == Reach(start, h.bins, 0, bs[0].upper.v, max);
    assert Mid(h, bs) == Reach(start, h.bins, 0, last, max);
    hide Lo, Mid, Hi;
    ReachIff(start, h.bins, k, bs[0].upper.v, max);
    ReachIff(start, h.bins, k, last, max);
    if Closed(bs) {
      ClosingIndex(h, bs, first);
      if k > 0 {
        ReachIff(start, h.bins, k - 1, max, max);
        if first < k - 1 { PointsIncrease(start, h.bins, first, k - 1); }
      }
    }
  }

  /** Every grid point from the first bound up to the limit is an output bound, of a closed histogram. */
  lemma OutputReaches(h: Histogram, bs: seq<Bucket>, k: nat)
    requires ValidHistogram(h) && Cumulative(bs) && |bs| >= 2 && bs[|bs| - 1].upper.PosInf?
    requires bs[0].upper.v <= Point(h.start as real, h.bins, k)
    requires Point(h.start as real, h.bins, k) <= if h.end > 0 then h.end as real else bs[|bs| - 2].upper.v
    ensures IsBound(Rebucket(h, bs), Point(h.start as real, h.bins, k))
  {
    hide Point, Rebucket;
    OutputBoundIff(h, bs, k);
    if k > 0 { PointsIncrease(h.start as real, h.bins, k - 1, k); }
  }

  /** The last bound is at or past the limit and no other one is past it. */
  lemma OutputEnds(h: Histogram, bs: seq<Bucket>, i: nat)
    requires ValidHistogram(h) && Cumulative(bs) && |bs| >= 2 && bs[|bs| - 1].upper.PosInf? && i < |Rebucket(h, bs)|
    ensures Rebucket(h, bs)[i].upper.Finite?
    ensures i == |Rebucket(h, bs)| - 1 && h.end > 0 ==> Rebucket(h, bs)[i].upper.v >= h.end as real
    ensures i == |Rebucket(h, bs)| - 1 && h.end <= 0 ==> Rebucket(h, bs)[i].upper.v >= bs[|bs| - 2].upper.v
    ensures i < |Rebucket(h, bs)| - 1 && h.end > 0 ==> Rebucket(h, bs)[i].upper.v <= h.end as real
    ensures i < |Rebucket(h, bs)| - 1 && h.end <= 0 ==> Rebucket(h, bs)[i].upper.v < bs[|bs| - 2].upper.v
  {
    hide Point, Rebucket, Reach;
    var start, max, k := h.start as real, MaxBound(h, bs), Lo(h, bs) + i;
    assert Hi(h, bs) == Reach(start, h.bins, Mid(h, bs), max, max);
    hide Lo, Mid, Hi;
    ContiguousRun(h, bs, i);
    RunLength(h, bs);
    IndicesOrdered(h, bs);
    if i < |Rebucket(h, bs)| - 1 {
      KeptAboveFirst(h, bs, k);
      var first := Reach(start, h.bins, 0, max, max);
      ClosingIndex(h, bs, first);
      ReachIff(start, h.bins, k, max, max);
    }
  }

  /** The count of each output bucket, by the input buckets around its bound: the ceiling of the straight line between
      two finite ones, the total at or past the last finite one, and the total at the end. */
  lemma OutputCount(h: Histogram, bs: seq<Bucket>, i: nat, j: nat)
    requires ValidHistogram(h) && Cumulative(bs) && i < |Rebucket(h, bs)| && Rebucket(h, bs)[i].upper.Finite?
    requires j < |bs| && bs[j].upper.Finite? && bs[j].upper.v <= Rebucket(h, bs)[i].upper.v
    requires j + 1 < |bs| && bs[j + 1].upper.Finite? ==> Rebucket(h, bs)[i].upper.v < bs[j + 1].upper.v
    ensures bs[|bs| - 1].upper.PosInf? && (i == |Rebucket(h, bs)| - 1 || j == |bs| - 2) ==>
              Rebucket(h, bs)[i].count == bs[|bs| - 1].count
    ensures j + 1 < |bs| && bs[j + 1].upper.Finite? && !(bs[|bs| - 1].upper.PosInf? && i == |Rebucket(h, bs)| - 1) ==>
              Rebucket(h, bs)[i].count == Ceil(OnLine(bs[j], bs[j + 1], Rebucket(h, bs)[i].upper.v))
  {
    hide Point, Rebucket, Lo, Mid, Hi, Curve, Ceil, OnLine;
    ContiguousRun(h, bs, i);
    RunLength(h, bs);
    CurveBetween(bs, Rebucket(h, bs)[i].upper.v, j);
  }

  lemma CurveBetween(bs: seq<Bucket>, g: real, j: nat)
    requires Cumulative(bs) && j < |bs| && bs[j].upper.Finite? && bs[j].upper.v <= g
    requires j + 1 < |bs| && bs[j + 1].upper.Finite? ==> g < bs[j + 1].upper.v
    ensures bs[|bs| - 1].upper.PosInf? && j == |bs| - 2 ==> Curve(bs, g) == bs[|bs| - 1].count
    ensures j + 1 < |bs| && bs[j + 1].upper.Finite? ==>
              Curve(bs, g) == Ceil(OnLine(bs[j], bs[j + 1], g))
  {
    hide Interpolate, Ceil, OnLine;
    SlotUnique(bs, g, j + 1);
    if j + 1 < |bs| && bs[j + 1].upper.Finite? { InterpolateIsCeiling(bs[j], bs[j + 1], g); }
  }

  /** Nothing comes of no buckets or of a single finite one. */
  lemma NothingToTranslate(h: Histogram, bs: seq<Bucket>)
    requires ValidHistogram(h) && Cumulative(bs) && (|bs| == 0 || (|bs| == 1 && bs[0].upper.Finite?))
    ensures Rebucket(h, bs) == []
  {
    hide Rebucket;
    RunLength(h, bs);
    if |bs| == 1 { SingleOpenBucket(h, bs); } else { assert !Closed(bs) && Lo(h, bs) == Mid(h, bs); }
  }

  /** The output with the closing bucket that the text format adds back. */
  ghost function Reclosed(out: seq<Bucket>): seq<Bucket> {
    if |out| == 0 then out else out + [Bucket(PosInf, out[|out| - 1].count)]
  }

  lemma ReclosedCumulative(h: Histogram, bs: seq<Bucket>)
    requires ValidHistogram(h) && Cumulative(bs) && Closed(bs)
    ensures Cumulative(Reclosed(Rebucket(h, bs))) && Closed(Reclosed(Rebucket(h, bs)))
    ensures FiniteCount(Reclosed(Rebucket(h, bs))) == |Rebucket(h, bs)| > 0
  {
    hide Rebucket;
    LegalHistogram(h, bs);
  }

  /** Translating an output visits the same stretch of the grid, closed again or not. */
  lemma SameStretch(h: Histogram, bs: seq<Bucket>, out: seq<Bucket>)
    requires ValidHistogram(h) && Cumulative(bs) && Closed(bs) && FiniteCount(bs) > 0
    requires Cumulative(out) && 0 < FiniteCount(out) == |Rebucket(h, bs)| && |out| >= 2
    requires forall i :: 0 <= i < FiniteCount(out) ==> out[i] == Rebucket(h, bs)[i]
    ensures Lo(h, out) == Lo(h, bs) && Mid(h, out) == Hi(h, bs) && Hi(h, out) == Hi(h, bs)
  {
    hide Point, Curve, Rebucket, LastFinite, MaxBound;
    var start, lo, hi := h.start as real, Lo(h, bs), Hi(h, bs);
    var max, max' := MaxBound(h, bs), MaxBound(h, out);
    IndicesOrdered(h, bs);
    RunLength(h, bs);
    ContiguousRun(h, bs, 0);
    ContiguousRun(h, bs, hi - lo);
    assert out[0].upper.v == Point(start, h.bins, lo);
    OutputBounds(h, bs, out);
    forall i: nat | i < hi
      ensures Point(start, h.bins, i) < Point(start, h.bins, hi)
      ensures Point(start, h.bins, i) <= max
      ensures i < lo ==> Point(start, h.bins, i) < Point(start, h.bins, lo)
    {
      PointsIncrease(start, h.bins, i, hi);
      if i < lo { PointsIncrease(start, h.bins, i, lo); } else { KeptAboveFirst(h, bs, i); }
    }
    ReachUnique(start, h.bins, 0, Point(start, h.bins, lo), max', lo);
    ReachUnique(start, h.bins, 0, Point(start, h.bins, hi), max', hi);
    ReachUnique(start, h.bins, hi, max', max', hi);
  }

  lemma OutputBounds(h: Histogram, bs: seq<Bucket>, out: seq<Bucket>)
    requires ValidHistogram(h) && Cumulative(bs) && Closed(bs) && FiniteCount(bs) > 0
    requires Cumulative(out) && 0 < FiniteCount(out) == |Rebucket(h, bs)| && |out| >= 2
    requires forall i :: 0 <= i < FiniteCount(out) ==> out[i] == Rebucket(h, bs)[i]
    ensures LastFinite(out) == Point(h.start as real, h.bins, Hi(h, bs))
    ensures MaxBound(h, bs) <= MaxBound(h, out) <= Point(h.start as real, h.bins, Hi(h, bs))
  {
    hide Point, Rebucket, Lo, Mid;
    RunLength(h, bs);
    IndicesOrdered(h, bs);
    ContiguousRun(h, bs, |Rebucket(h, bs)| - 1);
  }

  /** On a translated histogram the curve goes through its buckets again. */
  lemma CurveOfOutput(h: Histogram, bs: seq<Bucket>, out: seq<Bucket>, i: nat)
    requires ValidHistogram(h) && Cumulative(bs)
    requires Cumulative(out) && FiniteCount(out) == |Rebucket(h, bs)| && i < |Rebucket(h, bs)| - 1
    requires forall i :: 0 <= i < FiniteCount(out) ==> out[i] == Rebucket(h, bs)[i]
    ensures out[i].upper.Finite? && Curve(out, out[i].upper.v) == out[i].count
  {
    hide Point, Rebucket, Curve;
    CurveThroughInput(out, i);
  }

  /** Translation is idempotent on every histogram with a finite bucket, whether or not `end` is set. */
  lemma Idempotent(h: Histogram, bs: seq<Bucket>)
    requires ValidHistogram(h) && Cumulative(bs) && Closed(bs) && FiniteCount(bs) > 0
    ensures Cumulative(Reclosed(Rebucket(h, bs)))
    ensures Rebucket(h, Reclosed(Rebucket(h, bs))) == Rebucket(h, bs)
  {
    hide Point, Curve, Rebucket, Lo, Mid, Hi;
    var out := Rebucket(h, bs);
    var again := Reclosed(out);
    ReclosedCumulative(h, bs);
    LegalHistogram(h, bs);
    SameStretch(h, bs, again);
    RunLength(h, bs);
    RunLength(h, again);
    forall i | 0 <= i < |out| ensures Rebucket(h, again)[i] == out[i] {
      ContiguousRun(h, bs, i);
      ContiguousRun(h, again, i);
      if i < |out| - 1 { CurveOfOutput(h, bs, again, i); }
    }
  }

  /** A second translator that matches the same family sees the output without its closing bucket and loses the last
      one. */
  lemma SecondMatchTruncates(h: Histogram, bs: seq<Bucket>)
    requires ValidHistogram(h) && Cumulative(bs) && Closed(bs)
    ensures Cumulative(Rebucket(h, bs)) && |Rebucket(h, bs)| > 0
    ensures Rebucket(h, Rebucket(h, bs)) == Rebucket(h, bs)[..|Rebucket(h, bs)| - 1]
  {
    hide Point, Curve, Rebucket, Lo, Mid, Hi;
    var out := Rebucket(h, bs);
    LegalHistogram(h, bs);
    RunLength(h, bs);
    RunLength(h, out);
    IndicesOrdered(h, bs);
    if FiniteCount(bs) == 0 { BareTotal(h, bs); }
    if |out| == 1 {
      SingleOpenBucket(h, out);
    } else {
      SameStretch(h, bs, out);
      forall i | 0 <= i < |out| - 1 ensures Rebucket(h, out)[i] == out[i] {
        ContiguousRun(h, bs, i);
        ContiguousRun(h, out, i);
        CurveOfOutput(h, bs, out, i);
      }
    }
  }

  /** Whatever the second definition is, all that it leaves lies strictly below the last bound it is given. */
  lemma OpenHistogramShrinks(h: Histogram, bs: seq<Bucket>, i: nat)
    requires ValidHistogram(h) && Cumulative(bs) && !Closed(bs) && i < |Rebucket(h, bs)|
    ensures |bs| > 0 && Rebucket(h, bs)[i].upper.Finite? && Rebucket(h, bs)[i].upper.v < bs[|bs| - 1].upper.v
  {
    hide Point, Rebucket, Curve;
    ContiguousRun(h, bs, i);
    RunLength(h, bs);
    IndicesOrdered(h, bs);
  }

  lemma SingleOpenBucket(h: Histogram, bs: seq<Bucket>)
    requires ValidHistogram(h) && Cumulative(bs) && |bs| == 1 && !Closed(bs)
    ensures SampleCount(h, bs) == 0
  {
    hide Reach;
  }

  /** A histogram with no finite bucket is translated to one bucket at `start`. */
  lemma BareTotal(h: Histogram, bs: seq<Bucket>)
    requires ValidHistogram(h) && Cumulative(bs) && Closed(bs) && FiniteCount(bs) == 0
    ensures Rebucket(h, bs) == [Bucket(Finite(h.start as real), bs[0].count)]
  {
    hide Curve;
    assert Point(h.start as real, h.bins, 0) == h.start as real;
    ReachUnique(h.start as real, h.bins, 0, 0.0, 0.0, 0);
    assert Hi(h, bs) == 0;
  }

  /** Translation is idempotent exactly when there is a finite bucket or `end` does not lie above `start`. */
  lemma IdempotentIff(h: Histogram, bs: seq<Bucket>)
    requires ValidHistogram(h) && Cumulative(bs) && Closed(bs)
    ensures Cumulative(Reclosed(Rebucket(h, bs)))
    ensures Rebucket(h, Reclosed(Rebucket(h, bs))) == Rebucket(h, bs) <==> FiniteCount(bs) > 0 || h.end <= h.start
  {
    ReclosedCumulative(h, bs);
    if FiniteCount(bs) > 0 {
      Idempotent(h, bs);
    } else {
      BareTotal(h, bs);
      BareTotalAgain(h, Reclosed(Rebucket(h, bs)));
    }
  }

  lemma BareTotalAgain(h: Histogram, bs: seq<Bucket>)
    requires ValidHistogram(h) && Cumulative(bs) && Closed(bs) && |bs| == 2 &&
               bs[0] == Bucket(Finite(h.start as real), bs[1].count)
    ensures Rebucket(h, bs) == [bs[0]] <==> h.end <= h.start
  {
    hide Curve, Rebucket, Lo, Mid, Hi, Point;
    BareTotalIndices(h, bs);
    RunLength(h, bs);
    ContiguousRun(h, bs, 0);
  }

  lemma BareTotalIndices(h: Histogram, bs: seq<Bucket>)
    requires ValidHistogram(h) && Cumulative(bs) && Closed(bs) && |bs| == 2 &&
               bs[0] == Bucket(Finite(h.start as real), bs[1].count)
    ensures Lo(h, bs) == 0 && Mid(h, bs) == 0 && Point(h.start as real, h.bins, 0) == h.start as real
    ensures Hi(h, bs) == 0 <==> h.end <= h.start
  {
    var start, max := h.start as real, MaxBound(h, bs);
    assert Point(start, h.bins, 0) == start;
    hide Point, Reach;
    ReachUnique(start, h.bins, 0, start, max, 0);
    assert start >= max <==> h.end <= h.start;
    if start >= max { ReachUnique(start, h.bins, 0, max, max, 0); }
  }

  /***** The reserved room *****/

  /** `max` is a power of ten and, unless it is 1, the start lies within the first bin of the first decade. */
  ghost predicate LongestWalk(h: Histogram, max: real)
    requires ValidHistogram(h) && max >= 1.0
  {
    var d := CeilLog10(max);
    max == Pow10(d) && if d == 0 then h.start == 1 else h.start * h.bins < 10
  }

  /** This is exactly when the walk meets `max` after the greatest possible number of steps. */
  lemma StepsToMax(h: Histogram, max: real) returns (k: nat)
    requires ValidHistogram(h) && max >= 1.0
    ensures k == Reach(h.start as real, h.bins, 0, max, max) <= CeilLog10(max) * h.bins
    ensures k == CeilLog10(max) * h.bins && Point(h.start as real, h.bins, k) == max <==> LongestWalk(h, max)
  {
    hide Decade, CeilLog10, NextBin, Reach;
    var start, d := h.start as real, CeilLog10(max);
    k := Reach(start, h.bins, 0, max, max);
    assert Point(start, h.bins, 0) == start;
    hide Point;
    if start < Pow10(d) {
      StepsFromBelow(h, max, d, k);
    } else if d > 0 {
      Pow10Monotone(1, d);
      MulNat(1, h.bins, h.start);
      MulNat(1, d, h.bins);
    }
  }

  lemma StepsFromBelow(h: Histogram, max: real, d: nat, k: nat)
    requires ValidHistogram(h) && d > 0 && h.start as real < Pow10(d) && max <= Pow10(d)
    requires k == Reach(h.start as real, h.bins, 0, max, max)
    ensures k <= d * h.bins
    ensures k == d * h.bins && Point(h.start as real, h.bins, k) == max <==> max == Pow10(d) && h.start * h.bins < 10
  {
    hide Decade, Reach, Point, Top, Pow10;
    var start := h.start as real;
    var n := HitsEveryPowerOfTen(start, h.bins, d);
    MulNat(d - Decade(start), d, h.bins);
    FromFirstDecade(h, d);
    if k < n { PointsIncrease(start, h.bins, k, n); }
  }

  /** All decades up to 10^d count in full exactly if the start lies in the first bin of the first decade. */
  lemma FromFirstDecade(h: Histogram, d: nat)
    requires ValidHistogram(h) && d > 0
    ensures (d - Decade(h.start as real)) * h.bins == d * h.bins &&
              h.start as real * h.bins as real < Top(h.start as real) <==>
            h.start * h.bins < 10
  {
    var start := h.start as real;
    assert start * h.bins as real == (h.start * h.bins) as real;
    assert (d - Decade(start)) * h.bins == d * h.bins - Decade(start) * h.bins;
    hide Decade;
    if h.start * h.bins < 10 {
      MulNat(1, h.bins, h.start);
      DecadeUnique(start, 0);
    }
    if Decade(start) > 0 { MulNat(1, Decade(start), h.bins); }
  }

  lemma MulNat(a: nat, b: nat, c: nat)
    requires a <= b
    ensures a * c <= b * c
  {}

  /** The closing point is the first one at or above `max`, or the one after it if a finite bucket lies beyond. */
  lemma ClosingIndex(h: Histogram, bs: seq<Bucket>, k: nat)
    requires ValidHistogram(h) && Cumulative(bs) && FiniteCount(bs) > 0
    requires k == Reach(h.start as real, h.bins, 0, MaxBound(h, bs), MaxBound(h, bs))
    ensures Hi(h, bs) ==
            if LastFinite(bs) > MaxBound(h, bs) && Point(h.start as real, h.bins, k) == MaxBound(h, bs) then k + 1
            else k
  {
    hide Point, Reach, MaxBound, LastFinite;
    var start, max, last := h.start as real, MaxBound(h, bs), LastFinite(bs);
    if last <= max {
      ReachUnique(start, h.bins, Mid(h, bs), max, max, k);
    } else if Point(start, h.bins, k) > max {
      ReachUnique(start, h.bins, 0, last, max, k);
      ReachUnique(start, h.bins, k, max, max, k);
    } else {
      PointsIncrease(start, h.bins, k, k + 1);
      ReachUnique(start, h.bins, 0, last, max, k + 1);
      ReachUnique(start, h.bins, k + 1, max, max, k + 1);
    }
  }

  /** Nothing is cut off in front exactly if the first bound is not above the start, or the start is past `max`. */
  lemma FirstIndex(h: Histogram, bs: seq<Bucket>)
    requires ValidHistogram(h) && Cumulative(bs) && FiniteCount(bs) > 0
    ensures Lo(h, bs) == 0 <==> bs[0].upper.v <= h.start as real || h.start as real > MaxBound(h, bs)
    ensures h.start as real > MaxBound(h, bs) ==> Hi(h, bs) == 0
  {
    hide Reach, MaxBound, LastFinite;
    assert Point(h.start as real, h.bins, 0) == h.start as real;
    hide Point;
    if h.start as real > MaxBound(h, bs) { assert Mid(h, bs) == 0; }
  }

  /** The buckets that the translator reserves room for. */
  function RequiredBuckets(h: Histogram, max: real): nat
    requires ValidHistogram(h) && max >= 1.0
  {
    1 + CeilLog10(max) * h.bins
  }

  /** The output has at most one bucket more than the translator reserves room for. */
  lemma CapacityBound(h: Histogram, bs: seq<Bucket>)
    requires ValidHistogram(h) && Cumulative(bs) && |bs| >= 2 && MaxBound(h, bs) >= 1.0
    ensures |Rebucket(h, bs)| <= RequiredBuckets(h, MaxBound(h, bs)) + 1
  {
    hide Point, Reach, Rebucket, LastFinite, MaxBound, CeilLog10, LongestWalk, Lo, Mid, Hi;
    var k := StepsToMax(h, MaxBound(h, bs));
    ClosingIndex(h, bs, k);
    RunLength(h, bs);
    IndicesOrdered(h, bs);
  }

  /** Exactly when that one bucket more occurs: the histogram is closed, starts at or below the grid's start and has
      finite buckets beyond `max`, and the walk to `max` is as long as can be. */
  lemma CapacityExceededIff(h: Histogram, bs: seq<Bucket>)
    requires ValidHistogram(h) && Cumulative(bs) && |bs| >= 2 && MaxBound(h, bs) >= 1.0
    ensures |Rebucket(h, bs)| > RequiredBuckets(h, MaxBound(h, bs)) <==>
            && Closed(bs) && bs[0].upper.v <= h.start as real && LastFinite(bs) > MaxBound(h, bs)
            && LongestWalk(h, MaxBound(h, bs))
  {
    hide Point, Reach, Rebucket, LastFinite, MaxBound, CeilLog10, LongestWalk, Lo, Mid, Hi;
    var k := StepsToMax(h, MaxBound(h, bs));
    ClosingIndex(h, bs, k);
    FirstIndex(h, bs);
    RunLength(h, bs);
    IndicesOrdered(h, bs);
  }

  /** For instance an `end` of 10 with one bin per decade. */
  lemma CapacityExceeded(count: nat)
    ensures var h, bs := Histogram(1, 1, 10),
              [Bucket(Finite(1.0), 0), Bucket(Finite(100.0), count), Bucket(PosInf, count)];
            Cumulative(bs) && MaxBound(h, bs) >= 1.0 && |Rebucket(h, bs)| > RequiredBuckets(h, MaxBound(h, bs))
  {
    var h, bs := Histogram(1, 1, 10), [Bucket(Finite(1.0), 0), Bucket(Finite(100.0), count), Bucket(PosInf, count)];
    assert Pow10(0) == 1.0 && Pow10(1) == 10.0 && Pow10(2) == 100.0;
    DecadeUnique(10.0, 1);
    assert CeilLog10(10.0) == 1;
    hide Rebucket, Decade, Pow10;
    CapacityExceededIff(h, bs);
  }
}
