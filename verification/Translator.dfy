/**
The translator's loops: the bucket walker, which advances a grid position in place, and
the translation of every histogram of a family.
 */
module Translator {
  import opened Grid
  import opened Rebucketing
  import opened Wrappers

  /** The walker over the log-10 grid; `index` counts the steps taken from `start`. */
  class Log10Bucket {
    const binNums: nat
    const max: real
    var curr: real
    ghost const start: real
    ghost var index: nat

    ghost predicate Valid()
      reads this
    {
      binNums >= 1 && start >= 1.0 && curr == Point(start, binNums, index)
    }

    constructor (start: real, max: real, bins: nat)
      requires start >= 1.0 && bins >= 1
      ensures Valid() && index == 0
      ensures this.start == start && this.max == max && this.binNums == bins
    {
      this.start, this.curr, this.index := start, start, 0;
      this.max, this.binNums := max, bins;
    }

    method NextBin()
      requires Valid()
      modifies this
      ensures Valid() && index == old(index) + 1 && curr > old(curr)
    {
      var c := Decade(curr);
      var m := Pow10(c + 1);
      var n;
      if binNums < 10 && curr <= Pow10(c) {
        n := m / binNums as real;
      } else {
        n := curr + m / binNums as real;
      }
      NextBinIncreases(binNums, curr);
      assert n <= m ==> n == Grid.NextBin(binNums, curr);
      curr := if n <= m then n else m;
      index := index + 1;
    }

    /** The rest of the grid up to `max`, and the point that closes it, all with the total. */
    method AddTotal(count: nat, newBuckets: seq<Bucket>) returns (res: seq<Bucket>)
      requires Valid()
      modifies this
      ensures Valid() && index == Reach(start, binNums, old(index), max, max)
      ensures |res| == |newBuckets| + index - old(index) + 1 && newBuckets <= res
      ensures forall j :: |newBuckets| <= j < |res| ==>
                res[j] == Bucket(Finite(Point(start, binNums, old(index) + j - |newBuckets|)), count)
    {
      hide Point, Reach;
      res := newBuckets;
      while curr < max
        invariant Valid() && old(index) <= index
        invariant forall i: nat :: old(index) <= i < index ==> Point(start, binNums, i) < max
        invariant |res| == |newBuckets| + index - old(index) && newBuckets <= res
        invariant forall j :: |newBuckets| <= j < |res| ==>
                    res[j] == Bucket(Finite(Point(start, binNums, old(index) + j - |newBuckets|)), count)
        decreases Reach(start, binNums, old(index), max, max) - index
      {
        var bucket := Bucket(Finite(curr), count);
        NextBin();
        res := res + [bucket];
      }
      ReachUnique(start, binNums, old(index), max, max, index);
      res := res + [Bucket(Finite(curr), count)];
    }

    /** What one more bucket adds: nothing for a first finite one, interpolated points up to it for a later one,
        and for +Inf the rest of the grid up to `max` with the total. */
    method AddLog10Buckets(cur: Bucket, prev: Option<Bucket>, newBuckets: seq<Bucket>) returns (res: seq<Bucket>)
      requires Valid()
      requires prev.Some? ==> prev.value.upper.Finite? && prev.value.count <= cur.count
      requires prev.Some? && cur.upper.Finite? ==> prev.value.upper.v < cur.upper.v
      requires prev.Some? ==> prev.value.upper.v <= curr || max < curr
      modifies this
      ensures Valid()
      ensures cur.upper.Finite? ==> index == Reach(start, binNums, old(index), cur.upper.v, max)
      ensures cur.upper.PosInf? ==> index == Reach(start, binNums, old(index), max, max)
      ensures old(index) <= index
      ensures |res| == |newBuckets| + Emitted(cur, prev, index - old(index))
      ensures newBuckets <= res
      ensures forall j :: |newBuckets| <= j < |res| ==>
                EmittedAt(start, binNums, old(index) + j - |newBuckets|, cur, prev, res[j])
    {
      hide Point, Interpolate, Reach;
      if cur.upper.PosInf? {
        res := AddTotal(cur.count, newBuckets);
        return;
      }
      res := newBuckets;
      var le := cur.upper.v;
      if prev.None? && curr < le {
        while curr < le && curr <= max
          invariant Valid() && old(index) <= index
          invariant forall i: nat :: old(index) <= i < index ==>
                      Point(start, binNums, i) < le && Point(start, binNums, i) <= max
          decreases Reach(start, binNums, old(index), le, max) - index
        {
          NextBin();
        }
        ReachUnique(start, binNums, old(index), le, max, index);
        return;
      }
      var ple, pcount := 0.0, 0;
      if prev.Some? {
        ple, pcount := prev.value.upper.v, prev.value.count;
      }
      while curr < le && curr <= max
        invariant Valid() && old(index) <= index
        invariant prev.None? ==> index == old(index)
        invariant prev.Some? ==> ple <= curr || max < curr
        invariant forall i: nat :: old(index) <= i < index ==>
                    Point(start, binNums, i) < le && Point(start, binNums, i) <= max
        invariant |res| == |newBuckets| + index - old(index) && newBuckets <= res
        invariant forall j :: |newBuckets| <= j < |res| ==>
                    EmittedAt(start, binNums, old(index) + j - |newBuckets|, cur, prev, res[j])
        decreases Reach(start, binNums, old(index), le, max) - index
      {
        var count := AdjustedCount(cur.count, pcount, le, ple, curr);
        var bucket := Bucket(Finite(curr), count);
        NextBin();
        res := res + [bucket];
      }
      ReachUnique(start, binNums, old(index), le, max, index);
    }
  }

  /** The translator's arithmetic on unsigned counts: the adjustment never exceeds the count it is taken from. */
  method AdjustedCount(count: nat, pcount: nat, le: real, ple: real, bound: real) returns (res: nat)
    requires ple < le && ple <= bound <= le && pcount <= count
    ensures res == Interpolate(Bucket(Finite(ple), pcount), Bucket(Finite(le), count), bound)
  {
    InterpolateBetween(Bucket(Finite(ple), pcount), Bucket(Finite(le), count), bound);
    var adj := Share((count - pcount) as real, le - bound, le - ple).Floor;
    res := count - adj;
  }

  /** The number of buckets added by a call that advances the walk by n points. */
  function Emitted(cur: Bucket, prev: Option<Bucket>, n: nat): nat {
    if cur.upper.PosInf? then n + 1 else if prev.None? then 0 else n
  }

  /** b is the bucket that a call emits at point k of the grid. */
  ghost predicate EmittedAt(start: real, bins: nat, k: nat, cur: Bucket, prev: Option<Bucket>, b: Bucket)
    requires start >= 1.0 && bins >= 1
    requires prev.Some? && cur.upper.Finite? ==> prev.value.upper.Finite? && prev.value.upper.v < cur.upper.v
  {
    && b.upper == Finite(Point(start, bins, k))
    && (cur.upper.PosInf? ==> b.count == cur.count)
    && (cur.upper.Finite? && prev.Some? ==> b.count == Interpolate(prev.value, cur, b.upper.v))
  }

  /** The largest finite bound, or zero. */
  method LargestBound(bs: seq<Bucket>) returns (max: real)
    requires Cumulative(bs)
    ensures max == if FiniteCount(bs) > 0 && LastFinite(bs) > 0.0 then LastFinite(bs) else 0.0
  {
    max := 0.0;
    for i := 0 to |bs|
      invariant max >= 0.0
      invariant forall j :: 0 <= j < i && bs[j].upper.Finite? ==> bs[j].upper.v <= max
      invariant max > 0.0 ==> exists j :: 0 <= j < i && bs[j].upper == Finite(max)
    {
      if bs[i].upper.Finite? && bs[i].upper.v > max {
        max := bs[i].upper.v;
      }
    }
  }

  /** What has been emitted, and where the walk stands, once the first i buckets are folded in. */
  ghost predicate Folded(h: Histogram, bs: seq<Bucket>, i: nat, index: nat, out: seq<Bucket>)
    requires ValidHistogram(h) && Cumulative(bs) && i <= |bs|
  {
    if i == 0 then index == 0 && out == []
    else if bs[i - 1].upper.PosInf? then out == Rebucket(h, bs)
    else
      && index == Reach(h.start as real, h.bins, 0, bs[i - 1].upper.v, MaxBound(h, bs))
      && Lo(h, bs) <= index
      && out == Samples(h, bs, Lo(h, bs), index)
  }

  /** Interpolating between two neighbours samples the curve. */
  lemma EmittedIsSample(h: Histogram, bs: seq<Bucket>, i: nat, k: nat, b: Bucket)
    requires ValidHistogram(h) && Cumulative(bs) && 0 < i < |bs|
    requires bs[i - 1].upper.v <= Point(h.start as real, h.bins, k)
    requires bs[i].upper.Finite? ==> Point(h.start as real, h.bins, k) < bs[i].upper.v
    requires EmittedAt(h.start as real, h.bins, k, bs[i], Some(bs[i - 1]), b)
    ensures b == Sample(h, bs, k)
  {
    hide Point, Interpolate;
    SlotUnique(bs, Point(h.start as real, h.bins, k), i);
  }

  /** One call of the walker folds in one more bucket. */
  lemma FoldFinite(h: Histogram, bs: seq<Bucket>, i: nat, index: nat, out: seq<Bucket>, index': nat, res: seq<Bucket>)
    requires ValidHistogram(h) && Cumulative(bs) && i < FiniteCount(bs) && Folded(h, bs, i, index, out)
    requires index' == Reach(h.start as real, h.bins, index, bs[i].upper.v, MaxBound(h, bs))
    requires out <= res && |res| == |out| + (if i == 0 then 0 else index' - index)
    requires forall j :: |out| <= j < |res| ==>
               i > 0 && EmittedAt(h.start as real, h.bins, index + j - |out|, bs[i], Some(bs[i - 1]), res[j])
    ensures Folded(h, bs, i + 1, index', res)
  {
    hide Point, Interpolate, Curve, Reach, MaxBound;
    var start, max := h.start as real, MaxBound(h, bs);
    if i > 0 {
      ReachThrough(start, h.bins, 0, bs[i - 1].upper.v, bs[i].upper.v, max);
      forall j | |out| <= j < |res| ensures res[j] == Sample(h, bs, Lo(h, bs) + j) {
        var k := index + j - |out|;
        if index < k { PointsIncrease(start, h.bins, index, k); }
        EmittedIsSample(h, bs, i, k, res[j]);
      }
    }
  }

  lemma FoldTotal(h: Histogram, bs: seq<Bucket>, index: nat, out: seq<Bucket>, index': nat, res: seq<Bucket>,
      prev: Option<Bucket>)
    requires ValidHistogram(h) && Cumulative(bs) && Closed(bs) && Folded(h, bs, |bs| - 1, index, out)
    requires prev == if |bs| == 1 then None else Some(bs[|bs| - 2])
    requires index' == Reach(h.start as real, h.bins, index, MaxBound(h, bs), MaxBound(h, bs))
    requires out <= res && |res| == |out| + index' - index + 1
    requires forall j :: |out| <= j < |res| ==>
               EmittedAt(h.start as real, h.bins, index + j - |out|, bs[|bs| - 1], prev, res[j])
    ensures res == Rebucket(h, bs)
  {
    hide Point, Interpolate, Curve, Reach, MaxBound;
    var start, lo := h.start as real, Lo(h, bs);
    assert index == Mid(h, bs) && index' == Hi(h, bs) && |out| == index - lo;
    RunLength(h, bs);
    forall j | 0 <= j < |res| ensures res[j] == Rebucket(h, bs)[j] {
      ContiguousRun(h, bs, j);
      if |out| <= j < |res| - 1 {
        if |bs| > 1 { KeptAboveFirst(h, bs, lo + j); }
        TailIsFlat(bs, Point(start, h.bins, lo + j));
      }
    }
  }

  lemma TailIsFlat(bs: seq<Bucket>, g: real)
    requires Cumulative(bs) && Closed(bs)
    requires FiniteCount(bs) > 0 ==> LastFinite(bs) <= g
    ensures Curve(bs, g) == bs[|bs| - 1].count
  {
    SlotUnique(bs, g, |bs| - 1);
  }

  /** Translates one histogram; all three walking loops end. */
  method Translate(h: Histogram, bs: seq<Bucket>) returns (newBuckets: seq<Bucket>)
    requires ValidHistogram(h) && Cumulative(bs)
    ensures newBuckets == Rebucket(h, bs)
  {
    hide Point, Interpolate, Curve, Reach, Rebucket;
    var prev := None;
    var max := 0.0;
    if |bs| >= 2 {
      if h.end > 0 {
        max := h.end as real;
      } else {
        max := LargestBound(bs);
      }
    }
    newBuckets := [];
    var walker := new Log10Bucket(h.start as real, max, h.bins);
    for i := 0 to |bs|
      invariant walker.Valid() && walker.start == h.start as real && walker.binNums == h.bins &&
                  walker.max == MaxBound(h, bs)
      invariant prev == if i == 0 then None else Some(bs[i - 1])
      invariant Folded(h, bs, i, walker.index, newBuckets)
      modifies walker
    {
      ghost var out, index := newBuckets, walker.index;
      newBuckets := walker.AddLog10Buckets(bs[i], prev, newBuckets);
      if bs[i].upper.Finite? {
        FoldFinite(h, bs, i, index, out, walker.index, newBuckets);
      } else {
        FoldTotal(h, bs, index, out, walker.index, newBuckets, prev);
      }
      prev := Some(bs[i]);
    }
    if |bs| == 0 || !Closed(bs) { OpenFold(h, bs, walker.index, newBuckets); }
  }

  lemma OpenFold(h: Histogram, bs: seq<Bucket>, index: nat, out: seq<Bucket>)
    requires ValidHistogram(h) && Cumulative(bs) && !Closed(bs) && Folded(h, bs, |bs|, index, out)
    ensures out == Rebucket(h, bs)
  {}

  /** A family of metrics; for a histogram family, the buckets of each. */
  class MetricFamily {
    const name: string
    const isHistogram: bool
    var metrics: seq<seq<Bucket>>

    constructor (name: string, isHistogram: bool, metrics: seq<seq<Bucket>>)
      ensures this.name == name && this.isHistogram == isHistogram && this.metrics == metrics
    {
      this.name, this.isHistogram, this.metrics := name, isHistogram, metrics;
    }

    /** Translates every histogram of the family in place. */
    method TranslateAll(h: Histogram)
      requires ValidHistogram(h) && AllCumulative(metrics)
      modifies this
      ensures metrics == RebucketAll(h, old(metrics)) && AllCumulative(metrics)
    {
      hide Rebucket;
      for i := 0 to |metrics|
        invariant |metrics| == |old(metrics)|
        invariant forall j :: 0 <= j < i ==> metrics[j] == Rebucket(h, old(metrics)[j])
        invariant forall j :: i <= j < |metrics| ==> metrics[j] == old(metrics)[j]
      {
        var translated := Translate(h, metrics[i]);
        metrics := metrics[i := translated];
      }
      RebucketAllCumulative(h, old(metrics));
    }
  }

  ghost predicate AllCumulative(metrics: seq<seq<Bucket>>) {
    forall i :: 0 <= i < |metrics| ==> Cumulative(metrics[i])
  }

  ghost function RebucketAll(h: Histogram, metrics: seq<seq<Bucket>>): seq<seq<Bucket>>
    requires ValidHistogram(h) && AllCumulative(metrics)
  {
    seq(|metrics|, i requires 0 <= i < |metrics| => Rebucket(h, metrics[i]))
  }

  lemma RebucketAllCumulative(h: Histogram, metrics: seq<seq<Bucket>>)
    requires ValidHistogram(h) && AllCumulative(metrics)
    ensures AllCumulative(RebucketAll(h, metrics))
  {
    hide Rebucket;
    forall i | 0 <= i < |metrics| ensures Cumulative(Rebucket(h, metrics[i])) {
      LegalHistogram(h, metrics[i]);
    }
  }
}
