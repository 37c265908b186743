/**
Counters: absolute samples become increments of an exported series, through a cache that
remembers the last sample of each series and whose evictions delete the series.
 */
module Counters {
  import opened Lru
  import opened Wrappers
  import opened Sequences

  /** A series: a metric of the collection and the values of its labels. */
  datatype Key = Key(family: string, labels: seq<string>)

  datatype Sample = Sample(key: Key, value: real)

  /** The cache (keys by recency, last sample of each) and the exported counter series. */
  datatype CounterTable = CounterTable(order: seq<Key>, cached: map<Key, real>, exported: map<Key, real>)

  const EMPTY := CounterTable([], map[], map[])

  /** How much a sample adds to its series: a drop restarts the count from zero. */
  function Delta(c: CounterTable, s: Sample): real {
    if s.key in c.cached && c.cached[s.key] <= s.value then s.value - c.cached[s.key] else s.value
  }

  function SeriesValue(exported: map<Key, real>, k: Key): real {
    if k in exported then exported[k] else 0.0
  }

  /** The sample recorded as the most recent one, before any eviction. */
  function Record(c: CounterTable, s: Sample): CounterTable {
    CounterTable([s.key] + Remove(c.order, s.key), c.cached[s.key := s.value],
             c.exported[s.key := SeriesValue(c.exported, s.key) + Delta(c, s)])
  }

  /** The oldest key leaves the cache and its series is deleted. */
  function EvictOldest(c: CounterTable): CounterTable
    requires |c.order| > 0
  {
    var oldest := c.order[|c.order| - 1];
    CounterTable(c.order[..|c.order| - 1], c.cached - {oldest}, c.exported - {oldest})
  }

  /** One sample: only a new key can push the oldest one out. */
  function Add(c: CounterTable, s: Sample, cap: nat): CounterTable {
    var r := Record(c, s);
    if s.key !in c.cached && cap != 0 && |r.order| > cap then EvictOldest(r) else r
  }

  function AddAll(c: CounterTable, ss: seq<Sample>, cap: nat): CounterTable {
    if ss == [] then c else Add(AddAll(c, ss[..|ss| - 1], cap), ss[|ss| - 1], cap)
  }

  lemma {:induction false} AddAllConcat(c: CounterTable, a: seq<Sample>, b: seq<Sample>, cap: nat)
    ensures AddAll(c, a + b, cap) == AddAll(AddAll(c, a, cap), b, cap)
  {
    if b == [] {
      assert a + b == a;
    } else {
      assert (a + b)[..|a + b| - 1] == a + b[..|b| - 1];
      AddAllConcat(c, a, b[..|b| - 1], cap);
    }
  }

  /** The exported series are exactly the cached keys, each once. */
  ghost predicate Agree(c: CounterTable) {
    && Distinct(c.order)
    && (forall k :: k in c.order <==> k in c.cached)
    && c.exported.Keys == c.cached.Keys
  }

  lemma RecordKeepsAgree(c: CounterTable, s: Sample)
    requires Agree(c)
    ensures Agree(Record(c, s))
    ensures |Record(c, s).order| == |c.order| + if s.key in c.cached then 0 else 1
  {
    RemoveDistinct(c.order, s.key);
  }

  lemma EvictKeepsAgree(c: CounterTable)
    requires Agree(c) && |c.order| > 0
    ensures Agree(EvictOldest(c))
    ensures forall k :: k in EvictOldest(c).cached <==> k in c.cached && k != c.order[|c.order| - 1]
  {
    var n := |c.order| - 1;
    forall k ensures k in c.order[..n] <==> k in c.order && k != c.order[n] {
      assert c.order == c.order[..n] + [c.order[n]];
    }
  }

  /** A sample keeps cache and export in agreement within the capacity, and leaves its own key cached. */
  lemma AddKeepsAgree(c: CounterTable, s: Sample, cap: nat)
    requires Agree(c) && (cap != 0 ==> |c.order| <= cap)
    ensures Agree(Add(c, s, cap)) && (cap != 0 ==> |Add(c, s, cap).order| <= cap)
    ensures Add(c, s, cap).order == Touch(c.order, s.key, cap)
    ensures s.key in Add(c, s, cap).cached
  {
    hide Agree;
    RecordKeepsAgree(c, s);
    var r := Record(c, s);
    if s.key !in c.cached && cap != 0 && |r.order| > cap {
      EvictKeepsAgree(r);
      assert r.order[0] == s.key;
      DistinctEnds(r);
    }
  }

  lemma DistinctEnds(c: CounterTable)
    requires Agree(c) && |c.order| > 1
    ensures c.order[0] != c.order[|c.order| - 1]
  {}

  function Keys(ss: seq<Sample>): (ks: seq<Key>)
    ensures |ks| == |ss|
  {
    seq(|ss|, i requires 0 <= i < |ss| => ss[i].key)
  }

  /** Cache and export agree after any samples, and the cache is the least-recently-used one. */
  lemma {:induction false} CacheAndExportAgree(ss: seq<Sample>, cap: nat)
    ensures Agree(AddAll(EMPTY, ss, cap)) && (cap != 0 ==> |AddAll(EMPTY, ss, cap).order| <= cap)
    ensures AddAll(EMPTY, ss, cap).order == Run(Keys(ss), cap)
  {
    if ss != [] {
      var p, s := ss[..|ss| - 1], ss[|ss| - 1];
      CacheAndExportAgree(p, cap);
      AddKeepsAgree(AddAll(EMPTY, p, cap), s, cap);
      assert Keys(ss)[..|ss| - 1] == Keys(p);
    }
  }

  /***** What a series shows *****/

  /** The samples of k since it was last inserted; none if it is not cached. */
  ghost function History(ss: seq<Sample>, k: Key, cap: nat): seq<real> {
    if ss == [] || k !in AddAll(EMPTY, ss, cap).cached then []
    else
      var before := History(ss[..|ss| - 1], k, cap);
      if ss[|ss| - 1].key == k then before + [ss[|ss| - 1].value] else before
  }

  /** The samples that were followed by a smaller one. */
  ghost function Drops(vs: seq<real>): real {
    if |vs| < 2 then 0.0
    else Drops(vs[..|vs| - 1]) + if vs[|vs| - 2] > vs[|vs| - 1] then vs[|vs| - 2] else 0.0
  }

  /** What a sample does to a series: its own gets the increment, any other that stays cached is untouched. */
  lemma AddEffect(c: CounterTable, s: Sample, k: Key, cap: nat)
    requires Agree(c) && (cap != 0 ==> |c.order| <= cap)
    ensures k in c.cached <==> k in c.exported
    ensures k in Add(c, s, cap).cached <==> k in Add(c, s, cap).exported
    ensures k == s.key ==> k in Add(c, s, cap).cached && Add(c, s, cap).cached[k] == s.value
    ensures k == s.key ==> Add(c, s, cap).exported[k] == SeriesValue(c.exported, k) + Delta(c, s)
    ensures k != s.key && k in Add(c, s, cap).cached ==>
              k in c.cached && Add(c, s, cap).cached[k] == c.cached[k] && Add(c, s, cap).exported[k] == c.exported[k]
  {
    AddKeepsAgree(c, s, cap);
  }

  /** An exported counter is its last sample plus every sample that immediately preceded a drop. */
  lemma {:induction false} CounterValue(ss: seq<Sample>, k: Key, cap: nat)
    ensures var c := AddAll(EMPTY, ss, cap);
            var vs := History(ss, k, cap);
            if k in c.exported then
              k in c.cached && vs != [] && c.cached[k] == vs[|vs| - 1] && c.exported[k] == vs[|vs| - 1] + Drops(vs)
            else vs == []
  {
    hide Add, Agree;
    if ss != [] {
      var p, s := ss[..|ss| - 1], ss[|ss| - 1];
      var b, vs := AddAll(EMPTY, p, cap), History(p, k, cap);
      CounterValue(p, k, cap);
      CacheAndExportAgree(p, cap);
      AddEffect(b, s, k, cap);
      assert (vs + [s.value])[..|vs|] == vs;
    }
  }

  ghost predicate NonNegative(ss: seq<Sample>) {
    forall i :: 0 <= i < |ss| ==> ss[i].value >= 0.0
  }

  lemma {:induction false} CachedNonNegative(ss: seq<Sample>, cap: nat)
    requires NonNegative(ss)
    ensures forall k :: k in AddAll(EMPTY, ss, cap).cached ==> AddAll(EMPTY, ss, cap).cached[k] >= 0.0
  {
    if ss != [] {
      CachedNonNegative(ss[..|ss| - 1], cap);
    }
  }

  /** A counter vector refuses negative increments: none arises exactly when the sample is not negative. */
  lemma IncrementLegalIff(ss: seq<Sample>, s: Sample, cap: nat)
    requires NonNegative(ss)
    ensures Delta(AddAll(EMPTY, ss, cap), s) >= 0.0 <==> s.value >= 0.0
  {
    CachedNonNegative(ss, cap);
  }

  lemma NonNegativeSplit(ss: seq<Sample>, s: Sample)
    requires NonNegative(ss + [s])
    ensures NonNegative(ss) && s.value >= 0.0
  {
    assert forall i :: 0 <= i < |ss| ==> (ss + [s])[i] == ss[i];
    assert (ss + [s])[|ss|] == s;
  }

  lemma CachedIsExported(ss: seq<Sample>, k: Key, cap: nat)
    ensures k in AddAll(EMPTY, ss, cap).cached <==> k in AddAll(EMPTY, ss, cap).exported
  {
    CacheAndExportAgree(ss, cap);
  }

  /** While its key stays cached, an exported counter never decreases. */
  lemma {:induction false} CounterNeverDecreases(a: seq<Sample>, b: seq<Sample>, k: Key, cap: nat)
    requires NonNegative(a + b)
    requires forall i :: 0 <= i <= |b| ==> k in AddAll(EMPTY, a + b[..i], cap).cached
    ensures k in AddAll(EMPTY, a, cap).exported && k in AddAll(EMPTY, a + b, cap).exported
    ensures AddAll(EMPTY, a, cap).exported[k] <= AddAll(EMPTY, a + b, cap).exported[k]
  {
    hide Add, Agree, Delta, NonNegative;
    assert a + b[..0] == a && a + b[..|b|] == a + b;
    CachedIsExported(a, k, cap);
    CachedIsExported(a + b, k, cap);
    if b != [] {
      var p, s := b[..|b| - 1], b[|b| - 1];
      assert a + b == (a + p) + [s];
      assert (a + b)[..|a + b| - 1] == a + p;
      forall i | 0 <= i <= |p| ensures k in AddAll(EMPTY, a + p[..i], cap).cached { assert p[..i] == b[..i]; }
      NonNegativeSplit(a + p, s);
      CounterNeverDecreases(a, p, k, cap);
      CacheAndExportAgree(a + p, cap);
      IncrementLegalIff(a + p, s, cap);
      AddEffect(AddAll(EMPTY, a + p, cap), s, k, cap);
    }
  }

  /** The series that have samples. */
  ghost function Series(ss: seq<Sample>): set<Key> {
    Elements(Keys(ss))
  }

  lemma SeriesConcat(a: seq<Sample>, b: seq<Sample>)
    ensures Series(a + b) == Series(a) + Series(b)
  {
    assert Keys(a + b) == Keys(a) + Keys(b);
  }

  lemma SeriesOf(s: Sample)
    ensures Series([]) == {} && Series([s]) == {s.key}
  {
    assert Keys([s]) == [s.key];
  }

  /** No series touched in the current or the previous pass is ever evicted when the cache has room for both. */
  lemma TwoPassesResident(before: seq<Sample>, previous: seq<Sample>, current: seq<Sample>, cap: nat, i: nat, k: Key)
    requires cap == 0 || |Series(previous + current)| <= cap
    requires i <= |current| && k in Keys(previous + current[..i])
    ensures k in AddAll(EMPTY, before + previous + current[..i], cap).exported
  {
    hide AddAll, Series;
    var ss, recent := before + previous + current[..i], previous + current[..i];
    CacheAndExportAgree(ss, cap);
    assert Keys(ss) == Keys(before) + Keys(recent);
    FewerSeries(previous, current, i);
    RecentKeyCached(before, recent, cap, k);
  }

  lemma FewerSeries(previous: seq<Sample>, current: seq<Sample>, i: nat)
    requires i <= |current|
    ensures |Series(previous + current[..i])| <= |Series(previous + current)|
  {
    var recent := previous + current[..i];
    assert previous + current == recent + current[i..];
    SeriesConcat(recent, current[i..]);
    CountSubset(Series(recent), Series(previous + current));
  }

  lemma RecentKeyCached(before: seq<Sample>, recent: seq<Sample>, cap: nat, k: Key)
    requires k in Keys(recent) && (cap == 0 || |Series(recent)| <= cap)
    ensures k in Run(Keys(before) + Keys(recent), cap)
  {
    RecentlyTouchedIsResident(Keys(before), Keys(recent), k, cap);
  }

  lemma CachedThroughout(before: seq<Sample>, previous: seq<Sample>, current: seq<Sample>, cap: nat, k: Key, i: nat)
    requires cap == 0 || |Series(previous + current)| <= cap
    requires k in Keys(previous) && i <= |current|
    ensures k in AddAll(EMPTY, before + previous + current[..i], cap).cached
  {
    var j :| 0 <= j < |previous| && Keys(previous)[j] == k;
    assert Keys(previous + current[..i])[j] == k;
    TwoPassesResident(before, previous, current, cap, i, k);
    CachedIsExported(before + previous + current[..i], k, cap);
  }

  /** So a series returned by both passes keeps its running total: it only grows from one pass to the next. */
  lemma RunningTotalSurvives(before: seq<Sample>, previous: seq<Sample>, current: seq<Sample>, cap: nat, k: Key)
    requires cap == 0 || |Series(previous + current)| <= cap
    requires NonNegative(before + previous + current) && k in Keys(previous)
    ensures k in AddAll(EMPTY, before + previous, cap).exported
    ensures k in AddAll(EMPTY, before + previous + current, cap).exported
    ensures AddAll(EMPTY, before + previous, cap).exported[k] <=
              AddAll(EMPTY, before + previous + current, cap).exported[k]
  {
    forall i | 0 <= i <= |current| ensures k in AddAll(EMPTY, before + previous + current[..i], cap).cached {
      CachedThroughout(before, previous, current, cap, k, i);
    }
    CounterNeverDecreases(before + previous, current, k, cap);
  }

  /***** Any number of passes *****/

  /** The samples of k, in order. */
  ghost function ValuesOf(ss: seq<Sample>, k: Key): seq<real> {
    if ss == [] then []
    else ValuesOf(ss[..|ss| - 1], k) + if ss[|ss| - 1].key == k then [ss[|ss| - 1].value] else []
  }

  ghost function Flat(passes: seq<seq<Sample>>): seq<Sample> {
    if passes == [] then [] else Flat(passes[..|passes| - 1]) + passes[|passes| - 1]
  }

  lemma {:induction false} ValuesOfConcat(a: seq<Sample>, b: seq<Sample>, k: Key)
    ensures ValuesOf(a + b, k) == ValuesOf(a, k) + ValuesOf(b, k)
  {
    if b == [] {
      assert a + b == a;
    } else {
      assert (a + b)[..|a + b| - 1] == a + b[..|b| - 1];
      ValuesOfConcat(a, b[..|b| - 1], k);
    }
  }

  /** While a key stays cached, its history takes in each of its samples. */
  lemma {:induction false} HistoryExtends(a: seq<Sample>, b: seq<Sample>, k: Key, cap: nat)
    requires forall i :: 0 <= i <= |b| ==> k in AddAll(EMPTY, a + b[..i], cap).cached
    ensures History(a + b, k, cap) == History(a, k, cap) + ValuesOf(b, k)
  {
    hide AddAll;
    assert a + b[..|b|] == a + b;
    if b == [] {
      assert a + b == a;
    } else {
      var p := b[..|b| - 1];
      assert (a + b)[..|a + b| - 1] == a + p;
      forall i | 0 <= i <= |p| ensures k in AddAll(EMPTY, a + p[..i], cap).cached { assert p[..i] == b[..i]; }
      HistoryExtends(a, p, k, cap);
    }
  }

  /** The series of every pass fit into the cache together with those of the one before it. */
  ghost predicate NeighboursFit(passes: seq<seq<Sample>>, cap: nat) {
    cap == 0 ||
    forall i, j :: 0 <= i < |passes| && 0 <= j < |passes| && i <= j <= i + 1 ==>
      |Series(passes[i] + if i == j then [] else passes[j])| <= cap
  }

  lemma {:induction false} HistoryOverPasses(before: seq<Sample>, passes: seq<seq<Sample>>, cap: nat, k: Key)
    requires passes != [] && NeighboursFit(passes, cap)
    requires forall i :: 0 <= i < |passes| ==> k in Keys(passes[i])
    ensures History(before + Flat(passes), k, cap) ==
              History(before + passes[0], k, cap) + ValuesOf(Flat(passes[1..]), k)
  {
    hide History, ValuesOf, Keys;
    var n := |passes| - 1;
    var p, last := passes[..n], passes[n];
    if n == 0 {
      assert Flat(passes) == Flat([]) + last == last;
      assert ValuesOf(Flat(passes[1..]), k) == [] by { NoValues(k); }
    } else {
      HistoryOverPasses(before, p, cap, k);
      var earlier, previous := before + Flat(p[..n - 1]), p[n - 1];
      assert previous == passes[n - 1];
      var a := earlier + previous;
      assert a == before + Flat(p);
      assert before + Flat(passes) == a + last;
      forall i | 0 <= i <= |last| ensures k in AddAll(EMPTY, a + last[..i], cap).cached {
        CachedThroughout(earlier, previous, last, cap, k, i);
      }
      HistoryExtends(a, last, k, cap);
      assert passes[1..][..n - 1] == p[1..];
      ValuesOfConcat(Flat(p[1..]), last, k);
    }
  }

  lemma NoValues(k: Key)
    ensures ValuesOf(Flat([]), k) == []
  {}

  /** A series that every pass returns never loses its running total: over any number of passes no sample is forgotten,
      and the exported counter is the last sample plus all samples before a drop, across all passes. */
  lemma TotalOverPasses(before: seq<Sample>, passes: seq<seq<Sample>>, cap: nat, k: Key)
    requires passes != [] && NeighboursFit(passes, cap)
    requires forall i :: 0 <= i < |passes| ==> k in Keys(passes[i])
    ensures var c := AddAll(EMPTY, before + Flat(passes), cap);
            var vs := History(before + passes[0], k, cap) + ValuesOf(Flat(passes[1..]), k);
            k in c.exported && vs != [] && c.exported[k] == vs[|vs| - 1] + Drops(vs)
  {
    var n := |passes| - 1;
    hide AddAll, History, ValuesOf, Drops, Keys;
    HistoryOverPasses(before, passes, cap, k);
    var ss := before + Flat(passes[..n]) + passes[n];
    assert ss == before + Flat(passes);
    CounterValue(before + Flat(passes), k, cap);
    CachedThroughout(before + Flat(passes[..n]), passes[n], [], cap, k, 0);
    assert ss + [][..0] == ss;
    CachedIsExported(ss, k, cap);
  }

  /** Exactly when a series survives until it is sampled again: fewer other series than the cache holds came between. */
  lemma SurvivesIff(before: seq<Sample>, s: Sample, since: seq<Sample>, cap: nat)
    requires s.key !in Keys(since)
    ensures s.key in AddAll(EMPTY, before + [s] + since, cap).exported <==> cap == 0 || |Series(since)| < cap
  {
    hide AddAll, Recent;
    var ss := before + [s] + since;
    CacheAndExportAgree(ss, cap);
    assert Keys(ss) == Keys(before) + [s.key] + Keys(since);
    ResidentIff(Keys(before), s.key, Keys(since), cap);
    RecentCount(Keys(since));
  }

  /** The cache holds the last sample of a series. */
  lemma {:induction false} LastSampleCached(ss: seq<Sample>, i: nat, cap: nat)
    requires i < |ss| && (forall j :: i < j < |ss| ==> ss[j].key != ss[i].key)
    requires ss[i].key in AddAll(EMPTY, ss, cap).cached
    ensures AddAll(EMPTY, ss, cap).cached[ss[i].key] == ss[i].value
  {
    hide Add, Agree;
    var n := |ss| - 1;
    var p := ss[..n];
    assert AddAll(EMPTY, ss, cap) == Add(AddAll(EMPTY, p, cap), ss[n], cap);
    hide AddAll;
    CacheAndExportAgree(p, cap);
    AddEffect(AddAll(EMPTY, p, cap), ss[n], ss[i].key, cap);
    if i < n {
      assert p[i] == ss[i] && forall j :: i < j < n ==> p[j] == ss[j];
      LastSampleCached(p, i, cap);
    }
  }

  /** The last sample of k. */
  ghost function LastOf(ss: seq<Sample>, k: Key): Option<real> {
    if ss == [] then None
    else if ss[|ss| - 1].key == k then Some(ss[|ss| - 1].value) else LastOf(ss[..|ss| - 1], k)
  }

  lemma {:induction false} LastOfConcat(a: seq<Sample>, b: seq<Sample>, k: Key)
    ensures LastOf(a + b, k) == if LastOf(b, k).Some? then LastOf(b, k) else LastOf(a, k)
  {
    if b == [] {
      assert a + b == a;
    } else {
      assert (a + b)[..|a + b| - 1] == a + b[..|b| - 1];
      LastOfConcat(a, b[..|b| - 1], k);
    }
  }

  lemma {:induction false} LastOfIsSample(ss: seq<Sample>, k: Key)
    requires LastOf(ss, k).Some?
    ensures Sample(k, LastOf(ss, k).value) in ss
  {
    if ss[|ss| - 1].key == k {
      assert ss[|ss| - 1] == Sample(k, LastOf(ss, k).value);
    } else {
      LastOfIsSample(ss[..|ss| - 1], k);
    }
  }

  lemma {:induction false} CachedIsLastOf(ss: seq<Sample>, k: Key, cap: nat)
    requires k in AddAll(EMPTY, ss, cap).cached
    ensures LastOf(ss, k) == Some(AddAll(EMPTY, ss, cap).cached[k])
  {
    hide Add, Agree;
    if ss != [] {
      var n := |ss| - 1;
      var p := ss[..n];
      assert AddAll(EMPTY, ss, cap) == Add(AddAll(EMPTY, p, cap), ss[n], cap);
      hide AddAll;
      CacheAndExportAgree(p, cap);
      AddEffect(AddAll(EMPTY, p, cap), ss[n], k, cap);
      if ss[n].key != k { CachedIsLastOf(p, k, cap); }
    }
  }

  /** What its next sample does: it goes on counting exactly if the series has survived, and otherwise starts anew,
      whatever was counted before. */
  lemma CountsOnIff(before: seq<Sample>, s: Sample, since: seq<Sample>, next: Sample, cap: nat)
    requires s.key !in Keys(since) && next.key == s.key
    ensures var c := AddAll(EMPTY, before + [s] + since, cap);
            var r := AddAll(EMPTY, before + [s] + since + [next], cap);
            && s.key in r.exported
            && if cap == 0 || |Series(since)| < cap then
                 && s.key in c.exported
                 && r.exported[s.key] == c.exported[s.key] + next.value - if next.value < s.value then 0.0 else s.value
               else r.exported[s.key] == next.value
  {
    hide Add, Agree, Series;
    var ss := before + [s] + since;
    var c := AddAll(EMPTY, ss, cap);
    assert (ss + [next])[..|ss|] == ss;
    CacheAndExportAgree(ss, cap);
    AddEffect(c, next, s.key, cap);
    SurvivesIff(before, s, since, cap);
    if s.key in c.cached {
      forall j | |before| < j < |ss| ensures ss[j].key != s.key {
        assert ss[j].key == Keys(since)[j - |before| - 1];
      }
      LastSampleCached(ss, |before|, cap);
    }
  }
}
