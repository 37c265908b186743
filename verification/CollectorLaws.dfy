/**
What the collector promises over whole runs: running totals survive from pass to pass, and
the exported gauges are the rows of the last pass.
 */
module CollectorLaws {
  import opened Wrappers
  import opened Counters
  import Lru
  import opened Sequences
  import opened Gauges
  import opened ResultSets
  import opened Collector

  /***** Counters *****/

  /** The capacity of the cache holds two passes, so a series of one pass keeps its total through the next. */
  lemma TotalsSurvivePasses(sh: Shape, counters: nat, maxResults: nat, before: seq<Sample>,
                            db: string, rs: ResultSet, db': string, rs': ResultSet, k: Key)
    requires |CounterNames(sh)| <= counters
    requires Rectangular(rs) && LabelsFirst(sh, rs.columns) && NonNegativeCounters(sh, rs) && |rs.rows| <= maxResults
    requires Rectangular(rs') && LabelsFirst(sh, rs'.columns) && NonNegativeCounters(sh, rs') &&
               |rs'.rows| <= maxResults
    requires NonNegative(before) && k in Keys(PassSamples(sh, db, rs, |rs.rows|))
    ensures var cap := 2 * counters * maxResults;
            var mid := AddAll(EMPTY, before + PassSamples(sh, db, rs, |rs.rows|), cap);
            var end := AddAll(mid, PassSamples(sh, db', rs', |rs'.rows|), cap);
            k in mid.exported && k in end.exported && mid.exported[k] <= end.exported[k]
  {
    hide AddAll, PassSamples, Rectangular, NonNegative, CounterNames, LabelsFirst, Series;
    var p, q := PassSamples(sh, db, rs, |rs.rows|), PassSamples(sh, db', rs', |rs'.rows|);
    var cap := 2 * counters * maxResults;
    PassFits(sh, counters, maxResults, db, rs);
    PassFits(sh, counters, maxResults, db', rs');
    PassNonNegative(sh, db, rs, |rs.rows|);
    PassNonNegative(sh, db', rs', |rs'.rows|);
    NonNegativeConcat(before, p);
    NonNegativeConcat(before + p, q);
    assert 2 * counters * maxResults == counters * maxResults + counters * maxResults;
    SeriesConcat(p, q);
    RunningTotalSurvives(before, p, q, cap, k);
    AddAllConcat(EMPTY, before + p, q, cap);
  }

  /** One pass of a collection: the database it reads and what the query returns. */
  datatype Reading = Reading(db: string, rs: ResultSet)

  ghost predicate AllWithin(sh: Shape, qs: seq<Reading>, maxResults: nat) {
    forall i :: 0 <= i < |qs| ==>
      Rectangular(qs[i].rs) && LabelsFirst(sh, qs[i].rs.columns) && |qs[i].rs.rows| <= maxResults
  }

  ghost function SamplesOf(sh: Shape, qs: seq<Reading>, maxResults: nat): seq<seq<Sample>>
    requires AllWithin(sh, qs, maxResults)
  {
    seq(|qs|, i requires 0 <= i < |qs| => PassSamples(sh, qs[i].db, qs[i].rs, |qs[i].rs.rows|))
  }

  /** With the collector's capacity, over any number of passes, a series that each of them returns counts every one of
      its samples: the exported counter is the last one plus all those that immediately preceded a drop. */
  lemma TotalsNeverLost(sh: Shape, counters: nat, maxResults: nat, before: seq<Sample>, qs: seq<Reading>, k: Key)
    requires |CounterNames(sh)| <= counters && qs != [] && AllWithin(sh, qs, maxResults)
    requires forall i :: 0 <= i < |qs| ==> k in Keys(SamplesOf(sh, qs, maxResults)[i])
    ensures var cap := 2 * counters * maxResults;
            var passes := SamplesOf(sh, qs, maxResults);
            var c := AddAll(EMPTY, before + Flat(passes), cap);
            var vs := History(before + passes[0], k, cap) + ValuesOf(Flat(passes[1..]), k);
            k in c.exported && vs != [] && c.exported[k] == vs[|vs| - 1] + Drops(vs)
  {
    hide AddAll, PassSamples, CounterNames, History, ValuesOf, Flat, Drops, Series, LabelsFirst;
    var passes := SamplesOf(sh, qs, maxResults);
    var room := counters * maxResults;
    assert 2 * counters * maxResults == room + room;
    forall i | 0 <= i < |passes| ensures |Series(passes[i])| <= room {
      PassFits(sh, counters, maxResults, qs[i].db, qs[i].rs);
    }
    NeighboursWithin(passes, room);
    TotalOverPasses(before, passes, 2 * counters * maxResults, k);
  }

  /** What one run over all databases has counted: the first `done` answers. */
  datatype Round = Round(dbs: seq<string>, answers: seq<Answer>, done: nat)

  ghost predicate IsCounted(sh: Shape, r: Round) {
    r.done <= |r.answers| == |r.dbs| && forall i :: 0 <= i < r.done ==> Counted(sh, r.answers[i])
  }

  /** The number of rows in the first n answers. */
  ghost function TotalRows(sh: Shape, answers: seq<Answer>, n: nat): nat
    requires n <= |answers| && forall i :: 0 <= i < n ==> Counted(sh, answers[i])
  {
    if n == 0 then 0
    else
      assert Counted(sh, answers[n - 1]);
      TotalRows(sh, answers, n - 1) + |answers[n - 1].rs.rows|
  }

  lemma {:induction false} RoundSeriesBound(sh: Shape, dbs: seq<string>, answers: seq<Answer>, n: nat)
    requires n <= |answers| == |dbs| && forall i :: 0 <= i < n ==> Counted(sh, answers[i])
    ensures |Series(AllSamples(sh, dbs, answers, n))| <= |CounterNames(sh)| * TotalRows(sh, answers, n)
  {
    hide Series, PassSamples, CounterNames;
    if n == 0 {
      SeriesOf(Sample(Key("", []), 0.0));
    } else {
      assert Counted(sh, answers[n - 1]);
      var rs := answers[n - 1].rs;
      UsableParts(sh, answers[n - 1]);
      hide Counted, LabelsFirst;
      RoundSeriesBound(sh, dbs, answers, n - 1);
      PassSeriesBound(sh, dbs[n - 1], rs, |rs.rows|);
      SeriesConcat(AllSamples(sh, dbs, answers, n - 1), PassSamples(sh, dbs[n - 1], rs, |rs.rows|));
      Distribute(|CounterNames(sh)|, TotalRows(sh, answers, n - 1), |rs.rows|);
    }
  }

  lemma Distribute(a: nat, b: nat, c: nat)
    ensures a * (b + c) == a * b + a * c
  {}

  ghost function SamplesIn(sh: Shape, r: Round): seq<Sample>
    requires IsCounted(sh, r)
  {
    AllSamples(sh, r.dbs, r.answers, r.done)
  }

  ghost function RoundSamples(sh: Shape, rounds: seq<Round>): seq<seq<Sample>>
    requires forall i :: 0 <= i < |rounds| ==> IsCounted(sh, rounds[i])
  {
    seq(|rounds|, i requires 0 <= i < |rounds| => SamplesIn(sh, rounds[i]))
  }

  /** With several databases too: over any number of runs, a series that each of them returns counts every one of its
      samples, if the rows of a run over all its databases together are at most `maxResults`. */
  lemma TotalsNeverLostOverDatabases(sh: Shape, counters: nat, maxResults: nat, before: seq<Sample>, rounds: seq<Round>,
      k: Key)
    requires |CounterNames(sh)| <= counters && rounds != []
    requires forall i :: 0 <= i < |rounds| ==>
               IsCounted(sh, rounds[i]) && TotalRows(sh, rounds[i].answers, rounds[i].done) <= maxResults
    requires forall i :: 0 <= i < |rounds| ==> k in Keys(RoundSamples(sh, rounds)[i])
    ensures var cap := 2 * counters * maxResults;
            var passes := RoundSamples(sh, rounds);
            var c := AddAll(EMPTY, before + Flat(passes), cap);
            var vs := History(before + passes[0], k, cap) + ValuesOf(Flat(passes[1..]), k);
            k in c.exported && vs != [] && c.exported[k] == vs[|vs| - 1] + Drops(vs)
  {
    hide AddAll, AllSamples, CounterNames, History, ValuesOf, Flat, Drops, Series, TotalRows;
    var passes := RoundSamples(sh, rounds);
    var room := counters * maxResults;
    assert 2 * counters * maxResults == room + room;
    forall i | 0 <= i < |passes| ensures |Series(passes[i])| <= room {
      var r := rounds[i];
      RoundSeriesBound(sh, r.dbs, r.answers, r.done);
      MulMonotone(|CounterNames(sh)|, counters, TotalRows(sh, r.answers, r.done), maxResults);
    }
    NeighboursWithin(passes, room);
    TotalOverPasses(before, passes, 2 * counters * maxResults, k);
  }

  /** A collection with one label and one counter, over several databases. */
  const ONE_COUNTER := Shape(["l"], map["c" := Counter], true)

  /** Two rows of it. */
  function TwoRows(x: string, vx: real, y: string, vy: real): ResultSet {
    ResultSet(["l", "c"], [Values([Text(x), Float(vx)]), Values([Text(y), Float(vy)])])
  }

  lemma RowSample(db: string, x: string, v: real)
    requires db != ""
    ensures RowSamples(ONE_COUNTER, db, ["l", "c"], [Text(x), Float(v)], 2) == [Sample(Key("c", [x, db]), v)]
  {
    var columns, cells := ["l", "c"], [Text(x), Float(v)];
    assert LabelMap(["l"]) == map["l" := 0] by { assert ["l"][..0] == []; }
    assert BlankLabels(ONE_COUNTER, db) == ["", db];
    assert RowLabels(ONE_COUNTER, db, columns, cells, 0) == ["", db];
    assert RowLabels(ONE_COUNTER, db, columns, cells, 1) == [x, db];
    assert RowSamples(ONE_COUNTER, db, columns, cells, 1) == [];
  }

  lemma TwoRowSamples(db: string, x: string, vx: real, y: string, vy: real)
    requires db != ""
    ensures var rs := TwoRows(x, vx, y, vy);
            && Rectangular(rs) && LabelsFirst(ONE_COUNTER, rs.columns) && |rs.rows| == 2
            && PassSamples(ONE_COUNTER, db, rs, 2) == [Sample(Key("c", [x, db]), vx), Sample(Key("c", [y, db]), vy)]
  {
    hide RowSamples;
    var rs := TwoRows(x, vx, y, vy);
    RowSample(db, x, vx);
    RowSample(db, y, vy);
    assert PassSamples(ONE_COUNTER, db, rs, 0) == [];
    assert PassSamples(ONE_COUNTER, db, rs, 1) == [Sample(Key("c", [x, db]), vx)];
  }

  /** Without that bound two databases are enough to lose a total, though each of them returns at most `maxResults` rows
      and every pass over the first one returns the series: here its counter falls from v to w. */
  lemma TwoDatabasesLoseTotal(v: real, w: real)
    requires 0.0 <= w < v
    ensures var cap := 2 * 1 * 2;
            var first := TwoRows("k", v, "a", 0.0);
            var second := TwoRows("p", 0.0, "q", 0.0);
            var third := TwoRows("b", 0.0, "k", w);
            && Rectangular(first) && Rectangular(second) && Rectangular(third)
            && var s1 := PassSamples(ONE_COUNTER, "d", first, 2);
               var s2 := PassSamples(ONE_COUNTER, "e", second, 2);
               var s3 := PassSamples(ONE_COUNTER, "d", third, 2);
               var k := Key("c", ["k", "d"]);
               var c, r := AddAll(EMPTY, s1, cap), AddAll(EMPTY, s1 + s2 + s3, cap);
               && k in Keys(s1) && k in Keys(s3)
               && k in c.exported && c.exported[k] == v && k in r.exported && r.exported[k] == w
  {
    hide AddAll, PassSamples, TwoRows, Series;
    var cap, k := 4, Key("c", ["k", "d"]);
    TwoRowSamples("d", "k", v, "a", 0.0);
    TwoRowSamples("e", "p", 0.0, "q", 0.0);
    TwoRowSamples("d", "b", 0.0, "k", w);
    var a, p, q, b := Key("c", ["a", "d"]), Key("c", ["p", "e"]), Key("c", ["q", "e"]), Key("c", ["b", "d"]);
    var s := Sample(k, v);
    var since := [Sample(a, 0.0), Sample(p, 0.0), Sample(q, 0.0), Sample(b, 0.0)];
    FourSeries(since);
    CountsOnIff([], s, since, Sample(k, w), cap);
    assert [s, since[0]] + [since[1], since[2]] + [since[3], Sample(k, w)] == [] + [s] + since + [Sample(k, w)];
    FirstOfTwo(s, since[0], cap);
    assert Keys([s, since[0]])[0] == k && Keys([since[3], Sample(k, w)])[1] == k;
  }

  lemma FourSeries(ss: seq<Sample>)
    requires |ss| == 4 && Distinct(Keys(ss))
    ensures |Series(ss)| == 4
  {
    Lru.CountDistinct(Keys(ss));
  }

  lemma FirstOfTwo(s: Sample, t: Sample, cap: nat)
    requires s.key != t.key && cap > 1
    ensures s.key in AddAll(EMPTY, [s, t], cap).exported && AddAll(EMPTY, [s, t], cap).exported[s.key] == s.value
  {
    assert [s, t][..1] == [s] && [s][..0] == [];
    assert AddAll(EMPTY, [s], cap) == Add(EMPTY, s, cap);
    AddKeepsAgree(EMPTY, s, cap);
    assert Lru.Remove([s.key], t.key) == [s.key];
  }

  lemma NeighboursWithin(passes: seq<seq<Sample>>, room: nat)
    requires forall i :: 0 <= i < |passes| ==> |Series(passes[i])| <= room
    ensures NeighboursFit(passes, room + room)
  {
    hide Series;
    forall i, j | 0 <= i < |passes| && 0 <= j < |passes| && i <= j <= i + 1
      ensures |Series(passes[i] + if i == j then [] else passes[j])| <= room + room
    {
      if i == j {
        assert passes[i] + [] == passes[i];
      } else {
        SeriesConcat(passes[i], passes[j]);
      }
    }
  }

  lemma PassFits(sh: Shape, counters: nat, maxResults: nat, db: string, rs: ResultSet)
    requires |CounterNames(sh)| <= counters && |rs.rows| <= maxResults
    requires Rectangular(rs) && LabelsFirst(sh, rs.columns)
    ensures |Series(PassSamples(sh, db, rs, |rs.rows|))| <= counters * maxResults
  {
    hide CounterNames, PassSamples, Series;
    PassSeriesBound(sh, db, rs, |rs.rows|);
    MulMonotone(|CounterNames(sh)|, counters, |rs.rows|, maxResults);
  }

  lemma MulMonotone(a: nat, b: nat, c: nat, d: nat)
    requires a <= b && c <= d
    ensures a * c <= b * d
  {
    assert a * c <= b * c <= b * d;
  }

  lemma NonNegativeConcat(a: seq<Sample>, b: seq<Sample>)
    requires NonNegative(a) && NonNegative(b)
    ensures NonNegative(a + b)
  {}

  /***** Gauges *****/

  ghost predicate PlainRow(sh: Shape, columns: seq<string>, cells: seq<ResultSets.Value>)
    requires |columns| == |cells|
  {
    forall j :: 0 <= j < |columns| && IsLabel(sh, columns[j]) && cells[j].Text? ==> '|' !in cells[j].s
  }

  /** No label value of a pass contains "|". */
  ghost predicate PlainPass(sh: Shape, db: string, rs: ResultSet)
    requires Rectangular(rs)
  {
    '|' !in db && forall i :: 0 <= i < |rs.rows| && rs.rows[i].Values? ==> PlainRow(sh, rs.columns, rs.rows[i].cells)
  }

  lemma {:induction false} RowLabelsPlain(sh: Shape, db: string, columns: seq<string>, cells: seq<ResultSets.Value>,
      j: nat)
    requires j <= |columns| == |cells| && '|' !in db && PlainRow(sh, columns, cells)
    ensures NoPipe(RowLabels(sh, db, columns, cells, j))
  {
    if j > 0 {
      RowLabelsPlain(sh, db, columns, cells, j - 1);
    }
  }

  lemma PassIsPlain(sh: Shape, db: string, rs: ResultSet)
    requires Rectangular(rs) && LabelsFirst(sh, rs.columns) && PlainPass(sh, db, rs)
    ensures PlainCells(PassCells(sh, db, rs, |rs.rows|), GaugeNames(sh), Arity(sh))
  {
    hide PassCells, LabelsFirst;
    var cells := PassCells(sh, db, rs, |rs.rows|);
    forall i | 0 <= i < |cells| ensures Plain(cells[i].key, GaugeNames(sh), Arity(sh)) {
      var r := PassCellsHaveTuples(sh, db, rs, |rs.rows|, cells[i]);
      RowLabelsPlain(sh, db, rs.columns, rs.rows[r].cells, |rs.columns|);
    }
  }

  /** k is the label tuple of a row of the pass, for a gauge of the collection. */
  ghost predicate IsRow(sh: Shape, db: string, rs: ResultSet, k: Key)
    requires Rectangular(rs)
  {
    && k.family in GaugeNames(sh)
    && exists r :: 0 <= r < |rs.rows| && rs.rows[r].Values? && k.labels == Tuple(sh, db, rs.columns, rs.rows[r].cells)
  }

  /** After a pass the exported gauges are rows of it, with their last numeric values, and the next pass starts as
      clean. */
  lemma GaugesAreRows(sh: Shape, g: GaugeTable, db: string, rs: ResultSet)
    requires Clean(g, GaugeNames(sh), Arity(sh))
    requires Rectangular(rs) && LabelsFirst(sh, rs.columns) && PlainPass(sh, db, rs)
    ensures var cells := PassCells(sh, db, rs, |rs.rows|);
            var after := Pass(g, cells, GaugeNames(sh));
            && Clean(after, GaugeNames(sh), Arity(sh))
            && (forall k :: k in after.exported ==> IsRow(sh, db, rs, k))
            && (forall k :: LastValue(cells, k).Some? ==>
              k in after.exported && after.exported[k] == LastValue(cells, k).value)
  {
    hide Pass, PassCells, Clean, LabelsFirst, PlainPass, PlainCells, GaugeNames;
    var cells := PassCells(sh, db, rs, |rs.rows|);
    var after := Pass(g, cells, GaugeNames(sh));
    PassIsPlain(sh, db, rs);
    PassSweeps(g, cells, GaugeNames(sh), Arity(sh));
    forall k | k in after.exported ensures IsRow(sh, db, rs, k) {
      SeenIsRow(sh, db, rs, k);
    }
  }

  lemma SeenIsRow(sh: Shape, db: string, rs: ResultSet, k: Key)
    requires Rectangular(rs) && LabelsFirst(sh, rs.columns) && Seen(PassCells(sh, db, rs, |rs.rows|), k)
    ensures IsRow(sh, db, rs, k)
  {
    hide PassCells, LabelsFirst;
    var cells := PassCells(sh, db, rs, |rs.rows|);
    var i :| 0 <= i < |cells| && cells[i].key == k;
    var r := PassCellsHaveTuples(sh, db, rs, |rs.rows|, cells[i]);
  }

  /***** Which row counts *****/

  /** Column j of row r has a number for the series k: it is a metric of that kind and name, and the texts of the row in
      the label columns are the labels of k. */
  ghost predicate HasNumber(sh: Shape, db: string, rs: ResultSet, r: nat, j: nat, kind: Kind, k: Key)
    requires Rectangular(rs)
  {
    && r < |rs.rows| && rs.rows[r].Values? && IsColumn(sh, rs.columns, j, kind) && rs.columns[j] == k.family
    && (exists x :: IsNumber(rs.rows[r].cells[j], x))
    && Labelled(sh, db, rs.columns, rs.rows[r].cells, |rs.columns|, k.labels)
  }

  /** And no later column of the row, and no later row, has one. */
  ghost predicate HasLastNumber(sh: Shape, db: string, rs: ResultSet, r: nat, j: nat, kind: Kind, k: Key)
    requires Rectangular(rs)
  {
    && HasNumber(sh, db, rs, r, j, kind, k)
    && (forall j' :: j < j' ==> !HasNumber(sh, db, rs, r, j', kind, k))
    && (forall r', j' :: r < r' ==> !HasNumber(sh, db, rs, r', j', kind, k))
  }

  ghost predicate Sound(sh: Shape, db: string, rs: ResultSet) {
    Rectangular(rs) && LabelsFirst(sh, rs.columns) && Distinct(sh.labels) && (db != "" ==> sh.perDatabase)
  }

  lemma NumberInColumn(sh: Shape, db: string, rs: ResultSet, r: nat, j: nat, kind: Kind, k: Key)
    requires Rectangular(rs) && r < |rs.rows| && rs.rows[r].Values? && IsMetric(sh, k.family, kind)
    requires Labelled(sh, db, rs.columns, rs.rows[r].cells, |rs.columns|, k.labels)
    ensures NumberAt(rs.columns, rs.rows[r].cells, j, k.family) ==> HasNumber(sh, db, rs, r, j, kind, k)
  {
    hide Labelled;
    var cells := rs.rows[r].cells;
    if NumberAt(rs.columns, cells, j, k.family) {
      NumericIff(cells[j], Numeric(cells[j]).value);
      assert IsNumber(cells[j], Numeric(cells[j]).value);
    }
  }

  lemma LastHere(sh: Shape, db: string, rs: ResultSet, r: nat, j: nat, kind: Kind, k: Key, x: real)
    requires Sound(sh, db, rs) && HasLastNumber(sh, db, rs, r, j, kind, k) && IsNumber(rs.rows[r].cells[j], x)
    ensures r < |rs.rows| && rs.rows[r].Values? && j < |rs.columns| && IsMetric(sh, k.family, kind)
    ensures var cells := rs.rows[r].cells;
            && k.labels == Tuple(sh, db, rs.columns, cells) && Numeric(cells[j]) == Some(x)
            && NumberAt(rs.columns, cells, j, k.family)
            && forall i :: j < i < |rs.columns| ==> !NumberAt(rs.columns, cells, i, k.family)
  {
    hide LabelsFirst, Labelled, Distinct;
    var cells := rs.rows[r].cells;
    TupleIff(sh, db, rs.columns, cells, k.labels);
    NumericIff(cells[j], x);
    forall i | j < i < |rs.columns| ensures !NumberAt(rs.columns, cells, i, k.family) {
      NumberInColumn(sh, db, rs, r, i, kind, k);
    }
  }

  lemma RowWithoutSample(sh: Shape, db: string, rs: ResultSet, r: nat, k: Key)
    requires Sound(sh, db, rs) && r < |rs.rows| && rs.rows[r].Values?
    requires forall j :: !HasNumber(sh, db, rs, r, j, Counter, k)
    ensures LastOf(RowSamples(sh, db, rs.columns, rs.rows[r].cells, |rs.columns|), k).None?
  {
    hide RowSamples;
    var ss := RowSamples(sh, db, rs.columns, rs.rows[r].cells, |rs.columns|);
    if LastOf(ss, k).Some? {
      LastOfIsSample(ss, k);
      hide HasNumber, Sound;
      SampleHasNumber(sh, db, rs, r, k, LastOf(ss, k).value);
    }
  }

  lemma SampleHasNumber(sh: Shape, db: string, rs: ResultSet, r: nat, k: Key, x: real)
    requires Sound(sh, db, rs) && r < |rs.rows| && rs.rows[r].Values?
    requires Sample(k, x) in RowSamples(sh, db, rs.columns, rs.rows[r].cells, |rs.columns|)
    ensures exists j :: HasNumber(sh, db, rs, r, j, Counter, k)
  {
    hide RowSamples, LabelsFirst, Labelled;
    var columns, cells := rs.columns, rs.rows[r].cells;
    RowSampleIff(sh, db, columns, cells, |columns|, Sample(k, x));
    TupleIff(sh, db, columns, cells, k.labels);
    var j :| 0 <= j < |columns| && IsColumn(sh, columns, j, Counter) && columns[j] == k.family && IsNumber(cells[j], x);
    assert HasNumber(sh, db, rs, r, j, Counter, k);
  }

  lemma {:induction false} LastSampleInPass(sh: Shape, db: string, rs: ResultSet, r: nat, j: nat, k: Key, x: real,
      n: nat)
    requires Sound(sh, db, rs) && HasLastNumber(sh, db, rs, r, j, Counter, k) && IsNumber(rs.rows[r].cells[j], x)
    requires r < n <= |rs.rows|
    ensures LastOf(PassSamples(sh, db, rs, n), k) == Some(x)
  {
    hide RowSamples, HasNumber, LastOf;
    var row := rs.rows[n - 1];
    if n - 1 == r {
      LastHere(sh, db, rs, r, j, Counter, k, x);
      LastSampleInRow(sh, db, rs.columns, row.cells, |rs.columns|, j, k);
    } else {
      LastSampleInPass(sh, db, rs, r, j, k, x, n - 1);
      if row.Values? { RowWithoutSample(sh, db, rs, n - 1, k); }
    }
    if row.Values? {
      LastOfConcat(PassSamples(sh, db, rs, n - 1), RowSamples(sh, db, rs.columns, row.cells, |rs.columns|), k);
    } else {
      assert PassSamples(sh, db, rs, n) == PassSamples(sh, db, rs, n - 1);
    }
  }

  /** A counter counts on from the number in the last row that has one for it: its value is that number plus the samples
      before a drop. */
  lemma CounterShowsLastRow(sh: Shape, db: string, rs: ResultSet, before: seq<Sample>, cap: nat, r: nat, j: nat, k: Key,
      x: real)
    requires Sound(sh, db, rs) && HasLastNumber(sh, db, rs, r, j, Counter, k) && IsNumber(rs.rows[r].cells[j], x)
    ensures var ss := before + PassSamples(sh, db, rs, |rs.rows|);
            var c := AddAll(EMPTY, ss, cap);
            k in c.exported ==> c.exported[k] == x + Drops(History(ss, k, cap))
  {
    assert r < |rs.rows| && Rectangular(rs);
    hide PassSamples, AddAll, History, Drops, Sound, HasLastNumber, Rectangular;
    var p := PassSamples(sh, db, rs, |rs.rows|);
    var ss := before + p;
    LastSampleInPass(sh, db, rs, r, j, k, x, |rs.rows|);
    LastOfConcat(before, p, k);
    CounterValue(ss, k, cap);
    CachedIsExported(ss, k, cap);
    if k in AddAll(EMPTY, ss, cap).cached { CachedIsLastOf(ss, k, cap); }
  }

  lemma RowWithoutCell(sh: Shape, db: string, rs: ResultSet, r: nat, k: Key)
    requires Sound(sh, db, rs) && r < |rs.rows| && rs.rows[r].Values?
    requires forall j :: !HasNumber(sh, db, rs, r, j, Gauge, k)
    ensures LastValue(RowCells(sh, db, rs.columns, rs.rows[r].cells, |rs.columns|), k).None?
  {
    hide RowCells;
    var cs := RowCells(sh, db, rs.columns, rs.rows[r].cells, |rs.columns|);
    if LastValue(cs, k).Some? {
      LastValueIsCell(cs, k);
      hide HasNumber, Sound;
      CellHasNumber(sh, db, rs, r, k, LastValue(cs, k).value);
    }
  }

  lemma CellHasNumber(sh: Shape, db: string, rs: ResultSet, r: nat, k: Key, x: real)
    requires Sound(sh, db, rs) && r < |rs.rows| && rs.rows[r].Values?
    requires Cell(k, Some(x)) in RowCells(sh, db, rs.columns, rs.rows[r].cells, |rs.columns|)
    ensures exists j :: HasNumber(sh, db, rs, r, j, Gauge, k)
  {
    hide RowCells, LabelsFirst, Labelled;
    var columns, cells := rs.columns, rs.rows[r].cells;
    RowCellIff(sh, db, columns, cells, |columns|, Cell(k, Some(x)));
    TupleIff(sh, db, columns, cells, k.labels);
    var j :| 0 <= j < |columns| && IsColumn(sh, columns, j, Gauge) && columns[j] == k.family && IsNumber(cells[j], x);
    assert HasNumber(sh, db, rs, r, j, Gauge, k);
  }

  lemma {:induction false} LastCellInPass(sh: Shape, db: string, rs: ResultSet, r: nat, j: nat, k: Key, x: real, n: nat)
    requires Sound(sh, db, rs) && HasLastNumber(sh, db, rs, r, j, Gauge, k) && IsNumber(rs.rows[r].cells[j], x)
    requires r < n <= |rs.rows|
    ensures LastValue(PassCells(sh, db, rs, n), k) == Some(x)
  {
    hide RowCells, HasNumber, LastValue;
    var row := rs.rows[n - 1];
    if n - 1 == r {
      LastHere(sh, db, rs, r, j, Gauge, k, x);
      LastValueInRow(sh, db, rs.columns, row.cells, |rs.columns|, j, k);
    } else {
      LastCellInPass(sh, db, rs, r, j, k, x, n - 1);
      if row.Values? { RowWithoutCell(sh, db, rs, n - 1, k); }
    }
    if row.Values? {
      LastValueConcat(PassCells(sh, db, rs, n - 1), RowCells(sh, db, rs.columns, row.cells, |rs.columns|), k);
    } else {
      assert PassCells(sh, db, rs, n) == PassCells(sh, db, rs, n - 1);
    }
  }

  /** A gauge shows the number in the last row that has one for it, whatever was exported before. */
  lemma GaugeShowsLastRow(sh: Shape, g: GaugeTable, db: string, rs: ResultSet, r: nat, j: nat, k: Key, x: real)
    requires IdsMatch(g.tracked) && Sound(sh, db, rs)
    requires HasLastNumber(sh, db, rs, r, j, Gauge, k) && IsNumber(rs.rows[r].cells[j], x)
    ensures var after := Pass(g, PassCells(sh, db, rs, |rs.rows|), GaugeNames(sh));
            k in after.exported && after.exported[k] == x
  {
    assert r < |rs.rows| && Rectangular(rs);
    hide PassCells, Pass, Sound, HasLastNumber, Rectangular;
    LastCellInPass(sh, db, rs, r, j, k, x, |rs.rows|);
    PassExactly(g, PassCells(sh, db, rs, |rs.rows|), GaugeNames(sh), k);
  }

  /** Every sample of a run was read from one of its databases, and runs over more databases go on from those over
      fewer. */
  lemma {:induction false} RunSampleIff(sh: Shape, dbs: seq<string>, answers: seq<Answer>, n: nat, s: Sample)
    requires n <= |answers| == |dbs| && forall i :: 0 <= i < n ==> Counted(sh, answers[i])
    ensures s in AllSamples(sh, dbs, answers, n) <==>
            exists i :: 0 <= i < n && InAnswer(sh, dbs[i], answers[i], s)
    ensures n > 0 ==> AllSamples(sh, dbs, answers, n - 1) <= AllSamples(sh, dbs, answers, n)
  {
    hide PassSamples;
    if n > 0 {
      assert Counted(sh, answers[n - 1]);
      RunSampleIff(sh, dbs, answers, n - 1, s);
    }
  }

  /** s is a sample of a row that the database returned. */
  ghost predicate InAnswer(sh: Shape, db: string, a: Answer, s: Sample) {
    Counted(sh, a) && s in PassSamples(sh, db, a.rs, |a.rs.rows|)
  }

  lemma {:induction false} AllPassesClean(sh: Shape, g: GaugeTable, dbs: seq<string>, answers: seq<Answer>, n: nat)
    requires Clean(g, GaugeNames(sh), Arity(sh))
    requires n <= |answers| == |dbs| && forall i :: 0 <= i < n ==>
               Counted(sh, answers[i]) && PlainPass(sh, dbs[i], answers[i].rs)
    ensures Clean(PassAll(g, AllCells(sh, dbs, answers, n), GaugeNames(sh)), GaugeNames(sh), Arity(sh))
    ensures n > 0 ==> forall k :: k in PassAll(g, AllCells(sh, dbs, answers, n), GaugeNames(sh)).exported ==>
              IsRow(sh, dbs[n - 1], answers[n - 1].rs, k)
  {
    hide Pass, PassCells, Clean, PlainPass, GaugeNames, IsRow;
    if n > 0 {
      AllPassesClean(sh, g, dbs, answers, n - 1);
      var rs := answers[n - 1].rs;
      var before := PassAll(g, AllCells(sh, dbs, answers, n - 1), GaugeNames(sh));
      UsableParts(sh, answers[n - 1]);
      GaugesAreRows(sh, before, dbs[n - 1], rs);
      PassesSnoc(g, AllCells(sh, dbs, answers, n - 1), PassCells(sh, dbs[n - 1], rs, |rs.rows|), GaugeNames(sh));
    }
  }

  /** With several databases, each pass sweeps the gauges of the one before: after a collection, every exported gauge
      carries the last database. */
  lemma OnlyLastDatabaseExported(sh: Shape, g: GaugeTable, dbs: seq<string>, answers: seq<Answer>, k: Key)
    requires Clean(g, GaugeNames(sh), Arity(sh)) && sh.perDatabase
    requires 0 < |answers| == |dbs| && dbs[|dbs| - 1] != ""
    requires forall i :: 0 <= i < |dbs| ==> Counted(sh, answers[i]) && PlainPass(sh, dbs[i], answers[i].rs)
    requires k in PassAll(g, AllCells(sh, dbs, answers, |dbs|), GaugeNames(sh)).exported
    ensures |k.labels| == |sh.labels| + 1 && k.labels[|sh.labels|] == dbs[|dbs| - 1]
  {
    hide PassAll, AllCells, Clean, PlainPass, GaugeNames;
    var n := |dbs|;
    AllPassesClean(sh, g, dbs, answers, n);
    var rs := answers[n - 1].rs;
    assert IsRow(sh, dbs[n - 1], rs, k);
    var r :| 0 <= r < |rs.rows| && rs.rows[r].Values? &&
      k.labels == Tuple(sh, dbs[n - 1], rs.columns, rs.rows[r].cells);
    TupleEndsWithDatabase(sh, dbs[n - 1], rs.columns, rs.rows[r].cells, |rs.columns|);
  }
}
