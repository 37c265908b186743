/**
The collector: runs a collection's query and keeps the exported series in step with the
rows it returns.  The cache, the exported vectors and the tracked gauges are changed in
place, sample by sample.
 */
module Collector {
  import opened Wrappers
  import opened Lru
  import opened Counters
  import opened Gauges
  import opened ResultSets
  import opened Sequences

  class Collector {
    const shape: Shape
    const labelMap: map<string, nat>
    const countersCardinality: nat
    const maxResults: nat
    // countersCache: nil until the first collection, then keys by recency with their last samples
    var cacheReady: bool
    var capacity: nat
    var order: seq<Key>
    var cached: map<Key, real>
    // the exported series
    var counterSeries: map<Key, real>
    var gaugeSeries: map<Key, real>
    var gaugeLabels: Tracked

    ghost predicate Valid()
      reads this
    {
      && labelMap == LabelMap(shape.labels)
      && |CounterNames(shape)| <= countersCardinality
      && Agree(CounterState()) && (capacity != 0 ==> |order| <= capacity)
      && (!cacheReady ==> CounterState() == EMPTY)
      && (cacheReady ==> capacity == 2 * countersCardinality * maxResults)
    }

    ghost function CounterState(): CounterTable
      reads this
    {
      CounterTable(order, cached, counterSeries)
    }

    ghost function GaugeState(): GaugeTable
      reads this
    {
      GaugeTable(gaugeSeries, gaugeLabels)
    }

    constructor FromCollection(labels: seq<string>, metrics: seq<(string, Kind)>, perDatabase: bool, maxResults: nat)
      ensures Valid() && !cacheReady && GaugeState() == GaugeTable(map[], map[])
      ensures shape == Shape(labels, KindsOf(metrics), perDatabase) && this.maxResults == maxResults
      ensures countersCardinality == CounterEntries(metrics)
    {
      assert CounterNames(Shape(labels, map[], perDatabase)) == {};
      hide CounterNames;
      var slots: map<string, nat> := map[];
      for i := 0 to |labels|
        invariant slots == LabelMap(labels[..i])
      {
        assert labels[..i + 1][..i] == labels[..i];
        slots := slots[labels[i] := i];
      }
      assert labels[..|labels|] == labels;
      var byName: map<string, Kind> := map[];
      var n := 0;
      for i := 0 to |metrics|
        invariant n == CounterEntries(metrics[..i]) && byName == KindsOf(metrics[..i])
        invariant |CounterNames(Shape(labels, byName, perDatabase))| <= n
      {
        assert metrics[..i + 1][..i] == metrics[..i];
        var (name, kind) := metrics[i];
        OneMoreMetric(Shape(labels, byName, perDatabase), name, kind);
        byName := byName[name := kind];
        if kind == Counter { n := n + 1; }
      }
      assert metrics[..|metrics|] == metrics;
      this.shape := Shape(labels, byName, perDatabase);
      this.labelMap := slots;
      this.countersCardinality := n;
      this.maxResults := maxResults;
      cacheReady, capacity, order, cached := false, 0, [], map[];
      counterSeries, gaugeSeries, gaugeLabels := map[], map[], map[];
    }

    method MaybeInitCache()
      requires Valid()
      modifies this`cacheReady, this`capacity
      ensures Valid() && cacheReady
      ensures capacity == if old(cacheReady) then old(capacity) else 2 * countersCardinality * maxResults
    {
      if !cacheReady {
        capacity := countersCardinality * maxResults * 2;
        cacheReady := true;
      }
    }

    /** Looks a key up, which makes it the most recent one. */
    method CacheGet(k: Key) returns (v: Option<real>)
      modifies this`order
      ensures v == if k in cached then Some(cached[k]) else None
      ensures order == Looked(old(CounterState()), k)
    {
      if k in cached {
        order := [k] + Remove(order, k);
        v := Some(cached[k]);
      } else {
        v := None;
      }
    }

    /** Adds a key; the eviction hook deletes the series of the key that is pushed out. */
    method CacheAdd(k: Key, v: real)
      modifies this`order, this`cached, this`counterSeries
      ensures CounterState() == Stored(old(CounterState()), k, v, capacity)
    {
      if k in cached {
        order := [k] + Remove(order, k);
        cached := cached[k := v];
        return;
      }
      order := [k] + order;
      cached := cached[k := v];
      if capacity != 0 && |order| > capacity {
        var oldest := order[|order| - 1];
        order := order[..|order| - 1];
        cached := cached - {oldest};
        counterSeries := counterSeries - {oldest};
      }
    }

    /** Adds the increment that a sample stands for to its series. */
    method CounterAdd(k: Key, value: real)
      requires Valid() && cacheReady && value >= 0.0
      modifies this`order, this`cached, this`counterSeries
      ensures Valid()
      ensures CounterState() == Add(old(CounterState()), Sample(k, value), capacity)
    {
      hide Add, Looked, Stored, Agree;
      ghost var before := CounterState();
      AddKeepsAgree(before, Sample(k, value), capacity);
      AddIsLookupAndStore(before, Sample(k, value), capacity);
      var delta;
      var v := CacheGet(k);
      if v.Some? {
        if v.value > value {
          delta := value;
        } else {
          delta := value - v.value;
        }
      } else {
        delta := value;
      }
      counterSeries := counterSeries[k := SeriesValue(counterSeries, k) + delta];
      CacheAdd(k, value);
    }

    predicate IsObsolete(current: Tracked, name: string, id: string) {
      !Has(current, name, id) && name in shape.metrics && shape.metrics[name] == Gauge
    }

    /** Deletes the series of the previous pass that the current one does not have. */
    method ClearObsoleteGauges(current: Tracked)
      modifies this`gaugeSeries, this`gaugeLabels
      ensures gaugeLabels == current
      ensures gaugeSeries == old(gaugeSeries) - Obsolete(old(gaugeLabels), current, GaugeNames(shape))
    {
      ghost var all := Obsolete(gaugeLabels, current, GaugeNames(shape));
      ghost var deleted: set<Key> := {};
      var names := gaugeLabels.Keys;
      while names != {}
        invariant names <= gaugeLabels.Keys && gaugeLabels == old(gaugeLabels)
        invariant deleted <= all && gaugeSeries == old(gaugeSeries) - deleted
        invariant forall n, id :: Has(gaugeLabels, n, id) && n !in names && IsObsolete(current, n, id) ==>
                    Key(n, gaugeLabels[n][id]) in deleted
        decreases names
      {
        var name :| name in names;
        var ids := gaugeLabels[name].Keys;
        while ids != {}
          invariant gaugeLabels == old(gaugeLabels) && name in gaugeLabels && ids <= gaugeLabels[name].Keys
          invariant deleted <= all && gaugeSeries == old(gaugeSeries) - deleted
          invariant forall n, id :: Has(gaugeLabels, n, id) && n !in names && IsObsolete(current, n, id) ==>
                      Key(n, gaugeLabels[n][id]) in deleted
          invariant forall id :: Has(gaugeLabels, name, id) && id !in ids && IsObsolete(current, name, id) ==>
                      Key(name, gaugeLabels[name][id]) in deleted
          decreases ids
        {
          var id :| id in ids;
          if IsObsolete(current, name, id) {
            gaugeSeries := gaugeSeries - {Key(name, gaugeLabels[name][id])};
            deleted := deleted + {Key(name, gaugeLabels[name][id])};
          }
          ids := ids - {id};
        }
        names := names - {name};
      }
      assert deleted == all;
      gaugeLabels := current;
    }

    /** Folds one column of a row in: a label value, a counter sample or a gauge cell. */
    method CollectColumn(colName: string, v: ResultSets.Value, ls: seq<string>, current: Tracked)
      returns (labelValues: seq<string>, currGauges: Tracked)
      requires Valid() && cacheReady && |ls| == Arity(shape)
      requires IsMetric(shape, colName, Counter) && Numeric(v).Some? ==> Numeric(v).value >= 0.0
      modifies this`order, this`cached, this`counterSeries, this`gaugeSeries
      ensures Valid()
      ensures labelValues == SetLabel(shape, ls, colName, v)
      ensures CounterState() == AddAll(old(CounterState()), ColumnSamples(shape, colName, v, ls), capacity)
      ensures gaugeSeries == SetAll(old(gaugeSeries), ColumnCells(shape, colName, v, ls))
      ensures currGauges == TrackAll(current, ColumnCells(shape, colName, v, ls))
    {
      hide Add, Agree, TrackCell, Gauges.Set;
      labelValues, currGauges := ls, current;
      if colName in labelMap {
        if v.Text? {
          labelValues := labelValues[labelMap[colName] := v.s];
        }
      } else if colName in shape.metrics {
        var key := Key(colName, labelValues);
        match shape.metrics[colName]
        case Counter =>
          if Numeric(v).Some? {
            CounterAdd(key, Numeric(v).value);
          }
        case Gauge =>
          currGauges := TrackCell(currGauges, key);
          gaugeSeries := Gauges.Set(gaugeSeries, Cell(key, Numeric(v)));
      }
    }

    /** Folds one row in, column by column. */
    method CollectRow(db: string, columns: seq<string>, cells: seq<ResultSets.Value>, current: Tracked)
      returns (currGauges: Tracked)
      requires Valid() && cacheReady && |columns| == |cells| && NonNegativeRow(shape, columns, cells)
      modifies this`order, this`cached, this`counterSeries, this`gaugeSeries
      ensures Valid()
      ensures CounterState() == AddAll(old(CounterState()), RowSamples(shape, db, columns, cells, |columns|), capacity)
      ensures gaugeSeries == SetAll(old(gaugeSeries), RowCells(shape, db, columns, cells, |columns|))
      ensures currGauges == TrackAll(current, RowCells(shape, db, columns, cells, |columns|))
    {
      hide AddAll, SetAll, TrackAll, Agree, ColumnSamples, ColumnCells;
      currGauges := current;
      var labelValues := BlankLabels(shape, db);
      Nothing(CounterState(), gaugeSeries, current, capacity);
      for j := 0 to |columns|
        invariant Valid() && cacheReady
        invariant labelValues == RowLabels(shape, db, columns, cells, j)
        invariant CounterState() == AddAll(old(CounterState()), RowSamples(shape, db, columns, cells, j), capacity)
        invariant gaugeSeries == SetAll(old(gaugeSeries), RowCells(shape, db, columns, cells, j))
        invariant currGauges == TrackAll(current, RowCells(shape, db, columns, cells, j))
      {
        AddAllConcat(old(CounterState()), RowSamples(shape, db, columns, cells, j),
                     ColumnSamples(shape, columns[j], cells[j], labelValues), capacity);
        CellsConcat(old(gaugeSeries), current, RowCells(shape, db, columns, cells, j),
                    ColumnCells(shape, columns[j], cells[j], labelValues));
        labelValues, currGauges := CollectColumn(columns[j], cells[j], labelValues, currGauges);
      }
    }

    /** Folds all rows in; rows that cannot be decoded are skipped. */
    method CollectRows(db: string, rs: ResultSet) returns (currGauges: Tracked)
      requires Valid() && cacheReady && Rectangular(rs) && NonNegativeCounters(shape, rs)
      modifies this`order, this`cached, this`counterSeries, this`gaugeSeries
      ensures Valid()
      ensures CounterState() == AddAll(old(CounterState()), PassSamples(shape, db, rs, |rs.rows|), capacity)
      ensures gaugeSeries == SetAll(old(gaugeSeries), PassCells(shape, db, rs, |rs.rows|))
      ensures currGauges == TrackAll(map[], PassCells(shape, db, rs, |rs.rows|))
    {
      hide AddAll, SetAll, TrackAll, Agree, RowSamples, RowCells, NonNegativeRow;
      currGauges := map[];
      Nothing(CounterState(), gaugeSeries, currGauges, capacity);
      for i := 0 to |rs.rows|
        invariant Valid() && cacheReady
        invariant CounterState() == AddAll(old(CounterState()), PassSamples(shape, db, rs, i), capacity)
        invariant gaugeSeries == SetAll(old(gaugeSeries), PassCells(shape, db, rs, i))
        invariant currGauges == TrackAll(map[], PassCells(shape, db, rs, i))
      {
        var row := rs.rows[i];
        if row.Values? {
          AddAllConcat(old(CounterState()), PassSamples(shape, db, rs, i),
                       RowSamples(shape, db, rs.columns, row.cells, |rs.columns|), capacity);
          CellsConcat(old(gaugeSeries), map[], PassCells(shape, db, rs, i),
                      RowCells(shape, db, rs.columns, row.cells, |rs.columns|));
          currGauges := CollectRow(db, rs.columns, row.cells, currGauges);
        } else {
          assert PassSamples(shape, db, rs, i + 1) == PassSamples(shape, db, rs, i);
          assert PassCells(shape, db, rs, i + 1) == PassCells(shape, db, rs, i);
        }
      }
    }

    /** One pass over the rows that the query returns for a database.  The cached label values are those of the
        finished row, which is why label columns have to come first. */
    method CollectLocked(db: string, rs: ResultSet) returns (ok: bool)
      requires Valid() && cacheReady && Rectangular(rs) && NonNegativeCounters(shape, rs)
      requires LabelsFirst(shape, rs.columns) && (db != "" ==> shape.perDatabase)
      modifies this`order, this`cached, this`counterSeries, this`gaugeSeries, this`gaugeLabels
      ensures Valid()
      ensures ok <==> |rs.columns| == |shape.labels| + |shape.metrics|
      ensures !ok ==> CounterState() == old(CounterState()) && GaugeState() == old(GaugeState())
      ensures ok ==> CounterState() == AddAll(old(CounterState()), PassSamples(shape, db, rs, |rs.rows|), capacity)
      ensures ok ==> GaugeState() == Pass(old(GaugeState()), PassCells(shape, db, rs, |rs.rows|), GaugeNames(shape))
    {
      hide AddAll, SetAll, TrackAll, Agree, PassSamples, PassCells, NonNegativeCounters, Obsolete, LabelsFirst,
        Rectangular;
      if |rs.columns| != |shape.labels| + |shape.metrics| {
        return false;
      }
      var currGauges := CollectRows(db, rs);
      ClearObsoleteGauges(currGauges);
      return true;
    }

    /** Collects from the databases in turn, up to the first one that fails; `answers` is what each transaction
        yields. */
    method CollectEach(databases: seq<string>, answers: seq<Answer>) returns (ok: bool, done: nat)
      requires Valid() && cacheReady && |answers| == |databases| && (shape.perDatabase || databases == [""])
      requires forall i :: 0 <= i < |answers| ==> Usable(shape, answers[i])
      modifies this`order, this`cached, this`counterSeries, this`gaugeSeries, this`gaugeLabels
      ensures Valid()
      ensures UpToFirstFailure(shape, answers, ok, done)
      ensures CounterState() == AddAll(old(CounterState()), AllSamples(shape, databases, answers, done), capacity)
      ensures GaugeState() == PassAll(old(GaugeState()), AllCells(shape, databases, answers, done), GaugeNames(shape))
    {
      hide AddAll, Pass, PassAll, Agree, PassSamples, PassCells, Usable, Counted, AllSamples, AllCells, CounterNames;
      done := 0;
      NoPasses(CounterState(), GaugeState(), shape, databases, answers, capacity);
      while done < |databases|
        invariant Valid() && done <= |databases|
        invariant forall i :: 0 <= i < done ==>
                    answers[i].Fetched? && Counted(shape, answers[i]) && answers[i].committed
        invariant CounterState() == AddAll(old(CounterState()), AllSamples(shape, databases, answers, done), capacity)
        invariant GaugeState() ==
                    PassAll(old(GaugeState()), AllCells(shape, databases, answers, done), GaugeNames(shape))
      {
        CountedIff(shape, answers[done]);
        if answers[done].Failed? {
          return false, done;
        }
        var rs := answers[done].rs;
        UsableParts(shape, answers[done]);
        var matched := CollectLocked(databases[done], rs);
        if !matched {
          return false, done;
        }
        OneMorePass(old(CounterState()), old(GaugeState()), shape, databases, answers, done, capacity);
        done := done + 1;
        if !answers[done - 1].committed {
          return false, done;
        }
      }
      return true, done;
    }

    /** Collects from every database, or skips if the previous run is still busy.
        `names` is the answer to the databases query. */
    method Collect(busy: bool, names: Option<seq<string>>, answers: seq<Answer>) returns (ok: bool, done: nat)
      requires Valid()
      requires |answers| == |Databases(shape, names)|
      requires forall i :: 0 <= i < |answers| ==> Usable(shape, answers[i])
      modifies this
      ensures Valid() && (cacheReady <==> old(cacheReady) || !busy)
      ensures busy ==> ok && done == 0
      ensures !busy && shape.perDatabase && names.None? ==> !ok && done == 0
      ensures !busy && ok && shape.perDatabase ==> names.Some? && done == |names.value|
      ensures !busy && ok && !shape.perDatabase ==> done == 1
      ensures !busy && (shape.perDatabase ==> names.Some?) ==> UpToFirstFailure(shape, answers, ok, done)
      ensures done <= |answers| && forall i :: 0 <= i < done ==> Counted(shape, answers[i])
      ensures CounterState() ==
              AddAll(old(CounterState()), AllSamples(shape, Databases(shape, names), answers, done), capacity)
      ensures GaugeState() ==
              PassAll(old(GaugeState()), AllCells(shape, Databases(shape, names), answers, done), GaugeNames(shape))
    {
      hide AddAll, PassAll, Agree, Usable, Counted, AllSamples, AllCells, CounterNames;
      if busy {
        NoPasses(CounterState(), GaugeState(), shape, Databases(shape, names), answers, capacity);
        return true, 0;
      }
      MaybeInitCache();
      var databases := [""];
      if shape.perDatabase {
        if names.None? {
          NoPasses(CounterState(), GaugeState(), shape, [], answers, capacity);
          return false, 0;
        }
        databases := names.value;
      }
      ok, done := CollectEach(databases, answers);
    }
  }

  /** The first `done` answers are counted, and all but the last of these are committed; collecting stops before the end
      only at an answer that cannot be counted, or after one that cannot be committed. */
  ghost predicate UpToFirstFailure(sh: Shape, answers: seq<Answer>, ok: bool, done: nat) {
    && done <= |answers|
    && (forall i :: 0 <= i < done ==> Counted(sh, answers[i]))
    && (forall i :: 0 <= i < done - 1 ==> answers[i].committed)
    && (if ok then done == |answers| && (done > 0 ==> answers[done - 1].committed)
        else if done > 0 && !answers[done - 1].committed then true
        else done < |answers| && !Counted(sh, answers[done]))
  }

  /** Whether an answer counts is decided by its columns. */
  lemma CountedIff(sh: Shape, a: Answer)
    requires Usable(sh, a)
    ensures Counted(sh, a) <==> a.Fetched? && |a.rs.columns| == |sh.labels| + |sh.metrics|
  {}

  /** The outcome is determined: collecting cannot stop earlier or later. */
  lemma FirstFailureUnique(sh: Shape, answers: seq<Answer>, ok: bool, done: nat, ok': bool, done': nat)
    requires UpToFirstFailure(sh, answers, ok, done) && UpToFirstFailure(sh, answers, ok', done') && done <= done'
    ensures ok == ok' && done == done'
  {}

  /** The number of counters among the metrics of a definition, repeated names included. */
  function CounterEntries(metrics: seq<(string, Kind)>): (n: nat)
    ensures n == |set i | 0 <= i < |metrics| && metrics[i].1 == Counter|
  {
    if metrics == [] then 0
    else
      var n := |metrics| - 1;
      var p := metrics[..n];
      assert (set i | 0 <= i < |metrics| && metrics[i].1 == Counter) ==
             (set i | 0 <= i < |p| && p[i].1 == Counter) + if metrics[n].1 == Counter then {n} else {};
      CounterEntries(p) + if metrics[n].1 == Counter then 1 else 0
  }

  /** The kind of each metric by name. */
  function KindsOf(metrics: seq<(string, Kind)>): map<string, Kind> {
    if metrics == [] then map[]
    else KindsOf(metrics[..|metrics| - 1])[metrics[|metrics| - 1].0 := metrics[|metrics| - 1].1]
  }

  /** The kinds are those of the definition; of several entries with one name the last one counts. */
  lemma {:induction false} LastKindCounts(metrics: seq<(string, Kind)>, m: string) returns (j: nat)
    requires m in KindsOf(metrics) || exists i :: 0 <= i < |metrics| && metrics[i].0 == m
    ensures j < |metrics| && metrics[j].0 == m && forall k :: j < k < |metrics| ==> metrics[k].0 != m
    ensures m in KindsOf(metrics) && KindsOf(metrics)[m] == metrics[j].1
  {
    var n := |metrics| - 1;
    var p := metrics[..n];
    if metrics[n].0 == m {
      j := n;
    } else {
      if i :| 0 <= i < |metrics| && metrics[i].0 == m { assert p[i].0 == m; }
      j := LastKindCounts(p, m);
      forall k | j < k < |metrics| ensures metrics[k].0 != m { if k < n { assert p[k] == metrics[k]; } }
    }
  }

  /** What the transaction on one database yields: an error before any row is read, or rows and then a commit. */
  datatype Answer = Failed | Fetched(rs: ResultSet, committed: bool)

  /** Rows as the collector expects them. */
  ghost predicate Usable(sh: Shape, a: Answer) {
    a.Fetched? ==> Rectangular(a.rs) && NonNegativeCounters(sh, a.rs) && LabelsFirst(sh, a.rs.columns)
  }

  /** An answer whose rows reach the exported series. */
  ghost predicate Counted(sh: Shape, a: Answer) {
    a.Fetched? && Usable(sh, a) && |a.rs.columns| == |sh.labels| + |sh.metrics|
  }

  lemma UsableParts(sh: Shape, a: Answer)
    requires Usable(sh, a) && a.Fetched?
    ensures Rectangular(a.rs) && NonNegativeCounters(sh, a.rs) && LabelsFirst(sh, a.rs.columns)
  {}

  /** The databases that are read: those that the query names, or just the current one. */
  function Databases(sh: Shape, names: Option<seq<string>>): seq<string> {
    if !sh.perDatabase then [""] else if names.Some? then names.value else []
  }

  ghost function AllSamples(sh: Shape, dbs: seq<string>, answers: seq<Answer>, n: nat): seq<Sample>
    requires n <= |answers| == |dbs| && forall i :: 0 <= i < n ==> Counted(sh, answers[i])
  {
    if n == 0 then []
    else
      assert Counted(sh, answers[n - 1]);
      AllSamples(sh, dbs, answers, n - 1) + PassSamples(sh, dbs[n - 1], answers[n - 1].rs, |answers[n - 1].rs.rows|)
  }

  ghost function AllCells(sh: Shape, dbs: seq<string>, answers: seq<Answer>, n: nat): (cs: seq<seq<Cell>>)
    requires n <= |answers| == |dbs| && forall i :: 0 <= i < n ==> Counted(sh, answers[i])
    ensures |cs| == n
  {
    if n == 0 then []
    else
      assert Counted(sh, answers[n - 1]);
      AllCells(sh, dbs, answers, n - 1) + [PassCells(sh, dbs[n - 1], answers[n - 1].rs, |answers[n - 1].rs.rows|)]
  }

  lemma NoPasses(c: CounterTable, g: GaugeTable, sh: Shape, dbs: seq<string>, answers: seq<Answer>, cap: nat)
    requires |answers| == |dbs|
    ensures AddAll(c, AllSamples(sh, dbs, answers, 0), cap) == c
    ensures PassAll(g, AllCells(sh, dbs, answers, 0), GaugeNames(sh)) == g
  {}

  lemma OneMorePass(c: CounterTable, g: GaugeTable, sh: Shape, dbs: seq<string>, answers: seq<Answer>, n: nat, cap: nat)
    requires n < |answers| == |dbs| && forall i :: 0 <= i < n ==> Counted(sh, answers[i])
    requires answers[n].Fetched? && Usable(sh, answers[n]) && |answers[n].rs.columns| == |sh.labels| + |sh.metrics|
    ensures Counted(sh, answers[n])
    ensures var rs := answers[n].rs;
            && AddAll(c, AllSamples(sh, dbs, answers, n + 1), cap) ==
               AddAll(AddAll(c, AllSamples(sh, dbs, answers, n), cap), PassSamples(sh, dbs[n], rs, |rs.rows|), cap)
            && PassAll(g, AllCells(sh, dbs, answers, n + 1), GaugeNames(sh)) ==
               Pass(PassAll(g, AllCells(sh, dbs, answers, n), GaugeNames(sh)), PassCells(sh, dbs[n], rs, |rs.rows|),
                 GaugeNames(sh))
  {
    hide AddAll, PassAll, Pass, PassSamples, PassCells;
    var rs := answers[n].rs;
    AddAllConcat(c, AllSamples(sh, dbs, answers, n), PassSamples(sh, dbs[n], rs, |rs.rows|), cap);
    PassesSnoc(g, AllCells(sh, dbs, answers, n), PassCells(sh, dbs[n], rs, |rs.rows|), GaugeNames(sh));
  }

  lemma PassesSnoc(g: GaugeTable, passes: seq<seq<Cell>>, cells: seq<Cell>, gauges: set<string>)
    ensures PassAll(g, passes + [cells], gauges) == Pass(PassAll(g, passes, gauges), cells, gauges)
  {
    assert (passes + [cells])[..|passes|] == passes;
  }

  lemma Nothing(c: CounterTable, exported: map<Key, real>, t: Tracked, cap: nat)
    ensures AddAll(c, [], cap) == c && SetAll(exported, []) == exported && TrackAll(t, []) == t
  {}

  lemma {:induction false} CellsConcat(exported: map<Key, real>, t: Tracked, a: seq<Cell>, b: seq<Cell>)
    ensures SetAll(exported, a + b) == SetAll(SetAll(exported, a), b)
    ensures TrackAll(t, a + b) == TrackAll(TrackAll(t, a), b)
  {
    hide Gauges.Set, TrackCell;
    if b == [] {
      assert a + b == a;
    } else {
      assert (a + b)[..|a + b| - 1] == a + b[..|b| - 1];
      CellsConcat(exported, t, a, b[..|b| - 1]);
    }
  }

  /** The gauges of the collection. */
  function GaugeNames(sh: Shape): set<string> {
    set m | m in sh.metrics && sh.metrics[m] == Gauge
  }

  lemma OneMoreMetric(sh: Shape, name: string, kind: Kind)
    ensures |CounterNames(sh.(metrics := sh.metrics[name := kind]))| <=
              |CounterNames(sh)| + if kind == Counter then 1 else 0
  {
    var after := CounterNames(sh.(metrics := sh.metrics[name := kind]));
    if kind == Counter {
      assert after == CounterNames(sh) + {name};
    } else {
      assert after <= CounterNames(sh);
      CountSubset(after, CounterNames(sh));
    }
  }

  /** The recency order after a lookup. */
  function Looked(c: CounterTable, k: Key): seq<Key> {
    if k in c.cached then [k] + Remove(c.order, k) else c.order
  }

  /** The cache and the exported series after an insertion, with the eviction hook. */
  function Stored(c: CounterTable, k: Key, v: real, cap: nat): CounterTable {
    if k in c.cached then CounterTable([k] + Remove(c.order, k), c.cached[k := v], c.exported)
    else
      var d := CounterTable([k] + c.order, c.cached[k := v], c.exported);
      if cap != 0 && |d.order| > cap then EvictOldest(d) else d
  }

  /** A lookup, the increment and an insertion make up one sample. */
  lemma AddIsLookupAndStore(c: CounterTable, s: Sample, cap: nat)
    requires Agree(c)
    ensures Add(c, s, cap) ==
            Stored(CounterTable(Looked(c, s.key), c.cached,
              c.exported[s.key := SeriesValue(c.exported, s.key) + Delta(c, s)]),
                   s.key, s.value, cap)
  {
    hide Remove, Delta, EvictOldest, Agree;
    MoveAgain(c.order, s.key);
    if s.key !in c.cached { AbsentFromOrder(c, s.key); }
  }

  lemma AbsentFromOrder(c: CounterTable, k: Key)
    requires Agree(c) && k !in c.cached
    ensures Remove(c.order, k) == c.order
  {
    RemoveAbsent(c.order, k);
  }

  lemma MoveAgain(order: seq<Key>, k: Key)
    ensures Remove([k] + Remove(order, k), k) == Remove(order, k)
  {
    RemoveConcat([k], Remove(order, k), k);
    RemoveAbsent(Remove(order, k), k);
  }
}
