/**
Collections in the database, as rows of two tables, and in memory, as a map.  The tables
refine the map: the same calls give the same answers, up to the order of the metrics and
the time of the last change.
 */
module CollectionStore {
  import opened Wrappers
  import opened Sequences

  datatype Metric = Metric(name: string, kind: string, help: string)

  /** An interval of the database driver; one that is not valid is sent as NULL. */
  datatype Interval = Interval(months: int, days: int, microseconds: int, valid: bool)

  /** The columns of a collection other than its name and its time of change. */
  datatype Config = Config(
    enabled: bool, scope: string, maxResult: int, frequency: Interval, databases: string, query: string,
      labels: seq<string>)

  datatype Collection = Collection(name: string, config: Config, lastModified: int, metrics: seq<Metric>)

  datatype CollectionRow = CollectionRow(config: Config, updated: int)

  datatype MetricRow = MetricRow(kind: string, help: string)

  /** The tables with their primary keys: the collection's name; the collection's and the metric's name. */
  datatype Tables = Tables(collections: map<string, CollectionRow>, metrics: map<(string, string), MetricRow>)

  const NODE := "node"
  const CLUSTER := "cluster"
  const SCOPES := {NODE, CLUSTER}
  const KINDS := {"gauge", "counter"}

  /***** Statements *****/

  function DeleteMetrics(t: Tables, name: string): Tables {
    t.(metrics := map k | k in t.metrics && k.0 != name :: t.metrics[k])
  }

  function DeleteRow(t: Tables, name: string): Tables {
    t.(collections := t.collections - {name})
  }

  /** Fails on a scope that the column's type does not have, and on a null frequency. */
  function Upsert(t: Tables, name: string, config: Config, now: int): Option<Tables> {
    if config.scope in SCOPES && config.frequency.valid then
      Some(t.(collections := t.collections[name := CollectionRow(config, now)]))
    else None
  }

  /** Fails on a kind that the column's type does not have, or if the row exists. */
  function InsertMetric(t: Tables, name: string, m: Metric): Option<Tables> {
    if m.kind in KINDS && (name, m.name) !in t.metrics then
      Some(t.(metrics := t.metrics[(name, m.name) := MetricRow(m.kind, m.help)]))
    else None
  }

  function InsertAll(t: Tables, name: string, ms: seq<Metric>): Option<Tables> {
    if ms == [] then Some(t)
    else
      var before := InsertAll(t, name, ms[..|ms| - 1]);
      if before.None? then None else InsertMetric(before.value, name, ms[|ms| - 1])
  }

  /** All statements of a put. */
  function PutTables(t: Tables, c: Collection, now: int): Option<Tables> {
    var u := Upsert(DeleteMetrics(t, c.name), c.name, c.config, now);
    if u.None? then None else InsertAll(u.value, c.name, c.metrics)
  }

  function DeleteTables(t: Tables, name: string): Tables {
    DeleteRow(DeleteMetrics(t, name), name)
  }

  /***** The stores *****/

  /** What can go wrong while rows are read.  An iteration that breaks off is not reported. */
  datatype Fault = Healthy | QueryFails | ScanFails(row: nat) | BreaksOff(row: nat)

  /** Reading n rows returns an error. */
  predicate Fails(fault: Fault, n: nat) {
    fault.QueryFails? || (fault.ScanFails? && fault.row < n)
  }

  /** The number of rows, of n, that are read if no error is returned. */
  function RowsRead(fault: Fault, n: nat): (r: nat)
    ensures r <= n
  {
    if fault.BreaksOff? && fault.row < n then fault.row else n
  }

  /** What a fault does, for every number of rows. */
  lemma FaultEffect(fault: Fault, n: nat)
    ensures fault == Healthy ==> !Fails(fault, n) && RowsRead(fault, n) == n
    ensures fault == QueryFails ==> Fails(fault, n)
    ensures fault.ScanFails? ==> (Fails(fault, n) <==> fault.row < n) && RowsRead(fault, n) == n
    ensures fault.BreaksOff? ==> !Fails(fault, n) && RowsRead(fault, n) == if fault.row < n then fault.row else n
  {}

  /** What looking up a collection yields; a missing one is not an error. */
  datatype Load = LoadFails | Missing | Loaded(coll: Collection)

  class TableStore {
    var tables: Tables

    /** Runs the statements in a transaction that is rolled back on the first error.  The first `healthy` statements
        work unless they violate a constraint, and the commit counts as the last one. */
    method PutCollection(c: Collection, now: int, healthy: nat) returns (ok: bool)
      modifies this
      ensures ok <==> healthy >= 3 + |c.metrics| && PutTables(old(tables), c, now).Some?
      ensures tables == if ok then PutTables(old(tables), c, now).value else old(tables)
    {
      if healthy < 1 {
        return false;
      }
      var txn := DeleteMetrics(tables, c.name);
      if healthy < 2 {
        return false;
      }
      var upserted := Upsert(txn, c.name, c.config, now);
      if upserted.None? {
        return false;
      }
      txn := upserted.value;
      assert c.metrics[..0] == [];
      for i := 0 to |c.metrics|
        invariant healthy >= 2 + i && tables == old(tables)
        invariant InsertAll(upserted.value, c.name, c.metrics[..i]) == Some(txn)
      {
        assert c.metrics[..i + 1][..i] == c.metrics[..i];
        var inserted := InsertMetric(txn, c.name, c.metrics[i]);
        if inserted.None? {
          InsertFailsFor(upserted.value, c.name, c.metrics, i + 1);
        }
        if healthy < 3 + i || inserted.None? {
          return false;
        }
        txn := inserted.value;
      }
      assert c.metrics[..|c.metrics|] == c.metrics;
      if healthy < 3 + |c.metrics| {
        return false;
      }
      tables := txn;
      return true;
    }

    method DeleteCollection(name: string, healthy: nat) returns (ok: bool)
      modifies this
      ensures ok <==> healthy >= 3
      ensures tables == if ok then DeleteTables(old(tables), name) else old(tables)
    {
      if healthy < 1 { return false; }
      var txn := DeleteMetrics(tables, name);
      if healthy < 2 { return false; }
      txn := DeleteRow(txn, name);
      if healthy < 3 { return false; }
      tables := txn;
      return true;
    }

    /** The names of all collections, in whatever order the database returns them, or as many as could be read. */
    method GetCollectionNames(fault: Fault) returns (names: Option<seq<string>>)
      ensures names.None? <==> Fails(fault, |tables.collections|)
      ensures names.Some? ==>
                && Distinct(names.value) && |names.value| == RowsRead(fault, |tables.collections|)
                && (forall n :: n in names.value ==> n in tables.collections)
      ensures names.Some? && !fault.BreaksOff? ==> forall n :: n in names.value <==> n in tables.collections
    {
      if fault.QueryFails? {
        return None;
      }
      var res: seq<string> := [];
      var rows := tables.collections.Keys;
      while rows != {} && !(fault.BreaksOff? && fault.row == |res|)
        invariant rows <= tables.collections.Keys && |res| + |rows| == |tables.collections|
        invariant Distinct(res) && forall n :: n in res <==> n in tables.collections && n !in rows
        invariant fault.ScanFails? || fault.BreaksOff? ==> |res| <= fault.row
        decreases rows
      {
        var n :| n in rows;
        if fault.ScanFails? && fault.row == |res| {
          return None;
        }
        res := res + [n];
        rows := rows - {n};
      }
      return Some(res);
    }

    /** The metric rows of a collection, in whatever order the database returns them, or as many as could be read. */
    method GetMetrics(name: string, fault: Fault) returns (metrics: Option<seq<Metric>>)
      ensures metrics.None? <==> Fails(fault, |RowsOf(tables, name)|)
      ensures metrics.Some? ==>
                && DistinctNames(metrics.value) && |metrics.value| == RowsRead(fault, |RowsOf(tables, name)|)
                && (forall m :: m in metrics.value ==> m in MetricsOf(tables, name))
      ensures metrics.Some? && !fault.BreaksOff? ==> forall m :: m in metrics.value <==> m in MetricsOf(tables, name)
    {
      if fault.QueryFails? {
        return None;
      }
      var ms: seq<Metric> := [];
      var rows := RowsOf(tables, name);
      ghost var all := rows;
      while rows != {} && !(fault.BreaksOff? && fault.row == |ms|)
        invariant rows <= all && |ms| + |rows| == |all| && DistinctNames(ms)
        invariant forall m :: m in ms <==>
                    (name, m.name) in all - rows && tables.metrics[(name, m.name)] == MetricRow(m.kind, m.help)
        invariant fault.ScanFails? || fault.BreaksOff? ==> |ms| <= fault.row
        decreases rows
      {
        var k :| k in rows;
        if fault.ScanFails? && fault.row == |ms| {
          return None;
        }
        ms := ms + [Metric(k.1, tables.metrics[k].kind, tables.metrics[k].help)];
        rows := rows - {k};
      }
      return Some(ms);
    }

    /** The stored collection; `rowFails` if its own row cannot be read, `fault` for its metric rows. */
    method GetCollection(name: string, rowFails: bool, fault: Fault) returns (load: Load)
      ensures load.Missing? <==> !rowFails && name !in Abstract(tables)
      ensures load.LoadFails? <==> rowFails || (name in Abstract(tables) && Fails(fault, |RowsOf(tables, name)|))
      ensures load.Loaded? ==>
                && load.coll.name == name && DistinctNames(load.coll.metrics)
                && load.coll.config == Abstract(tables)[name].config &&
                  load.coll.lastModified == tables.collections[name].updated
                && Content(load.coll).metrics <= Abstract(tables)[name].metrics
      ensures !fault.BreaksOff? ==> AnswerOf(load) == AnswerTables(tables, Get(name, load.LoadFails?))
    {
      if rowFails {
        return LoadFails;
      }
      if name !in tables.collections {
        return Missing;
      }
      var metrics := GetMetrics(name, fault);
      if metrics.None? {
        return LoadFails;
      }
      var row := tables.collections[name];
      load := Loaded(Collection(name, row.config, row.updated, metrics.value));
      assert !fault.BreaksOff? ==> Content(load.coll).metrics == MetricsOf(tables, name);
    }
  }

  class MemoryStore {
    var collections: map<string, Collection>

    method PutCollection(c: Collection, injected: bool) returns (ok: bool)
      modifies this
      ensures ok <==> !injected
      ensures collections == if ok then old(collections)[c.name := c] else old(collections)
    {
      if injected { return false; }
      collections := collections[c.name := c];
      return true;
    }

    method DeleteCollection(name: string, injected: bool) returns (ok: bool)
      modifies this
      ensures ok <==> !injected
      ensures collections == if ok then old(collections) - {name} else old(collections)
    {
      if injected { return false; }
      collections := collections - {name};
      return true;
    }

    method GetCollection(name: string, injected: bool) returns (load: Load)
      ensures load.Loaded? ==> name in collections && load.coll == collections[name]
      ensures AnswerOf(load) == AnswerMemory(collections, Get(name, injected))
    {
      if injected { return LoadFails; }
      if name !in collections { return Missing; }
      return Loaded(collections[name]);
    }
  }

  /***** What a store holds *****/

  /** A collection up to the order of its metrics and its time of change. */
  datatype Stored = Stored(config: Config, metrics: set<Metric>)

  function Content(c: Collection): Stored {
    Stored(c.config, set m | m in c.metrics)
  }

  function RowsOf(t: Tables, name: string): set<(string, string)> {
    set k | k in t.metrics && k.0 == name
  }

  function MetricsOf(t: Tables, name: string): set<Metric> {
    set k | k in t.metrics && k.0 == name :: Metric(k.1, t.metrics[k].kind, t.metrics[k].help)
  }

  function Abstract(t: Tables): map<string, Stored> {
    map n | n in t.collections :: Stored(t.collections[n].config, MetricsOf(t, n))
  }

  function AbstractMemory(m: map<string, Collection>): map<string, Stored> {
    map n | n in m :: Content(m[n])
  }

  ghost predicate DistinctNames(ms: seq<Metric>) {
    forall i, j :: 0 <= i < j < |ms| ==> ms[i].name != ms[j].name
  }

  /** A collection that the tables can hold. */
  ghost predicate Storable(c: Collection) {
    && c.config.scope in SCOPES && c.config.frequency.valid
    && DistinctNames(c.metrics) && forall i :: 0 <= i < |c.metrics| ==> c.metrics[i].kind in KINDS
  }

  /** Written out: the scopes and kinds are those that the column types have. */
  lemma StorableIff(c: Collection)
    ensures Storable(c) <==>
            && (c.config.scope == "node" || c.config.scope == "cluster") && c.config.frequency.valid
            && (forall i :: 0 <= i < |c.metrics| ==> c.metrics[i].kind == "gauge" || c.metrics[i].kind == "counter")
            && (forall i, j :: 0 <= i < j < |c.metrics| ==> c.metrics[i].name != c.metrics[j].name)
  {}

  lemma {:induction false} InsertFailsFor(t: Tables, name: string, ms: seq<Metric>, i: nat)
    requires i <= |ms| && InsertAll(t, name, ms[..i]).None?
    ensures InsertAll(t, name, ms).None?
    decreases |ms| - i
  {
    if i < |ms| {
      assert ms[..i + 1][..i] == ms[..i];
      InsertFailsFor(t, name, ms, i + 1);
    } else {
      assert ms[..i] == ms;
    }
  }

  /** What inserting the metrics of a collection that has none does to the tables. */
  lemma {:induction false} InsertAllEffect(t: Tables, name: string, ms: seq<Metric>)
    requires forall k :: k in t.metrics ==> k.0 != name
    ensures InsertAll(t, name, ms).Some? <==> DistinctNames(ms) && forall i :: 0 <= i < |ms| ==> ms[i].kind in KINDS
    ensures InsertAll(t, name, ms).Some? ==>
              var r := InsertAll(t, name, ms).value;
              && r.collections == t.collections
              && (forall k :: k in t.metrics ==> k in r.metrics && r.metrics[k] == t.metrics[k])
              && (forall k :: k in r.metrics && k.0 != name ==> k in t.metrics)
              && (forall m: Metric :: m in ms <==>
                (name, m.name) in r.metrics && r.metrics[(name, m.name)] == MetricRow(m.kind, m.help))
  {
    if ms != [] {
      var p, m := ms[..|ms| - 1], ms[|ms| - 1];
      assert ms == p + [m];
      InsertAllEffect(t, name, p);
      var before := InsertAll(t, name, p);
      if before.Some? {
        if (name, m.name) in before.value.metrics {
          var row := before.value.metrics[(name, m.name)];
          assert Metric(m.name, row.kind, row.help) in p;
        }
        assert DistinctNames(ms) ==> forall x :: x in p ==> x.name != m.name;
      }
      if DistinctNames(ms) { assert DistinctNames(p); }
    }
  }

  /** No metric row lacks its collection. */
  ghost predicate NoOrphanMetrics(t: Tables) {
    forall k :: k in t.metrics ==> k.0 in t.collections
  }

  /** Which rows a put leaves: its own collection's are its metrics, all others are as before. */
  lemma PutEffect(t: Tables, c: Collection, now: int)
    ensures PutTables(t, c, now).Some? <==> Storable(c)
    ensures Storable(c) ==>
              var r := PutTables(t, c, now).value;
              && r.collections == t.collections[c.name := CollectionRow(c.config, now)]
              && (forall n, m: string :: n != c.name ==> ((n, m) in r.metrics <==> (n, m) in t.metrics))
              && (forall n, m: string :: n != c.name && (n, m) in t.metrics ==> r.metrics[(n, m)] == t.metrics[(n, m)])
              && MetricsOf(r, c.name) == Content(c).metrics
  {
    var u := Upsert(DeleteMetrics(t, c.name), c.name, c.config, now);
    if u.Some? {
      InsertAllEffect(u.value, c.name, c.metrics);
      hide InsertAll, DistinctNames;
      if Storable(c) { OwnMetrics(PutTables(t, c, now).value, c); }
    }
  }

  lemma OwnMetrics(r: Tables, c: Collection)
    requires forall m: Metric :: m in c.metrics <==>
               (c.name, m.name) in r.metrics && r.metrics[(c.name, m.name)] == MetricRow(m.kind, m.help)
    ensures MetricsOf(r, c.name) == Content(c).metrics
  {
    forall m | m in MetricsOf(r, c.name) ensures m in c.metrics {
      var k :| k in r.metrics && k.0 == c.name && m == Metric(k.1, r.metrics[k].kind, r.metrics[k].help);
      assert k == (c.name, m.name);
    }
  }

  /** A put works exactly on storable collections, and then has the effect of storing into the map. */
  lemma PutRefines(t: Tables, c: Collection, now: int)
    requires NoOrphanMetrics(t)
    ensures PutTables(t, c, now).Some? <==> Storable(c)
    ensures Storable(c) ==>
              && NoOrphanMetrics(PutTables(t, c, now).value)
              && Abstract(PutTables(t, c, now).value) == Abstract(t)[c.name := Content(c)]
              && PutTables(t, c, now).value.collections[c.name].updated == now
  {
    PutEffect(t, c, now);
    hide PutTables, Storable;
    if Storable(c) {
      var r := PutTables(t, c, now).value;
      forall k | k in r.metrics ensures k.0 in r.collections { assert k == (k.0, k.1); }
      forall n | n in r.collections && n != c.name ensures MetricsOf(r, n) == MetricsOf(t, n) {
        SameMetrics(t, r, n);
      }
      hide MetricsOf;
      assert Abstract(r) == Abstract(t)[c.name := Content(c)];
    }
  }

  lemma SameMetrics(t: Tables, r: Tables, n: string)
    requires forall m: string :: (n, m) in t.metrics <==> (n, m) in r.metrics
    requires forall m: string :: (n, m) in t.metrics ==> r.metrics[(n, m)] == t.metrics[(n, m)]
    ensures MetricsOf(r, n) == MetricsOf(t, n)
  {
    forall k | k in r.metrics && k.0 == n ensures k in t.metrics { assert k == (n, k.1); }
    forall k | k in t.metrics && k.0 == n ensures k in r.metrics { assert k == (n, k.1); }
  }

  lemma DeleteRefines(t: Tables, name: string)
    requires NoOrphanMetrics(t)
    ensures NoOrphanMetrics(DeleteTables(t, name))
    ensures Abstract(DeleteTables(t, name)) == Abstract(t) - {name}
  {
    var r := DeleteTables(t, name);
    forall n | n in r.collections ensures MetricsOf(r, n) == MetricsOf(t, n) {
      SameMetrics(t, r, n);
    }
  }

  /***** Any sequence of calls *****/

  /** A call, and whether an outside error strikes it. */
  datatype Call =
    | Put(c: Collection, now: int, fails: bool)
    | Delete(name: string, fails: bool)
    | Get(name: string, fails: bool)

  /** What a call returns, up to the order of metrics and the time of change. */
  datatype Answer = Failed | Done | Nothing | Found(stored: Stored)

  function CallTables(t: Tables, call: Call): Tables {
    match call
    case Put(c, now, fails) => if fails || PutTables(t, c, now).None? then t else PutTables(t, c, now).value
    case Delete(name, fails) => if fails then t else DeleteTables(t, name)
    case Get(_, _) => t
  }

  function CallMemory(m: map<string, Collection>, call: Call): map<string, Collection> {
    match call
    case Put(c, _, fails) => if fails then m else m[c.name := c]
    case Delete(name, fails) => if fails then m else m - {name}
    case Get(_, _) => m
  }

  function Lookup(held: map<string, Stored>, name: string): Answer {
    if name in held then Found(held[name]) else Nothing
  }

  function AnswerTables(t: Tables, call: Call): Answer {
    if call.fails then Failed
    else
      match call
      case Put(c, now, _) => if PutTables(t, c, now).None? then Failed else Done
      case Delete(_, _) => Done
      case Get(name, _) => Lookup(Abstract(t), name)
  }

  function AnswerMemory(m: map<string, Collection>, call: Call): Answer {
    if call.fails then Failed
    else
      match call
      case Put(_, _, _) => Done
      case Delete(_, _) => Done
      case Get(name, _) => Lookup(AbstractMemory(m), name)
  }

  function AnswerOf(load: Load): Answer {
    match load
    case LoadFails => Failed
    case Missing => Nothing
    case Loaded(c) => Found(Content(c))
  }

  function RunTables(calls: seq<Call>): Tables {
    if calls == [] then Tables(map[], map[]) else CallTables(RunTables(calls[..|calls| - 1]), calls[|calls| - 1])
  }

  function RunMemory(calls: seq<Call>): map<string, Collection> {
    if calls == [] then map[] else CallMemory(RunMemory(calls[..|calls| - 1]), calls[|calls| - 1])
  }

  /** A put that an error strikes leaves no trace; any other one is of a storable collection. */
  ghost predicate PutsStorable(calls: seq<Call>) {
    forall i :: 0 <= i < |calls| && calls[i].Put? && !calls[i].fails ==> Storable(calls[i].c)
  }

  /** After any calls with storable collections, both stores hold the same, whatever calls failed. */
  lemma {:induction false} TablesRefineMemory(calls: seq<Call>)
    requires PutsStorable(calls)
    ensures NoOrphanMetrics(RunTables(calls))
    ensures Abstract(RunTables(calls)) == AbstractMemory(RunMemory(calls))
  {
    if calls == [] {
      assert Abstract(RunTables([])) == map[];
    } else {
      var p, call := calls[..|calls| - 1], calls[|calls| - 1];
      assert PutsStorable(p) && (call.Put? && !call.fails ==> Storable(call.c));
      hide PutTables, DeleteTables, Abstract, NoOrphanMetrics, Storable, PutsStorable;
      TablesRefineMemory(p);
      match call {
        case Put(c, now, _) => PutRefines(RunTables(p), c, now);
        case Delete(name, _) => DeleteRefines(RunTables(p), name);
        case Get(_, _) =>
      }
    }
  }

  /** Both stores give the same answer to call i, after the calls before it. */
  ghost predicate SameAnswer(calls: seq<Call>, i: nat)
    requires i < |calls|
  {
    AnswerTables(RunTables(calls[..i]), calls[i]) == AnswerMemory(RunMemory(calls[..i]), calls[i])
  }

  lemma FirstDifference(calls: seq<Call>, i: nat)
    requires i < |calls| && calls[i].Put? && !calls[i].fails && !Storable(calls[i].c)
    ensures !SameAnswer(calls, i)
  {
    PutEffect(RunTables(calls[..i]), calls[i].c, calls[i].now);
  }

  lemma StorableSameAnswer(calls: seq<Call>, i: nat)
    requires PutsStorable(calls) && i < |calls|
    ensures SameAnswer(calls, i)
  {
    var p, call := calls[..i], calls[i];
    assert PutsStorable(p) && (call.Put? && !call.fails ==> Storable(call.c));
    hide PutTables, Abstract, AbstractMemory, Storable, PutsStorable, RunTables, RunMemory;
    TablesRefineMemory(p);
    if call.Put? && !call.fails { PutEffect(RunTables(p), call.c, call.now); }
  }

  /** All calls of a sequence get the same answers from both stores exactly if all its puts are of storable
      collections. */
  lemma SameAnswersIff(calls: seq<Call>)
    ensures (forall i :: 0 <= i < |calls| ==> SameAnswer(calls, i)) <==> PutsStorable(calls)
  {
    hide SameAnswer, Storable;
    if PutsStorable(calls) {
      forall i | 0 <= i < |calls| ensures SameAnswer(calls, i) { StorableSameAnswer(calls, i); }
    } else {
      var i :| 0 <= i < |calls| && calls[i].Put? && !calls[i].fails && !Storable(calls[i].c);
      FirstDifference(calls, i);
    }
  }

  /** The stores hold the same after one put exactly if its collection is storable: the tables refuse a repeated metric
      name, an unknown kind or scope and a null frequency, and the map takes them. */
  lemma SameAfterPutIff(c: Collection)
    ensures Abstract(RunTables([Put(c, 0, false)])) == AbstractMemory(RunMemory([Put(c, 0, false)])) <==> Storable(c)
  {
    var calls := [Put(c, 0, false)];
    assert calls[..0] == [];
    if Storable(c) {
      TablesRefineMemory(calls);
    } else {
      PutEffect(Tables(map[], map[]), c, 0);
      assert RunTables(calls) == Tables(map[], map[]);
      assert c.name in AbstractMemory(RunMemory(calls));
      assert c.name !in Abstract(RunTables(calls));
    }
  }
}
