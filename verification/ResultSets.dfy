/**
What a collection's query returns and what it means: each row sets label values from its
label columns and yields counter samples and gauge cells from its metric columns.
 */
module ResultSets {
  import opened Wrappers
  import opened Counters
  import opened Gauges
  import opened Sequences

  datatype Kind = Counter | Gauge

  /** The part of a collection that gives its columns a meaning; `perDatabase` adds a label for the database. */
  datatype Shape = Shape(labels: seq<string>, metrics: map<string, Kind>, perDatabase: bool)

  /** A decoded column value, by the types that the collector distinguishes. */
  datatype Value =
    | Text(s: string)
    | Float(r: real)
    | Integer(i: int)
    | Decimal(d: Option<real>)  // None: the conversion to a float fails
    | Null
    | Unsupported

  datatype Row = Undecodable | Values(cells: seq<Value>)

  datatype ResultSet = ResultSet(columns: seq<string>, rows: seq<Row>)

  /** The driver returns one value per column. */
  predicate Rectangular(rs: ResultSet) {
    forall i :: 0 <= i < |rs.rows| && rs.rows[i].Values? ==> |rs.rows[i].cells| == |rs.columns|
  }

  /** The slot of each label; of equal labels the last one wins. */
  function LabelMap(labels: seq<string>): (m: map<string, nat>)
    ensures forall l :: l in m <==> l in labels
    ensures forall l :: l in m ==> m[l] < |labels| && labels[m[l]] == l
  {
    if labels == [] then map[]
    else
      var n := |labels| - 1;
      assert labels == labels[..n] + [labels[n]];
      LabelMap(labels[..n])[labels[n] := n]
  }

  /** The map is the exact inverse of the label list exactly when no label is repeated. */
  lemma {:induction false} LabelMapInverseIff(labels: seq<string>)
    ensures (forall i :: 0 <= i < |labels| ==> LabelMap(labels)[labels[i]] == i) <==>
            Distinct(labels)
  {
    if Distinct(labels) {
      forall i | 0 <= i < |labels| ensures LabelMap(labels)[labels[i]] == i {
        var j := LabelMap(labels)[labels[i]];
        assert labels[j] == labels[i];
      }
    } else {
      var i, j :| 0 <= i < j < |labels| && labels[i] == labels[j];
      assert LabelMap(labels)[labels[i]] == LabelMap(labels)[labels[j]];
    }
  }

  function Arity(sh: Shape): nat {
    |sh.labels| + if sh.perDatabase then 1 else 0
  }

  predicate IsLabel(sh: Shape, column: string) {
    column in LabelMap(sh.labels)
  }

  predicate IsMetric(sh: Shape, column: string, kind: Kind) {
    !IsLabel(sh, column) && column in sh.metrics && sh.metrics[column] == kind
  }

  function Numeric(v: Value): Option<real> {
    match v
    case Float(r) => Some(r)
    case Integer(i) => Some(i as real)
    case Decimal(d) => d
    case _ => None
  }

  /** The label values before any column is read. */
  function BlankLabels(sh: Shape, db: string): (ls: seq<string>)
    ensures |ls| == Arity(sh)
  {
    var blank := seq(Arity(sh), _ => "");
    if db != "" && Arity(sh) > 0 then blank[Arity(sh) - 1 := db] else blank
  }

  function SetLabel(sh: Shape, ls: seq<string>, column: string, v: Value): (r: seq<string>)
    requires |ls| == Arity(sh)
    ensures |r| == Arity(sh)
  {
    if IsLabel(sh, column) && v.Text? then ls[LabelMap(sh.labels)[column] := v.s] else ls
  }

  /** The label values once the first j columns of a row are read. */
  function RowLabels(sh: Shape, db: string, columns: seq<string>, cells: seq<Value>, j: nat): (ls: seq<string>)
    requires j <= |columns| == |cells|
    ensures |ls| == Arity(sh)
  {
    if j == 0 then BlankLabels(sh, db)
    else SetLabel(sh, RowLabels(sh, db, columns, cells, j - 1), columns[j - 1], cells[j - 1])
  }

  function ColumnSamples(sh: Shape, column: string, v: Value, ls: seq<string>): seq<Sample> {
    if IsMetric(sh, column, Counter) && Numeric(v).Some? then [Sample(Key(column, ls), Numeric(v).value)] else []
  }

  function ColumnCells(sh: Shape, column: string, v: Value, ls: seq<string>): seq<Cell> {
    if IsMetric(sh, column, Gauge) then [Cell(Key(column, ls), Numeric(v))] else []
  }

  function RowSamples(sh: Shape, db: string, columns: seq<string>, cells: seq<Value>, j: nat): seq<Sample>
    requires j <= |columns| == |cells|
  {
    if j == 0 then []
    else RowSamples(sh, db, columns, cells, j - 1) +
         ColumnSamples(sh, columns[j - 1], cells[j - 1], RowLabels(sh, db, columns, cells, j - 1))
  }

  function RowCells(sh: Shape, db: string, columns: seq<string>, cells: seq<Value>, j: nat): seq<Cell>
    requires j <= |columns| == |cells|
  {
    if j == 0 then []
    else RowCells(sh, db, columns, cells, j - 1) +
         ColumnCells(sh, columns[j - 1], cells[j - 1], RowLabels(sh, db, columns, cells, j - 1))
  }

  /** The counter samples of the first i rows. */
  function PassSamples(sh: Shape, db: string, rs: ResultSet, i: nat): seq<Sample>
    requires Rectangular(rs) && i <= |rs.rows|
  {
    if i == 0 then []
    else PassSamples(sh, db, rs, i - 1) +
         (if rs.rows[i - 1].Values? then RowSamples(sh, db, rs.columns, rs.rows[i - 1].cells, |rs.columns|) else [])
  }

  /** The gauge cells of the first i rows. */
  function PassCells(sh: Shape, db: string, rs: ResultSet, i: nat): seq<Cell>
    requires Rectangular(rs) && i <= |rs.rows|
  {
    if i == 0 then []
    else PassCells(sh, db, rs, i - 1) +
         (if rs.rows[i - 1].Values? then RowCells(sh, db, rs.columns, rs.rows[i - 1].cells, |rs.columns|) else [])
  }

  /***** Rows and label tuples *****/

  /** The documented column order: labels before metrics. */
  ghost predicate LabelsFirst(sh: Shape, columns: seq<string>) {
    forall i, j :: 0 <= i < j < |columns| && (IsMetric(sh, columns[i], Counter) || IsMetric(sh, columns[i], Gauge)) ==>
      !IsLabel(sh, columns[j])
  }

  /** Once a metric column is reached, the label values of the row are final. */
  lemma {:induction false} LabelsSettled(sh: Shape, db: string, columns: seq<string>, cells: seq<Value>, i: nat, j: nat)
    requires i < j <= |columns| == |cells| && LabelsFirst(sh, columns)
    requires IsMetric(sh, columns[i], Counter) || IsMetric(sh, columns[i], Gauge)
    ensures RowLabels(sh, db, columns, cells, j) == RowLabels(sh, db, columns, cells, i)
    decreases j - i
  {
    if i + 1 < j {
      LabelsSettled(sh, db, columns, cells, i, j - 1);
    }
  }

  /** The label tuple of a row. */
  function Tuple(sh: Shape, db: string, columns: seq<string>, cells: seq<Value>): seq<string>
    requires |columns| == |cells|
  {
    RowLabels(sh, db, columns, cells, |columns|)
  }

  lemma {:induction false} RowCellsHaveTuple(sh: Shape, db: string, columns: seq<string>, cells: seq<Value>, j: nat,
      c: Cell)
    requires j <= |columns| == |cells| && LabelsFirst(sh, columns) && c in RowCells(sh, db, columns, cells, j)
    ensures c.key.labels == Tuple(sh, db, columns, cells)
    ensures c.key.family in sh.metrics && sh.metrics[c.key.family] == Gauge
  {
    if c in ColumnCells(sh, columns[j - 1], cells[j - 1], RowLabels(sh, db, columns, cells, j - 1)) {
      LabelsSettled(sh, db, columns, cells, j - 1, |columns|);
    } else {
      RowCellsHaveTuple(sh, db, columns, cells, j - 1, c);
    }
  }

  /** Every gauge cell of a pass carries the label tuple of one of its rows. */
  lemma {:induction false} PassCellsHaveTuples(sh: Shape, db: string, rs: ResultSet, i: nat, c: Cell) returns (r: nat)
    requires Rectangular(rs) && i <= |rs.rows| && LabelsFirst(sh, rs.columns) && c in PassCells(sh, db, rs, i)
    ensures r < |rs.rows| && rs.rows[r].Values? && c.key.labels == Tuple(sh, db, rs.columns, rs.rows[r].cells)
    ensures c.key.family in sh.metrics && sh.metrics[c.key.family] == Gauge
  {
    if rs.rows[i - 1].Values? && c in RowCells(sh, db, rs.columns, rs.rows[i - 1].cells, |rs.columns|) {
      RowCellsHaveTuple(sh, db, rs.columns, rs.rows[i - 1].cells, |rs.columns|, c);
      r := i - 1;
    } else {
      r := PassCellsHaveTuples(sh, db, rs, i - 1, c);
    }
  }

  /** With a database label, every tuple of a pass ends with the database it was read from. */
  lemma {:induction false} TupleEndsWithDatabase(sh: Shape, db: string, columns: seq<string>, cells: seq<Value>, j: nat)
    requires j <= |columns| == |cells| && sh.perDatabase && db != ""
    ensures |sh.labels| < |RowLabels(sh, db, columns, cells, j)|
    ensures RowLabels(sh, db, columns, cells, j)[|sh.labels|] == db
  {
    if j > 0 {
      TupleEndsWithDatabase(sh, db, columns, cells, j - 1);
    }
  }

  /***** What a row means, by its own cells *****/

  /** Of the first n columns, j is the last one of the label with a text. */
  ghost predicate LastText(columns: seq<string>, cells: seq<Value>, n: nat, name: string, j: nat)
    requires n <= |columns| == |cells|
  {
    && j < n && columns[j] == name && cells[j].Text?
    && forall k :: j < k < n ==> !(columns[k] == name && cells[k].Text?)
  }

  /** x is the text in the last column of that name among the first n, or empty if there is none. */
  ghost predicate IsText(columns: seq<string>, cells: seq<Value>, n: nat, name: string, x: string)
    requires n <= |columns| == |cells|
  {
    && (forall j :: 0 <= j && LastText(columns, cells, n, name, j) ==> x == cells[j].s)
    && ((forall j :: 0 <= j < n ==> !(columns[j] == name && cells[j].Text?)) ==> x == "")
  }

  /** ls are the labels of a row after its first n columns: for each label the text in its column, or nothing if there
      is none; and the database at the end, if there is a label for it. */
  ghost predicate Labelled(sh: Shape, db: string, columns: seq<string>, cells: seq<Value>, n: nat, ls: seq<string>)
    requires n <= |columns| == |cells|
  {
    && |ls| == |sh.labels| + (if sh.perDatabase then 1 else 0)
    && (sh.perDatabase ==> ls[|sh.labels|] == db)
    && (forall i :: 0 <= i < |sh.labels| ==> IsText(columns, cells, n, sh.labels[i], ls[i]))
  }

  lemma BlankLabelled(sh: Shape, db: string, columns: seq<string>, cells: seq<Value>)
    requires |columns| == |cells| && (db != "" ==> sh.perDatabase)
    ensures Labelled(sh, db, columns, cells, 0, BlankLabels(sh, db))
  {}

  lemma NextText(columns: seq<string>, cells: seq<Value>, n: nat, name: string, x: string)
    requires n < |columns| == |cells| && IsText(columns, cells, n, name, x)
    ensures IsText(columns, cells, n + 1, name, if columns[n] == name && cells[n].Text? then cells[n].s else x)
  {
    if !(columns[n] == name && cells[n].Text?) {
      forall j | 0 <= j && LastText(columns, cells, n + 1, name, j) ensures x == cells[j].s {
        assert LastText(columns, cells, n, name, j);
      }
    }
  }

  /** One more column: at most the slot of its own label changes. */
  lemma ColumnLabelled(sh: Shape, db: string, columns: seq<string>, cells: seq<Value>, n: nat, ls: seq<string>)
    requires n < |columns| == |cells| && Distinct(sh.labels) && Labelled(sh, db, columns, cells, n, ls)
    ensures |ls| == Arity(sh) && Labelled(sh, db, columns, cells, n + 1, SetLabel(sh, ls, columns[n], cells[n]))
  {
    var r := SetLabel(sh, ls, columns[n], cells[n]);
    forall i | 0 <= i < |sh.labels|
      ensures r[i] == if columns[n] == sh.labels[i] && cells[n].Text? then cells[n].s else ls[i]
      ensures IsText(columns, cells, n + 1, sh.labels[i], r[i])
    {
      SlotOf(sh.labels, i);
      NextText(columns, cells, n, sh.labels[i], ls[i]);
      hide IsText;
    }
  }

  lemma SlotOf(labels: seq<string>, i: nat)
    requires Distinct(labels) && i < |labels|
    ensures labels[i] in LabelMap(labels) && LabelMap(labels)[labels[i]] == i
  {}

  lemma {:induction false} RowIsLabelled(sh: Shape, db: string, columns: seq<string>, cells: seq<Value>, n: nat)
    requires n <= |columns| == |cells| && Distinct(sh.labels) && (db != "" ==> sh.perDatabase)
    ensures Labelled(sh, db, columns, cells, n, RowLabels(sh, db, columns, cells, n))
  {
    hide Labelled, SetLabel, Distinct, BlankLabels;
    if n == 0 {
      BlankLabelled(sh, db, columns, cells);
    } else {
      RowIsLabelled(sh, db, columns, cells, n - 1);
      ColumnLabelled(sh, db, columns, cells, n - 1, RowLabels(sh, db, columns, cells, n - 1));
    }
  }

  lemma {:induction false} SomeLastText(columns: seq<string>, cells: seq<Value>, n: nat, name: string) returns (j: nat)
    requires n <= |columns| == |cells| && exists k :: 0 <= k < n && columns[k] == name && cells[k].Text?
    ensures LastText(columns, cells, n, name, j)
  {
    if columns[n - 1] == name && cells[n - 1].Text? {
      j := n - 1;
    } else {
      j := SomeLastText(columns, cells, n - 1, name);
    }
  }

  lemma IsTextUnique(columns: seq<string>, cells: seq<Value>, n: nat, name: string, x: string, y: string)
    requires n <= |columns| == |cells| && IsText(columns, cells, n, name, x) && IsText(columns, cells, n, name, y)
    ensures x == y
  {
    hide LastText;
    if exists k :: 0 <= k < n && columns[k] == name && cells[k].Text? {
      var j := SomeLastText(columns, cells, n, name);
    }
  }

  /** With distinct labels, the tuple of a row is the one that its own cells describe, and no other. */
  lemma TupleIff(sh: Shape, db: string, columns: seq<string>, cells: seq<Value>, ls: seq<string>)
    requires |columns| == |cells| && Distinct(sh.labels) && (db != "" ==> sh.perDatabase)
    ensures ls == Tuple(sh, db, columns, cells) <==> Labelled(sh, db, columns, cells, |columns|, ls)
  {
    hide IsText, RowLabels, Distinct;
    var n, t := |columns|, Tuple(sh, db, columns, cells);
    RowIsLabelled(sh, db, columns, cells, n);
    if Labelled(sh, db, columns, cells, n, ls) {
      forall i | 0 <= i < |sh.labels| ensures ls[i] == t[i] {
        IsTextUnique(columns, cells, n, sh.labels[i], ls[i], t[i]);
      }
      assert ls == t;
    }
  }

  /** v is a number, and x is that number. */
  predicate IsNumber(v: Value, x: real) {
    match v
    case Float(r) => x == r
    case Integer(i) => x == i as real
    case Decimal(d) => d == Some(x)
    case _ => false
  }

  lemma NumericIff(v: Value, x: real)
    ensures Numeric(v) == Some(x) <==> IsNumber(v, x)
  {}

  /** Column j is a metric of that kind; a column that is named like a label is none. */
  predicate IsColumn(sh: Shape, columns: seq<string>, j: nat, kind: Kind) {
    j < |columns| && columns[j] !in sh.labels && columns[j] in sh.metrics && sh.metrics[columns[j]] == kind
  }

  /** A row has exactly one sample for each number in a counter column, under the column's name and the row's labels. */
  lemma {:induction false} RowSampleIff(sh: Shape, db: string, columns: seq<string>, cells: seq<Value>, n: nat,
      s: Sample)
    requires n <= |columns| == |cells| && LabelsFirst(sh, columns)
    ensures s in RowSamples(sh, db, columns, cells, n) <==>
            && s.key.labels == Tuple(sh, db, columns, cells)
            && exists j ::
              0 <= j < n && IsColumn(sh, columns, j, Counter) && columns[j] == s.key.family &&
                IsNumber(cells[j], s.value)
  {
    if n > 0 {
      RowSampleIff(sh, db, columns, cells, n - 1, s);
      var ls := RowLabels(sh, db, columns, cells, n - 1);
      var added := ColumnSamples(sh, columns[n - 1], cells[n - 1], ls);
      assert IsMetric(sh, columns[n - 1], Counter) <==> IsColumn(sh, columns, n - 1, Counter);
      if IsMetric(sh, columns[n - 1], Counter) { LabelsSettled(sh, db, columns, cells, n - 1, |columns|); }
      NumericIff(cells[n - 1], s.value);
      hide RowLabels, LabelsFirst, IsColumn;
      assert s in RowSamples(sh, db, columns, cells, n) <==>
        s in RowSamples(sh, db, columns, cells, n - 1) || s in added;
    }
  }

  /** And exactly one cell for each gauge column, with its number if it has one. */
  lemma {:induction false} RowCellIff(sh: Shape, db: string, columns: seq<string>, cells: seq<Value>, n: nat, c: Cell)
    requires n <= |columns| == |cells| && LabelsFirst(sh, columns)
    ensures c in RowCells(sh, db, columns, cells, n) <==>
            && c.key.labels == Tuple(sh, db, columns, cells)
            && exists j :: 0 <= j < n && IsColumn(sh, columns, j, Gauge) && columns[j] == c.key.family &&
                 (if c.value.Some? then IsNumber(cells[j], c.value.value) else forall x :: !IsNumber(cells[j], x))
  {
    if n > 0 {
      RowCellIff(sh, db, columns, cells, n - 1, c);
      var ls := RowLabels(sh, db, columns, cells, n - 1);
      var added := ColumnCells(sh, columns[n - 1], cells[n - 1], ls);
      assert IsMetric(sh, columns[n - 1], Gauge) <==> IsColumn(sh, columns, n - 1, Gauge);
      if IsMetric(sh, columns[n - 1], Gauge) { LabelsSettled(sh, db, columns, cells, n - 1, |columns|); }
      NumberOf(cells[n - 1], c.value);
      hide RowLabels, LabelsFirst, IsColumn, IsNumber, Numeric;
      assert c in RowCells(sh, db, columns, cells, n) <==> c in RowCells(sh, db, columns, cells, n - 1) || c in added;
    }
  }

  lemma NumberOf(v: Value, x: Option<real>)
    ensures Numeric(v) == x <==> if x.Some? then IsNumber(v, x.value) else forall y :: !IsNumber(v, y)
  {
    if Numeric(v).Some? { assert IsNumber(v, Numeric(v).value); }
  }

  /** So the text in the one column of a label is in the slot of that label, for every sample and cell of the row. */
  lemma RowLabelValues(sh: Shape, db: string, columns: seq<string>, cells: seq<Value>, i: nat, j: nat)
    requires |columns| == |cells| && LabelsFirst(sh, columns) && Distinct(sh.labels) && (db != "" ==> sh.perDatabase)
    requires i < |sh.labels| && j < |columns| && columns[j] == sh.labels[i] && cells[j].Text?
    requires forall k :: 0 <= k < |columns| && k != j ==> columns[k] != columns[j]
    ensures forall s :: s in RowSamples(sh, db, columns, cells, |columns|) ==>
              |s.key.labels| > i && s.key.labels[i] == cells[j].s
    ensures forall c :: c in RowCells(sh, db, columns, cells, |columns|) ==>
              |c.key.labels| > i && c.key.labels[i] == cells[j].s
  {
    hide RowSamples, RowCells, LabelsFirst, Tuple;
    var n, t := |columns|, Tuple(sh, db, columns, cells);
    TupleIff(sh, db, columns, cells, t);
    assert LastText(columns, cells, n, sh.labels[i], j);
    forall s | s in RowSamples(sh, db, columns, cells, n) ensures s.key.labels == t {
      RowSampleIff(sh, db, columns, cells, n, s);
    }
    forall c | c in RowCells(sh, db, columns, cells, n) ensures c.key.labels == t {
      RowCellIff(sh, db, columns, cells, n, c);
    }
  }

  /** Column j has that name and a number. */
  ghost predicate NumberAt(columns: seq<string>, cells: seq<Value>, j: nat, name: string)
    requires |columns| == |cells|
  {
    j < |columns| && columns[j] == name && Numeric(cells[j]).Some?
  }

  /** The last number in a counter's column is its last sample in the row. */
  lemma {:induction false} LastSampleInRow(sh: Shape, db: string, columns: seq<string>, cells: seq<Value>, n: nat,
      j: nat, k: Key)
    requires j < n <= |columns| == |cells| && LabelsFirst(sh, columns) && k.labels == Tuple(sh, db, columns, cells)
    requires IsMetric(sh, k.family, Counter) && NumberAt(columns, cells, j, k.family)
    requires forall i :: j < i < n ==> !NumberAt(columns, cells, i, k.family)
    ensures LastOf(RowSamples(sh, db, columns, cells, n), k) == Numeric(cells[j])
  {
    hide LabelsFirst, Numeric, Tuple;
    var ls := RowLabels(sh, db, columns, cells, n - 1);
    var added := ColumnSamples(sh, columns[n - 1], cells[n - 1], ls);
    LastOfConcat(RowSamples(sh, db, columns, cells, n - 1), added, k);
    if n - 1 == j {
      LabelsSettled(sh, db, columns, cells, j, |columns|);
      TupleIsRow(sh, db, columns, cells);
      hide RowLabels, IsMetric;
      assert added == [Sample(k, Numeric(cells[j]).value)];
    } else {
      LastSampleInRow(sh, db, columns, cells, n - 1, j, k);
      assert !NumberAt(columns, cells, n - 1, k.family);
      assert LastOf(added, k).None?;
    }
  }

  lemma TupleIsRow(sh: Shape, db: string, columns: seq<string>, cells: seq<Value>)
    requires |columns| == |cells|
    ensures Tuple(sh, db, columns, cells) == RowLabels(sh, db, columns, cells, |columns|)
  {}

  /** And the last number in a gauge's column is its last value in the row. */
  lemma {:induction false} LastValueInRow(sh: Shape, db: string, columns: seq<string>, cells: seq<Value>, n: nat,
      j: nat, k: Key)
    requires j < n <= |columns| == |cells| && LabelsFirst(sh, columns) && k.labels == Tuple(sh, db, columns, cells)
    requires IsMetric(sh, k.family, Gauge) && NumberAt(columns, cells, j, k.family)
    requires forall i :: j < i < n ==> !NumberAt(columns, cells, i, k.family)
    ensures LastValue(RowCells(sh, db, columns, cells, n), k) == Numeric(cells[j])
  {
    hide LabelsFirst, Numeric, Tuple;
    var ls := RowLabels(sh, db, columns, cells, n - 1);
    var added := ColumnCells(sh, columns[n - 1], cells[n - 1], ls);
    LastValueConcat(RowCells(sh, db, columns, cells, n - 1), added, k);
    if n - 1 == j {
      LabelsSettled(sh, db, columns, cells, j, |columns|);
      TupleIsRow(sh, db, columns, cells);
      hide RowLabels, IsMetric;
      assert added == [Cell(k, Numeric(cells[j]))];
    } else {
      LastValueInRow(sh, db, columns, cells, n - 1, j, k);
      assert !NumberAt(columns, cells, n - 1, k.family);
      assert LastValue(added, k).None?;
    }
  }

  /** A pass has exactly the samples of its rows that could be decoded. */
  lemma {:induction false} PassSampleIff(sh: Shape, db: string, rs: ResultSet, n: nat, s: Sample)
    requires Rectangular(rs) && n <= |rs.rows|
    ensures s in PassSamples(sh, db, rs, n) <==>
            exists r :: 0 <= r < n && rs.rows[r].Values? &&
              s in RowSamples(sh, db, rs.columns, rs.rows[r].cells, |rs.columns|)
  {
    hide RowSamples;
    if n > 0 { PassSampleIff(sh, db, rs, n - 1, s); }
  }

  lemma {:induction false} PassCellIff(sh: Shape, db: string, rs: ResultSet, n: nat, c: Cell)
    requires Rectangular(rs) && n <= |rs.rows|
    ensures c in PassCells(sh, db, rs, n) <==>
            exists r :: 0 <= r < n && rs.rows[r].Values? &&
              c in RowCells(sh, db, rs.columns, rs.rows[r].cells, |rs.columns|)
  {
    hide RowCells;
    if n > 0 { PassCellIff(sh, db, rs, n - 1, c); }
  }

  /** Columns and rows count in order: what was counted stays in front. */
  lemma InOrder(sh: Shape, db: string, rs: ResultSet, r: nat, j: nat)
    requires Rectangular(rs) && r < |rs.rows| && (rs.rows[r].Values? ==> j < |rs.columns|)
    ensures PassSamples(sh, db, rs, r) <= PassSamples(sh, db, rs, r + 1)
    ensures PassCells(sh, db, rs, r) <= PassCells(sh, db, rs, r + 1)
    ensures rs.rows[r].Values? ==>
              && RowSamples(sh, db, rs.columns, rs.rows[r].cells, j) <= RowSamples(sh, db, rs.columns, rs.rows[r].cells,
                j + 1)
              && RowCells(sh, db, rs.columns, rs.rows[r].cells, j) <= RowCells(sh, db, rs.columns, rs.rows[r].cells,
                j + 1)
  {}

  /***** How many series a pass has *****/

  /** The counters of the collection. */
  function CounterNames(sh: Shape): set<string> {
    set m | m in sh.metrics && sh.metrics[m] == Counter
  }

  /** The series of the given counters with one label tuple. */
  function SeriesWith(names: set<string>, labels: seq<string>): set<Key> {
    set m | m in names :: Key(m, labels)
  }

  lemma {:induction false} CountSeriesWith(names: set<string>, labels: seq<string>)
    ensures |SeriesWith(names, labels)| == |names|
  {
    if names != {} {
      var m :| m in names;
      CountSeriesWith(names - {m}, labels);
      assert SeriesWith(names, labels) == SeriesWith(names - {m}, labels) + {Key(m, labels)};
    }
  }

  lemma {:induction false} RowSeries(sh: Shape, db: string, columns: seq<string>, cells: seq<Value>, j: nat)
    requires j <= |columns| == |cells| && LabelsFirst(sh, columns)
    ensures Series(RowSamples(sh, db, columns, cells, j)) <= SeriesWith(CounterNames(sh), Tuple(sh, db, columns, cells))
  {
    if j > 0 {
      RowSeries(sh, db, columns, cells, j - 1);
      var labels := RowLabels(sh, db, columns, cells, j - 1);
      var added := ColumnSamples(sh, columns[j - 1], cells[j - 1], labels);
      SeriesConcat(RowSamples(sh, db, columns, cells, j - 1), added);
      if added != [] {
        LabelsSettled(sh, db, columns, cells, j - 1, |columns|);
        SeriesOf(added[0]);
      }
    }
  }

  /** A pass has at most one series per counter and row, whatever columns and rows are repeated. */
  lemma {:induction false} PassSeriesBound(sh: Shape, db: string, rs: ResultSet, i: nat)
    requires Rectangular(rs) && i <= |rs.rows| && LabelsFirst(sh, rs.columns)
    ensures |Series(PassSamples(sh, db, rs, i))| <= |CounterNames(sh)| * i
  {
    hide RowSamples, Series, SeriesWith, LabelsFirst, CounterNames, Tuple;
    if i == 0 {
      SeriesOf(Sample(Key("", []), 0.0));
    } else {
      PassSeriesBound(sh, db, rs, i - 1);
      assert |CounterNames(sh)| * i == |CounterNames(sh)| * (i - 1) + |CounterNames(sh)|;
      if rs.rows[i - 1].Values? {
        var cells := rs.rows[i - 1].cells;
        RowSeries(sh, db, rs.columns, cells, |rs.columns|);
        CountSeriesWith(CounterNames(sh), Tuple(sh, db, rs.columns, cells));
        CountSubset(Series(RowSamples(sh, db, rs.columns, cells, |rs.columns|)),
                    SeriesWith(CounterNames(sh), Tuple(sh, db, rs.columns, cells)));
        SeriesConcat(PassSamples(sh, db, rs, i - 1), RowSamples(sh, db, rs.columns, cells, |rs.columns|));
      } else {
        assert PassSamples(sh, db, rs, i) == PassSamples(sh, db, rs, i - 1);
      }
    }
  }

  /***** Counter values *****/

  ghost predicate NonNegativeRow(sh: Shape, columns: seq<string>, cells: seq<Value>)
    requires |columns| == |cells|
  {
    forall j :: 0 <= j < |cells| && IsMetric(sh, columns[j], Counter) && Numeric(cells[j]).Some? ==>
      Numeric(cells[j]).value >= 0.0
  }

  /** No counter column has a negative value. */
  ghost predicate NonNegativeCounters(sh: Shape, rs: ResultSet)
    requires Rectangular(rs)
  {
    forall i :: 0 <= i < |rs.rows| && rs.rows[i].Values? ==> NonNegativeRow(sh, rs.columns, rs.rows[i].cells)
  }

  lemma {:induction false} RowNonNegative(sh: Shape, db: string, columns: seq<string>, cells: seq<Value>, j: nat)
    requires j <= |columns| == |cells| && NonNegativeRow(sh, columns, cells)
    ensures NonNegative(RowSamples(sh, db, columns, cells, j))
  {
    if j > 0 {
      RowNonNegative(sh, db, columns, cells, j - 1);
    }
  }

  lemma {:induction false} PassNonNegative(sh: Shape, db: string, rs: ResultSet, i: nat)
    requires Rectangular(rs) && i <= |rs.rows| && NonNegativeCounters(sh, rs)
    ensures NonNegative(PassSamples(sh, db, rs, i))
  {
    hide RowSamples;
    if i > 0 {
      PassNonNegative(sh, db, rs, i - 1);
      if rs.rows[i - 1].Values? {
        RowNonNegative(sh, db, rs.columns, rs.rows[i - 1].cells, |rs.columns|);
      }
    }
  }
}
