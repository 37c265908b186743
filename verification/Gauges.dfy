/**
Gauges: each pass sets the series of the rows it reads and then deletes the series that the
previous pass left behind.  Series are told apart by their label values joined with "|".
 */
module Gauges {
  import opened Wrappers
  import opened Counters
  import opened Text

  /** A gauge column of a row: its series, and its value if it has a numeric one. */
  datatype Cell = Cell(key: Key, value: Option<real>)

  /** Label values by joined id, by gauge. */
  type Tracked = map<string, map<string, seq<string>>>

  datatype GaugeTable = GaugeTable(exported: map<Key, real>, tracked: Tracked)

  function Join(s: seq<string>): string {
    if |s| == 0 then "" else if |s| == 1 then s[0] else s[0] + "|" + Join(s[1..])
  }

  function Set(exported: map<Key, real>, c: Cell): map<Key, real> {
    if c.value.Some? then exported[c.key := c.value.value] else exported
  }

  function SetAll(exported: map<Key, real>, cells: seq<Cell>): map<Key, real> {
    if cells == [] then exported else Set(SetAll(exported, cells[..|cells| - 1]), cells[|cells| - 1])
  }

  function TrackCell(t: Tracked, k: Key): Tracked {
    var ids := if k.family in t then t[k.family] else map[];
    t[k.family := ids[Join(k.labels) := k.labels]]
  }

  /** Tracking the cells on top of what is tracked. */
  function TrackAll(t: Tracked, cells: seq<Cell>): Tracked {
    if cells == [] then t else TrackCell(TrackAll(t, cells[..|cells| - 1]), cells[|cells| - 1].key)
  }

  predicate Has(t: Tracked, family: string, id: string) {
    family in t && id in t[family]
  }

  /** The series that were tracked before and whose id is not among the current ones. */
  function Obsolete(before: Tracked, current: Tracked, gauges: set<string>): set<Key> {
    set family, id | family in before.Keys && id in before[family].Keys && family in gauges &&
      !Has(current, family, id) ::
      Key(family, before[family][id])
  }

  /** One pass: the cells in order, then the sweep. */
  function Pass(g: GaugeTable, cells: seq<Cell>, gauges: set<string>): GaugeTable {
    var current := TrackAll(map[], cells);
    GaugeTable(SetAll(g.exported, cells) - Obsolete(g.tracked, current, gauges), current)
  }

  /***** The joined id *****/

  predicate NoPipe(s: seq<string>) {
    forall i :: 0 <= i < |s| ==> '|' !in s[i]
  }

  /** Without "|" in the values, tuples of one length have different ids. */
  lemma {:induction false} JoinInjective(a: seq<string>, b: seq<string>)
    requires |a| == |b| && NoPipe(a) && NoPipe(b) && Join(a) == Join(b)
    ensures a == b
  {
    if |a| > 1 {
      CutAt(a[0], '|', Join(a[1..]));
      CutAt(b[0], '|', Join(b[1..]));
      JoinInjective(a[1..], b[1..]);
      assert a == [a[0]] + a[1..] && b == [b[0]] + b[1..];
    }
  }

  /***** One pass *****/

  ghost predicate Seen(cells: seq<Cell>, k: Key) {
    exists i :: 0 <= i < |cells| && cells[i].key == k
  }

  /** A cell of the same gauge with the same joined id. */
  ghost predicate SeenId(cells: seq<Cell>, family: string, id: string) {
    exists i :: 0 <= i < |cells| && cells[i].key.family == family && Join(cells[i].key.labels) == id
  }

  /** The last numeric value that the pass has for k. */
  ghost function LastValue(cells: seq<Cell>, k: Key): Option<real> {
    if cells == [] then None
    else
      var c := cells[|cells| - 1];
      if c.key == k && c.value.Some? then c.value else LastValue(cells[..|cells| - 1], k)
  }

  /** Label values are tracked under their own id. */
  ghost predicate IdsMatch(t: Tracked) {
    forall family, id :: Has(t, family, id) ==> Join(t[family][id]) == id
  }

  /** The label values tracked under the id of k are its own. */
  predicate TrackedAs(t: Tracked, k: Key) {
    Has(t, k.family, Join(k.labels)) && t[k.family][Join(k.labels)] == k.labels
  }

  /** Every exported series is tracked, for a gauge of the collection. */
  ghost predicate AllTracked(g: GaugeTable, gauges: set<string>) {
    IdsMatch(g.tracked) && forall k :: k in g.exported ==> k.family in gauges && TrackedAs(g.tracked, k)
  }

  lemma {:induction false} LastValueConcat(a: seq<Cell>, b: seq<Cell>, k: Key)
    ensures LastValue(a + b, k) == if LastValue(b, k).Some? then LastValue(b, k) else LastValue(a, k)
  {
    if b == [] {
      assert a + b == a;
    } else {
      assert (a + b)[..|a + b| - 1] == a + b[..|b| - 1];
      LastValueConcat(a, b[..|b| - 1], k);
    }
  }

  lemma {:induction false} LastValueIsCell(cells: seq<Cell>, k: Key)
    requires LastValue(cells, k).Some?
    ensures Cell(k, LastValue(cells, k)) in cells
  {
    var c := cells[|cells| - 1];
    if !(c.key == k && c.value.Some?) { LastValueIsCell(cells[..|cells| - 1], k); }
  }

  lemma {:induction false} SetAllValues(exported: map<Key, real>, cells: seq<Cell>, k: Key)
    ensures k in SetAll(exported, cells) <==> LastValue(cells, k).Some? || k in exported
    ensures k in SetAll(exported, cells) ==>
              SetAll(exported, cells)[k] == if LastValue(cells, k).Some? then LastValue(cells, k).value else exported[k]
    ensures LastValue(cells, k).Some? ==> Seen(cells, k)
  {
    if cells != [] {
      var p := cells[..|cells| - 1];
      SetAllValues(exported, p, k);
      if Seen(p, k) {
        var i :| 0 <= i < |p| && p[i].key == k;
        assert cells[i].key == k;
      }
      assert cells[|cells| - 1].key == k ==> Seen(cells, k);
    }
  }

  lemma {:induction false} TrackAllIds(cells: seq<Cell>, family: string, id: string)
    ensures Has(TrackAll(map[], cells), family, id) <==> SeenId(cells, family, id)
    ensures Has(TrackAll(map[], cells), family, id) ==>
              && Join(TrackAll(map[], cells)[family][id]) == id
              && Seen(cells, Key(family, TrackAll(map[], cells)[family][id]))
  {
    if cells != [] {
      var p, c := cells[..|cells| - 1], cells[|cells| - 1];
      TrackAllIds(p, family, id);
      if SeenId(p, family, id) {
        var i :| 0 <= i < |p| && p[i].key.family == family && Join(p[i].key.labels) == id;
        assert cells[i] == p[i];
      }
      if c.key.family == family && Join(c.key.labels) == id {
        assert cells[|cells| - 1] == c;
        assert c.key == Key(family, c.key.labels);
      } else if Has(TrackAll(map[], p), family, id) {
        var i :| 0 <= i < |p| && p[i].key == Key(family, TrackAll(map[], p)[family][id]);
        assert cells[i] == p[i];
      }
    }
  }

  /** From any state, exactly which series a pass leaves exported, and with which value.  A numeric value in a row
      exports the series.  Without one, an exported series stays if a row has its id, or if it is not tracked. */
  lemma PassExactly(g: GaugeTable, cells: seq<Cell>, gauges: set<string>, k: Key)
    requires IdsMatch(g.tracked)
    ensures k in Pass(g, cells, gauges).exported <==>
            || LastValue(cells, k).Some?
            || (k in g.exported &&
              (SeenId(cells, k.family, Join(k.labels)) || k.family !in gauges || !TrackedAs(g.tracked, k)))
    ensures k in Pass(g, cells, gauges).exported ==>
              Pass(g, cells, gauges).exported[k] ==
              if LastValue(cells, k).Some? then LastValue(cells, k).value else g.exported[k]
    ensures IdsMatch(Pass(g, cells, gauges).tracked)
    ensures TrackedAs(Pass(g, cells, gauges).tracked, k) ==> Seen(cells, k)
  {
    SetAllValues(g.exported, cells, k);
    if Seen(cells, k) { SeenHasId(cells, k); }
    ObsoleteIff(g.tracked, TrackAll(map[], cells), gauges, k);
    TrackAllIds(cells, k.family, Join(k.labels));
    forall family, id
      ensures Has(TrackAll(map[], cells), family, id) ==> Join(TrackAll(map[], cells)[family][id]) == id
    {
      TrackAllIds(cells, family, id);
    }
  }

  lemma SeenHasId(cells: seq<Cell>, k: Key)
    requires Seen(cells, k)
    ensures SeenId(cells, k.family, Join(k.labels))
  {
    var i :| 0 <= i < |cells| && cells[i].key == k;
    assert cells[i].key.family == k.family;
  }

  lemma ObsoleteIff(before: Tracked, current: Tracked, gauges: set<string>, k: Key)
    requires IdsMatch(before)
    ensures k in Obsolete(before, current, gauges) <==>
            k.family in gauges && TrackedAs(before, k) && !Has(current, k.family, Join(k.labels))
  {
    if k in Obsolete(before, current, gauges) {
      var family, id :| family in before.Keys && id in before[family].Keys && family in gauges &&
        !Has(current, family, id) && k == Key(family, before[family][id]);
      assert Has(before, family, id);
    }
    if k.family in gauges && TrackedAs(before, k) && !Has(current, k.family, Join(k.labels)) {
      assert k == Key(k.family, before[k.family][Join(k.labels)]);
    }
  }

  /***** Any run of passes *****/

  /** Label tuples of one length, none with "|", of gauges of the collection. */
  ghost predicate Plain(k: Key, gauges: set<string>, arity: nat) {
    k.family in gauges && |k.labels| == arity && NoPipe(k.labels)
  }

  ghost predicate PlainCells(cells: seq<Cell>, gauges: set<string>, arity: nat) {
    forall i :: 0 <= i < |cells| ==> Plain(cells[i].key, gauges, arity)
  }

  ghost predicate Clean(g: GaugeTable, gauges: set<string>, arity: nat) {
    AllTracked(g, gauges) && forall k :: k in g.exported ==> Plain(k, gauges, arity)
  }

  lemma SameIdSameSeries(cells: seq<Cell>, gauges: set<string>, arity: nat, k: Key)
    requires PlainCells(cells, gauges, arity) && Plain(k, gauges, arity)
    ensures SeenId(cells, k.family, Join(k.labels)) <==> Seen(cells, k)
    ensures Seen(cells, k) ==> TrackedAs(TrackAll(map[], cells), k)
  {
    TrackAllIds(cells, k.family, Join(k.labels));
    if SeenId(cells, k.family, Join(k.labels)) {
      var i :| 0 <= i < |cells| && cells[i].key.family == k.family && Join(cells[i].key.labels) == Join(k.labels);
      JoinInjective(cells[i].key.labels, k.labels);
      assert cells[i].key == k;
      var lbs := TrackAll(map[], cells)[k.family][Join(k.labels)];
      var j :| 0 <= j < |cells| && cells[j].key == Key(k.family, lbs);
      JoinInjective(cells[j].key.labels, k.labels);
    }
    if Seen(cells, k) {
      var i :| 0 <= i < |cells| && cells[i].key == k;
      assert cells[i].key.family == k.family;
    }
  }

  /** Without "|", the exported series after a pass are rows of that pass, with their last numeric values;
      and the next pass can rely on this again. */
  lemma PassSweeps(g: GaugeTable, cells: seq<Cell>, gauges: set<string>, arity: nat)
    requires Clean(g, gauges, arity) && PlainCells(cells, gauges, arity)
    ensures Clean(Pass(g, cells, gauges), gauges, arity)
    ensures forall k :: k in Pass(g, cells, gauges).exported <==>
              Seen(cells, k) && (LastValue(cells, k).Some? || k in g.exported)
    ensures forall k :: LastValue(cells, k).Some? ==>
              k in Pass(g, cells, gauges).exported && Pass(g, cells, gauges).exported[k] == LastValue(cells, k).value
  {
    hide Pass, IdsMatch, TrackedAs;
    var h := Pass(g, cells, gauges);
    forall k
      ensures k in h.exported <==> Seen(cells, k) && (LastValue(cells, k).Some? || k in g.exported)
      ensures LastValue(cells, k).Some? ==> k in h.exported && h.exported[k] == LastValue(cells, k).value
      ensures k in h.exported ==> Plain(k, gauges, arity)
    {
      PassExactly(g, cells, gauges, k);
      SetAllValues(g.exported, cells, k);
      if k in g.exported { SameIdSameSeries(cells, gauges, arity, k); }
    }
    PassTracks(g, cells, gauges, arity, h);
  }

  lemma PassTracks(g: GaugeTable, cells: seq<Cell>, gauges: set<string>, arity: nat, h: GaugeTable)
    requires PlainCells(cells, gauges, arity) && h == Pass(g, cells, gauges)
    requires forall k :: k in h.exported ==> Plain(k, gauges, arity) && Seen(cells, k)
    ensures AllTracked(h, gauges)
  {
    hide Seen, SeenId;
    forall k | k in h.exported ensures TrackedAs(h.tracked, k) {
      SameIdSameSeries(cells, gauges, arity, k);
    }
    forall family, id | Has(h.tracked, family, id) ensures Join(h.tracked[family][id]) == id {
      TrackAllIds(cells, family, id);
    }
  }

  function PassAll(g: GaugeTable, passes: seq<seq<Cell>>, gauges: set<string>): GaugeTable {
    if passes == [] then g else Pass(PassAll(g, passes[..|passes| - 1], gauges), passes[|passes| - 1], gauges)
  }

  /** After any run of passes, what is exported are rows of the last pass only. */
  lemma {:induction false} OnlyLastPassExported(passes: seq<seq<Cell>>, gauges: set<string>, arity: nat)
    requires forall i :: 0 <= i < |passes| ==> PlainCells(passes[i], gauges, arity)
    ensures Clean(PassAll(GaugeTable(map[], map[]), passes, gauges), gauges, arity)
    ensures forall k :: k in PassAll(GaugeTable(map[], map[]), passes, gauges).exported ==>
              passes != [] && Seen(passes[|passes| - 1], k)
  {
    hide Pass, Seen, PlainCells;
    if passes != [] {
      OnlyLastPassExported(passes[..|passes| - 1], gauges, arity);
      PassSweeps(PassAll(GaugeTable(map[], map[]), passes[..|passes| - 1], gauges), passes[|passes| - 1], gauges,
        arity);
    }
  }

  /** A series that is exported and not tracked stays exported, with its value, until a row has its own labels. */
  lemma {:induction false} StaleStays(g: GaugeTable, passes: seq<seq<Cell>>, gauges: set<string>, k: Key)
    requires IdsMatch(g.tracked) && k in g.exported && !TrackedAs(g.tracked, k)
    requires forall i :: 0 <= i < |passes| ==> !Seen(passes[i], k)
    ensures var r := PassAll(g, passes, gauges);
            IdsMatch(r.tracked) && k in r.exported && r.exported[k] == g.exported[k] && !TrackedAs(r.tracked, k)
  {
    if passes != [] {
      hide Pass, TrackedAs, IdsMatch, Seen;
      var p, cells := passes[..|passes| - 1], passes[|passes| - 1];
      StaleStays(g, p, gauges, k);
      PassExactly(PassAll(g, p, gauges), cells, gauges, k);
      SetAllValues(map[], cells, k);
    }
  }

  /** So once a pass has no row for an exported series but one of the same id, no number of further passes without its
      own labels removes it. */
  lemma CollisionStrands(g: GaugeTable, cells: seq<Cell>, passes: seq<seq<Cell>>, gauges: set<string>, k: Key)
    requires IdsMatch(g.tracked) && k in g.exported
    requires !Seen(cells, k) && SeenId(cells, k.family, Join(k.labels))
    requires forall i :: 0 <= i < |passes| ==> !Seen(passes[i], k)
    ensures var r := PassAll(Pass(g, cells, gauges), passes, gauges);
            k in r.exported && r.exported[k] == g.exported[k]
  {
    hide Pass, TrackedAs, IdsMatch, Seen, SeenId;
    PassExactly(g, cells, gauges, k);
    SetAllValues(map[], cells, k);
    StaleStays(Pass(g, cells, gauges), passes, gauges, k);
  }

  /** With "|" in a label value two series can share an id, and the sweep leaves the obsolete one behind. */
  lemma PipeLeavesStaleSeries()
    ensures var stale, other := Key("g", ["a|b", "c"]), Key("g", ["a", "b|c"]);
            var after := PassAll(GaugeTable(map[], map[]), [[Cell(stale, Some(1.0))], [Cell(other, Some(2.0))]], {"g"});
            stale in after.exported && !Seen([Cell(other, Some(2.0))], stale)
  {
    var stale, other := Key("g", ["a|b", "c"]), Key("g", ["a", "b|c"]);
    assert Join(stale.labels) == "a|b" + "|" + "c" == "a|b|c";
    assert Join(other.labels) == "a" + "|" + "b|c" == "a|b|c";
    var p, q := [Cell(stale, Some(1.0))], [Cell(other, Some(2.0))];
    assert p[..0] == [] && q[..0] == [];
    var g := Pass(GaugeTable(map[], map[]), p, {"g"});
    assert TrackAll(map[], p) == map["g" := map["a|b|c" := stale.labels]];
    assert TrackAll(map[], q) == map["g" := map["a|b|c" := other.labels]];
    assert Obsolete(map[], TrackAll(map[], p), {"g"}) == {};
    assert SetAll(map[], p) == map[stale := 1.0];
    assert SetAll(g.exported, q) == g.exported[other := 2.0];
    assert p[0].key == stale && stale != other;
    var h := Pass(g, q, {"g"});
    assert stale !in Obsolete(g.tracked, TrackAll(map[], q), {"g"});
    var passes := [p, q];
    assert passes[..1] == [p] && [p][..0] == [];
    assert PassAll(GaugeTable(map[], map[]), [p], {"g"}) == g;
    assert PassAll(GaugeTable(map[], map[]), passes, {"g"}) == h;
  }
}
