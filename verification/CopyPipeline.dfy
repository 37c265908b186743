/**
Copying metrics from an endpoint: families that are not histograms pass through, and each
histogram family is translated and written by every translator whose pattern matches it.
 */
module CopyPipeline {
  import opened Wrappers
  import opened Rebucketing
  import opened Translator
  import opened Sequences

  /** A translator: its histogram definition and the family names that its pattern matches. */
  datatype Rule = Rule(h: Histogram, matches: string -> bool)

  /** What is written for a family. */
  datatype Written = Written(name: string, isHistogram: bool, metrics: seq<seq<Bucket>>)

  class Writer {
    // replaced as a whole between copies; none: histograms are passed through as well
    var translators: Option<seq<Rule>>

    /** Writes the text of all families, in the order the parser yields them.  The source may fail to open or to parse;
        the output takes `room` characters and then fails, possibly in the middle of a family. */
    method Copy(families: seq<MetricFamily>, parsed: bool, render: Written -> string, room: nat)
      returns (out: string, ok: bool)
      requires Distinct(families) && Readable(Snapshots(families))
      requires translators.Some? ==> ValidRules(translators.value)
      modifies families
      ensures !parsed ==> !ok && out == ""
      ensures parsed ==> Outcome(TextOf(OutputOf(old(Snapshots(families)), translators), render), room, out, ok)
    {
      if !parsed {
        return "", false;
      }
      hide ValidRules, AllCumulative, Readable, OutputOf, TextOf, TextFrom, Outcome, Distinct;
      ghost var start := Snapshots(families);
      TextFromEnds(start, translators, render);
      out, ok := CopyAll(families, start, render, room);
    }

    method CopyAll(families: seq<MetricFamily>, ghost ws: seq<Written>, render: Written -> string, room: nat)
      returns (out: string, ok: bool)
      requires Distinct(families) && |ws| == |families| && Readable(ws)
      requires forall i :: 0 <= i < |families| ==> ws[i] == Snapshot(families[i])
      requires translators.Some? ==> ValidRules(translators.value)
      modifies families
      ensures Outcome(TextFrom(ws, translators, render, 0), room, out, ok)
    {
      hide ValidRules, AllCumulative, WriteFamily, Readable, OutputOf, TextOf, TextFrom, Outcome, Distinct;
      ghost var all := TextFrom(ws, translators, render, 0);
      TextFromEnds(ws, translators, render);
      out, ok := "", true;
      Started(room);
      for i := 0 to |families|
        invariant ok && Outcome(out, room, out, ok)
        invariant forall j :: i <= j < |families| ==> ws[j] == Snapshot(families[j])
        invariant all == out + TextFrom(ws, translators, render, i)
      {
        TextFromNext(ws, translators, render, i);
        ghost var next := out + TextOf(WriteFamily(ws[i], translators), render);
        ghost var rest := TextFrom(ws, translators, render, i + 1);
        assert all == next + rest;
        Apart(families, i);
        out, ok := CopyFamily(families[i], ws[i], render, out, room);
        Continued(next, rest, room, out, ok);
        if !ok {
          return;
        }
      }
      assert all == out;
    }

    /** Writes the text of one family, or as much of it as there is room for. */
    method CopyFamily(f: MetricFamily, ghost w: Written, render: Written -> string, written: string, room: nat)
      returns (out: string, ok: bool)
      requires w == Snapshot(f) && AllCumulative(w.metrics) && Outcome(written, room, written, true)
      requires translators.Some? ==> ValidRules(translators.value)
      modifies f
      ensures Outcome(written + TextOf(WriteFamily(w, translators), render), room, out, ok)
    {
      hide Outcome;
      out, ok := written, true;
      if f.isHistogram && translators.Some? {
        var rules := translators.value;
        ghost var all := written + TextOf(Chain(Snapshot(f), rules), render);
        hide AllCumulative, RebucketAll;
        for k := 0 to |rules|
          invariant ok && Outcome(out, room, out, ok) && AllCumulative(f.metrics) && ValidRules(rules[k..])
          invariant all == out + TextOf(Chain(Snapshot(f), rules[k..]), render)
        {
          assert rules[k..][1..] == rules[k + 1..];
          if rules[k].matches(f.name) {
            f.TranslateAll(rules[k].h);
            ghost var rest := Chain(Snapshot(f), rules[k + 1..]);
            TextCons(Snapshot(f), rest, render);
            ghost var next := out + render(Snapshot(f));
            assert all == next + TextOf(rest, render);
            out, ok := Write(out, render(Written(f.name, f.isHistogram, f.metrics)), room);
            Continued(next, TextOf(rest, render), room, out, ok);
            if !ok {
              return;
            }
          }
        }
        assert all == out;
      } else {
        TextCons(Snapshot(f), [], render);
        assert [Snapshot(f)] + [] == [Snapshot(f)] && render(Snapshot(f)) + "" == render(Snapshot(f));
        out, ok := Write(out, render(Written(f.name, f.isHistogram, f.metrics)), room);
      }
    }
  }

  /** Writing `all` to an output that takes `room` characters: all of it, or the part that fits and an error. */
  ghost predicate Outcome(all: string, room: nat, out: string, ok: bool) {
    (ok <==> |all| <= room) && out == if ok then all else all[..room]
  }

  /** Appends to the output. */
  method Write(written: string, text: string, room: nat) returns (out: string, ok: bool)
    requires Outcome(written, room, written, true)
    ensures Outcome(written + text, room, out, ok)
  {
    out := written + text;
    ok := |out| <= room;
    if !ok {
      out := out[..room];
    }
  }

  lemma Apart(families: seq<MetricFamily>, i: nat)
    requires Distinct(families) && i < |families|
    ensures forall j :: i < j < |families| ==> families[j] != families[i]
  {}

  lemma Started(room: nat)
    ensures Outcome("", room, "", true)
  {}

  /** After a failure nothing is added. */
  lemma Continued(a: string, b: string, room: nat, out: string, ok: bool)
    requires Outcome(a, room, out, ok)
    ensures ok ==> out == a
    ensures !ok ==> Outcome(a + b, room, out, ok)
  {}

  /** The text of what is written, one after the other. */
  ghost function TextOf(ws: seq<Written>, render: Written -> string): string {
    if ws == [] then "" else render(ws[0]) + TextOf(ws[1..], render)
  }

  lemma TextCons(w: Written, ws: seq<Written>, render: Written -> string)
    ensures TextOf([w] + ws, render) == render(w) + TextOf(ws, render)
  {
    assert ([w] + ws)[1..] == ws;
  }

  lemma {:induction false} TextConcat(a: seq<Written>, b: seq<Written>, render: Written -> string)
    ensures TextOf(a + b, render) == TextOf(a, render) + TextOf(b, render)
  {
    if a == [] {
      assert a + b == b;
    } else {
      assert (a + b)[1..] == a[1..] + b;
      TextConcat(a[1..], b, render);
    }
  }

  ghost predicate ValidRules(rules: seq<Rule>) {
    forall i :: 0 <= i < |rules| ==> ValidHistogram(rules[i].h)
  }

  function Snapshot(f: MetricFamily): Written
    reads f
  {
    Written(f.name, f.isHistogram, f.metrics)
  }

  function Snapshots(fs: seq<MetricFamily>): (ws: seq<Written>)
    reads fs
    ensures |ws| == |fs| && forall i :: 0 <= i < |fs| ==> ws[i] == Snapshot(fs[i])
  {
    if fs == [] then [] else [Snapshot(fs[0])] + Snapshots(fs[1..])
  }

  /** What the matching translators write in turn; each works on what the one before left in the family. */
  ghost function Chain(w: Written, rules: seq<Rule>): seq<Written>
    requires AllCumulative(w.metrics) && ValidRules(rules)
    decreases |rules|
  {
    if rules == [] then []
    else if rules[0].matches(w.name) then
      RebucketAllCumulative(rules[0].h, w.metrics);
      var t := w.(metrics := RebucketAll(rules[0].h, w.metrics));
      [t] + Chain(t, rules[1..])
    else Chain(w, rules[1..])
  }

  ghost function WriteFamily(w: Written, rules: Option<seq<Rule>>): seq<Written>
    requires AllCumulative(w.metrics) && (rules.Some? ==> ValidRules(rules.value))
  {
    if w.isHistogram && rules.Some? then Chain(w, rules.value) else [w]
  }

  ghost function OutputOf(ws: seq<Written>, rules: Option<seq<Rule>>): seq<Written>
    requires Readable(ws) && (rules.Some? ==> ValidRules(rules.value))
  {
    if ws == [] then [] else WriteFamily(ws[0], rules) + OutputOf(ws[1..], rules)
  }

  ghost predicate Readable(ws: seq<Written>) {
    forall i :: 0 <= i < |ws| ==> AllCumulative(ws[i].metrics)
  }

  /** The text of the families from i on. */
  ghost function TextFrom(ws: seq<Written>, rules: Option<seq<Rule>>, render: Written -> string, i: nat): string
    requires Readable(ws) && (rules.Some? ==> ValidRules(rules.value)) && i <= |ws|
  {
    TextOf(OutputOf(ws[i..], rules), render)
  }

  lemma TextFromNext(ws: seq<Written>, rules: Option<seq<Rule>>, render: Written -> string, i: nat)
    requires Readable(ws) && (rules.Some? ==> ValidRules(rules.value)) && i < |ws|
    ensures AllCumulative(ws[i].metrics)
    ensures TextFrom(ws, rules, render, i) ==
              TextOf(WriteFamily(ws[i], rules), render) + TextFrom(ws, rules, render, i + 1)
  {
    hide AllCumulative, WriteFamily, ValidRules, TextOf;
    assert ws[i..][1..] == ws[i + 1..];
    TextConcat(WriteFamily(ws[i], rules), OutputOf(ws[i + 1..], rules), render);
  }

  lemma TextFromEnds(ws: seq<Written>, rules: Option<seq<Rule>>, render: Written -> string)
    requires Readable(ws) && (rules.Some? ==> ValidRules(rules.value))
    ensures TextFrom(ws, rules, render, 0) == TextOf(OutputOf(ws, rules), render)
    ensures TextFrom(ws, rules, render, |ws|) == ""
  {
    assert ws[0..] == ws && ws[|ws|..] == [];
  }

  /***** How often a family is written *****/

  function Matching(name: string, rules: seq<Rule>): nat {
    if rules == [] then 0 else (if rules[0].matches(name) then 1 else 0) + Matching(name, rules[1..])
  }

  lemma {:induction false} ChainLength(w: Written, rules: seq<Rule>)
    requires AllCumulative(w.metrics) && ValidRules(rules)
    ensures |Chain(w, rules)| == Matching(w.name, rules)
    ensures forall i :: 0 <= i < |Chain(w, rules)| ==>
              Chain(w, rules)[i].name == w.name && Chain(w, rules)[i].isHistogram == w.isHistogram
    decreases |rules|
  {
    hide AllCumulative, RebucketAll;
    if rules != [] {
      if rules[0].matches(w.name) {
        RebucketAllCumulative(rules[0].h, w.metrics);
        ChainLength(w.(metrics := RebucketAll(rules[0].h, w.metrics)), rules[1..]);
      } else {
        ChainLength(w, rules[1..]);
      }
    }
  }

  /** With translators set, a family that is not a histogram is written once and unchanged, and a histogram family once
      per matching translator. */
  lemma CopiesPerFamily(w: Written, rules: seq<Rule>)
    requires AllCumulative(w.metrics) && ValidRules(rules)
    ensures !w.isHistogram ==> WriteFamily(w, Some(rules)) == [w]
    ensures w.isHistogram ==> |WriteFamily(w, Some(rules))| == Matching(w.name, rules)
    ensures WriteFamily(w, None) == [w]
  {
    ChainLength(w, rules);
  }

  /** The rules that match, in order. */
  ghost function MatchingRules(name: string, rules: seq<Rule>): seq<Rule> {
    if rules == [] then []
    else (if rules[0].matches(name) then [rules[0]] else []) + MatchingRules(name, rules[1..])
  }

  /** Exactly what each copy of a histogram family is: what the i-th rule that matches makes of the copy before it,
      and the first one of the family as it was read. */
  lemma {:induction false} CopiesInTurn(w: Written, rules: seq<Rule>, i: nat)
    requires AllCumulative(w.metrics) && ValidRules(rules) && i < |Chain(w, rules)|
    ensures |Chain(w, rules)| == |MatchingRules(w.name, rules)|
    ensures var out, rule := Chain(w, rules), MatchingRules(w.name, rules)[i];
            var source := if i == 0 then w.metrics else out[i - 1].metrics;
            && ValidHistogram(rule.h) && AllCumulative(source)
            && out[i] == w.(metrics := RebucketAll(rule.h, source))
    decreases |rules|
  {
    hide AllCumulative, RebucketAll;
    var rest := rules[1..];
    if !rules[0].matches(w.name) {
      CopiesInTurn(w, rest, i);
      assert MatchingRules(w.name, rules) == MatchingRules(w.name, rest);
    } else {
      RebucketAllCumulative(rules[0].h, w.metrics);
      var t := w.(metrics := RebucketAll(rules[0].h, w.metrics));
      assert MatchingRules(w.name, rules) == [rules[0]] + MatchingRules(w.name, rest);
      if i > 0 {
        CopiesInTurn(t, rest, i - 1);
      } else {
        MatchingCount(t, rest);
      }
    }
  }

  lemma {:induction false} MatchingCount(w: Written, rules: seq<Rule>)
    requires AllCumulative(w.metrics) && ValidRules(rules)
    ensures |Chain(w, rules)| == |MatchingRules(w.name, rules)|
    decreases |rules|
  {
    hide AllCumulative, RebucketAll;
    if rules != [] {
      if rules[0].matches(w.name) {
        RebucketAllCumulative(rules[0].h, w.metrics);
        MatchingCount(w.(metrics := RebucketAll(rules[0].h, w.metrics)), rules[1..]);
      } else {
        MatchingCount(w, rules[1..]);
      }
    }
  }

  lemma ReadableConcat(a: seq<Written>, b: seq<Written>)
    requires Readable(a) && Readable(b)
    ensures Readable(a + b) && (a != [] ==> Readable(a[1..]))
  {
    hide AllCumulative;
  }

  /** Families are written one after the other, independently of each other. */
  lemma {:induction false} OutputConcat(a: seq<Written>, b: seq<Written>, rules: Option<seq<Rule>>)
    requires Readable(a) && Readable(b) && (rules.Some? ==> ValidRules(rules.value))
    ensures Readable(a + b) && OutputOf(a + b, rules) == OutputOf(a, rules) + OutputOf(b, rules)
  {
    ReadableConcat(a, b);
    if a == [] {
      assert a + b == b;
      OneFamily(a, rules);
    } else {
      OutputFirst(a, rules);
      OutputFirst(a + b, rules);
      hide Readable, WriteFamily, ValidRules, OutputOf;
      assert (a + b)[1..] == a[1..] + b;
      OutputConcat(a[1..], b, rules);
    }
  }

  lemma OutputFirst(ws: seq<Written>, rules: Option<seq<Rule>>)
    requires Readable(ws) && ws != [] && (rules.Some? ==> ValidRules(rules.value))
    ensures Readable(ws[1..]) && AllCumulative(ws[0].metrics)
    ensures OutputOf(ws, rules) == WriteFamily(ws[0], rules) + OutputOf(ws[1..], rules)
  {
    hide AllCumulative, WriteFamily, ValidRules;
  }

  lemma OneFamily(ws: seq<Written>, rules: Option<seq<Rule>>)
    requires Readable(ws) && |ws| <= 1 && (rules.Some? ==> ValidRules(rules.value))
    ensures OutputOf(ws, rules) == if ws == [] then [] else WriteFamily(ws[0], rules)
  {
    hide AllCumulative, WriteFamily, ValidRules;
    if ws != [] { assert ws[1..] == []; }
  }

  ghost predicate Disjoint(rules: seq<Rule>) {
    forall i, j, name :: 0 <= i < j < |rules| ==> !(rules[i].matches(name) && rules[j].matches(name))
  }

  lemma DisjointTail(rules: seq<Rule>)
    requires Disjoint(rules) && rules != []
    ensures Disjoint(rules[1..])
  {
    forall i, j, name | 0 <= i < j < |rules[1..]|
      ensures !(rules[1..][i].matches(name) && rules[1..][j].matches(name))
    {
      assert rules[1..][i] == rules[i + 1] && rules[1..][j] == rules[j + 1];
    }
  }

  lemma {:induction false} NoMatch(name: string, rules: seq<Rule>)
    requires forall i :: 0 <= i < |rules| ==> !rules[i].matches(name)
    ensures Matching(name, rules) == 0
  {
    if rules != [] { NoMatch(name, rules[1..]); }
  }

  lemma {:induction false} ChainOfOne(w: Written, rules: seq<Rule>, i: nat)
    requires AllCumulative(w.metrics) && ValidRules(rules) && Disjoint(rules) && i < |rules| && rules[i].matches(w.name)
    ensures Chain(w, rules) == [w.(metrics := RebucketAll(rules[i].h, w.metrics))]
    decreases |rules|
  {
    hide AllCumulative, RebucketAll;
    if i == 0 {
      RebucketAllCumulative(rules[0].h, w.metrics);
      var t := w.(metrics := RebucketAll(rules[0].h, w.metrics));
      NoMatch(w.name, rules[1..]);
      ChainLength(t, rules[1..]);
    } else {
      DisjointTail(rules);
      ChainOfOne(w, rules[1..], i - 1);
    }
  }

  /** With disjoint patterns a histogram family is written once, translated by the rule that matches it, or not at
      all. */
  lemma DisjointRulesWriteOnce(w: Written, rules: seq<Rule>)
    requires AllCumulative(w.metrics) && ValidRules(rules) && Disjoint(rules) && w.isHistogram
    ensures (forall i :: 0 <= i < |rules| ==> !rules[i].matches(w.name)) ==> WriteFamily(w, Some(rules)) == []
    ensures forall i :: 0 <= i < |rules| && rules[i].matches(w.name) ==>
              WriteFamily(w, Some(rules)) == [w.(metrics := RebucketAll(rules[i].h, w.metrics))]
  {
    if i: nat :| i < |rules| && rules[i].matches(w.name) {
      ChainOfOne(w, rules, i);
    } else {
      NoMatch(w.name, rules);
      ChainLength(w, rules);
    }
    forall i | 0 <= i < |rules| && rules[i].matches(w.name)
      ensures WriteFamily(w, Some(rules)) == [w.(metrics := RebucketAll(rules[i].h, w.metrics))]
    {
      ChainOfOne(w, rules, i);
    }
  }

  /***** Families that several translators match *****/

  /** The first copy is the translation by the first rule that matches. */
  lemma {:induction false} FirstCopy(w: Written, rules: seq<Rule>) returns (i: nat)
    requires AllCumulative(w.metrics) && ValidRules(rules) && Chain(w, rules) != []
    ensures i < |rules| && rules[i].matches(w.name)
    ensures forall k :: 0 <= k < i ==> !rules[k].matches(w.name)
    ensures Chain(w, rules)[0] == w.(metrics := RebucketAll(rules[i].h, w.metrics))
    decreases |rules|
  {
    if rules[0].matches(w.name) {
      i := 0;
    } else {
      var j := FirstCopy(w, rules[1..]);
      i := j + 1;
      forall k | 0 <= k < i ensures !rules[k].matches(w.name) {
        if k > 0 { assert rules[k] == rules[1..][k - 1]; }
      }
    }
  }

  /** All of bs lies strictly below the end of prev, which has one. */
  ghost predicate EndsBelow(bs: seq<Bucket>, prev: seq<Bucket>) {
    forall k :: 0 <= k < |bs| ==>
      bs[k].upper.Finite? && prev != [] && prev[|prev| - 1].upper.Finite? && bs[k].upper.v < prev[|prev| - 1].upper.v
  }

  lemma EndsBelowTransitive(a: seq<Bucket>, b: seq<Bucket>, c: seq<Bucket>)
    requires EndsBelow(a, b) && EndsBelow(b, c)
    ensures EndsBelow(a, c)
  {
    forall k | 0 <= k < |a|
      ensures a[k].upper.Finite? && c != [] && c[|c| - 1].upper.Finite? && a[k].upper.v < c[|c| - 1].upper.v
    {
      assert a[k].upper.v < b[|b| - 1].upper.v < c[|c| - 1].upper.v;
    }
  }

  /** Every copy after the first works on an open histogram and so ends below the copy before it. */
  lemma {:induction false} CopyEndsBelowPrevious(w: Written, rules: seq<Rule>, i: nat, j: nat)
    requires AllCumulative(w.metrics) && ValidRules(rules) && i < |Chain(w, rules)| && j < |w.metrics|
    ensures |Chain(w, rules)[i].metrics| == |w.metrics|
    ensures i > 0 ==> |Chain(w, rules)[i - 1].metrics| == |w.metrics|
    ensures i > 0 ==> EndsBelow(Chain(w, rules)[i].metrics[j], Chain(w, rules)[i - 1].metrics[j])
    decreases |rules|
  {
    hide AllCumulative, Rebucket, EndsBelow;
    var rest := rules[1..];
    if !rules[0].matches(w.name) {
      CopyEndsBelowPrevious(w, rest, i, j);
    } else {
      RebucketAllCumulative(rules[0].h, w.metrics);
      var t := w.(metrics := RebucketAll(rules[0].h, w.metrics));
      if i > 0 {
        CopyEndsBelowPrevious(t, rest, i - 1, j);
      }
      if i == 1 {
        var r := FirstCopy(t, rest);
        SecondEndsBelow(rules[0].h, rest[r].h, w.metrics, j);
      }
    }
  }

  lemma SecondEndsBelow(h: Histogram, h': Histogram, metrics: seq<seq<Bucket>>, j: nat)
    requires ValidHistogram(h) && ValidHistogram(h') && AllCumulative(metrics) && j < |metrics|
    ensures AllCumulative(RebucketAll(h, metrics))
    ensures EndsBelow(RebucketAll(h', RebucketAll(h, metrics))[j], RebucketAll(h, metrics)[j])
  {
    hide Rebucket;
    RebucketAllCumulative(h, metrics);
    var first := Rebucket(h, metrics[j]);
    LegalHistogram(h, metrics[j]);
    forall k | 0 <= k < |Rebucket(h', first)|
      ensures first != [] && first[|first| - 1].upper.Finite?
      ensures Rebucket(h', first)[k].upper.Finite? && Rebucket(h', first)[k].upper.v < first[|first| - 1].upper.v
    {
      OpenHistogramShrinks(h', first, k);
    }
  }

  lemma {:induction false} CopyEndsBelowFirst(w: Written, rules: seq<Rule>, i: nat, j: nat)
    requires AllCumulative(w.metrics) && ValidRules(rules) && 0 < i < |Chain(w, rules)| && j < |w.metrics|
    ensures |Chain(w, rules)[i].metrics| == |Chain(w, rules)[0].metrics| == |w.metrics|
    ensures EndsBelow(Chain(w, rules)[i].metrics[j], Chain(w, rules)[0].metrics[j])
  {
    hide Chain;
    CopyEndsBelowPrevious(w, rules, i, j);
    if i > 1 {
      CopyEndsBelowFirst(w, rules, i - 1, j);
      hide EndsBelow;
      var out := Chain(w, rules);
      EndsBelowTransitive(out[i].metrics[j], out[i - 1].metrics[j], out[0].metrics[j]);
    }
  }

  /** The closing bucket of a family's histogram j, as the first copy has it, is in copy i. */
  ghost predicate KeepsClosing(out: seq<Written>, i: nat, j: nat)
    requires i < |out|
  {
    && j < |out[0].metrics| && j < |out[i].metrics|
    && out[0].metrics[j] != [] && out[0].metrics[j][|out[0].metrics[j]| - 1] in out[i].metrics[j]
  }

  /** The first copy of a closed histogram is its translation by the first rule that matches, and has the total. */
  lemma FirstCopyWhole(w: Written, rules: seq<Rule>, j: nat) returns (i: nat)
    requires AllCumulative(w.metrics) && ValidRules(rules) && w.isHistogram && j < |w.metrics| && Closed(w.metrics[j])
    requires WriteFamily(w, Some(rules)) != []
    ensures i < |rules| && rules[i].matches(w.name) && forall k :: 0 <= k < i ==> !rules[k].matches(w.name)
    ensures var out := WriteFamily(w, Some(rules))[0].metrics;
            && |out| == |w.metrics| && out[j] == Rebucket(rules[i].h, w.metrics[j])
            && out[j] != [] && out[j][|out[j]| - 1].count == w.metrics[j][|w.metrics[j]| - 1].count
    ensures KeepsClosing(WriteFamily(w, Some(rules)), 0, j)
  {
    hide Rebucket;
    i := FirstCopy(w, rules);
    LegalHistogram(rules[i].h, w.metrics[j]);
  }

  /** Whatever rules match a family, with whatever definitions: every copy after the first ends strictly below the copy
      before it, so that exactly the first copy of a closed histogram has the closing bucket. */
  lemma LaterCopiesTruncated(w: Written, rules: seq<Rule>, i: nat, j: nat)
    requires AllCumulative(w.metrics) && ValidRules(rules) && w.isHistogram && j < |w.metrics| && Closed(w.metrics[j])
    requires i < |WriteFamily(w, Some(rules))|
    ensures |WriteFamily(w, Some(rules))[i].metrics| == |w.metrics|
    ensures i > 0 ==> |WriteFamily(w, Some(rules))[i - 1].metrics| == |w.metrics|
    ensures i > 0 ==>
              EndsBelow(WriteFamily(w, Some(rules))[i].metrics[j], WriteFamily(w, Some(rules))[i - 1].metrics[j])
    ensures KeepsClosing(WriteFamily(w, Some(rules)), i, j) <==> i == 0
  {
    hide Chain;
    CopyEndsBelowPrevious(w, rules, i, j);
    if i > 0 {
      CopyEndsBelowFirst(w, rules, i, j);
    } else {
      var r := FirstCopyWhole(w, rules, j);
    }
  }

  /** No copy is truncated exactly if at most one rule matches. */
  lemma UntruncatedIff(w: Written, rules: seq<Rule>, j: nat)
    requires AllCumulative(w.metrics) && ValidRules(rules) && w.isHistogram && j < |w.metrics| && Closed(w.metrics[j])
    ensures (forall i :: 0 <= i < |WriteFamily(w, Some(rules))| ==>
              KeepsClosing(WriteFamily(w, Some(rules)), i, j)) <==>
            Matching(w.name, rules) <= 1
  {
    hide Chain, KeepsClosing;
    var out := WriteFamily(w, Some(rules));
    ChainLength(w, rules);
    if |out| > 0 { LaterCopiesTruncated(w, rules, 0, j); }
    if |out| > 1 { LaterCopiesTruncated(w, rules, 1, j); }
  }
}
