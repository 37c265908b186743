/** Collections as configuration records: conversion both ways, with validation. */
module CollectionConfig {
  import opened Wrappers
  import CollectionStore
  import ResultSets
  import opened Sequences

  datatype MetricDef = MetricDef(name: string, kind: string, help: string)

  /** The record that is written as YAML; the frequency is in seconds. */
  datatype Record = Record(
    name: string, frequency: int, maxResults: int, enabled: bool, databases: string, query: string,
    labels: seq<string>, metrics: seq<MetricDef>, scope: string)

  datatype Error = InvalidKind | DuplicateLabel | InvalidScope | NoQuery | NoName

  const MICROSECONDS_PER_SECOND := 1_000_000

  /** Integer division as the program has it: towards zero. */
  function Truncated(a: int, b: int): int
    requires b > 0
  {
    if a >= 0 then a / b else -(-a / b)
  }

  /** An interval of n seconds. */
  function Seconds(n: int): CollectionStore.Interval {
    CollectionStore.Interval(0, 0, n * MICROSECONDS_PER_SECOND, true)
  }

  function LowerChar(c: char): char {
    if 'A' <= c <= 'Z' then c - 'A' + 'a' else c
  }

  function ToLower(s: string): string {
    seq(|s|, i requires 0 <= i < |s| => LowerChar(s[i]))
  }

  method Marshal(c: CollectionStore.Collection) returns (r: Record)
    ensures r == ToRecord(c)
  {
    var metrics: seq<MetricDef> := [];
    for i := 0 to |c.metrics|
      invariant |metrics| == i
      invariant forall j :: 0 <= j < i ==> metrics[j] == ToDef(c.metrics[j])
    {
      metrics := metrics + [ToDef(c.metrics[i])];
    }
    r := Record(c.name, Truncated(c.config.frequency.microseconds, MICROSECONDS_PER_SECOND), c.config.maxResult,
      c.config.enabled,
                c.config.databases, c.config.query, c.config.labels, metrics, c.config.scope);
  }

  function ToDef(m: CollectionStore.Metric): MetricDef {
    MetricDef(m.name, m.kind, m.help)
  }

  function ToMetric(m: MetricDef): CollectionStore.Metric {
    CollectionStore.Metric(m.name, ToLower(m.kind), m.help)
  }

  function ToRecord(c: CollectionStore.Collection): Record {
    Record(c.name, Truncated(c.config.frequency.microseconds, MICROSECONDS_PER_SECOND), c.config.maxResult,
      c.config.enabled,
           c.config.databases, c.config.query, c.config.labels,
           seq(|c.metrics|, i requires 0 <= i < |c.metrics| => ToDef(c.metrics[i])), c.config.scope)
  }

  /** The scope that a record means; an absent one means node. */
  function ScopeOf(r: Record): string {
    if r.scope == "" then CollectionStore.NODE else ToLower(r.scope)
  }

  /** The records that are accepted. */
  ghost predicate Acceptable(r: Record) {
    && (forall i :: 0 <= i < |r.metrics| ==> ToLower(r.metrics[i].kind) in CollectionStore.KINDS)
    && Distinct(r.labels)
    && ScopeOf(r) in CollectionStore.SCOPES
    && r.query != "" && r.name != ""
  }

  /** The first check that a record fails. */
  ghost function Verdict(r: Record): (v: Option<Error>)
    ensures v.None? <==> Acceptable(r)
  {
    if exists i :: 0 <= i < |r.metrics| && ToLower(r.metrics[i].kind) !in CollectionStore.KINDS then Some(InvalidKind)
    else if !Distinct(r.labels) then Some(DuplicateLabel)
    else if ScopeOf(r) !in CollectionStore.SCOPES then Some(InvalidScope)
    else if r.query == "" then Some(NoQuery)
    else if r.name == "" then Some(NoName)
    else None
  }

  function FromRecord(r: Record): CollectionStore.Collection {
    CollectionStore.Collection(
      r.name,
      CollectionStore.Config(
        r.enabled, ScopeOf(r), r.maxResults, Seconds(r.frequency), r.databases, r.query, r.labels),
      0,
      seq(|r.metrics|, i requires 0 <= i < |r.metrics| => ToMetric(r.metrics[i])))
  }

  method Unmarshal(r: Record) returns (res: Result<CollectionStore.Collection, Error>)
    ensures res == if Verdict(r).None? then Ok(FromRecord(r)) else Err(Verdict(r).value)
  {
    var metrics: seq<CollectionStore.Metric> := [];
    for i := 0 to |r.metrics|
      invariant |metrics| == i
      invariant forall j :: 0 <= j < i ==> metrics[j] == ToMetric(r.metrics[j])
      invariant forall j :: 0 <= j < i ==> ToLower(r.metrics[j].kind) in CollectionStore.KINDS
    {
      if ToLower(r.metrics[i].kind) !in CollectionStore.KINDS {
        return Err(InvalidKind);
      }
      metrics := metrics + [ToMetric(r.metrics[i])];
    }
    var seen: set<string> := {};
    for i := 0 to |r.labels|
      invariant forall l :: l in seen <==> exists j :: 0 <= j < i && r.labels[j] == l
      invariant forall j, k :: 0 <= j < k < i ==> r.labels[j] != r.labels[k]
    {
      if r.labels[i] in seen {
        return Err(DuplicateLabel);
      }
      seen := seen + {r.labels[i]};
    }
    var scope := ScopeOf(r);
    if scope !in CollectionStore.SCOPES {
      return Err(InvalidScope);
    }
    if r.query == "" {
      return Err(NoQuery);
    }
    if r.name == "" {
      return Err(NoName);
    }
    assert metrics == FromRecord(r).metrics;
    res := Ok(CollectionStore.Collection(
                r.name,
                CollectionStore.Config(r.enabled, scope, r.maxResults, Seconds(r.frequency), r.databases, r.query,
                  r.labels),
                0, metrics));
  }

  /** Collections that the conversion is meant for. */
  ghost predicate Valid(c: CollectionStore.Collection) {
    && c.name != "" && c.config.query != ""
    && c.config.scope in CollectionStore.SCOPES
    && (forall i :: 0 <= i < |c.metrics| ==> c.metrics[i].kind in CollectionStore.KINDS)
    && Distinct(c.config.labels)
    && c.config.frequency.valid && c.config.frequency.months == 0 && c.config.frequency.days == 0
    && c.config.frequency.microseconds % MICROSECONDS_PER_SECOND == 0
  }

  lemma KnownNamesAreLower()
    ensures forall s :: s in CollectionStore.KINDS + CollectionStore.SCOPES ==> ToLower(s) == s
  {
    assert ToLower("gauge") == "gauge";
    assert ToLower("counter") == "counter";
    assert ToLower("node") == "node";
    assert ToLower("cluster") == "cluster";
  }

  /** Reading a written collection back gives its configuration exactly when the collection is valid. */
  lemma RoundTripIff(c: CollectionStore.Collection)
    ensures Acceptable(ToRecord(c)) && FromRecord(ToRecord(c)) == c.(lastModified := 0) <==> Valid(c)
  {
    KnownNamesAreLower();
    var r := ToRecord(c);
    if Valid(c) {
      forall i | 0 <= i < |c.metrics|
        ensures ToLower(r.metrics[i].kind) in CollectionStore.KINDS && ToMetric(r.metrics[i]) == c.metrics[i]
      {}
      assert FromRecord(r).metrics == c.metrics;
    } else if Acceptable(r) && FromRecord(r) == c.(lastModified := 0) {
      assert c.config.frequency == Seconds(r.frequency);
      forall i | 0 <= i < |c.metrics| ensures c.metrics[i].kind in CollectionStore.KINDS {
        assert FromRecord(r).metrics[i] == ToMetric(r.metrics[i]);
      }
    }
  }

  /** For every accepted record, label columns and slots of the collector correspond one to one. */
  lemma AcceptedLabelsHaveSlots(r: Record, i: nat)
    requires Acceptable(r) && i < |r.labels|
    ensures ResultSets.LabelMap(FromRecord(r).config.labels)[r.labels[i]] == i
  {
    ResultSets.LabelMapInverseIff(r.labels);
  }

  /***** What a record means, in the words it is written with *****/

  /** s is the word in any mixture of upper and lower case. */
  ghost predicate Reads(s: string, word: string) {
    && |s| == |word|
    && forall i :: 0 <= i < |s| ==> s[i] == word[i] || ('a' <= word[i] <= 'z' && s[i] as int + 32 == word[i] as int)
  }

  ghost predicate LowerCase(word: string) {
    forall i :: 0 <= i < |word| ==> 'a' <= word[i] <= 'z'
  }

  lemma ToLowerIff(s: string, word: string)
    requires LowerCase(word)
    ensures ToLower(s) == word <==> Reads(s, word)
  {
    if Reads(s, word) {
      assert forall i :: 0 <= i < |s| ==> ToLower(s)[i] == word[i];
    }
    if ToLower(s) == word {
      assert forall i :: 0 <= i < |s| ==> LowerChar(s[i]) == ToLower(s)[i] == word[i];
    }
  }

  /** An accepted record is of a node collection if it says so or says nothing, and of a cluster-wide one exactly if it
      says so. */
  lemma ScopeMeaning(r: Record)
    requires Acceptable(r)
    ensures FromRecord(r).config.scope == "node" <==> r.scope == "" || Reads(r.scope, "node")
    ensures FromRecord(r).config.scope == "cluster" <==> Reads(r.scope, "cluster")
  {
    ToLowerIff(r.scope, "node");
    ToLowerIff(r.scope, "cluster");
  }

  /** Exactly which error a record gets: the first of these faults that it has. */
  lemma VerdictIff(r: Record)
    ensures var badKind := exists i ::
              0 <= i < |r.metrics| && !Reads(r.metrics[i].kind, "gauge") && !Reads(r.metrics[i].kind, "counter");
            var repeated := exists i, j :: 0 <= i < j < |r.labels| && r.labels[i] == r.labels[j];
            var badScope := r.scope != "" && !Reads(r.scope, "node") && !Reads(r.scope, "cluster");
            Verdict(r) ==
            if badKind then Some(InvalidKind)
            else if repeated then Some(DuplicateLabel)
            else if badScope then Some(InvalidScope)
            else if r.query == "" then Some(NoQuery)
            else if r.name == "" then Some(NoName)
            else None
  {
    forall i | 0 <= i < |r.metrics|
      ensures ToLower(r.metrics[i].kind) in CollectionStore.KINDS <==>
              Reads(r.metrics[i].kind, "gauge") || Reads(r.metrics[i].kind, "counter")
    {
      ToLowerIff(r.metrics[i].kind, "gauge");
      ToLowerIff(r.metrics[i].kind, "counter");
    }
    ToLowerIff(r.scope, "node");
    ToLowerIff(r.scope, "cluster");
  }

  /** What an accepted record means is written as the same record again, but for the case of its kinds and its scope. */
  lemma RecordRoundTrip(r: Record)
    requires Acceptable(r)
    ensures var again := ToRecord(FromRecord(r));
            && again == r.(scope := again.scope, metrics := again.metrics)
            && (if r.scope == "" then again.scope == "node" else Reads(r.scope, again.scope))
            && |again.metrics| == |r.metrics|
            && forall i :: 0 <= i < |r.metrics| ==>
                 && again.metrics[i] == r.metrics[i].(kind := again.metrics[i].kind)
                 && Reads(r.metrics[i].kind, again.metrics[i].kind)
                 && again.metrics[i].kind in {"gauge", "counter"}
  {
    ScopeMeaning(r);
    var again := ToRecord(FromRecord(r));
    forall i | 0 <= i < |r.metrics|
      ensures again.metrics[i] == MetricDef(r.metrics[i].name, ToLower(r.metrics[i].kind), r.metrics[i].help)
      ensures Reads(r.metrics[i].kind, again.metrics[i].kind) && again.metrics[i].kind in {"gauge", "counter"}
    {
      assert FromRecord(r).metrics[i] == ToMetric(r.metrics[i]);
      ToLowerIff(r.metrics[i].kind, "gauge");
      ToLowerIff(r.metrics[i].kind, "counter");
    }
    WholeSeconds(r.frequency);
  }

  lemma WholeSeconds(n: int)
    ensures Truncated(n * MICROSECONDS_PER_SECOND, MICROSECONDS_PER_SECOND) == n
  {}

  /** A part of a second is cut off, towards zero. */
  lemma MarshalTruncates(c: CollectionStore.Collection)
    ensures var us, s := c.config.frequency.microseconds, ToRecord(c).frequency;
            if us >= 0 then s * 1_000_000 <= us < (s + 1) * 1_000_000 else (s - 1) * 1_000_000 < us <= s * 1_000_000
  {}
}
