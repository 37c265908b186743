/**
The collector server's jobs and how a refresh reconciles them with the stored collections.
A refresh sees the store one collection at a time; each visit may find a failure.
 */
module JobTable {
  import opened CollectionStore

  /** A scheduled collector; `id` stands for the collector and its job, which are made together. */
  datatype Job = Job(id: nat, lastModified: int, metrics: set<string>)

  /** The job map, the jobs that the scheduler runs, the next unused id, and the metrics in the registry, by
      collection and name. */
  datatype Table = Table(jobs: map<string, Job>, running: set<nat>, nextId: nat, registered: set<(string, string)>)

  /** How building and scheduling a collector ends.  A build that fails has registered its first `done` metrics, and
      `lost` the next one if it was unregistered and could not be registered again. */
  datatype Build = Scheduled | BuildFails(done: nat, lost: bool) | SchedulingFails

  /** One listed name: what loading it gives, and whether building and scheduling its collector works. */
  datatype Visit = Visit(name: string, load: Load, build: Build)

  /** Cluster-wide collections run only on the node that holds the lease. */
  predicate Allowed(c: Collection, holder: bool) {
    c.config.enabled && (c.config.scope == CLUSTER ==> holder)
  }

  predicate Keeps(v: Visit, holder: bool) {
    v.load.Loaded? && Allowed(v.load.coll, holder)
  }

  function MetricNames(c: Collection): set<string> {
    set i | 0 <= i < |c.metrics| :: c.metrics[i].name
  }

  /** The registry after a collector was built, or its build failed. */
  function Registered(registered: set<(string, string)>, c: Collection, build: Build): set<(string, string)> {
    match build
    case BuildFails(done, lost) =>
      var n := if done < |c.metrics| then done else |c.metrics|;
      var added := registered + (set i | 0 <= i < n :: (c.name, c.metrics[i].name));
      if lost && done < |c.metrics| then added - {(c.name, c.metrics[done].name)} else added
    case _ => registered + (set i | 0 <= i < |c.metrics| :: (c.name, c.metrics[i].name))
  }

  function Step(t: Table, v: Visit, holder: bool): Table {
    if !Keeps(v, holder) then t
    else
      var c := v.load.coll;
      if c.name in t.jobs && t.jobs[c.name].lastModified >= c.lastModified then t
      else
        var running := if c.name in t.jobs then t.running - {t.jobs[c.name].id} else t.running;
        var registered := Registered(t.registered, c, v.build);
        if v.build != Scheduled then t.(running := running, registered := registered)
        else
          Table(t.jobs[c.name := Job(t.nextId, c.lastModified, MetricNames(c))], running + {t.nextId}, t.nextId + 1,
            registered)
  }

  function StepAll(t: Table, vs: seq<Visit>, holder: bool): Table {
    if vs == [] then t else Step(StepAll(t, vs[..|vs| - 1], holder), vs[|vs| - 1], holder)
  }

  /** The names that the refresh keeps. */
  function Kept(vs: seq<Visit>, holder: bool): set<string> {
    set i | 0 <= i < |vs| && Keeps(vs[i], holder) :: vs[i].name
  }

  /** Jobs that are not kept are removed, and the metrics of their collectors unregistered. */
  function Cleanup(t: Table, keep: set<string>): Table {
    Table(map n | n in t.jobs && n in keep :: t.jobs[n],
          t.running - (set n | n in t.jobs && n !in keep :: t.jobs[n].id), t.nextId,
          t.registered - (set n, m | n in t.jobs && n !in keep && m in t.jobs[n].metrics :: (n, m)))
  }

  function Refresh(t: Table, vs: seq<Visit>, holder: bool): Table {
    Cleanup(StepAll(t, vs, holder), Kept(vs, holder))
  }

  /** The store returns each collection under its own name. */
  ghost predicate Named(vs: seq<Visit>) {
    forall i :: 0 <= i < |vs| && vs[i].load.Loaded? ==> vs[i].load.coll.name == vs[i].name
  }

  ghost predicate NoBuildFails(vs: seq<Visit>) {
    forall i :: 0 <= i < |vs| ==> vs[i].build == Scheduled
  }

  lemma KeptSnoc(a: seq<Visit>, v: Visit, holder: bool)
    ensures Kept(a + [v], holder) == Kept(a, holder) + if Keeps(v, holder) then {v.name} else {}
  {
    var b := a + [v];
    forall n | n in Kept(b, holder) ensures n in Kept(a, holder) || (Keeps(v, holder) && n == v.name) {
      var j :| 0 <= j < |b| && Keeps(b[j], holder) && b[j].name == n;
      if j < |a| { assert a[j] == b[j]; }
    }
    forall n | n in Kept(a, holder) ensures n in Kept(b, holder) {
      var j :| 0 <= j < |a| && Keeps(a[j], holder) && a[j].name == n;
      assert b[j] == a[j];
    }
    assert b[|a|] == v;
  }

  /***** No job without an owner *****/

  /** Every running job belongs to exactly one entry, and ids are never reused. */
  ghost predicate NoOrphans(t: Table) {
    && (forall n :: n in t.jobs ==> t.jobs[n].id < t.nextId)
    && (forall n, m :: n in t.jobs && m in t.jobs && n != m ==> t.jobs[n].id != t.jobs[m].id)
    && (forall id :: id in t.running ==> exists n :: n in t.jobs && t.jobs[n].id == id)
  }

  lemma StepNoOrphans(t: Table, v: Visit, holder: bool)
    requires NoOrphans(t)
    ensures NoOrphans(Step(t, v, holder))
  {
    var r := Step(t, v, holder);
    forall id | id in r.running ensures exists n :: n in r.jobs && r.jobs[n].id == id {
      if id == t.nextId && r.nextId != t.nextId {
        assert v.load.coll.name in r.jobs && r.jobs[v.load.coll.name].id == id;
      } else {
        var n :| n in t.jobs && t.jobs[n].id == id;
        assert n in r.jobs && r.jobs[n].id == id;
      }
    }
  }

  lemma CleanupNoOrphans(t: Table, keep: set<string>)
    requires NoOrphans(t)
    ensures NoOrphans(Cleanup(t, keep))
  {
    var r := Cleanup(t, keep);
    forall id | id in r.running ensures exists n :: n in r.jobs && r.jobs[n].id == id {
      var n :| n in t.jobs && t.jobs[n].id == id;
      assert n in r.jobs && r.jobs[n].id == id;
    }
  }

  lemma {:induction false} StepAllNoOrphans(t: Table, vs: seq<Visit>, holder: bool)
    requires NoOrphans(t)
    ensures NoOrphans(StepAll(t, vs, holder))
  {
    if vs != [] {
      hide NoOrphans, Step;
      StepAllNoOrphans(t, vs[..|vs| - 1], holder);
      StepNoOrphans(StepAll(t, vs[..|vs| - 1], holder), vs[|vs| - 1], holder);
    }
  }

  /** Whatever fails during a refresh, no running job is left without its entry. */
  lemma RefreshLeavesNoOrphans(t: Table, vs: seq<Visit>, holder: bool)
    requires NoOrphans(t)
    ensures NoOrphans(Refresh(t, vs, holder))
  {
    hide NoOrphans, Step, Cleanup;
    StepAllNoOrphans(t, vs, holder);
    CleanupNoOrphans(StepAll(t, vs, holder), Kept(vs, holder));
  }

  /***** Reconciliation *****/

  /** Every entry's job is running. */
  ghost predicate AllRunning(t: Table) {
    forall n :: n in t.jobs ==> t.jobs[n].id in t.running
  }

  /** Whatever its collection needs, a visit never makes any entry older, and a kept one is as new as loaded. */
  lemma StepEffect(t: Table, v: Visit, holder: bool)
    requires v.build == Scheduled
    ensures forall n :: n in t.jobs ==>
              n in Step(t, v, holder).jobs && t.jobs[n].lastModified <= Step(t, v, holder).jobs[n].lastModified
    ensures Keeps(v, holder) ==>
              v.load.coll.name in Step(t, v, holder).jobs &&
              v.load.coll.lastModified <= Step(t, v, holder).jobs[v.load.coll.name].lastModified
    ensures NoOrphans(t) && AllRunning(t) ==> AllRunning(Step(t, v, holder))
  {}

  lemma {:induction false} StepAllEffect(t: Table, vs: seq<Visit>, holder: bool, i: nat)
    requires NoBuildFails(vs) && i < |vs| && Keeps(vs[i], holder)
    ensures var r := StepAll(t, vs, holder);
            vs[i].load.coll.name in r.jobs && vs[i].load.coll.lastModified <= r.jobs[vs[i].load.coll.name].lastModified
  {
    hide Step, Keeps;
    var p, v := vs[..|vs| - 1], vs[|vs| - 1];
    StepEffect(StepAll(t, p, holder), v, holder);
    if i < |vs| - 1 { StepAllEffect(t, p, holder, i); }
  }

  lemma {:induction false} StepAllRunning(t: Table, vs: seq<Visit>, holder: bool)
    requires NoBuildFails(vs) && NoOrphans(t) && AllRunning(t)
    ensures AllRunning(StepAll(t, vs, holder))
  {
    if vs != [] {
      hide Step, NoOrphans, AllRunning;
      var p, v := vs[..|vs| - 1], vs[|vs| - 1];
      StepAllRunning(t, p, holder);
      StepAllNoOrphans(t, p, holder);
      StepEffect(StepAll(t, p, holder), v, holder);
    }
  }

  /** Without build failures, the scheduled names are exactly the loaded, enabled and allowed ones; none is older than
      what was loaded; and if all jobs ran before, the scheduler runs exactly the jobs of the table. */
  lemma RefreshReconciles(t: Table, vs: seq<Visit>, holder: bool)
    requires Named(vs) && NoBuildFails(vs) && NoOrphans(t)
    ensures Refresh(t, vs, holder).jobs.Keys == Kept(vs, holder)
    ensures forall i :: 0 <= i < |vs| && Keeps(vs[i], holder) ==>
              vs[i].name in Refresh(t, vs, holder).jobs &&
              vs[i].load.coll.lastModified <= Refresh(t, vs, holder).jobs[vs[i].name].lastModified
    ensures AllRunning(t) ==>
              Refresh(t, vs, holder).running == set n | n in Refresh(t, vs, holder).jobs ::
                Refresh(t, vs, holder).jobs[n].id
  {
    hide StepAll, NoOrphans;
    var s, keep := StepAll(t, vs, holder), Kept(vs, holder);
    forall i | 0 <= i < |vs| && Keeps(vs[i], holder)
      ensures vs[i].name in s.jobs && vs[i].load.coll.lastModified <= s.jobs[vs[i].name].lastModified
      ensures vs[i].name in keep
    {
      StepAllEffect(t, vs, holder, i);
    }
    assert Cleanup(s, keep).jobs.Keys == keep;
    if AllRunning(t) {
      StepAllRunning(t, vs, holder);
      StepAllNoOrphans(t, vs, holder);
      CleanupRunning(s, keep);
    }
  }

  lemma CleanupRunning(t: Table, keep: set<string>)
    requires NoOrphans(t) && AllRunning(t)
    ensures Cleanup(t, keep).running == set n | n in Cleanup(t, keep).jobs :: Cleanup(t, keep).jobs[n].id
  {
    CleanupNoOrphans(t, keep);
  }

  /***** Stability *****/

  /** No visit that keeps n finds it newer than the entry. */
  ghost predicate Unchanged(j: Job, vs: seq<Visit>, holder: bool, n: string) {
    forall i :: 0 <= i < |vs| && Keeps(vs[i], holder) && vs[i].load.coll.name == n ==>
      vs[i].load.coll.lastModified <= j.lastModified
  }

  lemma {:induction false} UnchangedSurvivesVisits(t: Table, vs: seq<Visit>, holder: bool, n: string)
    requires n in t.jobs && Unchanged(t.jobs[n], vs, holder, n)
    ensures n in StepAll(t, vs, holder).jobs && StepAll(t, vs, holder).jobs[n] == t.jobs[n]
    ensures NoOrphans(t) && t.jobs[n].id in t.running ==> t.jobs[n].id in StepAll(t, vs, holder).running
  {
    if vs != [] {
      var p, v := vs[..|vs| - 1], vs[|vs| - 1];
      UnchangedSurvivesVisits(t, p, holder, n);
      if NoOrphans(t) { StepAllNoOrphans(t, p, holder); }
      hide NoOrphans;
      StepElsewhere(StepAll(t, p, holder), v, holder, n);
    }
  }

  lemma StepElsewhere(t: Table, v: Visit, holder: bool, n: string)
    requires n in t.jobs
    requires Keeps(v, holder) && v.load.coll.name == n ==> v.load.coll.lastModified <= t.jobs[n].lastModified
    ensures n in Step(t, v, holder).jobs && Step(t, v, holder).jobs[n] == t.jobs[n]
    ensures NoOrphans(t) && t.jobs[n].id in t.running ==> t.jobs[n].id in Step(t, v, holder).running
  {}

  lemma CleanupKeeps(t: Table, keep: set<string>, n: string)
    requires n in t.jobs && n in keep
    ensures n in Cleanup(t, keep).jobs && Cleanup(t, keep).jobs[n] == t.jobs[n]
    ensures NoOrphans(t) ==> (t.jobs[n].id in Cleanup(t, keep).running <==> t.jobs[n].id in t.running)
  {}

  /** A collection that a refresh keeps and that has not changed keeps its job and collector, whatever else fails. */
  lemma UnchangedKeepsJob(t: Table, vs: seq<Visit>, holder: bool, n: string)
    requires n in t.jobs && n in Kept(vs, holder) && Unchanged(t.jobs[n], vs, holder, n)
    ensures n in Refresh(t, vs, holder).jobs && Refresh(t, vs, holder).jobs[n] == t.jobs[n]
    ensures NoOrphans(t) && t.jobs[n].id in t.running ==> t.jobs[n].id in Refresh(t, vs, holder).running
  {
    hide StepAll, Kept, NoOrphans, Cleanup, Unchanged;
    UnchangedSurvivesVisits(t, vs, holder, n);
    CleanupKeeps(StepAll(t, vs, holder), Kept(vs, holder), n);
    if NoOrphans(t) { StepAllNoOrphans(t, vs, holder); }
  }

  /** One refresh of many: what it finds, and the lease flag at the time. */
  datatype Round = Round(visits: seq<Visit>, holder: bool)

  function RefreshAll(t: Table, rounds: seq<Round>): Table {
    if rounds == [] then t
    else Refresh(RefreshAll(t, rounds[..|rounds| - 1]), rounds[|rounds| - 1].visits, rounds[|rounds| - 1].holder)
  }

  /** So over any number of refreshes, with any failures, a collector lives as long as its collection is kept and
      unchanged, and with it the counter cache it holds. */
  lemma {:induction false} UnchangedKeepsJobAlways(t: Table, rounds: seq<Round>, n: string)
    requires n in t.jobs && NoOrphans(t)
    requires forall i :: 0 <= i < |rounds| ==>
               n in Kept(rounds[i].visits, rounds[i].holder) &&
                 Unchanged(t.jobs[n], rounds[i].visits, rounds[i].holder, n)
    ensures NoOrphans(RefreshAll(t, rounds))
    ensures n in RefreshAll(t, rounds).jobs && RefreshAll(t, rounds).jobs[n] == t.jobs[n]
    ensures t.jobs[n].id in t.running ==> t.jobs[n].id in RefreshAll(t, rounds).running
  {
    hide NoOrphans, Refresh, Unchanged, Kept;
    if rounds != [] {
      var p, r := rounds[..|rounds| - 1], rounds[|rounds| - 1];
      UnchangedKeepsJobAlways(t, p, n);
      UnchangedKeepsJob(RefreshAll(t, p), r.visits, r.holder, n);
      RefreshLeavesNoOrphans(RefreshAll(t, p), r.visits, r.holder);
    }
  }

  /** Visits that find nothing newer than the table change nothing. */
  lemma {:induction false} UpToDate(t: Table, vs: seq<Visit>, holder: bool)
    requires forall i :: 0 <= i < |vs| && Keeps(vs[i], holder) ==>
               vs[i].load.coll.name in t.jobs &&
                 vs[i].load.coll.lastModified <= t.jobs[vs[i].load.coll.name].lastModified
    ensures StepAll(t, vs, holder) == t
  {
    if vs != [] {
      UpToDate(t, vs[..|vs| - 1], holder);
    }
  }

  /** A second refresh with the same store and lease changes no job and no collector. */
  lemma RefreshStable(t: Table, vs: seq<Visit>, holder: bool)
    requires Named(vs) && NoBuildFails(vs) && NoOrphans(t)
    ensures Refresh(Refresh(t, vs, holder), vs, holder) == Refresh(t, vs, holder)
  {
    var r := Refresh(t, vs, holder);
    RefreshReconciles(t, vs, holder);
    UpToDate(r, vs, holder);
    hide StepAll, NoOrphans, Kept;
    assert Cleanup(r, Kept(vs, holder)).jobs == r.jobs;
  }

  /***** Entries without a running job *****/

  /** The entry of n has no running job. */
  ghost predicate Dead(t: Table, n: string) {
    n in t.jobs && t.jobs[n].id !in t.running
  }

  /** A visit that keeps n and cannot build or schedule its collector. */
  ghost predicate OwnFailure(vs: seq<Visit>, holder: bool, n: string) {
    exists i :: 0 <= i < |vs| && Keeps(vs[i], holder) && vs[i].load.coll.name == n && vs[i].build != Scheduled
  }

  lemma StepDies(t: Table, v: Visit, holder: bool, n: string)
    requires NoOrphans(t) && !Dead(t, n) && Dead(Step(t, v, holder), n)
    ensures Keeps(v, holder) && v.load.coll.name == n && v.build != Scheduled
  {}

  lemma {:induction false} VisitsDie(t: Table, vs: seq<Visit>, holder: bool, n: string)
    requires NoOrphans(t) && !Dead(t, n) && Dead(StepAll(t, vs, holder), n)
    ensures OwnFailure(vs, holder, n)
  {
    var p, v := vs[..|vs| - 1], vs[|vs| - 1];
    StepAllNoOrphans(t, p, holder);
    hide NoOrphans, Step, Keeps;
    if Dead(StepAll(t, p, holder), n) {
      VisitsDie(t, p, holder, n);
      var i :| 0 <= i < |p| && Keeps(p[i], holder) && p[i].load.coll.name == n && p[i].build != Scheduled;
      assert vs[i] == p[i];
    } else {
      StepDies(StepAll(t, p, holder), v, holder, n);
      assert vs[|vs| - 1] == v;
    }
  }

  /** An entry loses its job in a refresh only if its own collection could not be built or scheduled. */
  lemma DeadNeedsOwnFailure(t: Table, vs: seq<Visit>, holder: bool, n: string)
    requires NoOrphans(t) && !Dead(t, n) && Dead(Refresh(t, vs, holder), n)
    ensures OwnFailure(vs, holder, n)
  {
    var r := StepAll(t, vs, holder);
    StepAllNoOrphans(t, vs, holder);
    assert n in r.jobs && n in Kept(vs, holder);
    hide StepAll, OwnFailure, NoOrphans, Kept;
    CleanupKeeps(r, Kept(vs, holder), n);
    VisitsDie(t, vs, holder, n);
  }

  /** A visit that keeps n and loads a newer version than the entry has. */
  ghost predicate LoadsNewer(j: Job, vs: seq<Visit>, holder: bool, n: string) {
    exists i :: 0 <= i < |vs| && Keeps(vs[i], holder) && vs[i].load.coll.name == n &&
      j.lastModified < vs[i].load.coll.lastModified
  }

  lemma LoadsNewerSnoc(j: Job, vs: seq<Visit>, holder: bool, n: string)
    requires vs != []
    ensures LoadsNewer(j, vs, holder, n) <==>
            var v := vs[|vs| - 1];
            LoadsNewer(j, vs[..|vs| - 1], holder, n) ||
            (Keeps(v, holder) && v.load.coll.name == n && j.lastModified < v.load.coll.lastModified)
  {
    var p := vs[..|vs| - 1];
    if LoadsNewer(j, p, holder, n) {
      var i :| 0 <= i < |p| && Keeps(p[i], holder) && p[i].load.coll.name == n &&
        j.lastModified < p[i].load.coll.lastModified;
      assert vs[i] == p[i];
    }
  }

  lemma StepRuns(t: Table, v: Visit, holder: bool, n: string)
    requires NoOrphans(t) && n in t.jobs
    requires Keeps(v, holder) && v.load.coll.name == n ==> v.build == Scheduled
    ensures var r := Step(t, v, holder);
            var newer := Keeps(v, holder) && v.load.coll.name == n && t.jobs[n].lastModified < v.load.coll.lastModified;
            && n in r.jobs && (!Dead(r, n) <==> !Dead(t, n) || newer)
            && r.jobs[n].lastModified == if newer then v.load.coll.lastModified else t.jobs[n].lastModified
  {}

  lemma {:induction false} VisitsRun(t: Table, vs: seq<Visit>, holder: bool, n: string)
    requires NoOrphans(t) && n in t.jobs && !OwnFailure(vs, holder, n)
    ensures n in StepAll(t, vs, holder).jobs
    ensures !Dead(StepAll(t, vs, holder), n) <==> !Dead(t, n) || LoadsNewer(t.jobs[n], vs, holder, n)
    ensures t.jobs[n].lastModified <= StepAll(t, vs, holder).jobs[n].lastModified
    ensures t.jobs[n].lastModified < StepAll(t, vs, holder).jobs[n].lastModified ==>
              LoadsNewer(t.jobs[n], vs, holder, n)
  {
    if vs != [] {
      var p, v := vs[..|vs| - 1], vs[|vs| - 1];
      assert forall i :: 0 <= i < |p| ==> p[i] == vs[i];
      assert !OwnFailure(p, holder, n);
      VisitsRun(t, p, holder, n);
      StepAllNoOrphans(t, p, holder);
      assert Keeps(v, holder) && v.load.coll.name == n ==> v.build == Scheduled;
      hide NoOrphans, Step, LoadsNewer, OwnFailure;
      StepRuns(StepAll(t, p, holder), v, holder, n);
      LoadsNewerSnoc(t.jobs[n], vs, holder, n);
    }
  }

  /** Exactly when the entry of a kept collection has a running job after a refresh that can build and schedule it: the
      job ran before, or a newer version was loaded.  So a refresh that loads a newer version revives a dead entry. */
  lemma RunsIff(t: Table, vs: seq<Visit>, holder: bool, n: string)
    requires NoOrphans(t) && n in t.jobs && n in Kept(vs, holder) && !OwnFailure(vs, holder, n)
    ensures n in Refresh(t, vs, holder).jobs
    ensures !Dead(Refresh(t, vs, holder), n) <==> !Dead(t, n) || LoadsNewer(t.jobs[n], vs, holder, n)
  {
    hide StepAll, OwnFailure, NoOrphans, Kept, LoadsNewer, Cleanup;
    VisitsRun(t, vs, holder, n);
    StepAllNoOrphans(t, vs, holder);
    CleanupKeeps(StepAll(t, vs, holder), Kept(vs, holder), n);
  }

  /***** What a refresh does to one collection *****/

  lemma {:induction false} StepAllConcat(t: Table, a: seq<Visit>, b: seq<Visit>, holder: bool)
    ensures StepAll(t, a + b, holder) == StepAll(StepAll(t, a, holder), b, holder)
  {
    if b == [] {
      assert a + b == a;
    } else {
      assert (a + b)[..|a + b| - 1] == a + b[..|b| - 1];
      StepAllConcat(t, a, b[..|b| - 1], holder);
    }
  }

  lemma {:induction false} IdsGrow(t: Table, vs: seq<Visit>, holder: bool)
    ensures t.nextId <= StepAll(t, vs, holder).nextId
  {
    if vs != [] { IdsGrow(t, vs[..|vs| - 1], holder); }
  }

  /** The entry of n, and whether its job runs, are the same in both. */
  ghost predicate SameEntry(t: Table, r: Table, n: string) {
    && (n in t.jobs <==> n in r.jobs)
    && (n in t.jobs ==> t.jobs[n] == r.jobs[n] && (t.jobs[n].id in t.running <==> t.jobs[n].id in r.running))
  }

  lemma StepOther(t: Table, v: Visit, holder: bool, n: string)
    requires NoOrphans(t) && (v.load.Loaded? ==> v.load.coll.name != n)
    ensures SameEntry(t, Step(t, v, holder), n)
  {}

  lemma {:induction false} VisitsOfOthers(t: Table, vs: seq<Visit>, holder: bool, n: string)
    requires NoOrphans(t) && Named(vs) && forall i :: 0 <= i < |vs| ==> vs[i].name != n
    ensures SameEntry(t, StepAll(t, vs, holder), n)
  {
    if vs != [] {
      var p, v := vs[..|vs| - 1], vs[|vs| - 1];
      assert forall i :: 0 <= i < |p| ==> p[i] == vs[i];
      VisitsOfOthers(t, p, holder, n);
      assert vs[|vs| - 1].name != n;
      StepAllNoOrphans(t, p, holder);
      hide NoOrphans, Step;
      StepOther(StepAll(t, p, holder), v, holder, n);
    }
  }

  /** The visits before and after the one of a collection do not touch its entry. */
  lemma AroundVisit(t: Table, vs: seq<Visit>, holder: bool, i: nat) returns (before: Table)
    requires NoOrphans(t) && Named(vs) && Once(vs) && i < |vs|
    ensures NoOrphans(before) && t.nextId <= before.nextId && SameEntry(t, before, vs[i].name)
    ensures SameEntry(Step(before, vs[i], holder), StepAll(t, vs, holder), vs[i].name)
    ensures NoOrphans(StepAll(t, vs, holder))
  {
    var a, b := vs[..i], vs[i + 1..];
    before := StepAll(t, a, holder);
    var after := Step(before, vs[i], holder);
    assert vs == (a + [vs[i]]) + b;
    StepAllConcat(t, a + [vs[i]], b, holder);
    assert (a + [vs[i]])[..i] == a;
    StepAllNoOrphans(t, a, holder);
    StepAllNoOrphans(t, vs, holder);
    StepNoOrphans(before, vs[i], holder);
    IdsGrow(t, a, holder);
    hide NoOrphans, Step, SameEntry;
    VisitsOfOthers(t, a, holder, vs[i].name);
    VisitsOfOthers(after, b, holder, vs[i].name);
  }

  /** The entry has the time and the metrics of the collection, and its job runs. */
  ghost predicate BuiltFrom(r: Table, n: string, c: Collection) {
    && n in r.jobs && r.jobs[n].lastModified == c.lastModified && r.jobs[n].id in r.running
    && (forall m :: m in r.jobs[n].metrics <==> exists j :: 0 <= j < |c.metrics| && c.metrics[j].name == m)
  }

  lemma StepBuilds(t: Table, v: Visit, holder: bool)
    requires v.load.Loaded? && v.load.coll.config.enabled && (v.load.coll.config.scope == "cluster" ==> holder)
    requires NoOrphans(t)
    ensures var c, r := v.load.coll, Step(t, v, holder);
            if c.name in t.jobs && c.lastModified <= t.jobs[c.name].lastModified then SameEntry(t, r, c.name)
            else if v.build == Scheduled then BuiltFrom(r, c.name, c) && r.jobs[c.name].id == t.nextId
            else (c.name in r.jobs <==> c.name in t.jobs) &&
                 (c.name in t.jobs ==> r.jobs[c.name] == t.jobs[c.name] && t.jobs[c.name].id !in r.running)
  {}

  /** r has for n what a refresh makes of its entry in t when it finds c.  If the entry is as new as c, it stays,
      running or not.  Otherwise a new collector with a new id replaces it, with the time and the metrics of c; or, if
      that fails, an entry stays as it was, without its job. */
  ghost predicate EntryFrom(t: Table, r: Table, n: string, c: Collection, build: Build) {
    if n in t.jobs && c.lastModified <= t.jobs[n].lastModified then SameEntry(t, r, n)
    else if build == Scheduled then BuiltFrom(r, n, c) && r.jobs[n].id >= t.nextId
    else (n in r.jobs <==> n in t.jobs) && (n in t.jobs ==> r.jobs[n] == t.jobs[n] && t.jobs[n].id !in r.running)
  }

  lemma VisitsEntry(t: Table, vs: seq<Visit>, holder: bool, i: nat)
    requires NoOrphans(t) && Named(vs) && Once(vs) && i < |vs|
    requires vs[i].load.Loaded? && vs[i].load.coll.config.enabled
    requires vs[i].load.coll.config.scope == "cluster" ==> holder
    ensures EntryFrom(t, StepAll(t, vs, holder), vs[i].name, vs[i].load.coll, vs[i].build)
  {
    var before := AroundVisit(t, vs, holder, i);
    StepBuilds(before, vs[i], holder);
    hide StepAll, Step, NoOrphans;
  }

  /** Everything that a refresh, with any failures, does to the entry of a collection that may run here. */
  lemma RefreshEntry(t: Table, vs: seq<Visit>, holder: bool, i: nat)
    requires NoOrphans(t) && Named(vs) && Once(vs) && i < |vs|
    requires vs[i].load.Loaded? && vs[i].load.coll.config.enabled
    requires vs[i].load.coll.config.scope == "cluster" ==> holder
    ensures EntryFrom(t, Refresh(t, vs, holder), vs[i].name, vs[i].load.coll, vs[i].build)
  {
    var n := vs[i].name;
    VisitsEntry(t, vs, holder, i);
    StepAllNoOrphans(t, vs, holder);
    assert n in Kept(vs, holder);
    hide StepAll, Kept, Step, NoOrphans, Cleanup;
    var r := StepAll(t, vs, holder);
    if n in r.jobs {
      CleanupKeeps(r, Kept(vs, holder), n);
    } else {
      CleanupOnlyRemoves(r, Kept(vs, holder), n);
    }
  }

  lemma CleanupOnlyRemoves(t: Table, keep: set<string>, n: string)
    requires n !in t.jobs || n !in keep
    ensures n !in Cleanup(t, keep).jobs
  {}

  /** A collection that is not listed, not loaded, disabled, or cluster-wide on a node without the lease has no entry
      after a refresh. */
  lemma RefreshDrops(t: Table, vs: seq<Visit>, holder: bool, n: string)
    requires forall i :: 0 <= i < |vs| && vs[i].name == n ==>
               !vs[i].load.Loaded? || !vs[i].load.coll.config.enabled ||
                 (vs[i].load.coll.config.scope == "cluster" && !holder)
    ensures n !in Refresh(t, vs, holder).jobs
  {}

  /** A later version is picked up: if a second refresh loads and can build a collection with a later time than the
      first one loaded, and the table was not ahead of that, then the second one leaves a new collector, whose id no
      entry had before, with the time and the metrics of the later version. */
  lemma UpdatePickedUp(t: Table, vs: seq<Visit>, holder: bool, i: nat, vs': seq<Visit>, holder': bool, i': nat)
    requires NoOrphans(t) && Named(vs) && Once(vs) && i < |vs| && Named(vs') && Once(vs') && i' < |vs'|
    requires vs[i].load.Loaded? && vs[i].load.coll.config.enabled
    requires vs[i].load.coll.config.scope == "cluster" ==> holder
    requires vs'[i'].load.Loaded? && vs'[i'].load.coll.config.enabled && vs'[i'].build == Scheduled
    requires vs'[i'].load.coll.config.scope == "cluster" ==> holder'
    requires vs[i].name == vs'[i'].name && vs[i].load.coll.lastModified < vs'[i'].load.coll.lastModified
    requires vs[i].name in t.jobs ==> t.jobs[vs[i].name].lastModified <= vs[i].load.coll.lastModified
    ensures var n, first := vs[i].name, Refresh(t, vs, holder);
            var second := Refresh(first, vs', holder');
            && BuiltFrom(second, n, vs'[i'].load.coll)
            && (forall k :: k in first.jobs ==> first.jobs[k].id != second.jobs[n].id)
  {
    hide Refresh, BuiltFrom, Step;
    var first := Refresh(t, vs, holder);
    RefreshLeavesNoOrphans(t, vs, holder);
    RefreshEntry(t, vs, holder, i);
    if vs[i].name in first.jobs { FirstIsNotAhead(t, vs, holder, i); }
    RefreshEntry(first, vs', holder', i');
  }

  lemma FirstIsNotAhead(t: Table, vs: seq<Visit>, holder: bool, i: nat)
    requires NoOrphans(t) && Named(vs) && Once(vs) && i < |vs|
    requires vs[i].load.Loaded? && vs[i].load.coll.config.enabled
    requires vs[i].load.coll.config.scope == "cluster" ==> holder
    requires vs[i].name in t.jobs ==> t.jobs[vs[i].name].lastModified <= vs[i].load.coll.lastModified
    requires vs[i].name in Refresh(t, vs, holder).jobs
    ensures Refresh(t, vs, holder).jobs[vs[i].name].lastModified <= vs[i].load.coll.lastModified
  {
    hide Refresh, Step;
    RefreshEntry(t, vs, holder, i);
  }

  /** What is in the registry after a build that fails: the metrics before the one that fails, and of the others what
      was there, but without that one if it was unregistered and could not be registered again. */
  lemma FailedBuildRegistry(registered: set<(string, string)>, c: Collection, done: nat, lost: bool, i: nat)
    requires DistinctNames(c.metrics) && done < |c.metrics| && i < |c.metrics|
    ensures (c.name, c.metrics[i].name) in Registered(registered, c, BuildFails(done, lost)) <==>
            i < done || ((c.name, c.metrics[i].name) in registered && !(i == done && lost))
  {}

  /***** The registry *****/

  /** The metrics of the collectors in the table. */
  function Live(t: Table): set<(string, string)> {
    set n, m | n in t.jobs && m in t.jobs[n].metrics :: (n, m)
  }

  /** Each name is listed once. */
  ghost predicate Once(vs: seq<Visit>) {
    forall i, j :: 0 <= i < j < |vs| ==> vs[i].name != vs[j].name
  }

  /** The visit builds a new collector. */
  ghost predicate Rebuilds(t: Table, v: Visit, holder: bool) {
    Keeps(v, holder) &&
      !(v.load.coll.name in t.jobs && v.load.coll.lastModified <= t.jobs[v.load.coll.name].lastModified)
  }

  /** The entry of n and its metrics in the registry are the same in both. */
  ghost predicate SameFor(t: Table, r: Table, n: string) {
    && (n in t.jobs <==> n in r.jobs) && (n in t.jobs ==> t.jobs[n] == r.jobs[n])
    && (forall m :: (n, m) in t.registered <==> (n, m) in r.registered)
  }

  lemma StepOfAnother(t: Table, v: Visit, holder: bool, n: string)
    requires v.load.Loaded? ==> v.load.coll.name != n
    ensures SameFor(t, Step(t, v, holder), n)
  {}

  lemma {:induction false} NotVisited(t: Table, vs: seq<Visit>, holder: bool, n: string)
    requires Named(vs) && forall i :: 0 <= i < |vs| ==> vs[i].name != n
    ensures SameFor(t, StepAll(t, vs, holder), n)
  {
    if vs != [] {
      var p, v := vs[..|vs| - 1], vs[|vs| - 1];
      assert forall i :: 0 <= i < |p| ==> p[i] == vs[i];
      NotVisited(t, p, holder, n);
      assert vs[|vs| - 1].name != n;
      StepOfAnother(StepAll(t, p, holder), v, holder, n);
      hide Step;
    }
  }

  /** What the one visit of a name does, as if there were no others. */
  ghost predicate OwnEffect(t: Table, v: Visit, holder: bool, r: Table) {
    if !Rebuilds(t, v, holder) then SameFor(t, r, v.name)
    else
      && v.name in r.jobs && r.jobs[v.name].metrics == MetricNames(v.load.coll)
      && (forall m :: (v.name, m) in r.registered <==> (v.name, m) in t.registered || m in MetricNames(v.load.coll))
  }

  lemma StepOwnEffect(t: Table, s: Table, v: Visit, holder: bool)
    requires SameFor(t, s, v.name) && v.build == Scheduled && (v.load.Loaded? ==> v.load.coll.name == v.name)
    ensures OwnEffect(t, v, holder, Step(s, v, holder))
  {
    if Rebuilds(t, v, holder) {
      var c := v.load.coll;
      forall m | m in MetricNames(c) ensures (c.name, m) in Registered(s.registered, c, v.build) {
        var i :| 0 <= i < |c.metrics| && c.metrics[i].name == m;
        assert (c.name, c.metrics[i].name) in Registered(s.registered, c, v.build);
      }
    }
  }

  lemma SameEffect(t: Table, v: Visit, holder: bool, r: Table, r': Table)
    requires OwnEffect(t, v, holder, r) && SameFor(r, r', v.name)
    ensures OwnEffect(t, v, holder, r')
  {}

  lemma {:induction false} VisitedOnce(t: Table, vs: seq<Visit>, holder: bool, i: nat)
    requires Named(vs) && NoBuildFails(vs) && Once(vs) && i < |vs|
    ensures OwnEffect(t, vs[i], holder, StepAll(t, vs, holder))
  {
    var p, v := vs[..|vs| - 1], vs[|vs| - 1];
    assert forall j :: 0 <= j < |p| ==> p[j] == vs[j];
    var before := StepAll(t, p, holder);
    if i == |vs| - 1 {
      NotVisited(t, p, holder, v.name);
      hide Step, SameFor;
      StepOwnEffect(t, before, v, holder);
    } else {
      VisitedOnce(t, p, holder, i);
      assert vs[|vs| - 1].name != vs[i].name;
      hide Step, OwnEffect, SameFor;
      StepOfAnother(before, v, holder, vs[i].name);
      SameEffect(t, vs[i], holder, before, Step(before, v, holder));
    }
  }

  lemma CleanupRegistry(t: Table, keep: set<string>, n: string, m: string)
    ensures n in keep ==> SameFor(t, Cleanup(t, keep), n)
    ensures n !in keep ==> n !in Cleanup(t, keep).jobs
    ensures n !in keep ==> ((n, m) in Cleanup(t, keep).registered <==> (n, m) in t.registered && (n, m) !in Live(t))
  {}

  /** The registry after a refresh, exactly, for a listed collection and each name of a metric. */
  lemma RegistryOfListed(t: Table, vs: seq<Visit>, holder: bool, i: nat, m: string)
    requires Named(vs) && NoBuildFails(vs) && Once(vs) && i < |vs|
    ensures var r := Refresh(t, vs, holder);
            if Rebuilds(t, vs[i], holder) then
              && ((vs[i].name, m) in Live(r) <==> m in MetricNames(vs[i].load.coll))
              && ((vs[i].name, m) in r.registered <==>
                (vs[i].name, m) in t.registered || m in MetricNames(vs[i].load.coll))
            else if Keeps(vs[i], holder) then
              && ((vs[i].name, m) in Live(r) <==> (vs[i].name, m) in Live(t))
              && ((vs[i].name, m) in r.registered <==> (vs[i].name, m) in t.registered)
            else
              (vs[i].name, m) !in Live(r) &&
                ((vs[i].name, m) in r.registered <==> (vs[i].name, m) in t.registered - Live(t))
  {
    KeptOnce(vs, holder, i);
    VisitedOnce(t, vs, holder, i);
    hide StepAll, Kept, Cleanup;
    CleanupRegistry(StepAll(t, vs, holder), Kept(vs, holder), vs[i].name, m);
  }

  lemma KeptOnce(vs: seq<Visit>, holder: bool, i: nat)
    requires Once(vs) && i < |vs|
    ensures vs[i].name in Kept(vs, holder) <==> Keeps(vs[i], holder)
  {}

  lemma RegistryOfUnlisted(t: Table, vs: seq<Visit>, holder: bool, n: string, m: string)
    requires Named(vs) && forall i :: 0 <= i < |vs| ==> vs[i].name != n
    ensures (n, m) !in Live(Refresh(t, vs, holder))
    ensures (n, m) in Refresh(t, vs, holder).registered <==> (n, m) in t.registered - Live(t)
  {
    NotVisited(t, vs, holder, n);
    assert n !in Kept(vs, holder);
    hide StepAll, Kept, Cleanup;
    CleanupRegistry(StepAll(t, vs, holder), Kept(vs, holder), n, m);
  }

  /** Metrics in the registry that no collector has. */
  function Leftover(t: Table): set<(string, string)> {
    t.registered - Live(t)
  }

  /** A new collector lacks a metric that the one before it had. */
  ghost predicate DropsMetric(t: Table, vs: seq<Visit>, holder: bool) {
    exists i, m ::
      0 <= i < |vs| && Rebuilds(t, vs[i], holder) && (vs[i].name, m) in t.registered &&
        m !in MetricNames(vs[i].load.coll)
  }

  /** Every live metric is registered, if it was before. */
  lemma LiveStaysRegistered(t: Table, vs: seq<Visit>, holder: bool)
    requires Named(vs) && NoBuildFails(vs) && Once(vs) && Live(t) <= t.registered
    ensures Live(Refresh(t, vs, holder)) <= Refresh(t, vs, holder).registered
  {
    hide Refresh, Live, Rebuilds, Keeps;
    forall p | p in Live(Refresh(t, vs, holder)) ensures p in Refresh(t, vs, holder).registered {
      if i: nat :| i < |vs| && vs[i].name == p.0 {
        RegistryOfListed(t, vs, holder, i, p.1);
      } else {
        RegistryOfUnlisted(t, vs, holder, p.0, p.1);
      }
    }
  }

  /** A metric that an update drops is left over in the registry.  It stays through any refresh that does not bring it
      back, even one that removes its collection. */
  lemma LeftoverStays(t: Table, vs: seq<Visit>, holder: bool, n: string, m: string)
    requires Named(vs) && NoBuildFails(vs) && Once(vs) && (n, m) in Leftover(t)
    ensures (n, m) in Leftover(Refresh(t, vs, holder)) <==>
            !exists i :: 0 <= i < |vs| && vs[i].name == n && Rebuilds(t, vs[i], holder) &&
              m in MetricNames(vs[i].load.coll)
  {
    hide Refresh, Live, Rebuilds, Keeps;
    if i: nat :| i < |vs| && vs[i].name == n {
      RegistryOfListed(t, vs, holder, i, m);
      assert forall j :: 0 <= j < |vs| && vs[j].name == n ==> j == i;
    } else {
      RegistryOfUnlisted(t, vs, holder, n, m);
    }
  }

  /** If the registry holds exactly the metrics of the live collectors, then it still does after a refresh exactly if no
      new collector lacks a metric of the one it replaces. */
  lemma RegistryExactIff(t: Table, vs: seq<Visit>, holder: bool)
    requires Named(vs) && NoBuildFails(vs) && Once(vs) && t.registered == Live(t)
    ensures Refresh(t, vs, holder).registered == Live(Refresh(t, vs, holder)) <==> !DropsMetric(t, vs, holder)
  {
    hide Refresh, Live;
    var r := Refresh(t, vs, holder);
    LiveStaysRegistered(t, vs, holder);
    if DropsMetric(t, vs, holder) {
      var i, m :| 0 <= i < |vs| && Rebuilds(t, vs[i], holder) && (vs[i].name, m) in t.registered &&
        m !in MetricNames(vs[i].load.coll);
      RegistryOfListed(t, vs, holder, i, m);
      assert (vs[i].name, m) in r.registered && (vs[i].name, m) !in Live(r);
    } else {
      forall p | p in r.registered ensures p in Live(r) {
        if i: nat :| i < |vs| && vs[i].name == p.0 {
          RegistryOfListed(t, vs, holder, i, p.1);
        } else {
          RegistryOfUnlisted(t, vs, holder, p.0, p.1);
        }
      }
    }
  }
}
