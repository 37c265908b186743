/** The collector server's refresh, which changes the job map, the scheduler and the registry in place. */
module CollectorServer {
  import opened Wrappers
  import opened CollectionStore
  import opened JobTable

  /** How a refresh ends.  A collection that is deleted after it was listed is loaded as nil, which panics. */
  datatype Outcome = Refreshed | ListingFails | Panics

  class Server {
    var leaseHolder: bool
    var scheduledJobs: map<string, Job>
    // the collector jobs that the scheduler runs, and the next one it would make
    var scheduler: set<nat>
    var nextJob: nat
    // the metrics in the registry, by collection and name
    var registry: set<(string, string)>

    ghost function State(): Table
      reads this
    {
      Table(scheduledJobs, scheduler, nextJob, registry)
    }

    constructor ()
      ensures State() == Table(map[], {}, 0, {}) && !leaseHolder && NoOrphans(State())
    {
      leaseHolder, scheduledJobs, scheduler, nextJob, registry := false, map[], {}, 0, {};
    }

    method SetLeaseHolder(holder: bool)
      modifies this`leaseHolder
      ensures leaseHolder == holder
    {
      leaseHolder := holder;
    }

    /** Unregisters the metrics of a collector. */
    method Unregister(name: string, metrics: set<string>)
      modifies this`registry
      ensures registry == old(registry) - (set m | m in metrics :: (name, m))
    {
      var todo := metrics;
      while todo != {}
        invariant todo <= metrics
        invariant registry == old(registry) - (set m | m in metrics - todo :: (name, m))
        decreases todo
      {
        var m :| m in todo;
        registry := registry - {(name, m)};
        todo := todo - {m};
      }
    }

    /** Drops every job whose name is not to be kept. */
    method LockedCleanupJobs(toKeep: set<string>)
      modifies this`scheduledJobs, this`scheduler, this`registry
      ensures State() == Cleanup(old(State()), toKeep)
    {
      var names := scheduledJobs.Keys;
      ghost var gone: set<string> := {};
      while names != {}
        invariant names + gone <= old(scheduledJobs).Keys && names !! gone
        invariant forall n :: n in old(scheduledJobs) ==> n in names || (n in gone <==> n !in toKeep)
        invariant scheduledJobs == old(scheduledJobs) - gone
        invariant scheduler == old(scheduler) - JobsOf(old(scheduledJobs), gone)
        invariant registry == old(registry) - MetricsIn(old(scheduledJobs), gone)
        decreases names
      {
        var name :| name in names;
        if name !in toKeep {
          var job := scheduledJobs[name];
          scheduler := scheduler - {job.id};
          Unregister(name, job.metrics);
          scheduledJobs := scheduledJobs - {name};
          OneMoreGone(old(scheduledJobs), gone, name);
          gone := gone + {name};
        }
        names := names - {name};
      }
      assert gone == old(scheduledJobs).Keys - toKeep;
      CleanupIs(old(State()), toKeep, gone);
    }

    /** Builds a collector: each metric in turn replaces the one of that name in the registry. */
    method FromCollection(coll: Collection, build: Build) returns (ok: bool)
      modifies this`registry
      ensures ok <==> !build.BuildFails?
      ensures registry == Registered(old(registry), coll, build)
    {
      for i := 0 to |coll.metrics|
        invariant build.BuildFails? ==> i <= build.done
        invariant registry == old(registry) + (set j | 0 <= j < i :: (coll.name, coll.metrics[j].name))
      {
        if build.BuildFails? && i == build.done {
          if build.lost {
            registry := registry - {(coll.name, coll.metrics[i].name)};
          }
          return false;
        }
        registry := registry + {(coll.name, coll.metrics[i].name)};
      }
      return !build.BuildFails?;
    }

    /** One listed name of a refresh; returns whether the name is kept. */
    method LockedVisit(v: Visit) returns (keep: bool)
      requires !v.load.Missing?
      modifies this`scheduledJobs, this`scheduler, this`nextJob, this`registry
      ensures keep == Keeps(v, leaseHolder)
      ensures State() == Step(old(State()), v, leaseHolder)
    {
      hide Registered, MetricNames;
      if v.load.LoadFails? {
        return false;
      }
      var coll := v.load.coll;
      if !coll.config.enabled || (coll.config.scope == CLUSTER && !leaseHolder) {
        return false;
      }
      keep := true;
      var found := coll.name in scheduledJobs;
      if found && !(scheduledJobs[coll.name].lastModified < coll.lastModified) {
        return;
      }
      if found {
        scheduler := scheduler - {scheduledJobs[coll.name].id};
      }
      var built := FromCollection(coll, v.build);
      if !built || v.build.SchedulingFails? {
        return;
      }
      scheduler := scheduler + {nextJob};
      scheduledJobs := scheduledJobs[coll.name := Job(nextJob, coll.lastModified, MetricNames(coll))];
      nextJob := nextJob + 1;
    }

    /** Reconciles the jobs with the store; `listing` is None if the names cannot be listed. */
    method LockedRefresh(listing: Option<seq<Visit>>) returns (outcome: Outcome)
      requires NoOrphans(State())
      modifies this`scheduledJobs, this`scheduler, this`nextJob, this`registry
      ensures NoOrphans(State()) && outcome == OutcomeOf(listing)
      ensures State() == AfterRefresh(old(State()), listing, leaseHolder)
    {
      if listing.None? {
        return ListingFails;
      }
      hide NoOrphans, Step, Cleanup, Keeps;
      var vs := listing.value;
      var newCollectors: set<string> := {};
      assert vs[..0] == [];
      for i := 0 to |vs|
        invariant i <= FirstMissing(vs)
        invariant State() == StepAll(old(State()), vs[..i], leaseHolder)
        invariant newCollectors == Kept(vs[..i], leaseHolder)
      {
        assert vs[..i + 1] == vs[..i] + [vs[i]];
        if vs[i].load.Missing? {
          StepAllNoOrphans(old(State()), vs[..i], leaseHolder);
          return Panics;
        }
        var keep := LockedVisit(vs[i]);
        KeptSnoc(vs[..i], vs[i], leaseHolder);
        if keep {
          newCollectors := newCollectors + {vs[i].name};
        }
      }
      assert vs[..|vs|] == vs;
      StepAllNoOrphans(old(State()), vs, leaseHolder);
      CleanupNoOrphans(State(), newCollectors);
      LockedCleanupJobs(newCollectors);
      return Refreshed;
    }

    /** A refresh that is skipped if the lock is held. */
    method MaybeRefresh(locked: bool, listing: Option<seq<Visit>>) returns (outcome: Option<Outcome>)
      requires NoOrphans(State())
      modifies this`scheduledJobs, this`scheduler, this`nextJob, this`registry
      ensures NoOrphans(State()) && outcome == if locked then None else Some(OutcomeOf(listing))
      ensures State() == if locked then old(State()) else AfterRefresh(old(State()), listing, leaseHolder)
    {
      if locked {
        return None;
      }
      var done := LockedRefresh(listing);
      return Some(done);
    }

    /** One turn of the lease callback: the flag is set first, so that a refresh of this turn goes by the new one. */
    method LeaseTurn(holder: bool, locked: bool, listing: Option<seq<Visit>>) returns (outcome: Option<Outcome>)
      requires NoOrphans(State())
      modifies this
      ensures leaseHolder == holder && NoOrphans(State())
      ensures outcome == if locked then None else Some(OutcomeOf(listing))
      ensures State() == if locked then old(State()) else AfterRefresh(old(State()), listing, holder)
      ensures outcome == Some(Refreshed) && !holder ==> OnlyLocal(scheduledJobs, listing.value)
    {
      SetLeaseHolder(holder);
      outcome := MaybeRefresh(locked, listing);
      if outcome == Some(Refreshed) && !holder {
        KeptAreLocal(old(State()), listing.value);
      }
    }
  }

  /** How a refresh ends, by what it finds. */
  function OutcomeOf(listing: Option<seq<Visit>>): (o: Outcome)
    ensures o.Refreshed? ==> listing.Some?
  {
    if listing.None? then ListingFails
    else if FirstMissing(listing.value) < |listing.value| then Panics else Refreshed
  }

  /** The table that a refresh leaves: after a panic, that of the visits before it, without the cleanup. */
  function AfterRefresh(t: Table, listing: Option<seq<Visit>>, holder: bool): Table {
    match OutcomeOf(listing)
    case ListingFails => t
    case Panics => StepAll(t, listing.value[..FirstMissing(listing.value)], holder)
    case Refreshed => Refresh(t, listing.value, holder)
  }

  /** A refresh that fails removes no entry: if the names cannot be listed, nothing changes at all; if a listed
      collection is gone, what was visited before it is up to date and the rest is as it was. */
  lemma FailedRefreshKeepsJobs(t: Table, listing: Option<seq<Visit>>, holder: bool, n: string)
    requires NoOrphans(t) && n in t.jobs
    ensures listing.None? ==> AfterRefresh(t, listing, holder) == t
    ensures listing.Some? && (exists i :: 0 <= i < |listing.value| && listing.value[i].load == Missing) ==>
              n in AfterRefresh(t, listing, holder).jobs
    ensures listing.Some? && Named(listing.value) &&
            (exists i :: 0 <= i < |listing.value| && listing.value[i].load == Missing &&
               forall j :: 0 <= j < i ==> listing.value[j].name != n && listing.value[j].load != Missing) ==>
              SameEntry(t, AfterRefresh(t, listing, holder), n)
    ensures listing.Some? && (forall i :: 0 <= i < |listing.value| ==> listing.value[i].load != Missing) ==>
              AfterRefresh(t, listing, holder) == Refresh(t, listing.value, holder)
  {
    if listing.Some? {
      var vs := listing.value;
      var k := FirstMissing(vs);
      hide NoOrphans, Step, Refresh;
      EntriesStay(t, vs[..k], holder, n);
      if Named(vs) && (forall j :: 0 <= j < k ==> vs[j].name != n) {
        assert Named(vs[..k]) && forall j :: 0 <= j < k ==> vs[..k][j] == vs[j];
        VisitsOfOthers(t, vs[..k], holder, n);
      }
    }
  }

  /** What was visited before the collection that is gone is done as in a refresh that finishes. */
  lemma PanicKeepsVisits(t: Table, vs: seq<Visit>, holder: bool, k: nat, i: nat)
    requires NoOrphans(t) && Named(vs) && Once(vs) && i < k < |vs| && vs[k].load == Missing
    requires forall j :: 0 <= j < k ==> vs[j].load != Missing
    requires vs[i].load.Loaded? && vs[i].load.coll.config.enabled
    requires vs[i].load.coll.config.scope == "cluster" ==> holder
    ensures EntryFrom(t, AfterRefresh(t, Some(vs), holder), vs[i].name, vs[i].load.coll, vs[i].build)
  {
    hide NoOrphans, EntryFrom, Step, Refresh;
    var p := vs[..k];
    assert forall j :: 0 <= j < k ==> p[j] == vs[j];
    assert Named(p) && Once(p) && FirstMissing(vs) == k;
    VisitsEntry(t, p, holder, i);
  }

  lemma {:induction false} EntriesStay(t: Table, vs: seq<Visit>, holder: bool, n: string)
    requires n in t.jobs
    ensures n in StepAll(t, vs, holder).jobs
  {
    if vs != [] { EntriesStay(t, vs[..|vs| - 1], holder, n); }
  }

  /** Every entry is of a collection that was loaded and is not cluster-wide. */
  ghost predicate OnlyLocal(jobs: map<string, Job>, vs: seq<Visit>) {
    forall n :: n in jobs ==> exists i :: 0 <= i < |vs| && IsLocal(vs[i], n)
  }

  ghost predicate IsLocal(v: Visit, n: string) {
    v.name == n && v.load.Loaded? && v.load.coll.config.scope != CLUSTER
  }

  lemma KeptAreLocal(t: Table, vs: seq<Visit>)
    ensures OnlyLocal(Refresh(t, vs, false).jobs, vs)
  {
    forall n | n in Refresh(t, vs, false).jobs ensures exists i :: 0 <= i < |vs| && IsLocal(vs[i], n) {
      var i :| 0 <= i < |vs| && Keeps(vs[i], false) && vs[i].name == n;
      assert IsLocal(vs[i], n);
    }
  }

  /** The index of the first visit that finds no collection, or the number of visits. */
  function FirstMissing(vs: seq<Visit>): (i: nat)
    ensures i <= |vs| && (i < |vs| ==> vs[i].load.Missing?)
    ensures forall j :: 0 <= j < i ==> !vs[j].load.Missing?
  {
    if vs == [] || vs[0].load.Missing? then 0 else 1 + FirstMissing(vs[1..])
  }

  function JobsOf(jobs: map<string, Job>, names: set<string>): set<nat> {
    set n | n in jobs && n in names :: jobs[n].id
  }

  function MetricsIn(jobs: map<string, Job>, names: set<string>): set<(string, string)> {
    set n, m | n in jobs && n in names && m in jobs[n].metrics :: (n, m)
  }

  lemma OneMoreGone(jobs: map<string, Job>, names: set<string>, name: string)
    requires name in jobs
    ensures JobsOf(jobs, names + {name}) == JobsOf(jobs, names) + {jobs[name].id}
    ensures MetricsIn(jobs, names + {name}) == MetricsIn(jobs, names) + (set m | m in jobs[name].metrics :: (name, m))
  {}

  lemma CleanupIs(t: Table, keep: set<string>, gone: set<string>)
    requires gone == t.jobs.Keys - keep
    ensures Cleanup(t, keep) ==
            Table(t.jobs - gone, t.running - JobsOf(t.jobs, gone), t.nextId, t.registered - MetricsIn(t.jobs, gone))
  {
    assert Cleanup(t, keep).jobs == t.jobs - gone;
    assert JobsOf(t.jobs, gone) == set n | n in t.jobs && n !in keep :: t.jobs[n].id;
    assert MetricsIn(t.jobs, gone) == set n, m | n in t.jobs && n !in keep && m in t.jobs[n].metrics :: (n, m);
  }
}
