/**
The threads of one collector server as a step system.  The lease callback, the periodic
refresh and the refresh on SIGHUP share one lock, the lease flag and the job table; the
first two give up a refresh when they do not get the lock at once.  An administrator may
change the store between any two steps.
 */
module LeaseProtocol {
  import opened Wrappers
  import opened CollectionStore
  import opened JobTable
  import opened Sequences

  /** Where the lease callback stands. */
  datatype Lease =
    | Idle                      // not holding the lease
    | Setting(to: bool)         // in setLeaseHolder
    | Deciding(holder: bool)    // the flag is set, TryLock comes next
    | Refreshing(holder: bool)  // in lockedRefresh
    | Holding                   // waiting for the lease to be lost
    | Stopped                   // the server is stopping

  /** A refresh in progress: names still to be visited, names to keep, what it has loaded, and whether all went well.
      `epoch` and `clock` tell when it began: how often the flag had been set, and the store changed;
      `start` is the table then, and `visits` what it has visited since. */
  datatype Work = Work(
    listed: bool, todo: seq<string>, keep: set<string>, view: map<string, Collection>, clean: bool,
    epoch: nat, clock: nat, start: Table, visits: seq<Visit>)

  /** Who has the lock. */
  datatype Lock = Free | Setter | Refresher(byLease: bool, work: Work)

  datatype State = State(
    store: map<string, Collection>,
    clock: nat,                      // number of store changes
    flag: bool,                      // leaseHolder
    epoch: nat,                      // number of times the flag was set
    lock: Lock,
    queued: nat,                     // refreshes on SIGHUP that wait for the lock
    handed: bool,                    // the callback skipped as the free lock was being handed to one of them
    lease: Lease,
    table: Table,
    view: map<string, Collection>,   // what the last finished refresh loaded
    viewClean: bool,                 // every load, build and scheduling of it worked
    viewEpoch: nat,
    viewClock: nat,
    missed: bool,                    // since the flag was set, a listing failed and no refresh was finished after
    stranded: bool)                  // the callback left because its refresh on acquisition could not list the store

  /** How loading a collection ends.  Reading its metrics may break off, which is not noticed. */
  datatype Read = ReadAll | ReadPart(part: seq<Metric>) | ReadFails

  function Loading(c: Collection, read: Read): Load {
    match read
    case ReadAll => Loaded(c)
    case ReadPart(part) => Loaded(c.(metrics := part))
    case ReadFails => LoadFails
  }

  datatype Step =
    | ChangeStore(store: map<string, Collection>)
    | AcquireLease
    | LoseLease
    | LockForFlag
    | SetFlag
    | TryLockSucceeds
    | TryLockFails
    | Stop
    | Queue
    | OtherLocks(fromQueue: bool)
    | List(names: Option<seq<string>>)
    | ListPart(part: seq<string>)   // reading the names breaks off, which is not noticed
    | VisitNext(read: Read, build: Build)
    | Finish

  ghost predicate WellNamed(store: map<string, Collection>) {
    forall n :: n in store ==> store[n].name == n
  }

  ghost predicate Initial(s: State) {
    && WellNamed(s.store) && s.clock == 1 && s.viewClock == 0
    && !s.flag && s.epoch == 0 && s.viewEpoch == 0
    && s.lock == Free && s.queued == 0 && !s.handed && s.lease == Idle
    && s.table == Table(map[], {}, 0, {}) && s.view == map[] && s.viewClean && !s.missed && !s.stranded
  }

  function Begin(s: State): Work {
    Work(false, [], {}, map[], true, s.epoch, s.clock, s.table, [])
  }

  /** The names of the store, each once. */
  ghost predicate Lists(names: seq<string>, store: map<string, Collection>) {
    Distinct(names) && forall n :: n in names <==> n in store
  }

  ghost predicate Enabled(s: State, step: Step) {
    match step
    case ChangeStore(store) => WellNamed(store)
    case AcquireLease => s.lease == Idle
    case LoseLease => s.lease == Holding
    case LockForFlag => s.lease.Setting? && s.lock == Free
    case SetFlag => s.lease.Setting? && s.lock == Setter
    case TryLockSucceeds => s.lease.Deciding? && s.lock == Free
    // a mutex may also be handed over to a waiting thread
    case TryLockFails => s.lease.Deciding? && (s.lock != Free || s.queued > 0)
    case Stop => s.lease == Deciding(false)
    case Queue => true
    case OtherLocks(fromQueue) => s.lock == Free && (fromQueue ==> s.queued > 0)
    case List(names) =>
      s.lock.Refresher? && !s.lock.work.listed && (names.Some? ==> Lists(names.value, s.store))
    case ListPart(names) =>
      s.lock.Refresher? && !s.lock.work.listed && Distinct(names) && forall n :: n in names ==> n in s.store
    // a collection that was deleted since it was listed makes the program panic, which ends the run
    case VisitNext(read, _) =>
      && s.lock.Refresher? && s.lock.work.listed && s.lock.work.todo != [] && s.lock.work.todo[0] in s.store
      && (read.ReadPart? ==> forall m :: m in read.part ==> m in s.store[s.lock.work.todo[0]].metrics)
    case Finish => s.lock.Refresher? && s.lock.work.listed && s.lock.work.todo == []
  }

  /** The callback after a refresh that was finished or skipped. */
  function After(holder: bool): Lease {
    if holder then Holding else Idle
  }

  function Apply(s: State, step: Step): State
    requires Enabled(s, step)
  {
    match step
    case ChangeStore(store) => s.(store := store, clock := s.clock + 1)
    case AcquireLease => s.(lease := Setting(true))
    case LoseLease => s.(lease := Setting(false))
    case LockForFlag => s.(lock := Setter)
    case SetFlag => s.(flag := s.lease.to, epoch := s.epoch + 1, lock := Free, lease := Deciding(s.lease.to),
         missed := false, stranded := false, handed := false)
    case TryLockSucceeds => s.(lock := Refresher(true, Begin(s)), lease := Refreshing(s.lease.holder))
    case TryLockFails => s.(lease := After(s.lease.holder), handed := s.handed || s.lock == Free)
    case Stop => s.(lease := Stopped)
    case Queue => s.(queued := s.queued + 1)
    case OtherLocks(fromQueue) =>
      s.(lock := Refresher(false, Begin(s)), queued := if fromQueue then s.queued - 1 else s.queued)
    case List(names) =>
      if names.None? then
        // the refresh returns the error; the callback returns with it
        s.(lock := Free, lease := if s.lock.byLease then Idle else s.lease,
           missed := true, stranded := s.stranded || (s.lock.byLease && s.lease == Refreshing(true)))
      else
        s.(lock := s.lock.(work := s.lock.work.(listed := true, todo := names.value, clock := s.clock)))
    case ListPart(names) =>
      s.(lock := s.lock.(work := s.lock.work.(listed := true, todo := names, clock := s.clock, clean := false)))
    case VisitNext(read, build) =>
      var w := s.lock.work;
      var v := Visit(w.todo[0], Loading(s.store[w.todo[0]], read), build);
      s.(table := JobTable.Step(s.table, v, s.flag),
         lock := s.lock.(work := w.(todo := w.todo[1..],
                                    keep := if Keeps(v, s.flag) then w.keep + {w.todo[0]} else w.keep,
                                    view := if v.load.Loaded? then w.view[w.todo[0] := v.load.coll] else w.view,
                                    clean := w.clean && read == ReadAll && build == Scheduled,
                                    visits := w.visits + [v])))
    case Finish =>
      var w := s.lock.work;
      s.(table := Cleanup(s.table, w.keep), view := w.view, viewClean := w.clean, viewEpoch := w.epoch,
        viewClock := w.clock,
         missed := false, handed := false, lock := Free,
         lease := if s.lock.byLease && s.lease.Refreshing? then After(s.lease.holder) else s.lease)
  }

  /** The steps lead from s0 to s. */
  ghost predicate Run(s0: State, steps: seq<Step>, s: State)
    decreases |steps|
  {
    if steps == [] then s == s0
    else Enabled(s0, steps[0]) && Run(Apply(s0, steps[0]), steps[1..], s)
  }

  /***** The invariant *****/

  ghost predicate LockDiscipline(s: State) {
    && (s.lock.Refresher? && s.lock.byLease <==> s.lease.Refreshing?)
    && (s.lock == Setter ==> s.lease.Setting?)
    && (s.lock.Refresher? ==> s.lock.work.epoch == s.epoch)
  }

  /** The flag follows the callback. */
  predicate FlagFollows(lease: Lease, flag: bool) {
    match lease
    case Idle => !flag
    case Setting(to) => flag == !to
    case Deciding(holder) => flag == holder
    case Refreshing(holder) => flag == holder
    case Holding => flag
    case Stopped => !flag
  }

  /** The names that a refresh with this view schedules. */
  ghost predicate Matches(jobs: map<string, Job>, view: map<string, Collection>, flag: bool) {
    && (forall n :: n in jobs <==> n in view && Allowed(view[n], flag))
    && (forall n :: n in jobs && n in view ==> view[n].lastModified <= jobs[n].lastModified)
  }

  /** What a refresh in progress has achieved so far. */
  ghost predicate Progress(s: State, w: Work) {
    && WellNamed(w.view) && Distinct(w.todo) && (forall n :: n in w.todo ==> n !in w.view)
    && (forall n :: n in w.keep <==> n in w.view && Allowed(w.view[n], s.flag))
    && (forall n :: n in w.keep ==> n in s.table.jobs && w.view[n].lastModified <= s.table.jobs[n].lastModified)
  }

  /** Unless the store changed meanwhile, what a refresh has loaded and has still to load is the store. */
  ghost predicate SeesStore(s: State, w: Work) {
    && (!w.listed ==> w.todo == [] && w.view == map[])
    && (w.listed && w.clock == s.clock ==>
          && (forall n :: n in s.store ==> n in w.todo || n in w.view)
          && (forall n :: n in w.view ==> n in s.store && w.view[n] == s.store[n]))
  }

  /** Unless the store changed meanwhile, what a refresh has still to load is there. */
  ghost predicate TodoStored(s: State) {
    s.lock.Refresher? && s.lock.work.listed && s.lock.work.clock == s.clock ==>
      forall n :: n in s.lock.work.todo ==> n in s.store
  }

  /** No refresh is past its listing, so the jobs are as the last one left them. */
  predicate Untouched(lock: Lock) {
    lock.Refresher? ==> !lock.work.listed
  }

  ghost predicate Inv(s: State) {
    && WellNamed(s.store) && s.viewClock <= s.clock && s.viewEpoch <= s.epoch
    && NoOrphans(s.table)
    && LockDiscipline(s)
    && (s.lock.Refresher? ==> s.lock.work.clock <= s.clock) && TodoStored(s)
    && (if s.stranded then s.flag && (s.lease == Idle || s.lease == Setting(true)) else FlagFollows(s.lease, s.flag))
    && (s.lock.Refresher? && s.lock.work.clean ==> Progress(s, s.lock.work) && SeesStore(s, s.lock.work))
    && (Untouched(s.lock) && s.viewClean && s.viewEpoch == s.epoch ==> Matches(s.table.jobs, s.view, s.flag))
    && (Untouched(s.lock) && s.viewClean && s.viewClock == s.clock ==> s.view == s.store)
    && (!s.lock.Refresher? && (s.lease == Idle || s.lease == Holding || s.lease.Setting?) ==>
          s.viewEpoch == s.epoch || s.handed || s.missed)
    && (s.handed && !s.lock.Refresher? ==> s.queued > 0 || s.missed)
  }

  lemma InitialInv(s: State)
    requires Initial(s)
    ensures Inv(s)
  {}

  /** A refresh in progress has done a part of what the refresh of a single thread does. */
  ghost predicate PartOfRefresh(s: State) {
    s.lock.Refresher? ==>
      var w := s.lock.work;
      s.table == StepAll(w.start, w.visits, s.flag) && w.keep == Kept(w.visits, s.flag)
  }

  lemma PartGrows(start: Table, visits: seq<Visit>, v: Visit, flag: bool)
    ensures StepAll(start, visits + [v], flag) == JobTable.Step(StepAll(start, visits, flag), v, flag)
    ensures Kept(visits + [v], flag) == if Keeps(v, flag) then Kept(visits, flag) + {v.name} else Kept(visits, flag)
  {
    hide JobTable.Step, Keeps;
    assert (visits + [v])[..|visits|] == visits;
    KeptSnoc(visits, v, flag);
  }

  lemma VisitKeepsPart(s: State, step: Step)
    requires PartOfRefresh(s) && Enabled(s, step) && step.VisitNext?
    ensures PartOfRefresh(Apply(s, step))
  {
    hide JobTable.Step, StepAll, Kept, Keeps;
    var w, n := s.lock.work, s.lock.work.todo[0];
    PartGrows(w.start, w.visits, Visit(n, Loading(s.store[n], step.read), step.build), s.flag);
  }

  lemma NoPart(t: Table, flag: bool)
    ensures StepAll(t, [], flag) == t && Kept([], flag) == {}
  {}

  lemma LockStartsPart(s: State, step: Step)
    requires Enabled(s, step) && (step.TryLockSucceeds? || step.OtherLocks?)
    ensures PartOfRefresh(Apply(s, step))
  {
    hide StepAll, Kept;
    NoPart(s.table, s.flag);
  }

  lemma OthersKeepPart(s: State, step: Step)
    requires PartOfRefresh(s) && Enabled(s, step)
    requires !step.VisitNext? && !step.TryLockSucceeds? && !step.OtherLocks?
    ensures PartOfRefresh(Apply(s, step))
  {
    assert step.List? || step.ListPart? ==> s.lock.Refresher?;
    hide StepAll, Kept, Cleanup, Keeps, JobTable.Step, Loading, Enabled;
  }

  lemma StepKeepsPart(s: State, step: Step)
    requires LockDiscipline(s) && PartOfRefresh(s) && Enabled(s, step)
    ensures PartOfRefresh(Apply(s, step))
  {
    hide Apply, Enabled, PartOfRefresh, LockDiscipline;
    if step.VisitNext? { VisitKeepsPart(s, step); }
    else if step.TryLockSucceeds? || step.OtherLocks? { LockStartsPart(s, step); }
    else { OthersKeepPart(s, step); }
  }

  lemma {:induction false} RunKeepsPart(s0: State, steps: seq<Step>, s: State)
    requires Inv(s0) && PartOfRefresh(s0) && Run(s0, steps, s)
    ensures PartOfRefresh(s)
    decreases |steps|
  {
    if steps != [] {
      hide Apply, Enabled, PartOfRefresh, LockDiscipline;
      StepKeepsInv(s0, steps[0]);
      StepKeepsPart(s0, steps[0]);
      RunKeepsPart(Apply(s0, steps[0]), steps[1..], s);
    }
  }

  /** However its steps interleave with those of other threads, a finished refresh has done to the jobs what the
      sequential refresh does, with the flag it finds and the collections it loads one by one. */
  lemma FinishIsRefresh(s0: State, steps: seq<Step>, s: State)
    requires Initial(s0) && Run(s0, steps, s) && Enabled(s, Finish)
    ensures Apply(s, Finish).table == Refresh(s.lock.work.start, s.lock.work.visits, s.flag)
  {
    InitialInv(s0);
    RunKeepsPart(s0, steps, s);
  }

  /** A listing that works leaves all of the store to be visited. */
  lemma ListStartsWork(s: State, step: Step)
    requires step.List? && step.names.Some? && Enabled(s, step) && Progress(s, s.lock.work) && SeesStore(s, s.lock.work)
    ensures Progress(Apply(s, step), Apply(s, step).lock.work) && SeesStore(Apply(s, step), Apply(s, step).lock.work)
  {
    hide NoOrphans;
  }

  lemma ListFailsKeepsInv(s: State, step: Step)
    requires Inv(s) && step == List(None) && Enabled(s, step)
    ensures Inv(Apply(s, step))
  {
    hide NoOrphans, Matches, Progress, SeesStore, WellNamed, Distinct;
  }

  lemma ListPartKeepsInv(s: State, step: Step)
    requires Inv(s) && step.ListPart? && Enabled(s, step)
    ensures Inv(Apply(s, step))
  {
    hide NoOrphans, Matches, Progress, SeesStore, WellNamed, Distinct, FlagFollows;
  }

  lemma ListKeepsInv(s: State, step: Step)
    requires Inv(s) && step.List? && step.names.Some? && Enabled(s, step)
    ensures Inv(Apply(s, step))
  {
    if s.lock.work.clean { ListStartsWork(s, step); }
    hide NoOrphans, Matches, Progress, SeesStore, WellNamed, Distinct, FlagFollows;
  }

  /** A visit without failures keeps track of what it loads. */
  lemma VisitKeepsProgress(s: State, step: Step)
    requires WellNamed(s.store) && s.lock.Refresher? && Progress(s, s.lock.work) && SeesStore(s, s.lock.work)
    requires step.VisitNext? && step.read == ReadAll && step.build == JobTable.Scheduled && Enabled(s, step)
    ensures Progress(Apply(s, step), Apply(s, step).lock.work)
  {
    var w, r := s.lock.work, Apply(s, step);
    var n := w.todo[0];
    var v := Visit(n, Loaded(s.store[n]), JobTable.Scheduled);
    StepEffect(s.table, v, s.flag);
    hide JobTable.Step, NoOrphans;
    TodoShrinks(w.todo);
  }

  lemma TodoShrinks(todo: seq<string>)
    requires Distinct(todo) && todo != []
    ensures Distinct(todo[1..]) && todo[0] !in todo[1..]
    ensures forall n :: n in todo <==> n == todo[0] || n in todo[1..]
  {
    assert todo == [todo[0]] + todo[1..];
  }

  lemma VisitSeesStore(s: State, step: Step)
    requires s.lock.Refresher? && SeesStore(s, s.lock.work) && Distinct(s.lock.work.todo)
    requires step.VisitNext? && step.read == ReadAll && Enabled(s, step)
    ensures SeesStore(Apply(s, step), Apply(s, step).lock.work)
  {
    hide JobTable.Step;
    TodoShrinks(s.lock.work.todo);
  }

  lemma VisitKeepsInv(s: State, step: Step)
    requires Inv(s) && step.VisitNext? && Enabled(s, step)
    ensures Inv(Apply(s, step))
  {
    var n := s.lock.work.todo[0];
    StepNoOrphans(s.table, Visit(n, Loading(s.store[n], step.read), step.build), s.flag);
    hide JobTable.Step, NoOrphans, SeesStore;
    if Apply(s, step).lock.work.clean {
      VisitKeepsProgress(s, step);
      VisitSeesStore(s, step);
    }
    hide Progress;
  }

  lemma FinishMatches(s: State, w: Work)
    requires Progress(s, w)
    ensures Matches(Cleanup(s.table, w.keep).jobs, w.view, s.flag)
  {}

  lemma FinishSawStore(s: State, w: Work)
    requires SeesStore(s, w) && w.listed && w.todo == [] && w.clock == s.clock
    ensures w.view == s.store
  {}

  lemma FinishKeepsInv(s: State, step: Step)
    requires Inv(s) && step.Finish? && Enabled(s, step)
    ensures Inv(Apply(s, step))
  {
    var w := s.lock.work;
    CleanupNoOrphans(s.table, w.keep);
    hide NoOrphans, Cleanup, Matches, Progress, SeesStore, WellNamed;
    if w.clean {
      FinishMatches(s, w);
      if w.clock == s.clock { FinishSawStore(s, w); }
    }
  }

  lemma ChangeStoreKeepsInv(s: State, step: Step)
    requires Inv(s) && Enabled(s, step) && step.ChangeStore?
    ensures Inv(Apply(s, step))
  {
    hide NoOrphans, Matches;
  }

  lemma LockKeepsInv(s: State, step: Step)
    requires Inv(s) && Enabled(s, step) && (step.TryLockSucceeds? || step.OtherLocks?)
    ensures Inv(Apply(s, step))
  {
    hide NoOrphans, Matches;
  }

  lemma OtherStepsKeepInv(s: State, step: Step)
    requires Inv(s) && Enabled(s, step)
    requires step.AcquireLease? || step.LoseLease? || step.LockForFlag? || step.SetFlag? || step.TryLockFails? ||
               step.Stop? || step.Queue?
    ensures Inv(Apply(s, step))
  {
    hide NoOrphans, Matches, WellNamed;
    if s.lock.Refresher? && s.lock.work.clean {
      assert step.AcquireLease? || step.LoseLease? || step.TryLockFails? || step.Stop? || step.Queue?;
      SameWork(s, Apply(s, step), s.lock.work);
    }
    hide Progress, SeesStore;
  }

  lemma SameWork(s: State, r: State, w: Work)
    requires Progress(s, w) && SeesStore(s, w)
    requires r.store == s.store && r.clock == s.clock && r.flag == s.flag && r.table == s.table
    ensures Progress(r, w) && SeesStore(r, w)
  {}

  lemma StepKeepsInv(s: State, step: Step)
    requires Inv(s) && Enabled(s, step)
    ensures Inv(Apply(s, step))
  {
    hide Inv, Apply, Enabled;
    if step == List(None) { ListFailsKeepsInv(s, step); }
    else if step.List? { ListKeepsInv(s, step); }
    else if step.ListPart? { ListPartKeepsInv(s, step); }
    else if step.VisitNext? { VisitKeepsInv(s, step); }
    else if step.Finish? { FinishKeepsInv(s, step); }
    else if step.ChangeStore? { ChangeStoreKeepsInv(s, step); }
    else if step.TryLockSucceeds? || step.OtherLocks? { LockKeepsInv(s, step); }
    else { OtherStepsKeepInv(s, step); }
  }

  lemma {:induction false} RunKeepsInv(s0: State, steps: seq<Step>, s: State)
    requires Inv(s0) && Run(s0, steps, s)
    ensures Inv(s)
    decreases |steps|
  {
    hide Inv, Apply, Enabled;
    if steps != [] {
      StepKeepsInv(s0, steps[0]);
      RunKeepsInv(Apply(s0, steps[0]), steps[1..], s);
    }
  }

  /** The invariant holds in every reachable state. */
  lemma ReachableInv(s0: State, steps: seq<Step>, s: State)
    requires Initial(s0) && Run(s0, steps, s)
    ensures Inv(s)
  {
    InitialInv(s0);
    RunKeepsInv(s0, steps, s);
  }

  /***** What it means *****/

  /** In every reachable state, with any failures, no running job is without an entry. */
  lemma NoOrphansEver(s0: State, steps: seq<Step>, s: State)
    requires Initial(s0) && Run(s0, steps, s)
    ensures NoOrphans(s.table)
  {
    ReachableInv(s0, steps, s);
  }

  /** Whatever fails, and at any time, exactly when the flag is set: from the moment it is set after an acquisition to
      the moment it is cleared after a loss, or if the callback left because its refresh on acquisition could not list
      the store. */
  lemma FlagIffHeldOrStranded(s0: State, steps: seq<Step>, s: State)
    requires Initial(s0) && Run(s0, steps, s)
    ensures s.flag <==>
            s.stranded || s.lease in {Holding, Setting(false), Deciding(true), Refreshing(true)}
  {
    ReachableInv(s0, steps, s);
  }

  /** The callback's refresh is pending only while a refresh waits for the lock, unless one has failed to list the
      store. */
  lemma HandedIsQueued(s0: State, steps: seq<Step>, s: State)
    requires Initial(s0) && Run(s0, steps, s)
    ensures s.handed && s.lock == Free && !s.missed ==> s.queued > 0
  {
    ReachableInv(s0, steps, s);
  }

  /** Skipped refreshes are safe.  Once the callback has set the flag and has run or skipped its refresh, and the lock
      is free and not just being handed to the refresh that it skipped for, then unless a refresh has since failed to
      list the store: the last refresh began after the flag was set, and if all its visits worked, the scheduled names
      are exactly the enabled ones that it loaded and that the flag allows. */
  lemma SkippedRefreshesAreSafe(s0: State, steps: seq<Step>, s: State)
    requires Initial(s0) && Run(s0, steps, s)
    requires s.lock == Free && !s.handed && (s.lease == Idle || s.lease == Holding) && !s.missed
    ensures s.viewEpoch == s.epoch
    ensures s.viewClean ==> forall n :: n in s.table.jobs <==> n in s.view && Allowed(s.view[n], s.flag)
    ensures s.viewClean ==> forall n :: n in s.table.jobs ==> s.view[n].lastModified <= s.table.jobs[n].lastModified
  {
    ReachableInv(s0, steps, s);
  }

  ghost predicate NoFailures(steps: seq<Step>) {
    forall i :: 0 <= i < |steps| ==>
      && steps[i] != List(None) && !steps[i].ListPart?
      && (steps[i].VisitNext? ==> steps[i].read == ReadAll && steps[i].build == Scheduled)
  }

  ghost predicate Unharmed(s: State) {
    s.viewClean && !s.missed && !s.stranded && (s.lock.Refresher? ==> s.lock.work.clean)
  }

  lemma {:induction false} NoFailuresUnharmed(s0: State, steps: seq<Step>, s: State)
    requires Unharmed(s0) && Run(s0, steps, s) && NoFailures(steps)
    ensures Unharmed(s)
    decreases |steps|
  {
    if steps != [] {
      assert steps[0] != List(None) && !steps[0].ListPart?;
      assert NoFailures(steps[1..]);
      NoFailuresUnharmed(Apply(s0, steps[0]), steps[1..], s);
    }
  }

  /** Without failures every entry's job runs. */
  lemma StepKeepsRunning(s: State, step: Step)
    requires Inv(s) && AllRunning(s.table) && Enabled(s, step)
    requires step.VisitNext? ==> step.read == ReadAll && step.build == Scheduled
    ensures AllRunning(Apply(s, step).table)
  {
    hide LockDiscipline, Progress, SeesStore, Matches;
    if step.VisitNext? {
      var n := s.lock.work.todo[0];
      StepEffect(s.table, Visit(n, Loaded(s.store[n]), Scheduled), s.flag);
      hide NoOrphans, AllRunning, JobTable.Step;
    } else if step.Finish? {
      CleanupRunning(s.table, s.lock.work.keep);
    }
  }

  lemma {:induction false} RunKeepsRunning(s0: State, steps: seq<Step>, s: State)
    requires Inv(s0) && AllRunning(s0.table) && Run(s0, steps, s) && NoFailures(steps)
    ensures AllRunning(s.table)
    decreases |steps|
  {
    if steps != [] {
      assert steps[0].VisitNext? ==> steps[0].read == ReadAll && steps[0].build == Scheduled;
      assert NoFailures(steps[1..]);
      hide Inv, Apply, Enabled, AllRunning, NoFailures;
      StepKeepsInv(s0, steps[0]);
      StepKeepsRunning(s0, steps[0]);
      RunKeepsRunning(Apply(s0, steps[0]), steps[1..], s);
    }
  }

  /** On every run without failures the scheduler runs exactly the jobs of the table, at any time. */
  lemma JobsRun(s0: State, steps: seq<Step>, s: State)
    requires Initial(s0) && Run(s0, steps, s) && NoFailures(steps)
    ensures s.table.running == set n | n in s.table.jobs :: s.table.jobs[n].id
  {
    InitialInv(s0);
    RunKeepsRunning(s0, steps, s);
    ReachableInv(s0, steps, s);
  }

  /** On every run without failures: a disabled collection is never scheduled, an enabled one that is not cluster-wide
      always is; after a loss no cluster-wide job is scheduled, and after an acquisition every enabled collection that
      the refresh loaded is; and the scheduled jobs are exactly those that run. */
  lemma LeaseDecidesClusterJobs(s0: State, steps: seq<Step>, s: State, n: string)
    requires Initial(s0) && Run(s0, steps, s) && NoFailures(steps)
    requires s.lock == Free && !s.handed && (s.lease == Idle || s.lease == Holding)
    ensures n in s.table.jobs ==> n in s.view && s.view[n].config.enabled
    ensures n in s.view && s.view[n].config.enabled && s.view[n].config.scope != "cluster" ==> n in s.table.jobs
    ensures s.lease == Idle && n in s.table.jobs ==> s.view[n].config.scope != "cluster"
    ensures s.lease == Holding && n in s.view && s.view[n].config.enabled ==> n in s.table.jobs
    ensures s.table.running == set m | m in s.table.jobs :: s.table.jobs[m].id
    ensures s.viewEpoch == s.epoch
  {
    JobsRun(s0, steps, s);
    NoFailuresUnharmed(s0, steps, s);
    SkippedRefreshesAreSafe(s0, steps, s);
    FlagIffHeldOrStranded(s0, steps, s);
  }

  /** If moreover the store has not changed since that refresh listed it, the jobs are the store's enabled collections,
      cluster-wide ones included exactly when the lease is held, and none is out of date. */
  lemma JobsAreTheStore(s0: State, steps: seq<Step>, s: State, n: string)
    requires Initial(s0) && Run(s0, steps, s) && NoFailures(steps) && s.viewClock == s.clock
    requires s.lock == Free && !s.handed && (s.lease == Idle || s.lease == Holding)
    ensures n in s.table.jobs <==>
            && n in s.store && s.store[n].config.enabled
            && (s.store[n].config.scope == "cluster" ==> s.lease == Holding)
    ensures s.table.running == set m | m in s.table.jobs :: s.table.jobs[m].id
    ensures n in s.table.jobs ==> s.store[n].lastModified <= s.table.jobs[n].lastModified
  {
    JobsRun(s0, steps, s);
    ReachableInv(s0, steps, s);
    NoFailuresUnharmed(s0, steps, s);
    SkippedRefreshesAreSafe(s0, steps, s);
    FlagIffHeldOrStranded(s0, steps, s);
  }

  /** A version of a collection that a change makes carries the time of the change. */
  ghost predicate StampedStep(s: State, step: Step) {
    step.ChangeStore? ==> forall n :: n in step.store ==>
      (n in s.store && step.store[n] == s.store[n]) || step.store[n].lastModified == s.clock + 1
  }

  ghost predicate Stamped(s0: State, steps: seq<Step>)
    decreases |steps|
  {
    steps != [] && Enabled(s0, steps[0]) ==> StampedStep(s0, steps[0]) && Stamped(Apply(s0, steps[0]), steps[1..])
  }

  /** No job is ahead of the store or of the time. */
  ghost predicate NotAhead(s: State) {
    && (forall n :: n in s.store ==> s.store[n].lastModified <= s.clock)
    && (forall n :: n in s.table.jobs ==> s.table.jobs[n].lastModified <= s.clock)
    && (forall n :: n in s.table.jobs && n in s.store ==> s.table.jobs[n].lastModified <= s.store[n].lastModified)
  }

  lemma VisitTimes(t: Table, v: Visit, holder: bool, n: string)
    requires n in JobTable.Step(t, v, holder).jobs
    ensures || (n in t.jobs && JobTable.Step(t, v, holder).jobs[n].lastModified == t.jobs[n].lastModified)
            || (v.load.Loaded? && n == v.load.coll.name &&
                JobTable.Step(t, v, holder).jobs[n].lastModified == v.load.coll.lastModified)
  {}

  lemma VisitNotAhead(s: State, step: Step)
    requires WellNamed(s.store) && NotAhead(s) && Enabled(s, step) && step.VisitNext?
    ensures NotAhead(Apply(s, step))
  {
    hide JobTable.Step;
    var n := s.lock.work.todo[0];
    var v := Visit(n, Loading(s.store[n], step.read), step.build);
    forall k | k in JobTable.Step(s.table, v, s.flag).jobs
      ensures JobTable.Step(s.table, v, s.flag).jobs[k].lastModified <= s.clock
      ensures k in s.store ==> JobTable.Step(s.table, v, s.flag).jobs[k].lastModified <= s.store[k].lastModified
    {
      VisitTimes(s.table, v, s.flag, k);
    }
  }

  lemma ChangeNotAhead(s: State, step: Step)
    requires NotAhead(s) && Enabled(s, step) && step.ChangeStore? && StampedStep(s, step)
    ensures NotAhead(Apply(s, step))
  {}

  lemma FinishNotAhead(s: State, step: Step)
    requires NotAhead(s) && Enabled(s, step) && step.Finish?
    ensures NotAhead(Apply(s, step))
  {}

  lemma OthersLeaveJobs(s: State, step: Step)
    requires Enabled(s, step) && !step.VisitNext? && !step.ChangeStore? && !step.Finish?
    ensures Apply(s, step).store == s.store && Apply(s, step).clock == s.clock && Apply(s, step).table == s.table
  {
    hide Enabled, Cleanup, JobTable.Step, Keeps, Loading, Begin, After;
    match step {
      case List(_) =>
      case ListPart(_) =>
      case OtherLocks(_) =>
      case SetFlag =>
      case AcquireLease =>
      case LoseLease =>
      case LockForFlag =>
      case TryLockSucceeds =>
      case TryLockFails =>
      case Stop =>
      case Queue =>
    }
  }

  lemma StepNotAhead(s: State, step: Step)
    requires WellNamed(s.store) && NotAhead(s) && Enabled(s, step) && StampedStep(s, step)
    ensures NotAhead(Apply(s, step))
  {
    hide Apply, Enabled, StampedStep, WellNamed;
    if step.VisitNext? { VisitNotAhead(s, step); }
    else if step.ChangeStore? { ChangeNotAhead(s, step); }
    else if step.Finish? { FinishNotAhead(s, step); }
    else { OthersLeaveJobs(s, step); }
  }

  lemma InvParts(s: State)
    requires Inv(s)
    ensures WellNamed(s.store) && LockDiscipline(s)
  {}

  lemma {:induction false} RunNotAhead(s0: State, steps: seq<Step>, s: State)
    requires Inv(s0) && NotAhead(s0) && Run(s0, steps, s) && Stamped(s0, steps)
    ensures NotAhead(s)
    decreases |steps|
  {
    hide Inv, Apply, Enabled, NotAhead, StampedStep, WellNamed, LockDiscipline;
    if steps != [] {
      StepKeepsInv(s0, steps[0]);
      InvParts(s0);
      StepNotAhead(s0, steps[0]);
      RunNotAhead(Apply(s0, steps[0]), steps[1..], s);
    }
  }

  /** So the jobs are exactly as new as the store: no update is missed, as long as changes carry their time. */
  lemma JobsAreCurrent(s0: State, steps: seq<Step>, s: State, n: string)
    requires Initial(s0) && Run(s0, steps, s) && NoFailures(steps) && s.viewClock == s.clock
    requires s.lock == Free && !s.handed && (s.lease == Idle || s.lease == Holding)
    requires Stamped(s0, steps) && forall k :: k in s0.store ==> s0.store[k].lastModified <= s0.clock
    requires n in s.table.jobs
    ensures n in s.store && s.table.jobs[n].lastModified == s.store[n].lastModified
  {
    hide Inv;
    InitialInv(s0);
    RunNotAhead(s0, steps, s);
    JobsAreTheStore(s0, steps, s, n);
  }

  /** The callback is never stuck: it can go on in every reachable state unless it waits for the lock or has stopped. */
  lemma CallbackGoesOn(s0: State, steps: seq<Step>, s: State)
    requires Initial(s0) && Run(s0, steps, s)
    ensures s.lease == Idle ==> Enabled(s, AcquireLease)
    ensures s.lease == Holding ==> Enabled(s, LoseLease)
    ensures s.lease.Setting? && s.lock == Free ==> Enabled(s, LockForFlag)
    ensures s.lock == Setter ==> Enabled(s, SetFlag)
    ensures s.lease.Deciding? ==> if s.lock == Free then Enabled(s, TryLockSucceeds) else Enabled(s, TryLockFails)
    ensures s.lease.Deciding? && s.lock == Free && s.queued > 0 ==> Enabled(s, TryLockFails)
    ensures s.lease == Deciding(false) ==> Enabled(s, Stop)
    ensures s.lease.Refreshing? ==> s.lock.Refresher?
  {
    ReachableInv(s0, steps, s);
    InvParts(s);
    hide Inv, WellNamed, Lists, Run, Initial;
  }

  /** Nor is a refresh: it can start as soon as the lock is free, and list the names of the store or fail to. */
  lemma RefreshGoesOn(s: State, names: seq<string>)
    requires Lists(names, s.store)
    ensures s.lock == Free ==> Enabled(s, OtherLocks(false))
    ensures s.lock == Free && s.queued > 0 ==> Enabled(s, OtherLocks(true))
    ensures s.lock.Refresher? && !s.lock.work.listed ==> Enabled(s, List(None)) && Enabled(s, List(Some(names)))
  {
    hide Lists, WellNamed;
  }

  /** Once it has, it can go on, whatever it finds, until it gives the lock back, unless the next collection is gone. */
  lemma VisitsGoOn(s: State, build: Build)
    requires s.lock.Refresher? && s.lock.work.listed
    ensures s.lock.work.todo == [] ==> Enabled(s, Finish)
    ensures s.lock.work.todo != [] && s.lock.work.todo[0] in s.store ==> Enabled(s, VisitNext(ReadAll, build))
    ensures s.lock.work.todo != [] && s.lock.work.todo[0] in s.store ==> Enabled(s, VisitNext(ReadFails, build))
    ensures s.lock.work.todo != [] && s.lock.work.todo[0] in s.store ==> Enabled(s, VisitNext(ReadPart([]), build))
  {
    hide Lists, WellNamed;
  }

  /** The refresh in progress is about to load a collection that is gone. */
  ghost predicate Panics(s: State) {
    s.lock.Refresher? && s.lock.work.listed && s.lock.work.todo != [] && s.lock.work.todo[0] !in s.store
  }

  /** That needs a change of the store since the refresh listed it. */
  lemma PanicNeedsChange(s0: State, steps: seq<Step>, s: State)
    requires Initial(s0) && Run(s0, steps, s) && Panics(s)
    ensures s.lock.work.clock < s.clock
  {
    ReachableInv(s0, steps, s);
  }

  /** And it does happen: deleting the only collection after it was listed is enough. */
  lemma DeleteWhileListed(s: State, n: string) returns (r: State)
    requires Initial(s) && s.store.Keys == {n}
    ensures Run(s, [OtherLocks(false), List(Some([n])), ChangeStore(map[])], r)
    ensures Panics(r)
  {
    hide Run;
    var a := Apply(s, OtherLocks(false));
    var b := Apply(a, List(Some([n])));
    r := Apply(b, ChangeStore(map[]));
    RunNowhere(r);
    RunOn(b, ChangeStore(map[]), [], r);
    assert [ChangeStore(map[])] + [] == [ChangeStore(map[])];
    RunOn(a, List(Some([n])), [ChangeStore(map[])], r);
    assert [List(Some([n]))] + [ChangeStore(map[])] == [List(Some([n])), ChangeStore(map[])];
    RunOn(s, OtherLocks(false), [List(Some([n])), ChangeStore(map[])], r);
    assert [OtherLocks(false)] + [List(Some([n])), ChangeStore(map[])] ==
      [OtherLocks(false), List(Some([n])), ChangeStore(map[])];
  }

  /** An acquisition up to the moment when the flag is set. */
  lemma Acquires(s: State) returns (r: State)
    requires Initial(s)
    ensures Run(s, [AcquireLease, LockForFlag, SetFlag], r)
    ensures r.lease == Deciding(true) && r.lock == Free && r.flag
  {
    hide Run;
    var a := Apply(s, AcquireLease);
    var b := Apply(a, LockForFlag);
    r := Apply(b, SetFlag);
    RunNowhere(r);
    RunOn(b, SetFlag, [], r);
    assert [SetFlag] + [] == [SetFlag];
    RunOn(a, LockForFlag, [SetFlag], r);
    assert [LockForFlag] + [SetFlag] == [LockForFlag, SetFlag];
    RunOn(s, AcquireLease, [LockForFlag, SetFlag], r);
    assert [AcquireLease] + [LockForFlag, SetFlag] == [AcquireLease, LockForFlag, SetFlag];
  }

  /** If listing the store fails right after the lease is acquired, the callback returns and the flag stays set. */
  lemma FailedRefreshKeepsFlag(s: State) returns (r: State)
    requires Initial(s)
    ensures Run(s, [AcquireLease, LockForFlag, SetFlag] + [TryLockSucceeds, List(None)], r)
    ensures r.lease == Idle && r.flag
  {
    hide Run;
    var c := Acquires(s);
    var d := Apply(c, TryLockSucceeds);
    r := Apply(d, List(None));
    RunNowhere(r);
    RunOn(d, List(None), [], r);
    assert [List(None)] + [] == [List(None)];
    RunOn(c, TryLockSucceeds, [List(None)], r);
    assert [TryLockSucceeds] + [List(None)] == [TryLockSucceeds, List(None)];
    RunConcat(s, [AcquireLease, LockForFlag, SetFlag], c, [TryLockSucceeds, List(None)], r);
  }

  lemma {:induction false} RunConcat(s: State, a: seq<Step>, m: State, b: seq<Step>, r: State)
    requires Run(s, a, m) && Run(m, b, r)
    ensures Run(s, a + b, r)
    decreases |a|
  {
    hide Apply, Enabled;
    if a == [] {
      assert a + b == b;
    } else {
      assert (a + b)[1..] == a[1..] + b;
      RunConcat(Apply(s, a[0]), a[1..], m, b, r);
    }
  }

  lemma RunNowhere(s: State)
    ensures Run(s, [], s)
  {}

  lemma RunOn(s: State, step: Step, steps: seq<Step>, r: State)
    requires Enabled(s, step) && Run(Apply(s, step), steps, r)
    ensures Run(s, [step] + steps, r)
  {
    assert ([step] + steps)[1..] == steps;
  }
}
