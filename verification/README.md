# visus, verified

visus is a sidecar for CockroachDB that exports metrics to Prometheus. This project models its three
hardest parts in Dafny, and the smaller ones they rest on, and proves what they promise.

* **Histogram translation** (`Grid`, `Rebucketing`, `Translator`, `CopyPipeline`). A histogram with
  exponential buckets is re-bucketed onto a grid that is linear within each decade. `Log10Bucket` walks the
  grid in place as the program does; `Rebucket` says what the result means: the input's cumulative curve,
  sampled at consecutive grid points and closed by the total.
* **Collection** (`Lru`, `Counters`, `Gauges`, `ResultSets`, `Collector`, `CollectorLaws`). A query's rows
  become counter increments and gauge values. A least-recently-used cache turns absolute samples into
  increments and deletes the series it evicts; a sweep deletes the gauges that a pass no longer returns.
* **Collector server** (`JobTable`, `CollectorServer`, `LeaseProtocol`). A refresh reconciles scheduled jobs
  with the store. The lease callback, periodic refreshes and refreshes on SIGHUP interleave through one
  lock, partly with a `TryLock` that gives up; this is a step system with an invariant over every run.
* **Smaller parts**: collections in two SQL tables refining a map (`CollectionStore`), the log header parser
  (`LogHeader`, `Text`) and the conversion of collection configurations (`CollectionConfig`); `Sequences` and
  `Wrappers` are shared.

`dafny verify dfyconfig.toml` checks everything.

## Assumptions

* Bounds and values are real numbers. The floor of the base-10 logarithm is exact, also at powers of ten:
  were it one too low there, `nextBin` would put the position back on itself and the walk would not end.
* A histogram definition has `start >= 1` and `bins >= 1`. Input buckets are as the Prometheus exposition
  format has them: increasing bounds, cumulative counts, +Inf only at the end. Bounds may be negative.
* A query returns label columns before metric columns, as the documented template has it (the cache keeps a
  reference to the row's label slice, so later label columns would change cached labels), at most
  `maxResults` rows, and no negative counter values (a counter vector panics on a negative increment;
  `IncrementLegalIff` shows that this is exactly the negative samples). `maxResults` is not negative.
* JSON keys of series are injective, so a key is the pair of metric name and label values.
* The store returns each collection under its own name and lists a name at most once. No two collections have
  metrics with the same full name.
* `TryLock` fails only if the lock is held or handed to a waiting writer; read locks are taken only by tests.
* A statement that fails, or a commit that fails, leaves the tables as they were.

## Where the code and its description part

* Translating an input that has no finite bucket is not idempotent when `end > start`; `IdempotentIff` gives
  the exact condition.
* A family that several translators match is translated in place by each in turn; every one after the first sees
  no +Inf bucket and cuts off the end, whatever its definition (`LaterCopiesTruncated`, `UntruncatedIff`).
* The translator can emit one bucket more than it reserves room for; `CapacityExceededIff` says exactly when.
* With several databases each pass sweeps the gauges of the one before, so that only the last database's
  gauges stay exported, unlike the sample in the documentation (`OnlyLastDatabaseExported`).
* The counter cache has room for two passes, and each database is a pass of its own: two databases that return
  `maxResults` rows each are enough to lose a running total (`TwoDatabasesLoseTotal`). None is lost if the rows of
  all databases together are at most `maxResults` (`TotalsNeverLostOverDatabases`).
* A gauge whose value becomes NULL keeps its old value; a label value with "|" can keep an obsolete series
  exported for good (`PassExactly`, `PipeLeavesStaleSeries`, `CollisionStrands`).
* A metric that an update drops stays in the registry, even when its collection is removed (`RegistryExactIff`,
  `LeftoverStays`).
* Deleting a collection while a refresh is on its way to it makes the refresh dereference nil
  (`PanicNeedsChange`, `DeleteWhileListed`); reading names or metrics that breaks off goes unnoticed
  (`GetCollectionNames`, `GetMetrics`): a refresh then drops the jobs that are missing, or builds a collector
  without some metrics, which stays until its collection changes (`UnchangedKeepsJobAlways`).
* If the refresh after a lease acquisition cannot list the store, the callback returns and the flag stays
  set (`FlagIffHeldOrStranded`, `FailedRefreshKeepsFlag`).
* Without a channel, a log line with an "@" in its message is attributed to the wrong source
  (`ParsesWithoutChannelIff`).
* The tables refuse a collection with a repeated metric name, an unknown kind or scope or a null frequency, and
  the in-memory store accepts it (`SameAfterPutIff`, `SameAnswersIff`).

## Model

| member | source | states |
|---|---|---|
| Grid.Decade | internal/translator/bucket.go:40-41 | the exact decade of a value: between two consecutive powers of ten |
| Grid.NextBinIncreases | internal/translator/bucket.go:39-53 | a step always advances and never passes the power of ten that closes the decade |
| Grid.StepCountsDown | internal/translator/bucket.go:39-53 | all steps but the last stay in the decade and use up exactly one of the steps it has left; the last lands on the power of ten |
| Grid.HitsNextPowerOfTen | internal/translator/bucket.go:39-53 | from any value at most `bins` steps lead exactly onto the next power of ten |
| Grid.HitsEveryPowerOfTen | internal/translator/bucket.go:39-53 | every later power of ten is a grid point, reached within `bins` steps per decade, and in exactly that many if and only if the start lies below the first bin's width of its decade |
| Grid.DecadeClosedForm | internal/translator/bucket.go:39-53 | past a power of ten the walk equals a closed form: multiples of the bin width for fewer than ten bins, otherwise offsets from the decade's start cut off at its top |
| Grid.GridClosedForm | internal/translator/bucket.go:39-53 | past the first decade every point of the grid from any start is a point of the closed form of its decade |
| Grid.FirstDecadeForm | internal/translator/bucket.go:39-53 | in the first decade the walk goes from any start in steps of the bin width, cut off at the power of ten, or over multiples of the width from a power of ten with fewer than ten bins |
| Grid.PointsIncrease | internal/translator/bucket.go:39-53 | the grid is strictly increasing |
| Grid.Reach | internal/translator/bucket.go:65-101 | every walk ends: the first grid point at or above a bound, or past the maximum, exists, and all before it lie below both |
| Grid.ReachThrough | internal/translator/bucket.go:79-101 | walking on from bucket to bucket is one walk to the last bucket |
| Rebucketing.InterpolateBetween | internal/translator/bucket.go:90-98 | the unsigned subtraction never underflows; the count lies between its neighbours and equals them at their bounds |
| Rebucketing.InterpolateIsCeiling | internal/translator/bucket.go:91-94 | the count is the straight line between the two buckets, rounded up |
| Rebucketing.CurveMonotone | internal/translator/bucket.go:84-102 | interpolated counts never decrease along the grid, across input buckets |
| Rebucketing.CurveThroughInput | internal/translator/bucket.go:84-102 | the sampled curve passes through the input's own buckets |
| Rebucketing.ContiguousRun | internal/translator/bucket.go:59-103 | the output bounds are one contiguous run of the grid, with the curve's counts and at the end the total |
| Rebucketing.LegalHistogram | internal/translator/translator.go:106-135 | the output of any legal histogram is legal: increasing bounds, cumulative counts, the last bucket carrying the +Inf count |
| Rebucketing.SampleRespectsInput | internal/translator/bucket.go:90-102 | each sampled count is at least that of every input bucket at or below it and at most that of every one at or above it |
| Rebucketing.OutputBoundIff | internal/translator/translator.go:112-133 | exactly which grid points are output bounds, by the numbers of the input: from the first bound on, up to the first point at or past `end`, or past the last finite bound if `end` is not set |
| Rebucketing.OutputReaches | internal/translator/translator.go:114-124 | every grid point from the first bound up to `end`, or to the last finite bound, is an output bound |
| Rebucketing.OutputEnds | internal/translator/bucket.go:64-76 | the last output bound is at or past `end`, or the last finite bound, and no other one is past it |
| Rebucketing.OutputCount | internal/translator/bucket.go:84-102 | each output count is the straight line between the input buckets around it, rounded up, or the total |
| Rebucketing.NothingToTranslate | internal/translator/translator.go:110-133 | no buckets, or a single finite one, give none |
| Rebucketing.Idempotent | internal/translator/translator_test.go:148-165 | translating an output, closed again by +Inf, gives the same buckets, for every input with a finite bucket and with `end` set or derived |
| Rebucketing.IdempotentIff | internal/translator/translator.go:114-135 | translation is idempotent exactly if there is a finite bucket or `end` is not above `start` |
| Rebucketing.SecondMatchTruncates | internal/translator/translator.go:106-135 | translating an output again with the same definition, not closed again, loses exactly its last bucket |
| Rebucketing.OpenHistogramShrinks | internal/translator/bucket.go:78-102 | whatever the definition, translating a histogram without +Inf leaves only bounds strictly below its last one |
| Rebucketing.CapacityBound | internal/translator/translator.go:112-127 | the output has at most one bucket more than the reserved 1 + ceil(log10 max) * bins |
| Rebucketing.CapacityExceededIff | internal/translator/translator.go:112-127 | exactly when one bucket more than reserved is emitted: a closed histogram that begins at or below `start` and has finite buckets beyond `max`, where `max` is a power of ten and `start * bins < 10` (or `max` and `start` are 1) |
| Rebucketing.CapacityExceeded | internal/translator/translator.go:112-127 | an input with one bin per decade for which that happens |
| Translator.Log10Bucket.constructor | internal/translator/bucket.go:30-36 | the walker starts at the first grid point |
| Translator.Log10Bucket.NextBin | internal/translator/bucket.go:39-53 | the position moves to the next grid point |
| Translator.Log10Bucket.AddTotal | internal/translator/bucket.go:64-76 | the +Inf bucket emits every grid point below the maximum and then one closing point, all with the total |
| Translator.Log10Bucket.AddLog10Buckets | internal/translator/bucket.go:59-103 | how far one bucket moves the walk, how many buckets it emits, and the bound and count of each |
| Translator.AdjustedCount | internal/translator/bucket.go:91-94 | the count arithmetic yields the interpolated count and stays unsigned |
| Translator.LargestBound | internal/translator/translator.go:118-124 | the derived maximum is the last finite bound, or zero |
| Translator.Translate | internal/translator/translator.go:110-133 | all loops end and the result is the sampled curve of the whole histogram |
| Translator.MetricFamily.TranslateAll | internal/translator/translator.go:106-135 | every histogram of the family is replaced by its translation, which is legal again |
| CopyPipeline.Writer.Copy | internal/metric/writer.go:103-130 | the output is the text of what the families stand for, in order, or as much of it as could be written, also if a write stops inside a family; nothing if the source cannot be opened or parsed |
| CopyPipeline.Writer.CopyFamily | internal/metric/writer.go:115-128 | a family is written as such, or once by each matching translator in turn, each working on what the one before left |
| CopyPipeline.CopiesPerFamily | internal/metric/writer.go:115-128 | a family that is not a histogram is written once and unchanged, a histogram family once per matching translator |
| CopyPipeline.CopiesInTurn | internal/metric/writer.go:116-121 | exactly what each copy is: what the i-th rule that matches makes of the copy before it |
| CopyPipeline.OutputConcat | internal/metric/writer.go:114-128 | families are written one after the other and independently of each other |
| CopyPipeline.DisjointRulesWriteOnce | internal/translator/translator.go:91-103 | with disjoint patterns a histogram family is written once, translated by the rule that matches, or dropped |
| CopyPipeline.FirstCopyWhole | internal/metric/writer.go:114-121 | the first copy of a closed histogram is its translation by the first rule that matches, and ends with the total |
| CopyPipeline.LaterCopiesTruncated | internal/metric/writer.go:116-121 | for any rules with any definitions, every copy after the first ends strictly below the one before it, so that exactly the first has the closing bucket |
| CopyPipeline.UntruncatedIff | internal/metric/writer.go:116-121 | no copy of a closed histogram is truncated exactly if at most one rule matches its family |
| Lru.StackProperty | internal/collector/collector.go:465-478 | the cache always is the list of all touched keys by recency, cut off at the capacity |
| Lru.ResidentIff | internal/collector/collector.go:465-478 | a key is still cached exactly if fewer than the capacity of other keys were touched since |
| Lru.RecentlyTouchedIsResident | internal/collector/collector.go:465-478 | a key is cached if from some time before its touch on no more than `capacity` different keys were touched |
| Counters.AddKeepsAgree | internal/collector/collector.go:388-413 | a sample keeps cache and exported series equal and within the capacity, and its own series exported |
| Counters.CacheAndExportAgree | internal/collector/collector.go:397-412 | after any samples the exported counter series are exactly the cached keys, no more than a non-zero capacity |
| Counters.CounterValue | internal/collector/collector.go:388-413 | an exported counter equals its last sample plus every sample that immediately preceded a drop since its key was inserted |
| Counters.CounterNeverDecreases | internal/collector/collector.go:396-411 | while its key stays cached an exported counter never decreases |
| Counters.IncrementLegalIff | internal/collector/collector.go:396-411 | an increment is not negative exactly if the sample is not |
| Counters.TwoPassesResident | internal/collector/collector.go:465-468 | with room for the series of two passes, none touched in the current or previous pass is ever evicted |
| Counters.RunningTotalSurvives | internal/collector/collector.go:388-413 | a series of the previous pass keeps its running total through the current one |
| Counters.TotalOverPasses | internal/collector/collector.go:388-413 | over any number of passes that all return a series no sample of it is forgotten: its counter is the last one plus all those before a drop, across all passes |
| Counters.SurvivesIff | internal/collector/collector.go:397-412 | a series is still exported exactly if fewer other series than the capacity were sampled since |
| Counters.CountsOnIff | internal/collector/collector.go:388-413 | the next sample of a series goes on counting exactly if fewer other series than the capacity came between, and otherwise starts the counter anew |
| Gauges.JoinInjective | internal/collector/collector.go:360-361 | without "\|" in the values, different label tuples have different joined ids |
| Gauges.PassExactly | internal/collector/collector.go:442-463 | from any state, exactly which gauge series a pass leaves exported and with which value, also when ids collide or collided before, or values are NULL |
| Gauges.PassSweeps | internal/collector/collector.go:356-383 | without "\|", the series exported after a pass are rows of that pass with their last numeric values, and the next pass can rely on it again |
| Gauges.OnlyLastPassExported | internal/collector/collector.go:442-463 | after any run of passes only rows of the last pass are exported |
| Gauges.PipeLeavesStaleSeries | internal/collector/collector.go:360-361 | two label tuples with one id, for which the sweep leaves an obsolete series |
| Gauges.StaleStays | internal/collector/collector.go:442-463 | a series that is exported and no longer tracked stays exported, with its value, through any passes until a row has its own labels |
| Gauges.CollisionStrands | internal/collector/collector.go:360-361 | once a pass has a row with the id of an exported series but none of its own, no number of passes without its own labels removes it |
| ResultSets.LabelMap | internal/collector/collector.go:119-122 | a label's slot holds that label |
| ResultSets.LabelMapInverseIff | internal/collector/collector.go:119-122 | slots invert the label list exactly if no label is repeated |
| ResultSets.LabelsSettled | internal/collector/collector.go:325-343 | with labels first, the label values of a row are final once a metric column is reached |
| ResultSets.PassCellsHaveTuples | internal/collector/collector.go:319-361 | every gauge cell of a pass carries the label tuple of one of its rows |
| ResultSets.TupleEndsWithDatabase | internal/collector/collector.go:325-328 | with a database label, every tuple ends with the database it was read from |
| ResultSets.TupleIff | internal/collector/collector.go:325-336 | the label tuple of a row is the one with the text of each label column in the slot of that label, and the database at the end |
| ResultSets.RowLabelValues | internal/collector/collector.go:331-333 | the text in the column of a label is in its slot, for every sample and gauge of the row |
| ResultSets.RowSampleIff | internal/collector/collector.go:337-355 | a row has a sample exactly for each number in a counter column, under the column's name and with that number |
| ResultSets.RowCellIff | internal/collector/collector.go:356-377 | a row has a gauge cell exactly for each gauge column, with its number if it has one |
| ResultSets.PassSampleIff | internal/collector/collector.go:319-324 | a pass has exactly the samples of the rows that could be decoded |
| ResultSets.InOrder | internal/collector/collector.go:319-329 | rows and columns count in order |
| ResultSets.PassSeriesBound | internal/collector/collector.go:319-355 | a pass has at most one series per counter and row, whatever columns or rows are repeated |
| Collector.Collector.FromCollection | internal/collector/collector.go:118-151 | label map, kinds and limits are those of the definition, the counters are counted, and nothing is cached or exported yet |
| Collector.LastKindCounts | internal/collector/collector.go:137-151 | the metrics are those of the definition, and of several with one name the last one's kind counts |
| Collector.Collector.MaybeInitCache | internal/collector/collector.go:465-478 | the cache is made once, with room for two full passes |
| Collector.Collector.CacheGet | internal/collector/collector.go:397 | a hit returns the last sample and makes the key the most recent |
| Collector.Collector.CacheAdd | internal/collector/collector.go:412 | a new key evicts the oldest when the cache is full, and the hook deletes its series |
| Collector.Collector.CounterAdd | internal/collector/collector.go:388-413 | one sample has exactly the effect whose whole runs the counter laws describe |
| Collector.Collector.ClearObsoleteGauges | internal/collector/collector.go:442-463 | exactly the tracked series without a current id are deleted, whatever the iteration order |
| Collector.Collector.CollectColumn | internal/collector/collector.go:329-381 | a column sets a label, adds a sample or sets and tracks a gauge, by its name and the type of its value |
| Collector.Collector.CollectRow | internal/collector/collector.go:325-381 | a row has the effect of its columns in order |
| Collector.Collector.CollectRows | internal/collector/collector.go:319-382 | the rows have their effect in order and those that cannot be decoded have none |
| Collector.Collector.CollectLocked | internal/collector/collector.go:290-385 | a pass adds the samples of its rows and sweeps the gauges; with mismatched columns it changes nothing |
| Collector.Collector.CollectEach | internal/collector/collector.go:240-244 | databases are collected in order exactly up to the first answer that cannot be counted, or up to one that is not committed, and what was collected until then stays |
| Collector.Collector.Collect | internal/collector/collector.go:205-246 | a run is skipped while the previous one is busy, fails if the databases cannot be read, and otherwise collects all databases up to the first failure, or just the current one |
| Collector.FirstFailureUnique | internal/collector/collector.go:240-244 | the answers alone decide how many databases are collected and whether the run succeeds |
| CollectorLaws.TotalsSurvivePasses | internal/collector/collector.go:465-468 | with the capacity that the collector chooses and at most `maxResults` rows, every series of a pass keeps its total through the next pass |
| CollectorLaws.TotalsNeverLost | internal/collector/collector.go:465-478 | with the collector's capacity and at most `maxResults` rows, a series that every pass returns counts all of its samples, over any number of passes |
| CollectorLaws.TotalsNeverLostOverDatabases | internal/collector/collector.go:240-244 | the same over any number of runs over several databases, if the rows of one run over all of them are at most `maxResults` |
| CollectorLaws.TwoDatabasesLoseTotal | internal/collector/collector.go:465-478 | without that bound two databases suffice for a counter to fall, though each returns at most `maxResults` rows and the series comes with every pass over its own |
| CollectorLaws.GaugesAreRows | internal/collector/collector.go:318-383 | after a pass every exported gauge is the label tuple of one of its rows, with its last numeric value |
| CollectorLaws.OnlyLastDatabaseExported | internal/collector/collector.go:240-244 | after collecting several databases every exported gauge carries the last one |
| CollectorLaws.GaugeShowsLastRow | internal/collector/collector.go:356-377 | a gauge shows the number in the last row that has one for its labels |
| CollectorLaws.CounterShowsLastRow | internal/collector/collector.go:388-413 | a counter is the number in the last row that has one for its labels, plus the samples before a drop |
| CollectorLaws.RunSampleIff | internal/collector/collector.go:240-244 | the samples of a run are those of the rows of its databases, each under its own database, in order |
| JobTable.RefreshReconciles | internal/collector/server.go:262-326 | without build failures the scheduled names are exactly the loaded, enabled and allowed ones and none is older than the store; if all jobs ran before, the scheduler runs exactly theirs |
| JobTable.RefreshLeavesNoOrphans | internal/collector/server.go:237-246 | whatever fails, every running job belongs to exactly one entry |
| JobTable.RefreshStable | internal/collector/server.go:270-286 | a second refresh with the same store and flag changes no job and no collector |
| JobTable.UnchangedKeepsJob | internal/collector/server.go:270-324 | a collection that a whole refresh keeps and that has not changed keeps its job and collector, running, whatever happens to others |
| JobTable.UnchangedKeepsJobAlways | internal/collector/server.go:262-326 | over any number of refreshes with any failures, a collector and its counter cache live as long as its collection is kept and unchanged |
| JobTable.RefreshEntry | internal/collector/server.go:282-322 | everything a refresh does to the entry of a collection that may run here, with any failures: kept if as new, else replaced by a new collector with the time and metrics of what was loaded, or left without its job |
| JobTable.RefreshDrops | internal/collector/server.go:276-280 | a collection that is not listed, not loaded, disabled, or cluster-wide without the lease has no entry after a refresh |
| JobTable.UpdatePickedUp | internal/collector/server.go:282-322 | a refresh that loads a later version than the one before leaves a new collector with the time and metrics of that version |
| JobTable.FailedBuildRegistry | internal/collector/collector.go:153-178 | what is in the registry after a build that failed at some metric |
| JobTable.DeadNeedsOwnFailure | internal/collector/server.go:287-322 | an entry loses its running job only if its own collection could not be built or scheduled |
| JobTable.RunsIff | internal/collector/server.go:282-322 | after a refresh that can build it, a kept collection's job runs exactly if it ran before or a newer version was loaded |
| JobTable.LiveStaysRegistered | internal/collector/collector.go:155-178 | without build failures every metric of every collector in the map stays registered |
| JobTable.LeftoverStays | internal/collector/server.go:287-291 | a registered metric that no collector has any more stays registered, even if its collection is removed, exactly until an update brings it back |
| JobTable.RegistryExactIff | internal/collector/server.go:237-246 | the registry remains the union of the live collectors exactly if no updated collection drops a metric |
| CollectorServer.Server.constructor | internal/collector/server.go:128-138 | a new server has no jobs and does not hold the lease |
| CollectorServer.Server.LockedCleanupJobs | internal/collector/server.go:237-246 | exactly the jobs that are not to be kept are removed, from the map and from the scheduler, and their metrics unregistered |
| CollectorServer.Server.Unregister | internal/collector/collector.go:262-269 | the metrics of the collector leave the registry and no others |
| CollectorServer.Server.FromCollection | internal/collector/collector.go:137-178 | the registry after all metrics were registered, or after the first one that could not be |
| CollectorServer.Server.LockedVisit | internal/collector/server.go:270-322 | what one listed collection does to map, scheduler and registry, with each failure |
| CollectorServer.Server.LockedRefresh | internal/collector/server.go:262-326 | the whole refresh: nothing changes if the names cannot be listed, and it panics without the cleanup exactly if a listed collection is gone; no orphan job is left in any case |
| CollectorServer.FailedRefreshKeepsJobs | internal/collector/server.go:265-269 | a refresh that cannot list changes nothing, and one that panics removes no entry |
| CollectorServer.PanicKeepsVisits | internal/collector/server.go:270-324 | what was visited before a panic is done as in a refresh that finishes |
| CollectorServer.Server.MaybeRefresh | internal/collector/server.go:150-157 | a refresh is skipped exactly if the lock is held |
| CollectorServer.Server.LeaseTurn | internal/collector/server.go:183-196 | the refresh of a turn goes by the new flag; after a loss every job left is of a collection that is not cluster-wide |
| LeaseProtocol.ReachableInv | internal/collector/server.go:183-202 | the invariant of lock, flag, callback, jobs and refresh in progress holds in every reachable state |
| LeaseProtocol.FinishIsRefresh | internal/collector/server.go:150-157 | however its steps interleave with other threads, a finished refresh has done what the sequential one does |
| LeaseProtocol.SkippedRefreshesAreSafe | internal/collector/server.go:150-157 | once the callback has set the flag and run or skipped its refresh and the lock is free and not being handed to the refresh that it skipped for, the last refresh began after the flag was set and the jobs are what the flag allows |
| LeaseProtocol.HandedIsQueued | internal/collector/server.go:150-157 | that refresh is pending only while it waits for the lock |
| LeaseProtocol.LeaseDecidesClusterJobs | internal/collector/server.go:183-202 | on every run without failures a disabled collection is never scheduled and an enabled one that is not cluster-wide always; no cluster-wide job after a loss and every enabled one after an acquisition; and exactly the scheduled jobs run |
| LeaseProtocol.JobsAreTheStore | internal/collector/server.go:262-326 | if the store has not changed since, the jobs are exactly its enabled collections, cluster-wide ones if and only if the lease is held, and exactly they run |
| LeaseProtocol.JobsAreCurrent | internal/collector/server.go:282-286 | if changes of the store carry their time, the jobs then are exactly as new as the store |
| LeaseProtocol.JobsRun | internal/collector/server.go:262-326 | on every run without failures the scheduler runs exactly the jobs of the map, at any time |
| LeaseProtocol.NoOrphansEver | internal/collector/server.go:262-326 | in every reachable state, with any failures, no running job is without its entry |
| LeaseProtocol.CallbackGoesOn | internal/collector/server.go:183-202 | in every reachable state the callback can go on, unless it waits for the lock or has stopped |
| LeaseProtocol.RefreshGoesOn | internal/collector/server.go:142-157 | a refresh can start as soon as the lock is free, and list the names or fail to |
| LeaseProtocol.VisitsGoOn | internal/collector/server.go:270-326 | once it has listed, a refresh can go on whatever it finds, until it gives the lock back |
| LeaseProtocol.FlagIffHeldOrStranded | internal/collector/server.go:184-196 | whatever fails and at any time, the flag is set exactly from the moment the callback sets it after an acquisition to the moment it clears it after a loss, or if it left on a failed first refresh |
| LeaseProtocol.FailedRefreshKeepsFlag | internal/collector/server.go:186-189 | a run on which the callback has returned and the flag is still set |
| LeaseProtocol.PanicNeedsChange | internal/collector/server.go:270-276 | a refresh loads a collection that is gone only if the store was changed after it listed the names |
| LeaseProtocol.DeleteWhileListed | internal/collector/server.go:270-276 | a run on which that happens |
| CollectionStore.TableStore.PutCollection | internal/store/collection.go:176-204 | a put succeeds only if every statement does, which excludes repeated metric names, unknown kinds and scopes and a null frequency, and a failure at any statement leaves both tables unchanged |
| CollectionStore.TableStore.DeleteCollection | internal/store/collection.go:93-113 | a delete removes both kinds of rows or neither |
| CollectionStore.TableStore.GetMetrics | internal/store/collection.go:156-172 | the metrics of a collection, each once, in any order; an error if the query or a scan fails, and only a part without an error if reading breaks off |
| CollectionStore.TableStore.GetCollection | internal/store/collection.go:135-153 | the stored collection with its time of change, nothing if it is not there, or an error, and when it is which; the answer that the runs of both stores are compared by |
| CollectionStore.TableStore.GetCollectionNames | internal/store/collection.go:116-132 | all names, each once, or an error, or only a part of them without an error if reading breaks off |
| CollectionStore.FaultEffect | internal/store/collection.go:116-172 | what each kind of fault does to reading rows: an error, or fewer rows without one |
| CollectionStore.MemoryStore.PutCollection | internal/store/memory.go:234-240 | a put replaces the entry, or changes nothing when an error is injected |
| CollectionStore.MemoryStore.DeleteCollection | internal/store/memory.go:49-55 | a delete removes the entry, or changes nothing when an error is injected |
| CollectionStore.MemoryStore.GetCollection | internal/store/memory.go:90-99 | the entry, nothing if there is none, or the injected error |
| CollectionStore.PutRefines | internal/store/collection.go:176-204 | a put works exactly on collections with distinct metric names, known kinds and scope and a frequency, and then is an update of the map |
| CollectionStore.StorableIff | internal/store/sql/ddl.sql:27-49 | written out: scope "node" or "cluster", a frequency, kinds "gauge" or "counter", distinct names |
| CollectionStore.DeleteRefines | internal/store/collection.go:93-113 | a delete is a removal from the map |
| CollectionStore.TablesRefineMemory | internal/store/memory.go:49-55 | after any calls with such collections, failed calls included, tables and map hold the same and no metric row lacks its collection |
| CollectionStore.SameAnswersIff | internal/store/memory.go:90-99 | every put, delete and get of a sequence has the same answer in both stores exactly if all puts that no outside error strikes are of such collections |
| CollectionStore.SameAfterPutIff | internal/store/sql/ddl.sql:29-49 | after one put the stores hold the same exactly if its collection has distinct metric names, known kinds and scope and a frequency |
| LogHeader.EventCounter.Parse | internal/scanner/crdbv2.go:30-47 | a line with a header that matches is counted once, under its level and source, and any other line is ignored |
| LogHeader.HeaderIff | internal/scanner/crdbv2.go:22 | a line has a header exactly if it begins with F, E, I or W, six digits and a space |
| LogHeader.HeaderOfLine | internal/scanner/crdbv2.go:30-46 | of a line in the documented format the level is found, and the source is looked for in all that follows the goroutine |
| LogHeader.ParsesWithChannel | internal/scanner/crdbv2.go:36-45 | with a channel, level and file are returned |
| LogHeader.ParsesWithoutChannelIff | internal/scanner/crdbv2.go:36-45 | without one, the file is returned exactly if it has no "@" and the rest has none or reads as the same file after it |
| LogHeader.ShortHeader | internal/scanner/crdbv2.go:35-36 | a header that ends after the time is counted without a source |
| LogHeader.ShortHeaderWithGoroutine | internal/scanner/crdbv2.go:35-36 | and so is one that ends after the goroutine |
| LogHeader.SourceWithoutNumber | internal/scanner/crdbv2.go:37-44 | a source without a line number is taken whole |
| CollectionConfig.Marshal | internal/cmd/collection/yaml.go:48-70 | the record of a collection, with whole seconds |
| CollectionConfig.Unmarshal | internal/cmd/collection/yaml.go:72-130 | which records are accepted, which error the others get, and the collection that an accepted one means |
| CollectionConfig.VerdictIff | internal/cmd/collection/yaml.go:82-116 | which error a record gets: the first of its faults, in the order invalid kind, repeated label, invalid scope, no query, no name |
| CollectionConfig.ScopeMeaning | internal/cmd/collection/yaml.go:45 | a record without a scope is of a node collection; "node" and "cluster" are read in any case |
| CollectionConfig.RecordRoundTrip | internal/cmd/collection/yaml.go:72-130 | what an accepted record means is written as the same record, but for the case of kinds and scope |
| CollectionConfig.MarshalTruncates | internal/cmd/collection/yaml.go:58-60 | a part of a second is cut off, towards zero |
| CollectionConfig.RoundTripIff | internal/cmd/collection/yaml.go:48-130 | writing and reading gives the same configuration exactly for valid collections whose interval is a whole number of seconds, without days and months |
| CollectionConfig.AcceptedLabelsHaveSlots | internal/collector/collector.go:118-135 | for every accepted record label columns and slots correspond one to one |

## Left out

- Rounding of floating-point logarithms, powers and divisions, NaN and infinite values, and 64-bit overflow of counts.
- Histograms that are not cumulative: the unsigned subtraction would wrap around.
- Histogram definitions with `start < 1` or `bins < 1`, which nothing validates.
- Collector.Collector.CollectLocked: requires label columns before metric columns; otherwise the cache and the tracked gauges would hold label values of a later state of the row, through a shared slice.
- Collector.Collector.CollectEach: requires the same of every database's rows.
- Collector.Collector.FromCollection: does not model registration of the vectors; `CollectorServer.Server.FromCollection` does, by metric name.
- CollectorLaws.TotalsNeverLost: every pass has to return the series; for several databases, where only some passes do, see `CollectorLaws.TotalsNeverLostOverDatabases` and its bound.
- Collector.Collector.Collect: requires the same column order; the lock is modelled by its effect, that a busy collector skips.
- The lease library, the scheduler and the registry's consistency checks are taken by their effect; mutual exclusion between nodes is not claimed.
- The in-memory store's pointers: it keeps and returns the caller's own collection, so a later change of it shows.
- CollectionStore.TableStore.GetCollection: does not model a put that overlaps its two queries.
- Regular expressions, YAML text, JSON log lines, the HTTP server, TLS, connection pools, commands and node registration.
- The scanner server, histogram and scan storage and their configuration: the same shapes as the collection's, and easier.
