# A verified model of the Percona XtraDB Cluster operator's protocols

This project models, in Dafny, the parts of the operator whose correctness depends on the order of
steps, on crashes between them, or on arithmetic and string handling that is easy to get wrong:

- the point-in-time recovery pipeline: the binlog collector, its GTID cache, and the recoverer;
- the restore state machine and the mutual exclusion of restores;
- the lease that keeps backups apart, and the bounded pool of deletion workers;
- the smart update, dual-password rotation, and the handshake between reconcile and version job;
- retention by heap, backup destinations, convergence of replication channels, and autotuning.

`dafny verify dfyconfig.toml` checks everything.

## How the model is built

Every Kubernetes API call, object-storage write and SQL statement is one atomic step. What the API
server, the database or the network answers is left open: it is a parameter of code that runs in
sequence, and a choice of the next step where several parties interleave; the theorems are for every
answer and every choice. Reads are fresh, and reconciles of one object are serial, as controller-runtime
makes them.

Code that works in sequence is imperative here too: `Collector.Process`, `GtidCache.Process`,
`Recoverer.Process`, `RestoreMachine.Restore`, `SmartUpdate.Rollout`, `Retention.MinHeap`,
`Replication.Channel`, `Destination.Field`, and methods with loops for the rest. Protocols whose
point is the interleaving of several parties (`BackupLease`, `RestoreExclusion`, `DualPassword` with
`RotationOutcomes`, `FinalizerPool`, `VersionJob`) are transition functions over an explicit state;
a run is any sequence of steps, a step that is not enabled changes nothing, and the main theorems
are about every run. Where a promise fails in general, the harmful step is singled out: without it
the promise is proved over every run, and with it a run that breaks the promise is proved to follow.

A GTID set is a set of naturals, that is, the transactions of one source. MySQL's GTID functions
(section 14.18.2 of the MySQL 8.0 manual) are then set operations. A binlog object's name contains
an MD5 digest of its GTID set; the model puts the set itself there, so MD5 is taken to be collision
free. Storage lists objects in the order of their names; by timestamp and number that is the order of
the keys (`PitrNames.PrintedInKeyOrder`).

## What was found in the code

The model follows the code. In these places the code does less than its comments, names or
documentation suggest. Each names the lemma that shows it; where a promise fails, an input is given
and the exact condition under which it holds is proved beside it:

- The collector's marker can move backwards when a host cut its binlogs differently. Coverage still
  holds, but overlapping stored binlogs make latest recovery miss stored transactions
  (`PitrPipeline.LatestLosesStored`) and transaction recovery replay past its target
  (`PitrPipeline.TransactionOvershoots`); `RecoveryExactness.LatestCompleteExactlyWhen` and
  `RecoveryExactness.OvershootsExactlyWhen` say when, for any storage.
- Binlogs uploaded by a run that died before the first marker are forgotten without a gap being
  flagged (`CollectorCoverage.CrashBeforeFirstMarkerIsForgotten`,
  `CollectorCoverage.FirstMarkerCoveredExactlyWhen`).
- Recovery to a date loses transactions from before it that follow, in their binlog, one from at or
  after it (`DateRecovery.InversionLosesTransaction`, `DateRecovery.RecoverToDate`).
- The cached branch of addGTIDSets does not look at errors other than 3200 and caches an empty set
  for good (`GtidCache.SwallowedErrorStays`, `GtidCache.StepFaithfulExactlyWhen`).
- updateJobStatus sets the local backup state before calls that can fail, so the deferred release can
  free the lease of a backup that is still stored as Running (`BackupLease.LostSuccessIsReleased`,
  `BackupLease.ReleaseBreaksExactlyWhen`). A crash between the final status and the release, or a
  failure before the release is deferred, leaves the lease with a finished backup until that is deleted
  (`BackupLease.HolderCanLeak`, `BackupLease.HandedOnExactlyWhen`).
- A restore created while another one runs can bring the running one down with itself
  (`RestoreExclusion.BothCanFail`); whichever is to go on must find the other finished
  (`RestoreExclusion.SurvivorOutlivesRivals`). Deleting a restore during its reconcile lets another
  one act beside it (`RestoreExclusion.DeletionBreaksExactlyWhen`).
- A restore leaves PITR's unsafe flags behind when the cluster already had PITR's sizes, and unpauses
  a cluster that was paused, with the sizes of a paused cluster (`RestoreMachine.PutBackExactlyWhen`).
- A password rotation that stops between ALTER USER and the patch of the internal secret alters again
  and loses the old password (`DualPassword.InterruptionLosesLogin`). If it is the operator's own, the
  operator is locked out for good (`RotationOutcomes.OperatorLocksItselfOut`,
  `RotationOutcomes.LockedOutForGood`). A second change of the target before all pods have followed the
  first can lose a password that a pod still has mounted (`DualPassword.RetargetLosesMount`,
  `RotationOutcomes.RetargetLosesExactlyWhen`). Set back to the old password after such a stop, the handler
  discards the old password and finds nothing more to do, while MySQL has the new one
  (`RotationOutcomes.GoingBackDiverges`, `RotationOutcomes.FinishesExactlyWhen`).
- isSourcesChanged never settles when two sources share a host, so every pass restarts replication
  (`Replication.TwoPasses`, `Replication.ConvergesExactlyWhen`); maxWeight is never updated, so the last
  source with a positive weight is chosen (`Replication.ChosenIsHeaviestExactlyWhen`).
- A bucket path with a trailing slash puts a slash into the backup name
  (`Destination.TrailingSlashEntersName`, `Destination.NameReadsBackExactlyWhen`).
- Above 1 GiB the autotuned chunk gets a MiB more even when it is already a whole number of MiB
  (`Autotune.TunePool`); the error text says 12Mi, while the bound in the code is 12582880 bytes,
  slightly less.

## Model

| member | source | states |
|---|---|---|
| `CollectorCoverage.CoverageOverRuns` | cmd/pitr/collector/collector.go:504-658 | over any runs against any hosts, each dying at any storage write, every transaction from the start of the unbroken stretch to the end of the stored marker is in a stored binlog that also has its gtid-set object |
| `CollectorCoverage.FirstMarkerCoveredExactlyWhen` | cmd/pitr/collector/collector.go:504-658 | up to and including the run that writes the first marker, everything from the first transaction ever uploaded is covered exactly when whatever that run's host no longer has was in the binlog at which an earlier run died after exactly two writes |
| `CollectorCoverage.CoveredOnwards` | cmd/pitr/collector/collector.go:504-658 | once that is so it stays covered, or a gap is flagged, whatever runs follow |
| `CollectorCoverage.CoveredFromFirstUpload` | cmd/pitr/collector/collector.go:504-658 | for any sequence of runs it is enough that the first run that uploads survives to its first marker |
| `CollectorCoverage.CoverageStep` | cmd/pitr/collector/collector.go:562-658 | one run, from any covered bucket, keeps the coverage |
| `CollectorCoverage.NoSilentGap` | cmd/pitr/collector/collector.go:601-610 | once a marker exists the stretch keeps its start in every run unless a gap is flagged |
| `CollectorCoverage.CompleteRunReachesEnd` | cmd/pitr/collector/collector.go:612-658 | a run that survives leaves the marker at the host's newest transaction, with everything covered up to it |
| `CollectorCoverage.ResumeWithinMarker` | cmd/pitr/collector/collector.go:562-610 | the resume point found by comparing GTID sets never lies beyond the end of the marker |
| `CollectorCoverage.CrashBeforeFirstMarkerIsForgotten` | cmd/pitr/collector/collector.go:752-784 | a concrete pair of runs after which a stored binlog and a hole follow without a flagged gap |
| `Collector.Process.CollectBinLogs` | cmd/pitr/collector/collector.go:504-658 | the bucket after a run, for any list and any number of writes survived, is the one Collect specifies; a matched binlog that cannot be read again ends the run before its first write |
| `Collector.Process.FindLastUploaded` | cmd/pitr/collector/collector.go:565-603 | the name found is that of the newest binlog nested with the marker, or none |
| `Collector.NewestNested` | cmd/pitr/collector/collector.go:565-603 | its result is nested with the marker and nothing newer is |
| `Collector.Process.FilterBinLogs` | cmd/pitr/collector/collector.go:329-357 | the non-empty binlogs from the matched one on, without it exactly when its set equals the marker; fails exactly when the matched one cannot be read again |
| `Collector.Process.RemoveEmptyBinlogs` | cmd/pitr/collector/collector.go:319-327 | the loop gives the non-empty binlogs in order |
| `Collector.Process.ManageBinlog` | cmd/pitr/collector/collector.go:752-784 | binlog, then gtid-set, then marker, with the state left by a crash before each write |
| `Collector.Process.HasTransactions` | cmd/pitr/collector/collector.go:526-537 | true exactly when some listed binlog has transactions |
| `Collector.UploadSkipsEmpty` | cmd/pitr/collector/collector.go:642-658 | filtering empty binlogs first or skipping them while uploading gives the same bucket |
| `GtidCache.StepFaithfulExactlyWhen` | cmd/pitr/collector/collector.go:440-502 | from a cache faithful to the files that exist one operation (a run, an invalidation, a new binlog, a purged one, binlogs that start over) leaves it faithful exactly when it swallows and saves no failing read of an uncached, non-empty binlog and changes no file under a cached name |
| `GtidCache.HistoryFaithful` | cmd/pitr/collector/cache.go:26-33 | over every history of runs, invalidations and binlogs added and purged at any time, with reads that succeed or report 3200 and hosts invalidated before they start over, every cached entry of a file that exists equals the database value |
| `GtidCache.EveryRunAssignsDirect` | cmd/pitr/collector/collector.go:440-472 | after every such history the cached branch assigns, for every listed file that exists, what a direct read gives |
| `GtidCache.AssignsDirectExactlyWhen` | cmd/pitr/collector/collector.go:440-472 | one run assigns direct reads exactly when it swallows no failing read of an uncached, non-empty binlog and lists no file that was purged after it was cached |
| `GtidCache.StaysFaithfulExactlyWhen` | cmd/pitr/collector/collector.go:446-472 | its saved cache stays faithful exactly when it swallows no such read |
| `GtidCache.RunRemembers` | cmd/pitr/collector/collector.go:440-502 | after a successful run every listed binlog is cached, except files that report 3200 |
| `GtidCache.SwallowedErrorStays` | cmd/pitr/collector/collector.go:452-460 | for any host, files and non-empty set, a history that begins with one empty file and after which the other is cached as empty while the server has the set, and stays so through every later history that does not invalidate the host |
| `GtidCache.EntriesStay` | cmd/pitr/collector/cache.go:71-91 | a cached set changes under no operation but an invalidation of its host |
| `GtidCache.Process.AddGTIDSets` | cmd/pitr/collector/collector.go:440-502 | success, saved cache and every assigned set, for both branches, failing reads and a failing save |
| `GtidCache.Process.Invalidate` | cmd/pitr/collector/cache.go:71-91 | exactly the host's entry goes, an error when there is none |
| `RecoveryExactness.TransactionRecoveryIsExact` | cmd/pitr/recoverer/recoverer.go:413-498 | backup plus replayed binlogs minus the exclude set is exactly transactions 1 to max(s, t - 1) |
| `RecoveryExactness.LatestOverChain` | cmd/pitr/recoverer/recoverer.go:413-472 | over contiguous storage latest and skip recovery leave everything up to the last stored transaction, but for a skipped one beyond the backup |
| `RecoveryExactness.LatestCompleteExactlyWhen` | cmd/pitr/recoverer/recoverer.go:413-472 | for any storage latest and skip recovery bring back everything stored exactly when no binlog older than the newest overlap holds a transaction, beyond the backup and not skipped, that the later ones lack |
| `RecoveryExactness.LatestCompleteWithoutHoles` | cmd/pitr/recoverer/recoverer.go:413-472 | where the binlogs from the newest overlap on leave no hole, that is exactly when no older binlog ends after them all |
| `RecoveryExactness.LatestIsComplete` | cmd/pitr/recoverer/recoverer.go:413-472 | so nothing is lost when binlogs listed later never end earlier |
| `DateRecovery.RecoverToDate` | cmd/pitr/recoverer/recoverer.go:297-381 | choosing, printing, breaking at the first binlog that begins later and stopping in each binlog at its first transaction from at or after the time never bring back anything from then on, and leave every stored transaction from before it, whatever storage and clock, exactly when no such transaction beyond the backup is missing from the binlogs chosen or held up in every one of them |
| `DateRecovery.ChainLosesExactlyWhen` | cmd/pitr/recoverer/recoverer.go:332-364 | over contiguous storage that is exactly when none is held up: in a binlog that begins after the time, or behind a transaction of its own binlog from at or after it |
| `DateRecovery.InOrderLosesExactlyWhen` | cmd/pitr/recoverer/recoverer.go:413-472 | where no transaction is older than its binlog's first timestamp and none from before the time follows one from at or after it, only what older binlogs alone hold is lost |
| `DateRecovery.InversionLosesTransaction` | cmd/pitr/recoverer/recoverer.go:273-281 | a family of binlogs whose clock runs back over the time, and a transaction lost from each |
| `DateRecovery.BreakLosesNothing` | cmd/pitr/recoverer/recoverer.go:332-348 | where no transaction is older than its binlog's first timestamp, the early break loses none from before the time |
| `RecoveryExactness.SuffixFromNewestOverlap` | cmd/pitr/recoverer/recoverer.go:433-462 | the list chosen without a target is the suffix from the newest binlog overlapping the backup |
| `RecoveryExactness.OvershootsExactlyWhen` | cmd/pitr/recoverer/recoverer.go:446-462 | on any one-interval objects the replay passes the target exactly when, of the binlogs from the newest overlap to the newest holder of the target, one ends later than the oldest holder |
| `RecoveryExactness.MissingTargetIsRefused` | cmd/pitr/recoverer/recoverer.go:446-472 | a target that is not stored selects nothing |
| `RecoveryExactness.SelectionByIndices` | cmd/pitr/recoverer/recoverer.go:433-462 | for any storage, the binlogs selected are those from the newest overlap at or below the newest holder of the target up to that holder, and the exclude set comes from the oldest of them that holds it |
| `Recoverer.Process.SetBinlogs` | cmd/pitr/recoverer/recoverer.go:413-472 | the loop over the reversed listing chooses what the recursive selection specifies, and fails exactly when that is empty |
| `Recoverer.Process.Walk` | cmd/pitr/recoverer/recoverer.go:427-462 | what the loop has found and what is left make up the selection |
| `Recoverer.Reverse` | cmd/pitr/recoverer/recoverer.go:500-505 | the array is reversed in place |
| `Recoverer.Extend` | cmd/pitr/recoverer/recoverer.go:474-498 | of a one-interval set, the exclude span is exactly the target and everything after it |
| `PitrPipeline.LatestLosesStored` | cmd/pitr/recoverer/recoverer.go:457-462 | for a whole family of collector runs without a gap, however the bucket is listed in key order, latest recovery stops short of stored transactions |
| `PitrPipeline.TransactionOvershoots` | cmd/pitr/recoverer/recoverer.go:446-462 | for a whole family of collector runs without a gap, however the bucket is listed in key order, recovery to t also replays q to r - 1 |
| `PitrPipeline.ListedInKeyOrder` | cmd/pitr/recoverer/recoverer.go:413-418 | a bucket whose keys are all ordered by timestamp and number has one listing, in that order |
| `PitrEndToEnd.PipelineIsExact` | cmd/pitr/recoverer/recoverer.go:413-498 | collector and recoverer together: when hosts cut alike, the first uploader survives to its marker and no gap was flagged, recovery from whatever runs left is exact |
| `PitrEndToEnd.RecoverBucketToDate` | cmd/pitr/recoverer/recoverer.go:297-381 | for the same runs and any clock, recovery to a date brings back nothing from then on, and everything stored from before it exactly when no such transaction beyond the backup is held up |
| `PitrEndToEnd.RunsLeaveStretch` | cmd/pitr/collector/collector.go:504-658 | such runs, dying anywhere, leave the sets of one stretch of binlogs from the first upload on |
| `PitrNames.TimestampRoundTrip` | cmd/pitr/collector/collector.go:691-691 | the recoverer parses back the first timestamp the collector printed into the object name |
| `PitrNames.PrintedInKeyOrder` | cmd/pitr/collector/collector.go:691-691 | printed names sort by timestamp and number, as long as these have equal lengths |
| `PitrNames.EarlyBreakIsFilter` | cmd/pitr/recoverer/recoverer.go:332-348 | on a list sorted by timestamp the early break replays exactly the binlogs that begin by the recovery time |
| `PitrNames.Replay` | cmd/pitr/recoverer/recoverer.go:332-364 | what the replay loop applies, where it breaks, and that it fails only at a failing object or an unreadable timestamp |
| `PitrNames.ExtendTextDenotes` | cmd/pitr/recoverer/recoverer.go:474-498 | the text built for a one-interval set denotes the span Extend gives |
| `PitrNames.RangeRoundTrip` | cmd/pitr/recoverer/recoverer.go:474-498 | a printed GTID range reads back as its span |
| `PitrNames.AdmittedExactlyWhen` | cmd/pitr/recoverer/recoverer.go:170-194 | which transaction targets a recovery accepts |
| `RestoreMachine.Restore.Run` | pkg/controller/pxcrestore/controller.go:90-189 | any number of reconciles: the rank never falls, terminal states are final, every logged answer was given, and Succeeded means answers, in order, that validation passed, the cluster is down, the restore job completed and then the PITR or prepare job did, with the final spec stored |
| `RestoreMachine.Restore.RunWell` | pkg/controller/pxcrestore/controller.go:90-189 | for a running, safe cluster seven reconciles in which all goes well reach Succeeded |
| `RestoreMachine.Restore.Reconcile` | pkg/controller/pxcrestore/controller.go:109-189 | every stored state change strictly raises the rank, even when status writes are lost; at most one, truthful, answer is logged; a good reconcile brings Succeeded nearer and a failed job that is waited for gives Failed |
| `RestoreMachine.PutBackExactlyWhen` | pkg/controller/pxcrestore/controller.go:198-225 | the final spec is the original one exactly when the cluster was not paused and PITR did not run or left a trace in its sizes; pause and sizes come back for every running cluster of size at least 1 |
| `RestoreMachine.Restore.ReconcileStateNew` | pkg/controller/pxcrestore/controller.go:264-311 | leaves Starting for StopCluster only when validation answered that it passed, with sizes and flags saved |
| `RestoreMachine.Restore.ReconcileStateStopCluster` | pkg/controller/pxcrestore/controller.go:440-464 | enters Restoring only when the shutdown answered that it is complete |
| `RestoreMachine.Restore.PauseClusterWithWait` | pkg/k8s/cluster.go:87-143 | patches pause and nothing else, and reports down exactly when patch and wait succeeded |
| `RestoreMachine.Restore.ReconcileStateRestore` | pkg/controller/pxcrestore/controller.go:313-403 | goes on only when the restore job was seen completed, and fails when it was seen failed |
| `RestoreMachine.Restore.ReconcileStateJob` | pkg/controller/pxcrestore/controller.go:405-438 | StartCluster only when the PITR (or prepare) job was seen completed, Failed when it was seen failed |
| `RestoreMachine.Restore.ReconcileStateStartCluster` | pkg/controller/pxcrestore/controller.go:191-238 | Succeeded only with the saved spec back in place |
| `RestoreMachine.Restore.Dispatch` | pkg/controller/pxcrestore/controller.go:133-189 | every error path and every handler keeps the invariant and the rank |
| `RestoreMachine.IsJobFinished` | pkg/controller/pxcrestore/util.go:95-109 | the first true Complete or Failed condition decides, both directions |
| `RestoreExclusion.RestoresAreExclusive` | pkg/controller/pxcrestore/util.go:73-93 | at most one restore per cluster acts or is past Starting, in every interleaving in which no object is deleted between its restore's fetch and the end of its handler |
| `RestoreExclusion.DeletionBreaksExactlyWhen` | pkg/controller/pxcrestore/controller.go:109-138 | a deletion can be followed by two restores acting exactly when it falls in that window |
| `RestoreExclusion.StepKeepsInv` | pkg/controller/pxcrestore/controller.go:109-138 | every list, act, write, crash, creation and harmless deletion keeps single ownership of a cluster |
| `RestoreExclusion.ClashFollows` | pkg/controller/pxcrestore/controller.go:109-138 | from any system with a deleted restore still at work, a schedule that ends with two at work on its cluster |
| `RestoreExclusion.BothCanFail` | pkg/controller/pxcrestore/controller.go:129-138 | from any system with two restores of one cluster in progress, however far they are, a schedule in which both end Failed |
| `RestoreExclusion.SurvivorOutlivesRivals` | pkg/controller/pxcrestore/controller.go:129-138 | along any run a restore gets to act only after every rival it started with is stored terminal or deleted |
| `RestoreExclusion.OneCanSurvive` | pkg/controller/pxcrestore/controller.go:129-138 | with one rival there is a schedule in which that one fails and the other acts |
| `BackupLease.BackupsAreExclusive` | pkg/controller/pxcbackup/controller.go:212-309 | in every interleaving, with any status writes lost, as long as no release gives up the lease of a backup that needs it, every backup stored as Starting, Running or Suspended holds the lease, so there is at most one |
| `BackupLease.WrittenRunsAreHarmless` | pkg/controller/pxcbackup/controller.go:687-792 | no release does so when final statuses are written, whatever other writes are lost |
| `BackupLease.ReleaseIsOwn` | pkg/k8s/lease.go:48-68 | no release removes another backup's lease, in any reachable state |
| `BackupLease.ReleaseBreaksExactlyWhen` | pkg/controller/pxcbackup/controller.go:687-792 | a release can be followed by two live backups exactly when its backup is stored live, or has a job that is not complete and no final status |
| `BackupLease.BreaksHoldersExactlyWhen` | pkg/controller/pxcbackup/controller.go:196-211 | a single step leaves a live backup without the lease exactly when it is the release of a backup stored live |
| `BackupLease.LostSuccessIsReleased` | pkg/controller/pxcbackup/controller.go:687-792 | any running backup can come to such a release: success is set locally and its write lost |
| `BackupLease.HandedOnExactlyWhen` | pkg/controller/pxcbackup/controller.go:196-309 | a new backup can still come to run exactly when the lease is not held by a finished backup that no reconcile will release |
| `BackupLease.LeakStays` | pkg/k8s/lease.go:48-68 | such a leaked lease stays under every later step |
| `BackupLease.HolderCanLeak` | pkg/controller/pxcbackup/controller.go:150-211 | any unfinished holder can leak it, by failing before the release is deferred or, when its job ends, by a crash between the final status and the release |
| `BackupLease.StepKeepsInv` | pkg/k8s/lease.go:19-68 | every harmless step keeps the invariant; the lease passes only from free to its taker and from its holder, by its own release, to free |
| `FinalizerPool.PoolIsSafe` | pkg/controller/pxcbackup/controller.go:441-477 | tokens equal threads between taking and returning one, workers never exceed the limit, one worker per backup name, nothing lost |
| `FinalizerPool.TokensComeBack` | pkg/controller/pxcbackup/controller.go:446-477 | from every reachable state any thread can run to its end without blocking, returns one token and disturbs no other |
| `FinalizerPool.StepKeepsTokens` | pkg/controller/pxcbackup/controller.go:446-477 | every step keeps the token count |
| `FinalizerPool.StepKeepsNames` | pkg/controller/pxcbackup/controller.go:448-476 | every step keeps the map equal to the names in work, each once |
| `VersionJob.JobsAlternateWithReconciles` | pkg/controller/pxc/version.go:178-216 | between any two job bodies of a cluster the first ends and a whole reconcile starts and completes; critical sections never overlap |
| `VersionJob.ReconcileAdmitsJob` | pkg/controller/pxc/version.go:178-184 | with the lock free, a reconcile always lets the next job run its body, whatever went before |
| `VersionJob.StepKeepsMutex` | pkg/controller/pxc/controller.go:165-177 | being in the critical section and holding the cluster's lock are the same, for any number of threads and clusters |
| `VersionJob.StepKeepsAlternation` | pkg/controller/pxc/controller.go:230-242 | a body begins only after all earlier ones were reconciled |
| `DualPassword.LoginExactlyWhen` | pkg/controller/pxc/users.go:192-334 | the internal secret's password is accepted on every host over all runs exactly when ALTER and patch are not interrupted |
| `DualPassword.StepLosesLoginExactlyWhen` | pkg/pxc/users/users.go:113-172 | a single step loses a login that works exactly when it alters, or discards the old password of, an account whose password is no longer the internal one, or patches to a password some account does not have |
| `DualPassword.StepLosesMountExactlyWhen` | pkg/pxc/users/users.go:113-172 | a single step loses mounted passwords that all work exactly when it alters an account while a pod has neither its new nor its present password, discards while a pod has another than the present one, or mounts an internal password that is rejected |
| `DualPassword.SafelyRetargetedMountsWork` | pkg/controller/pxc/users.go:443-531 | over every uninterrupted run whose changes of target, however early, are safe, what the monitor's pods have mounted is accepted |
| `RotationOutcomes.RetargetLosesExactlyWhen` | pkg/controller/pxc/users.go:443-531 | in such a run a change of target can be followed by a lost mount exactly when it is not safe: between ALTER and patch the new target is neither the old nor the new password, and otherwise it differs from the internal one while a pod has a third |
| `RotationOutcomes.InterruptionLosesExactlyWhen` | pkg/controller/pxc/users.go:192-334 | stopping a so far uninterrupted handler can be followed by a lost login exactly when it falls between the first ALTER and the patch |
| `DualPassword.InterruptionLosesLogin` | pkg/pxc/users/users.go:113-141 | for any hosts and passwords an interrupted run after which the internal password is rejected |
| `DualPassword.RetargetLosesMount` | pkg/controller/pxc/users.go:443-531 | a run with an early second change after which a mounted password is rejected |
| `RotationOutcomes.FinishesExactlyWhen` | pkg/controller/pxc/users.go:192-334 | from any state between reconciles the rotation to the present target can be finished exactly when, with the internal secret at the target, all accounts have that password, and otherwise a session can be opened |
| `RotationOutcomes.RotationCanFinish` | pkg/controller/pxc/users.go:443-531 | which is always so when ALTER and patch are not interrupted |
| `RotationOutcomes.LockedOutForGood` | pkg/controller/pxc/users.go:1134-1157 | once the operator's own internal password is rejected, no step of anyone changes its account again |
| `RotationOutcomes.OperatorLocksItselfOut` | pkg/controller/pxc/users.go:262-334 | the operator's own rotation, interrupted, gets there |
| `RotationOutcomes.GoingBackDiverges` | pkg/controller/pxc/users.go:192-334 | interrupted and told to go back, the handler discards the old password and leaves an account with a password that is in no secret |
| `DualPassword.NothingLeftToDiscard` | pkg/pxc/users/users.go:144-192 | when the last host's row shows no old password and nothing is to do, no host has an old password |
| `DualPassword.ReachableInv` | pkg/controller/pxc/users.go:1002-1087 | the accounts, the order of discarding and the pods' passwords follow the phase in every run |
| `SmartUpdate.Rollout.Update` | pkg/controller/pxc/upgrade.go:228-293 | one deleted and unconfirmed pod at a time; the pod that the IP, name or address found for the primary means is deleted only after all others are confirmed; only outdated pods deleted, nothing after an error; every deletion, view and Synced in the trace is what the API server and the database answered; success exactly when that pod is listed and every pod's turn goes well, and then all are updated |
| `SmartUpdate.Rollout.Secondaries` | pkg/controller/pxc/upgrade.go:268-284 | the loop over the pods keeps those promises and never touches the primary |
| `SmartUpdate.Rollout.ApplyNWait` | pkg/controller/pxc/upgrade.go:295-332 | exactly when a pod's turn succeeds; at most one deletion, first; on success a pod that stays was seen up to date and then Synced |
| `SmartUpdate.Rollout.WaitPodRestart` | pkg/controller/pxc/upgrade.go:485-556 | success exactly when the first decisive poll finds the pod running, ready and at the update revision, a missing pod keeping its last view |
| `SmartUpdate.Rollout.ResolvePrimary` | pkg/controller/pxc/upgrade.go:248-253 | the address is that of the first listed pod with the IP or name found, and otherwise what was found |
| `SmartUpdate.Rollout.ResolvedIsThePrimary` | pkg/controller/pxc/upgrade.go:248-274 | resolving the address and comparing prefixes singles out exactly that pod |
| `SmartUpdate.Judge` | pkg/controller/pxc/upgrade.go:500-555 | a poll fails exactly on a fatal view and is done exactly on an up-to-date one |
| `SmartUpdate.OnePrimary` | pkg/controller/pxc/upgrade.go:272-274 | the prefix test on addresses matches at most one pod, also for ordinals like 1 and 10 |
| `SmartUpdate.PodOrderReadsOrdinal` | pkg/controller/pxc/upgrade.go:334-336 | the ordinal is read back from the pod's name |
| `Retention.OldScheduledBackups` | pkg/controller/pxc/backup.go:146-187 | exactly max(0, succeeded - keep) backups, all succeeded, the creation times those of sort-and-take, none newer than a kept one |
| `Retention.MinHeap.Push` | pkg/controller/pxc/backup.go:258-260 | keeps heap order and adds exactly the element |
| `Retention.MinHeap.Pop` | pkg/controller/pxc/backup.go:262-268 | keeps heap order, removes exactly one element, and that is an oldest |
| `Retention.MinHeap.Up` | pkg/controller/pxc/backup.go:249-256 | sifting up restores heap order and permutes |
| `Retention.MinHeap.Down` | pkg/controller/pxc/backup.go:249-256 | sifting down restores heap order of the first n and permutes |
| `Retention.PoppedAreSortedFront` | pkg/controller/pxc/backup.go:180-184 | popping the oldest repeatedly gives the creation times that sorting and taking would |
| `Retention.RootIsOldest` | pkg/controller/pxc/backup.go:251-255 | the root of a heap is an oldest element |
| `Replication.IsSourcesChanged` | pkg/controller/pxc/replication.go:440-462 | false exactly when no current host repeats and both lists are equal as multisets of host, port and weight |
| `Replication.ConvergesExactlyWhen` | pkg/controller/pxc/replication.go:371-438 | after a pass wrote the sources, in whatever order they are read back, no change is seen exactly when the wanted hosts are distinct |
| `Replication.TwoPasses` | pkg/controller/pxc/replication.go:249-263 | after a successful pass the next one, reading the rows in any order, issues no statement exactly when the wanted hosts are distinct |
| `Replication.Pass` | pkg/controller/pxc/replication.go:254-262 | one pass: a quiet one issues nothing, any other writes the sources; a success remembers the configuration |
| `Replication.Channel.Manage` | pkg/controller/pxc/replication.go:371-438 | a quiet pass changes nothing; a successful other pass leaves exactly the wanted sources, started with the configuration; it fails exactly when a statement it issued does |
| `Replication.Channel.AddSources` | pkg/controller/pxc/replication.go:413-424 | the table afterwards and the source chosen to start from; fails only when a statement it issued does |
| `Replication.Channel.DeleteSources` | pkg/controller/pxc/replication.go:406-411 | deleting every row read empties the table; fails only when a statement it issued does |
| `Replication.ChosenIsHeaviestExactlyWhen` | pkg/controller/pxc/replication.go:413-419 | with positive weights the chosen source is a heaviest one exactly when the last listed is |
| `Replication.Chosen` | pkg/controller/pxc/replication.go:413-419 | the last source of positive weight, else the first |
| `Replication.CurrentReplicaConfig` | pkg/controller/pxc/replication.go:576-588 | the configuration of the first entry with the name, else the empty one |
| `Replication.SetReplicationChannelStatus` | pkg/controller/pxc/replication.go:590-611 | afterwards the name gives its configuration and every other name what it gave before |
| `Destination.DestinationRoundTrip` | pkg/apis/pxc/v1/pxc_backup_types.go:92-147 | for every clean path and slash-free name, kind, bucket, prefix and name read back and agree with the storage spec's split; the path without bucket is prefix plus name exactly when there is no prefix or the name is clean |
| `Destination.Field.SetS3Destination` | pkg/apis/pxc/v1/pxc_backup_types.go:96-98 | prints the destination, and it reads back |
| `Destination.Field.SetAzureDestination` | pkg/apis/pxc/v1/pxc_backup_types.go:100-102 | prints the destination, and it reads back |
| `Destination.Field.SetPVCDestination` | pkg/apis/pxc/v1/pxc_backup_types.go:92-94 | the name reads back from a PVC destination, whatever it contains |
| `Destination.SpecSplit` | pkg/apis/pxc/v1/pxc_types.go:914-928 | the storage spec's own split of a clean path |
| `Destination.NameReadsBackExactlyWhen` | pkg/apis/pxc/v1/pxc_backup_types.go:111-147 | for every path and every slash-free name, the name reads back exactly when the path is empty, a single slash, or relative and unchanged by path.Clean |
| `Destination.TrailingSlashEntersName` | pkg/apis/pxc/v1/pxc_backup_types.go:139-147 | for every path given with a trailing slash the backup name read back starts with a slash |
| `Autotune.GetAutoTuneParams` | pkg/pxc/app/config/autotune.go:17-70 | the text for every limit, the error exactly below 12582880 bytes, connections times 12582880 fit and are maximal |
| `Autotune.TunePool` | pkg/pxc/app/config/autotune.go:30-56 | for every limit the pool is the share rounded up to 128 MiB, in eight chunks of whole MiB and 8 MiB more above 1 GiB; it fits exactly from 128 MiB on (or below 100 bytes); over 850,000,000 bytes stay free under the 75% rule, nothing overflows 64 bits |

## Left out

- Several sources in one GTID set, and the raw strings behind it (newlines, sorting, JSON of the cache): the collector and recoverer are modelled for one source.
- Running mysqlbinlog, mysql, xbstream and the S3 and Azure clients: a put or a replay is one atomic step.
- Timeline and gap files of the collector: a flagged gap is a counter.
- CollectorCoverage.CoverageOverRuns: the stretch starts at the first marker written after an empty bucket or a flagged gap, not at the first binlog ever uploaded, because a run that dies before its first marker is forgotten by the code (`CollectorCoverage.FirstMarkerCoveredExactlyWhen` says when the two agree).
- RecoveryExactness.LatestIsComplete: needs binlogs listed later not to end earlier; what holds without that is `RecoveryExactness.LatestCompleteExactlyWhen`.
- CollectorCoverage.FirstMarkerCoveredExactlyWhen: exact up to the first marker; later runs against a host with older binlogs may fill the hole again, so afterwards only `CollectorCoverage.CoveredOnwards` is stated.
- DateRecovery.RecoverToDate: takes the listing sorted by first timestamp, and mysqlbinlog to read a binlog's transactions in the order of their numbers; nothing is assumed of their times.
- PitrEndToEnd.PipelineIsExact: is for hosts that give a binlog the same cut, timestamp and number; what happens otherwise is in `PitrPipeline`.
- Backups being deleted: the release-lock finalizer, which frees a lease outside the lifecycle modelled in `BackupLease`, and the storage and PVC finalizers themselves; the pool that runs them is modelled.
- Deadlines, cron schedules and clocks: a deadline is a step that may happen whenever the backup's state allows one, and a wait that times out is one that ends in failure.
- RestoreMachine.Restore.PauseClusterWithWait: models the pause patch and whether the wait succeeds; the deletion of every data volume claim but the first, and the polls, are not modelled.
- Clusters below version 1.15.0 and allowUnsafeConfigurations: the restore model checks sizes by the unsafe flags only.
- Restores recreated under the name of a deleted one while its reconcile is still at work.
- DualPassword.NothingLeftToDiscard: says nothing when another host's row is read first; the query has no ORDER BY, so which row that is depends on the server.
- Rollback of the ALTER statements in the users package: MySQL commits each of them implicitly, so the model treats each host's statement as final.
- Sessions of users other than the operator are taken to be open: they go through the operator's account, whose own rotation is modelled with `ownLogin`; the fall-back to root when no operator password is stored is not.
- The concurrent scan of PXC and HAProxy pods in isPassPropagated is a scan in one order; ProxySQL's users, PMM users and users without dual passwords (MySQL 5.7) are not modelled.
- SmartUpdate.Rollout.Update: holds for the pods in any order; the descending order by name that the code sorts them into is not modelled, nor are the early exits before the pod list is read.
- SmartUpdate.Rollout.ApplyNWait: waiting for Synced and the two ProxySQL waits are one answer each, without their polls.
- Removing outdated channels, read-only switching and replica labels of the replication controller.
- Endpoint URLs with path-style buckets: the S3 storage spec's split is modelled from the path on.
- Construction of Kubernetes objects, telemetry, version service client, certificates, webhooks, volume resizing and crash-recovery log parsing.
