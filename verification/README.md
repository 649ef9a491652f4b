# Astacus, modelled in Dafny

Astacus coordinates backups of a cluster: a coordinator locks the nodes, lets them snapshot their
files, spreads the upload of missing hexdigests over them, writes a manifest last, and later prunes
manifests and deletes hexdigests nobody refers to. Nodes hold leased locks, keep an incremental table
of snapshotted files, upload and download. Plugins save and restore ZooKeeper trees, part paths and
Cassandra types.

The project models that logic and proves what it is meant to guarantee. Every file is one module.

| files | what they hold |
|---|---|
| `BackupStore`, `LateWorkers`, `CleanupSteps` | the two object stores over whole runs of backups, retries, delta backups and cleanups; deletes after failed rechecks and workers that outlive their attempt |
| `UploadStep`, `Polling`, `Progress` | the upload step from work packages to polled results |
| `UploadBalance`, `UploadMakespan` | the greedy distribution of uploads, and how far it is from the best one |
| `ClusterLock`, `NodeLock`, `RelockTiming` | the leased lock as a message-passing protocol, and the timing of its relock loop |
| `AzMapping`, `RetentionRules` | restore placement over availability zones; which backups and deltas are kept |
| `SnapshotTable`, `Download` | the incremental snapshot table; download into a directory that is not empty |
| `ZooKeeper`, `AccessEntities`, `FlinkTree` | the in-memory ZooKeeper, and two restore/retrieve pairs over it |
| `Escaping`, `PartPaths`, `UserTypes`, `CachingJson` | printers and parsers, type ordering, the caching JSON store |
| `Basics` | sequences, stable sorting, text |

## How it is modelled

- Code that changes things in place is a class or a method with loops; its contract ties the new state
  to a function or predicate, and lemmas say what that means. Protocols are state machines whose runs
  are sequences of single steps.
- Input and output, clocks, network and failures are parameters: a script of answers, a set of messages
  that may be lost, delayed, repeated or reordered, a number of storage calls after which an operation
  stops, the point at which a callback says to stop.
- `BackupStore` makes each storage call one step. Operations are serialised, as the cluster lock makes
  them; any operation may stop or start a new attempt after any step. Workers of one attempt interleave
  freely. When an attempt ends its workers go on. A node's upload loop holds the snapshot lock
  (`astacus/node/snapshot_op.py:74`), so the next snapshot waits until the loop has been left; the loop
  is left only after some worker's result, and the thread pool is not joined then
  (`astacus/common/utils.py:326-332`), so other workers of the same package may still be at it. Delta
  snapshots have a lock of their own, and cleanup waits for neither. Presence of digests is proved, not
  their content.
- `UploadStep` runs the nodes' operations one after another. Their interleavings are covered by
  `BackupStore`, where every upload, recheck and delete is a step of its own and a thread is a run of a
  worker (`ThreadIsWorker`).
- The hash is a collision-free function that is never empty, base64 a function with a left inverse, the
  library's uuid parser a function that yields canonical text and accepts it. In
  `Escaping` bytes are bytes and text is encoded in UTF-8; ZooKeeper values are text throughout.
- Retention times are integers (microseconds), relock times are reals, sleeps are exact in
  `RelockTiming` and arbitrary in `ClusterLock`. Node clocks differ from the coordinator's by any offset.

## Where the code does less than it promises

- **A retried delta backup can damage itself.** A delta attempt writes its manifest and then clears its
  files (`astacus/coordinator/plugins/cassandra/plugin.py:114-128`). If clearing fails, the next attempt
  snapshots the same files, does not list, and uploads digests the manifest just written refers to. When
  a recheck of one of them fails, the delete takes it from that manifest: `DeltaRetryLosesDigest`.
  `RecheckDiffersIff` says exactly when such a delete is harmless, `BaseRechecksAreHarmless` that those
  of base backups always are, and `NewDataIsHarmless` that those of deltas are when no manifest refers
  to their data at the time the listing is skipped.
- **A late delete can damage a backup.** A worker that has uploaded a digest looks at the file again and
  deletes the digest if the file has changed. Suppose another worker of its package crashes in between,
  so that the upload loop is left and the attempt is given up. Then the next attempt lists the digest as
  present, does not upload it, and writes a manifest that refers to it; after that the old
  worker deletes it. `ManifestLosesDigest` is such a run. `StaleDeleteIff` says over all continuations
  exactly when a late delete is harmless: the digest is in no manifest and the running attempt does not
  rely on it. Plugins that do not validate hashes never delete and are not affected.
- **A late upload can survive a cleanup.** A worker that uploads after cleanup has listed the digests
  leaves a digest nobody refers to (`CleanupLeavesDigest`), exactly when it was neither stored nor still
  marked for deletion (`StaleUploadIff`). The next cleanup removes it.
- **Minimum and maximum.** Pruning applies the maximum first, so a maximum below the minimum wins
  (`MinimumKeptIff`, `MinimumLost`).
- **"~4-5 times".** The comment in the relock loop counts four to five unanswered relocks per lease; six
  can happen and seven cannot (`AtMostSixUnanswered`, `SixUnansweredHappen`). The loop's first check
  may itself come late, so the bound on running past the lease includes the moment of that check.
- **Parts called "detached"** that are not detached do not survive printing and parsing
  (`ParsePrintedIff`, `PartCalledDetachedIsLost`), nor moving.
- **Nested disks.** A frozen file of a disk does not re-parse after moving when a disk listed earlier is
  mounted inside that disk's store folder on the way of the path (`MoveReparsesIff`,
  `NestedDiskCaptures`).
- **Cached names** disagree with the backend exactly about the names whose last change took effect
  although the call failed. Deleting such a name again never heals this, uploading it does
  (`RunAnswersLikePlainMap`, `DeletingDoesNotHeal`, `UnnoticedDeleteLingers`).
- **Empty leaves** of a Flink tree are not restored, so their keys are gone when the tree is read back
  (`ReadBack`, `ReadBackIff`, `EmptyLeafVanishes`).
- **Replaced files can look unchanged.** A downloaded file gets the manifest's modification time. If it
  replaces a tracked file of equal size and time with other bytes, the next incremental snapshot keeps the
  old row, and in no other case does a download mislead it (`NextSnapshotIff`,
  `ReplacementGoesUnnoticed`).

## What the code relies on

- A digest has one size; a stored JSON name never changes its content.
- Backups and deltas do not overlap in time. A delta made inside the oldest kept backup's interval would
  be dropped although a restore would replay it (`NeededDeltasKeptIff`, `DeltaInsideBackupIsLost`);
  operations exclude one another, so `NeededDeltasKept` applies.

## Model

| member | source | states |
|---|---|---|
| `BackupStore.AssignedToOne` | astacus/coordinator/plugins/base.py:150-162 | the work packages give every digest that was not listed exactly one worker, and no listed digest any |
| `BackupStore.WorkerMoves` | astacus/node/uploader.py:58-75 | a worker's upload, recheck or delete keeps the invariant, a delete if the digest is in no manifest: no digest that another worker or the listing vouches for goes |
| `BackupStore.ManifestKeeps` | astacus/coordinator/plugins/base.py:231-245 | when the manifest is written, each of its digests is stored |
| `BackupStore.CleanupKeeps` | astacus/coordinator/plugins/base.py:618-669 | deleting manifests before unreferenced digests, one call at a time, keeps every remaining manifest complete at each step |
| `BackupStore.StaleDeleteKeeps` | astacus/node/uploader.py:68-74 | a delete by a worker that outlived its attempt keeps the invariant when the digest is in no manifest and the running attempt does not rely on it |
| `BackupStore.StepKeeps` | astacus/coordinator/coordinator.py:274-307 | every step of every operation, including a new attempt and a stop at any point, keeps the invariant, deletes after failed rechecks and by late workers if they are harmless |
| `BackupStore.ManifestsAreComplete` | astacus/coordinator/plugins/base.py:118-162 | after any run from an empty store whose deletes are harmless, wherever it stops, all hexdigests of all stored manifests are in digest storage |
| `BackupStore.BaseRechecksAreHarmless` | astacus/coordinator/plugins/base.py:118-162 | a failed recheck of a base attempt never deletes a digest that a manifest refers to, whatever happened before |
| `BackupStore.StaysFree` | astacus/coordinator/plugins/cassandra/plugin.py:107-121 | what an attempt's workers may delete stays in no manifest, for a delta if its data is in none when the listing is skipped |
| `BackupStore.NewDataIsHarmless` | astacus/coordinator/plugins/cassandra/plugin.py:104-129 | when delta attempts bring new data and no late worker deletes, all deletes of a run are harmless |
| `BackupStore.StepTidies` | astacus/coordinator/plugins/base.py:653-669 | while cleanup crosses out and deletes, every stored digest is marked as extra or referred to by a manifest already read |
| `BackupStore.CompletedCleanupIsExact` | astacus/coordinator/plugins/base.py:645-669 | a cleanup that has deleted all it marked leaves the kept manifests and exactly the digests they refer to, if what late workers uploaded meanwhile was stored already or marked |
| `LateWorkers.CanFinish` | astacus/coordinator/plugins/base.py:216-245 | an attempt none of whose workers has failed can go on to write its manifest without touching a digest already delivered |
| `LateWorkers.ThreadIsWorker` | astacus/node/uploader.py:40-79 | what a node's upload thread does with a digest, whatever it finds, is a run of the worker in the store's machine |
| `LateWorkers.LateDeleteLoses` | astacus/node/uploader.py:68-74 | after a late delete of a digest in a manifest, or one the running attempt relies on since its listing, a manifest is or can become incomplete without any further late step |
| `LateWorkers.StaleDeleteIff` | astacus/node/uploader.py:68-74 | every harmless continuation of a late delete keeps all manifests complete exactly when the digest is in no manifest and the running attempt does not rely on it |
| `LateWorkers.ManifestLosesDigest` | astacus/node/snapshot_op.py:70-84 | a run with two digests in one package, one late delete and no other irregular step ends with an incomplete manifest |
| `LateWorkers.RecheckDiffersIff` | astacus/node/uploader.py:68-74 | every harmless continuation of a delete after a failed recheck keeps all manifests complete exactly when the digest is in no manifest |
| `LateWorkers.DeltaRetryLosesDigest` | astacus/coordinator/plugins/cassandra/plugin.py:104-129 | a delta backup retried after its manifest was written loses a digest of that manifest, without any late worker |
| `LateWorkers.CleanupCanFinish` | astacus/coordinator/plugins/base.py:653-669 | a cleanup past its listing can finish, and keeps every digest it has not marked |
| `LateWorkers.StaleUploadIff` | astacus/coordinator/plugins/base.py:655-669 | after a late upload during cleanup, this and all later cleanups end exact, exactly when the digest was stored already or is still marked |
| `LateWorkers.CleanupLeavesDigest` | astacus/coordinator/plugins/base.py:653-669 | a run with one late upload whose cleanup ends with a stored digest and no manifest |
| `CleanupSteps.Stores.DeleteBackupManifests` | astacus/coordinator/plugins/base.py:625-635 | deletes only listed manifests that are not kept; all of them unless cut short |
| `CleanupSteps.Stores.DiscardKept` | astacus/coordinator/plugins/base.py:656-662 | what is left to delete is exactly what is listed and no kept manifest refers to |
| `CleanupSteps.Stores.DeleteDanglingHexdigests` | astacus/coordinator/plugins/base.py:653-669 | never deletes a referenced digest, cut short or not; when done only referenced ones are left |
| `CleanupSteps.Stores.Cleanup` | astacus/coordinator/plugins/base.py:586-669 | stopped after any storage call all manifests are complete and kept ones unchanged; completed, the stores hold the kept manifests and exactly their digests |
| `UploadStep.UploadInThread` | astacus/node/uploader.py:40-79 | the first file not passed over decides between success, failure and crash, and the digest is missing exactly when all are passed over; touches only its digest, stored exactly when the deciding upload arrived or it was there and no passed-over upload deleted it |
| `UploadStep.WriteHashesToStorage` | astacus/node/uploader.py:22-91 | digests of larger files first; the counters are the successes and failures among those it got to, one failure more if stopped; they show success exactly when each digest has a file and uploads and nothing stopped the loop; then all digests are stored; other digests are untouched |
| `UploadStep.UploadOp` | astacus/node/snapshot_op.py:70-84 | the final counters are successful exactly when the node's part succeeded, an exception counting as failure |
| `UploadStep.PackagesApart` | astacus/coordinator/plugins/base.py:785-810 | when a digest has one size, no digest is in two packages |
| `UploadStep.SuccessSeenIff` | astacus/coordinator/cluster.py:196-221 | the coordinator sees a success in a round exactly when that poll is the first to find the operation ended, not too late, and it ended well |
| `UploadStep.UploadNodeIndexDatas` | astacus/coordinator/plugins/base.py:813-836 | returns normally exactly when each package was started, its node's part succeeded and its end was seen in time; then every digest of every package is stored; digests of no package are untouched |
| `UploadStep.UploadBlocksStep` | astacus/coordinator/plugins/base.py:150-162 | returns normally exactly when all goes well for every package of the assignment; then every digest of every snapshot was listed before or is stored now; digests that need no upload are untouched |
| `Polling.PollOne` | astacus/coordinator/cluster.py:196-221 | one poll moves the results and failure counts to the node's next view, or raises exactly as that view is broken |
| `Polling.FinishedIff` | astacus/coordinator/cluster.py:190-225 | a node is seen as finished exactly when its first final reply is a success and no run of unanswered polls before it reached the limit |
| `Polling.WaitSuccessfulResults` | astacus/coordinator/cluster.py:168-228 | returns results exactly when all operations started, at least one round was polled and every node finished successfully; otherwise the error tells which went wrong |
| `Progress.Meter.AddSuccess` | astacus/common/progress.py:91-98 | adds to `handled` and nothing else, never past the total |
| `Progress.Meter.Done` | astacus/common/progress.py:112-116 | only sets `final` |
| `Progress.Merge` | astacus/common/progress.py:126-134 | the sums of all counters, final when all are |
| `Progress.MergedSuccessIff` | astacus/common/progress.py:118-134 | merged counters finished successfully exactly when each part is final, without failures and has handled its total, provided no part handled more than that |
| `UploadBalance.IndexHolders` | astacus/coordinator/plugins/base.py:788-792 | maps each hash, in order of first appearance, to the nodes listing it, once per listing |
| `UploadBalance.NeededElements` | astacus/coordinator/plugins/base.py:798-807 | the work list has exactly the listed hashes that are not stored, each once |
| `UploadBalance.NeededInOrder` | astacus/coordinator/plugins/base.py:798-804 | the work list is in order of falling rarity, then size, then first listing, counted on the listings themselves |
| `UploadBalance.LeastLoaded` | astacus/coordinator/plugins/base.py:808 | the first of the least loaded candidates |
| `UploadBalance.AssignHashes` | astacus/coordinator/plugins/base.py:794-809 | every hash goes to the holder that is least loaded at that point, and each package and load is what the choices add up to |
| `UploadBalance.AssignedOnce` | astacus/coordinator/plugins/base.py:804-809 | every needed hash goes to exactly one node, which holds it; nothing else is assigned |
| `UploadBalance.LastHashRule` | astacus/coordinator/plugins/base.py:808-809 | a node's load without its last hash is at most the final load of every other holder of that hash |
| `UploadBalance.BuildNodeIndexDatas` | astacus/coordinator/plugins/base.py:785-810 | packages are non-empty, disjoint, hold exactly the needed hashes, each held by its node, with `total_size` the sum of their sizes; hashes with fewer listings are placed first, then larger ones, then those listed first, each on its least loaded holder, and each package is in that order |
| `UploadBalance.AssignmentExists` | astacus/coordinator/plugins/base.py:785-810 | whatever is listed and stored, there is such an assignment |
| `UploadMakespan.LoadsAddUp` | astacus/coordinator/plugins/base.py:780-782 | the loads of all nodes add up to the total of the assigned sizes |
| `UploadMakespan.ListBound` | astacus/coordinator/plugins/base.py:785-810 | with full replication on N nodes no load exceeds (2 - 1/N) times the heaviest load of any assignment |
| `UploadMakespan.NeededFalls` | astacus/coordinator/plugins/base.py:798-804 | when all hashes are listed equally often, the work list goes from larger to smaller |
| `UploadMakespan.LargeLastItemFits` | astacus/coordinator/plugins/base.py:804-809 | an item larger than a third of the best heaviest load is placed within that load |
| `UploadMakespan.LongestFirstBound` | astacus/coordinator/plugins/base.py:785-810 | with full replication and equal listings no load exceeds (4/3 - 1/(3N)) times the heaviest load of any assignment |
| `UploadMakespan.PackagesWithinBounds` | astacus/coordinator/plugins/base.py:785-810 | both bounds for the `total_size` of the packages handed out |
| `NodeLock.NodeState.LockHandler` | astacus/node/api.py:60-66 | grants a lease that is the caller's exactly until its deadline, refused exactly while somebody holds the lock, which then stays as it is |
| `NodeLock.NodeState.RelockHandler` | astacus/node/api.py:69-77 | a new lease until its deadline exactly when the caller's own lock is live; otherwise nothing changes |
| `NodeLock.NodeState.UnlockHandler` | astacus/node/api.py:80-88 | the lock is free for good exactly when the caller's own lock was live; otherwise nothing changes |
| `NodeLock.OthersLockStands` | astacus/node/state.py:33-65 | no call of anybody else ends, shortens or extends a lock that is live while the call is handled |
| `NodeLock.GrantedLeaseExcludes` | astacus/node/state.py:33-65 | after a lease was granted the next lock call is refused exactly until the lease runs out |
| `ClusterLock.CombineAnswers` | astacus/coordinator/cluster.py:139-158 | ok when all nodes answered as expected, failure when one refused, exception when one was silent and none refused |
| `ClusterLock.HandleKeeps` | astacus/node/state.py:33-65 | a node that handles any message ever sent, late or repeated, keeps every lease an operation counts on |
| `ClusterLock.LoopAnswerKeeps` | astacus/coordinator/coordinator.py:221-234 | moving `lock_eol` to the time read before the call plus the ttl never outruns what the node granted |
| `ClusterLock.LeaseRunsFrom` | astacus/coordinator/coordinator.py:223-225 | in every run a lease lasts one ttl from the reading before the last granted relock, or from the start, and the next relock is due after half of it |
| `ClusterLock.GivesUpOnlyIf` | astacus/coordinator/coordinator.py:211-229 | a loop gives up exactly on an answer that is no grant, or at a check more than a ttl after that reading |
| `ClusterLock.AsksFromHalfTime` | astacus/coordinator/coordinator.py:215-222 | it asks only from half time on and sleeps only before |
| `ClusterLock.RenewedLeaseIsHeld` | astacus/coordinator/coordinator.py:205-225 | a run in which a renewed lease is held after the first one would have run out |
| `ClusterLock.NextKeeps` | astacus/coordinator/coordinator.py:158-234 | every step of the protocol keeps the invariant |
| `ClusterLock.LeaseIsBacked` | astacus/coordinator/coordinator.py:205-234 | at every moment of every run, while a relock loop is active and `lock_eol` not passed, the node is locked by this locker at least until then |
| `ClusterLock.LeaseIsExclusive` | astacus/coordinator/coordinator.py:158-234 | two operations never hold a valid lease on one node at the same moment |
| `RelockTiming.SleepUntilDue` | astacus/coordinator/coordinator.py:215-219 | with exact sleeps the loop wakes 0.01 seconds after the relock is due, or goes on at once |
| `RelockTiming.NodeRelockLoop` | astacus/coordinator/coordinator.py:205-234 | the loop makes exactly the passes of the simulated run, up to expiry, refusal or the end of the script |
| `RelockTiming.PassesEndInTime` | astacus/coordinator/coordinator.py:205-234 | each relock goes out in the second half of its lease and its pass ends at most R + ttl/10 after the lease |
| `RelockTiming.CancelledInTime` | astacus/coordinator/coordinator.py:208-214 | an operation is never uncancelled later than `lock_eol` + R + ttl/10, or than the loop's first check |
| `RelockTiming.AtMostSixUnanswered` | astacus/coordinator/coordinator.py:229-232 | at most six relocks in a row go unanswered before the lease is given up |
| `RelockTiming.SixUnansweredHappen` | astacus/coordinator/coordinator.py:229-232 | a script in which six do |
| `AzMapping.RanksFitIffPlaceable` | astacus/coordinator/plugins/base.py:756-763 | pairing the zones by rank fits exactly when some injection of backup zones into node zones with enough nodes exists |
| `AzMapping.MostCommonInOrder` | astacus/coordinator/plugins/base.py:757 | larger zones rank first, equally large ones by first appearance |
| `AzMapping.PlaceableHasEnoughNodes` | astacus/coordinator/plugins/base.py:685-688 | such an injection needs as many nodes and as many zones as the backup has |
| `AzMapping.FindFreeNode` | astacus/coordinator/plugins/base.py:767-771 | the first free node of the zone, none exactly when the zone is full |
| `AzMapping.FillZone` | astacus/coordinator/plugins/base.py:764-771 | places all backups of one zone on the first nodes of the paired zone, in order, and touches no other zone |
| `AzMapping.GetNodeToBackupIndex` | astacus/coordinator/plugins/base.py:684-701 | succeeds exactly when a placement exists; then every backup is on exactly one node, zones are paired rank by rank, and in each zone the backups take the first nodes in order; too few zones is reported exactly when there are enough nodes |
| `RetentionRules.PruneManifests` | astacus/coordinator/plugins/base.py:544-571 | no dropped backup is newer than a kept one; keeps at most the maximum unless there were no more than the minimum, at least the minimum when minimum <= maximum; drops beyond the maximum only backups whose end is more than `keep_days` whole days past, and stops at one that is not |
| `RetentionRules.MinimumKeptIff` | astacus/coordinator/plugins/base.py:544-571 | the minimum is kept exactly when it is at most the maximum or there were no more backups than it |
| `RetentionRules.MinimumLost` | astacus/coordinator/plugins/base.py:550-553 | three backups of which the rules leave fewer than the minimum |
| `RetentionRules.PruneTwice` | astacus/coordinator/plugins/base.py:544-571 | pruning at a fixed time is idempotent |
| `RetentionRules.ComputeKeptDeltas` | astacus/coordinator/plugins/base.py:601-614 | the deltas that end no earlier than the oldest kept backup; none when no backup is kept |
| `RetentionRules.OldestIsFirst` | astacus/coordinator/plugins/base.py:607 | the oldest kept backup is the first of those with the smallest start |
| `RetentionRules.MatchingDeltas` | astacus/coordinator/plugins/base.py:408-414 | the deltas that start no earlier than the backup, in order of start |
| `RetentionRules.NeededDeltasKeptIff` | astacus/coordinator/plugins/base.py:401-414 | cleanup keeps every delta a restore of a kept backup would select, exactly when no delta lies inside the oldest kept backup's interval |
| `RetentionRules.NeededDeltasKept` | astacus/coordinator/plugins/base.py:401-414 | with intervals that do not overlap no needed delta is lost |
| `RetentionRules.DeltaInsideBackupIsLost` | astacus/coordinator/plugins/base.py:609-614 | a delta inside the only kept backup's interval that restore selects and cleanup drops |
| `SnapshotTable.CompareWithSrc` | astacus/node/sqlite_snapshot.py:197-206 | exactly the listed files that are there and new or changed are read |
| `SnapshotTable.ComputeDigests` | astacus/node/snapshotter.py:56-70 | fills in content or digest of each file; fails exactly when some file has no group or groups that disagree on the limit |
| `SnapshotTable.EmbeddedFileSizeMax` | astacus/node/snapshotter.py:72-79 | the limit of all groups of a file, exactly when there is one and they agree |
| `SnapshotTable.EmbeddedIsSmall` | astacus/node/snapshotter.py:61-63 | no row read now carries more bytes than its limit, and what it carries decodes to the file |
| `SnapshotTable.Upsert` | astacus/node/sqlite_snapshot.py:208-218 | the new rows replace those of their paths, all other rows stay |
| `SnapshotTable.SQLiteSnapshotter.PerformSnapshot` | astacus/node/sqlite_snapshot.py:106-114 | exactly the listed paths have rows; a file of unchanged path, size and time keeps its row; any other file beyond its limit gets its digest and no content, and one within it its content and no digest; an error leaves the table as it was |
| `SnapshotTable.IncrementalIff` | astacus/node/sqlite_snapshot.py:106-218 | an incremental snapshot equals one from scratch exactly when no listed file with a row vanished and every row that looks unchanged is what reading the file gives |
| `SnapshotTable.IncrementalEqualsFromScratch` | astacus/common/ipc.py:87-88 | after any series of changes and scans the table is what the last successful scan would build from scratch |
| `Download.ExistingHasRightBytes` | astacus/node/download.py:44-46 | a file believed to be present has the bytes its row means |
| `Download.ExistsIff` | astacus/common/ipc.py:90-96 | a file counts as present exactly when it is tracked and its row is the manifest's but for the time |
| `Download.Downloader.DownloadSnapshotfile` | astacus/node/download.py:48-62 | afterwards the path has its bytes and no other path changed; raises without a trace exactly when the file is neither there nor to be had |
| `Download.Downloader.DownloadSnapshotfilesFromStorage` | astacus/node/download.py:64-80 | one download and local copies give every path of a digest its bytes and change nothing else; raises exactly when the first file is not to be had |
| `Download.GroupsWeighAll` | astacus/node/download.py:98-107 | the progress reported for embedded files and digest groups adds up to the announced total |
| `Download.Downloader.DownloadGroups` | astacus/node/download.py:104-117 | all groups in place and counted, exactly when all are to be had and nothing stops it; otherwise each listed path in place or as it was |
| `Download.Downloader.DeleteUnlisted` | astacus/node/download.py:124-126 | removes exactly the tracked paths that are not listed |
| `Download.Downloader.DownloadFromStorage` | astacus/node/download.py:82-154 | a tracked file that would get the manifest's row but for its time stays as it is; completes exactly when the snapshot works, the callback lets it, and every embedded file and the first file of every digest is there already, stored or carried; then every listed path has its bytes, tracked unlisted paths are gone, all else is as it was, handled equals total; stopped, the largest files are in place and it finishes as failed; nothing but listed paths ever changed |
| `Download.SnapshotThenDownload` | astacus/node/download.py:82-126 | files snapshotted on one node and downloaded on another have the bytes they had |
| `Download.NextSnapshotIff` | astacus/node/download.py:61-62 | after a download the next incremental table is the fresh one exactly when no tracked file was replaced by one of equal size and time with other bytes |
| `Download.ReplacementGoesUnnoticed` | astacus/node/download.py:61-62 | such a replacement, and a next table that is not the fresh one |
| `ZooKeeper.CreateLocked` | astacus/coordinator/plugins/zookeeper.py:429-446 | creates the node and exactly its missing ancestors, or reports an existing node or a missing parent |
| `ZooKeeper.ParseNames` | astacus/coordinator/plugins/zookeeper.py:425-426 | a path is the list of its names, with any number of slashes at its end |
| `ZooKeeper.CreatedClosed` | astacus/coordinator/plugins/zookeeper.py:429-446 | creating keeps the store closed under parents |
| `ZooKeeper.DeletedClosed` | astacus/coordinator/plugins/zookeeper.py:449-468 | recursive deletion keeps the store closed under parents |
| `ZooKeeper.Commit` | astacus/coordinator/plugins/zookeeper.py:322-348 | all creations or none; on failure the results say which were rolled back, which failed and which were not tried |
| `ZooKeeper.FakeZooKeeper.Create` | astacus/coordinator/plugins/zookeeper.py:385-389 | adds the node and its missing ancestors and nothing else, or fails without change |
| `ZooKeeper.FakeZooKeeper.Set` | astacus/coordinator/plugins/zookeeper.py:391-399 | replaces the value of an existing node and nothing else, or fails without change |
| `ZooKeeper.FakeZooKeeper.Delete` | astacus/coordinator/plugins/zookeeper.py:401-406 | removes the node with all below it, or fails without change when missing or, not recursive, not empty |
| `ZooKeeper.FakeZooKeeper.GetChildren` | astacus/coordinator/plugins/zookeeper.py:374-383 | the names directly below a node, sorted, each once |
| `AccessEntities.PairCommits` | astacus/coordinator/plugins/clickhouse/steps.py:612-625 | the two nodes of an entity are created together or are both there already |
| `AccessEntities.CallsKeep` | astacus/coordinator/plugins/clickhouse/steps.py:601-625 | stopped after any call, the tree holds only wanted nodes and every entity has both of its nodes or neither |
| `AccessEntities.AttemptsConverge` | astacus/coordinator/plugins/clickhouse/steps.py:601-625 | attempts cut off anywhere, followed by one that is not, leave the restored tree, whatever the orders |
| `AccessEntities.HistoriesAgree` | astacus/coordinator/plugins/clickhouse/steps.py:601-625 | two such histories end in the same tree |
| `AccessEntities.RestoreAccessEntities` | astacus/coordinator/plugins/clickhouse/steps.py:601-625 | the loop leaves the tree of a pass cut off after the given number of calls |
| `AccessEntities.RetrieveAccessEntities` | astacus/coordinator/plugins/clickhouse/steps.py:124-149 | returns one entity for each name node below each type, with the canonical form of its uuid, and fails exactly when the base is missing, a text is no uuid or a uuid has no node |
| `AccessEntities.RetrieveAfterRestore` | astacus/coordinator/plugins/clickhouse/steps.py:124-149 | retrieving from the restored tree returns exactly the manifest's entities |
| `AccessEntities.RestoredIsNotBroken` | astacus/coordinator/plugins/clickhouse/steps.py:134-139 | retrieving from the restored tree fails exactly when nothing was restored and the base node was not there |
| `AccessEntities.RestoreThenRetrieve` | astacus/coordinator/plugins/clickhouse/steps.py:601-625 | attempts cut off anywhere, one of them going through, then retrieval: exactly the entities come back, each once |
| `FlinkTree.RestoreNode` | astacus/coordinator/plugins/flink/steps.py:100-109 | fails, changing nothing, exactly when a node is to be made where one is; otherwise below the path the tree holds exactly the data, elsewhere nothing but missing ancestors is new |
| `FlinkTree.GetDataRecursively` | astacus/coordinator/plugins/flink/steps.py:48-60 | the dictionary of everything below a node, nodes with a value being leaves |
| `FlinkTree.ReadBack` | astacus/coordinator/plugins/flink/steps.py:48-60 | every restored tree reads back as itself without its empty leaves |
| `FlinkTree.ReadBackIff` | astacus/coordinator/plugins/flink/steps.py:48-60 | a restored tree reads back as itself exactly when no leaf is empty |
| `FlinkTree.EmptyLeafVanishes` | astacus/coordinator/plugins/flink/steps.py:108-109 | a tree with an empty leaf whose key is gone when read back |
| `FlinkTree.RestoreData` | astacus/coordinator/plugins/flink/steps.py:93-98 | for paths that are not prefixes of one another: fails exactly when one with data is taken; on vacant paths each holds its data |
| `FlinkTree.RetrieveData` | astacus/coordinator/plugins/flink/steps.py:28-46 | a result for each configured path that exists, with everything below it |
| `FlinkTree.RetrieveAfterRestore` | astacus/coordinator/plugins/flink/steps.py:28-46 | what is retrieved where data was restored: each dictionary without its empty leaves |
| `FlinkTree.RestoreThenRetrieve` | astacus/coordinator/plugins/flink/steps.py:93-109 | restoring at vacant paths, then retrieving, is the identity on dictionaries without empty leaves, and drops those leaves otherwise |
| `UserTypes.StuckIsCyclic` | astacus/common/cassandra/schema.py:278-281 | if a pass yields nothing, the pending types refer to one another in a cycle |
| `UserTypes.OrderedIsAcyclic` | astacus/common/cassandra/schema.py:268-281 | if all types could be ordered there is no cycle |
| `UserTypes.OnePass` | astacus/common/cassandra/schema.py:271-279 | a pass yields, in their order, exactly the pending types that mention no type pending when it began, each after everything it refers to |
| `UserTypes.RestoreOrder` | astacus/common/cassandra/schema.py:268-281 | each type once and after the types it refers to; a loop is reported exactly when the references have a cycle |
| `Escaping.EscapeBytes` | astacus/coordinator/plugins/clickhouse/client.py:170-181 | the quoted form, byte by byte |
| `Escaping.EscapedByteIs` | astacus/coordinator/plugins/clickhouse/client.py:123-181 | output is printable ASCII; which bytes take a letter, which a hexadecimal escape, and which stand for themselves |
| `Escaping.SqlStringRoundTrip` | astacus/coordinator/plugins/clickhouse/client.py:184-207 | unescaping an escaped string gives it back, for all byte strings |
| `Escaping.QuotedMatchesToken` | astacus/coordinator/plugins/clickhouse/sql.py:16-18 | the escaped form matches the whole String or QuotedIdentifier pattern |
| `Escaping.UnescapesIffToken` | astacus/coordinator/plugins/clickhouse/client.py:184-207 | a text can be unescaped exactly when it is a String token |
| `Escaping.IdentifierPrefixFree` | astacus/coordinator/plugins/clickhouse/client.py:146-160 | a quoted name ends where it ends, whatever follows |
| `Escaping.TableIdentifierInjective` | astacus/coordinator/plugins/clickhouse/manifest.py:73-75 | different tables never share a quoted name |
| `Escaping.FileNameRoundTrip` | astacus/coordinator/plugins/clickhouse/escaping.py:8-26 | unescaping an escaped file name gives it back, for all byte strings |
| `Escaping.PlainNameIff` | astacus/coordinator/plugins/clickhouse/escaping.py:8-12 | a name is its own escaped form exactly when it has only letters, digits and underscores |
| `Escaping.NameTextRoundTrip` | astacus/coordinator/plugins/clickhouse/escaping.py:8-26 | the same through text, and the text has no slash |
| `PartPaths.ToPath` | astacus/coordinator/plugins/clickhouse/disks.py:57-69 | the printed path |
| `PartPaths.GetDisk` | astacus/coordinator/plugins/clickhouse/disks.py:102-106 | the first disk whose path is a prefix |
| `PartPaths.ParsePrintedIff` | astacus/coordinator/plugins/clickhouse/disks.py:108-148 | a printed path parses to itself exactly when its own disk is the first that matches and it is not an attached part called "detached" |
| `PartPaths.PrintParsedIff` | astacus/coordinator/plugins/clickhouse/disks.py:108-148 | printing a parsed path gives it back exactly when its names are in escaped form and the folder below a freeze folder is "store" |
| `PartPaths.FolderIsIgnored` | astacus/coordinator/plugins/clickhouse/disks.py:127-129 | parsing does not look at that folder |
| `PartPaths.PartCalledDetachedIsLost` | astacus/coordinator/plugins/clickhouse/disks.py:139-140 | an attached part called "detached" never comes back |
| `PartPaths.MoveReparsesIff` | astacus/coordinator/plugins/clickhouse/steps.py:401-414 | a moved part keeps disk, table, part name and file on re-parsing exactly when it is not called "detached" and no earlier disk inside the store folder captures it |
| `PartPaths.NestedDiskCaptures` | astacus/coordinator/plugins/clickhouse/disks.py:102-106 | with an inner disk listed first, a frozen file of the outer disk does not re-parse after moving |
| `PartPaths.MoveMergesOnlyCopies` | astacus/coordinator/plugins/clickhouse/steps.py:401-414 | two files of one disk moved to one path were the same file of the same part; files of two disks meet only if one disk is mounted in the other's store folder |
| `PartPaths.MoveFrozenParts` | astacus/coordinator/plugins/clickhouse/steps.py:401-414 | rewrites the paths in place up to the first that does not parse |
| `CachingJson.CachingJsonStorage.ListJsons` | astacus/common/cachingjsonstorage.py:77-80 | the sorted names of the backend, with those cache and backend disagree about turned round; fails exactly when names are not cached and cannot be listed |
| `Basics.TextLeqIff` | astacus/common/cachingjsonstorage.py:79 | names are sorted as Python compares text: by the first character that differs, a beginning before what it begins |
| `CachingJson.CachingJsonStorage.OpenJson` | astacus/common/cachingjsonstorage.py:64-75 | answers like the plain map of the backend where the two agree, and changes neither backend nor disagreement |
| `CachingJson.CachingJsonStorage.UploadJson` | astacus/common/cachingjsonstorage.py:82-86 | done exactly when nothing failed, and then backend and names agree about the name; an upload that arrives but fails makes them disagree about it |
| `CachingJson.CachingJsonStorage.DeleteJson` | astacus/common/cachingjsonstorage.py:54-62 | answers like the plain map where the two agree; a delete that takes effect but fails makes them disagree about the name |
| `CachingJson.UnnoticedIff` | astacus/common/cachingjsonstorage.py:54-86 | which calls change the backend unnoticed, from the fault and what is stored and cached |
| `CachingJson.AgreesIff` | astacus/common/cachingjsonstorage.py:40-52 | from agreement, a call leads to agreement exactly when it does not change the backend unnoticed |
| `CachingJson.NoticedRunsAgree` | astacus/common/cachingjsonstorage.py:32-86 | in runs without unnoticed changes the cached names are the backend's and every answer but a failure is the plain map's |
| `CachingJson.RunAnswersLikePlainMap` | astacus/common/cachingjsonstorage.py:32-86 | in every run, whatever fails, cache and backend disagree exactly about the names whose last change went unnoticed, and all other names answer like the plain map |
| `CachingJson.DeletingDoesNotHeal` | astacus/common/cachingjsonstorage.py:54-62 | a name listed although it is gone stays so until it is uploaded, whatever else is called |
| `CachingJson.Serve` | astacus/common/cachingjsonstorage.py:32-86 | the object's calls, in any order and with any faults, make such runs |
| `CachingJson.UnnoticedDeleteLingers` | astacus/common/cachingjsonstorage.py:54-62 | a deletion that takes effect but fails leaves the name listed |

## Left out

- Partial restore mapping (`get_node_to_backup_index_from_partial_restore_nodes`): lookups only.
- Node restarts that forget a lock, and clocks of different rates: outside the lock model. Lockers are
  unique and not empty.
- ZooKeeper watches and the retry on concurrent changes; the Kazoo client. The root node is implicit.
- Hard links, the destination tree of a snapshot, release, glob matching, directories, chown and umask:
  the matched files are an input. A listed path that is a directory in the target is not modelled.
- Uploads that store wrong bytes: presence is proved, not content.
- BackupStore.ManifestsAreComplete: deletes are admitted only where they are harmless, because otherwise
  the claim is false (`DeltaRetryLosesDigest`, `ManifestLosesDigest`); `RecheckDiffersIff` and
  `StaleDeleteIff` give the exact conditions.
- BackupStore.CompletedCleanupIsExact: late uploads during cleanup are admitted only where the claim
  stays true (`CleanupLeavesDigest`, `StaleUploadIff`).
- UploadStep.UploadBlocksStep: which node understands which request version is reduced to whether the
  node validates.
- Download.Downloader.DownloadFromStorage: a group interrupted in the middle of a file is not modelled.
- CachingJson.CachingJsonStorage.UploadJson: says nothing of cached contents after an upload that changes
  a stored name's content; names are taken to be immutable.
- Progress.Merge: merges a sequence. In the polling loop the source passes a generator that is used up
  when `final` is computed, so `final` there is true whatever the parts say.
- HTTP, routing, statistics, logging, configuration, JSON encoding, SQLite's SQL, and the time at which
  polls are sent: only outcomes and their order are modelled.
- Table dependency order (a library sort), M3 placement rewriting, `is_busy`, the list cache, and
  deduplicated size statistics.
