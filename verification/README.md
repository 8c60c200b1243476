# LanBridge: a verified model of its synchronisation core

LanBridge keeps a folder on two paired computers in step over the local network. One side of a task is the
*Primary*, the other the *Secondary*. The Primary scans its folder, compares the scan with the stored baselines, edits
the resulting action list and sends each action to the Secondary. The Secondary may pull, and may return its own
changes explicitly. Nothing that was changed on either side should be lost without a trace.

The project states what that core promises and proves it, for all inputs and all runs:

- **The Primary's run** (`Planner`, `PrimarySync`, `ActionList`, `Recording`, `Convergence`, `SendSafety`, `VanishedTrees`,
  `PartialRuns`, `PrimaryRun`): planning, recovered deletes, compression of directory deletes, repairs, sorting, the
  checks before a send, and the table writes behind it. An acknowledged run makes the Secondary's tree the Primary's and the next run idle; after a partial failure
  exactly the unrecorded uploads, and the unrecorded deletes that had a baseline, are planned again, and convergence
  survives any series of runs that break off as long as what the Secondary did was recorded; a file that was
  changed on the Secondary is left alone by everything but the delete of a directory above it.
- **One transfer** (`TransferModel`, `TransferProtocol`, `TransferLoops`, `Framing`, `TargetGuard`): the V2 chunk stream
  with its checkpoint acknowledgements as two communicating machines, the loops themselves against any peer, the frames
  underneath, and the version check that guards the target against a user who keeps working.
- **Two small concurrent protocols** (`PeerState`, `RunCoordinator`): connection intent with revisions over a network
  that loses, repeats and reorders, and the admission of sync runs.
- **Secondary side and conflicts** (`KeepBoth`, `Displacement`, `SecondaryPull`, `ReturnOrder`): what may be overwritten,
  what stays recoverable, what survives a stop between any two steps, and in which order returns run.
- **Supporting algorithms** (`ScanCache`, `HistoryEviction`, `ConflictName`): the directory walk with its hash cache, the
  history's size limit, and fresh conflict names.

`Prelude`, `Ordering`, `Paths`, `Model` and `TreeTable` hold what these share: sequences, sorting, `/`-separated paths,
the stored records, and tables under row upserts and subtree removals. Loops and objects of the program are classes and
methods, each proved against a function on values; the theorems are about those functions.

`dafny verify dfyconfig.toml` checks everything.

## Where the program does not do what one would expect

Each of these is a lemma with the condition under which things do go well.

- The plan's comparator calls every pair "equal" in which one side is not a delete. It is an order exactly on lists of
  deletes only, or with deletes of one depth only (`Planner.CompareIsNotAnOrder`, `Planner.CompareOrdersExactly`); there
  the plan's order is what every stable sort yields (`Planner.DeletesAloneAreSorted`, `Planner.DeletesOfOneDepthStayPut`).
- A repair re-sends an entry the Secondary lacks, but still announces the baseline's hash as the expected target. Left
  alone, it can succeed exactly if it announces nothing (`TargetGuard.RepairCommitsExactly`); with a verified baseline
  only after somebody has put the old file back (`TargetGuard.RepairNeedsTheFileBack`). The same holds for a changed file.
  So every upload of a run can be acknowledged exactly if no live file with a baseline is missing on the Secondary
  (`TargetGuard.RunCanBeAcknowledgedExactly`); the convergence theorem takes acknowledgements as given.
- A delete recovered from the previous scan has one try. The rows that remember the entry are replaced before anything is
  sent and there is no baseline, so a failed one is not listed again (`Recording.RecoveredDeleteHasOneTry`,
  `Recording.DeletesListedAgainExactly`).
- Compression drops the deletes beneath a directory delete before it is known whether that one will pass its check. It
  makes no difference exactly if each delete that would pass lies at or under a retained one that passes
  (`ActionList.RunCompressionExact`, `ActionList.ChecksKeepExactly`). The tree of a directory whose delete is refused
  stays exactly unless a delete above it goes through (`SendSafety.RefusedDirectoryKeepsItsContents`).
- A directory delete without a baseline is always refused. So a directory that vanishes from the Primary before it ever
  had a baseline stays on the Secondary with all its contents, whatever is acknowledged (`VanishedTrees.VanishedTreeStays`),
  also the files whose own deletes would have passed (`VanishedTrees.DroppedDeleteWouldPass`), and the
  next list over the same scan does not try again (`VanishedTrees.VanishedTreeIsForgotten`).
- A file that the Secondary has committed, but of which no record exists because the answer or the record was lost, is
  planned again and refused each time: the check before the send knows the old baseline only
  (`PartialRuns.LostUploadIsRefused`). A run that breaks off leaves the situation that convergence starts from exactly if
  every entry it made the Secondary put was recorded or is named by the baselines already
  (`PartialRuns.GoodAgainExactly`).
- The delete of a directory is checked by its kind alone. It takes along files that were changed on the Secondary since
  the last sync, whose own deletes would have been refused (`SendSafety.DirectoryDeleteTakesChangedFiles`,
  `SendSafety.UnknownVersionSurvivesExactly`). They end up in the Secondary's history.
- The version check and the rename are two steps; no expectation survives an edit in between
  (`TargetGuard.CheckThenRenameReplacesAnEdit`). What a commit replaces is the version last synced exactly if the edits
  between the two leave the path as it was (`TargetGuard.CommitReplacesSyncedExactly`). The server copies what it finds to
  the history before the rename (src-tauri/src/transport/server.rs:4327-4337), so of the replaced versions those saved
  before that copy are kept there. Without a verified baseline there is no version check at all
  (`TargetGuard.GuardIsExact`).
- A pull decides by its scan, but the version check of a download starts with the download. A file edited in between is
  replaced (`SecondaryPull.EditAfterScanIsReplaced`), and so is one that appears where the scan saw nothing: a pull makes the
  same decisions whatever version is there (`SecondaryPull.PullIgnoresPresentVersion`). Where the scan saw something,
  what is replaced was the version last synced exactly if the scan was still right
  (`SecondaryPull.ReplacedWasSyncedExactly`).
- A return decides by its scan too. After a comparison of hashes, what is replaced was the baseline's version exactly if
  the scan was still right (`Displacement.ReplacedWasTheBaselineExactly`); a file that has appeared where a created one
  is returned is replaced without a copy in the history (`Displacement.AppearedFileIsReplaced`).
- The publisher of connection states is documented to keep each peer's newest revision. It keeps the last command it was
  handed, and the database lock is released before the command is handed over, so the peer may stay uninformed until the next
  change or restart (`PeerState.SwappedHandOverIsNeverRepaired`, `PeerState.SyncReachableExactly`,
  `PeerState.RestartRepairs`).
- A failing run drops the requests that were made since it began, and no others (`RunCoordinator.AbortDropsWhatWaits`,
  `RunCoordinator.DroppedExactly`, `RunCoordinator.AbortDropsAQueuedRequest`).
- A keep-both resolution that stops between its transaction and the update of its journal row leaves the row open; the
  next change of the same file is then resolved with the old record and lost (`KeepBoth.OpenRowLosesTheNextEdit`); the
  present version survives such a rerun exactly if it is the recorded one, the Primary's, or stored elsewhere
  (`KeepBoth.CurrentVersionSurvivesExactly`). A lost answer followed by an edit makes both baselines of the conflict copy
  name a version the Primary does not have (`KeepBoth.LostAnswerMisrecords`); the rerun records the truth exactly if the
  Primary has not applied the resolution yet or the file is still the version it applied
  (`KeepBoth.CompletedRecordMatchesExactly`). A version saved at the original path while a run is under way is lost
  exactly if the copy is in place already, the version is not the incoming one, and no other path has it
  (`KeepBoth.EditDuringRunIsLostExactly`). A Primary that crashes between the copy and its journal row is left with a
  copy that no record names (`KeepBoth.UnjournalledCopyIsOrphaned`).
- A directory moved to the history asks to be preserved by its own path, which is no file's, so that asking does nothing
  (`HistoryEviction.PreservedDirectoryIsIgnored`, `HistoryEviction.MovedTreeIsNotPreserved`). It stays whole exactly if each
  of its files fits the limit together with everything that is not older (`HistoryEviction.MovedTreeStaysExactly`).
- The return order alone does not keep a delete from taking away a create that ran just before it beneath the same
  directory (`ReturnOrder.DeleteOverCreateExactly`).
- Where a hash is missing, a return replaces a file on equal size and time (`Displacement.ReturnReplacesExactly`).

## Model

| member | source | states |
|---|---|---|
| `Paths.ParentPathsExact` | src-tauri/src/commands/mod.rs:3264-3277 | the parent paths the code walks are exactly the paths the given path descends from |
| `Paths.AncestorsComparable` | src-tauri/src/commands/mod.rs:2624-2627 | two paths at or above a third are at or above one another |
| `Paths.DescendantFacts` | src-tauri/src/core/planner.rs:104-106 | a parent is strictly shallower than its descendant, and itself a clean path |
| `TreeTable.Outcome` | src-tauri/src/state/repository.rs:490-503 | what a run of upserts and subtree removals leaves at a path: the last-written row if it is written, else the old row unless a removal covers it |
| `TreeTable.SameEffect` | src-tauri/src/state/repository.rs:401-415 | two runs of writes end alike if they write the same rows in the same order and remove the same paths |
| `Model.SnapshotIndexFacts` | src-tauri/src/commands/mod.rs:1771-1776 | the cache by path has every row of the last scan |
| `Planner.PlanSync` | src-tauri/src/core/planner.rs:10-102 | the loops over scan and baselines, and a stable sort by insertion with the code's comparison, compute the plan the lemmas are about |
| `Planner.PlannedExactly` | src-tauri/src/core/planner.rs:32-92 | the plan holds exactly the new or changed live entries and the baselines whose entry is gone |
| `Planner.QuiescentExactly` | src-tauri/src/core/planner.rs:32-92 | for either role the plan is empty exactly when scan and baselines agree |
| `Planner.ChangedFileIsPlannedExactly` | src-tauri/src/core/planner.rs:118-152 | a file that has a baseline is planned, if both hashes are verified, exactly if they differ, else exactly if size or time differs; on the primary side for the Primary, on the secondary side for the Secondary |
| `Planner.PlanInFields` | src-tauri/src/core/planner.rs:32-92 | the plan's actions, record by record: new live entries, differing live files with their rows, rows without a live entry; and no others |
| `Planner.QuiescentInFields` | src-tauri/src/core/planner.rs:32-92 | the plan is empty exactly if each live entry has a row it does not differ from and each row a live entry |
| `Planner.DeletesRunChildFirst` | src-tauri/src/core/planner.rs:94-99 | a delete runs before the delete of any directory above it |
| `Planner.CompareIsNotAnOrder` | src-tauri/src/core/planner.rs:94-99 | two deletes of different depth compare equal to anything that is no delete, yet differ |
| `Planner.CompareOrdersExactly` | src-tauri/src/core/planner.rs:94-99 | the comparison is an order on a list exactly if it holds nothing but deletes, or deletes of one depth only |
| `Planner.InsertionSortsThePlan` | src-tauri/src/core/planner.rs:94-99 | although the comparison is no order there, sorting applies followed by deletes by insertion leaves the applies and sorts the deletes deepest first |
| `Planner.DeletesAloneAreSorted` | src-tauri/src/core/planner.rs:94-99 | on deletes alone the plan's order is the stable sort by the comparison: a permutation, nothing out of order, no equal pair swapped |
| `Planner.DeletesOfOneDepthStayPut` | src-tauri/src/core/planner.rs:94-99 | with deletes of one depth, where the comparison tells nothing apart, the plan's order is the order of the loops |
| `ActionList.AllActionsUnique` | src-tauri/src/commands/mod.rs:2412-2538 | every path has at most one action after recovery, compression, repairs and sorting |
| `ActionList.FinishedListIsWellFormed` | src-tauri/src/commands/mod.rs:2412-2538 | one action per path, and no delete at or above an upload or directory create |
| `ActionList.CreatesRunParentFirst` | src-tauri/src/commands/mod.rs:2634-2650 | before repairs are added, a directory create runs before every create or upload beneath it |
| `ActionList.DirectoriesRunBeforeFiles` | src-tauri/src/commands/mod.rs:2634-2650 | in the executed list, repairs included, a directory create runs before every file upload beneath it |
| `ActionList.SmallFilesRunFirst` | src-tauri/src/commands/mod.rs:2634-2650 | in the executed list deletes and directory creates come first, then files of up to 8 MiB, then larger ones |
| `ActionList.RecoveredExactly` | src-tauri/src/commands/mod.rs:2412-2451 | what is recovered: entries live in the previous scan without a live entry, a baseline or a planned action now |
| `ActionList.RepairedExactly` | src-tauri/src/commands/mod.rs:2495-2538 | what is repaired: rows with a live entry that stands as synced, that neither the Secondary reports nor the list has |
| `ActionList.CompressedExactly` | src-tauri/src/commands/mod.rs:2453-2474 | a delete is kept exactly if no delete of a directory, known by its snapshot or by a row without hashes and sizes, lies above it |
| `ActionList.CompressionRemovesTheSame` | src-tauri/src/commands/mod.rs:2453-2474 | the compressed list deletes exactly the paths that the full list deletes |
| `ActionList.CompressionIsTight` | src-tauri/src/commands/mod.rs:2453-2474 | no retained delete lies beneath a retained directory delete; everything else keeps its place |
| `ActionList.CompressionPreservesMeaning` | src-tauri/src/commands/mod.rs:2453-2474 | executing the compressed list leaves a table as executing the full one, whichever deletes fail, if each successful delete lies at or under a retained successful one |
| `ActionList.CompressionPreservesMeaningExactly` | src-tauri/src/commands/mod.rs:2453-2474 | over all tables the two lists have the same effect exactly if each successful delete lies at or under a retained successful one |
| `ActionList.SuccessKeepsRemovals` | src-tauri/src/commands/mod.rs:2453-2474 | that is so if every delete succeeds |
| `ActionList.RunRowsApart` | src-tauri/src/commands/mod.rs:2453-2474 | in the list of any run, whatever each action comes to, no delete lies at or above a row or entry that an upload or create writes |
| `ActionList.RunCompressionExact` | src-tauri/src/commands/mod.rs:2453-2474 | for the baselines and for the peer's folder of any run, compression makes no difference exactly if each delete that passes its check and would be acknowledged lies at or under a retained one that does |
| `ActionList.SentRemoves` | src-tauri/src/commands/mod.rs:2781-2814 | a delete removes something exactly if its check lets it through and it is acknowledged |
| `ActionList.ChecksKeepExactly` | src-tauri/src/commands/mod.rs:2453-2474 | with a Secondary that does what it is sent, that condition is one on the checks alone, before anything is sent |
| `Recording.TouchedExactly` | src-tauri/src/commands/mod.rs:3178-3277 | which baselines an attempt writes and removes, when the database may stop accepting writes anywhere |
| `Recording.ReplanExactly` | src-tauri/src/commands/mod.rs:3178-3277 | after any subset of successes an unchanged scan plans an upload again exactly if it was planned and neither it nor anything beneath it was recorded, and the delete of a baseline exactly if no delete at or above it was recorded |
| `Recording.FilesAreNoParents` | src-tauri/src/commands/mod.rs:3252-3277 | a failed file upload is never excused by a parent's row |
| `Recording.RecordedRowInFields` | src-tauri/src/commands/mod.rs:3206-3237 | a recorded upload leaves a row with the scan's size and time and one hash on both sides: the streamed, else the scanned, else a fresh one |
| `Recording.UnhashedFileSettles` | src-tauri/src/commands/mod.rs:3206-3237 | a file too large for hashing is not planned again over the same scan once its upload is recorded |
| `Recording.FailedRepairIsRepeated` | src-tauri/src/commands/mod.rs:2495-2538 | a failed repair is in the next list again while the peer lacks the entry |
| `Recording.RecoveredDeleteHasOneTry` | src-tauri/src/commands/mod.rs:2141-2164 | whatever comes of a recovered delete, the next list has no action for its path while the entry stays away |
| `Recording.DeletesListedAgainExactly` | src-tauri/src/commands/mod.rs:2412-2474 | over the same scan the next list deletes a path exactly if a baseline at or above it is gone and its removal was not recorded |
| `Convergence.ChecksPass` | src-tauri/src/commands/mod.rs:2781-2855 | if the Secondary holds what the baselines record, no check refuses an action, and each acknowledged one succeeds |
| `Convergence.SecondaryConverges` | src-tauri/src/commands/mod.rs:2696-2779 | after a run whose every action is acknowledged the Secondary's tree equals the Primary's live tree, even if entries had been missing |
| `Convergence.BaselinesConverge` | src-tauri/src/commands/mod.rs:3178-3277 | the baselines then cover exactly the live paths, with the scanned hash on both sides |
| `Convergence.SnapshotRowsOnlyShrink` | src-tauri/src/commands/mod.rs:3178-3250 | recording a run only removes snapshot rows, so the next run's cached rows are among the scanned ones |
| `Convergence.SnapshotRowsExactly` | src-tauri/src/commands/mod.rs:3238-3244 | the snapshot rows that go are those at or under a delete that succeeded and was let remove them |
| `Convergence.NextRunIsIdle` | src-tauri/src/commands/mod.rs:2150-2168 | a further run over the same scan has an empty action list, in whatever order rows are listed |
| `SendSafety.ChangedFileSurvivesExactly` | src-tauri/src/commands/mod.rs:2696-2855 | over a whole run, whatever is acknowledged, a file whose version the list does not know stays as it is exactly unless a delete of a directory above it succeeds |
| `SendSafety.ListIsUnaware` | src-tauri/src/commands/mod.rs:2412-2538 | the list of a run does not know a version that neither the baseline nor, without one, the previous scan names |
| `SendSafety.DeletedAboveExactly` | src-tauri/src/commands/mod.rs:2816-2855 | such a delete succeeds exactly if its check lets it through and it is acknowledged |
| `SendSafety.RemoteIndexExactly` | src-tauri/src/commands/mod.rs:2705-2708 | the checks see the Secondary's whole listing, each path with its entry |
| `SendSafety.UploadSucceedsExactly` | src-tauri/src/commands/mod.rs:2720-2745 | a file goes through exactly if it is not deferred, the Secondary shows nothing or the baseline's version, and the stream is acknowledged |
| `SendSafety.CreateSucceedsExactly` | src-tauri/src/commands/mod.rs:2835-2855 | a directory is created exactly if there is nothing or a directory, and the answer comes |
| `SendSafety.DeleteSucceedsExactly` | src-tauri/src/commands/mod.rs:2781-2833 | a delete goes through exactly if it is acknowledged and the Secondary shows nothing or what was last known, case by case |
| `SendSafety.DeferredUploadIsHeldBack` | src-tauri/src/commands/mod.rs:2730-2736 | a deferred file is not sent: the action fails and the Secondary keeps what it had at the path |
| `SendSafety.UnknownVersionSurvivesExactly` | src-tauri/src/commands/mod.rs:2696-2855 | for the list of any run: a file whose present version the Primary has no record of survives exactly unless an acknowledged delete of a directory above it passes its check |
| `SendSafety.DirectoryDeleteTakesChangedFiles` | src-tauri/src/commands/mod.rs:2816-2822 | a directory delete passes on its kind and removes changed files whose own delete is refused |
| `SendSafety.EntryStaysExactly` | src-tauri/src/commands/mod.rs:2696-2779 | over a whole run an entry at which no action succeeds stays as it is exactly unless a directory above it is deleted |
| `SendSafety.RefusedDirectoryKeepsItsContents` | src-tauri/src/commands/mod.rs:2781-2814 | when a directory's delete is refused, everything in its tree stays exactly unless an acknowledged delete above it passes its check |
| `VanishedTrees.VanishedTreeStays` | src-tauri/src/commands/mod.rs:2806-2808 | a directory that vanished before it had a baseline stays on the Secondary with all its contents, whatever is acknowledged |
| `VanishedTrees.VanishedTreeIsForgotten` | src-tauri/src/commands/mod.rs:2141-2164 | over the same scan the next list deletes nothing at or above what is in it |
| `VanishedTrees.DroppedDeleteWouldPass` | src-tauri/src/commands/mod.rs:2453-2474 | the delete of an unchanged file in it would have passed its check and is dropped for the directory's |
| `PartialRuns.LostUploadIsRefused` | src-tauri/src/commands/mod.rs:2835-2855 | an upload whose record was lost is refused in the next run, in which the Secondary shows the very file |
| `PartialRuns.HoldsAfterExactly` | src-tauri/src/commands/mod.rs:2696-3250 | after a run that broke off anywhere, with any answers lost, the Secondary holds only what the baselines record exactly if every entry put there was recorded or named by a baseline before |
| `PartialRuns.RecordedRunIsClean` | src-tauri/src/commands/mod.rs:3178-3250 | that is so if every upload and create the Secondary carried out was answered and recorded in full |
| `PartialRuns.GoodAgainExactly` | src-tauri/src/commands/mod.rs:2099-2410 | the next run is in the situation that convergence starts from exactly then |
| `PartialRuns.SeriesConverges` | src-tauri/src/commands/mod.rs:2099-2410 | after any series of such runs an acknowledged one makes both trees equal and the baselines describe them |
| `PrimaryRun.PrimarySyncRun.AppendRecoveredDeletes` | src-tauri/src/commands/mod.rs:2412-2451 | appends the deletes of entries that vanished before they had a baseline |
| `PrimaryRun.PrimarySyncRun.CompressDirectoryDeletes` | src-tauri/src/commands/mod.rs:2453-2474 | collects the directories and compacts the list in place to the actions not beneath one of them |
| `PrimaryRun.PrimarySyncRun.AppendRepairs` | src-tauri/src/commands/mod.rs:2495-2538 | appends the unchanged entries that the peer no longer has, and counts them |
| `PrimaryRun.PrimarySyncRun.ExecuteOverNetwork` | src-tauri/src/commands/mod.rs:2696-2779 | one result per action, and the peer changed by the acknowledged ones only |
| `PrimaryRun.PrimarySyncRun.PersistSuccesses` | src-tauri/src/commands/mod.rs:3178-3250 | the tables after recording, when any baseline write or snapshot removal may fail, and a success that could not be recorded reported as failed |
| `PrimaryRun.ReportedExactly` | src-tauri/src/commands/mod.rs:3178-3250 | an upload is reported as a success exactly if its own row was written behind its parents', a delete exactly if snapshot rows and baselines went |
| `PrimaryRun.PrimarySyncRun.RunOnce` | src-tauri/src/commands/mod.rs:2099-2410 | the whole new state of a run, results included, with and without an answer of the peer to the scan request |
| `PrimaryRun.RunAndConverge` | src-tauri/src/commands/mod.rs:2099-2410 | a run of the object with every action acknowledged ends with both trees equal and the baselines describing them |
| `TransferProtocol.OnlyWholeFilesAreCommitted` | src-tauri/src/transport/connection.rs:1018-1177 | over any interleaving nothing but the whole announced file is committed, a sender that reports success is right, no partial file is left |
| `TransferProtocol.NoDeadlock` | src-tauri/src/transport/connection.rs:1091-1111 | neither side ever waits for a message that the other will not send |
| `TransferProtocol.RunsTerminate` | src-tauri/src/transport/connection.rs:1054-1177 | the two sides take at most four turns per chunk plus eight |
| `TransferProtocol.TurnsCount` | src-tauri/src/transport/connection.rs:1054-1177 | a turn is each move of a side that can move, and nothing else |
| `TransferProtocol.EditedTargetIsNotReplaced` | src-tauri/src/transport/connection.rs:2158-2159 | in any interleaving a commit replaces the very target the receiver began with |
| `TransferProtocol.RestIsDelivery` | src-tauri/src/transport/connection.rs:1018-1177 | an undisturbed transfer at rest has delivered the file byte for byte exactly when the source was stable, as long as announced and the target no directory; otherwise the target is as before |
| `TransferProtocol.UnacknowledgedBytesBounded` | src-tauri/src/transport/connection.rs:1068-1111 | with reads of at most 4 MiB fewer than 68 MiB, 71303168 bytes, are sent and unacknowledged at any time |
| `TransferProtocol.DisturbedExactly` | src-tauri/src/transport/connection.rs:1018-1177 | what counts as a disturbance: an abort, and any edit of the target, which always takes effect |
| `TransferModel.AnswersTellTheOutcome` | src-tauri/src/transport/connection.rs:2034-2160 | each message's answer and effect on the receiver: confirmed chunks, refused chunks and ends with the bytes written, the commit; silence otherwise |
| `TransferLoops.CheckpointSpacing` | src-tauri/src/transport/connection.rs:1068-1111 | a chunk asks for an acknowledgement exactly if it reaches one more multiple of 64 MiB than there have been checkpoints, or the end |
| `TransferLoops.SendFileV2` | src-tauri/src/transport/connection.rs:1018-1177 | against any peer the loop succeeds exactly if the source fits its announcement and every checkpoint and the end are confirmed, and it performs the turns of the protocol's sender: same messages, same answers read, same end |
| `TransferLoops.Folder.RequestFileV2` | src-tauri/src/transport/connection.rs:1975-2193 | the receive loop's outcome, the acknowledgements it writes and the success it reports, for any sequence of messages, edits, cancellations and failures, with or without the last acknowledgement going out |
| `TransferLoops.LoopConfirms` | src-tauri/src/transport/connection.rs:2034-2160 | the loop confirms each fitting chunk that asks and each commit, and writes nothing for edits and failures |
| `TransferLoops.DownloadCommitsOrLeavesAlone` | src-tauri/src/transport/connection.rs:2017-2160 | a download either commits the announced, hashed bytes over the very target it began with, or leaves the target to others; no partial file survives |
| `TargetGuard.NoLostUpdate` | src-tauri/src/commands/mod.rs:2903-2909 | whatever the user edits between scan and commit, a guarded upload replaces the last-synced version or an absent path and nothing else, with check and rename in one step |
| `TargetGuard.RefusedUploadChangesNothing` | src-tauri/src/transport/connection.rs:1559-1575 | without a commit the path is as its user left it |
| `TargetGuard.ExpectedExactly` | src-tauri/src/commands/mod.rs:2903-2909 | a new path is expected absent, a synced one with its verified hash; without a verified hash anything is accepted |
| `TargetGuard.GuardIsExact` | src-tauri/src/commands/mod.rs:2903-2909 | with check and rename in one step, every run is safe exactly if the action carries an expectation |
| `TargetGuard.CheckThenRenameReplacesAnEdit` | src-tauri/src/transport/connection.rs:2158-2159 | whatever an action expects, any other version that is put in place between the check and the rename can be what is replaced |
| `TargetGuard.CommitReplacesSyncedExactly` | src-tauri/src/transport/connection.rs:2158-2159 | a commit replaces the user's version at the rename, and that is the last-synced one exactly if the edits since the check have left the path as it was |
| `TargetGuard.RepairNeedsTheFileBack` | src-tauri/src/commands/mod.rs:2528-2533 | a repair with a verified baseline commits only after the synced version is put back |
| `TargetGuard.CanCommitExactly` | src-tauri/src/transport/connection.rs:1559-1575 | with the user away an upload can succeed exactly if what it announces is what is there, or it announces nothing and nothing is there |
| `TargetGuard.RepairCommitsExactly` | src-tauri/src/commands/mod.rs:2528-2533 | a repair of a missing entry can succeed exactly if it announces nothing |
| `TargetGuard.RunCanBeAcknowledgedExactly` | src-tauri/src/commands/mod.rs:2495-2538 | every upload of a run can succeed exactly if no live file with a baseline is missing on the Secondary |
| `Framing.StreamRoundTrip` | src-tauri/src/transport/protocol.rs:367-403 | reading the bytes of any sequence of frames returns that sequence |
| `Framing.CutStreamRoundTrip` | src-tauri/src/transport/connection.rs:2327-2337 | a stream cut anywhere returns exactly the frames that are whole, then the end of the connection |
| `Framing.WholeFramesExactly` | src-tauri/src/transport/protocol.rs:367-398 | that number of frames is the largest whose bytes fit into the cut |
| `Framing.FrameSurvivesExactly` | src-tauri/src/transport/connection.rs:2327-2337 | a frame is read back exactly if its JSON is at most 10 MiB, 10485760 bytes; beyond that it is refused or cut short by the 32-bit length |
| `Framing.PrefixRoundTrip` | src-tauri/src/transport/protocol.rs:391-398 | the big-endian prefix carries the length modulo 2^32 |
| `Framing.BigEndianInBytes` | src-tauri/src/transport/protocol.rs:391-398 | the four bytes, the most significant first, and their value |
| `Framing.ByteStream.WriteFrame` | src-tauri/src/transport/protocol.rs:367-378 | three writes put the same bytes on the stream as one frame |
| `Framing.ByteStream.ReadNext` | src-tauri/src/transport/connection.rs:2327-2337 | reading from the stream is reading one frame of its pending bytes |
| `PeerState.PeerConnectionStateRepository.Ensure` | src-tauri/src/state/repository.rs:836-845 | inserts the initial row, or changes nothing |
| `PeerState.PeerConnectionStateRepository.SetLocalDisconnected` | src-tauri/src/state/repository.rs:872-892 | the new row, whose revision grows exactly when the flag changes |
| `PeerState.PeerConnectionStateRepository.ApplyRemoteDisconnected` | src-tauri/src/state/repository.rs:896-921 | accepts exactly a first, newer, or equal and agreeing revision; otherwise the row is as before |
| `PeerState.FlagMatchesRevision` | src-tauri/src/state/repository.rs:896-921 | the receiver's flag is the one the sender had at the receiver's revision, which is never ahead of the sender's |
| `PeerState.LogIsWriteOnce` | src-tauri/src/state/repository.rs:872-892 | a sender's flag at a revision never changes afterwards |
| `PeerState.RemoteRevisionNeverDecreases` | src-tauri/src/state/repository.rs:894-921 | no delivery, delayed or repeated, lowers the receiver's revision |
| `PeerState.NewestIsStable` | src-tauri/src/state/repository.rs:894-921 | once the newest revision has arrived nothing disturbs it until the sender changes its mind |
| `PeerState.NewestArrives` | src-tauri/src/state/repository.rs:896-921 | one arrival of the newest announcement synchronises the receiver, whatever came before |
| `PeerState.SyncReachableExactly` | src-tauri/src/transport/connection.rs:869-908 | with all commands handed over, the receiver can still learn the newest intent exactly if the publisher keeps it, or it is on the wire, or has arrived |
| `PeerState.OrderedPublisherKeepsNewest` | src-tauri/src/transport/connection.rs:869-908 | commands handed over in the order of their revisions leave the publisher with the newest |
| `PeerState.SwappedHandOverIsNeverRepaired` | src-tauri/src/commands/mod.rs:5925-5935 | two commands handed over in the wrong order leave the peer uninformed however long the network works |
| `PeerState.RestartRepairs` | src-tauri/src/app_state.rs:605-628 | after a restart of the sender the publisher keeps the newest intent, and one announcement synchronises the receiver |
| `RunCoordinator.SyncRunCoordinator.Begin` | src-tauri/src/app_state.rs:36-46 | starts a sync task or marks it for a rerun; other tasks are untouched |
| `RunCoordinator.SyncRunCoordinator.Finish` | src-tauri/src/app_state.rs:48-60 | consumes a rerun mark or removes the entry; other tasks are untouched |
| `RunCoordinator.TaskDirtyTracker.MarkDirtyPathsAt` | src-tauri/src/app_state.rs:227-237 | adds the paths and restarts the debounce clock |
| `RunCoordinator.TaskDirtyTracker.ReadyTaskIdsAt` | src-tauri/src/app_state.rs:243-256 | offers exactly the scheduled tasks whose last mark is at least the debounce old |
| `RunCoordinator.AtMostOneRun` | src-tauri/src/app_state.rs:35-65 | in every interleaving at most one attempt is under way |
| `RunCoordinator.NothingIsForgotten` | src-tauri/src/commands/mod.rs:2049-2082 | once all callers have returned, an attempt started after every request not dropped by an abort, and after every change whose dirty mark is gone |
| `RunCoordinator.RunsNeverOutnumberRequests` | src-tauri/src/commands/mod.rs:2049-2082 | there are never more attempts than requests |
| `RunCoordinator.OnlyFailuresDrop` | src-tauri/src/commands/mod.rs:2069-2073 | a request is dropped only if an attempt failed |
| `RunCoordinator.OwnerGetsThrough` | src-tauri/src/commands/mod.rs:2066-2078 | a caller inside can always move, and each move brings it closer to returning unless new requests arrive |
| `RunCoordinator.UnservedExactly` | src-tauri/src/commands/mod.rs:2049-2082 | a request is unserved exactly if no attempt has started since it was made |
| `RunCoordinator.AbortDropsWhatWaits` | src-tauri/src/app_state.rs:62-65 | an abort drops exactly the requests made since the failed attempt began |
| `RunCoordinator.DroppedExactly` | src-tauri/src/commands/mod.rs:2069-2073 | over any run the dropped requests are those that were waiting at some abort |
| `RunCoordinator.AbortDropsAQueuedRequest` | src-tauri/src/app_state.rs:62-65 | in a run of two callers the second is answered 'queued' and no attempt follows it |
| `KeepBoth.RecordedVersionSurvives` | src-tauri/src/commands/mod.rs:4612-4681 | no step touches the folder before a version is on record, and none removes the last local copy of the recorded version afterwards |
| `KeepBoth.CompletedRunKeepsBoth` | src-tauri/src/commands/mod.rs:4869-4949 | a completed run, after any stops, leaves the Primary's version at the original path, the Secondary's at the conflict path, both baselines and snapshots, and nothing pending |
| `KeepBoth.NewConflictIsResolved` | src-tauri/src/commands/mod.rs:4447-4694 | a first conflict, or one more after a settled one, is resolved in full under a new id: both versions on both sides, both baselines, nothing pending |
| `KeepBoth.BeginExactly` | src-tauri/src/commands/mod.rs:4447-4530 | where a run begins, by the journal row, the pending change and the source file |
| `KeepBoth.AnswerExactly` | src-tauri/src/commands/mod.rs:4596-4616 | what the Primary does with a new and with a repeated resolution, journalled or not, answered or not |
| `KeepBoth.UnjournalledCopyIsOrphaned` | src-tauri/src/commands/mod.rs:4447-4694 | a Primary that crashes between the copy and its journal row keeps a copy nobody knows of; the rerun completes with another one |
| `KeepBoth.RerunCompletesExactly` | src-tauri/src/commands/mod.rs:4653-4688 | an undisturbed rerun completes exactly if the recorded version can still be taken from the original or is at the conflict path already; and what it then leaves |
| `KeepBoth.StopsStayRecoverable` | src-tauri/src/commands/mod.rs:4523-4694 | however often it is stopped and begun again, the resolution stays recoverable until it is settled |
| `KeepBoth.CurrentVersionSurvivesExactly` | src-tauri/src/commands/mod.rs:4447-4463 | the version present when a recorded resolution is resumed survives exactly if it is the recorded one, the Primary's, or stored elsewhere |
| `KeepBoth.EditDuringRunIsLostExactly` | src-tauri/src/commands/mod.rs:4646-4672 | a version saved at the original path between the record and the replacement is lost exactly if the copy is in place, it is not the incoming version, and no other path has it |
| `KeepBoth.EditElsewhereStays` | src-tauri/src/commands/mod.rs:4646-4672 | a version saved at any other path in that time stays there |
| `KeepBoth.OpenRowLosesTheNextEdit` | src-tauri/src/commands/mod.rs:4679-4689 | stopped before the row is closed, the next change of the same file is resolved with the old record and lost |
| `KeepBoth.LostAnswerMisrecords` | src-tauri/src/commands/mod.rs:4596-4616 | a lost answer and an edit make both conflict baselines name a version the Primary lacks |
| `KeepBoth.RecordMatchesExactly` | src-tauri/src/commands/mod.rs:4596-4616 | a rerun records the path and version that the Primary applied exactly if it has applied nothing yet or applied the version that is still there |
| `KeepBoth.CompletedRecordMatchesExactly` | src-tauri/src/commands/mod.rs:4596-4681 | under exactly that condition the baselines of a completed rerun name the Primary's version of the conflict copy |
| `KeepBoth.RecordedVersionIsThePrimarys` | src-tauri/src/commands/mod.rs:4606-4616 | over any run in which the file is not changed while an answer is outstanding, the recorded path and version are what the Primary applied |
| `Displacement.PrimaryFolder.ExecuteReturnSync` | src-tauri/src/core/executor.rs:377-578 | folder, history, tables and results after the loop, for any failing steps |
| `Displacement.ReturnedOneByOne` | src-tauri/src/core/executor.rs:377-578 | each path's result is that of its own return in the folder as the earlier ones left it |
| `Displacement.SuccessfulReturn` | src-tauri/src/core/executor.rs:427-560 | a reported success carried the change out, recorded it and cleared the pending row |
| `Displacement.ReturnSucceedsExactly` | src-tauri/src/core/executor.rs:377-578 | a return succeeds exactly if it is pending, the Primary's file is as synced by hashes or else size and time, the copy can be made, and no step fails |
| `Displacement.ReturnSteps` | src-tauri/src/core/executor.rs:427-560 | how far a failing return gets in folder, history and tables |
| `Displacement.MoveExactly` | src-tauri/src/history/store.rs:271-300 | a move takes exactly the path and what is beneath it, and every file among it is in the history |
| `Displacement.ReturnDisplacesNothingUnrecoverable` | src-tauri/src/core/executor.rs:377-578 | after a whole call with any steps failing, a version that is gone is in the history, or was the baseline's by its hash, or was let through without hashes; the scan need only be right about that path |
| `Displacement.OverwriteDisplacesNothing` | src-tauri/src/core/executor.rs:584-704 | a confirmed overwrite puts what it displaces into the history, wherever it fails |
| `Displacement.OverwriteSucceedsExactly` | src-tauri/src/core/executor.rs:584-704 | a confirmed overwrite succeeds exactly if the Secondary's file has the promised hash and fits, and no step fails |
| `Displacement.SuccessfulOverwrite` | src-tauri/src/core/executor.rs:584-704 | and then the file is there, recorded, no longer pending, what it displaced is in the history, and nothing else has changed |
| `Displacement.OverwriteSteps` | src-tauri/src/core/executor.rs:584-704 | how far a failing overwrite gets: move, copy, baseline, pending row |
| `Displacement.OverwriteNeedsTheFile` | src-tauri/src/core/executor.rs:597-606 | without the Secondary's file nothing is touched |
| `Displacement.PrimaryFolder.OverwritePath` | src-tauri/src/core/executor.rs:584-704 | the steps in place do that, for any step failing |
| `Displacement.KeepBothDisplacesNothing` | src-tauri/src/core/executor.rs:710-794 | keep-both under a fresh name displaces nothing |
| `Displacement.KeepBothSucceedsExactly` | src-tauri/src/core/executor.rs:710-794 | keep-both succeeds exactly if the file can be delivered under the free name and no step fails |
| `Displacement.SuccessfulKeepBoth` | src-tauri/src/core/executor.rs:710-794 | and then the copy is there and recorded under its name, the original untouched, the pending row gone |
| `Displacement.PrimaryFolder.KeepBothAt` | src-tauri/src/core/executor.rs:710-794 | the steps in place do that, for any step failing |
| `Displacement.ReturnReplacesExactly` | src-tauri/src/core/conflict.rs:28-115 | a shown file is replaced without history exactly if its hash is the baseline's, or, where a hash is missing, if size and time agree |
| `Displacement.ReplacedWasTheBaselineExactly` | src-tauri/src/core/conflict.rs:28-115 | of a file replaced after a comparison of hashes, the version was the baseline's exactly if the scan was still right about it |
| `Displacement.AppearedFileIsReplaced` | src-tauri/src/core/executor.rs:427-560 | a return of a created file replaces whatever has appeared at its path since the scan, without a copy in the history |
| `Displacement.NothingUnrecoverable` | src-tauri/src/core/executor.rs:377-794 | over any sequence of calls, with the world changing in between, each version that a call displaces is in the history for good, or equalled its baseline at that moment, or was let through by a return without hashes; if the scan was right about its path |
| `SecondaryPull.SecondaryFolder.ExecutePull` | src-tauri/src/commands/mod.rs:3314-3422 | folder and results after the loop over the Primary's entries |
| `SecondaryPull.AskedExactly` | src-tauri/src/commands/mod.rs:3424-3466 | which entries a pull reaches for, in the fields of the Primary's entry, the scan and the baseline |
| `SecondaryPull.NotAskedExactly` | src-tauri/src/commands/mod.rs:3314-3422 | what is not asked for changes nothing, and is skipped or reported as failed, case by case |
| `SecondaryPull.WrittenExactly` | src-tauri/src/commands/mod.rs:3340-3420 | an entry that is asked for is written exactly if its parents are free, the transfer arrives and the path holds nothing of the other kind; else the path is left as it is |
| `SecondaryPull.PullTables.PersistPull` | src-tauri/src/commands/mod.rs:3468-3574 | snapshots, baselines, pending rows and reports after recording a pull, wherever each entry's steps break off |
| `SecondaryPull.RecordedEntry` | src-tauri/src/commands/mod.rs:3549-3562 | a recorded file has the delivered hash, verified on both sides, with its present size and time; a recorded folder no hash |
| `SecondaryPull.RecordedSnapshot` | src-tauri/src/commands/mod.rs:3524-3540 | the snapshot rows show what arrived, and everything else as before |
| `SecondaryPull.PendingExactly` | src-tauri/src/commands/mod.rs:3563-3574 | a pending row goes and a success is reported exactly if every step went through |
| `SecondaryPull.PullWritesOnlyFreshOrSynced` | src-tauri/src/commands/mod.rs:3424-3466 | a path about which the scan is right changes only where it saw nothing or the version last synced |
| `SecondaryPull.EditAfterScanIsReplaced` | src-tauri/src/transport/connection.rs:1720-1720 | a download replaces whatever file is there when it starts, even if the scan saw another |
| `SecondaryPull.ReplacedWasSyncedExactly` | src-tauri/src/commands/mod.rs:3424-3466 | where the scan saw something, a replaced file was the version last synced exactly if the scan was still right about it |
| `SecondaryPull.PullIgnoresPresentVersion` | src-tauri/src/commands/mod.rs:3314-3422 | with any other version of a file in the folder a pull has the same results, and replaces that version where it replaces this one |
| `SecondaryPull.PullNeverResurrects` | src-tauri/src/commands/mod.rs:3439-3445 | a file deleted here and unchanged on the Primary stays deleted |
| `SecondaryPull.PulledThenDeletedStaysDeleted` | src-tauri/src/commands/mod.rs:3424-3574 | a file that was pulled, recorded and then deleted here stays deleted while the Primary's is the same |
| `SecondaryPull.FolderReturnsOnlyForItsContents` | src-tauri/src/commands/mod.rs:3429-3438 | a folder deleted here comes back only if something beneath it is fetched |
| `SecondaryPull.NextPullAsksNothing` | src-tauri/src/commands/mod.rs:3424-3574 | a complete pull of an unchanged Primary leaves nothing to ask for, even if recording it broke off anywhere |
| `ReturnOrder.ExpandedExactly` | src-tauri/src/commands/mod.rs:3812-3834 | a pending path is covered exactly if it is at or below a selection; anything else covered is a selection above something pending |
| `ReturnOrder.ExpandSelectedReturnPaths` | src-tauri/src/commands/mod.rs:3812-3838 | the list has exactly those members, in send order |
| `ReturnOrder.BeforeIsStrictTotalOrder` | src-tauri/src/commands/mod.rs:3840-3857 | the comparator is a strict total order |
| `ReturnOrder.DeletesExactly` | src-tauri/src/commands/mod.rs:3859-3875 | which paths are sent with the deletes: by their own change, or, without one, if all that is pending beneath them is deleted |
| `ReturnOrder.BeforeExactly` | src-tauri/src/commands/mod.rs:3840-3857 | the order in full: creates before deletes, creates shallow first, deletes deep first, then as in a dictionary |
| `Ordering.LexExactly` | src-tauri/src/commands/mod.rs:3840-3857 | texts are ordered by the first character in which they differ, or by length |
| `Ordering.PathExactly` | src-tauri/src/history/store.rs:465-472 | paths are ordered by the first component in which they differ, or by length |
| `ReturnOrder.ResultIsUnique` | src-tauri/src/commands/mod.rs:3835-3857 | the list does not depend on the order in which the set is read |
| `ReturnOrder.OrderRespectsTree` | src-tauri/src/commands/mod.rs:3840-3857 | parents are created first, children deleted first, and no delete comes before a create |
| `ReturnOrder.DeleteOverCreateExactly` | src-tauri/src/commands/mod.rs:3812-3875 | a delete in the list lies above a create exactly if a pending delete at or below a selection has a pending create or change beneath it |
| `ScanCache.Scanner.WalkDir` | src-tauri/src/core/scanner.rs:70-193 | the recursive walk pushes the snapshots of its visits in order, or fails if something it visits is unreadable |
| `ScanCache.ScanRoot` | src-tauri/src/core/scanner.rs:23-37 | a scan is that walk from the root |
| `ScanCache.ScanFailsExactly` | src-tauri/src/core/scanner.rs:70-193 | a scan fails exactly if it meets something it cannot read |
| `ScanCache.FoundIsVisited` | src-tauri/src/core/scanner.rs:70-193 | everything that stands in the tree and is not ignored is listed |
| `ScanCache.VisitedIsFound` | src-tauri/src/core/scanner.rs:70-193 | everything listed stands in the tree at its path and is not ignored |
| `ScanCache.VisitsAreUnique` | src-tauri/src/core/scanner.rs:70-193 | no path is listed twice |
| `ScanCache.ScanMeetsPlannersNeeds` | src-tauri/src/core/scanner.rs:119-136 | paths are clean, each directory is listed before its contents, and every parent is present as a directory |
| `ScanCache.CachedScanIsFullScanExactly` | src-tauri/src/core/scanner.rs:153-175 | a scan with a cache equals the full hashing scan exactly if the cache is sound where it applies |
| `ScanCache.ScannedInFields` | src-tauri/src/core/scanner.rs:92-193 | what a scan with a sound cache records: files of at most 104857600 bytes with the hash of their content, larger or unreadable ones without, folders and links bare |
| `ScanCache.CacheIsUsedExactly` | src-tauri/src/core/scanner.rs:153-175 | a hash is taken over exactly from a verified row of the same path, size and time |
| `ScanCache.MetadataScanInFields` | src-tauri/src/core/scanner.rs:43-53 | a scan for metadata records the same without any hash |
| `ScanCache.ScanIsNextCache` | src-tauri/src/core/scanner.rs:153-175 | a true scan is a sound cache for any later tree in which equal path, size and time mean equal content |
| `ScanCache.SeriesStaysExact` | src-tauri/src/core/scanner.rs:23-37 | scan after scan, each reusing the last one's hashes, the result is what hashing everything would report |
| `HistoryEviction.HistoryStore.CleanupToSizeLimitPreserving` | src-tauri/src/history/store.rs:426-491 | the loop removes the files to be evicted as far as removals succeed, and counts them; a negative limit removes nothing |
| `HistoryEviction.RunningTotalIsExact` | src-tauri/src/history/store.rs:472-489 | the loop's running total is the size of what is left |
| `HistoryEviction.EvictsShortestOldestRun` | src-tauri/src/history/store.rs:465-489 | the evicted files are the shortest run of the oldest, the preserved one set aside, that brings the rest within the limit, or all of them |
| `HistoryEviction.CleanupGuarantees` | src-tauri/src/history/store.rs:426-491 | nothing newer goes before something older, the preserved file stays, every deletion was needed, and in the end the rest fits or only the preserved file is left |
| `HistoryEviction.OldestGoFirst` | src-tauri/src/history/store.rs:465-489 | no file that stays, but the preserved one, was created before one that goes; at equal times the lesser path goes first |
| `HistoryEviction.EvictionReaches` | src-tauri/src/history/store.rs:465-489 | the eviction reaches a candidate exactly if those before it do not free enough |
| `HistoryEviction.EvictedExactly` | src-tauri/src/history/store.rs:465-489 | a file goes exactly if it is not the preserved one and it, everything not older and the preserved file exceed the limit |
| `HistoryEviction.EvictedByAgeExactly` | src-tauri/src/history/store.rs:465-489 | the same by creation times: the fate of a file is decided by the total of what was created after it, or with it and not before it by path, and the preserved file |
| `HistoryEviction.PreservedDirectoryIsIgnored` | src-tauri/src/history/store.rs:296-300 | asking to preserve a path that is no file's changes nothing |
| `HistoryEviction.MovedTreeStaysExactly` | src-tauri/src/history/store.rs:296-300 | nothing of a moved directory goes exactly if each of its files fits the limit together with everything not older |
| `HistoryEviction.MovedTreeIsNotPreserved` | src-tauri/src/history/store.rs:296-300 | a file larger than the limit is evicted although the directory it was moved in was to be preserved |
| `ConflictName.SplitExactly` | src-tauri/src/core/conflict.rs:158-167 | stem and extension make up the path, and the extension begins at the last dot of the last component unless that dot comes first |
| `ConflictName.ConflictFilename` | src-tauri/src/core/conflict.rs:121-155 | the first candidate that does not exist, found within one more try than there are entries |
| `ConflictName.CandidatesDiffer` | src-tauri/src/core/conflict.rs:144-152 | differently numbered candidates are different names |
| `ConflictName.CandidateText` | src-tauri/src/core/conflict.rs:121-155 | the names in full: stem, note with device and time, from the second on a dash and the number, extension |
| `ConflictName.DecimalReadsBack` | src-tauri/src/core/conflict.rs:144-152 | numbers are written in decimal without leading zeros |
| `ConflictName.CandidateBesideOriginal` | src-tauri/src/core/conflict.rs:121-155 | the copy is never the original and lies beside it, as long as the device name has no slash |

## Left out

- Planner.PlanSync: sorts by insertion, as the library does for short lists; does not model the order that its sort of long lists may yield under a comparison that is no order.
- TreeTable.Outcome: does not model that SQL LIKE ignores ASCII case; no two paths differ only in case.
- Convergence.SecondaryConverges: takes every acknowledgement as given, when they can be given is `TargetGuard.RunCanBeAcknowledgedExactly`; unhashed large files and paths that change between file and directory are excluded, since the program compares missing hashes as equal.
- TargetGuard.NoLostUpdate: takes the version check and the rename as one step; the window between them is `TargetGuard.CommitReplacesSyncedExactly`.
- TargetGuard.RunCanBeAcknowledgedExactly: says nothing of directory creates and deletes, which announce no version.
- KeepBoth.CompletedRunKeepsBoth: the lookup of an open journal row is modelled although the query as written names no table.
- KeepBoth.RecordedVersionSurvives: users edit the Secondary's folder between runs; edits between two steps of one run are `KeepBoth.EditDuringRunIsLostExactly`.
- HistoryEviction.HistoryStore.CleanupToSizeLimitPreserving: does not model the pruning of empty directories or files that vanish by themselves.
- Displacement.NothingUnrecoverable: files that change at a returned path after the scan are `Displacement.ReplacedWasTheBaselineExactly` and `Displacement.AppearedFileIsReplaced`; leaves the eviction of old history aside.
- ConflictName.ConflictFilename: does not model the overflow of the counter after two thousand million taken names.
- ScanCache.ScanMeetsPlannersNeeds: file names contain no slash or backslash; the program rewrites backslashes to slashes.
- The Primary's own receiver in the server, with its commit journal, leases and connection handling; the receive loop of the download stands for the receiving side, and the start check of the server for `TargetGuard`.
- The V1 transfer protocol, negotiation, timeouts, retries, throttling and progress reports.
- Sockets, task scheduling and dropped tasks: a run whose task is cancelled from outside would leave its coordinator entry behind.
- JSON, BLAKE3 and Ed25519 internals: JSON is any decodable encoding, hashes identify contents.
- SQLite, migrations, time stamps of rows, and the removal of paired devices with their connection state.
- Symbolic links as attacks on paths, file identity and replace retries of Windows; a replace is one step.
- Conflict resolution over the network by overwriting, and of pending deletes.
- The user interface, tray, settings, updates, discovery, pairing, diagnostics and import from other folders.
- Integers are unbounded: sizes, times and revisions do not overflow.
