/** The records that planning, execution and persistence pass around. */
module Model {
  import opened Prelude
  import opened Paths

  /** A content hash; equal hashes mean equal contents. */
  type Hash = string

  datatype DeviceRole = Primary | Secondary
  datatype EntryKind = File | Directory
  datatype HashStatus = Verified | UnverifiedLargeFile | Unavailable
  datatype ChangeKind = Created | Modified | Deleted

  datatype SyncDecision =
    | ApplyToSecondary
    | MoveSecondaryToHistory
    | MarkPendingReturn
    | RequireConflictDecision
    | KeepBoth
    | Noop

  datatype FileSnapshot = FileSnapshot(
    relativePath: RelPath,
    kind: EntryKind,
    size: int,
    modifiedMs: int,
    hash: Option<Hash>,
    hashStatus: HashStatus,
    deleted: bool,
    isSymlink: bool)

  datatype SyncBaseline = SyncBaseline(
    relativePath: RelPath,
    primaryHash: Option<Hash>,
    primaryHashStatus: HashStatus,
    primarySize: int,
    secondarySize: int,
    primaryModifiedMs: int,
    secondaryHash: Option<Hash>,
    secondaryHashStatus: HashStatus,
    secondaryModifiedMs: int,
    lastSyncedMs: int)

  datatype RemoteFileState = RemoteFileState(
    relativePath: RelPath,
    kind: EntryKind,
    hash: Option<Hash>,
    hashStatus: HashStatus,
    size: int,
    modifiedMs: int)

  datatype PendingReturnChange = PendingReturnChange(
    relativePath: RelPath,
    changeKind: ChangeKind,
    secondaryHash: Option<Hash>,
    secondaryHashStatus: HashStatus,
    secondaryModifiedMs: int,
    createdMs: int)

  datatype PlannedAction = PlannedAction(
    relativePath: RelPath,
    decision: SyncDecision,
    snapshot: Option<FileSnapshot>,
    baseline: Option<SyncBaseline>)

  /** A snapshot that planning looks at. */
  predicate IsLive(snap: FileSnapshot) { !snap.deleted && !snap.isSymlink }

  /** `HashMap` built from rows: a later row replaces an earlier one with the same path. */
  function BaselineIndex(rows: seq<SyncBaseline>): map<RelPath, SyncBaseline> {
    if rows == [] then map[]
    else BaselineIndex(rows[..|rows| - 1])[rows[|rows| - 1].relativePath := rows[|rows| - 1]]
  }

  /** The snapshots by path, in the same manner. */
  function SnapshotIndex(snaps: seq<FileSnapshot>): map<RelPath, FileSnapshot> {
    if snaps == [] then map[]
    else SnapshotIndex(snaps[..|snaps| - 1])[snaps[|snaps| - 1].relativePath := snaps[|snaps| - 1]]
  }

  /** The live snapshots by path. */
  function LiveIndex(snaps: seq<FileSnapshot>): map<RelPath, FileSnapshot> {
    if snaps == [] then map[]
    else
      var rest := LiveIndex(snaps[..|snaps| - 1]);
      var last := snaps[|snaps| - 1];
      if IsLive(last) then rest[last.relativePath := last] else rest
  }

  /** The table's key is the path. */
  ghost predicate UniqueBaselines(rows: seq<SyncBaseline>) {
    forall i, j :: 0 <= i < j < |rows| ==> rows[i].relativePath != rows[j].relativePath
  }

  ghost predicate UniqueSnapshots(snaps: seq<FileSnapshot>) {
    forall i, j :: 0 <= i < j < |snaps| ==> snaps[i].relativePath != snaps[j].relativePath
  }

  ghost predicate UniqueActions(actions: seq<PlannedAction>) {
    forall i, j :: 0 <= i < j < |actions| ==> actions[i].relativePath != actions[j].relativePath
  }

  lemma {:induction false} BaselineIndexFacts(rows: seq<SyncBaseline>)
    ensures forall p :: p in BaselineIndex(rows) ==>
              BaselineIndex(rows)[p] in rows && BaselineIndex(rows)[p].relativePath == p
    ensures forall i :: 0 <= i < |rows| ==> rows[i].relativePath in BaselineIndex(rows)
    ensures UniqueBaselines(rows) ==>
              forall i :: 0 <= i < |rows| ==> BaselineIndex(rows)[rows[i].relativePath] == rows[i]
  {
    if rows != [] {
      var n := |rows| - 1;
      BaselineIndexFacts(rows[..n]);
      SplitLast(rows);
      assert forall i :: 0 <= i < n ==> rows[..n][i] == rows[i];
    }
  }

  lemma {:induction false} LiveIndexFacts(snaps: seq<FileSnapshot>)
    ensures forall p :: p in LiveIndex(snaps) ==>
              LiveIndex(snaps)[p] in snaps && LiveIndex(snaps)[p].relativePath == p && IsLive(LiveIndex(snaps)[p])
    ensures forall i :: 0 <= i < |snaps| && IsLive(snaps[i]) ==> snaps[i].relativePath in LiveIndex(snaps)
    ensures UniqueSnapshots(snaps) ==>
              forall i :: 0 <= i < |snaps| && IsLive(snaps[i]) ==>
                LiveIndex(snaps)[snaps[i].relativePath] == snaps[i]
  {
    if snaps != [] {
      var n := |snaps| - 1;
      LiveIndexFacts(snaps[..n]);
      SplitLast(snaps);
      assert forall i :: 0 <= i < n ==> snaps[..n][i] == snaps[i];
    }
  }

  /** The snapshot rows by path: every path that has a row, with its row if that is the only one. */
  lemma {:induction false} SnapshotIndexFacts(snaps: seq<FileSnapshot>)
    ensures forall p :: p in SnapshotIndex(snaps) ==>
              SnapshotIndex(snaps)[p] in snaps && SnapshotIndex(snaps)[p].relativePath == p
    ensures forall i :: 0 <= i < |snaps| ==> snaps[i].relativePath in SnapshotIndex(snaps)
    ensures UniqueSnapshots(snaps) ==>
              forall i :: 0 <= i < |snaps| ==> SnapshotIndex(snaps)[snaps[i].relativePath] == snaps[i]
  {
    if snaps != [] {
      var n := |snaps| - 1;
      SnapshotIndexFacts(snaps[..n]);
      SplitLast(snaps);
      assert forall i :: 0 <= i < n ==> snaps[..n][i] == snaps[i];
    }
  }
}
