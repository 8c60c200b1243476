/** The Primary's sync run after planning: the edits to the action list, the checks before each
    send, and the table writes that record a success. */
module PrimarySync {
  import opened Prelude
  import opened Paths
  import opened Model
  import opened TreeTable
  import opened Planner

  const SMALL_FILE_LIMIT := 8 * 1024 * 1024

  // ---- the action list ----

  function ActionPaths(actions: seq<PlannedAction>): set<RelPath> {
    set a | a in actions :: a.relativePath
  }

  /** An entry of the previous scan that vanished before it ever got a baseline. */
  function RecoveredDelete(snap: FileSnapshot, live: map<RelPath, FileSnapshot>,
                           baselines: map<RelPath, SyncBaseline>, planned: set<RelPath>): Option<PlannedAction>
  {
    if !IsLive(snap) || snap.relativePath in live || snap.relativePath in baselines || snap.relativePath in planned
    then None
    else Some(PlannedAction(snap.relativePath, MoveSecondaryToHistory, Some(snap), None))
  }

  function RecoveredStep(live: map<RelPath, FileSnapshot>, baselines: map<RelPath, SyncBaseline>, planned: set<RelPath>)
    : FileSnapshot -> Option<PlannedAction>
  {
    (snap: FileSnapshot) => RecoveredDelete(snap, live, baselines, planned)
  }

  function WithRecovered(actions: seq<PlannedAction>, cached: seq<FileSnapshot>, snaps: seq<FileSnapshot>,
                         rows: seq<SyncBaseline>): seq<PlannedAction>
  {
    actions + FilterMap(RecoveredStep(LiveIndex(snaps), BaselineIndex(rows), ActionPaths(actions)), cached)
  }

  predicate LooksLikeDirectory(b: SyncBaseline) {
    b.primaryHash.None? && b.secondaryHash.None? &&
    b.primaryHashStatus == Unavailable && b.secondaryHashStatus == Unavailable &&
    b.primarySize == 0 && b.secondarySize == 0
  }

  predicate IsDirectoryDelete(a: PlannedAction) {
    (a.snapshot.Some? && a.snapshot.value.kind == Directory) ||
    (a.baseline.Some? && LooksLikeDirectory(a.baseline.value))
  }

  function DirectoryDeleteStep(): PlannedAction -> Option<RelPath> {
    (a: PlannedAction) =>
      if a.decision == MoveSecondaryToHistory && IsDirectoryDelete(a) then Some(a.relativePath) else None
  }

  predicate Retained(a: PlannedAction, directories: seq<RelPath>) {
    a.decision == MoveSecondaryToHistory ==>
      !exists dir | dir in directories :: a.relativePath != dir && IsDescendant(a.relativePath, dir)
  }

  function RetainStep(directories: seq<RelPath>): PlannedAction -> bool {
    (a: PlannedAction) => Retained(a, directories)
  }

  /** Drop every delete beneath a directory delete. */
  function Compress(actions: seq<PlannedAction>): seq<PlannedAction> {
    var directories := FilterMap(DirectoryDeleteStep(), actions);
    if directories == [] then actions else Filter(RetainStep(directories), actions)
  }

  predicate MatchesPrimaryBaseline(snap: FileSnapshot, b: SyncBaseline) {
    if snap.kind == Directory then b.primaryHash.None?
    else if snap.hashStatus == Verified && b.primaryHashStatus == Verified then snap.hash == b.primaryHash
    else snap.size == b.primarySize && snap.modifiedMs == b.primaryModifiedMs
  }

  /** An unchanged entry that the peer no longer has. */
  function Repair(b: SyncBaseline, live: map<RelPath, FileSnapshot>, planned: set<RelPath>, remote: set<RelPath>)
    : Option<PlannedAction>
  {
    if b.relativePath in planned || b.relativePath in remote || b.relativePath !in live then None
    else if !MatchesPrimaryBaseline(live[b.relativePath], b) then None
    else Some(PlannedAction(b.relativePath, ApplyToSecondary, Some(live[b.relativePath]), Some(b)))
  }

  function RepairStep(live: map<RelPath, FileSnapshot>, planned: set<RelPath>, remote: set<RelPath>)
    : SyncBaseline -> Option<PlannedAction>
  {
    (b: SyncBaseline) => Repair(b, live, planned, remote)
  }

  function RemotePaths(remote: seq<RemoteFileState>): set<RelPath> {
    set r | r in remote :: r.relativePath
  }

  function WithRepairs(actions: seq<PlannedAction>, snaps: seq<FileSnapshot>, rows: seq<SyncBaseline>,
                       remote: seq<RemoteFileState>): seq<PlannedAction>
  {
    actions + FilterMap(RepairStep(LiveIndex(snaps), ActionPaths(actions), RemotePaths(remote)), rows)
  }

  function Priority(a: PlannedAction): int {
    match a.decision
    case MoveSecondaryToHistory => 0
    case ApplyToSecondary =>
      if a.snapshot.Some? && a.snapshot.value.kind == Directory then 0
      else if (if a.snapshot.Some? then a.snapshot.value.size else 0) <= SMALL_FILE_LIMIT then 1
      else 2
    case _ => 3
  }

  function PriorityKey(): PlannedAction -> int { (a: PlannedAction) => Priority(a) }

  function ByPriority(actions: seq<PlannedAction>): seq<PlannedAction> { SortBy(PriorityKey(), actions) }

  /** The list before the peer is asked what it has. */
  function LocalActions(snaps: seq<FileSnapshot>, cached: seq<FileSnapshot>, rows: seq<SyncBaseline>)
    : seq<PlannedAction>
  {
    ByPriority(Compress(WithRecovered(Plan(snaps, rows, Primary), cached, snaps, rows)))
  }

  /** The list that is executed. */
  function AllActions(snaps: seq<FileSnapshot>, cached: seq<FileSnapshot>, rows: seq<SyncBaseline>,
                      remote: seq<RemoteFileState>): seq<PlannedAction>
  {
    var actions := LocalActions(snaps, cached, rows);
    var repaired := WithRepairs(actions, snaps, rows, remote);
    if |repaired| > |actions| then ByPriority(repaired) else repaired
  }

  // ---- the checks before a send ----

  datatype Refusal = NotADirectory | RemoteChanged | RemoteExists | DeleteNeedsEvidence | DirectoryDeleteNeedsBaseline

  function RemoteIndex(remote: seq<RemoteFileState>): map<RelPath, RemoteFileState> {
    if remote == [] then map[]
    else RemoteIndex(remote[..|remote| - 1])[remote[|remote| - 1].relativePath := remote[|remote| - 1]]
  }

  function RemoteConflict(a: PlannedAction, remote: map<RelPath, RemoteFileState>): Option<Refusal> {
    if a.relativePath !in remote then None
    else
      var r := remote[a.relativePath];
      if a.snapshot.Some? && a.snapshot.value.kind == Directory then
        if r.kind == Directory then None else Some(NotADirectory)
      else
        match a.baseline
        case None => Some(RemoteExists)
        case Some(b) => if b.secondaryHash == r.hash then None else Some(RemoteChanged)
  }

  predicate RemoteMatchesForDelete(r: RemoteFileState, b: SyncBaseline) {
    if LooksLikeDirectory(b) then r.kind == Directory
    else if r.kind != File then false
    else if b.secondaryHashStatus == Verified && b.secondaryHash.Some? then
      r.hashStatus != Verified || b.secondaryHash == r.hash
    else
      b.secondaryHashStatus != Verified && r.hashStatus != Verified &&
      b.secondarySize == r.size && b.secondaryModifiedMs == r.modifiedMs
  }

  function RemoteDeleteRefusal(a: PlannedAction, remote: map<RelPath, RemoteFileState>): Option<Refusal> {
    if a.relativePath !in remote then None
    else
      var r := remote[a.relativePath];
      match a.baseline
      case Some(b) => if RemoteMatchesForDelete(r, b) then None else Some(RemoteChanged)
      case None =>
        match a.snapshot
        case None => Some(DeleteNeedsEvidence)
        case Some(s) =>
          if s.kind != r.kind then Some(RemoteChanged)
          else if s.kind == Directory then Some(DirectoryDeleteNeedsBaseline)
          else if s.hashStatus == Verified && r.hashStatus == Verified && s.hash == r.hash then None
          else Some(RemoteChanged)
  }

  /** What the peer answered to one send; for a file, the hash of the bytes that were streamed. */
  datatype Ack = NoAck | Acked(hash: Hash)

  datatype NetworkResult = NetworkResult(success: bool, transferredHash: Option<Hash>)

  const FAILED := NetworkResult(false, None)

  function Execute(a: PlannedAction, remote: map<RelPath, RemoteFileState>, deferred: set<RelPath>, ack: Ack)
    : NetworkResult
  {
    match a.decision
    case ApplyToSecondary =>
      if RemoteConflict(a, remote).Some? then FAILED
      else if a.snapshot.Some? && a.snapshot.value.kind == Directory then NetworkResult(ack.Acked?, None)
      else if a.relativePath in deferred || a.snapshot.None? then FAILED
      else if ack.Acked? then NetworkResult(true, Some(ack.hash)) else FAILED
    case MoveSecondaryToHistory =>
      if RemoteDeleteRefusal(a, remote).Some? then FAILED else NetworkResult(ack.Acked?, None)
    case Noop => NetworkResult(true, None)
    case _ => FAILED
  }

  function ExecuteAll(actions: seq<PlannedAction>, remote: map<RelPath, RemoteFileState>, deferred: set<RelPath>,
                      acks: seq<Ack>): (results: seq<NetworkResult>)
    requires |acks| == |actions|
    ensures |results| == |actions|
    ensures forall i :: 0 <= i < |actions| ==> results[i] == Execute(actions[i], remote, deferred, acks[i])
  {
    if actions == [] then []
    else
      var n := |actions| - 1;
      ExecuteAll(actions[..n], remote, deferred, acks[..n]) + [Execute(actions[n], remote, deferred, acks[n])]
  }

  // ---- what an acknowledged action does to the peer's folder ----

  datatype Entry = Folder | Content(hash: Hash)

  function Puts<V>(paths: seq<RelPath>, value: RelPath -> V): seq<Write<V>> {
    seq(|paths|, i requires 0 <= i < |paths| => Put(paths[i], value(paths[i])))
  }

  function FolderAt(): RelPath -> Entry { (p: RelPath) => Folder }

  function PeerWrites(a: PlannedAction, r: NetworkResult): seq<Write<Entry>> {
    if !r.success then []
    else
      match a.decision
      case ApplyToSecondary =>
        var entry := if r.transferredHash.Some? then Content(r.transferredHash.value) else Folder;
        Puts(ParentPaths(a.relativePath), FolderAt()) + [Put(a.relativePath, entry)]
      case MoveSecondaryToHistory => [DropTree(a.relativePath)]
      case _ => []
  }

  function AllPeerWrites(actions: seq<PlannedAction>, results: seq<NetworkResult>): seq<Write<Entry>>
    requires |results| == |actions|
  {
    if actions == [] then []
    else
      var n := |actions| - 1;
      AllPeerWrites(actions[..n], results[..n]) + PeerWrites(actions[n], results[n])
  }

  // ---- what a success does to the tables ----

  function DirectoryBaseline(path: RelPath, now: int): SyncBaseline {
    SyncBaseline(path, None, Unavailable, 0, 0, 0, None, Unavailable, 0, now)
  }

  function DirectoryBaselineAt(now: int): RelPath -> SyncBaseline { (p: RelPath) => DirectoryBaseline(p, now) }

  /** The streamed hash if there is one, else the scanned one, else a fresh hash of the source. */
  function RecordedHash(a: PlannedAction, snap: FileSnapshot, transferred: Option<Hash>, rehash: map<RelPath, Hash>)
    : (Option<Hash>, HashStatus)
  {
    if transferred.Some? then (transferred, Verified)
    else if snap.hashStatus == Verified then (snap.hash, snap.hashStatus)
    else if a.relativePath in rehash then (Some(rehash[a.relativePath]), Verified)
    else (snap.hash, snap.hashStatus)
  }

  function AppliedBaseline(a: PlannedAction, snap: FileSnapshot, r: NetworkResult, rehash: map<RelPath, Hash>, now: int)
    : SyncBaseline
  {
    var (hash, status) := RecordedHash(a, snap, r.transferredHash, rehash);
    SyncBaseline(a.relativePath, hash, status, snap.size, snap.size, snap.modifiedMs, hash, status, snap.modifiedMs,
                 now)
  }

  function BaselineWrites(a: PlannedAction, r: NetworkResult, rehash: map<RelPath, Hash>, now: int)
    : seq<Write<SyncBaseline>>
  {
    if !r.success then []
    else
      match a.decision
      case ApplyToSecondary =>
        if a.snapshot.None? then []
        else
          Puts(ParentPaths(a.relativePath), DirectoryBaselineAt(now)) +
          [Put(a.relativePath, AppliedBaseline(a, a.snapshot.value, r, rehash, now))]
      case MoveSecondaryToHistory => [DropTree(a.relativePath)]
      case _ => []
  }

  /** The table writes that happened, when the database may stop accepting writes in the middle of
      an action: `done[i]` writes of action `i` went through. */
  function Performed(actions: seq<PlannedAction>, results: seq<NetworkResult>, done: seq<nat>,
                     rehash: map<RelPath, Hash>, now: int): seq<Write<SyncBaseline>>
    requires |results| == |actions| && |done| == |actions|
  {
    if actions == [] then []
    else
      var n := |actions| - 1;
      var writes := BaselineWrites(actions[n], results[n], rehash, now);
      Performed(actions[..n], results[..n], done[..n], rehash, now) + writes[..Min(done[n], |writes|)]
  }

  /** The paths whose snapshot rows a successful delete removes, if the database lets it. */
  function SnapshotWrites(a: PlannedAction, r: NetworkResult, forgets: bool): seq<Write<FileSnapshot>> {
    if r.success && a.decision == MoveSecondaryToHistory && forgets then [DropTree(a.relativePath)] else []
  }

  function AllSnapshotWrites(actions: seq<PlannedAction>, results: seq<NetworkResult>, forgets: seq<bool>)
    : seq<Write<FileSnapshot>>
    requires |results| == |actions| == |forgets|
  {
    if actions == [] then []
    else
      var n := |actions| - 1;
      AllSnapshotWrites(actions[..n], results[..n], forgets[..n]) + SnapshotWrites(actions[n], results[n], forgets[n])
  }
}
