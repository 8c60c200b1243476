/** The Secondary's pull: which of the Primary's entries it fetches, given its own scan and baselines. */
module SecondaryPull {
  import opened Prelude
  import opened Paths
  import opened Model
  import opened TreeTable
  import opened PrimarySync

  type Disk = map<RelPath, Entry>

  /** What a pull works from. */
  datatype Inputs = Inputs(local: map<RelPath, FileSnapshot>, baselines: map<RelPath, SyncBaseline>,
                           deferred: set<RelPath>)

  /** `secondary_should_download`. */
  predicate ShouldDownload(r: RemoteFileState, local: map<RelPath, FileSnapshot>, baselines: map<RelPath, SyncBaseline>)
  {
    var p := r.relativePath;
    if r.kind == Directory then
      if p in local then local[p].kind != Directory
      else !(p in baselines && baselines[p].primaryHash.None? && baselines[p].secondaryHash.None?)
    else if p in baselines && baselines[p].primaryHash == r.hash then false
    else p in local ==> local[p].hash != r.hash
  }

  /** `secondary_pull_conflict`. */
  predicate PullConflict(r: RemoteFileState, local: map<RelPath, FileSnapshot>, baselines: map<RelPath, SyncBaseline>) {
    var p := r.relativePath;
    p in local &&
    if r.kind == Directory then local[p].kind != Directory
    else p !in baselines || local[p].hash != baselines[p].secondaryHash
  }

  /** The pull reaches for the entry. */
  predicate Asked(r: RemoteFileState, inputs: Inputs) {
    ShouldDownload(r, inputs.local, inputs.baselines) && !PullConflict(r, inputs.local, inputs.baselines) &&
    (r.kind == Directory || r.relativePath !in inputs.deferred)
  }

  datatype Transfer = Broken | Delivered(hash: Hash)

  datatype PullResult = Skipped | Failed | Written(entry: Entry)

  predicate ParentsFree(disk: Disk, p: RelPath) {
    forall q | q in ParentPaths(p) :: q in disk ==> disk[q].Folder?
  }

  function WithParents(disk: Disk, p: RelPath): Disk {
    disk + map q | q in ParentPaths(p) && q !in disk :: Folder
  }

  /** One entry; parents are created before a transfer starts, and stay when it breaks. */
  function PullOne(disk: Disk, inputs: Inputs, r: RemoteFileState, transfer: Transfer): (Disk, PullResult) {
    var p := r.relativePath;
    if !ShouldDownload(r, inputs.local, inputs.baselines) then (disk, Skipped)
    else if !Asked(r, inputs) || !ParentsFree(disk, p) then (disk, Failed)
    else if transfer.Broken? then (WithParents(disk, p), Failed)
    else if r.kind == Directory then
      if p in disk && disk[p].Content? then (WithParents(disk, p), Failed)
      else (WithParents(disk, p)[p := Folder], Written(Folder))
    else if p in disk && disk[p].Folder? then (WithParents(disk, p), Failed)
    else (WithParents(disk, p)[p := Content(transfer.hash)], Written(Content(transfer.hash)))
  }

  function PullAll(disk: Disk, inputs: Inputs, remote: seq<RemoteFileState>, transfers: seq<Transfer>)
    : (result: (Disk, seq<PullResult>))
    requires |transfers| == |remote|
    ensures |result.1| == |remote|
  {
    if remote == [] then (disk, [])
    else
      var n := |remote| - 1;
      var (before, results) := PullAll(disk, inputs, remote[..n], transfers[..n]);
      var (after, r) := PullOne(before, inputs, remote[n], transfers[n]);
      (after, results + [r])
  }

  // ---- recording what arrived ----

  /** What the file system says about the new entry. */
  datatype Stat = Stat(size: int, modifiedMs: int)

  function PulledHash(e: Entry): (Option<Hash>, HashStatus) {
    match e
    case Folder => (None, Unavailable)
    case Content(hash) => (Some(hash), Verified)
  }

  function PulledSnapshot(p: RelPath, e: Entry, stat: Stat): FileSnapshot {
    var (hash, status) := PulledHash(e);
    var (kind, size) := if e.Folder? then (Directory, 0) else (File, stat.size);
    FileSnapshot(p, kind, size, stat.modifiedMs, hash, status, false, false)
  }

  function PulledBaseline(p: RelPath, e: Entry, stat: Stat, now: int): SyncBaseline {
    var (hash, status) := PulledHash(e);
    var size := if e.Folder? then 0 else stat.size;
    SyncBaseline(p, hash, status, size, size, stat.modifiedMs, hash, status, stat.modifiedMs, now)
  }

  /** The baseline writes of one success; `persist_secondary_pull_successes` may stop after any of them. */
  function BaselineRows(r: RemoteFileState, result: PullResult, stat: Stat, now: int): seq<Write<SyncBaseline>> {
    if !result.Written? then []
    else
      Puts(ParentPaths(r.relativePath), DirectoryBaselineAt(now)) +
      [Put(r.relativePath, PulledBaseline(r.relativePath, result.entry, stat, now))]
  }

  function Recorded(remote: seq<RemoteFileState>, results: seq<PullResult>, stats: seq<Stat>, done: seq<nat>, now: int)
    : seq<Write<SyncBaseline>>
    requires |results| == |remote| == |done| == |stats|
  {
    if remote == [] then []
    else
      var n := |remote| - 1;
      var writes := BaselineRows(remote[n], results[n], stats[n], now);
      Recorded(remote[..n], results[..n], stats[..n], done[..n], now) + writes[..Min(done[n], |writes|)]
  }

  /** Of the steps of one success the first two are the file system's answer and the snapshot row, the last one is the
      pending row. */
  function RowSteps(reach: seq<nat>): (done: seq<nat>)
    ensures |done| == |reach|
  {
    if reach == [] then []
    else
      var last := reach[|reach| - 1];
      RowSteps(reach[..|reach| - 1]) + [if last < 2 then 0 else last - 2]
  }

  /** The snapshot row of one entry, if it gets that far. */
  function WithSnapshot(t: map<RelPath, FileSnapshot>, r: RemoteFileState, result: PullResult, stat: Stat, reach: nat)
    : map<RelPath, FileSnapshot>
  {
    if result.Written? && reach >= 2 then t[r.relativePath := PulledSnapshot(r.relativePath, result.entry, stat)] else t
  }

  function SnapshotsAfter(t: map<RelPath, FileSnapshot>, remote: seq<RemoteFileState>, results: seq<PullResult>,
                          stats: seq<Stat>, reach: seq<nat>): map<RelPath, FileSnapshot>
    requires |results| == |remote| == |reach| == |stats|
  {
    if remote == [] then t
    else
      var n := |remote| - 1;
      WithSnapshot(SnapshotsAfter(t, remote[..n], results[..n], stats[..n], reach[..n]), remote[n], results[n],
                   stats[n], reach[n])
  }

  /** Every step went through. */
  predicate FullyRecorded(r: RemoteFileState, result: PullResult, reach: nat) {
    result.Written? && reach >= |ParentPaths(r.relativePath)| + 4
  }

  function WithoutPending(t: map<RelPath, PendingReturnChange>, r: RemoteFileState, result: PullResult, reach: nat)
    : map<RelPath, PendingReturnChange>
  {
    if FullyRecorded(r, result, reach) then t - {r.relativePath} else t
  }

  function PendingAfter(t: map<RelPath, PendingReturnChange>, remote: seq<RemoteFileState>, results: seq<PullResult>,
                        reach: seq<nat>): map<RelPath, PendingReturnChange>
    requires |results| == |remote| == |reach|
  {
    if remote == [] then t
    else
      var n := |remote| - 1;
      WithoutPending(PendingAfter(t, remote[..n], results[..n], reach[..n]), remote[n], results[n], reach[n])
  }

  function ReportedAfter(remote: seq<RemoteFileState>, results: seq<PullResult>, reach: seq<nat>): (ok: seq<bool>)
    requires |results| == |remote| == |reach|
    ensures |ok| == |remote|
    ensures forall i :: 0 <= i < |remote| ==> ok[i] == FullyRecorded(remote[i], results[i], reach[i])
  {
    if remote == [] then []
    else
      var n := |remote| - 1;
      ReportedAfter(remote[..n], results[..n], reach[..n]) + [FullyRecorded(remote[n], results[n], reach[n])]
  }

  // ---- in place ----

  class SecondaryFolder {
    var disk: Disk

    constructor (disk: Disk)
      ensures this.disk == disk
    {
      this.disk := disk;
    }

    /** `execute_secondary_pull_over_network`. */
    method ExecutePull(inputs: Inputs, remote: seq<RemoteFileState>, transfers: seq<Transfer>)
      returns (results: seq<PullResult>)
      requires |transfers| == |remote|
      modifies this
      ensures (disk, results) == PullAll(old(disk), inputs, remote, transfers)
    {
      results := [];
      for i := 0 to |remote|
        invariant (disk, results) == PullAll(old(disk), inputs, remote[..i], transfers[..i])
      {
        assert remote[..i + 1][..i] == remote[..i] && transfers[..i + 1][..i] == transfers[..i];
        var r := PullEntry(inputs, remote[i], transfers[i]);
        results := results + [r];
      }
      assert remote[..|remote|] == remote && transfers[..|transfers|] == transfers;
    }

    method PullEntry(inputs: Inputs, r: RemoteFileState, transfer: Transfer) returns (result: PullResult)
      modifies this
      ensures (disk, result) == PullOne(old(disk), inputs, r, transfer)
    {
      if !ShouldDownload(r, inputs.local, inputs.baselines) {
        return Skipped;
      }
      if !Asked(r, inputs) || !ParentsFree(disk, r.relativePath) {
        return Failed;
      }
      var occupied := if r.relativePath in disk then Some(disk[r.relativePath]) else None;
      disk := WithParents(disk, r.relativePath);
      if transfer.Broken? || (occupied.Some? && occupied.value.Folder? != (r.kind == Directory)) {
        return Failed;
      }
      var entry := if r.kind == Directory then Folder else Content(transfer.hash);
      disk := disk[r.relativePath := entry];
      result := Written(entry);
    }
  }

  /** The baseline writes of one entry, as far as they get. */
  function WithRows(rows: map<RelPath, SyncBaseline>, r: RemoteFileState, result: PullResult, stat: Stat, reach: nat,
                    now: int): map<RelPath, SyncBaseline>
  {
    var writes := BaselineRows(r, result, stat, now);
    Run(rows, writes[..Min(if reach < 2 then 0 else reach - 2, |writes|)])
  }

  lemma RecordedOneMore(rows: map<RelPath, SyncBaseline>, remote: seq<RemoteFileState>, results: seq<PullResult>,
                        stats: seq<Stat>, reach: seq<nat>, now: int, i: nat)
    requires |results| == |remote| == |reach| == |stats| && i < |remote|
    ensures Run(rows, Recorded(remote[..i + 1], results[..i + 1], stats[..i + 1], RowSteps(reach[..i + 1]), now)) ==
            WithRows(Run(rows, Recorded(remote[..i], results[..i], stats[..i], RowSteps(reach[..i]), now)),
                     remote[i], results[i], stats[i], reach[i], now)
  {
    assert remote[..i + 1][..i] == remote[..i] && results[..i + 1][..i] == results[..i];
    assert stats[..i + 1][..i] == stats[..i] && reach[..i + 1][..i] == reach[..i];
    var done := RowSteps(reach[..i + 1]);
    assert done[..i] == RowSteps(reach[..i]);
    var writes := BaselineRows(remote[i], results[i], stats[i], now);
    RunAppend(rows, Recorded(remote[..i], results[..i], stats[..i], done[..i], now), writes[..Min(done[i], |writes|)]);
  }

  lemma TablesOneMore(snapshots: map<RelPath, FileSnapshot>, pending: map<RelPath, PendingReturnChange>,
                      remote: seq<RemoteFileState>, results: seq<PullResult>, stats: seq<Stat>, reach: seq<nat>, i: nat)
    requires |results| == |remote| == |reach| == |stats| && i < |remote|
    ensures SnapshotsAfter(snapshots, remote[..i + 1], results[..i + 1], stats[..i + 1], reach[..i + 1]) ==
            WithSnapshot(SnapshotsAfter(snapshots, remote[..i], results[..i], stats[..i], reach[..i]),
                         remote[i], results[i], stats[i], reach[i])
    ensures PendingAfter(pending, remote[..i + 1], results[..i + 1], reach[..i + 1]) ==
            WithoutPending(PendingAfter(pending, remote[..i], results[..i], reach[..i]), remote[i], results[i],
                           reach[i])
    ensures ReportedAfter(remote[..i + 1], results[..i + 1], reach[..i + 1]) ==
            ReportedAfter(remote[..i], results[..i], reach[..i]) + [FullyRecorded(remote[i], results[i], reach[i])]
  {
    assert remote[..i + 1][..i] == remote[..i] && results[..i + 1][..i] == results[..i];
    assert stats[..i + 1][..i] == stats[..i] && reach[..i + 1][..i] == reach[..i];
  }

  lemma OneMorePut<V>(t: map<RelPath, V>, ws: seq<Write<V>>, k: nat)
    requires k < |ws|
    ensures Run(t, ws[..k + 1]) == Step(Run(t, ws[..k]), ws[k])
  {
    assert ws[..k + 1][..k] == ws[..k];
  }

  class PullTables {
    var snapshots: map<RelPath, FileSnapshot>
    var baselines: map<RelPath, SyncBaseline>
    var pending: map<RelPath, PendingReturnChange>

    constructor (snapshots: map<RelPath, FileSnapshot>, baselines: map<RelPath, SyncBaseline>,
                 pending: map<RelPath, PendingReturnChange>)
      ensures this.snapshots == snapshots && this.baselines == baselines && this.pending == pending
    {
      this.snapshots, this.baselines, this.pending := snapshots, baselines, pending;
    }

    /** `persist_secondary_pull_successes`; `reach[i]` steps of entry `i` go through before one fails. */
    method PersistPull(remote: seq<RemoteFileState>, results: seq<PullResult>, stats: seq<Stat>, reach: seq<nat>,
                       now: int)
      returns (ok: seq<bool>)
      requires |results| == |remote| == |reach| == |stats|
      modifies this
      ensures baselines == Run(old(baselines), Recorded(remote, results, stats, RowSteps(reach), now))
      ensures snapshots == SnapshotsAfter(old(snapshots), remote, results, stats, reach)
      ensures pending == PendingAfter(old(pending), remote, results, reach)
      ensures ok == ReportedAfter(remote, results, reach)
    {
      ok := [];
      for i := 0 to |remote|
        invariant baselines ==
                  Run(old(baselines), Recorded(remote[..i], results[..i], stats[..i], RowSteps(reach[..i]), now))
        invariant snapshots == SnapshotsAfter(old(snapshots), remote[..i], results[..i], stats[..i], reach[..i])
        invariant pending == PendingAfter(old(pending), remote[..i], results[..i], reach[..i])
        invariant ok == ReportedAfter(remote[..i], results[..i], reach[..i])
      {
        TablesOneMore(old(snapshots), old(pending), remote, results, stats, reach, i);
        RecordedOneMore(old(baselines), remote, results, stats, reach, now, i);
        var recorded := PersistOne(remote[i], results[i], stats[i], reach[i], now);
        ok := ok + [recorded];
      }
      assert remote[..|remote|] == remote && results[..|results|] == results;
      assert stats[..|stats|] == stats && reach[..|reach|] == reach;
    }

    method PersistOne(r: RemoteFileState, result: PullResult, stat: Stat, reach: nat, now: int) returns (ok: bool)
      modifies this
      ensures baselines == WithRows(old(baselines), r, result, stat, reach, now)
      ensures snapshots == WithSnapshot(old(snapshots), r, result, stat, reach)
      ensures pending == WithoutPending(old(pending), r, result, reach)
      ensures ok == FullyRecorded(r, result, reach)
    {
      if !result.Written? || reach < 2 {
        ghost var writes := BaselineRows(r, result, stat, now);
        assert writes[..0] == [];
        return false;
      }
      snapshots := snapshots[r.relativePath := PulledSnapshot(r.relativePath, result.entry, stat)];
      var recorded := PersistRows(r, result, stat, reach - 2, now);
      if !recorded || reach == |ParentPaths(r.relativePath)| + 3 {
        return false;
      }
      pending := pending - {r.relativePath};
      ok := true;
    }

    /** A folder row for every parent, then the entry's own row. */
    method PersistRows(r: RemoteFileState, result: PullResult, stat: Stat, limit: nat, now: int)
      returns (recorded: bool)
      requires result.Written?
      modifies this`baselines
      ensures var writes := BaselineRows(r, result, stat, now);
              baselines == Run(old(baselines), writes[..Min(limit, |writes|)])
      ensures recorded == (limit > |ParentPaths(r.relativePath)|)
    {
      ghost var writes := BaselineRows(r, result, stat, now);
      var p := r.relativePath;
      var parents := ParentPaths(p);
      assert writes[..0] == [];
      for k := 0 to |parents|
        invariant k <= limit
        invariant baselines == Run(old(baselines), writes[..k])
      {
        if k == limit {
          return false;
        }
        OneMorePut(old(baselines), writes, k);
        baselines := baselines[parents[k] := DirectoryBaseline(parents[k], now)];
      }
      if |parents| == limit {
        return false;
      }
      OneMorePut(old(baselines), writes, |parents|);
      baselines := baselines[p := PulledBaseline(p, result.entry, stat, now)];
      assert writes[..|writes|] == writes;
      recorded := true;
    }
  }

  // ---- what a pull does to one path ----

  ghost predicate UniqueRemote(remote: seq<RemoteFileState>) {
    forall i, j :: 0 <= i < j < |remote| ==> remote[i].relativePath != remote[j].relativePath
  }

  ghost predicate Same(before: Disk, after: Disk, p: RelPath) {
    (p in after <==> p in before) && (p in before ==> after[p] == before[p])
  }

  /** The path was fetched, over nothing or over an entry of the same kind. */
  ghost predicate Fetched(before: Disk, after: Disk, inputs: Inputs, remote: seq<RemoteFileState>,
                          results: seq<PullResult>, p: RelPath, i: int)
    requires |results| == |remote|
  {
    0 <= i < |remote| && remote[i].relativePath == p && Asked(remote[i], inputs) && results[i].Written? &&
    p in after && after[p] == results[i].entry && after[p].Folder? == (remote[i].kind == Directory) &&
    (p in before ==> before[p].Folder? == after[p].Folder?)
  }

  /** The path became a folder because something beneath it was asked for. */
  ghost predicate Passed(before: Disk, after: Disk, inputs: Inputs, remote: seq<RemoteFileState>, p: RelPath) {
    p !in before && p in after && after[p].Folder? &&
    exists i :: 0 <= i < |remote| && p in ParentPaths(remote[i].relativePath) && Asked(remote[i], inputs)
  }

  ghost predicate Explained(before: Disk, after: Disk, inputs: Inputs, remote: seq<RemoteFileState>,
                            results: seq<PullResult>, p: RelPath)
    requires |results| == |remote|
  {
    Same(before, after, p) || (exists i :: Fetched(before, after, inputs, remote, results, p, i)) ||
    Passed(before, after, inputs, remote, p)
  }

  lemma PullOneAt(disk: Disk, inputs: Inputs, r: RemoteFileState, transfer: Transfer, p: RelPath)
    ensures var (after, result) := PullOne(disk, inputs, r, transfer);
            (Same(disk, after, p) && (p == r.relativePath ==> !result.Written?)) ||
            (p == r.relativePath && result.Written? && Asked(r, inputs) && p in after && after[p] == result.entry &&
             after[p].Folder? == (r.kind == Directory) && (p in disk ==> disk[p].Folder? == after[p].Folder?)) ||
            (p !in disk && p in after && after[p].Folder? && p in ParentPaths(r.relativePath) && Asked(r, inputs) &&
             (p == r.relativePath ==> !result.Written?))
  {}

  lemma {:induction false} PullExplained(before: Disk, inputs: Inputs, remote: seq<RemoteFileState>,
                                         transfers: seq<Transfer>, p: RelPath)
    requires |transfers| == |remote| && UniqueRemote(remote)
    ensures var (after, results) := PullAll(before, inputs, remote, transfers);
            Explained(before, after, inputs, remote, results, p) &&
            forall i :: 0 <= i < |remote| && remote[i].relativePath == p && results[i].Written? ==>
              Fetched(before, after, inputs, remote, results, p, i)
  {
    if remote != [] {
      var n := |remote| - 1;
      var (mid, results) := PullAll(before, inputs, remote[..n], transfers[..n]);
      PullExplained(before, inputs, remote[..n], transfers[..n], p);
      PullOneAt(mid, inputs, remote[n], transfers[n], p);
      ExplainedStep(before, mid, inputs, remote, results, p, PullOne(mid, inputs, remote[n], transfers[n]));
    }
  }

  lemma ExplainedStep(before: Disk, mid: Disk, inputs: Inputs, remote: seq<RemoteFileState>, results: seq<PullResult>,
                      p: RelPath, last: (Disk, PullResult))
    requires remote != [] && UniqueRemote(remote) && |results| == |remote| - 1
    requires Explained(before, mid, inputs, remote[..|remote| - 1], results, p)
    requires forall i :: 0 <= i < |results| && remote[..|remote| - 1][i].relativePath == p && results[i].Written? ==>
               Fetched(before, mid, inputs, remote[..|remote| - 1], results, p, i)
    requires var r := remote[|remote| - 1];
             (Same(mid, last.0, p) && (p == r.relativePath ==> !last.1.Written?)) ||
             (p == r.relativePath && last.1.Written? && Asked(r, inputs) && p in last.0 && last.0[p] == last.1.entry &&
              last.0[p].Folder? == (r.kind == Directory) && (p in mid ==> mid[p].Folder? == last.0[p].Folder?)) ||
             (p !in mid && p in last.0 && last.0[p].Folder? && p in ParentPaths(r.relativePath) && Asked(r, inputs) &&
              (p == r.relativePath ==> !last.1.Written?))
    ensures Explained(before, last.0, inputs, remote, results + [last.1], p)
    ensures forall i :: 0 <= i < |remote| && remote[i].relativePath == p && (results + [last.1])[i].Written? ==>
              Fetched(before, last.0, inputs, remote, results + [last.1], p, i)
  {
    var n := |remote| - 1;
    var r := remote[n];
    assert forall i :: 0 <= i < n ==> remote[..n][i] == remote[i] && (results + [last.1])[i] == results[i];
    if p == r.relativePath {
      assert forall i :: 0 <= i < n ==> remote[i].relativePath != p;
      if last.1.Written? {
        assert Fetched(before, last.0, inputs, remote, results + [last.1], p, n);
      }
    }
    if Same(mid, last.0, p) {
      if i :| Fetched(before, mid, inputs, remote[..n], results, p, i) {
        assert Fetched(before, last.0, inputs, remote, results + [last.1], p, i);
      }
    }
  }

  // ---- what a pull asks for, in the fields of the records ----

  /** A file is asked for exactly if the user has not deferred it, the baseline does not name the Primary's version, and
      what is here, if anything, is another version and the one last synced. A folder is asked for exactly if
      nothing is here and no baseline shows that it was deleted here. */
  lemma AskedExactly(r: RemoteFileState, inputs: Inputs)
    ensures var p := r.relativePath;
            Asked(r, inputs) <==>
            if r.kind == File then
              p !in inputs.deferred && (p in inputs.baselines ==> inputs.baselines[p].primaryHash != r.hash) &&
              (p in inputs.local ==>
                 inputs.local[p].hash != r.hash &&
                 p in inputs.baselines && inputs.local[p].hash == inputs.baselines[p].secondaryHash)
            else
              p !in inputs.local &&
              (p in inputs.baselines ==>
                 inputs.baselines[p].primaryHash.Some? || inputs.baselines[p].secondaryHash.Some?)
  {}

  /** Of what is not asked for, nothing happens to what needs nothing; the rest is reported as failed: a file in the
      place of a folder, a version that was never synced, and what the user has deferred. */
  lemma NotAskedExactly(disk: Disk, inputs: Inputs, r: RemoteFileState, transfer: Transfer)
    requires !Asked(r, inputs)
    ensures var p, (after, result) := r.relativePath, PullOne(disk, inputs, r, transfer);
            after == disk &&
            result == if (if r.kind == Directory then p in inputs.local && inputs.local[p].kind == File
                          else (p in inputs.baselines ==> inputs.baselines[p].primaryHash != r.hash) &&
                               (p in inputs.local ==> inputs.local[p].hash != r.hash))
                      then Failed else Skipped
  {}

  /** An entry that is asked for is written exactly if no file stands in the way of its parents, the transfer arrives,
      and what is at the path, if anything, is of its kind: a folder for a folder, the delivered file for a file;
      otherwise the path is left as it is. */
  lemma WrittenExactly(disk: Disk, inputs: Inputs, r: RemoteFileState, transfer: Transfer)
    requires Asked(r, inputs)
    ensures var p, (after, result) := r.relativePath, PullOne(disk, inputs, r, transfer);
            var free := forall q :: q in ParentPaths(p) && q in disk ==> disk[q].Folder?;
            var fits := p in disk ==> disk[p].Folder? == (r.kind == Directory);
            if free && transfer.Delivered? && fits then
              result == Written(if r.kind == Directory then Folder else Content(transfer.hash)) &&
              p in after && after[p] == result.entry &&
              forall q :: q in ParentPaths(p) && q != p ==> q in after && after[q].Folder?
            else
              result == Failed &&
              (p in disk ==> p in after && after[p] == disk[p]) && (p in after && p !in disk ==> p in ParentPaths(p))
  {}

  // ---- what a pull may touch ----

  /** The scan shows what is at the path, a file with its hash. */
  predicate SeesAt(local: map<RelPath, FileSnapshot>, disk: Disk, p: RelPath) {
    (p in local <==> p in disk) && (p in disk ==> p in local && Shows(local[p], disk[p]))
  }

  predicate Shows(snap: FileSnapshot, e: Entry) {
    match e
    case Folder => snap.kind == Directory && snap.hash == None
    case Content(hash) => snap.kind == File && snap.hash == Some(hash)
  }

  /** A path changes only where the scan saw nothing, or saw the version last synced. */
  lemma {:induction false} PullWritesOnlyFreshOrSynced(before: Disk, inputs: Inputs, remote: seq<RemoteFileState>,
                                    transfers: seq<Transfer>, p: RelPath)
    requires |transfers| == |remote| && UniqueRemote(remote) && SeesAt(inputs.local, before, p)
    ensures var after := PullAll(before, inputs, remote, transfers).0;
            Same(before, after, p) || p !in before ||
            (before[p].Content? && p in inputs.baselines && inputs.baselines[p].secondaryHash == Some(before[p].hash))
  {
    PullExplained(before, inputs, remote, transfers, p);
    var (after, results) := PullAll(before, inputs, remote, transfers);
    if !Same(before, after, p) && p in before {
      var i :| Fetched(before, after, inputs, remote, results, p, i);
      assert Shows(inputs.local[p], before[p]);
    }
  }

  /** A download guards the target as it is when the download starts, not as the scan saw it: it replaces any file
      that is there by then. What it replaces is the version last synced exactly if the scan was still right. */
  lemma EditAfterScanIsReplaced(disk: Disk, inputs: Inputs, r: RemoteFileState, hash: Hash, h: Hash)
    requires r.kind == File && Asked(r, inputs) && ParentsFree(disk, r.relativePath)
    requires var p := r.relativePath;
             p in disk && disk[p] == Content(h)
    ensures var p := r.relativePath;
            PullOne(disk, inputs, r, Delivered(hash)) ==
              (WithParents(disk, p)[p := Content(hash)], Written(Content(hash))) &&
            (p in inputs.local ==>
               p in inputs.baselines &&
               (inputs.baselines[p].secondaryHash == Some(h) <==> inputs.local[p].hash == Some(h)))
  {}

  /** Over a whole pull: a file that is replaced was the version last synced exactly if the scan was still right
      about it, provided the scan saw anything there at all. */
  lemma ReplacedWasSyncedExactly(before: Disk, inputs: Inputs, remote: seq<RemoteFileState>, transfers: seq<Transfer>,
                                 p: RelPath, h: Hash)
    requires |transfers| == |remote| && UniqueRemote(remote) && p in inputs.local
    requires p in before && before[p] == Content(h) && !Same(before, PullAll(before, inputs, remote, transfers).0, p)
    ensures p in inputs.baselines && (inputs.baselines[p].secondaryHash == Some(h) <==> inputs.local[p].hash == Some(h))
  {
    PullExplained(before, inputs, remote, transfers, p);
    var (after, results) := PullAll(before, inputs, remote, transfers);
    var i :| Fetched(before, after, inputs, remote, results, p, i);
    assert remote[i].kind == File;
  }

  /** Nowhere does a pull look at the version that is in the folder: with any other version at `p` it makes the same
      decisions, and replaces that version where it replaces this one. */
  lemma {:induction false} PullIgnoresPresentVersion(before: Disk, other: Disk, inputs: Inputs,
                                                     remote: seq<RemoteFileState>, transfers: seq<Transfer>, p: RelPath)
    requires |transfers| == |remote| && SameBut(before, other, p)
    ensures var (after, results) := PullAll(before, inputs, remote, transfers);
            var (after', results') := PullAll(other, inputs, remote, transfers);
            results == results' &&
            ((after == after' && p in after) ||
             (SameBut(after, after', p) && after[p] == before[p] && after'[p] == other[p]))
  {
    if remote != [] {
      var n := |remote| - 1;
      PullIgnoresPresentVersion(before, other, inputs, remote[..n], transfers[..n], p);
      var mid, mid' := PullAll(before, inputs, remote[..n], transfers[..n]).0,
                       PullAll(other, inputs, remote[..n], transfers[..n]).0;
      if mid != mid' {
        PullOneIgnores(mid, mid', inputs, remote[n], transfers[n], p);
      } else {
        PullOneAt(mid, inputs, remote[n], transfers[n], p);
      }
    }
  }

  /** The folders differ at most in the version of the file at `p`. */
  ghost predicate SameBut(disk: Disk, other: Disk, p: RelPath) {
    p in disk && p in other && disk[p].Content? && other[p].Content? && other == disk[p := other[p]]
  }

  lemma SameParents(disk: Disk, other: Disk, q: RelPath, p: RelPath)
    requires SameBut(disk, other, p)
    ensures ParentsFree(disk, q) == ParentsFree(other, q)
    ensures SameBut(WithParents(disk, q), WithParents(other, q), p)
    ensures WithParents(disk, q)[p] == disk[p] && WithParents(other, q)[p] == other[p]
  {
    assert disk.Keys == other.Keys;
    var a, b := WithParents(disk, q), WithParents(other, q);
    assert forall x :: x in a <==> x in b;
    assert forall x :: x in a && x != p ==> a[x] == b[x];
    assert b == a[p := other[p]];
  }

  lemma OnePut(a: Disk, b: Disk, q: RelPath, e: Entry, p: RelPath)
    requires SameBut(a, b, p) && (q == p ==> e.Content?)
    ensures if q == p then a[q := e] == b[q := e]
            else SameBut(a[q := e], b[q := e], p) && a[q := e][p] == a[p] && b[q := e][p] == b[p]
  {}

  lemma PullOneIgnores(disk: Disk, other: Disk, inputs: Inputs, r: RemoteFileState, transfer: Transfer, p: RelPath)
    requires SameBut(disk, other, p)
    ensures var (after, result) := PullOne(disk, inputs, r, transfer);
            var (after', result') := PullOne(other, inputs, r, transfer);
            result == result' &&
            ((after == after' && p in after) ||
             (SameBut(after, after', p) && after[p] == disk[p] && after'[p] == other[p]))
  {
    if r.relativePath == p {
      PullOneOver(disk, other, inputs, r, transfer);
    } else {
      PullOneBeside(disk, other, inputs, r, transfer, p);
    }
  }

  lemma PullOneOver(disk: Disk, other: Disk, inputs: Inputs, r: RemoteFileState, transfer: Transfer)
    requires SameBut(disk, other, r.relativePath)
    ensures var p := r.relativePath;
            var (after, result) := PullOne(disk, inputs, r, transfer);
            var (after', result') := PullOne(other, inputs, r, transfer);
            result == result' &&
            ((after == after' && p in after) ||
             (SameBut(after, after', p) && after[p] == disk[p] && after'[p] == other[p]))
  {
    var p := r.relativePath;
    SameParents(disk, other, p, p);
    if transfer.Delivered? {
      OnePut(WithParents(disk, p), WithParents(other, p), p, Content(transfer.hash), p);
    }
  }

  lemma PullOneBeside(disk: Disk, other: Disk, inputs: Inputs, r: RemoteFileState, transfer: Transfer, p: RelPath)
    requires SameBut(disk, other, p) && r.relativePath != p
    ensures var (after, result) := PullOne(disk, inputs, r, transfer);
            var (after', result') := PullOne(other, inputs, r, transfer);
            result == result' && SameBut(after, after', p) && after[p] == disk[p] && after'[p] == other[p]
  {
    var q := r.relativePath;
    SameParents(disk, other, q, p);
    assert q in disk <==> q in other;
    assert q in disk ==> disk[q] == other[q];
    OnePut(WithParents(disk, q), WithParents(other, q), q, Folder, p);
    if transfer.Delivered? {
      OnePut(WithParents(disk, q), WithParents(other, q), q, Content(transfer.hash), p);
    }
  }

  /** Files have nothing beneath them on the Primary, and their hashes are known. */
  ghost predicate WellFormedRemote(remote: seq<RemoteFileState>) {
    UniqueRemote(remote) &&
    (forall i :: 0 <= i < |remote| ==> (remote[i].kind == File <==> remote[i].hash.Some?)) &&
    (forall i, j :: 0 <= i < |remote| && 0 <= j < |remote| ==>
       remote[i].relativePath in ParentPaths(remote[j].relativePath) ==> remote[i].kind == Directory)
  }

  /** A file that was deleted here and has not changed on the Primary stays deleted. */
  lemma PullNeverResurrects(before: Disk, inputs: Inputs, remote: seq<RemoteFileState>, transfers: seq<Transfer>,
                            i: nat)
    requires |transfers| == |remote| && i < |remote| && WellFormedRemote(remote)
    requires remote[i].kind == File
    requires var p := remote[i].relativePath;
             p !in before && p in inputs.baselines && inputs.baselines[p].primaryHash == remote[i].hash
    ensures remote[i].relativePath !in PullAll(before, inputs, remote, transfers).0
  {
    var p := remote[i].relativePath;
    var (after, results) := PullAll(before, inputs, remote, transfers);
    PullExplained(before, inputs, remote, transfers, p);
    NotAskedNotFetched(before, after, inputs, remote, results, i);
  }

  lemma NotAskedNotFetched(before: Disk, after: Disk, inputs: Inputs, remote: seq<RemoteFileState>,
                           results: seq<PullResult>, i: nat)
    requires |results| == |remote| && i < |remote| && UniqueRemote(remote) && !Asked(remote[i], inputs)
    ensures forall k :: !Fetched(before, after, inputs, remote, results, remote[i].relativePath, k)
  {
    forall k
      ensures !Fetched(before, after, inputs, remote, results, remote[i].relativePath, k)
    {
      if 0 <= k < |remote| && remote[k].relativePath == remote[i].relativePath {
        assert k == i;
      }
    }
  }

  /** A folder that was deleted here comes back only because something beneath it is fetched. */
  lemma FolderReturnsOnlyForItsContents(before: Disk, inputs: Inputs, remote: seq<RemoteFileState>,
                                        transfers: seq<Transfer>, i: nat)
    requires |transfers| == |remote| && i < |remote| && UniqueRemote(remote)
    requires SeesAt(inputs.local, before, remote[i].relativePath)
    requires remote[i].kind == Directory
    requires var p := remote[i].relativePath;
             p !in before && p in inputs.baselines && inputs.baselines[p].primaryHash.None? &&
             inputs.baselines[p].secondaryHash.None?
    ensures var p := remote[i].relativePath;
            p in PullAll(before, inputs, remote, transfers).0 ==>
              exists j :: 0 <= j < |remote| && p in ParentPaths(remote[j].relativePath) && Asked(remote[j], inputs)
  {
    var (after, results) := PullAll(before, inputs, remote, transfers);
    PullExplained(before, inputs, remote, transfers, remote[i].relativePath);
    NotAskedNotFetched(before, after, inputs, remote, results, i);
  }

  // ---- and then nothing more ----

  /** Everything that was wanted arrived, as the Primary has it. */
  ghost predicate Complete(remote: seq<RemoteFileState>, results: seq<PullResult>)
    requires |results| == |remote|
  {
    forall i :: 0 <= i < |remote| && results[i] != Skipped ==> results[i] == Written(EntryOf(remote[i]))
  }

  function EntryOf(r: RemoteFileState): Entry {
    if r.kind == Directory || r.hash.None? then Folder else Content(r.hash.value)
  }

  lemma {:induction false} SkippedExactly(before: Disk, inputs: Inputs, remote: seq<RemoteFileState>,
                                          transfers: seq<Transfer>, i: nat)
    requires |transfers| == |remote| && i < |remote|
    ensures PullAll(before, inputs, remote, transfers).1[i] == Skipped <==>
            !ShouldDownload(remote[i], inputs.local, inputs.baselines)
  {
    if i < |remote| - 1 {
      SkippedExactly(before, inputs, remote[..|remote| - 1], transfers[..|remote| - 1], i);
    }
  }

  /** A row written for an entry: its own, or the folder row of a parent. */
  predicate RowOf(r: RemoteFileState, result: PullResult, stat: Stat, w: Write<SyncBaseline>, now: int) {
    w.Put? && result.Written? &&
    ((w.path == r.relativePath && w.value == PulledBaseline(w.path, result.entry, stat, now)) ||
     (w.path in ParentPaths(r.relativePath) && w.value == DirectoryBaseline(w.path, now)))
  }

  ghost predicate FromSuccess(remote: seq<RemoteFileState>, results: seq<PullResult>, stats: seq<Stat>,
                              w: Write<SyncBaseline>, now: int)
    requires |results| == |remote| == |stats|
  {
    exists i :: 0 <= i < |remote| && RowOf(remote[i], results[i], stats[i], w, now)
  }

  /** Where the writes of a pull can come from. */
  lemma {:induction false} RecordedFrom(remote: seq<RemoteFileState>, results: seq<PullResult>, stats: seq<Stat>,
                                        done: seq<nat>, now: int, k: nat)
    requires |results| == |remote| == |stats| == |done| && k < |Recorded(remote, results, stats, done, now)|
    ensures FromSuccess(remote, results, stats, Recorded(remote, results, stats, done, now)[k], now)
  {
    var n := |remote| - 1;
    var before := Recorded(remote[..n], results[..n], stats[..n], done[..n], now);
    if k < |before| {
      RecordedFrom(remote[..n], results[..n], stats[..n], done[..n], now, k);
      var i :| 0 <= i < n && RowOf(remote[..n][i], results[..n][i], stats[..n][i], before[k], now);
      assert RowOf(remote[i], results[i], stats[i], before[k], now);
    } else {
      RowsOf(remote[n], results[n], stats[n], now, k - |before|);
    }
  }

  lemma RowsOf(r: RemoteFileState, result: PullResult, stat: Stat, now: int, m: nat)
    requires m < |BaselineRows(r, result, stat, now)|
    ensures RowOf(r, result, stat, BaselineRows(r, result, stat, now)[m], now)
  {
    var parents := ParentPaths(r.relativePath);
    if m < |parents| {
      assert BaselineRows(r, result, stat, now)[m] == Put(parents[m], DirectoryBaseline(parents[m], now));
    }
  }

  lemma TouchedInSum<V>(ws: seq<Write<V>>, more: seq<Write<V>>, p: RelPath)
    requires Touched(ws, p) || Touched(more, p)
    ensures Touched(ws + more, p)
  {
    if Touched(ws, p) {
      var k :| 0 <= k < |ws| && ws[k].Put? && ws[k].path == p;
      assert (ws + more)[k] == ws[k];
    } else {
      var k :| 0 <= k < |more| && more[k].Put? && more[k].path == p;
      assert (ws + more)[|ws| + k] == more[k];
    }
  }

  lemma OwnRowWritten(r: RemoteFileState, result: PullResult, stat: Stat, done: nat, now: int)
    requires result.Written? && done > |ParentPaths(r.relativePath)|
    ensures var writes := BaselineRows(r, result, stat, now);
            Touched(writes[..Min(done, |writes|)], r.relativePath)
  {
    var writes, k := BaselineRows(r, result, stat, now), |ParentPaths(r.relativePath)|;
    assert writes[..Min(done, |writes|)][k] == writes[k];
  }

  lemma LastRecorded(remote: seq<RemoteFileState>, results: seq<PullResult>, stats: seq<Stat>, done: seq<nat>, now: int,
                     p: RelPath)
    requires |results| == |remote| == |stats| == |done| > 0
    ensures var n := |remote| - 1;
            var writes := BaselineRows(remote[n], results[n], stats[n], now);
            Touched(Recorded(remote[..n], results[..n], stats[..n], done[..n], now), p) ||
            Touched(writes[..Min(done[n], |writes|)], p) ==>
            Touched(Recorded(remote, results, stats, done, now), p)
  {
    var n := |remote| - 1;
    var before := Recorded(remote[..n], results[..n], stats[..n], done[..n], now);
    var writes := BaselineRows(remote[n], results[n], stats[n], now);
    if Touched(before, p) || Touched(writes[..Min(done[n], |writes|)], p) {
      TouchedInSum(before, writes[..Min(done[n], |writes|)], p);
    }
  }

  lemma LastOwnRow(remote: seq<RemoteFileState>, results: seq<PullResult>, stats: seq<Stat>, done: seq<nat>, now: int)
    requires |results| == |remote| == |stats| == |done| > 0
    requires results[|remote| - 1].Written? && done[|remote| - 1] > |ParentPaths(remote[|remote| - 1].relativePath)|
    ensures Touched(Recorded(remote, results, stats, done, now), remote[|remote| - 1].relativePath)
  {
    var n := |remote| - 1;
    OwnRowWritten(remote[n], results[n], stats[n], done[n], now);
    LastRecorded(remote, results, stats, done, now, remote[n].relativePath);
  }

  /** The own row of an entry is among the writes if they went that far. */
  lemma {:induction false} OwnRowRecorded(remote: seq<RemoteFileState>, results: seq<PullResult>, stats: seq<Stat>,
                                          done: seq<nat>, now: int, i: nat)
    requires |results| == |remote| == |stats| == |done| && i < |remote|
    requires results[i].Written? && done[i] > |ParentPaths(remote[i].relativePath)|
    ensures Touched(Recorded(remote, results, stats, done, now), remote[i].relativePath)
    decreases |remote|
  {
    if i == |remote| - 1 {
      LastOwnRow(remote, results, stats, done, now);
    } else {
      var front, some, meta, steps := remote[..|remote| - 1], results[..|remote| - 1], stats[..|remote| - 1],
                                      done[..|remote| - 1];
      assert front[i] == remote[i] && some[i] == results[i] && steps[i] == done[i];
      OwnRowRecorded(front, some, meta, steps, now, i);
      LastRecorded(remote, results, stats, done, now, remote[i].relativePath);
    }
  }

  lemma OnlyPuts(remote: seq<RemoteFileState>, results: seq<PullResult>, stats: seq<Stat>, done: seq<nat>, now: int)
    requires |results| == |remote| == |stats| == |done|
    ensures Separate(Recorded(remote, results, stats, done, now))
    ensures forall p :: !Covers(Recorded(remote, results, stats, done, now), p)
  {
    var ws := Recorded(remote, results, stats, done, now);
    forall k | 0 <= k < |ws|
      ensures ws[k].Put?
    {
      RecordedFrom(remote, results, stats, done, now, k);
    }
  }

  /** A baseline after the pull is the old one, or a folder's for a parent of something fetched, or belongs to
      something fetched. */
  lemma BaselineAfter(rows: map<RelPath, SyncBaseline>, remote: seq<RemoteFileState>, results: seq<PullResult>,
                      stats: seq<Stat>, done: seq<nat>, now: int, p: RelPath)
    requires |results| == |remote| == |stats| == |done|
    requires forall i :: 0 <= i < |remote| && remote[i].relativePath == p ==> !results[i].Written?
    ensures var t := Run(rows, Recorded(remote, results, stats, done, now));
            ((p in t <==> p in rows) && (p in rows ==> t[p] == rows[p])) ||
            (p in t && t[p] == DirectoryBaseline(p, now) &&
             exists i :: 0 <= i < |remote| && p in ParentPaths(remote[i].relativePath))
  {
    var ws := Recorded(remote, results, stats, done, now);
    OnlyPuts(remote, results, stats, done, now);
    Outcome(rows, ws, p);
    if Touched(ws, p) {
      var k :| 0 <= k < |ws| && ws[k] == Put(p, Run(rows, ws)[p]);
      RecordedFrom(remote, results, stats, done, now, k);
    }
  }

  /** What is on record for an entry that arrived and was recorded: a file with the delivered hash, verified on both
      sides, and the size and time that it has now; a folder without any hash. */
  lemma RecordedEntry(rows: map<RelPath, SyncBaseline>, remote: seq<RemoteFileState>, results: seq<PullResult>,
                      stats: seq<Stat>, done: seq<nat>, now: int, i: nat)
    requires |results| == |remote| == |stats| == |done| && i < |remote| && WellFormedRemote(remote)
    requires results[i].Written? && results[i].entry.Folder? == (remote[i].kind == Directory)
    requires done[i] > |ParentPaths(remote[i].relativePath)|
    ensures var t, p := Run(rows, Recorded(remote, results, stats, done, now)), remote[i].relativePath;
            p in t &&
            if remote[i].kind == Directory then
              t[p].primaryHash == None && t[p].secondaryHash == None &&
              t[p].primaryHashStatus == Unavailable && t[p].secondaryHashStatus == Unavailable &&
              t[p].primarySize == 0 && t[p].secondarySize == 0
            else
              t[p] == SyncBaseline(p, Some(results[i].entry.hash), Verified, stats[i].size, stats[i].size,
                                   stats[i].modifiedMs, Some(results[i].entry.hash), Verified, stats[i].modifiedMs, now)
  {
    var ws, p := Recorded(remote, results, stats, done, now), remote[i].relativePath;
    OnlyPuts(remote, results, stats, done, now);
    OwnRowRecorded(remote, results, stats, done, now, i);
    Outcome(rows, ws, p);
    var k :| 0 <= k < |ws| && ws[k] == Put(p, Run(rows, ws)[p]);
    RecordedFrom(remote, results, stats, done, now, k);
    var j :| 0 <= j < |remote| && RowOf(remote[j], results[j], stats[j], ws[k], now);
    if p !in ParentPaths(remote[j].relativePath) {
      assert j == i;
    }
  }

  /** The composition: a file that was pulled, recorded, and then deleted here stays deleted, as long as the Primary's
      is the same. */
  lemma PulledThenDeletedStaysDeleted(before: Disk, inputs: Inputs, remote: seq<RemoteFileState>,
                                      transfers: seq<Transfer>, stats: seq<Stat>, done: seq<nat>, now: int, i: nat,
                                      disk: Disk, next: Inputs, later: seq<RemoteFileState>, again: seq<Transfer>,
                                      k: nat)
    requires |transfers| == |remote| == |stats| == |done| && i < |remote| && WellFormedRemote(remote)
    requires |again| == |later| && k < |later| && WellFormedRemote(later)
    requires remote[i].kind == File && later[k].kind == File
    requires later[k].relativePath == remote[i].relativePath && later[k].hash == remote[i].hash
    requires PullAll(before, inputs, remote, transfers).1[i] == Written(EntryOf(remote[i]))
    requires done[i] > |ParentPaths(remote[i].relativePath)|
    requires next.baselines ==
             Run(inputs.baselines, Recorded(remote, PullAll(before, inputs, remote, transfers).1, stats, done, now))
    requires remote[i].relativePath !in disk
    ensures remote[i].relativePath !in PullAll(disk, next, later, again).0
  {
    RecordedEntry(inputs.baselines, remote, PullAll(before, inputs, remote, transfers).1, stats, done, now, i);
    PullNeverResurrects(disk, next, later, again, k);
  }

  /** The pending row of an entry goes, and its success is reported, exactly if every step went through: the file
      system's answer, the snapshot, a row for each parent, the entry's own row, and the pending row. */
  lemma {:induction false} PendingExactly(t: map<RelPath, PendingReturnChange>, remote: seq<RemoteFileState>,
                                          results: seq<PullResult>, reach: seq<nat>, p: RelPath)
    requires |results| == |remote| == |reach|
    ensures p in PendingAfter(t, remote, results, reach) <==>
            p in t && forall i :: (0 <= i < |remote| && remote[i].relativePath == p) ==>
              !results[i].Written? || reach[i] < 1 + 1 + |ParentPaths(p)| + 1 + 1
    ensures p in PendingAfter(t, remote, results, reach) ==> PendingAfter(t, remote, results, reach)[p] == t[p]
    ensures forall i :: 0 <= i < |remote| ==>
              (ReportedAfter(remote, results, reach)[i] <==>
               results[i].Written? && reach[i] >= 1 + 1 + |ParentPaths(remote[i].relativePath)| + 1 + 1)
  {
    if remote != [] {
      var n := |remote| - 1;
      assert forall i :: 0 <= i < n ==>
        remote[..n][i] == remote[i] && results[..n][i] == results[i] && reach[..n][i] == reach[i];
      PendingExactly(t, remote[..n], results[..n], reach[..n], p);
    }
  }

  /** The snapshot rows afterwards show what arrived, and everything else as before. */
  lemma {:induction false} RecordedSnapshot(t: map<RelPath, FileSnapshot>, remote: seq<RemoteFileState>,
                                            results: seq<PullResult>, stats: seq<Stat>, reach: seq<nat>, p: RelPath)
    requires |results| == |remote| == |stats| == |reach| && UniqueRemote(remote)
    ensures var after := SnapshotsAfter(t, remote, results, stats, reach);
            (forall i :: (0 <= i < |remote| && remote[i].relativePath == p && results[i].Written? && reach[i] >= 2) ==>
               p in after &&
               after[p] == if results[i].entry.Folder?
                           then FileSnapshot(p, Directory, 0, stats[i].modifiedMs, None, Unavailable, false, false)
                           else FileSnapshot(p, File, stats[i].size, stats[i].modifiedMs, Some(results[i].entry.hash),
                                             Verified, false, false)) &&
            ((forall i :: 0 <= i < |remote| && remote[i].relativePath == p ==> !results[i].Written? || reach[i] < 2) ==>
               (p in after <==> p in t) && (p in t ==> after[p] == t[p]))
  {
    if remote != [] {
      var n := |remote| - 1;
      assert forall i :: 0 <= i < n ==>
        remote[..n][i] == remote[i] && results[..n][i] == results[i] && stats[..n][i] == stats[i] &&
        reach[..n][i] == reach[i];
      RecordedSnapshot(t, remote[..n], results[..n], stats[..n], reach[..n], p);
    }
  }

  /** A complete pull of a Primary that stays as it is leaves nothing to ask for, at the next scan and against
      the tables as they then are: even if recording the successes broke off anywhere. */
  lemma NextPullAsksNothing(before: Disk, inputs: Inputs, remote: seq<RemoteFileState>, transfers: seq<Transfer>,
                            stats: seq<Stat>, done: seq<nat>, now: int, local: map<RelPath, FileSnapshot>, i: nat)
    requires |transfers| == |remote| == |stats| == |done| && i < |remote| && WellFormedRemote(remote)
    requires SeesAt(inputs.local, before, remote[i].relativePath)
    requires Complete(remote, PullAll(before, inputs, remote, transfers).1)
    requires SeesAt(local, PullAll(before, inputs, remote, transfers).0, remote[i].relativePath)
    ensures var rows :=
            Run(inputs.baselines, Recorded(remote, PullAll(before, inputs, remote, transfers).1, stats, done, now));
            !ShouldDownload(remote[i], local, rows)
  {
    var (after, results) := PullAll(before, inputs, remote, transfers);
    var r := remote[i];
    var p := r.relativePath;
    PullExplained(before, inputs, remote, transfers, p);
    SkippedExactly(before, inputs, remote, transfers, i);
    if results[i] != Skipped {
      assert Fetched(before, after, inputs, remote, results, p, i);
      assert Shows(local[p], after[p]);
    } else {
      assert forall j :: 0 <= j < |remote| && remote[j].relativePath == p ==> j == i;
      BaselineAfter(inputs.baselines, remote, results, stats, done, now, p);
    }
  }

}
