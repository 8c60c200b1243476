/** Directories that vanish from the Primary before they ever had a baseline: their deletes are recovered from the
    previous scan, and refused. */
module VanishedTrees {
  import opened Prelude
  import opened Paths
  import opened Model
  import opened TreeTable
  import opened Planner
  import opened PrimarySync
  import opened ActionList
  import opened Recording
  import opened SendSafety

  /** A delete recovered for a directory which the Secondary reports. */
  predicate VanishedDirectory(d: PlannedAction, remote: map<RelPath, RemoteFileState>) {
    d.decision == MoveSecondaryToHistory && d.baseline.None? &&
    d.snapshot.Some? && d.snapshot.value.kind == Directory && d.relativePath in remote
  }

  /** What a scan leaves: nothing beneath a file. */
  ghost predicate FilesAreLeaves(cached: seq<FileSnapshot>) {
    forall c, e ::
      (c in cached && e in cached && IsLive(c) && IsLive(e) && IsDescendant(c.relativePath, e.relativePath)) ==>
      e.kind == Directory
  }

  /** Every baseline at or above `p` has its entry in the scan. */
  ghost predicate NoBaselineGone(live: map<RelPath, FileSnapshot>, base: map<RelPath, SyncBaseline>, p: RelPath) {
    forall q :: q in base && q !in live ==> !AtOrUnder(p, q)
  }

  lemma NothingAboveVanished(snaps: seq<FileSnapshot>, cached: seq<FileSnapshot>, rows: seq<SyncBaseline>,
                             remote: seq<RemoteFileState>, d: PlannedAction, f: PlannedAction)
    requires UniqueSnapshots(snaps) && UniqueBaselines(rows) && FilesAreLeaves(cached)
    requires d in AllActions(snaps, cached, rows, remote) && f in AllActions(snaps, cached, rows, remote)
    requires VanishedDirectory(d, RemoteIndex(remote)) && f.decision == MoveSecondaryToHistory
    requires NoBaselineGone(LiveIndex(snaps), BaselineIndex(rows), d.relativePath)
    ensures !IsDescendant(d.relativePath, f.relativePath)
  {
    var all := AllActions(snaps, cached, rows, remote);
    AllActionsSound(snaps, cached, rows, remote);
    var i :| 0 <= i < |all| && all[i] == f;
    assert Sound(all[i], LiveIndex(snaps), BaselineIndex(rows));
    if f.baseline.None? && IsDescendant(d.relativePath, f.relativePath) {
      RecoveredSnapshot(snaps, cached, rows, remote, d);
      RecoveredSnapshot(snaps, cached, rows, remote, f);
      assert f.snapshot.value.kind == Directory;
      NoDeleteBeneath(snaps, cached, rows, remote, f, d);
    }
  }

  /** Whatever the Secondary would acknowledge, everything in the tree of such a directory stays there. */
  lemma VanishedTreeStays(tree: map<RelPath, Entry>, snaps: seq<FileSnapshot>, cached: seq<FileSnapshot>,
                          rows: seq<SyncBaseline>, remote: seq<RemoteFileState>, deferred: set<RelPath>,
                          acks: seq<Ack>, d: PlannedAction, p: RelPath)
    requires UniqueSnapshots(snaps) && UniqueSnapshots(cached) && UniqueBaselines(rows) && ScanOk(LiveIndex(snaps))
    requires FilesAreLeaves(cached) && NoBaselineGone(LiveIndex(snaps), BaselineIndex(rows), d.relativePath)
    requires d in AllActions(snaps, cached, rows, remote) && VanishedDirectory(d, RemoteIndex(remote))
    requires |acks| == |AllActions(snaps, cached, rows, remote)|
    requires p in tree && AtOrUnder(p, d.relativePath)
    ensures var all := AllActions(snaps, cached, rows, remote);
            var after := Run(tree, AllPeerWrites(all, ExecuteAll(all, RemoteIndex(remote), deferred, acks)));
            p in after && after[p] == tree[p]
  {
    var all := AllActions(snaps, cached, rows, remote);
    RefusedDirectoryKeepsItsContents(tree, snaps, cached, rows, remote, deferred, acks, d, p);
    forall i | 0 <= i < |all| && all[i].decision == MoveSecondaryToHistory
      ensures !IsDescendant(d.relativePath, all[i].relativePath)
    {
      NothingAboveVanished(snaps, cached, rows, remote, d, all[i]);
    }
  }

  /** And it is not tried again: over the same scan the next list deletes nothing at or above it. */
  lemma VanishedTreeIsForgotten(snaps: seq<FileSnapshot>, cached: seq<FileSnapshot>, rows: seq<SyncBaseline>,
                                remote: seq<RemoteFileState>, t: Attempt, p: RelPath, cached': seq<FileSnapshot>,
                                rows': seq<SyncBaseline>, remote': seq<RemoteFileState>)
    requires UniqueSnapshots(snaps) && UniqueBaselines(rows) && UniqueBaselines(rows') && ScanOk(LiveIndex(snaps))
    requires t.Aligned() && t.actions == AllActions(snaps, cached, rows, remote)
    requires BaselineIndex(rows') == Run(BaselineIndex(rows), t.Writes())
    requires NoBaselineGone(LiveIndex(snaps), BaselineIndex(rows), p)
    requires forall c :: c in cached' ==> c in snaps
    ensures !TakesAway(AllActions(snaps, cached', rows', remote'), p)
  {
    var next, live, base := AllActions(snaps, cached', rows', remote'), LiveIndex(snaps), BaselineIndex(rows);
    AllActionsSound(snaps, cached, rows, remote);
    AllActionsSound(snaps, cached', rows', remote');
    LiveIndexFacts(snaps);
    forall f | f in next && f.decision == MoveSecondaryToHistory
      ensures !AtOrUnder(p, f.relativePath)
    {
      var i :| 0 <= i < |next| && next[i] == f;
      assert Sound(next[i], live, BaselineIndex(rows'));
      ListedPaths(snaps, cached', rows', remote', f);
      OldRow(t, live, base, f.relativePath);
    }
  }

  /** A row at a path that the scan does not show was there before the attempt. */
  lemma OldRow(t: Attempt, live: map<RelPath, FileSnapshot>, base: map<RelPath, SyncBaseline>, q: RelPath)
    requires t.Aligned() && ScanOk(live) && AllSound(t.actions, live, base) && q !in live
    ensures q in Run(base, t.Writes()) ==> q in base
  {
    WritesSeparate(t, live, base);
    Outcome(base, t.Writes(), q);
    if Touched(t.Writes(), q) {
      RowAfter(t, live, base, q, Run(base, t.Writes())[q]);
    }
  }

  /** A file in such a directory that the Secondary still has as it was scanned: its own delete would pass, but is
      dropped for the directory's. This is where the compressed list does less than the full one. */
  lemma DroppedDeleteWouldPass(snaps: seq<FileSnapshot>, cached: seq<FileSnapshot>, rows: seq<SyncBaseline>,
                               remote: seq<RemoteFileState>, d: PlannedAction, c: FileSnapshot, h: Hash)
    requires UniqueSnapshots(snaps) && UniqueSnapshots(cached) && UniqueBaselines(rows) && ScanOk(LiveIndex(snaps))
    requires FilesAreLeaves(cached) && NoBaselineGone(LiveIndex(snaps), BaselineIndex(rows), d.relativePath)
    requires d in AllActions(snaps, cached, rows, remote) && VanishedDirectory(d, RemoteIndex(remote))
    requires c in cached && IsLive(c) && c.kind == File && c.hashStatus == Verified && c.hash == Some(h)
    requires IsDescendant(c.relativePath, d.relativePath) && c.relativePath !in BaselineIndex(rows)
    requires ShowsFile(RemoteIndex(remote), c.relativePath, h)
    ensures var below := PlannedAction(c.relativePath, MoveSecondaryToHistory, Some(c), None);
            below in FullList(snaps, cached, rows) && PassesCheck(below, RemoteIndex(remote)) &&
            below !in AllActions(snaps, cached, rows, remote)
    ensures !CheckedKeep(FullList(snaps, cached, rows), RemoteIndex(remote))
  {
    var full, all := FullList(snaps, cached, rows), AllActions(snaps, cached, rows, remote);
    var below := PlannedAction(c.relativePath, MoveSecondaryToHistory, Some(c), None);
    VanishedEntryIsListed(snaps, cached, rows, remote, d, c);
    if below in all {
      NoDeleteBeneath(snaps, cached, rows, remote, d, below);
    }
    forall k | k in Compress(full) && PassesCheck(k, RemoteIndex(remote))
      ensures !AtOrUnder(c.relativePath, k.relativePath)
    {
      ListedDeletes(snaps, cached, rows, remote, k);
      NothingAboveVanished(snaps, cached, rows, remote, d, k);
      NoDeleteBeneath(snaps, cached, rows, remote, d, k);
      AllActionsUnique(snaps, cached, rows, remote);
      AboveAlike(all, d, k, c.relativePath);
      if c.relativePath == k.relativePath {
        assert false;
      }
    }
    assert !CheckedCover(full, RemoteIndex(remote), below);
  }

  /** What is beneath a directory that is gone is gone, and what had no baseline is recovered. */
  lemma VanishedEntryIsListed(snaps: seq<FileSnapshot>, cached: seq<FileSnapshot>, rows: seq<SyncBaseline>,
                              remote: seq<RemoteFileState>, d: PlannedAction, c: FileSnapshot)
    requires UniqueSnapshots(snaps) && UniqueBaselines(rows) && ScanOk(LiveIndex(snaps))
    requires d in AllActions(snaps, cached, rows, remote) && d.decision == MoveSecondaryToHistory
    requires c in cached && IsLive(c)
    requires IsDescendant(c.relativePath, d.relativePath) && c.relativePath !in BaselineIndex(rows)
    ensures PlannedAction(c.relativePath, MoveSecondaryToHistory, Some(c), None) in FullList(snaps, cached, rows)
  {
    var plan, all := Plan(snaps, rows, Primary), AllActions(snaps, cached, rows, remote);
    AllActionsSound(snaps, cached, rows, remote);
    var i :| 0 <= i < |all| && all[i] == d;
    assert Sound(all[i], LiveIndex(snaps), BaselineIndex(rows));
    assert c.relativePath !in LiveIndex(snaps);
    forall a | a in plan
      ensures a.relativePath != c.relativePath
    {
      PlannedPath(snaps, rows, a);
    }
    RecoveredMember(plan, cached, snaps, rows, PlannedAction(c.relativePath, MoveSecondaryToHistory, Some(c), None));
    var k :| 0 <= k < |cached| && cached[k] == c;
    assert RecoveredDelete(cached[k], LiveIndex(snaps), BaselineIndex(rows), ActionPaths(plan)).Some?;
  }
}
