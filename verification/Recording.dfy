/** What the recorded successes of one run leave in the baseline table, and what the same scan
    would plan afterwards. */
module Recording {
  import opened Prelude
  import opened Paths
  import opened Model
  import opened TreeTable
  import opened Planner
  import opened PrimarySync
  import opened ActionList

  /** One attempt to carry out an action list: the network results, and how many table writes of each
      action went through before the database stopped accepting them. */
  datatype Attempt = Attempt(actions: seq<PlannedAction>, results: seq<NetworkResult>, done: seq<nat>,
                             rehash: map<RelPath, Hash>, now: int)
  {
    ghost predicate Aligned() { |results| == |actions| == |done| }

    function Writes(): seq<Write<SyncBaseline>>
      requires |results| == |actions| == |done|
    {
      Performed(actions, results, done, rehash, now)
    }
  }

  /** Every performed write belongs to one action, at one position of that action's writes. */
  lemma WroteIsPerformed(a: PlannedAction, r: NetworkResult, done: nat, rehash: map<RelPath, Hash>, now: int,
                         w: Write<SyncBaseline>)
    requires WroteAt(a, r, done, rehash, now, w)
    ensures var writes := BaselineWrites(a, r, rehash, now);
            w in writes[..Min(done, |writes|)]
  {
    var writes := BaselineWrites(a, r, rehash, now);
    var k :| 0 <= k < done && k < |writes| && writes[k] == w;
    assert writes[..Min(done, |writes|)][k] == w;
  }

  lemma LastPerformed(actions: seq<PlannedAction>, results: seq<NetworkResult>, done: seq<nat>,
                      rehash: map<RelPath, Hash>, now: int, w: Write<SyncBaseline>)
    requires |results| == |actions| == |done| > 0
    ensures var n := |actions| - 1;
            var writes := BaselineWrites(actions[n], results[n], rehash, now);
            w in Performed(actions, results, done, rehash, now) <==>
            w in Performed(actions[..n], results[..n], done[..n], rehash, now) || w in writes[..Min(done[n], |writes|)]
  {
    var n := |actions| - 1;
    var writes := BaselineWrites(actions[n], results[n], rehash, now);
  }

  lemma {:induction false} PerformedFrom(actions: seq<PlannedAction>, results: seq<NetworkResult>, done: seq<nat>,
                                         rehash: map<RelPath, Hash>, now: int, w: Write<SyncBaseline>) returns (i: nat)
    requires |results| == |actions| == |done| && w in Performed(actions, results, done, rehash, now)
    ensures i < |actions| && WroteAt(actions[i], results[i], done[i], rehash, now, w)
  {
    var n := |actions| - 1;
    if w in Performed(actions[..n], results[..n], done[..n], rehash, now) {
      i := PerformedFrom(actions[..n], results[..n], done[..n], rehash, now, w);
    } else {
      i := n;
      LastPerformed(actions, results, done, rehash, now, w);
    }
  }

  lemma {:induction false} PerformedIn(actions: seq<PlannedAction>, results: seq<NetworkResult>, done: seq<nat>,
                                       rehash: map<RelPath, Hash>, now: int, i: nat, w: Write<SyncBaseline>)
    requires |results| == |actions| == |done| && i < |actions|
    requires WroteAt(actions[i], results[i], done[i], rehash, now, w)
    ensures w in Performed(actions, results, done, rehash, now)
  {
    var n := |actions| - 1;
    LastPerformed(actions, results, done, rehash, now, w);
    if i < n {
      assert actions[..n][i] == actions[i] && results[..n][i] == results[i] && done[..n][i] == done[i];
      PerformedIn(actions[..n], results[..n], done[..n], rehash, now, i, w);
    } else {
      WroteIsPerformed(actions[n], results[n], done[n], rehash, now, w);
    }
  }

  ghost predicate WroteAt(a: PlannedAction, r: NetworkResult, done: nat, rehash: map<RelPath, Hash>, now: int,
                          w: Write<SyncBaseline>)
  {
    exists k :: 0 <= k < done && k < |BaselineWrites(a, r, rehash, now)| && BaselineWrites(a, r, rehash, now)[k] == w
  }

  /** The success of the apply action for `p` was recorded in full. */
  ghost predicate Recorded(t: Attempt, p: RelPath)
    requires t.Aligned()
  {
    exists i :: 0 <= i < |t.actions| && RecordedAt(t.actions[i], t.results[i], t.done[i], p)
  }

  ghost predicate RecordedAt(a: PlannedAction, r: NetworkResult, done: nat, p: RelPath) {
    a.relativePath == p && a.decision == ApplyToSecondary && r.success && done > |ParentPaths(p)|
  }

  /** `p` got a directory row as the parent of something that was sent. */
  ghost predicate ParentRecorded(t: Attempt, p: RelPath)
    requires t.Aligned()
  {
    exists i :: 0 <= i < |t.actions| && ParentRecordedAt(t.actions[i], t.results[i], t.done[i], p)
  }

  ghost predicate ParentRecordedAt(a: PlannedAction, r: NetworkResult, done: nat, p: RelPath) {
    a.decision == ApplyToSecondary && r.success &&
    exists k :: 0 <= k < done && k < |ParentPaths(a.relativePath)| && ParentPaths(a.relativePath)[k] == p
  }

  /** The removal of `p` was recorded, by a delete of `p` or of something above it. */
  ghost predicate RemovalRecorded(t: Attempt, p: RelPath)
    requires t.Aligned()
  {
    exists i :: 0 <= i < |t.actions| && RemovalRecordedAt(t.actions[i], t.results[i], t.done[i], p)
  }

  ghost predicate RemovalRecordedAt(a: PlannedAction, r: NetworkResult, done: nat, p: RelPath) {
    a.decision == MoveSecondaryToHistory && r.success && done > 0 && AtOrUnder(p, a.relativePath)
  }

  /** The writes of one sound action: rows for live parents and its own row, or one removal of a dead tree. */
  lemma WritesOfOne(a: PlannedAction, r: NetworkResult, done: nat, rehash: map<RelPath, Hash>, now: int,
                    live: map<RelPath, FileSnapshot>, base: map<RelPath, SyncBaseline>, w: Write<SyncBaseline>)
    requires ScanOk(live) && Sound(a, live, base) && WroteAt(a, r, done, rehash, now, w)
    ensures r.success
    ensures w.DropTree? ==>
            a.decision == MoveSecondaryToHistory && done > 0 && w.path == a.relativePath && w.path !in live
    ensures w.Put? ==> w.path in live && a.decision == ApplyToSecondary
    ensures w.Put? ==>
              (RecordedAt(a, r, done, w.path) && w.value == AppliedBaseline(a, live[w.path], r, rehash, now)) ||
              (ParentRecordedAt(a, r, done, w.path) && w.value == DirectoryBaseline(w.path, now) &&
               live[w.path].kind == Directory)
  {
    var writes := BaselineWrites(a, r, rehash, now);
    var k :| 0 <= k < done && k < |writes| && writes[k] == w;
    if a.decision == ApplyToSecondary {
      var parents := ParentPaths(a.relativePath);
      if k < |parents| {
        assert w == Put(parents[k], DirectoryBaseline(parents[k], now));
        ParentPathsExact(a.relativePath, parents[k]);
      }
    }
  }

  /** The action behind a performed write. */
  lemma Author(t: Attempt, live: map<RelPath, FileSnapshot>, base: map<RelPath, SyncBaseline>, x: nat) returns (i: nat)
    requires t.Aligned() && ScanOk(live) && AllSound(t.actions, live, base)
    requires x < |t.Writes()|
    ensures i < |t.actions| && t.results[i].success
    ensures var w, a, done := t.Writes()[x], t.actions[i], t.done[i];
            if w.DropTree? then
              a.decision == MoveSecondaryToHistory && done > 0 && w.path == a.relativePath && w.path !in live
            else
              w.path in live && a.decision == ApplyToSecondary &&
              ((RecordedAt(a, t.results[i], done, w.path) &&
                w.value == AppliedBaseline(a, live[w.path], t.results[i], t.rehash, t.now)) ||
               (ParentRecordedAt(a, t.results[i], done, w.path) && w.value == DirectoryBaseline(w.path, t.now) &&
                live[w.path].kind == Directory))
  {
    var w := t.Writes()[x];
    i := PerformedFrom(t.actions, t.results, t.done, t.rehash, t.now, w);
    assert Sound(t.actions[i], live, base);
    WritesOfOne(t.actions[i], t.results[i], t.done[i], t.rehash, t.now, live, base, w);
  }

  lemma OwnRowWritten(t: Attempt, live: map<RelPath, FileSnapshot>, base: map<RelPath, SyncBaseline>, p: RelPath)
    requires t.Aligned() && AllSound(t.actions, live, base)
    requires Recorded(t, p)
    ensures Touched(t.Writes(), p)
  {
    var i :| 0 <= i < |t.actions| && RecordedAt(t.actions[i], t.results[i], t.done[i], p);
    assert Sound(t.actions[i], live, base);
    var w := BaselineWrites(t.actions[i], t.results[i], t.rehash, t.now)[|ParentPaths(p)|];
    assert WroteAt(t.actions[i], t.results[i], t.done[i], t.rehash, t.now, w);
    PerformedIn(t.actions, t.results, t.done, t.rehash, t.now, i, w);
    assert w.Put? && w.path == p;
  }

  lemma ParentRowWritten(t: Attempt, live: map<RelPath, FileSnapshot>, base: map<RelPath, SyncBaseline>, p: RelPath)
    requires t.Aligned() && AllSound(t.actions, live, base)
    requires ParentRecorded(t, p)
    ensures Touched(t.Writes(), p)
  {
    var i :| 0 <= i < |t.actions| && ParentRecordedAt(t.actions[i], t.results[i], t.done[i], p);
    var a := t.actions[i];
    assert Sound(a, live, base);
    var k :| 0 <= k < t.done[i] && k < |ParentPaths(a.relativePath)| && ParentPaths(a.relativePath)[k] == p;
    var w := BaselineWrites(a, t.results[i], t.rehash, t.now)[k];
    assert WroteAt(a, t.results[i], t.done[i], t.rehash, t.now, w);
    PerformedIn(t.actions, t.results, t.done, t.rehash, t.now, i, w);
    assert w.Put? && w.path == p;
  }

  lemma RemovalWritten(t: Attempt, p: RelPath)
    requires t.Aligned()
    requires RemovalRecorded(t, p)
    ensures Covers(t.Writes(), p)
  {
    var i :| 0 <= i < |t.actions| && RemovalRecordedAt(t.actions[i], t.results[i], t.done[i], p);
    var w := BaselineWrites(t.actions[i], t.results[i], t.rehash, t.now)[0];
    assert w == DropTree(t.actions[i].relativePath);
    assert WroteAt(t.actions[i], t.results[i], t.done[i], t.rehash, t.now, w);
    PerformedIn(t.actions, t.results, t.done, t.rehash, t.now, i, w);
  }

  /** Which rows an attempt writes, and which it removes. */
  lemma TouchedExactly(t: Attempt, live: map<RelPath, FileSnapshot>, base: map<RelPath, SyncBaseline>, p: RelPath)
    requires t.Aligned() && ScanOk(live) && AllSound(t.actions, live, base)
    ensures Touched(t.Writes(), p) <==> Recorded(t, p) || ParentRecorded(t, p)
    ensures Covers(t.Writes(), p) <==> RemovalRecorded(t, p)
  {
    var ws := t.Writes();
    if Touched(ws, p) {
      var x :| 0 <= x < |ws| && ws[x].Put? && ws[x].path == p;
      var i := Author(t, live, base, x);
    }
    if Covers(ws, p) {
      var x :| 0 <= x < |ws| && ws[x].DropTree? && AtOrUnder(p, ws[x].path);
      var i := Author(t, live, base, x);
      assert RemovalRecordedAt(t.actions[i], t.results[i], t.done[i], p);
    }
    if Recorded(t, p) { OwnRowWritten(t, live, base, p); }
    if ParentRecorded(t, p) { ParentRowWritten(t, live, base, p); }
    if RemovalRecorded(t, p) { RemovalWritten(t, p); }
  }

  lemma WritesSeparate(t: Attempt, live: map<RelPath, FileSnapshot>, base: map<RelPath, SyncBaseline>)
    requires t.Aligned() && ScanOk(live) && AllSound(t.actions, live, base)
    ensures Separate(t.Writes())
  {
    var ws := t.Writes();
    forall x, y | 0 <= x < |ws| && 0 <= y < |ws| && ws[x].Put? && ws[y].DropTree?
      ensures !AtOrUnder(ws[x].path, ws[y].path)
    {
      var i := Author(t, live, base, x);
      var j := Author(t, live, base, y);
    }
  }

  /** What a written row for a live path can look like. */
  lemma RowAfter(t: Attempt, live: map<RelPath, FileSnapshot>, base: map<RelPath, SyncBaseline>, p: RelPath,
                 row: SyncBaseline)
    requires t.Aligned() && ScanOk(live) && AllSound(t.actions, live, base)
    requires PutAt(t.Writes(), p, row)
    ensures p in live
    ensures (row == DirectoryBaseline(p, t.now) && live[p].kind == Directory) ||
            exists i :: 0 <= i < |t.actions| && RecordedAt(t.actions[i], t.results[i], t.done[i], p) &&
              row == AppliedBaseline(t.actions[i], live[p], t.results[i], t.rehash, t.now)
  {
    var x :| 0 <= x < |t.Writes()| && t.Writes()[x] == Put(p, row);
    var i := Author(t, live, base, x);
  }

  /** What a recorded upload or create leaves in the table: size and time of the scan on both sides, and on both
      sides the streamed hash, or else the scanned one, or else a fresh one. */
  lemma RecordedRowInFields(t: Attempt, live: map<RelPath, FileSnapshot>, base: map<RelPath, SyncBaseline>, p: RelPath)
    requires t.Aligned() && ScanOk(live) && AllSound(t.actions, live, base) && Recorded(t, p)
    ensures var after := Run(base, t.Writes());
            p in live && p in after &&
            ((live[p].kind == Directory &&
              after[p] == SyncBaseline(p, None, Unavailable, 0, 0, 0, None, Unavailable, 0, t.now)) ||
             exists i :: 0 <= i < |t.actions| && RecordedAt(t.actions[i], t.results[i], t.done[i], p) &&
               RowOfUpload(after[p], live[p], t.results[i].transferredHash, t.rehash, p, t.now))
  {
    WritesSeparate(t, live, base);
    TouchedExactly(t, live, base, p);
    Outcome(base, t.Writes(), p);
    var row := Run(base, t.Writes())[p];
    RowAfter(t, live, base, p, row);
    if i :| 0 <= i < |t.actions| && RecordedAt(t.actions[i], t.results[i], t.done[i], p) &&
            row == AppliedBaseline(t.actions[i], live[p], t.results[i], t.rehash, t.now)
    {
      AppliedRowInFields(t.actions[i], live[p], t.results[i], t.rehash, t.now);
    }
  }

  lemma AppliedRowInFields(a: PlannedAction, snap: FileSnapshot, r: NetworkResult, rehash: map<RelPath, Hash>, now: int)
    ensures RowOfUpload(AppliedBaseline(a, snap, r, rehash, now), snap, r.transferredHash, rehash, a.relativePath, now)
  {}

  predicate RowOfUpload(row: SyncBaseline, snap: FileSnapshot, transferred: Option<Hash>, rehash: map<RelPath, Hash>,
                        p: RelPath, now: int)
  {
    row.relativePath == p && row.lastSyncedMs == now &&
    row.primarySize == snap.size && row.secondarySize == snap.size &&
    row.primaryModifiedMs == snap.modifiedMs && row.secondaryModifiedMs == snap.modifiedMs &&
    row.primaryHash == row.secondaryHash && row.primaryHashStatus == row.secondaryHashStatus &&
    (transferred.Some? ==> row.primaryHash == transferred && row.primaryHashStatus == Verified) &&
    (transferred.None? && snap.hashStatus == Verified ==>
     row.primaryHash == snap.hash && row.primaryHashStatus == Verified) &&
    (transferred.None? && snap.hashStatus != Verified ==>
       if p in rehash then row.primaryHash == Some(rehash[p]) && row.primaryHashStatus == Verified
       else row.primaryHash == snap.hash && row.primaryHashStatus == snap.hashStatus)
  }

  // ---- planning the same scan again ----

  /** Files whose bytes were hashed. */
  ghost predicate FilesVerified(live: map<RelPath, FileSnapshot>) {
    forall p :: p in live && live[p].kind == File ==> live[p].hashStatus == Verified && live[p].hash.Some?
  }

  /** Every successful upload streamed the bytes that were scanned. */
  ghost predicate StreamedAsScanned(actions: seq<PlannedAction>, results: seq<NetworkResult>)
    requires |results| == |actions|
  {
    forall i :: 0 <= i < |actions| && results[i].success ==> AsScanned(actions[i], results[i])
  }

  predicate AsScanned(a: PlannedAction, r: NetworkResult) {
    a.decision == ApplyToSecondary && a.snapshot.Some? && a.snapshot.value.kind == File ==>
      r.transferredHash == a.snapshot.value.hash
  }

  ghost predicate Plans(snaps: seq<FileSnapshot>, rows: seq<SyncBaseline>, p: RelPath, decision: SyncDecision) {
    exists a :: a in Plan(snaps, rows, Primary) && a.relativePath == p && a.decision == decision
  }

  lemma PlannedApply(snaps: seq<FileSnapshot>, rows: seq<SyncBaseline>, a: PlannedAction)
    requires UniqueSnapshots(snaps) && a in Plan(snaps, rows, Primary) && a.decision == ApplyToSecondary
    ensures a.relativePath in LiveIndex(snaps)
    ensures NeedsAction(LiveIndex(snaps)[a.relativePath], BaselineIndex(rows), Primary)
  {
    LiveIndexFacts(snaps);
    PlannedExactly(snaps, rows, Primary, a);
    var i :| 0 <= i < |snaps| && SnapshotAction(snaps[i], BaselineIndex(rows), Primary) == Some(a);
    assert IsLive(snaps[i]) && LiveIndex(snaps)[snaps[i].relativePath] == snaps[i];
  }

  lemma PlannedRemoval(snaps: seq<FileSnapshot>, rows: seq<SyncBaseline>, a: PlannedAction)
    requires UniqueBaselines(rows) && a in Plan(snaps, rows, Primary) && a.decision == MoveSecondaryToHistory
    ensures a.relativePath in BaselineIndex(rows) && a.relativePath !in LiveIndex(snaps)
  {
    BaselineIndexFacts(rows);
    PlannedExactly(snaps, rows, Primary, a);
    var i :| 0 <= i < |rows| && DeletionAction(rows[i], LiveIndex(snaps), Primary) == Some(a);
    assert rows[i].relativePath in BaselineIndex(rows);
  }

  lemma NeededIsPlanned(snaps: seq<FileSnapshot>, rows: seq<SyncBaseline>, p: RelPath)
    requires p in LiveIndex(snaps) && NeedsAction(LiveIndex(snaps)[p], BaselineIndex(rows), Primary)
    ensures Plans(snaps, rows, p, ApplyToSecondary)
  {
    LiveIndexFacts(snaps);
    var i :| 0 <= i < |snaps| && snaps[i] == LiveIndex(snaps)[p];
    PlannedExactly(snaps, rows, Primary, SnapshotAction(snaps[i], BaselineIndex(rows), Primary).value);
  }

  lemma GoneIsPlanned(snaps: seq<FileSnapshot>, rows: seq<SyncBaseline>, p: RelPath)
    requires p in BaselineIndex(rows) && p !in LiveIndex(snaps)
    ensures Plans(snaps, rows, p, MoveSecondaryToHistory)
  {
    BaselineIndexFacts(rows);
    var i :| 0 <= i < |rows| && rows[i] == BaselineIndex(rows)[p];
    PlannedExactly(snaps, rows, Primary, DeletionAction(rows[i], LiveIndex(snaps), Primary).value);
  }

  lemma PlansExactly(snaps: seq<FileSnapshot>, rows: seq<SyncBaseline>, p: RelPath)
    requires UniqueSnapshots(snaps) && UniqueBaselines(rows)
    ensures Plans(snaps, rows, p, ApplyToSecondary) <==>
            p in LiveIndex(snaps) && NeedsAction(LiveIndex(snaps)[p], BaselineIndex(rows), Primary)
    ensures Plans(snaps, rows, p, MoveSecondaryToHistory) <==> p in BaselineIndex(rows) && p !in LiveIndex(snaps)
  {
    if Plans(snaps, rows, p, ApplyToSecondary) {
      var a :| a in Plan(snaps, rows, Primary) && a.relativePath == p && a.decision == ApplyToSecondary;
      PlannedApply(snaps, rows, a);
    } else if p in LiveIndex(snaps) && NeedsAction(LiveIndex(snaps)[p], BaselineIndex(rows), Primary) {
      NeededIsPlanned(snaps, rows, p);
    }
    if Plans(snaps, rows, p, MoveSecondaryToHistory) {
      var a :| a in Plan(snaps, rows, Primary) && a.relativePath == p && a.decision == MoveSecondaryToHistory;
      PlannedRemoval(snaps, rows, a);
    } else if p in BaselineIndex(rows) && p !in LiveIndex(snaps) {
      GoneIsPlanned(snaps, rows, p);
    }
  }

  /** Partial failure, exactly. Whatever subset of the actions succeeded, and wherever the database
      stopped recording: the unchanged scan plans an upload again exactly when it planned it before
      and the success was not recorded (a directory is also excused by something sent beneath it),
      and plans a delete again exactly when no delete at or above it was recorded. */
  lemma ReplanExactly(snaps: seq<FileSnapshot>, cached: seq<FileSnapshot>, rows: seq<SyncBaseline>,
                      remote: seq<RemoteFileState>, t: Attempt, rows': seq<SyncBaseline>, p: RelPath)
    requires UniqueSnapshots(snaps) && UniqueBaselines(rows) && UniqueBaselines(rows')
    requires ScanOk(LiveIndex(snaps)) && FilesVerified(LiveIndex(snaps))
    requires t.Aligned() && t.actions == AllActions(snaps, cached, rows, remote)
    requires StreamedAsScanned(t.actions, t.results)
    requires BaselineIndex(rows') == Run(BaselineIndex(rows), t.Writes())
    ensures Plans(snaps, rows', p, ApplyToSecondary) <==>
              Plans(snaps, rows, p, ApplyToSecondary) && !Recorded(t, p) && !ParentRecorded(t, p)
    ensures Plans(snaps, rows', p, MoveSecondaryToHistory) <==>
              Plans(snaps, rows, p, MoveSecondaryToHistory) && !RemovalRecorded(t, p)
  {
    var live, base := LiveIndex(snaps), BaselineIndex(rows);
    AllActionsSound(snaps, cached, rows, remote);
    PlansExactly(snaps, rows, p);
    PlansExactly(snaps, rows', p);
    LiveIndexFacts(snaps);
    WritesSeparate(t, live, base);
    TouchedExactly(t, live, base, p);
    Outcome(base, t.Writes(), p);
    if Touched(t.Writes(), p) {
      RowSettles(t, live, base, p, Run(base, t.Writes())[p]);
    }
  }

  /** A row written in this run leaves nothing to do for its path. */
  lemma RowSettles(t: Attempt, live: map<RelPath, FileSnapshot>, base: map<RelPath, SyncBaseline>, p: RelPath,
                   row: SyncBaseline)
    requires t.Aligned() && ScanOk(live) && FilesVerified(live) && AllSound(t.actions, live, base)
    requires StreamedAsScanned(t.actions, t.results)
    requires PutAt(t.Writes(), p, row)
    ensures p in live && (live[p].kind == File ==> !HasChanged(live[p], row, Primary))
  {
    RowAfter(t, live, base, p, row);
    if live[p].kind == File {
      var i :| 0 <= i < |t.actions| && RecordedAt(t.actions[i], t.results[i], t.done[i], p) &&
               row == AppliedBaseline(t.actions[i], live[p], t.results[i], t.rehash, t.now);
      assert Sound(t.actions[i], live, base) && AsScanned(t.actions[i], t.results[i]);
    }
  }

  /** A file too large to be hashed at the scan settles too: once its upload is recorded, the same scan does not plan
      it again. */
  lemma UnhashedFileSettles(snaps: seq<FileSnapshot>, rows: seq<SyncBaseline>, t: Attempt, rows': seq<SyncBaseline>,
                            p: RelPath)
    requires UniqueSnapshots(snaps) && UniqueBaselines(rows) && UniqueBaselines(rows') && ScanOk(LiveIndex(snaps))
    requires t.Aligned() && AllSound(t.actions, LiveIndex(snaps), BaselineIndex(rows)) && Recorded(t, p)
    requires BaselineIndex(rows') == Run(BaselineIndex(rows), t.Writes())
    requires p in LiveIndex(snaps) && LiveIndex(snaps)[p].kind == File && LiveIndex(snaps)[p].hashStatus != Verified
    ensures !Plans(snaps, rows', p, ApplyToSecondary) && !Plans(snaps, rows', p, MoveSecondaryToHistory)
  {
    LiveIndexFacts(snaps);
    RecordedRowInFields(t, LiveIndex(snaps), BaselineIndex(rows), p);
    PlansExactly(snaps, rows', p);
  }

  /** A failed file upload is excused by nothing: no parent's row ever stands in for it. */
  lemma FilesAreNoParents(snaps: seq<FileSnapshot>, t: Attempt, base: map<RelPath, SyncBaseline>, p: RelPath)
    requires ScanOk(LiveIndex(snaps)) && t.Aligned() && AllSound(t.actions, LiveIndex(snaps), base)
    requires p in LiveIndex(snaps) && LiveIndex(snaps)[p].kind == File
    ensures !ParentRecorded(t, p)
  {
    if ParentRecorded(t, p) {
      var i :| 0 <= i < |t.actions| && ParentRecordedAt(t.actions[i], t.results[i], t.done[i], p);
      assert Sound(t.actions[i], LiveIndex(snaps), base);
      ParentPathsExact(t.actions[i].relativePath, p);
      assert false;
    }
  }

  /** A repair that failed is appended again while the peer still lacks the entry. */
  lemma FailedRepairIsRepeated(snaps: seq<FileSnapshot>, cached: seq<FileSnapshot>, rows: seq<SyncBaseline>,
                               remote: seq<RemoteFileState>, t: Attempt,
                               cached': seq<FileSnapshot>, rows': seq<SyncBaseline>, remote': seq<RemoteFileState>,
                               a: PlannedAction)
    requires UniqueSnapshots(snaps) && UniqueBaselines(rows) && UniqueBaselines(rows')
    requires ScanOk(LiveIndex(snaps)) && FilesVerified(LiveIndex(snaps))
    requires t.Aligned() && t.actions == AllActions(snaps, cached, rows, remote)
    requires StreamedAsScanned(t.actions, t.results)
    requires BaselineIndex(rows') == Run(BaselineIndex(rows), t.Writes())
    requires a in t.actions && a.decision == ApplyToSecondary && a.baseline.Some? && a.snapshot.Some?
    requires MatchesPrimaryBaseline(a.snapshot.value, a.baseline.value)
    requires a.relativePath !in RemotePaths(remote') && !Recorded(t, a.relativePath) &&
             !ParentRecorded(t, a.relativePath)
    ensures exists b :: b in AllActions(snaps, cached', rows', remote') && b.decision == ApplyToSecondary &&
              b.relativePath == a.relativePath && b.snapshot == a.snapshot
  {
    UnrecordedRowStays(snaps, cached, rows, remote, t, rows', a);
    RepairOrBetter(snaps, cached', rows', remote', a.relativePath);
  }

  /** The scan still shows the entry, and its baseline is the old one. */
  lemma UnrecordedRowStays(snaps: seq<FileSnapshot>, cached: seq<FileSnapshot>, rows: seq<SyncBaseline>,
                           remote: seq<RemoteFileState>, t: Attempt, rows': seq<SyncBaseline>, a: PlannedAction)
    requires UniqueSnapshots(snaps) && UniqueBaselines(rows) && ScanOk(LiveIndex(snaps))
    requires t.Aligned() && t.actions == AllActions(snaps, cached, rows, remote)
    requires BaselineIndex(rows') == Run(BaselineIndex(rows), t.Writes())
    requires a in t.actions && a.decision == ApplyToSecondary && a.baseline.Some?
    requires !Recorded(t, a.relativePath) && !ParentRecorded(t, a.relativePath)
    ensures a.relativePath in LiveIndex(snaps) && a.snapshot == Some(LiveIndex(snaps)[a.relativePath])
    ensures a.relativePath in BaselineIndex(rows') && a.baseline == Some(BaselineIndex(rows')[a.relativePath])
  {
    var live, base, p := LiveIndex(snaps), BaselineIndex(rows), a.relativePath;
    AllActionsSound(snaps, cached, rows, remote);
    var i :| 0 <= i < |t.actions| && t.actions[i] == a;
    assert Sound(t.actions[i], live, base);
    WritesSeparate(t, live, base);
    TouchedExactly(t, live, base, p);
    Outcome(base, t.Writes(), p);
  }

  /** A live entry that matches its baseline, and that the peer lacks, is in the list. */
  lemma RepairOrBetter(snaps: seq<FileSnapshot>, cached: seq<FileSnapshot>, rows: seq<SyncBaseline>,
                       remote: seq<RemoteFileState>, p: RelPath)
    requires UniqueSnapshots(snaps) && UniqueBaselines(rows)
    requires p in LiveIndex(snaps) && p in BaselineIndex(rows) && p !in RemotePaths(remote)
    requires MatchesPrimaryBaseline(LiveIndex(snaps)[p], BaselineIndex(rows)[p])
    ensures exists b :: b in AllActions(snaps, cached, rows, remote) && b.decision == ApplyToSecondary &&
              b.relativePath == p && b.snapshot == Some(LiveIndex(snaps)[p])
  {
    var live, row := LiveIndex(snaps), BaselineIndex(rows)[p];
    BaselineIndexFacts(rows);
    var k :| 0 <= k < |rows| && rows[k] == row;
    var next := LocalActions(snaps, cached, rows);
    if p !in ActionPaths(next) {
      var b := Repair(row, live, ActionPaths(next), RemotePaths(remote)).value;
      RepairMember(next, snaps, rows, remote, b);
      AllMember(snaps, cached, rows, remote, b);
    } else {
      var b :| b in next && b.relativePath == p;
      RepairMember(next, snaps, rows, remote, b);
      AllMember(snaps, cached, rows, remote, b);
      AllActionsSound(snaps, cached, rows, remote);
      var all := AllActions(snaps, cached, rows, remote);
      var j :| 0 <= j < |all| && all[j] == b;
      assert Sound(all[j], live, BaselineIndex(rows));
    }
  }

  // ---- the deletes that are not tried again ----

  /** Where the action of a list can come from. */
  lemma ListedPaths(snaps: seq<FileSnapshot>, cached: seq<FileSnapshot>, rows: seq<SyncBaseline>,
                    remote: seq<RemoteFileState>, a: PlannedAction)
    requires UniqueSnapshots(snaps) && UniqueBaselines(rows)
    requires a in AllActions(snaps, cached, rows, remote)
    ensures a.relativePath in LiveIndex(snaps) || a.relativePath in BaselineIndex(rows) ||
            exists c :: c in cached && IsLive(c) && c.relativePath == a.relativePath
  {
    ListedFrom(snaps, cached, rows, remote, a);
    BaselineIndexFacts(rows);
    if a in Plan(snaps, rows, Primary) {
      PlannedPath(snaps, rows, a);
    }
  }

  lemma PlannedPath(snaps: seq<FileSnapshot>, rows: seq<SyncBaseline>, a: PlannedAction)
    requires UniqueSnapshots(snaps) && UniqueBaselines(rows) && a in Plan(snaps, rows, Primary)
    ensures a.relativePath in LiveIndex(snaps) || a.relativePath in BaselineIndex(rows)
  {
    PlanSound(snaps, rows);
    var i :| 0 <= i < |Plan(snaps, rows, Primary)| && Plan(snaps, rows, Primary)[i] == a;
    assert Sound(Plan(snaps, rows, Primary)[i], LiveIndex(snaps), BaselineIndex(rows));
    if a.decision == MoveSecondaryToHistory {
      PlannedRemoval(snaps, rows, a);
    }
  }

  /** A recovered delete has one try. The scan that finds the entry gone replaces the rows that remember it before
      anything is sent, and there is no baseline: whatever comes of the delete, and as long as the entry stays
      away, the next list has no action for its path. */
  lemma RecoveredDeleteHasOneTry(snaps: seq<FileSnapshot>, cached: seq<FileSnapshot>, rows: seq<SyncBaseline>,
                                 remote: seq<RemoteFileState>, t: Attempt, d: PlannedAction,
                                 snaps': seq<FileSnapshot>, cached': seq<FileSnapshot>, rows': seq<SyncBaseline>,
                                 remote': seq<RemoteFileState>)
    requires UniqueSnapshots(snaps) && UniqueBaselines(rows) && ScanOk(LiveIndex(snaps))
    requires t.Aligned() && t.actions == AllActions(snaps, cached, rows, remote)
    requires d in t.actions && d.decision == MoveSecondaryToHistory && d.baseline.None?
    requires UniqueSnapshots(snaps') && UniqueBaselines(rows') && d.relativePath !in LiveIndex(snaps')
    requires BaselineIndex(rows') == Run(BaselineIndex(rows), t.Writes())
    requires forall c :: c in cached' ==> c in snaps
    ensures forall b :: b in AllActions(snaps', cached', rows', remote') ==> b.relativePath != d.relativePath
  {
    var live, base, p := LiveIndex(snaps), BaselineIndex(rows), d.relativePath;
    AllActionsSound(snaps, cached, rows, remote);
    var i :| 0 <= i < |t.actions| && t.actions[i] == d;
    assert Sound(t.actions[i], live, base);
    WritesSeparate(t, live, base);
    Outcome(base, t.Writes(), p);
    if Touched(t.Writes(), p) {
      RowAfter(t, live, base, p, Run(base, t.Writes())[p]);
    }
    LiveIndexFacts(snaps);
    forall b | b in AllActions(snaps', cached', rows', remote')
      ensures b.relativePath != p
    {
      ListedPaths(snaps', cached', rows', remote', b);
    }
  }

  /** Over the same scan the next list deletes a path exactly if a baseline at or above it is gone from the scan and
      its removal was not recorded: recovered deletes do not count. */
  lemma DeletesListedAgainExactly(snaps: seq<FileSnapshot>, cached: seq<FileSnapshot>, rows: seq<SyncBaseline>,
                                  remote: seq<RemoteFileState>, t: Attempt, cached': seq<FileSnapshot>,
                                  rows': seq<SyncBaseline>, remote': seq<RemoteFileState>, p: RelPath)
    requires UniqueSnapshots(snaps) && UniqueBaselines(rows) && UniqueBaselines(rows')
    requires ScanOk(LiveIndex(snaps)) && FilesVerified(LiveIndex(snaps))
    requires t.Aligned() && t.actions == AllActions(snaps, cached, rows, remote)
    requires StreamedAsScanned(t.actions, t.results)
    requires BaselineIndex(rows') == Run(BaselineIndex(rows), t.Writes())
    requires forall c :: c in cached' ==> c in snaps
    ensures TakesAway(AllActions(snaps, cached', rows', remote'), p) <==>
            exists q :: q in BaselineIndex(rows) && q !in LiveIndex(snaps) && AtOrUnder(p, q) && !RemovalRecorded(t, q)
  {
    var all', full' := AllActions(snaps, cached', rows', remote'), FullList(snaps, cached', rows');
    DeletesOfTheList(snaps, cached', rows', remote', p);
    if TakesAway(full', p) {
      var d :| d in full' && d.decision == MoveSecondaryToHistory && AtOrUnder(p, d.relativePath);
      NothingRecovered(snaps, cached', rows', d);
      assert Plans(snaps, rows', d.relativePath, MoveSecondaryToHistory);
      ReplanExactly(snaps, cached, rows, remote, t, rows', d.relativePath);
      PlansExactly(snaps, rows, d.relativePath);
    }
    if q :| q in BaselineIndex(rows) && q !in LiveIndex(snaps) && AtOrUnder(p, q) && !RemovalRecorded(t, q) {
      PlansExactly(snaps, rows, q);
      ReplanExactly(snaps, cached, rows, remote, t, rows', q);
      var d :| d in Plan(snaps, rows', Primary) && d.relativePath == q && d.decision == MoveSecondaryToHistory;
      RecoveredMember(Plan(snaps, rows', Primary), cached', snaps, rows', d);
    }
  }

  lemma DeletesOfTheList(snaps: seq<FileSnapshot>, cached: seq<FileSnapshot>, rows: seq<SyncBaseline>,
                         remote: seq<RemoteFileState>, p: RelPath)
    ensures TakesAway(AllActions(snaps, cached, rows, remote), p) <==> TakesAway(FullList(snaps, cached, rows), p)
  {
    var all, local, full := AllActions(snaps, cached, rows, remote), LocalActions(snaps, cached, rows),
      FullList(snaps, cached, rows);
    CompressionRemovesTheSame(full, p);
    forall d: PlannedAction | d.decision == MoveSecondaryToHistory
      ensures d in all <==> d in Compress(full)
    {
      AllMember(snaps, cached, rows, remote, d);
      RepairMember(local, snaps, rows, remote, d);
      LocalMember(snaps, cached, rows, d);
    }
  }

  lemma NothingRecovered(snaps: seq<FileSnapshot>, cached: seq<FileSnapshot>, rows: seq<SyncBaseline>, d: PlannedAction)
    requires d in FullList(snaps, cached, rows) && forall c :: c in cached ==> c in snaps
    ensures d in Plan(snaps, rows, Primary)
  {
    var plan := Plan(snaps, rows, Primary);
    RecoveredMember(plan, cached, snaps, rows, d);
    LiveIndexFacts(snaps);
    forall i | 0 <= i < |cached|
      ensures RecoveredDelete(cached[i], LiveIndex(snaps), BaselineIndex(rows), ActionPaths(plan)) == None
    {
      assert cached[i] in snaps;
      var k :| 0 <= k < |snaps| && snaps[k] == cached[i];
      assert IsLive(snaps[k]) ==> snaps[k].relativePath in LiveIndex(snaps);
    }
  }
}
