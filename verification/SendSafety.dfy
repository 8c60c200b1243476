/** What a Primary run can do to a file that somebody changed on the Secondary after the last sync. */
module SendSafety {
  import opened Prelude
  import opened Paths
  import opened Model
  import opened TreeTable
  import opened Planner
  import opened PrimarySync
  import opened ActionList

  /** The action speaks about this very version: the baseline's, or, for an entry that vanished before it had a
      baseline, the one of the previous scan. */
  predicate KnowsVersion(a: PlannedAction, h: Hash) {
    match a.baseline
    case Some(b) => b.secondaryHash == Some(h)
    case None => a.decision == MoveSecondaryToHistory && a.snapshot.Some? && a.snapshot.value.hash == Some(h)
  }

  predicate ShowsFile(remote: map<RelPath, RemoteFileState>, p: RelPath, h: Hash) {
    p in remote && remote[p].kind == File && remote[p].hashStatus == Verified && remote[p].hash == Some(h)
  }

  predicate Sends(a: PlannedAction) { a.decision == ApplyToSecondary || a.decision == MoveSecondaryToHistory }

  /** No upload, directory create or delete at a path gets past the checks unless it knows the version that the
      Secondary reports there; whatever the Secondary would have answered. */
  lemma ChangedFileIsRefused(a: PlannedAction, remote: map<RelPath, RemoteFileState>, deferred: set<RelPath>, ack: Ack,
                             h: Hash)
    requires Sends(a) && ShowsFile(remote, a.relativePath, h)
    ensures Execute(a, remote, deferred, ack).success ==> KnowsVersion(a, h)
  {}

  /** What the checks look at: the Secondary's listing by path, complete, and the entry itself where a path is listed
      once. */
  lemma {:induction false} RemoteIndexExactly(remote: seq<RemoteFileState>)
    ensures forall p :: p in RemoteIndex(remote) ==>
              RemoteIndex(remote)[p] in remote && RemoteIndex(remote)[p].relativePath == p
    ensures forall i :: 0 <= i < |remote| ==> remote[i].relativePath in RemoteIndex(remote)
    ensures (forall i, j :: 0 <= i < j < |remote| ==> remote[i].relativePath != remote[j].relativePath) ==>
              forall i :: 0 <= i < |remote| ==> RemoteIndex(remote)[remote[i].relativePath] == remote[i]
  {
    if remote != [] {
      var n := |remote| - 1;
      RemoteIndexExactly(remote[..n]);
      SplitLast(remote);
      assert forall i :: 0 <= i < n ==> remote[..n][i] == remote[i];
    }
  }

  // ---- when a send succeeds, in the fields of the records ----

  /** A file goes through exactly if the user has not deferred it, the Secondary shows nothing at the path or the very
      version of the baseline, and the stream is acknowledged. */
  lemma UploadSucceedsExactly(a: PlannedAction, remote: map<RelPath, RemoteFileState>, deferred: set<RelPath>, ack: Ack)
    requires a.decision == ApplyToSecondary && a.snapshot.Some? && a.snapshot.value.kind == File
    ensures var r, p := Execute(a, remote, deferred, ack), a.relativePath;
            (r.success <==>
               p !in deferred && ack.Acked? &&
               (p in remote ==> a.baseline.Some? && a.baseline.value.secondaryHash == remote[p].hash)) &&
            (r.success ==> r.transferredHash == Some(ack.hash))
  {}

  /** A directory is created exactly if there is nothing at the path, or a directory, and the answer comes. */
  lemma CreateSucceedsExactly(a: PlannedAction, remote: map<RelPath, RemoteFileState>, deferred: set<RelPath>, ack: Ack)
    requires a.decision == ApplyToSecondary && a.snapshot.Some? && a.snapshot.value.kind == Directory
    ensures var r, p := Execute(a, remote, deferred, ack), a.relativePath;
            (r.success <==> ack.Acked? && (p in remote ==> remote[p].kind == Directory)) &&
            (r.success ==> r.transferredHash == None)
  {}

  /** A delete goes through exactly if it is acknowledged, and the Secondary shows nothing there or still what was
      last known: of a baseline without hashes and sizes, a directory; of one with a verified hash, a file with it
      or with no verified hash; of any other, an unhashed file of the same size and time. Without a baseline, a
      file whose verified hash is the last scan's. */
  lemma DeleteSucceedsExactly(a: PlannedAction, remote: map<RelPath, RemoteFileState>, deferred: set<RelPath>, ack: Ack)
    requires a.decision == MoveSecondaryToHistory
    ensures Execute(a, remote, deferred, ack).success <==>
            ack.Acked? && (a.relativePath in remote ==> StillAsKnown(a, remote[a.relativePath]))
  {}

  predicate StillAsKnown(a: PlannedAction, r: RemoteFileState) {
    match a.baseline
    case Some(b) =>
      if b.primaryHash == None && b.secondaryHash == None && b.primaryHashStatus == Unavailable &&
         b.secondaryHashStatus == Unavailable && b.primarySize == 0 && b.secondarySize == 0
      then r.kind == Directory
      else if b.secondaryHashStatus == Verified && b.secondaryHash != None then
        r.kind == File && (r.hashStatus == Verified ==> r.hash == b.secondaryHash)
      else
        r.kind == File && b.secondaryHashStatus != Verified && r.hashStatus != Verified &&
        r.size == b.secondarySize && r.modifiedMs == b.secondaryModifiedMs
    case None =>
      a.snapshot.Some? && a.snapshot.value.kind == File && r.kind == File &&
      a.snapshot.value.hashStatus == Verified && r.hashStatus == Verified && a.snapshot.value.hash == r.hash
  }

  /** A successful delete of a directory above `p`. */
  ghost predicate DeletedAbove(actions: seq<PlannedAction>, results: seq<NetworkResult>, p: RelPath)
    requires |results| == |actions|
  {
    exists i :: 0 <= i < |actions| && results[i].success && actions[i].decision == MoveSecondaryToHistory &&
      IsDescendant(p, actions[i].relativePath)
  }

  /** The list has nothing for the version `h` at `p`, and nothing that would need a folder there. */
  ghost predicate Unaware(actions: seq<PlannedAction>, p: RelPath, h: Hash) {
    forall i :: 0 <= i < |actions| ==> UnawareAction(actions[i], p, h)
  }

  predicate UnawareAction(a: PlannedAction, p: RelPath, h: Hash) {
    Sends(a) && (a.relativePath == p ==> !KnowsVersion(a, h)) &&
    (a.decision == ApplyToSecondary ==> p !in ParentPaths(a.relativePath))
  }

  lemma {:induction false} PutsElsewhere<V>(t: map<RelPath, V>, ws: seq<Write<V>>, p: RelPath)
    requires forall i :: 0 <= i < |ws| ==> ws[i].Put? && ws[i].path != p
    ensures p in Run(t, ws) <==> p in t
    ensures p in t ==> Run(t, ws)[p] == t[p]
  {
    if ws != [] {
      PutsElsewhere(t, ws[..|ws| - 1], p);
    }
  }

  /** One successful action that is not about `p` itself. */
  lemma OneActionAt(t: map<RelPath, Entry>, a: PlannedAction, r: NetworkResult, p: RelPath)
    requires Sends(a) && (r.success ==> a.relativePath != p)
    requires a.decision == ApplyToSecondary ==> p !in ParentPaths(a.relativePath)
    ensures var after := Run(t, PeerWrites(a, r));
            var gone := r.success && a.decision == MoveSecondaryToHistory && IsDescendant(p, a.relativePath);
            (p in after <==> p in t && !gone) && (p in after ==> after[p] == t[p])
  {
    var ws := PeerWrites(a, r);
    if r.success && a.decision == MoveSecondaryToHistory {
      assert ws[..0] == [] && Run(t, ws) == Step(t, DropTree(a.relativePath));
    } else {
      forall i | 0 <= i < |ws|
        ensures ws[i].Put? && ws[i].path != p
      {
        assert ws[i] in ws;
      }
      PutsElsewhere(t, ws, p);
    }
  }

  /** No action succeeds at `p`, and nothing is created beneath it. */
  ghost predicate NothingAt(actions: seq<PlannedAction>, remote: map<RelPath, RemoteFileState>, deferred: set<RelPath>,
                            acks: seq<Ack>, p: RelPath)
    requires |acks| == |actions|
  {
    forall i :: 0 <= i < |actions| ==>
      Sends(actions[i]) &&
      (actions[i].relativePath == p ==> !Execute(actions[i], remote, deferred, acks[i]).success) &&
      (actions[i].decision == ApplyToSecondary ==> p !in ParentPaths(actions[i].relativePath))
  }

  /** Over a whole run an entry at which no action succeeds stays as it is exactly unless a directory above it is
      deleted. */
  lemma {:induction false} EntryStaysExactly(tree: map<RelPath, Entry>, actions: seq<PlannedAction>,
                                             remote: map<RelPath, RemoteFileState>, deferred: set<RelPath>,
                                             acks: seq<Ack>, p: RelPath)
    requires |acks| == |actions| && NothingAt(actions, remote, deferred, acks, p)
    ensures var results := ExecuteAll(actions, remote, deferred, acks);
            var after := Run(tree, AllPeerWrites(actions, results));
            (p in after <==> p in tree && !DeletedAbove(actions, results, p)) &&
            (p in after && p in tree ==> after[p] == tree[p])
  {
    if actions != [] {
      var n := |actions| - 1;
      var before := ExecuteAll(actions[..n], remote, deferred, acks[..n]);
      var results := ExecuteAll(actions, remote, deferred, acks);
      assert results[..n] == before;
      EntryStaysExactly(tree, actions[..n], remote, deferred, acks[..n], p);
      RunAppend(tree, AllPeerWrites(actions[..n], before), PeerWrites(actions[n], results[n]));
      OneActionAt(Run(tree, AllPeerWrites(actions[..n], before)), actions[n], results[n], p);
      AboveExtends(actions, results, p);
    }
  }

  /** Over a whole run, whatever the Secondary acknowledges: a file that was changed there after the last sync
      stays as it is exactly unless a directory above it is deleted. */
  lemma ChangedFileSurvivesExactly(tree: map<RelPath, Entry>, actions: seq<PlannedAction>,
                                   remote: map<RelPath, RemoteFileState>, deferred: set<RelPath>,
                                   acks: seq<Ack>, p: RelPath, h: Hash)
    requires |acks| == |actions| && Unaware(actions, p, h) && ShowsFile(remote, p, h)
    requires p in tree && tree[p] == Content(h)
    ensures var results := ExecuteAll(actions, remote, deferred, acks);
            var after := Run(tree, AllPeerWrites(actions, results));
            (p in after <==> !DeletedAbove(actions, results, p)) && (p in after ==> after[p] == Content(h))
  {
    forall i | 0 <= i < |actions| && actions[i].relativePath == p
      ensures !Execute(actions[i], remote, deferred, acks[i]).success
    {
      assert UnawareAction(actions[i], p, h);
      ChangedFileIsRefused(actions[i], remote, deferred, acks[i], h);
    }
    assert forall i :: 0 <= i < |actions| ==> UnawareAction(actions[i], p, h);
    EntryStaysExactly(tree, actions, remote, deferred, acks, p);
  }

  lemma AboveExtends(actions: seq<PlannedAction>, results: seq<NetworkResult>, p: RelPath)
    requires |results| == |actions| > 0
    ensures var n := |actions| - 1;
            DeletedAbove(actions, results, p) <==>
            DeletedAbove(actions[..n], results[..n], p) ||
            (results[n].success && actions[n].decision == MoveSecondaryToHistory &&
             IsDescendant(p, actions[n].relativePath))
  {
    var n := |actions| - 1;
    assert forall i :: 0 <= i < n ==> actions[..n][i] == actions[i] && results[..n][i] == results[i];
    if DeletedAbove(actions[..n], results[..n], p) {
      var i :| 0 <= i < n && results[..n][i].success && actions[..n][i].decision == MoveSecondaryToHistory &&
        IsDescendant(p, actions[..n][i].relativePath);
      assert results[i].success && IsDescendant(p, actions[i].relativePath);
    }
    if DeletedAbove(actions, results, p) {
      var i :| 0 <= i < |actions| && results[i].success && actions[i].decision == MoveSecondaryToHistory &&
        IsDescendant(p, actions[i].relativePath);
      if i < n {
        assert results[..n][i].success && IsDescendant(p, actions[..n][i].relativePath);
      }
    }
  }

  /** The same, before anything is sent: a listed delete above `p` that its check lets through, and that the
      Secondary will acknowledge. */
  ghost predicate DeleteGoesThroughAbove(actions: seq<PlannedAction>, remote: map<RelPath, RemoteFileState>,
                                         acks: seq<Ack>, p: RelPath)
    requires |acks| == |actions|
  {
    exists i :: 0 <= i < |actions| && actions[i].decision == MoveSecondaryToHistory &&
      IsDescendant(p, actions[i].relativePath) && RemoteDeleteRefusal(actions[i], remote).None? && acks[i].Acked?
  }

  lemma DeletedAboveExactly(actions: seq<PlannedAction>, remote: map<RelPath, RemoteFileState>, deferred: set<RelPath>,
                            acks: seq<Ack>, p: RelPath)
    requires |acks| == |actions|
    ensures DeletedAbove(actions, ExecuteAll(actions, remote, deferred, acks), p) <==>
            DeleteGoesThroughAbove(actions, remote, acks, p)
  {
    var results := ExecuteAll(actions, remote, deferred, acks);
    forall i | 0 <= i < |actions| && actions[i].decision == MoveSecondaryToHistory
      ensures results[i].success <==> RemoteDeleteRefusal(actions[i], remote).None? && acks[i].Acked?
    {
      assert results[i] == Execute(actions[i], remote, deferred, acks[i]);
    }
  }

  // ---- the list that the program sends ----

  /** A delete without a baseline speaks about a row of the previous scan. */
  lemma RecoveredSnapshot(snaps: seq<FileSnapshot>, cached: seq<FileSnapshot>, rows: seq<SyncBaseline>,
                          remote: seq<RemoteFileState>, d: PlannedAction)
    requires d in AllActions(snaps, cached, rows, remote) && d.decision == MoveSecondaryToHistory && d.baseline.None?
    ensures d.snapshot.Some? && d.snapshot.value in cached && IsLive(d.snapshot.value) &&
            d.snapshot.value.relativePath == d.relativePath
  {
    ListedFrom(snaps, cached, rows, remote, d);
    if d in Plan(snaps, rows, Primary) {
      PlannedExactly(snaps, rows, Primary, d);
    }
  }

  /** Nothing the program has stored about `p` names the version `h`: neither the baseline nor, where there is none,
      the previous scan. */
  ghost predicate ChangedSince(cached: seq<FileSnapshot>, rows: seq<SyncBaseline>, p: RelPath, h: Hash) {
    if p in BaselineIndex(rows) then BaselineIndex(rows)[p].secondaryHash != Some(h)
    else forall c :: c in cached && IsLive(c) && c.relativePath == p ==> c.hash != Some(h)
  }

  lemma ListIsUnaware(snaps: seq<FileSnapshot>, cached: seq<FileSnapshot>, rows: seq<SyncBaseline>,
                      remote: seq<RemoteFileState>, p: RelPath, h: Hash)
    requires UniqueSnapshots(snaps) && UniqueBaselines(rows) && ScanOk(LiveIndex(snaps))
    requires p in LiveIndex(snaps) ==> LiveIndex(snaps)[p].kind == File
    requires ChangedSince(cached, rows, p, h)
    ensures Unaware(AllActions(snaps, cached, rows, remote), p, h)
  {
    var all, live, base := AllActions(snaps, cached, rows, remote), LiveIndex(snaps), BaselineIndex(rows);
    AllActionsSound(snaps, cached, rows, remote);
    forall i | 0 <= i < |all|
      ensures UnawareAction(all[i], p, h)
    {
      assert Sound(all[i], live, base);
      if all[i].baseline.None? && all[i].decision == MoveSecondaryToHistory {
        RecoveredSnapshot(snaps, cached, rows, remote, all[i]);
      }
      ActionIsUnaware(all[i], live, cached, rows, p, h);
    }
  }

  lemma ActionIsUnaware(a: PlannedAction, live: map<RelPath, FileSnapshot>, cached: seq<FileSnapshot>,
                        rows: seq<SyncBaseline>, p: RelPath, h: Hash)
    requires ScanOk(live) && Sound(a, live, BaselineIndex(rows)) && ChangedSince(cached, rows, p, h)
    requires p in live ==> live[p].kind == File
    requires a.baseline.None? && a.decision == MoveSecondaryToHistory ==>
               a.snapshot.Some? && a.snapshot.value in cached && IsLive(a.snapshot.value) &&
               a.snapshot.value.relativePath == a.relativePath
    ensures UnawareAction(a, p, h)
  {
    if a.relativePath == p && a.baseline.None? && a.decision == MoveSecondaryToHistory {
      assert a.snapshot.value.hash != Some(h);
    }
    if a.decision == ApplyToSecondary && p in ParentPaths(a.relativePath) {
      ParentPathsExact(a.relativePath, p);
    }
  }

  /** For the list of any run, whatever the Secondary acknowledges: a file whose present version the Primary has
      no record of stays as it is exactly unless an acknowledged delete of a directory above it passes its check. */
  lemma UnknownVersionSurvivesExactly(tree: map<RelPath, Entry>, snaps: seq<FileSnapshot>, cached: seq<FileSnapshot>,
                                      rows: seq<SyncBaseline>, remote: seq<RemoteFileState>, deferred: set<RelPath>,
                                      acks: seq<Ack>, p: RelPath, h: Hash)
    requires UniqueSnapshots(snaps) && UniqueBaselines(rows) && ScanOk(LiveIndex(snaps))
    requires p in LiveIndex(snaps) ==> LiveIndex(snaps)[p].kind == File
    requires ChangedSince(cached, rows, p, h) && ShowsFile(RemoteIndex(remote), p, h)
    requires p in tree && tree[p] == Content(h)
    requires |acks| == |AllActions(snaps, cached, rows, remote)|
    ensures var all := AllActions(snaps, cached, rows, remote);
            var after := Run(tree, AllPeerWrites(all, ExecuteAll(all, RemoteIndex(remote), deferred, acks)));
            (p in after <==> !DeleteGoesThroughAbove(all, RemoteIndex(remote), acks, p)) &&
            (p in after ==> after[p] == Content(h))
  {
    var all := AllActions(snaps, cached, rows, remote);
    ListIsUnaware(snaps, cached, rows, remote, p, h);
    ChangedFileSurvivesExactly(tree, all, RemoteIndex(remote), deferred, acks, p, h);
    DeletedAboveExactly(all, RemoteIndex(remote), deferred, acks, p);
  }

  /** A file that the user has deferred is not sent, whatever the Secondary would answer: the action fails, and the
      Secondary has at that path what it had. */
  lemma DeferredUploadIsHeldBack(tree: map<RelPath, Entry>, snaps: seq<FileSnapshot>, cached: seq<FileSnapshot>,
                                 rows: seq<SyncBaseline>, remote: seq<RemoteFileState>, deferred: set<RelPath>,
                                 acks: seq<Ack>, i: nat)
    requires UniqueSnapshots(snaps) && UniqueSnapshots(cached) && UniqueBaselines(rows) && ScanOk(LiveIndex(snaps))
    requires |acks| == |AllActions(snaps, cached, rows, remote)| && i < |acks|
    requires var a := AllActions(snaps, cached, rows, remote)[i];
             a.relativePath in deferred && a.snapshot.Some? && a.snapshot.value.kind == File &&
             a.decision == ApplyToSecondary
    ensures var all := AllActions(snaps, cached, rows, remote);
            var results, p := ExecuteAll(all, RemoteIndex(remote), deferred, acks), all[i].relativePath;
            var after := Run(tree, AllPeerWrites(all, results));
            !results[i].success && (p in after <==> p in tree) && (p in tree ==> after[p] == tree[p])
  {
    var all := AllActions(snaps, cached, rows, remote);
    NothingAtDeferred(snaps, cached, rows, remote, deferred, acks, i);
    EntryStaysExactly(tree, all, RemoteIndex(remote), deferred, acks, all[i].relativePath);
    FinishedListIsWellFormed(snaps, cached, rows, remote);
  }

  lemma NothingAtDeferred(snaps: seq<FileSnapshot>, cached: seq<FileSnapshot>, rows: seq<SyncBaseline>,
                          remote: seq<RemoteFileState>, deferred: set<RelPath>, acks: seq<Ack>, i: nat)
    requires UniqueSnapshots(snaps) && UniqueSnapshots(cached) && UniqueBaselines(rows) && ScanOk(LiveIndex(snaps))
    requires |acks| == |AllActions(snaps, cached, rows, remote)| && i < |acks|
    requires var a := AllActions(snaps, cached, rows, remote)[i];
             a.relativePath in deferred && a.snapshot.Some? && a.snapshot.value.kind == File &&
             a.decision == ApplyToSecondary
    ensures var all := AllActions(snaps, cached, rows, remote);
            !Execute(all[i], RemoteIndex(remote), deferred, acks[i]).success &&
            NothingAt(all, RemoteIndex(remote), deferred, acks, all[i].relativePath)
  {
    var all, live := AllActions(snaps, cached, rows, remote), LiveIndex(snaps);
    var p := all[i].relativePath;
    AllActionsSound(snaps, cached, rows, remote);
    AllActionsUnique(snaps, cached, rows, remote);
    assert Sound(all[i], live, BaselineIndex(rows));
    forall k | 0 <= k < |all|
      ensures Sends(all[k]) && (all[k].relativePath == p ==> k == i) &&
              (all[k].decision == ApplyToSecondary ==> p !in ParentPaths(all[k].relativePath))
    {
      assert Sound(all[k], live, BaselineIndex(rows));
      if all[k].decision == ApplyToSecondary {
        ParentPathsExact(all[k].relativePath, p);
      }
    }
  }

  // ---- a directory delete that is refused ----

  /** The deletes of the executed list are the retained ones. */
  lemma ListedDeletes(snaps: seq<FileSnapshot>, cached: seq<FileSnapshot>, rows: seq<SyncBaseline>,
                      remote: seq<RemoteFileState>, d: PlannedAction)
    requires d.decision == MoveSecondaryToHistory
    ensures d in AllActions(snaps, cached, rows, remote) <==> d in Compress(FullList(snaps, cached, rows))
  {
    AllMember(snaps, cached, rows, remote, d);
    RepairMember(LocalActions(snaps, cached, rows), snaps, rows, remote, d);
    LocalMember(snaps, cached, rows, d);
  }

  /** No delete is sent for anything beneath a directory whose delete is sent. */
  lemma NoDeleteBeneath(snaps: seq<FileSnapshot>, cached: seq<FileSnapshot>, rows: seq<SyncBaseline>,
                        remote: seq<RemoteFileState>, d: PlannedAction, f: PlannedAction)
    requires d in AllActions(snaps, cached, rows, remote) && f in AllActions(snaps, cached, rows, remote)
    requires d.decision == MoveSecondaryToHistory && f.decision == MoveSecondaryToHistory && IsDirectoryDelete(d)
    ensures !IsDescendant(f.relativePath, d.relativePath)
  {
    ListedDeletes(snaps, cached, rows, remote, d);
    ListedDeletes(snaps, cached, rows, remote, f);
    CompressionIsTight(FullList(snaps, cached, rows));
  }

  /** Nothing is created at, beneath or through what a list deletes. */
  lemma NoApplyInside(all: seq<PlannedAction>, live: map<RelPath, FileSnapshot>, base: map<RelPath, SyncBaseline>,
                      d: PlannedAction, a: PlannedAction, p: RelPath)
    requires ScanOk(live) && AllSound(all, live, base) && d in all && a in all
    requires d.decision == MoveSecondaryToHistory && a.decision == ApplyToSecondary && AtOrUnder(p, d.relativePath)
    ensures a.relativePath != p && p !in ParentPaths(a.relativePath)
  {
    ParentPathsExact(a.relativePath, p);
    if IsDescendant(a.relativePath, p) {
      AtOrUnderTransitive(a.relativePath, p, d.relativePath);
    }
  }

  lemma NothingInRefusedTree(snaps: seq<FileSnapshot>, cached: seq<FileSnapshot>, rows: seq<SyncBaseline>,
                             remote: seq<RemoteFileState>, deferred: set<RelPath>, acks: seq<Ack>, d: PlannedAction,
                             p: RelPath)
    requires UniqueSnapshots(snaps) && UniqueSnapshots(cached) && UniqueBaselines(rows) && ScanOk(LiveIndex(snaps))
    requires d in AllActions(snaps, cached, rows, remote) && d.decision == MoveSecondaryToHistory
    requires IsDirectoryDelete(d) && RemoteDeleteRefusal(d, RemoteIndex(remote)).Some?
    requires |acks| == |AllActions(snaps, cached, rows, remote)| && AtOrUnder(p, d.relativePath)
    ensures NothingAt(AllActions(snaps, cached, rows, remote), RemoteIndex(remote), deferred, acks, p)
  {
    var all := AllActions(snaps, cached, rows, remote);
    AllActionsSound(snaps, cached, rows, remote);
    AllActionsUnique(snaps, cached, rows, remote);
    forall i | 0 <= i < |all|
      ensures Sends(all[i]) &&
              (all[i].relativePath == p ==> !Execute(all[i], RemoteIndex(remote), deferred, acks[i]).success) &&
              (all[i].decision == ApplyToSecondary ==> p !in ParentPaths(all[i].relativePath))
    {
      assert Sound(all[i], LiveIndex(snaps), BaselineIndex(rows));
      if all[i].decision == ApplyToSecondary {
        NoApplyInside(all, LiveIndex(snaps), BaselineIndex(rows), d, all[i], p);
      } else if all[i].relativePath == p {
        NoDeleteBeneath(snaps, cached, rows, remote, d, all[i]);
        UniqueMembers(all, all[i], d);
      }
    }
  }

  /** A delete above `p` is one above the directory, if the directory's own is refused. */
  lemma GoesThroughAboveAlike(snaps: seq<FileSnapshot>, cached: seq<FileSnapshot>, rows: seq<SyncBaseline>,
                              remote: seq<RemoteFileState>, acks: seq<Ack>, d: PlannedAction, p: RelPath)
    requires UniqueSnapshots(snaps) && UniqueSnapshots(cached) && UniqueBaselines(rows)
    requires d in AllActions(snaps, cached, rows, remote) && d.decision == MoveSecondaryToHistory
    requires IsDirectoryDelete(d) && RemoteDeleteRefusal(d, RemoteIndex(remote)).Some?
    requires |acks| == |AllActions(snaps, cached, rows, remote)| && AtOrUnder(p, d.relativePath)
    ensures DeleteGoesThroughAbove(AllActions(snaps, cached, rows, remote), RemoteIndex(remote), acks, p) <==>
            DeleteGoesThroughAbove(AllActions(snaps, cached, rows, remote), RemoteIndex(remote), acks, d.relativePath)
  {
    var all := AllActions(snaps, cached, rows, remote);
    AllActionsUnique(snaps, cached, rows, remote);
    forall i | 0 <= i < |all| && all[i].decision == MoveSecondaryToHistory &&
               RemoteDeleteRefusal(all[i], RemoteIndex(remote)).None?
      ensures IsDescendant(p, all[i].relativePath) <==> IsDescendant(d.relativePath, all[i].relativePath)
    {
      AboveAlike(all, d, all[i], p);
      NoDeleteBeneath(snaps, cached, rows, remote, d, all[i]);
    }
  }

  lemma AboveAlike(all: seq<PlannedAction>, d: PlannedAction, f: PlannedAction, p: RelPath)
    requires UniqueActions(all) && d in all && f in all && f != d && AtOrUnder(p, d.relativePath)
    ensures !IsDescendant(f.relativePath, d.relativePath) ==>
              (IsDescendant(p, f.relativePath) <==> IsDescendant(d.relativePath, f.relativePath))
  {
    if f.relativePath == d.relativePath {
      UniqueMembers(all, f, d);
    }
    if IsDescendant(p, f.relativePath) {
      AncestorsComparable(p, d.relativePath, f.relativePath);
    }
    if IsDescendant(d.relativePath, f.relativePath) && p != d.relativePath {
      DescendantTransitive(p, d.relativePath, f.relativePath);
    }
  }

  /** When the delete of a directory is refused, its tree stays on the Secondary exactly unless a delete above it
      goes through: the deletes of what is in it are not even sent, whether they would have passed or not. */
  lemma RefusedDirectoryKeepsItsContents(tree: map<RelPath, Entry>, snaps: seq<FileSnapshot>, cached: seq<FileSnapshot>,
                                         rows: seq<SyncBaseline>, remote: seq<RemoteFileState>, deferred: set<RelPath>,
                                         acks: seq<Ack>, d: PlannedAction, p: RelPath)
    requires UniqueSnapshots(snaps) && UniqueSnapshots(cached) && UniqueBaselines(rows) && ScanOk(LiveIndex(snaps))
    requires d in AllActions(snaps, cached, rows, remote) && d.decision == MoveSecondaryToHistory
    requires IsDirectoryDelete(d) && RemoteDeleteRefusal(d, RemoteIndex(remote)).Some?
    requires |acks| == |AllActions(snaps, cached, rows, remote)|
    requires p in tree && AtOrUnder(p, d.relativePath)
    ensures var all := AllActions(snaps, cached, rows, remote);
            var after := Run(tree, AllPeerWrites(all, ExecuteAll(all, RemoteIndex(remote), deferred, acks)));
            (p in after <==> !DeleteGoesThroughAbove(all, RemoteIndex(remote), acks, d.relativePath)) &&
            (p in after ==> after[p] == tree[p])
  {
    var all := AllActions(snaps, cached, rows, remote);
    NothingInRefusedTree(snaps, cached, rows, remote, deferred, acks, d, p);
    EntryStaysExactly(tree, all, RemoteIndex(remote), deferred, acks, p);
    DeletedAboveExactly(all, RemoteIndex(remote), deferred, acks, p);
    GoesThroughAboveAlike(snaps, cached, rows, remote, acks, d, p);
  }

  /** The delete of a directory is checked by its kind alone. It takes the changed file with it, although that
      file's own delete would have been refused. */
  lemma {:induction false} DirectoryDeleteTakesChangedFiles(tree: map<RelPath, Entry>, d: PlannedAction,
                                                            own: PlannedAction,
                                         remote: map<RelPath, RemoteFileState>, hash: Hash, h: Hash)
    requires d.decision == MoveSecondaryToHistory && d.baseline.Some? && LooksLikeDirectory(d.baseline.value)
    requires d.relativePath in remote ==> remote[d.relativePath].kind == Directory
    requires own.decision == MoveSecondaryToHistory && IsDescendant(own.relativePath, d.relativePath)
    requires ShowsFile(remote, own.relativePath, h) && !KnowsVersion(own, h)
    requires own.relativePath in tree && tree[own.relativePath] == Content(h)
    ensures RemoteDeleteRefusal(own, remote).Some?
    ensures var after := Run(tree, AllPeerWrites([d], ExecuteAll([d], remote, {}, [Acked(hash)])));
            own.relativePath !in after
  {
    var result := Execute(d, remote, {}, Acked(hash));
    assert ExecuteAll([d], remote, {}, [Acked(hash)]) == [result];
    assert [d][..0] == [] && [result][..0] == [] && [] + PeerWrites(d, result) == [DropTree(d.relativePath)];
    assert AllPeerWrites([d], [result]) == [DropTree(d.relativePath)];
    assert AllPeerWrites([d], [result])[..0] == [];
  }
}
