/** One Primary run as the program performs it: a list that is edited in place, a loop over the
    network, and a loop over the tables. Each step is tied to the functions the theorems speak about. */
module PrimaryRun {
  import opened Prelude
  import opened Paths
  import opened Model
  import opened TreeTable
  import opened Planner
  import opened PrimarySync
  import opened ActionList
  import opened Recording
  import opened Convergence

  lemma RunTake<V>(t: map<RelPath, V>, ws: seq<Write<V>>, k: nat)
    requires k < |ws|
    ensures Run(t, ws[..k + 1]) == Step(Run(t, ws[..k]), ws[k])
  {
    assert ws[..k + 1][..k] == ws[..k];
  }

  lemma PerformedNext(t: map<RelPath, SyncBaseline>, actions: seq<PlannedAction>, results: seq<NetworkResult>,
                      done: seq<nat>, rehash: map<RelPath, Hash>, now: int, i: nat)
    requires |results| == |actions| == |done| && i < |actions|
    ensures var writes := BaselineWrites(actions[i], results[i], rehash, now);
            Run(t, Performed(actions[..i + 1], results[..i + 1], done[..i + 1], rehash, now)) ==
            Run(Run(t, Performed(actions[..i], results[..i], done[..i], rehash, now)), writes[..Min(done[i], |writes|)])
  {
    var writes := BaselineWrites(actions[i], results[i], rehash, now);
    assert actions[..i + 1][..i] == actions[..i] && results[..i + 1][..i] == results[..i] &&
           done[..i + 1][..i] == done[..i];
    RunAppend(t, Performed(actions[..i], results[..i], done[..i], rehash, now), writes[..Min(done[i], |writes|)]);
  }

  lemma SnapshotsNext(t: map<RelPath, FileSnapshot>, actions: seq<PlannedAction>, results: seq<NetworkResult>,
                      forgets: seq<bool>, i: nat)
    requires |results| == |actions| == |forgets| && i < |actions|
    ensures Run(t, AllSnapshotWrites(actions[..i + 1], results[..i + 1], forgets[..i + 1])) ==
            Run(Run(t, AllSnapshotWrites(actions[..i], results[..i], forgets[..i])),
                SnapshotWrites(actions[i], results[i], forgets[i]))
  {
    assert actions[..i + 1][..i] == actions[..i] && results[..i + 1][..i] == results[..i] &&
           forgets[..i + 1][..i] == forgets[..i];
    RunAppend(t, AllSnapshotWrites(actions[..i], results[..i], forgets[..i]),
              SnapshotWrites(actions[i], results[i], forgets[i]));
  }

  /** The baseline is only touched once the snapshot rows of a delete are gone. */
  function Allowed(a: PlannedAction, done: nat, forgets: bool): nat {
    if a.decision == MoveSecondaryToHistory && !forgets then 0 else done
  }

  function AllAllowed(actions: seq<PlannedAction>, done: seq<nat>, forgets: seq<bool>): (allowed: seq<nat>)
    requires |done| == |actions| == |forgets|
  {
    seq(|actions|, i requires 0 <= i < |actions| => Allowed(actions[i], done[i], forgets[i]))
  }

  /** What the run reports for an action: a success that could not be recorded counts as a failure. */
  function Reported(a: PlannedAction, r: NetworkResult, done: nat, rehash: map<RelPath, Hash>, now: int): NetworkResult
  {
    r.(success := r.success && done >= |BaselineWrites(a, r, rehash, now)|)
  }

  function ReportAll(actions: seq<PlannedAction>, results: seq<NetworkResult>, done: seq<nat>,
                     rehash: map<RelPath, Hash>, now: int): (reported: seq<NetworkResult>)
    requires |results| == |actions| == |done|
    ensures |reported| == |actions|
  {
    if actions == [] then []
    else
      var n := |actions| - 1;
      ReportAll(actions[..n], results[..n], done[..n], rehash, now) +
        [Reported(actions[n], results[n], done[n], rehash, now)]
  }

  lemma {:induction false} ReportAllAt(actions: seq<PlannedAction>, results: seq<NetworkResult>, done: seq<nat>,
                                       rehash: map<RelPath, Hash>, now: int, k: nat)
    requires |results| == |actions| == |done| && k < |actions|
    ensures ReportAll(actions, results, done, rehash, now)[k] == Reported(actions[k], results[k], done[k], rehash, now)
  {
    var n := |actions| - 1;
    if k < n {
      ReportAllAt(actions[..n], results[..n], done[..n], rehash, now, k);
    }
  }

  /** What is reported in the end: an upload or create as a success exactly if it was one and its own row is written,
      behind those of all its parents; a delete exactly if it was one, the snapshot rows went, and then the
      baselines; the streamed hash in any case. */
  lemma ReportedExactly(actions: seq<PlannedAction>, sent: seq<NetworkResult>, done: seq<nat>, forgets: seq<bool>,
                        rehash: map<RelPath, Hash>, now: int, k: nat)
    requires |sent| == |actions| == |done| == |forgets| && k < |actions|
    ensures var a, r := actions[k], ReportAll(actions, sent, AllAllowed(actions, done, forgets), rehash, now)[k];
            r.transferredHash == sent[k].transferredHash &&
            (a.decision == ApplyToSecondary && a.snapshot.Some? ==>
               (r.success <==> sent[k].success && done[k] > |ParentPaths(a.relativePath)|)) &&
            (a.decision == MoveSecondaryToHistory ==>
               (r.success <==> sent[k].success && forgets[k] && done[k] > 0))
  {
    var allowed := AllAllowed(actions, done, forgets);
    ReportAllAt(actions, sent, allowed, rehash, now, k);
    assert allowed[k] == Allowed(actions[k], done[k], forgets[k]);
  }

  /** The results once the first `i` actions have been recorded. */
  function ReportedUpTo(actions: seq<PlannedAction>, sent: seq<NetworkResult>, done: seq<nat>,
                        rehash: map<RelPath, Hash>,
                        now: int, i: nat): (r: seq<NetworkResult>)
    requires |sent| == |actions| == |done| && i <= |actions|
    ensures |r| == |sent|
  {
    if i == 0 then sent
    else
      ReportedUpTo(actions, sent, done, rehash, now, i - 1)
        [i - 1 := Reported(actions[i - 1], sent[i - 1], done[i - 1], rehash, now)]
  }

  lemma {:induction false} ReportedUpToAt(actions: seq<PlannedAction>, sent: seq<NetworkResult>, done: seq<nat>,
                                          rehash: map<RelPath, Hash>, now: int, i: nat, k: nat)
    requires |sent| == |actions| == |done| && i <= |actions| && k < |actions|
    ensures ReportedUpTo(actions, sent, done, rehash, now, i)[k] ==
            if k < i then Reported(actions[k], sent[k], done[k], rehash, now) else sent[k]
  {
    if i > 0 {
      ReportedUpToAt(actions, sent, done, rehash, now, i - 1, k);
    }
  }

  lemma AllReported(actions: seq<PlannedAction>, sent: seq<NetworkResult>, done: seq<nat>, rehash: map<RelPath, Hash>,
                    now: int)
    requires |sent| == |actions| == |done|
    ensures ReportedUpTo(actions, sent, done, rehash, now, |actions|) == ReportAll(actions, sent, done, rehash, now)
  {
    var a, b := ReportedUpTo(actions, sent, done, rehash, now, |actions|), ReportAll(actions, sent, done, rehash, now);
    forall k | 0 <= k < |actions|
      ensures a[k] == b[k]
    {
      ReportedUpToAt(actions, sent, done, rehash, now, |actions|, k);
      ReportAllAt(actions, sent, done, rehash, now, k);
    }
    assert a == b;
  }

  /** The baselines once the first `i` actions have been recorded. */
  function BaselinesUpTo(base: map<RelPath, SyncBaseline>, actions: seq<PlannedAction>, sent: seq<NetworkResult>,
                         done: seq<nat>, rehash: map<RelPath, Hash>, now: int, i: nat): map<RelPath, SyncBaseline>
    requires |sent| == |actions| == |done| && i <= |actions|
  {
    if i == 0 then base
    else
      var writes := BaselineWrites(actions[i - 1], sent[i - 1], rehash, now);
      Run(BaselinesUpTo(base, actions, sent, done, rehash, now, i - 1), writes[..Min(done[i - 1], |writes|)])
  }

  lemma {:induction false} BaselinesPerformed(base: map<RelPath, SyncBaseline>, actions: seq<PlannedAction>,
                                              sent: seq<NetworkResult>, done: seq<nat>, rehash: map<RelPath, Hash>,
                                              now: int, i: nat)
    requires |sent| == |actions| == |done| && i <= |actions|
    ensures BaselinesUpTo(base, actions, sent, done, rehash, now, i) ==
            Run(base, Performed(actions[..i], sent[..i], done[..i], rehash, now))
  {
    if i > 0 {
      BaselinesPerformed(base, actions, sent, done, rehash, now, i - 1);
      PerformedNext(base, actions, sent, done, rehash, now, i - 1);
    }
  }

  function SnapshotsAfter(t: map<RelPath, FileSnapshot>, a: PlannedAction, r: NetworkResult, forgets: bool)
    : map<RelPath, FileSnapshot>
  {
    if r.success && a.decision == MoveSecondaryToHistory && forgets then Step(t, DropTree(a.relativePath)) else t
  }

  lemma OneSnapshotWrite(t: map<RelPath, FileSnapshot>, a: PlannedAction, r: NetworkResult, forgets: bool)
    ensures Run(t, SnapshotWrites(a, r, forgets)) == SnapshotsAfter(t, a, r, forgets)
  {
    if SnapshotWrites(a, r, forgets) != [] {
      assert SnapshotWrites(a, r, forgets)[..0] == [];
    }
  }

  /** The snapshot rows once the first `i` actions have been recorded. */
  function SnapshotsUpTo(snaps: map<RelPath, FileSnapshot>, actions: seq<PlannedAction>, sent: seq<NetworkResult>,
                         forgets: seq<bool>, i: nat): map<RelPath, FileSnapshot>
    requires |sent| == |actions| == |forgets| && i <= |actions|
  {
    if i == 0 then snaps
    else SnapshotsAfter(SnapshotsUpTo(snaps, actions, sent, forgets, i - 1), actions[i - 1], sent[i - 1],
                        forgets[i - 1])
  }

  lemma {:induction false} SnapshotsWritten(snaps: map<RelPath, FileSnapshot>, actions: seq<PlannedAction>,
                                            sent: seq<NetworkResult>, forgets: seq<bool>, i: nat)
    requires |sent| == |actions| == |forgets| && i <= |actions|
    ensures SnapshotsUpTo(snaps, actions, sent, forgets, i) ==
            Run(snaps, AllSnapshotWrites(actions[..i], sent[..i], forgets[..i]))
  {
    if i > 0 {
      var before := SnapshotsUpTo(snaps, actions, sent, forgets, i - 1);
      SnapshotsWritten(snaps, actions, sent, forgets, i - 1);
      SnapshotsNext(snaps, actions, sent, forgets, i - 1);
      OneSnapshotWrite(before, actions[i - 1], sent[i - 1], forgets[i - 1]);
    }
  }

  lemma AllRecorded(base: map<RelPath, SyncBaseline>, snaps: map<RelPath, FileSnapshot>, actions: seq<PlannedAction>,
                    sent: seq<NetworkResult>, done: seq<nat>, forgets: seq<bool>, rehash: map<RelPath, Hash>, now: int)
    requires |sent| == |actions| == |done| == |forgets|
    ensures BaselinesUpTo(base, actions, sent, done, rehash, now, |actions|) ==
            Run(base, Performed(actions, sent, done, rehash, now))
    ensures SnapshotsUpTo(snaps, actions, sent, forgets, |actions|) ==
            Run(snaps, AllSnapshotWrites(actions, sent, forgets))
    ensures ReportedUpTo(actions, sent, done, rehash, now, |actions|) == ReportAll(actions, sent, done, rehash, now)
  {
    BaselinesPerformed(base, actions, sent, done, rehash, now, |actions|);
    SnapshotsWritten(snaps, actions, sent, forgets, |actions|);
    AllReported(actions, sent, done, rehash, now);
    assert actions[..|actions|] == actions && sent[..|actions|] == sent && done[..|actions|] == done &&
           forgets[..|actions|] == forgets;
  }

  class PrimarySyncRun {
    var actions: seq<PlannedAction>
    var results: seq<NetworkResult>
    var snapshots: map<RelPath, FileSnapshot>
    var baselines: map<RelPath, SyncBaseline>
    /** The Secondary's folder: changed by acknowledged sends only. */
    var peer: map<RelPath, Entry>

    constructor (snapshots: map<RelPath, FileSnapshot>, baselines: map<RelPath, SyncBaseline>,
                 peer: map<RelPath, Entry>)
      ensures this.snapshots == snapshots && this.baselines == baselines && this.peer == peer
      ensures actions == [] && results == []
    {
      this.snapshots, this.baselines, this.peer := snapshots, baselines, peer;
      actions, results := [], [];
    }

    method ReplaceSnapshots(snaps: seq<FileSnapshot>)
      modifies this`snapshots
      ensures snapshots == SnapshotIndex(snaps)
    {
      snapshots := map[];
      for i := 0 to |snaps|
        invariant snapshots == SnapshotIndex(snaps[..i])
      {
        assert snaps[..i + 1][..i] == snaps[..i];
        snapshots := snapshots[snaps[i].relativePath := snaps[i]];
      }
      assert snaps[..|snaps|] == snaps;
    }

    method AppendRecoveredDeletes(cached: seq<FileSnapshot>, snaps: seq<FileSnapshot>, rows: seq<SyncBaseline>)
      returns (added: nat)
      modifies this`actions
      ensures actions == WithRecovered(old(actions), cached, snaps, rows)
      ensures |actions| == |old(actions)| + added
    {
      var current, known, planned := LiveIndex(snaps), BaselineIndex(rows), ActionPaths(actions);
      ghost var f := RecoveredStep(current, known, planned);
      added := 0;
      for i := 0 to |cached|
        invariant actions == old(actions) + FilterMap(f, cached[..i])
        invariant |actions| == |old(actions)| + added
      {
        assert cached[..i + 1][..i] == cached[..i];
        var snap := cached[i];
        if snap.deleted || snap.isSymlink || snap.relativePath in current || snap.relativePath in known ||
           snap.relativePath in planned
        {
          continue;
        }
        actions := actions + [PlannedAction(snap.relativePath, MoveSecondaryToHistory, Some(snap), None)];
        added := added + 1;
      }
      assert cached[..|cached|] == cached;
    }

    method DirectoryDeletes() returns (directories: seq<RelPath>)
      ensures directories == FilterMap(DirectoryDeleteStep(), actions)
    {
      directories := [];
      for i := 0 to |actions|
        invariant directories == FilterMap(DirectoryDeleteStep(), actions[..i])
      {
        assert actions[..i + 1][..i] == actions[..i];
        if actions[i].decision == MoveSecondaryToHistory && IsDirectoryDelete(actions[i]) {
          directories := directories + [actions[i].relativePath];
        }
      }
      assert actions[..|actions|] == actions;
    }

    /** Collect the directories, then compact the list in place. */
    method CompressDirectoryDeletes()
      modifies this`actions
      ensures actions == Compress(old(actions))
    {
      var directories := DirectoryDeletes();
      if directories == [] {
        return;
      }
      RetainOutside(directories);
    }

    /** `Vec::retain`: what stays is moved to the front. */
    method RetainOutside(directories: seq<RelPath>)
      modifies this`actions
      ensures actions == Filter(RetainStep(directories), old(actions))
    {
      ghost var before := actions;
      var kept := 0;
      for i := 0 to |actions|
        invariant |actions| == |before| && kept <= i && actions[i..] == before[i..]
        invariant actions[..kept] == Filter(RetainStep(directories), before[..i])
      {
        assert before[..i + 1][..i] == before[..i] && actions[i] == actions[i..][0] == before[i];
        var retained := StaysListed(actions[i], directories);
        if retained {
          actions := actions[kept := actions[i]];
          kept := kept + 1;
        }
      }
      assert before[..|actions|] == before;
      actions := actions[..kept];
    }

    method StaysListed(a: PlannedAction, directories: seq<RelPath>) returns (retained: bool)
      ensures retained == Retained(a, directories)
    {
      if a.decision != MoveSecondaryToHistory {
        return true;
      }
      for k := 0 to |directories|
        invariant forall j :: 0 <= j < k ==>
                    !(a.relativePath != directories[j] && IsDescendant(a.relativePath, directories[j]))
      {
        if a.relativePath != directories[k] && IsDescendant(a.relativePath, directories[k]) {
          return false;
        }
      }
      return true;
    }

    method SortActionsByPriority()
      modifies this`actions
      ensures actions == ByPriority(old(actions))
    {
      actions := ByPriority(actions);
    }

    method AppendRepairs(snaps: seq<FileSnapshot>, rows: seq<SyncBaseline>, remote: seq<RemoteFileState>)
      returns (added: nat)
      modifies this`actions
      ensures actions == WithRepairs(old(actions), snaps, rows, remote)
      ensures |actions| == |old(actions)| + added
    {
      var existing, remotePaths, current := ActionPaths(actions), RemotePaths(remote), LiveIndex(snaps);
      ghost var f := RepairStep(current, existing, remotePaths);
      added := 0;
      for i := 0 to |rows|
        invariant actions == old(actions) + FilterMap(f, rows[..i])
        invariant |actions| == |old(actions)| + added
      {
        assert rows[..i + 1][..i] == rows[..i];
        var b := rows[i];
        if b.relativePath in existing || b.relativePath in remotePaths {
          continue;
        }
        if b.relativePath !in current || !MatchesPrimaryBaseline(current[b.relativePath], b) {
          continue;
        }
        actions := actions + [PlannedAction(b.relativePath, ApplyToSecondary, Some(current[b.relativePath]), Some(b))];
        added := added + 1;
      }
      assert rows[..|rows|] == rows;
    }

    /** Send the actions one by one; `acks[i]` is what the peer would answer to the i-th. */
    method ExecuteOverNetwork(remote: seq<RemoteFileState>, deferred: set<RelPath>, acks: seq<Ack>)
      requires |acks| == |actions|
      modifies this`results, this`peer
      ensures results == ExecuteAll(actions, RemoteIndex(remote), deferred, acks)
      ensures peer == Run(old(peer), AllPeerWrites(actions, results))
    {
      var remoteMap: map<RelPath, RemoteFileState> := map[];
      for i := 0 to |remote|
        invariant remoteMap == RemoteIndex(remote[..i])
      {
        assert remote[..i + 1][..i] == remote[..i];
        remoteMap := remoteMap[remote[i].relativePath := remote[i]];
      }
      assert remote[..|remote|] == remote;
      results := [];
      for i := 0 to |actions|
        invariant |results| == i
        invariant results == ExecuteAll(actions[..i], remoteMap, deferred, acks[..i])
        invariant peer == Run(old(peer), AllPeerWrites(actions[..i], results))
      {
        var result := Execute(actions[i], remoteMap, deferred, acks[i]);
        ghost var before := results;
        results := results + [result];
        var effect := PeerWrites(actions[i], result);
        RunAppend(old(peer), AllPeerWrites(actions[..i], before), effect);
        peer := Run(peer, effect);
        assert actions[..i + 1][..i] == actions[..i] && acks[..i + 1][..i] == acks[..i] && results[..i] == before;
      }
      assert actions[..|actions|] == actions && acks[..|acks|] == acks;
    }

    /** Record the successes. The database accepts `done[i]` baseline writes for action `i`, and `forgets[i]` says
        whether it removes the snapshot rows of a delete; an action whose writes do not all go through is
        reported as failed. */
    method PersistSuccesses(done: seq<nat>, forgets: seq<bool>, rehash: map<RelPath, Hash>, now: int)
      requires |results| == |actions| == |done| == |forgets|
      modifies this`results, this`snapshots, this`baselines
      ensures var allowed := AllAllowed(actions, done, forgets);
              baselines == Run(old(baselines), Performed(actions, old(results), allowed, rehash, now)) &&
              results == ReportAll(actions, old(results), allowed, rehash, now)
      ensures snapshots == Run(old(snapshots), AllSnapshotWrites(actions, old(results), forgets))
    {
      var sent := results;
      ghost var allowed := AllAllowed(actions, done, forgets);
      for i := 0 to |actions|
        invariant results == ReportedUpTo(actions, sent, allowed, rehash, now, i)
        invariant baselines == BaselinesUpTo(old(baselines), actions, sent, allowed, rehash, now, i)
        invariant snapshots == SnapshotsUpTo(old(snapshots), actions, sent, forgets, i)
      {
        OneSnapshotWrite(snapshots, actions[i], sent[i], forgets[i]);
        assert allowed[i] == Allowed(actions[i], done[i], forgets[i]);
        var reported := PersistOne(actions[i], sent[i], done[i], forgets[i], rehash, now);
        results := results[i := reported];
      }
      AllRecorded(old(baselines), old(snapshots), actions, sent, allowed, forgets, rehash, now);
    }

    /** The writes of one successful action, in order, as far as the database lets them through. */
    method PersistOne(a: PlannedAction, r: NetworkResult, limit: nat, forgets: bool, rehash: map<RelPath, Hash>,
                      now: int)
      returns (reported: NetworkResult)
      modifies this`snapshots, this`baselines
      ensures var writes := BaselineWrites(a, r, rehash, now);
              baselines == Run(old(baselines), writes[..Min(Allowed(a, limit, forgets), |writes|)])
      ensures reported == Reported(a, r, Allowed(a, limit, forgets), rehash, now)
      ensures snapshots == Run(old(snapshots), SnapshotWrites(a, r, forgets))
    {
      ghost var writes := BaselineWrites(a, r, rehash, now);
      assert writes[..0] == [] && Run(baselines, []) == baselines && Run(snapshots, []) == snapshots;
      reported := r;
      if r.success {
        if a.decision == ApplyToSecondary && a.snapshot.Some? {
          reported := PersistApply(a, r, limit, rehash, now);
        } else if a.decision == MoveSecondaryToHistory {
          reported := PersistRemoval(a, r, limit, forgets, rehash, now);
        }
      }
    }

    /** A folder row for every parent, then the entry's own row. */
    method PersistApply(a: PlannedAction, r: NetworkResult, limit: nat, rehash: map<RelPath, Hash>, now: int)
      returns (reported: NetworkResult)
      requires r.success && a.decision == ApplyToSecondary && a.snapshot.Some?
      modifies this`baselines
      ensures var writes := BaselineWrites(a, r, rehash, now);
              baselines == Run(old(baselines), writes[..Min(limit, |writes|)])
      ensures reported == Reported(a, r, limit, rehash, now)
    {
      ghost var writes := BaselineWrites(a, r, rehash, now);
      var parents := ParentPaths(a.relativePath);
      assert writes[..0] == [];
      for k := 0 to |parents|
        invariant k <= limit
        invariant baselines == Run(old(baselines), writes[..k])
      {
        if k == limit {
          return r.(success := false);
        }
        RunTake(old(baselines), writes, k);
        baselines := baselines[parents[k] := DirectoryBaseline(parents[k], now)];
      }
      if |parents| == limit {
        return r.(success := false);
      }
      RunTake(old(baselines), writes, |parents|);
      baselines := baselines[a.relativePath := AppliedBaseline(a, a.snapshot.value, r, rehash, now)];
      assert writes[..|writes|] == writes;
      reported := r;
    }

    /** First the snapshot rows; if they cannot be removed the baseline stays too. */
    method PersistRemoval(a: PlannedAction, r: NetworkResult, limit: nat, forgets: bool, rehash: map<RelPath, Hash>,
                          now: int)
      returns (reported: NetworkResult)
      requires r.success && a.decision == MoveSecondaryToHistory
      modifies this`snapshots, this`baselines
      ensures var writes := BaselineWrites(a, r, rehash, now);
              baselines == Run(old(baselines), writes[..Min(Allowed(a, limit, forgets), |writes|)])
      ensures reported == Reported(a, r, Allowed(a, limit, forgets), rehash, now)
      ensures snapshots == Run(old(snapshots), SnapshotWrites(a, r, forgets))
    {
      ghost var writes := BaselineWrites(a, r, rehash, now);
      assert writes[..0] == [];
      if !forgets {
        return r.(success := false);
      }
      assert SnapshotWrites(a, r, forgets)[..0] == [];
      snapshots := Step(snapshots, DropTree(a.relativePath));
      if limit == 0 {
        return r.(success := false);
      }
      RunTake(old(baselines), writes, 0);
      baselines := Step(baselines, DropTree(a.relativePath));
      assert writes[..1] == writes;
      reported := r;
    }

    /** From the scan to the sorted list. */
    method PrepareActions(snaps: seq<FileSnapshot>, cached: seq<FileSnapshot>, rows: seq<SyncBaseline>)
      modifies this`actions
      ensures actions == LocalActions(snaps, cached, rows)
    {
      actions := PlanSync(snaps, rows, Primary);
      var recovered := AppendRecoveredDeletes(cached, snaps, rows);
      CompressDirectoryDeletes();
      SortActionsByPriority();
    }

    /** With the peer's listing at hand, add the repairs and sort again if there were any. */
    method CompleteActions(snaps: seq<FileSnapshot>, ghost cached: seq<FileSnapshot>, rows: seq<SyncBaseline>,
                           remote: seq<RemoteFileState>)
      requires actions == LocalActions(snaps, cached, rows)
      modifies this`actions
      ensures actions == AllActions(snaps, cached, rows, remote)
    {
      var repaired := AppendRepairs(snaps, rows, remote);
      if repaired > 0 {
        SortActionsByPriority();
      }
    }

    /** `run_sync_now_once` for the Primary. `remoteScan` is the peer's answer, if it answered. */
    method RunOnce(snaps: seq<FileSnapshot>, cached: seq<FileSnapshot>, rows: seq<SyncBaseline>,
                   remoteScan: Option<seq<RemoteFileState>>, deferred: set<RelPath>, acks: seq<Ack>, done: seq<nat>,
                   forgets: seq<bool>, rehash: map<RelPath, Hash>, now: int)
      requires remoteScan.Some? ==> |acks| == |done| == |forgets| == |AllActions(snaps, cached, rows, remoteScan.value)|
      modifies this
      ensures remoteScan.None? ==>
                actions == LocalActions(snaps, cached, rows) && peer == old(peer) && baselines == old(baselines) &&
                results == seq(|actions|, i => FAILED) && snapshots == SnapshotIndex(snaps)
      ensures remoteScan.Some? ==>
                actions == AllActions(snaps, cached, rows, remoteScan.value) &&
                var sent, allowed := ExecuteAll(actions, RemoteIndex(remoteScan.value), deferred, acks),
                                     AllAllowed(actions, done, forgets);
                peer == Run(old(peer), AllPeerWrites(actions, sent)) &&
                baselines == Run(old(baselines), Performed(actions, sent, allowed, rehash, now)) &&
                snapshots == Run(SnapshotIndex(snaps), AllSnapshotWrites(actions, sent, forgets)) &&
                results == ReportAll(actions, sent, allowed, rehash, now)
    {
      ReplaceSnapshots(snaps);
      PrepareActions(snaps, cached, rows);
      match remoteScan
      case None =>
        results := seq(|actions|, i => FAILED);
      case Some(remote) =>
        FinishRun(snaps, cached, rows, remote, deferred, acks, done, forgets, rehash, now);
    }

    /** The part of a run that needs the peer. */
    method FinishRun(snaps: seq<FileSnapshot>, ghost cached: seq<FileSnapshot>, rows: seq<SyncBaseline>,
                     remote: seq<RemoteFileState>, deferred: set<RelPath>, acks: seq<Ack>, done: seq<nat>,
                     forgets: seq<bool>, rehash: map<RelPath, Hash>, now: int)
      requires actions == LocalActions(snaps, cached, rows)
      requires |acks| == |done| == |forgets| == |AllActions(snaps, cached, rows, remote)|
      modifies this
      ensures actions == AllActions(snaps, cached, rows, remote)
      ensures var sent, allowed := ExecuteAll(actions, RemoteIndex(remote), deferred, acks),
                                   AllAllowed(actions, done, forgets);
              peer == Run(old(peer), AllPeerWrites(actions, sent)) &&
              baselines == Run(old(baselines), Performed(actions, sent, allowed, rehash, now)) &&
              snapshots == Run(old(snapshots), AllSnapshotWrites(actions, sent, forgets)) &&
              results == ReportAll(actions, sent, allowed, rehash, now)
    {
      CompleteActions(snaps, cached, rows, remote);
      ExecuteOverNetwork(remote, deferred, acks);
      PersistSuccesses(done, forgets, rehash, now);
    }
  }

  lemma NothingHeldBack(actions: seq<PlannedAction>, done: seq<nat>, forgets: seq<bool>)
    requires |done| == |actions| == |forgets| && forall i :: 0 <= i < |forgets| ==> forgets[i]
    ensures AllAllowed(actions, done, forgets) == done
  {}

  /** A whole acknowledged run of the object, read through the theorems. */
  method RunAndConverge(run: PrimarySyncRun, s: Situation)
    requires s.Good() && s.AllAcknowledged()
    requires run.peer == s.tree && run.baselines == s.Base()
    modifies run
    ensures run.peer == TargetTree(s.Live())
    ensures run.baselines.Keys == s.Live().Keys
    ensures forall p :: p in s.Live() ==> p in run.baselines && Agrees(run.baselines[p], s.Live()[p])
  {
    var forgets := seq(|s.acks|, i => true);
    RunAsSituation(s, forgets);
    run.RunOnce(s.snaps, s.cached, s.rows, Some(s.remote), {}, s.acks, s.Attempted().done, forgets, s.rehash, s.now);
    assert run.peer == s.TreeAfter() && run.baselines == s.BaseAfter();
    SecondaryConverges(s);
    BaselinesConverge(s);
  }

  /** The parameters of such a run give what the theorems speak about. */
  lemma RunAsSituation(s: Situation, forgets: seq<bool>)
    requires |s.acks| == |s.Actions()| == |forgets| && forall i :: 0 <= i < |forgets| ==> forgets[i]
    ensures var sent, allowed := ExecuteAll(s.Actions(), RemoteIndex(s.remote), {}, s.acks),
                                 AllAllowed(s.Actions(), s.Attempted().done, forgets);
            Run(s.tree, AllPeerWrites(s.Actions(), sent)) == s.TreeAfter() &&
            Run(s.Base(), Performed(s.Actions(), sent, allowed, s.rehash, s.now)) == s.BaseAfter()
  {
    NothingHeldBack(s.Actions(), s.Attempted().done, forgets);
  }
}
