/** A complete Primary run: the Secondary ends up with the Primary's tree, the baselines describe it,
    and the next run finds nothing to do. */
module Convergence {
  import opened Prelude
  import opened Paths
  import opened Model
  import opened TreeTable
  import opened Planner
  import opened PrimarySync
  import opened ActionList
  import opened Recording

  // ---- the situation before the run ----

  /** What the scanner records: hashed files, and directories without hash or size. */
  ghost predicate ScanVerified(live: map<RelPath, FileSnapshot>) {
    FilesVerified(live) &&
    forall p :: p in live && live[p].kind == Directory ==>
      live[p].hash == None && live[p].hashStatus == Unavailable && live[p].size == 0
  }

  predicate VerifiedFileRow(b: SyncBaseline) {
    b.primaryHashStatus == Verified && b.secondaryHashStatus == Verified &&
    b.primaryHash.Some? && b.primaryHash == b.secondaryHash
  }

  /** Every write of the program stores either a directory row or one verified hash for both sides. */
  ghost predicate RowsOk(base: map<RelPath, SyncBaseline>) {
    forall p :: p in base ==> LooksLikeDirectory(base[p]) || VerifiedFileRow(base[p])
  }

  ghost predicate NoFlips(live: map<RelPath, FileSnapshot>, base: map<RelPath, SyncBaseline>) {
    forall p :: p in live && p in base ==> (live[p].kind == Directory <==> LooksLikeDirectory(base[p]))
  }

  predicate EntryMatches(e: Entry, b: SyncBaseline) {
    if LooksLikeDirectory(b) then e == Folder else b.secondaryHash.Some? && e == Content(b.secondaryHash.value)
  }

  /** The Secondary holds nothing but what the baselines record; entries may be missing. */
  ghost predicate Holds(tree: map<RelPath, Entry>, base: map<RelPath, SyncBaseline>) {
    forall p :: p in tree ==> p in base && EntryMatches(tree[p], base[p])
  }

  predicate ReportsEntry(r: RemoteFileState, e: Entry) {
    match e
    case Folder => r.kind == Directory
    case Content(h) => r.kind == File && r.hash == Some(h) && r.hashStatus == Verified
  }

  /** The peer's scan reports its folder. */
  ghost predicate Reports(remote: seq<RemoteFileState>, tree: map<RelPath, Entry>) {
    RemotePaths(remote) == tree.Keys &&
    forall p :: p in RemoteIndex(remote) ==> p in tree && ReportsEntry(RemoteIndex(remote)[p], tree[p])
  }

  /** The Primary's tree as the Secondary should hold it. */
  function Target(snap: FileSnapshot): Entry {
    if snap.kind == Directory then Folder
    else match snap.hash case Some(h) => Content(h) case None => Folder
  }

  function TargetTree(live: map<RelPath, FileSnapshot>): map<RelPath, Entry> {
    map p | p in live :: Target(live[p])
  }

  /** One run, with everything it is given. */
  datatype Situation = Situation(
    snaps: seq<FileSnapshot>, cached: seq<FileSnapshot>, rows: seq<SyncBaseline>,
    remote: seq<RemoteFileState>, tree: map<RelPath, Entry>, acks: seq<Ack>,
    rehash: map<RelPath, Hash>, now: int)
  {
    function Live(): map<RelPath, FileSnapshot> { LiveIndex(snaps) }
    function Base(): map<RelPath, SyncBaseline> { BaselineIndex(rows) }
    function Actions(): seq<PlannedAction> { AllActions(snaps, cached, rows, remote) }

    function Results(): seq<NetworkResult>
      requires |acks| == |Actions()|
    {
      ExecuteAll(Actions(), RemoteIndex(remote), {}, acks)
    }

    /** Every success is recorded in full. */
    function Attempted(): Attempt
      requires |acks| == |Actions()|
    {
      Attempt(Actions(), Results(),
              seq(|acks|, i requires 0 <= i < |acks| => |ParentPaths(Actions()[i].relativePath)| + 1),
              rehash, now)
    }

    function TreeAfter(): map<RelPath, Entry>
      requires |acks| == |Actions()|
    {
      Run(tree, AllPeerWrites(Actions(), Results()))
    }

    function BaseAfter(): map<RelPath, SyncBaseline>
      requires |acks| == |Actions()|
    {
      Run(Base(), Attempted().Writes())
    }

    ghost predicate Good() {
      UniqueSnapshots(snaps) && UniqueBaselines(rows) &&
      ScanOk(Live()) && ScanVerified(Live()) && RowsOk(Base()) && NoFlips(Live(), Base()) &&
      Holds(tree, Base()) && Reports(remote, tree) &&
      (forall p :: p in rehash && p in Live() ==> Live()[p].kind == File)
    }

    /** The peer acknowledges every action, and the streamed bytes are the scanned ones. */
    ghost predicate AllAcknowledged() {
      |acks| == |Actions()| &&
      forall i :: 0 <= i < |acks| ==> acks[i].Acked? && AckAsScanned(Actions()[i], acks[i])
    }
  }

  predicate AckAsScanned(a: PlannedAction, ack: Ack) {
    ack.Acked? && (a.snapshot.Some? && a.snapshot.value.kind == File && a.decision == ApplyToSecondary ==>
      a.snapshot.value.hash == Some(ack.hash))
  }

  // ---- what the list must contain ----

  lemma NeededIsListed(s: Situation, p: RelPath)
    requires s.Good() && p in s.Live()
    requires NeedsAction(s.Live()[p], s.Base(), Primary) || p !in s.tree
    ensures exists a :: a in s.Actions() && a.relativePath == p && a.decision == ApplyToSecondary
  {
    var live, base, plan := s.Live(), s.Base(), Plan(s.snaps, s.rows, Primary);
    var local, recovered :=
      LocalActions(s.snaps, s.cached, s.rows), WithRecovered(Plan(s.snaps, s.rows, Primary), s.cached, s.snaps, s.rows);
    AllActionsSound(s.snaps, s.cached, s.rows, s.remote);
    LiveIndexFacts(s.snaps);
    BaselineIndexFacts(s.rows);
    if NeedsAction(live[p], base, Primary) {
      PlansExactly(s.snaps, s.rows, p);
      var a :| a in plan && a.relativePath == p && a.decision == ApplyToSecondary;
      RecoveredMember(plan, s.cached, s.snaps, s.rows, a);
      CompressMember(recovered, a);
      LocalMember(s.snaps, s.cached, s.rows, a);
      RepairMember(local, s.snaps, s.rows, s.remote, a);
      AllMember(s.snaps, s.cached, s.rows, s.remote, a);
    } else if p in ActionPaths(local) {
      var a :| a in local && a.relativePath == p;
      RepairMember(local, s.snaps, s.rows, s.remote, a);
      AllMember(s.snaps, s.cached, s.rows, s.remote, a);
      var all := s.Actions();
      var i :| 0 <= i < |all| && all[i] == a;
      assert Sound(all[i], live, base);
    } else {
      var i :| 0 <= i < |s.rows| && s.rows[i] == base[p];
      assert MatchesPrimaryBaseline(live[p], base[p]);
      var a := Repair(s.rows[i], live, ActionPaths(local), RemotePaths(s.remote)).value;
      RepairMember(local, s.snaps, s.rows, s.remote, a);
      AllMember(s.snaps, s.cached, s.rows, s.remote, a);
    }
  }

  lemma GoneIsDeleted(s: Situation, p: RelPath)
    requires s.Good() && p in s.Base() && p !in s.Live()
    ensures exists a :: a in s.Actions() && a.decision == MoveSecondaryToHistory && AtOrUnder(p, a.relativePath)
  {
    var plan := Plan(s.snaps, s.rows, Primary);
    var recovered := WithRecovered(plan, s.cached, s.snaps, s.rows);
    PlansExactly(s.snaps, s.rows, p);
    var d :| d in plan && d.relativePath == p && d.decision == MoveSecondaryToHistory;
    RecoveredMember(plan, s.cached, s.snaps, s.rows, d);
    var a := CoveringDeleteRetained(recovered, d);
    LocalMember(s.snaps, s.cached, s.rows, a);
    RepairMember(LocalActions(s.snaps, s.cached, s.rows), s.snaps, s.rows, s.remote, a);
    AllMember(s.snaps, s.cached, s.rows, s.remote, a);
  }

  // ---- every check lets its action through ----

  lemma ChecksPass(s: Situation, i: nat)
    requires s.Good() && s.AllAcknowledged() && i < |s.Actions()|
    ensures s.Results()[i].success
    ensures AsScanned(s.Actions()[i], s.Results()[i])
    ensures s.Actions()[i].decision == ApplyToSecondary ==>
              s.Actions()[i].relativePath in s.Live() &&
              s.Results()[i].transferredHash == (if s.Live()[s.Actions()[i].relativePath].kind == Directory then None
                                                 else s.Live()[s.Actions()[i].relativePath].hash)
  {
    var a := s.Actions()[i];
    AllActionsSound(s.snaps, s.cached, s.rows, s.remote);
    assert Sound(a, s.Live(), s.Base());
    assert s.Results()[i] == Execute(a, RemoteIndex(s.remote), {}, s.acks[i]);
    assert AckAsScanned(a, s.acks[i]);
    if a.relativePath in RemoteIndex(s.remote) {
      assert a.relativePath in s.tree && a.relativePath in s.Base();
      assert EntryMatches(s.tree[a.relativePath], s.Base()[a.relativePath]);
      assert ReportsEntry(RemoteIndex(s.remote)[a.relativePath], s.tree[a.relativePath]);
    }
  }

  // ---- the peer's folder after the run ----

  lemma {:induction false} PeerWriteFrom(actions: seq<PlannedAction>, results: seq<NetworkResult>, w: Write<Entry>)
    returns (i: nat)
    requires |results| == |actions| && w in AllPeerWrites(actions, results)
    ensures i < |actions| && w in PeerWrites(actions[i], results[i])
  {
    var n := |actions| - 1;
    if w in PeerWrites(actions[n], results[n]) {
      i := n;
    } else {
      i := PeerWriteFrom(actions[..n], results[..n], w);
    }
  }

  lemma {:induction false} PeerWriteIn(actions: seq<PlannedAction>, results: seq<NetworkResult>, i: nat,
                                       w: Write<Entry>)
    requires |results| == |actions| && i < |actions| && w in PeerWrites(actions[i], results[i])
    ensures w in AllPeerWrites(actions, results)
  {
    var n := |actions| - 1;
    var before, last := AllPeerWrites(actions[..n], results[..n]), PeerWrites(actions[n], results[n]);
    if i < n {
      assert actions[..n][i] == actions[i] && results[..n][i] == results[i];
      PeerWriteIn(actions[..n], results[..n], i, w);
    }
  }

  /** Everything sent puts the target entry at a live path, or removes a dead tree. */
  lemma PeerWriteFacts(s: Situation, w: Write<Entry>)
    requires s.Good() && s.AllAcknowledged()
    requires w in AllPeerWrites(s.Actions(), s.Results())
    ensures w.Put? ==> w.path in s.Live() && w.value == Target(s.Live()[w.path])
    ensures w.DropTree? ==> w.path !in s.Live()
  {
    var i := PeerWriteFrom(s.Actions(), s.Results(), w);
    AllActionsSound(s.snaps, s.cached, s.rows, s.remote);
    assert Sound(s.Actions()[i], s.Live(), s.Base());
    ChecksPass(s, i);
    OneWriteFacts(s.Actions()[i], s.Results()[i], s.Live(), s.Base(), w);
  }

  lemma OneWriteFacts(a: PlannedAction, r: NetworkResult, live: map<RelPath, FileSnapshot>,
                      base: map<RelPath, SyncBaseline>, w: Write<Entry>)
    requires ScanOk(live) && Sound(a, live, base) && w in PeerWrites(a, r)
    requires a.decision == ApplyToSecondary ==>
               r.transferredHash == if live[a.relativePath].kind == Directory then None else live[a.relativePath].hash
    ensures w.Put? ==> w.path in live && w.value == Target(live[w.path])
    ensures w.DropTree? ==> w.path !in live
  {
    if a.decision == ApplyToSecondary {
      if w in Puts(ParentPaths(a.relativePath), FolderAt()) {
        ParentPathsExact(a.relativePath, w.path);
      }
    }
  }

  lemma PeerWritesSeparate(s: Situation)
    requires s.Good() && s.AllAcknowledged()
    ensures Separate(AllPeerWrites(s.Actions(), s.Results()))
  {
    var ws := AllPeerWrites(s.Actions(), s.Results());
    forall x, y | 0 <= x < |ws| && 0 <= y < |ws| && ws[x].Put? && ws[y].DropTree?
      ensures !AtOrUnder(ws[x].path, ws[y].path)
    {
      PeerWriteFacts(s, ws[x]);
      PeerWriteFacts(s, ws[y]);
    }
  }

  lemma PeerEntryAfter(s: Situation, p: RelPath)
    requires s.Good() && s.AllAcknowledged()
    ensures p in s.TreeAfter() <==> p in s.Live()
    ensures p in s.TreeAfter() && p in s.Live() ==> s.TreeAfter()[p] == Target(s.Live()[p])
  {
    var ws := AllPeerWrites(s.Actions(), s.Results());
    PeerWritesSeparate(s);
    Outcome(s.tree, ws, p);
    if Touched(ws, p) {
      var x :| 0 <= x < |ws| && ws[x] == Put(p, s.TreeAfter()[p]);
      PeerWriteFacts(s, ws[x]);
    } else if p in s.Live() {
      UntouchedIsCurrent(s, p);
    } else if p in s.tree {
      DeadIsCovered(s, p);
    }
  }

  lemma NeededIsTouched(s: Situation, p: RelPath)
    requires s.Good() && s.AllAcknowledged() && p in s.Live()
    requires NeedsAction(s.Live()[p], s.Base(), Primary) || p !in s.tree
    ensures Touched(AllPeerWrites(s.Actions(), s.Results()), p)
  {
    NeededIsListed(s, p);
    var a :| a in s.Actions() && a.relativePath == p && a.decision == ApplyToSecondary;
    var i :| 0 <= i < |s.Actions()| && s.Actions()[i] == a;
    ChecksPass(s, i);
    var writes := PeerWrites(a, s.Results()[i]);
    var w := writes[|writes| - 1];
    assert w in writes && w.Put? && w.path == p;
    PeerWriteIn(s.Actions(), s.Results(), i, w);
  }

  lemma LiveIsNotCovered(s: Situation, p: RelPath)
    requires s.Good() && s.AllAcknowledged() && p in s.Live()
    ensures !Covers(AllPeerWrites(s.Actions(), s.Results()), p)
  {
    var ws := AllPeerWrites(s.Actions(), s.Results());
    forall x | 0 <= x < |ws| && ws[x].DropTree?
      ensures !AtOrUnder(p, ws[x].path)
    {
      PeerWriteFacts(s, ws[x]);
    }
  }

  lemma UntouchedIsCurrent(s: Situation, p: RelPath)
    requires s.Good() && s.AllAcknowledged() && p in s.Live()
    requires !Touched(AllPeerWrites(s.Actions(), s.Results()), p)
    ensures p in s.tree && s.tree[p] == Target(s.Live()[p])
    ensures !Covers(AllPeerWrites(s.Actions(), s.Results()), p)
  {
    LiveIsNotCovered(s, p);
    if NeedsAction(s.Live()[p], s.Base(), Primary) || p !in s.tree {
      NeededIsTouched(s, p);
    } else {
      LiveIndexFacts(s.snaps);
    }
  }

  lemma DeadIsCovered(s: Situation, p: RelPath)
    requires s.Good() && s.AllAcknowledged() && p in s.Base() && p !in s.Live()
    ensures Covers(AllPeerWrites(s.Actions(), s.Results()), p)
    ensures RemovalRecorded(s.Attempted(), p)
  {
    GoneIsDeleted(s, p);
    var a :| a in s.Actions() && a.decision == MoveSecondaryToHistory && AtOrUnder(p, a.relativePath);
    var i :| 0 <= i < |s.Actions()| && s.Actions()[i] == a;
    ChecksPass(s, i);
    assert DropTree(a.relativePath) in PeerWrites(s.Actions()[i], s.Results()[i]);
    PeerWriteIn(s.Actions(), s.Results(), i, DropTree(a.relativePath));
    assert RemovalRecordedAt(s.Attempted().actions[i], s.Attempted().results[i], s.Attempted().done[i], p);
  }

  /** Convergence: after an acknowledged run the Secondary's tree is the Primary's. */
  lemma SecondaryConverges(s: Situation)
    requires s.Good() && s.AllAcknowledged()
    ensures s.TreeAfter() == TargetTree(s.Live())
  {
    forall p
      ensures (p in s.TreeAfter() <==> p in s.Live()) &&
              (p in s.Live() && p in s.TreeAfter() ==> s.TreeAfter()[p] == Target(s.Live()[p]))
    {
      PeerEntryAfter(s, p);
    }
  }

  // ---- the baselines after the run ----

  /** A row that agrees with the scan: a directory row for a directory, the scanned hash for a file. */
  predicate Agrees(row: SyncBaseline, snap: FileSnapshot) {
    if snap.kind == Directory then LooksLikeDirectory(row)
    else VerifiedFileRow(row) && row.primaryHash == snap.hash
  }

  lemma RowAgrees(s: Situation, p: RelPath)
    requires s.Good() && s.AllAcknowledged()
    ensures p in s.BaseAfter() <==> p in s.Live()
    ensures p in s.BaseAfter() && p in s.Live() ==> Agrees(s.BaseAfter()[p], s.Live()[p])
  {
    var t, live, base := s.Attempted(), s.Live(), s.Base();
    AllActionsSound(s.snaps, s.cached, s.rows, s.remote);
    WritesSeparate(t, live, base);
    TouchedExactly(t, live, base, p);
    Outcome(base, t.Writes(), p);
    if Touched(t.Writes(), p) {
      RowAfter(t, live, base, p, s.BaseAfter()[p]);
      WrittenRowAgrees(s, p, s.BaseAfter()[p]);
    } else if p in live {
      UnrecordedIsCurrent(s, p);
    } else if p in base {
      DeadIsCovered(s, p);
    }
  }

  lemma WrittenRowAgrees(s: Situation, p: RelPath, row: SyncBaseline)
    requires s.Good() && s.AllAcknowledged() && p in s.Live()
    requires var t := s.Attempted();
             (row == DirectoryBaseline(p, s.now) && s.Live()[p].kind == Directory) ||
             exists i :: 0 <= i < |t.actions| && RecordedAt(t.actions[i], t.results[i], t.done[i], p) &&
               row == AppliedBaseline(t.actions[i], s.Live()[p], t.results[i], t.rehash, t.now)
    ensures Agrees(row, s.Live()[p])
  {
    var t := s.Attempted();
    LiveIndexFacts(s.snaps);
    if i :| 0 <= i < |t.actions| && RecordedAt(t.actions[i], t.results[i], t.done[i], p) &&
            row == AppliedBaseline(t.actions[i], s.Live()[p], t.results[i], t.rehash, t.now)
    {
      ChecksPass(s, i);
    }
  }

  lemma UnrecordedIsCurrent(s: Situation, p: RelPath)
    requires s.Good() && s.AllAcknowledged() && p in s.Live()
    requires !Recorded(s.Attempted(), p)
    ensures p in s.Base() && Agrees(s.Base()[p], s.Live()[p]) && !RemovalRecorded(s.Attempted(), p)
  {
    LiveIndexFacts(s.snaps);
    if NeedsAction(s.Live()[p], s.Base(), Primary) {
      NeededIsRecorded(s, p);
    } else {
      RemovalsMissLive(s, p);
    }
  }

  lemma NeededIsRecorded(s: Situation, p: RelPath)
    requires s.Good() && s.AllAcknowledged() && p in s.Live() && NeedsAction(s.Live()[p], s.Base(), Primary)
    ensures Recorded(s.Attempted(), p)
  {
    var t := s.Attempted();
    NeededIsListed(s, p);
    var a :| a in s.Actions() && a.relativePath == p && a.decision == ApplyToSecondary;
    var i :| 0 <= i < |s.Actions()| && s.Actions()[i] == a;
    ChecksPass(s, i);
    assert RecordedAt(t.actions[i], t.results[i], t.done[i], p);
  }

  lemma RemovalsMissLive(s: Situation, p: RelPath)
    requires s.Good() && s.AllAcknowledged() && p in s.Live()
    ensures !RemovalRecorded(s.Attempted(), p)
  {
    AllActionsSound(s.snaps, s.cached, s.rows, s.remote);
    var t := s.Attempted();
    forall i | 0 <= i < |t.actions|
      ensures !RemovalRecordedAt(t.actions[i], t.results[i], t.done[i], p)
    {
      assert Sound(t.actions[i], s.Live(), s.Base());
    }
  }

  /** The baselines cover exactly the live paths, with equal hashes on both sides, and keep the shape
      that the next run relies on. */
  lemma BaselinesConverge(s: Situation)
    requires s.Good() && s.AllAcknowledged()
    ensures s.BaseAfter().Keys == s.Live().Keys
    ensures forall p :: p in s.Live() ==> p in s.BaseAfter() && Agrees(s.BaseAfter()[p], s.Live()[p])
    ensures RowsOk(s.BaseAfter()) && NoFlips(s.Live(), s.BaseAfter()) && Holds(s.TreeAfter(), s.BaseAfter())
  {
    forall p
      ensures p in s.BaseAfter() <==> p in s.Live()
      ensures p in s.Live() ==> p in s.BaseAfter() && Agrees(s.BaseAfter()[p], s.Live()[p])
    {
      RowAgrees(s, p);
    }
    SecondaryConverges(s);
  }

  // ---- the next run ----

  lemma {:induction false} SnapshotRowsOnlyShrink(table: map<RelPath, FileSnapshot>, actions: seq<PlannedAction>,
                                                  results: seq<NetworkResult>, forgets: seq<bool>)
    requires |results| == |actions| == |forgets|
    ensures forall p :: p in Run(table, AllSnapshotWrites(actions, results, forgets)) ==>
              p in table && Run(table, AllSnapshotWrites(actions, results, forgets))[p] == table[p]
  {
    if actions != [] {
      var n := |actions| - 1;
      SnapshotRowsOnlyShrink(table, actions[..n], results[..n], forgets[..n]);
      var before := AllSnapshotWrites(actions[..n], results[..n], forgets[..n]);
      if SnapshotWrites(actions[n], results[n], forgets[n]) != [] {
        var w := DropTree(actions[n].relativePath);
        assert (before + [w])[..|before|] == before;
      } else {
        assert before + [] == before;
      }
    }
  }

  /** A success whose snapshot rows are removed takes the rows at and under its path. */
  predicate Forgotten(a: PlannedAction, r: NetworkResult, forgets: bool, p: RelPath) {
    a.decision == MoveSecondaryToHistory && r.success && forgets &&
      (p == a.relativePath || IsDescendant(p, a.relativePath))
  }

  ghost predicate ForgottenByAny(actions: seq<PlannedAction>, results: seq<NetworkResult>, forgets: seq<bool>,
                                 p: RelPath)
    requires |results| == |actions| == |forgets|
  {
    exists i :: 0 <= i < |actions| && Forgotten(actions[i], results[i], forgets[i], p)
  }

  lemma ForgottenExtends(actions: seq<PlannedAction>, results: seq<NetworkResult>, forgets: seq<bool>, p: RelPath)
    requires |results| == |actions| == |forgets| > 0
    ensures var n := |actions| - 1;
            ForgottenByAny(actions, results, forgets, p) <==>
            ForgottenByAny(actions[..n], results[..n], forgets[..n], p) ||
            Forgotten(actions[n], results[n], forgets[n], p)
  {
    var n := |actions| - 1;
    assert forall i :: 0 <= i < n ==>
      actions[..n][i] == actions[i] && results[..n][i] == results[i] && forgets[..n][i] == forgets[i];
    if ForgottenByAny(actions[..n], results[..n], forgets[..n], p) {
      var i :| 0 <= i < n && Forgotten(actions[..n][i], results[..n][i], forgets[..n][i], p);
      assert Forgotten(actions[i], results[i], forgets[i], p);
    }
  }

  lemma OneRemoval(table: map<RelPath, FileSnapshot>, a: PlannedAction, r: NetworkResult, forgets: bool, p: RelPath)
    ensures p in Run(table, SnapshotWrites(a, r, forgets)) <==> p in table && !Forgotten(a, r, forgets, p)
  {
    if SnapshotWrites(a, r, forgets) != [] {
      assert SnapshotWrites(a, r, forgets)[..0] == [];
    }
  }

  /** The snapshot rows that recording leaves: all but those at or under a delete that succeeded and was let remove
      them. */
  lemma {:induction false} SnapshotRowsExactly(table: map<RelPath, FileSnapshot>, actions: seq<PlannedAction>,
                                               results: seq<NetworkResult>, forgets: seq<bool>, p: RelPath)
    requires |results| == |actions| == |forgets|
    ensures p in Run(table, AllSnapshotWrites(actions, results, forgets)) <==>
            p in table && !ForgottenByAny(actions, results, forgets, p)
  {
    if actions != [] {
      var n := |actions| - 1;
      var before := AllSnapshotWrites(actions[..n], results[..n], forgets[..n]);
      SnapshotRowsExactly(table, actions[..n], results[..n], forgets[..n], p);
      ForgottenExtends(actions, results, forgets, p);
      RunAppend(table, before, SnapshotWrites(actions[n], results[n], forgets[n]));
      OneRemoval(Run(table, before), actions[n], results[n], forgets[n], p);
    }
  }

  /** An empty plan, no vanished rows and a complete peer leave nothing to do. */
  lemma NothingToDo(snaps: seq<FileSnapshot>, cached: seq<FileSnapshot>, rows: seq<SyncBaseline>,
                    remote: seq<RemoteFileState>)
    requires Plan(snaps, rows, Primary) == []
    requires forall snap :: snap in cached && IsLive(snap) ==> snap.relativePath in LiveIndex(snaps)
    requires forall b :: b in rows ==> b.relativePath in RemotePaths(remote)
    ensures AllActions(snaps, cached, rows, remote) == []
  {
    var all, local := AllActions(snaps, cached, rows, remote), LocalActions(snaps, cached, rows);
    if all != [] {
      var a := all[0];
      AllMember(snaps, cached, rows, remote, a);
      RepairMember(local, snaps, rows, remote, a);
      LocalMember(snaps, cached, rows, a);
      CompressMember(WithRecovered([], cached, snaps, rows), a);
      RecoveredMember([], cached, snaps, rows, a);
      assert false;
    }
  }

  lemma NothingPlanned(s: Situation, rows': seq<SyncBaseline>)
    requires s.Good() && s.AllAcknowledged()
    requires UniqueBaselines(rows') && BaselineIndex(rows') == s.BaseAfter()
    ensures Plan(s.snaps, rows', Primary) == []
  {
    BaselinesConverge(s);
    LiveIndexFacts(s.snaps);
    BaselineIndexFacts(rows');
    forall i | 0 <= i < |s.snaps| ensures !NeedsAction(s.snaps[i], BaselineIndex(rows'), Primary) {
      if IsLive(s.snaps[i]) {
        assert Agrees(s.BaseAfter()[s.snaps[i].relativePath], s.Live()[s.snaps[i].relativePath]);
      }
    }
    QuiescentExactly(s.snaps, rows', Primary);
  }

  /** Quiescence: a further run over the same scan has an empty action list, whatever the order in
      which the tables and the peer list their rows. */
  lemma NextRunIsIdle(s: Situation, cached': seq<FileSnapshot>, rows': seq<SyncBaseline>, remote': seq<RemoteFileState>)
    requires s.Good() && s.AllAcknowledged()
    requires forall snap :: snap in cached' ==> snap in s.snaps
    requires UniqueBaselines(rows') && BaselineIndex(rows') == s.BaseAfter()
    requires Reports(remote', s.TreeAfter())
    ensures AllActions(s.snaps, cached', rows', remote') == []
  {
    NothingPlanned(s, rows');
    BaselinesConverge(s);
    SecondaryConverges(s);
    LiveIndexFacts(s.snaps);
    BaselineIndexFacts(rows');
    forall b | b in rows' ensures b.relativePath in RemotePaths(remote') {
      assert b.relativePath in TargetTree(s.Live());
    }
    NothingToDo(s.snaps, cached', rows', remote');
  }
}
