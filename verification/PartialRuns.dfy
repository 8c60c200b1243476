/** Runs that break off: what the Secondary carried out, what the Primary heard of it and could record, and whether
    the runs that follow can still converge. */
module PartialRuns {
  import opened Prelude
  import opened Paths
  import opened Model
  import opened TreeTable
  import opened Planner
  import opened PrimarySync
  import opened ActionList
  import opened Recording
  import opened Convergence
  import SendSafety

  // ---- an upload whose record is lost ----

  /** A file that the Secondary has already, while no record of it exists, is planned again and refused every time:
      the check before the send compares with the old baseline alone. */
  lemma LostUploadIsRefused(snaps: seq<FileSnapshot>, cached: seq<FileSnapshot>, rows: seq<SyncBaseline>,
                            remote: seq<RemoteFileState>, t: Attempt, p: RelPath, cached': seq<FileSnapshot>,
                            rows': seq<SyncBaseline>, remote': seq<RemoteFileState>, b: PlannedAction)
    requires UniqueSnapshots(snaps) && UniqueBaselines(rows) && UniqueBaselines(rows')
    requires ScanOk(LiveIndex(snaps)) && FilesVerified(LiveIndex(snaps))
    requires RowsOk(BaselineIndex(rows)) && NoFlips(LiveIndex(snaps), BaselineIndex(rows))
    requires t.Aligned() && t.actions == AllActions(snaps, cached, rows, remote)
    requires BaselineIndex(rows') == Run(BaselineIndex(rows), t.Writes())
    requires p in LiveIndex(snaps) && LiveIndex(snaps)[p].kind == File && LiveIndex(snaps)[p].hash.Some?
    requires Plans(snaps, rows, p, ApplyToSecondary) && !Recorded(t, p)
    requires SendSafety.ShowsFile(RemoteIndex(remote'), p, LiveIndex(snaps)[p].hash.value)
    requires b in AllActions(snaps, cached', rows', remote') && b.relativePath == p
    ensures RemoteConflict(b, RemoteIndex(remote')).Some?
  {
    var live, base, next := LiveIndex(snaps), BaselineIndex(rows), AllActions(snaps, cached', rows', remote');
    LiveIndexFacts(snaps);
    PlansExactly(snaps, rows, p);
    AllActionsSound(snaps, cached, rows, remote);
    AllActionsSound(snaps, cached', rows', remote');
    FilesAreNoParents(snaps, t, base, p);
    LiveRowAfter(t, live, base, p);
    var i :| 0 <= i < |next| && next[i] == b;
    assert Sound(next[i], live, BaselineIndex(rows'));
  }

  /** A live path without a record of this attempt keeps its old row, or none. */
  lemma LiveRowAfter(t: Attempt, live: map<RelPath, FileSnapshot>, base: map<RelPath, SyncBaseline>, p: RelPath)
    requires t.Aligned() && ScanOk(live) && AllSound(t.actions, live, base) && p in live
    ensures Touched(t.Writes(), p) <==> Recorded(t, p) || ParentRecorded(t, p)
    ensures !Touched(t.Writes(), p) ==>
              (p in Run(base, t.Writes()) <==> p in base) && (p in base ==> Run(base, t.Writes())[p] == base[p])
  {
    WritesSeparate(t, live, base);
    TouchedExactly(t, live, base, p);
    Outcome(base, t.Writes(), p);
    forall i | 0 <= i < |t.actions|
      ensures !RemovalRecordedAt(t.actions[i], t.results[i], t.done[i], p)
    {
      assert Sound(t.actions[i], live, base);
    }
  }

  // ---- a run that may break off anywhere ----

  /** `did` is what the Secondary did with each action, `heard` the answers that came back, and `done` the table
      writes that went through. */
  datatype PartialRun = PartialRun(s: Situation, did: seq<Ack>, heard: seq<Ack>, done: seq<nat>) {
    /** An answer is lost or true. */
    ghost predicate Valid() {
      UniqueSnapshots(s.cached) && |did| == |heard| == |done| == |s.Actions()| &&
      forall i :: 0 <= i < |heard| && heard[i].Acked? ==> heard[i] == did[i]
    }

    function Effects(): seq<NetworkResult>
      requires |did| == |s.Actions()|
    {
      ExecuteAll(s.Actions(), RemoteIndex(s.remote), {}, did)
    }

    function Attempted(): Attempt
      requires |heard| == |s.Actions()|
    {
      Attempt(s.Actions(), ExecuteAll(s.Actions(), RemoteIndex(s.remote), {}, heard), done, s.rehash, s.now)
    }

    function Sends(): seq<Write<Entry>>
      requires |did| == |s.Actions()|
    {
      AllPeerWrites(s.Actions(), Effects())
    }

    function TreeAfter(): map<RelPath, Entry>
      requires |did| == |s.Actions()|
    {
      Run(s.tree, Sends())
    }

    function BaseAfter(): map<RelPath, SyncBaseline>
      requires |heard| == |s.Actions()| == |done|
    {
      Run(s.Base(), Attempted().Writes())
    }
  }

  /** The `i`-th action was carried out on the Secondary. */
  predicate Carried(r: PartialRun, i: nat)
    requires |r.did| == |r.s.Actions()| && i < |r.s.Actions()|
  {
    r.Effects()[i].success
  }

  function Placed(result: NetworkResult): Entry {
    if result.transferredHash.Some? then Content(result.transferredHash.value) else Folder
  }

  lemma ActionSound(r: PartialRun, i: nat)
    requires r.s.Good() && i < |r.s.Actions()|
    ensures Sound(r.s.Actions()[i], r.s.Live(), r.s.Base()) && AllSound(r.s.Actions(), r.s.Live(), r.s.Base())
  {
    AllActionsSound(r.s.snaps, r.s.cached, r.s.rows, r.s.remote);
  }

  lemma AttemptSound(r: PartialRun)
    requires r.s.Good() && r.Valid()
    ensures r.Attempted().Aligned() && AllSound(r.Attempted().actions, r.s.Live(), r.s.Base())
  {
    AllActionsSound(r.s.snaps, r.s.cached, r.s.rows, r.s.remote);
  }

  /** What was heard was done, and done so. */
  lemma HeardIsDone(r: PartialRun, i: nat)
    requires r.s.Good() && r.Valid() && i < |r.s.Actions()| && r.Attempted().results[i].success
    ensures Carried(r, i) && r.Effects()[i] == r.Attempted().results[i]
  {
    ActionSound(r, i);
    var a := r.s.Actions()[i];
    assert r.Effects()[i] == Execute(a, RemoteIndex(r.s.remote), {}, r.did[i]);
    assert r.Attempted().results[i] == Execute(a, RemoteIndex(r.s.remote), {}, r.heard[i]);
  }

  /** A file brings its bytes, a directory none. */
  lemma PlacedKind(r: PartialRun, i: nat)
    requires r.s.Good() && r.Valid() && i < |r.s.Actions()| && Carried(r, i)
    requires r.s.Actions()[i].decision == ApplyToSecondary
    ensures var p := r.s.Actions()[i].relativePath;
            p in r.s.Live() &&
            r.Effects()[i].transferredHash ==
              if r.s.Live()[p].kind == Directory then None else Some(r.did[i].hash)
  {
    ActionSound(r, i);
    var a := r.s.Actions()[i];
    assert r.Effects()[i] == Execute(a, RemoteIndex(r.s.remote), {}, r.did[i]);
  }

  // ---- what was put where ----

  /** The `i`-th action put `e` at `p`: its own entry, or a folder on the way. */
  predicate PutBy(r: PartialRun, i: nat, p: RelPath, e: Entry)
    requires |r.did| == |r.s.Actions()| && i < |r.s.Actions()|
  {
    var a := r.s.Actions()[i];
    Carried(r, i) && a.decision == ApplyToSecondary &&
    ((p == a.relativePath && e == Placed(r.Effects()[i])) || (p in ParentPaths(a.relativePath) && e == Folder))
  }

  lemma SentFrom(r: PartialRun, w: Write<Entry>) returns (i: nat)
    requires r.s.Good() && r.Valid() && w in r.Sends()
    ensures i < |r.s.Actions()| && Carried(r, i)
    ensures w.Put? ==> PutBy(r, i, w.path, w.value) && w.path in r.s.Live()
    ensures w.DropTree? ==> r.s.Actions()[i].decision == MoveSecondaryToHistory && w.path !in r.s.Live()
  {
    i := PeerWriteFrom(r.s.Actions(), r.Effects(), w);
    ActionSound(r, i);
    var a := r.s.Actions()[i];
    if a.decision == ApplyToSecondary {
      if w in Puts(ParentPaths(a.relativePath), FolderAt()) {
        ParentPathsExact(a.relativePath, w.path);
      }
    }
  }

  lemma PutIsSent(r: PartialRun, i: nat, p: RelPath, e: Entry)
    requires r.s.Good() && r.Valid() && i < |r.s.Actions()| && PutBy(r, i, p, e)
    ensures Touched(r.Sends(), p)
  {
    var a, result := r.s.Actions()[i], r.Effects()[i];
    PutIsWritten(a, result, p);
    PeerWriteIn(r.s.Actions(), r.Effects(), i, PutAs(a, result, p));
  }

  function PutAs(a: PlannedAction, result: NetworkResult, p: RelPath): Write<Entry> {
    if p == a.relativePath then Put(p, Placed(result)) else Put(p, Folder)
  }

  lemma PutIsWritten(a: PlannedAction, result: NetworkResult, p: RelPath)
    requires result.success && a.decision == ApplyToSecondary &&
             (p == a.relativePath || p in ParentPaths(a.relativePath))
    ensures PutAs(a, result, p) in PeerWrites(a, result)
  {
    var parents, writes := ParentPaths(a.relativePath), PeerWrites(a, result);
    if p == a.relativePath {
      assert writes[|parents|] == PutAs(a, result, p);
    } else {
      var k :| 0 <= k < |parents| && parents[k] == p;
      assert writes[k] == PutAs(a, result, p);
    }
  }

  lemma SendsSeparate(r: PartialRun)
    requires r.s.Good() && r.Valid()
    ensures Separate(r.Sends())
  {
    var ws := r.Sends();
    forall x, y | 0 <= x < |ws| && 0 <= y < |ws| && ws[x].Put? && ws[y].DropTree?
      ensures !AtOrUnder(ws[x].path, ws[y].path)
    {
      var i := SentFrom(r, ws[x]);
      var j := SentFrom(r, ws[y]);
    }
  }

  /** Two actions never disagree about an entry. */
  lemma PutsAgree(r: PartialRun, i: nat, j: nat, p: RelPath, e: Entry, f: Entry)
    requires r.s.Good() && r.Valid()
    requires i < |r.s.Actions()| && PutBy(r, i, p, e)
    requires j < |r.s.Actions()| && PutBy(r, j, p, f)
    ensures e == f && p in r.s.Live() && (r.s.Live()[p].kind == Directory ==> e == Folder)
    ensures r.s.Live()[p].kind == File ==> i == j && r.s.Actions()[i].relativePath == p
  {
    AllActionsUnique(r.s.snaps, r.s.cached, r.s.rows, r.s.remote);
    ActionSound(r, i);
    ActionSound(r, j);
    PlacedKind(r, i);
    PlacedKind(r, j);
    ParentPathsExact(r.s.Actions()[i].relativePath, p);
    ParentPathsExact(r.s.Actions()[j].relativePath, p);
  }

  /** The entry that an action put is there after the run. */
  lemma PutIsThere(r: PartialRun, i: nat, p: RelPath, e: Entry)
    requires r.s.Good() && r.Valid()
    requires i < |r.s.Actions()| && PutBy(r, i, p, e)
    ensures p in r.s.Live() && p in r.TreeAfter() && r.TreeAfter()[p] == e
  {
    SendsSeparate(r);
    PutIsSent(r, i, p, e);
    Outcome(r.s.tree, r.Sends(), p);
    var x :| 0 <= x < |r.Sends()| && r.Sends()[x] == Put(p, r.TreeAfter()[p]);
    var j := SentFrom(r, r.Sends()[x]);
    PutsAgree(r, i, j, p, e, r.TreeAfter()[p]);
  }

  // ---- what was recorded ----

  /** A row written by the run: a folder's, or the one of the file that was put there. */
  lemma RowWritten(r: PartialRun, p: RelPath) returns (i: nat)
    requires r.s.Good() && r.Valid() && Touched(r.Attempted().Writes(), p)
    ensures p in r.s.Live() && p in r.BaseAfter()
    ensures r.s.Live()[p].kind == Directory ==> LooksLikeDirectory(r.BaseAfter()[p])
    ensures r.s.Live()[p].kind == File ==>
              i < |r.s.Actions()| && r.Attempted().results[i].success && r.s.Actions()[i].relativePath == p &&
              r.s.Actions()[i].decision == ApplyToSecondary && VerifiedFileRow(r.BaseAfter()[p]) &&
              EntryMatches(Placed(r.Effects()[i]), r.BaseAfter()[p])
  {
    var t, live, base := r.Attempted(), r.s.Live(), r.s.Base();
    AttemptSound(r);
    WritesSeparate(t, live, base);
    Outcome(base, t.Writes(), p);
    var row := r.BaseAfter()[p];
    RowAfter(t, live, base, p, row);
    i := 0;
    if !(row == DirectoryBaseline(p, t.now) && live[p].kind == Directory) {
      i :| 0 <= i < |t.actions| && RecordedAt(t.actions[i], t.results[i], t.done[i], p) &&
           row == AppliedBaseline(t.actions[i], live[p], t.results[i], t.rehash, t.now);
      HeardIsDone(r, i);
      PlacedKind(r, i);
    }
  }

  /** The path has a row that fits the entry: written by this run, or there before. */
  ghost predicate Backed(r: PartialRun, p: RelPath, e: Entry)
    requires r.Valid()
  {
    Recorded(r.Attempted(), p) || ParentRecorded(r.Attempted(), p) ||
    (p in r.s.Base() && EntryMatches(e, r.s.Base()[p]))
  }

  /** Every entry that the Secondary was made to put was recorded, or is one that the baselines name already. */
  ghost predicate Clean(r: PartialRun)
    requires r.Valid()
  {
    forall i: nat, p, e :: i < |r.s.Actions()| && PutBy(r, i, p, e) ==> Backed(r, p, e)
  }

  lemma BackedExactly(r: PartialRun, i: nat, p: RelPath, e: Entry)
    requires r.s.Good() && r.Valid() && i < |r.s.Actions()| && PutBy(r, i, p, e)
    ensures Backed(r, p, e) <==> p in r.BaseAfter() && EntryMatches(e, r.BaseAfter()[p])
  {
    var t := r.Attempted();
    AttemptSound(r);
    PutIsThere(r, i, p, e);
    LiveRowAfter(t, r.s.Live(), r.s.Base(), p);
    if Touched(t.Writes(), p) {
      var j := RowWritten(r, p);
      PutsAgree(r, i, i, p, e, e);
      if r.s.Live()[p].kind == File {
        HeardIsDone(r, j);
        PutsAgree(r, i, j, p, e, Placed(r.Effects()[j]));
      }
    }
  }

  /** Where nothing was put, nothing was recorded; and a removal was recorded only where it was carried out. */
  lemma UntouchedRow(r: PartialRun, p: RelPath)
    requires r.s.Good() && r.Valid() && p in r.s.tree
    requires !Touched(r.Sends(), p) && !Covers(r.Sends(), p)
    ensures p in r.BaseAfter() && p in r.s.Base() && r.BaseAfter()[p] == r.s.Base()[p]
  {
    var t, live, base := r.Attempted(), r.s.Live(), r.s.Base();
    AttemptSound(r);
    WritesSeparate(t, live, base);
    TouchedExactly(t, live, base, p);
    Outcome(base, t.Writes(), p);
    forall i | 0 <= i < |t.actions| && t.results[i].success
      ensures !RecordedAt(t.actions[i], t.results[i], t.done[i], p)
      ensures !ParentRecordedAt(t.actions[i], t.results[i], t.done[i], p)
      ensures !RemovalRecordedAt(t.actions[i], t.results[i], t.done[i], p)
    {
      HeardIsDone(r, i);
      NothingRecorded(r, i, p);
    }
  }

  lemma NothingRecorded(r: PartialRun, i: nat, p: RelPath)
    requires r.s.Good() && r.Valid() && i < |r.s.Actions()| && Carried(r, i)
    requires !Touched(r.Sends(), p) && !Covers(r.Sends(), p)
    ensures var a := r.s.Actions()[i];
            (a.decision == ApplyToSecondary ==> p != a.relativePath && p !in ParentPaths(a.relativePath)) &&
            (a.decision == MoveSecondaryToHistory ==> !AtOrUnder(p, a.relativePath))
  {
    var a := r.s.Actions()[i];
    if a.decision == ApplyToSecondary {
      if p == a.relativePath {
        PutIsSent(r, i, p, Placed(r.Effects()[i]));
      } else if p in ParentPaths(a.relativePath) {
        PutIsSent(r, i, p, Folder);
      }
    } else if a.decision == MoveSecondaryToHistory && AtOrUnder(p, a.relativePath) {
      assert DropTree(a.relativePath) in PeerWrites(a, r.Effects()[i]);
      PeerWriteIn(r.s.Actions(), r.Effects(), i, DropTree(a.relativePath));
    }
  }

  /** After a run that broke off anywhere, the Secondary holds nothing but what the baselines record exactly if
      the run was clean. */
  lemma HoldsAfterExactly(r: PartialRun)
    requires r.s.Good() && r.Valid()
    ensures Holds(r.TreeAfter(), r.BaseAfter()) <==> Clean(r)
  {
    if Holds(r.TreeAfter(), r.BaseAfter()) {
      forall i: nat, p, e | i < |r.s.Actions()| && PutBy(r, i, p, e)
        ensures Backed(r, p, e)
      {
        PutIsThere(r, i, p, e);
        BackedExactly(r, i, p, e);
      }
    }
    if Clean(r) {
      forall p | p in r.TreeAfter()
        ensures p in r.BaseAfter() && EntryMatches(r.TreeAfter()[p], r.BaseAfter()[p])
      {
        SendsSeparate(r);
        Outcome(r.s.tree, r.Sends(), p);
        if Touched(r.Sends(), p) {
          var x :| 0 <= x < |r.Sends()| && r.Sends()[x] == Put(p, r.TreeAfter()[p]);
          var i := SentFrom(r, r.Sends()[x]);
          assert PutBy(r, i, p, r.TreeAfter()[p]);
          BackedExactly(r, i, p, r.TreeAfter()[p]);
        } else {
          UntouchedRow(r, p);
        }
      }
    }
  }

  /** It is clean if whatever the Secondary did was heard of and recorded in full; what was refused, or never
      arrived, does not matter. */
  lemma RecordedRunIsClean(r: PartialRun)
    requires r.s.Good() && r.Valid()
    requires forall i :: 0 <= i < |r.s.Actions()| && Carried(r, i) && r.s.Actions()[i].decision == ApplyToSecondary ==>
               r.heard[i].Acked? && r.done[i] > |ParentPaths(r.s.Actions()[i].relativePath)|
    ensures Clean(r)
  {
    var t := r.Attempted();
    forall i: nat, p, e | i < |r.s.Actions()| && PutBy(r, i, p, e)
      ensures Backed(r, p, e)
    {
      var a := r.s.Actions()[i];
      assert r.Effects()[i] == Execute(a, RemoteIndex(r.s.remote), {}, r.did[i]);
      assert t.results[i] == Execute(a, RemoteIndex(r.s.remote), {}, r.heard[i]);
      if p == a.relativePath {
        assert RecordedAt(t.actions[i], t.results[i], t.done[i], p);
      } else {
        assert ParentRecordedAt(t.actions[i], t.results[i], t.done[i], p);
      }
    }
  }

  // ---- series of runs ----

  lemma RowsStayOk(r: PartialRun)
    requires r.s.Good() && r.Valid()
    ensures RowsOk(r.BaseAfter())
  {
    forall p | p in r.BaseAfter()
      ensures LooksLikeDirectory(r.BaseAfter()[p]) || VerifiedFileRow(r.BaseAfter()[p])
    {
      AttemptSound(r);
      WritesSeparate(r.Attempted(), r.s.Live(), r.s.Base());
      Outcome(r.s.Base(), r.Attempted().Writes(), p);
      if Touched(r.Attempted().Writes(), p) {
        var i := RowWritten(r, p);
      }
    }
  }

  /** The next run starts from what this one has left; the Primary's user may have changed his folder in between, but
      not a file into a directory or back, and the Secondary's user nothing. */
  ghost predicate Follows(r: PartialRun, next: Situation)
    requires r.Valid()
  {
    UniqueSnapshots(next.snaps) && UniqueBaselines(next.rows) && next.Base() == r.BaseAfter() &&
    next.tree == r.TreeAfter() && Reports(next.remote, next.tree) &&
    ScanOk(next.Live()) && ScanVerified(next.Live()) && NoFlips(next.Live(), next.Base()) &&
    forall p :: p in next.rehash && p in next.Live() ==> next.Live()[p].kind == File
  }

  /** It is again in the situation that convergence starts from exactly if this run was clean. */
  lemma GoodAgainExactly(r: PartialRun, next: Situation)
    requires r.s.Good() && r.Valid() && Follows(r, next)
    ensures next.Good() <==> Clean(r)
  {
    HoldsAfterExactly(r);
    RowsStayOk(r);
  }

  /** The situation in front of run `i`. */
  function At(runs: seq<PartialRun>, last: Situation, i: nat): Situation { if i < |runs| then runs[i].s else last }

  /** Run `i` was clean, and what follows starts from what it left. */
  ghost predicate Linked(runs: seq<PartialRun>, last: Situation, i: nat)
    requires i < |runs|
  {
    runs[i].Valid() && Clean(runs[i]) && Follows(runs[i], At(runs, last, i + 1))
  }

  ghost predicate Series(runs: seq<PartialRun>, last: Situation) {
    forall i: nat :: i < |runs| ==> Linked(runs, last, i)
  }

  lemma NextStaysGood(runs: seq<PartialRun>, last: Situation, i: nat)
    requires Series(runs, last) && i < |runs| && At(runs, last, i).Good()
    ensures At(runs, last, i + 1).Good()
  {
    assert Linked(runs, last, i);
    GoodAgainExactly(runs[i], At(runs, last, i + 1));
  }

  lemma {:induction false} SeriesStaysGood(runs: seq<PartialRun>, last: Situation, i: nat)
    requires Series(runs, last) && At(runs, last, 0).Good() && i <= |runs|
    ensures At(runs, last, i).Good()
  {
    for k := 0 to i
      invariant At(runs, last, k).Good()
    {
      NextStaysGood(runs, last, k);
    }
  }

  /** After any series of clean runs that break off anywhere, one that is acknowledged makes the Secondary's tree the
      Primary's, and the baselines agree. */
  lemma SeriesConverges(runs: seq<PartialRun>, last: Situation)
    requires Series(runs, last) && At(runs, last, 0).Good() && last.AllAcknowledged()
    ensures last.TreeAfter() == TargetTree(last.Live())
    ensures last.BaseAfter().Keys == last.Live().Keys
    ensures forall p :: p in last.Live() ==> p in last.BaseAfter() && Agrees(last.BaseAfter()[p], last.Live()[p])
  {
    SeriesStaysGood(runs, last, |runs|);
    SecondaryConverges(last);
    BaselinesConverge(last);
  }
}
