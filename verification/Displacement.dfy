/** The operations that change the Primary's folder on a Secondary's behalf: selected returns, confirmed
    overwrites and keep-both copies, any of whose file and database steps may fail. */
module Displacement {
  import opened Prelude
  import opened Paths
  import opened Model

  datatype Entry = Folder | Content(hash: Hash, size: int)

  datatype Stored = Stored(path: RelPath, hash: Hash)

  datatype Store = Store(disk: map<RelPath, Entry>, history: set<Stored>, baselines: map<RelPath, SyncBaseline>,
                         pending: map<RelPath, PendingReturnChange>)

  // ---- conflict detection ----

  predicate ChangedSinceBaseline(primary: FileSnapshot, b: SyncBaseline) {
    if BothVerified(primary, b) then primary.hash.value != b.primaryHash.value
    else primary.size != b.primarySize || primary.modifiedMs != b.primaryModifiedMs
  }

  predicate BothVerified(primary: FileSnapshot, b: SyncBaseline) {
    primary.hashStatus == Verified && b.primaryHashStatus == Verified && primary.hash.Some? && b.primaryHash.Some?
  }

  /** `detect_conflict`. */
  predicate Conflicts(change: PendingReturnChange, primary: Option<FileSnapshot>, baseline: Option<SyncBaseline>) {
    if primary.None? || primary.value.deleted then change.changeKind == Modified && baseline.Some?
    else baseline.None? || ChangedSinceBaseline(primary.value, baseline.value)
  }

  // ---- file operations ----

  /** `move_to_history` renames a file or a whole tree into a directory of its own in the history. */
  function MoveToHistory(s: Store, root: RelPath): Store {
    s.(disk := map p | p in s.disk && !AtOrUnder(p, root) :: s.disk[p],
       history := s.history +
         (set p | p in s.disk && AtOrUnder(p, root) && s.disk[p].Content? :: Stored(p, s.disk[p].hash)))
  }

  /** `copy_file_verified`: parents first, then a copy under another name, its hash, and the rename. */
  predicate Copyable(s: Store, dest: RelPath, source: Option<Entry>, hash: Option<Hash>, status: HashStatus) {
    source.Some? && source.value.Content? &&
    (status == Verified ==> hash == Some(source.value.hash)) &&
    (forall q | q in ParentPaths(dest) :: q in s.disk ==> s.disk[q].Folder?) &&
    (dest in s.disk ==> s.disk[dest].Content?)
  }

  function CopyTo(s: Store, dest: RelPath, source: Entry): Store {
    var parents := map q | q in ParentPaths(dest) :: Folder;
    s.(disk := s.disk + parents + map[dest := source])
  }

  // ---- the three operations; `reach` is the number of fallible steps that succeed ----

  function ReturnedBaseline(path: RelPath, change: PendingReturnChange, size: int, now: int): SyncBaseline {
    SyncBaseline(path, change.secondaryHash, change.secondaryHashStatus, size, size, change.secondaryModifiedMs,
                 change.secondaryHash, change.secondaryHashStatus, change.secondaryModifiedMs, now)
  }

  /** The baseline and the pending row, in that order. */
  function Forget(s: Store, path: RelPath, reach: nat): Store {
    if reach == 0 then s
    else if reach == 1 then s.(baselines := s.baselines - {path})
    else s.(baselines := s.baselines - {path}, pending := s.pending - {path})
  }

  function Record(s: Store, path: RelPath, b: SyncBaseline, pendingPath: RelPath, reach: nat): Store {
    if reach == 0 then s
    else if reach == 1 then s.(baselines := s.baselines[path := b])
    else s.(baselines := s.baselines[path := b], pending := s.pending - {pendingPath})
  }

  function Less(n: nat, k: nat): nat { if n >= k then n - k else 0 }

  /** Storage check, move, history row, then the tables. */
  function ReturnDelete(s: Store, path: RelPath, reach: nat): (Store, bool) {
    if path !in s.disk then (Forget(s, path, reach), reach >= 2)
    else if reach < 2 then (s, false)
    else (Forget(MoveToHistory(s, path), path, Less(reach, 3)), reach >= 5)
  }

  function ReturnCopy(s: Store, path: RelPath, change: PendingReturnChange, source: Option<Entry>, now: int, reach: nat)
    : (Store, bool)
  {
    if reach == 0 || !Copyable(s, path, source, change.secondaryHash, change.secondaryHashStatus) then (s, false)
    else
      var b := ReturnedBaseline(path, change, source.value.size, now);
      (Record(CopyTo(s, path, source.value), path, b, path, reach - 1), reach >= 3)
  }

  /** What one call of `execute_return_sync` works from: the pending rows and baselines it loaded, the scan it
      was given, and the Secondary's copies. */
  datatype Inputs = Inputs(pending: map<RelPath, PendingReturnChange>, baselines: map<RelPath, SyncBaseline>,
                           scan: map<RelPath, FileSnapshot>, secondary: map<RelPath, Entry>, now: int)

  function ReturnOne(s: Store, inputs: Inputs, path: RelPath, reach: nat): (Store, bool) {
    if path !in inputs.pending then (s, false)
    else
      var change := inputs.pending[path];
      if Conflicts(change, Lookup(inputs.scan, path), Lookup(inputs.baselines, path)) then (s, false)
      else if change.changeKind == Deleted then ReturnDelete(s, path, reach)
      else ReturnCopy(s, path, change, Lookup(inputs.secondary, path), inputs.now, reach)
  }

  function ReturnAll(s: Store, inputs: Inputs, paths: seq<RelPath>, reach: seq<nat>): (Store, seq<bool>)
    requires |reach| == |paths|
  {
    if paths == [] then (s, [])
    else
      var n := |paths| - 1;
      var (before, results) := ReturnAll(s, inputs, paths[..n], reach[..n]);
      var (after, ok) := ReturnOne(before, inputs, paths[n], reach[n]);
      (after, results + [ok])
  }

  /** Storage check and move to history when something is there, then the copy, then the tables. `observed` is
      what the new file is found to be. */
  function Overwrite(s: Store, path: RelPath, source: Option<Entry>, observed: SyncBaseline, reach: nat): (Store, bool)
  {
    if source.None? || source.value.Folder? then (s, false)
    else
      var occupied := path in s.disk;
      if occupied && reach < 2 then (s, false)
      else
        var moved := if occupied then MoveToHistory(s, path) else s;
        var rest := if occupied then Less(reach, 3) else reach;
        var change := Lookup(s.pending, path);
        var hash := if change.Some? then change.value.secondaryHash else None;
        var status := if change.Some? then change.value.secondaryHashStatus else Unavailable;
        if rest == 0 || !Copyable(moved, path, source, hash, status) then (moved, false)
        else (Record(CopyTo(moved, path, source.value), path, observed, path, rest - 1), rest >= 3)
  }

  /** `conflict` is the fresh name found by `conflict_filename`. */
  function KeepAsCopy(s: Store, path: RelPath, conflict: RelPath, source: Option<Entry>, observed: SyncBaseline,
                    reach: nat)
    : (Store, bool)
  {
    var change := Lookup(s.pending, path);
    var hash := if change.Some? then change.value.secondaryHash else None;
    var status := if change.Some? then change.value.secondaryHashStatus else Unavailable;
    if reach == 0 || !Copyable(s, conflict, source, hash, status) then (s, false)
    else (Record(CopyTo(s, conflict, source.value), conflict, observed, path, reach - 1), reach >= 3)
  }

  /** What the pending row says about the Secondary's copy. */
  method Expected(s: Store, path: RelPath) returns (hash: Option<Hash>, status: HashStatus)
    ensures hash == if path in s.pending then s.pending[path].secondaryHash else None
    ensures status == if path in s.pending then s.pending[path].secondaryHashStatus else Unavailable
  {
    hash, status := None, Unavailable;
    if path in s.pending {
      hash, status := s.pending[path].secondaryHash, s.pending[path].secondaryHashStatus;
    }
  }

  // ---- the same, in place ----

  class PrimaryFolder {
    var store: Store

    constructor (store: Store)
      ensures this.store == store
    {
      this.store := store;
    }

    method MoveAway(path: RelPath)
      modifies this
      ensures store == MoveToHistory(old(store), path)
    {
      var moved := set p | p in store.disk && AtOrUnder(p, path) && store.disk[p].Content? ::
        Stored(p, store.disk[p].hash);
      store := store.(history := store.history + moved,
                      disk := map p | p in store.disk && !AtOrUnder(p, path) :: store.disk[p]);
    }

    method ForgetRows(path: RelPath, reach: nat)
      modifies this
      ensures store == Forget(old(store), path, reach)
    {
      if reach == 0 {
        return;
      }
      store := store.(baselines := store.baselines - {path});
      if reach == 1 {
        return;
      }
      store := store.(pending := store.pending - {path});
    }

    method RecordRows(path: RelPath, b: SyncBaseline, pendingPath: RelPath, reach: nat)
      modifies this
      ensures store == Record(old(store), path, b, pendingPath, reach)
    {
      if reach == 0 {
        return;
      }
      store := store.(baselines := store.baselines[path := b]);
      if reach == 1 {
        return;
      }
      store := store.(pending := store.pending - {pendingPath});
    }

    method ReturnPath(inputs: Inputs, path: RelPath, reach: nat) returns (ok: bool)
      modifies this
      ensures (store, ok) == ReturnOne(old(store), inputs, path, reach)
    {
      if path !in inputs.pending {
        return false;
      }
      var change := inputs.pending[path];
      if Conflicts(change, Lookup(inputs.scan, path), Lookup(inputs.baselines, path)) {
        return false;
      }
      if change.changeKind == Deleted {
        var left := reach;
        if path in store.disk {
          if reach < 2 {
            return false;
          }
          MoveAway(path);
          left := Less(reach, 3);
        }
        ForgetRows(path, left);
        return left >= 2;
      }
      var source := Lookup(inputs.secondary, path);
      if reach == 0 || !Copyable(store, path, source, change.secondaryHash, change.secondaryHashStatus) {
        return false;
      }
      CopyIn(path, source.value);
      RecordRows(path, ReturnedBaseline(path, change, source.value.size, inputs.now), path, reach - 1);
      ok := reach >= 3;
    }

    method CopyIn(dest: RelPath, source: Entry)
      modifies this
      ensures store == CopyTo(old(store), dest, source)
    {
      var parents := map q | q in ParentPaths(dest) :: Folder;
      var disk := (store.disk + parents)[dest := source];
      assert disk == store.disk + parents + map[dest := source];
      store := store.(disk := disk);
    }

    /** `execute_confirmed_overwrite`. */
    method OverwritePath(path: RelPath, source: Option<Entry>, observed: SyncBaseline, reach: nat) returns (ok: bool)
      modifies this
      ensures (store, ok) == Overwrite(old(store), path, source, observed, reach)
    {
      if source.None? || source.value.Folder? {
        return false;
      }
      var hash, status := Expected(store, path);
      var left := reach;
      if path in store.disk {
        if reach < 2 {
          return false;
        }
        MoveAway(path);
        left := Less(reach, 3);
      }
      if left == 0 || !Copyable(store, path, source, hash, status) {
        return false;
      }
      CopyIn(path, source.value);
      RecordRows(path, observed, path, left - 1);
      ok := left >= 3;
    }

    /** `execute_conflict_keep_both`, under the name that was found to be free. */
    method KeepBothAt(path: RelPath, conflict: RelPath, source: Option<Entry>, observed: SyncBaseline, reach: nat)
      returns (ok: bool)
      modifies this
      ensures (store, ok) == KeepAsCopy(old(store), path, conflict, source, observed, reach)
    {
      var hash, status := Expected(store, path);
      if reach == 0 || !Copyable(store, conflict, source, hash, status) {
        return false;
      }
      CopyIn(conflict, source.value);
      RecordRows(conflict, observed, path, reach - 1);
      ok := reach >= 3;
    }

    /** `execute_return_sync`: one path after the other, each succeeding or failing on its own. */
    method ExecuteReturnSync(inputs: Inputs, paths: seq<RelPath>, reach: seq<nat>) returns (results: seq<bool>)
      requires |reach| == |paths|
      modifies this
      ensures (store, results) == ReturnAll(old(store), inputs, paths, reach)
    {
      results := [];
      for i := 0 to |paths|
        invariant (store, results) == ReturnAll(old(store), inputs, paths[..i], reach[..i])
      {
        assert paths[..i + 1][..i] == paths[..i] && reach[..i + 1][..i] == reach[..i];
        var ok := ReturnPath(inputs, paths[i], reach[i]);
        results := results + [ok];
      }
      assert paths[..|paths|] == paths && reach[..|reach|] == reach;
    }
  }

  // ---- nothing is displaced beyond recovery ----

  predicate Has(s: Store, p: RelPath, h: Hash) { p in s.disk && s.disk[p].Content? && s.disk[p].hash == h }

  /** If there is a file, the scan saw it, and its hash is right if verified. */
  ghost predicate AccurateAt(scan: map<RelPath, FileSnapshot>, s: Store, p: RelPath) {
    forall h :: Has(s, p, h) ==>
      p in scan && !scan[p].deleted && (scan[p].hashStatus == Verified ==> scan[p].hash == Some(h))
  }

  /** The baselines of the paths at hand are those of the table. */
  ghost predicate Loaded(inputs: Inputs, paths: seq<RelPath>, s: Store) {
    forall i :: 0 <= i < |paths| ==> Lookup(inputs.baselines, paths[i]) == Lookup(s.baselines, paths[i])
  }

  ghost predicate InBaseline(baselines: map<RelPath, SyncBaseline>, p: RelPath, h: Hash) {
    p in baselines && baselines[p].primaryHash == Some(h)
  }

  /** The comparison that allowed a return was one of hashes. */
  ghost predicate HashChecked(inputs: Inputs, p: RelPath) {
    p in inputs.scan && p in inputs.baselines && BothVerified(inputs.scan[p], inputs.baselines[p])
  }

  lemma MoveKeepsVersions(s: Store, root: RelPath, p: RelPath, h: Hash)
    requires Has(s, p, h)
    ensures Has(MoveToHistory(s, root), p, h) || Stored(p, h) in MoveToHistory(s, root).history
  {}

  lemma CopyKeepsOthers(s: Store, dest: RelPath, source: Entry, p: RelPath, h: Hash)
    requires p != dest && Has(s, p, h) && forall q :: q in ParentPaths(dest) && q in s.disk ==> s.disk[q].Folder?
    ensures Has(CopyTo(s, dest, source), p, h)
  {}

  lemma CopyAddsNothingElse(s: Store, dest: RelPath, source: Entry, p: RelPath, h: Hash)
    requires p != dest && Has(CopyTo(s, dest, source), p, h)
    ensures Has(s, p, h)
  {}

  /** One path of a return: every other version stays where it is or goes to the history; and files appear
      nowhere but at the path itself. */
  lemma ReturnOneKeeps(s: Store, inputs: Inputs, path: RelPath, reach: nat, p: RelPath, h: Hash)
    ensures var t := ReturnOne(s, inputs, path, reach).0;
            s.history <= t.history && (p != path && Has(t, p, h) ==> Has(s, p, h)) &&
            (Has(s, p, h) ==>
               Has(t, p, h) || Stored(p, h) in t.history ||
               (p == path && path in inputs.pending &&
                !Conflicts(inputs.pending[path], Lookup(inputs.scan, path), Lookup(inputs.baselines, path))))
  {
    var change := Lookup(inputs.pending, path);
    if change.Some? && !Conflicts(change.value, Lookup(inputs.scan, path), Lookup(inputs.baselines, path)) {
      if change.value.changeKind == Deleted {
        if Has(s, p, h) {
          MoveKeepsVersions(s, path, p, h);
        }
      } else {
        var source := Lookup(inputs.secondary, path);
        if Copyable(s, path, source, change.value.secondaryHash, change.value.secondaryHashStatus) && p != path {
          if Has(s, p, h) {
            CopyKeepsOthers(s, path, source.value, p, h);
          }
          if Has(CopyTo(s, path, source.value), p, h) {
            CopyAddsNothingElse(s, path, source.value, p, h);
          }
        }
      }
    }
  }

  /** A whole call, stopped or failing anywhere, in a folder of which the scan need only be right about the
      returned paths: a version that is gone afterwards is in the history, or was
      the baseline's by its hash, or was let through by size and time because a hash was missing. */
  lemma {:induction false} ReturnDisplacesNothingUnrecoverable(s: Store, inputs: Inputs, paths: seq<RelPath>,
                                                               reach: seq<nat>, p: RelPath, h: Hash)
    requires |reach| == |paths|
    requires Loaded(inputs, paths, s) && (p in paths ==> AccurateAt(inputs.scan, s, p))
    requires Has(s, p, h)
    ensures var t := ReturnAll(s, inputs, paths, reach).0;
            s.history <= t.history &&
            (Has(t, p, h) || Stored(p, h) in t.history || InBaseline(s.baselines, p, h) || !HashChecked(inputs, p))
  {
    if paths != [] {
      var n := |paths| - 1;
      var before := ReturnAll(s, inputs, paths[..n], reach[..n]).0;
      ReturnDisplacesNothingUnrecoverable(s, inputs, paths[..n], reach[..n], p, h);
      ReturnOneKeeps(before, inputs, paths[n], reach[n], p, h);
    }
  }

  /** A confirmed overwrite puts whatever it displaces into the history first. */
  lemma OverwriteDisplacesNothing(s: Store, path: RelPath, source: Option<Entry>, observed: SyncBaseline, reach: nat,
                                  p: RelPath, h: Hash)
    requires Has(s, p, h)
    ensures var t := Overwrite(s, path, source, observed, reach).0;
            s.history <= t.history && (Has(t, p, h) || Stored(p, h) in t.history)
  {
    if path in s.disk {
      MoveKeepsVersions(s, path, p, h);
      assert path !in MoveToHistory(s, path).disk;
      if Has(MoveToHistory(s, path), p, h) {
        CopyIntoGap(MoveToHistory(s, path), path, source, p, h);
      }
    } else {
      CopyIntoGap(s, path, source, p, h);
    }
  }

  /** A copy to a free path leaves every other file alone. */
  lemma CopyIntoGap(s: Store, dest: RelPath, source: Option<Entry>, p: RelPath, h: Hash)
    requires dest !in s.disk && Has(s, p, h)
    ensures forall hash: Option<Hash>, status: HashStatus :: Copyable(s, dest, source, hash, status) ==>
              Has(CopyTo(s, dest, source.value), p, h) && CopyTo(s, dest, source.value).history == s.history
  {
    forall hash: Option<Hash>, status: HashStatus | Copyable(s, dest, source, hash, status)
      ensures Has(CopyTo(s, dest, source.value), p, h) && CopyTo(s, dest, source.value).history == s.history
    {
      CopyKeepsOthers(s, dest, source.value, p, h);
    }
  }

  /** Keep-both under a fresh name displaces nothing at all. */
  lemma KeepBothDisplacesNothing(s: Store, path: RelPath, conflict: RelPath, source: Option<Entry>,
                                 observed: SyncBaseline, reach: nat, p: RelPath, h: Hash)
    requires conflict !in s.disk && Has(s, p, h)
    ensures var t := KeepAsCopy(s, path, conflict, source, observed, reach).0;
            t.history == s.history && Has(t, p, h)
  {
    if source.Some? && (forall q :: q in ParentPaths(conflict) && q in s.disk ==> s.disk[q].Folder?) {
      CopyKeepsOthers(s, conflict, source.value, p, h);
    }
  }

  /** What a reported success means: the change has been carried out, and is no longer pending. */
  lemma SuccessfulReturn(s: Store, inputs: Inputs, path: RelPath, reach: nat)
    requires ReturnOne(s, inputs, path, reach).1
    ensures var t := ReturnOne(s, inputs, path, reach).0;
            path in inputs.pending && path !in t.pending &&
            var change := inputs.pending[path];
            if change.changeKind == Deleted then
              path !in t.baselines && path !in t.disk &&
              (path in s.disk ==> forall q :: q in t.disk ==> !AtOrUnder(q, path)) &&
              t.baselines == s.baselines - {path} && t.pending == s.pending - {path}
            else
              path in inputs.secondary && path in t.disk && t.disk[path] == inputs.secondary[path] &&
              InBaselineAs(t, path, change.secondaryHash) &&
              (change.secondaryHashStatus == Verified ==> change.secondaryHash == Some(t.disk[path].hash)) &&
              t.pending == s.pending - {path} &&
              t.baselines == s.baselines[path :=
                SyncBaseline(path, change.secondaryHash, change.secondaryHashStatus, t.disk[path].size,
                             t.disk[path].size, change.secondaryModifiedMs, change.secondaryHash,
                             change.secondaryHashStatus, change.secondaryModifiedMs, inputs.now)]
  {
    var change := inputs.pending[path];
    if change.changeKind != Deleted {
      var source := Lookup(inputs.secondary, path);
      assert CopyTo(s, path, source.value).disk[path] == source.value;
    }
  }

  /** A call handles its paths one after the other, whatever happens to each: the result of each is that of its own
      return in the folder as the earlier ones have left it. */
  lemma {:induction false} ReturnedOneByOne(s: Store, inputs: Inputs, paths: seq<RelPath>, reach: seq<nat>, i: nat)
    requires |reach| == |paths| && i < |paths|
    ensures |ReturnAll(s, inputs, paths, reach).1| == |paths|
    ensures var before := ReturnAll(s, inputs, paths[..i], reach[..i]).0;
            ReturnAll(s, inputs, paths, reach).1[i] == ReturnOne(before, inputs, paths[i], reach[i]).1 &&
            ReturnAll(s, inputs, paths[..i + 1], reach[..i + 1]).0 == ReturnOne(before, inputs, paths[i], reach[i]).0
  {
    var n := |paths| - 1;
    assert paths[..i + 1][..i] == paths[..i] && reach[..i + 1][..i] == reach[..i];
    ResultsAligned(s, inputs, paths[..n], reach[..n]);
    if i < n {
      ReturnedOneByOne(s, inputs, paths[..n], reach[..n], i);
      assert paths[..n][..i] == paths[..i] && reach[..n][..i] == reach[..i];
    }
  }

  lemma {:induction false} ResultsAligned(s: Store, inputs: Inputs, paths: seq<RelPath>, reach: seq<nat>)
    requires |reach| == |paths|
    ensures |ReturnAll(s, inputs, paths, reach).1| == |paths|
  {
    if paths != [] {
      ResultsAligned(s, inputs, paths[..|paths| - 1], reach[..|paths| - 1]);
    }
  }

  // ---- what is carried out ----

  /** The Secondary's copy is a file, of the hash that the pending row promises, and fits below the folders. */
  predicate Deliverable(s: Store, path: RelPath, dest: RelPath, source: Option<Entry>) {
    source.Some? && source.value.Content? &&
    (path in s.pending && s.pending[path].secondaryHashStatus == Verified ==>
       s.pending[path].secondaryHash == Some(source.value.hash)) &&
    forall q | q in ParentPaths(dest) :: q in s.disk ==> s.disk[q].Folder?
  }

  /** `dest` holds the copy below folders; elsewhere the folder is as it was, but for what lay at or under `gone`. */
  ghost predicate Delivered(s: Store, t: Store, dest: RelPath, entry: Entry, gone: Option<RelPath>) {
    dest in t.disk && t.disk[dest] == entry &&
    (forall q :: q in ParentPaths(dest) ==> q in t.disk && t.disk[q].Folder?) &&
    forall q :: q != dest && q !in ParentPaths(dest) ==>
      (q in t.disk <==> q in s.disk && !(gone.Some? && AtOrUnder(q, gone.value))) &&
      (q in t.disk && q in s.disk ==> t.disk[q] == s.disk[q])
  }

  lemma MovedIsDeliverable(s: Store, path: RelPath, source: Option<Entry>)
    ensures var moved := MoveToHistory(s, path);
            path !in moved.disk && (Deliverable(moved, path, path, source) <==> Deliverable(s, path, path, source))
  {
    forall q | q in ParentPaths(path)
      ensures !AtOrUnder(q, path)
    {
      ParentsAreShorter(path, q);
    }
  }

  /** A confirmed overwrite succeeds exactly if the copy can be delivered and no step fails: three, and three more
      where something has to be moved to the history first. */
  lemma OverwriteSucceedsExactly(s: Store, path: RelPath, source: Option<Entry>, observed: SyncBaseline, reach: nat)
    ensures Overwrite(s, path, source, observed, reach).1 <==>
            Deliverable(s, path, path, source) && reach >= if path in s.disk then 6 else 3
  {
    MovedIsDeliverable(s, path, source);
  }

  /** And then the copy is there, recorded, and nothing else has changed; what it displaced is in the history. */
  lemma SuccessfulOverwrite(s: Store, path: RelPath, source: Option<Entry>, observed: SyncBaseline, reach: nat)
    requires Overwrite(s, path, source, observed, reach).1
    ensures var t := Overwrite(s, path, source, observed, reach).0;
            source.Some? && Delivered(s, t, path, source.value, if path in s.disk then Some(path) else None) &&
            t.baselines == s.baselines[path := observed] && t.pending == s.pending - {path} &&
            forall v :: v in t.history <==>
              v in s.history || (path in s.disk && AtOrUnder(v.path, path) && Has(s, v.path, v.hash))
  {
    var moved := if path in s.disk then MoveToHistory(s, path) else s;
    OverwriteSucceedsExactly(s, path, source, observed, reach);
    OverwrittenStore(s, path, source, observed, reach);
    CopyIsDelivered(moved, path, source.value);
    if path in s.disk {
      DeliveredAfterMove(s, Overwrite(s, path, source, observed, reach).0, path, source.value);
    }
  }

  lemma DeliveredAfterMove(s: Store, t: Store, path: RelPath, entry: Entry)
    requires Delivered(MoveToHistory(s, path), t, path, entry, None)
    ensures Delivered(s, t, path, entry, Some(path))
  {}

  /** The three steps of a success. */
  lemma OverwrittenStore(s: Store, path: RelPath, source: Option<Entry>, observed: SyncBaseline, reach: nat)
    requires Overwrite(s, path, source, observed, reach).1
    ensures var t := Overwrite(s, path, source, observed, reach).0;
            var moved := if path in s.disk then MoveToHistory(s, path) else s;
            source.Some? && t.disk == CopyTo(moved, path, source.value).disk && t.history == moved.history &&
            t.baselines == s.baselines[path := observed] && t.pending == s.pending - {path}
  {}

  lemma CopyAt(s: Store, dest: RelPath, entry: Entry, q: RelPath)
    ensures var disk := CopyTo(s, dest, entry).disk;
            if q == dest then q in disk && disk[q] == entry
            else if q in ParentPaths(dest) then q in disk && disk[q].Folder?
            else (q in disk <==> q in s.disk) && (q in s.disk ==> disk[q] == s.disk[q])
  {}

  lemma CopyIsDelivered(s: Store, dest: RelPath, entry: Entry)
    ensures Delivered(s, CopyTo(s, dest, entry), dest, entry, None)
  {
    forall q | q in ParentPaths(dest)
      ensures q != dest
    {
      ParentsAreShorter(dest, q);
    }
    var disk := CopyTo(s, dest, entry).disk;
    forall q
      ensures if q == dest then q in disk && disk[q] == entry
              else if q in ParentPaths(dest) then q in disk && disk[q].Folder?
              else (q in disk <==> q in s.disk) && (q in s.disk ==> disk[q] == s.disk[q])
    {
      CopyAt(s, dest, entry, q);
    }
  }

  function Displaced(s: Store, path: RelPath, reach: nat): Store {
    if path in s.disk && reach >= 2 then MoveToHistory(s, path) else s
  }

  /** An overwrite that gets no further than the move, and one that gets to the copy. */
  lemma OverwriteStopsOrCopies(s: Store, path: RelPath, source: Option<Entry>, observed: SyncBaseline, reach: nat)
    requires source.Some? && source.value.Content?
    ensures var t, before := Overwrite(s, path, source, observed, reach).0, if path in s.disk then 3 else 0;
            if Deliverable(s, path, path, source) && reach > before then
              t == Record(CopyTo(Displaced(s, path, reach), path, source.value), path, observed, path,
                          reach - before - 1)
            else t == Displaced(s, path, reach)
  {
    MovedIsDeliverable(s, path, source);
  }

  /** How far a failing overwrite gets: the move after the storage check and itself, the copy after the history row,
      then the baseline, then the pending row. */
  lemma OverwriteSteps(s: Store, path: RelPath, source: Option<Entry>, observed: SyncBaseline, reach: nat)
    requires source.Some? && source.value.Content?
    ensures var t, before := Overwrite(s, path, source, observed, reach).0, if path in s.disk then 3 else 0;
            var copied, moved := Deliverable(s, path, path, source) && reach > before, path in s.disk && reach >= 2;
            t.history == (if moved then MoveToHistory(s, path).history else s.history) &&
            (copied ==> path in t.disk && t.disk[path] == source.value) &&
            (!copied ==> t.disk == if moved then MoveToHistory(s, path).disk else s.disk) &&
            t.baselines == (if copied && reach >= before + 2 then s.baselines[path := observed] else s.baselines) &&
            t.pending == if copied && reach >= before + 3 then s.pending - {path} else s.pending
  {
    OverwriteStopsOrCopies(s, path, source, observed, reach);
    var moved := Displaced(s, path, reach);
    assert moved.baselines == s.baselines && moved.pending == s.pending;
    CopyIsDelivered(moved, path, source.value);
  }

  /** Without the Secondary's file nothing is touched. */
  lemma OverwriteNeedsTheFile(s: Store, path: RelPath, source: Option<Entry>, observed: SyncBaseline, reach: nat)
    requires source.None? || source.value.Folder?
    ensures Overwrite(s, path, source, observed, reach) == (s, false)
  {}

  /** Keep-both succeeds exactly if the copy can be delivered to the free name and no step fails. */
  lemma KeepBothSucceedsExactly(s: Store, path: RelPath, conflict: RelPath, source: Option<Entry>,
                                observed: SyncBaseline, reach: nat)
    requires conflict !in s.disk
    ensures KeepAsCopy(s, path, conflict, source, observed, reach).1 <==>
            Deliverable(s, path, conflict, source) && reach >= 3
  {}

  /** And then the copy lies beside an untouched original, is recorded, and the pending row is gone. */
  lemma SuccessfulKeepBoth(s: Store, path: RelPath, conflict: RelPath, source: Option<Entry>, observed: SyncBaseline,
                           reach: nat)
    requires conflict !in s.disk && KeepAsCopy(s, path, conflict, source, observed, reach).1
    ensures var t := KeepAsCopy(s, path, conflict, source, observed, reach).0;
            source.Some? && Delivered(s, t, conflict, source.value, None) && t.history == s.history &&
            t.baselines == s.baselines[conflict := observed] && t.pending == s.pending - {path}
  {
    CopyIsDelivered(s, conflict, source.value);
  }

  /** The Primary has not moved on: its file is the one last synced, by the hashes if both are known, else by size
      and time; or it is gone, and the change is not a modification of something synced. */
  predicate Unchanged(change: PendingReturnChange, scan: map<RelPath, FileSnapshot>, base: map<RelPath, SyncBaseline>,
                      p: RelPath)
  {
    if p in scan && !scan[p].deleted then
      p in base &&
      if scan[p].hashStatus == Verified && base[p].primaryHashStatus == Verified && scan[p].hash.Some? &&
         base[p].primaryHash.Some?
      then scan[p].hash == base[p].primaryHash
      else scan[p].size == base[p].primarySize && scan[p].modifiedMs == base[p].primaryModifiedMs
    else change.changeKind == Modified ==> p !in base
  }

  /** A return succeeds exactly if the change is pending, the Primary has not moved on, the copy can be made, and no
      step fails. */
  lemma ReturnSucceedsExactly(s: Store, inputs: Inputs, path: RelPath, reach: nat)
    ensures ReturnOne(s, inputs, path, reach).1 <==>
            path in inputs.pending && Unchanged(inputs.pending[path], inputs.scan, inputs.baselines, path) &&
            var change, source := inputs.pending[path], Lookup(inputs.secondary, path);
            if change.changeKind == Deleted then reach >= if path in s.disk then 5 else 2
            else
              reach >= 3 && source.Some? && source.value.Content? &&
              (change.secondaryHashStatus == Verified ==> change.secondaryHash == Some(source.value.hash)) &&
              (forall q :: q in ParentPaths(path) && q in s.disk ==> s.disk[q].Folder?) &&
              (path in s.disk ==> s.disk[path].Content?)
  {
    if path in inputs.pending {
      ConflictsExactly(inputs.pending[path], inputs, path);
    }
  }

  lemma ConflictsExactly(change: PendingReturnChange, inputs: Inputs, path: RelPath)
    ensures Conflicts(change, Lookup(inputs.scan, path), Lookup(inputs.baselines, path)) <==>
            !Unchanged(change, inputs.scan, inputs.baselines, path)
  {}

  /** How far a failing return gets: a delete is moved after the storage check and itself, and its rows go after the
      history row; a copy is followed by its baseline and the pending row. */
  lemma ReturnSteps(s: Store, inputs: Inputs, path: RelPath, reach: nat)
    requires path in inputs.pending && Unchanged(inputs.pending[path], inputs.scan, inputs.baselines, path)
    ensures var t, change := ReturnOne(s, inputs, path, reach).0, inputs.pending[path];
            if change.changeKind == Deleted then
              var before := if path in s.disk then 3 else 0;
              t.disk == (if path in s.disk && reach >= 2 then MoveToHistory(s, path).disk else s.disk) &&
              t.history == (if path in s.disk && reach >= 2 then MoveToHistory(s, path).history else s.history) &&
              t.baselines == (if reach >= before + 1 then s.baselines - {path} else s.baselines) &&
              t.pending == if reach >= before + 2 then s.pending - {path} else s.pending
            else if reach == 0 then t == s
            else
              t.history == s.history &&
              (t.baselines == s.baselines || reach >= 2) && (t.pending == s.pending || reach >= 3)
  {
    ConflictsExactly(inputs.pending[path], inputs, path);
  }

  /** What a move takes out of the folder is in the history, version by version. */
  lemma MoveExactly(s: Store, root: RelPath)
    ensures var t := MoveToHistory(s, root);
            (forall q :: (q in t.disk <==> q in s.disk && q != root && !IsDescendant(q, root)) &&
               (q in t.disk ==> t.disk[q] == s.disk[q])) &&
            (forall v :: v in t.history <==>
               v in s.history || ((v.path == root || IsDescendant(v.path, root)) && Has(s, v.path, v.hash))) &&
            t.baselines == s.baselines && t.pending == s.pending
  {}

  ghost predicate InBaselineAs(s: Store, p: RelPath, hash: Option<Hash>) {
    p in s.baselines && s.baselines[p].primaryHash == hash && s.baselines[p].secondaryHash == hash
  }

  /** When an accurate scan shows a file, a return replaces it, without a copy in the history, exactly if its
      hash is the baseline's; or, where a hash is missing, if size and time happen to be: then a version that is
      stored nowhere else is lost. */
  lemma ReturnReplacesExactly(s: Store, inputs: Inputs, path: RelPath, reach: nat, h: Hash)
    requires Has(s, path, h) && AccurateAt(inputs.scan, s, path) && reach > 0
    requires path in inputs.pending && inputs.pending[path].changeKind != Deleted && path in inputs.baselines
    requires var change := inputs.pending[path];
             Copyable(s, path, Lookup(inputs.secondary, path), change.secondaryHash, change.secondaryHashStatus)
    requires inputs.secondary[path].hash != h
    ensures var t := ReturnOne(s, inputs, path, reach).0;
            var scanned, b := inputs.scan[path], inputs.baselines[path];
            t.history == s.history &&
            (!Has(t, path, h) <==>
               if BothVerified(scanned, b) then InBaseline(inputs.baselines, path, h)
               else scanned.size == b.primarySize && scanned.modifiedMs == b.primaryModifiedMs)
  {
    var source := Lookup(inputs.secondary, path).value;
    assert CopyTo(s, path, source).disk[path] == source;
  }

  /** The scan is taken before the return, and nothing is compared again when the copy is made. Of a file that is
      replaced after a comparison of hashes, the version was the baseline's exactly if the scan was still right. */
  lemma ReplacedWasTheBaselineExactly(s: Store, inputs: Inputs, path: RelPath, reach: nat, h: Hash)
    requires Has(s, path, h) && !Has(ReturnOne(s, inputs, path, reach).0, path, h) && HashChecked(inputs, path)
    requires !inputs.scan[path].deleted
    ensures InBaseline(inputs.baselines, path, h) <==> inputs.scan[path].hash == Some(h)
  {
    assert path in inputs.pending;
    assert !Conflicts(inputs.pending[path], Some(inputs.scan[path]), Some(inputs.baselines[path]));
  }

  /** A return of a created file checks nothing where the scan saw nothing: a file that has appeared there in
      the meantime is replaced, and no copy is kept. */
  lemma AppearedFileIsReplaced(s: Store, inputs: Inputs, path: RelPath, reach: nat, h: Hash)
    requires Has(s, path, h) && reach > 0 && path !in inputs.scan
    requires path in inputs.pending && inputs.pending[path].changeKind == Created
    requires var change := inputs.pending[path];
             Copyable(s, path, Lookup(inputs.secondary, path), change.secondaryHash, change.secondaryHashStatus)
    ensures var t := ReturnOne(s, inputs, path, reach).0;
            t.history == s.history && path in t.disk && t.disk[path] == inputs.secondary[path]
  {
    var source := Lookup(inputs.secondary, path).value;
    assert CopyTo(s, path, source).disk[path] == source;
  }

  // ---- any sequence of calls, with the world moving in between ----

  datatype Call =
    | World(disk: map<RelPath, Entry>, baselines: map<RelPath, SyncBaseline>,
            pending: map<RelPath, PendingReturnChange>)
    | ReturnCall(inputs: Inputs, paths: seq<RelPath>, reach: seq<nat>)
    | OverwriteCall(path: RelPath, source: Option<Entry>, observed: SyncBaseline, reached: nat)
    | KeepBothCall(path: RelPath, conflict: RelPath, source: Option<Entry>, observed: SyncBaseline, reached: nat)

  ghost predicate ValidCall(s: Store, c: Call) {
    match c
    case World(_, _, _) => true
    case ReturnCall(inputs, paths, reach) =>
      |reach| == |paths| && Loaded(inputs, paths, s)
    case OverwriteCall(_, _, _, _) => true
    case KeepBothCall(_, conflict, _, _, _) => conflict !in s.disk
  }

  ghost function Apply(s: Store, c: Call): Store
    requires ValidCall(s, c)
  {
    match c
    case World(disk, baselines, pending) => Store(disk, s.history, baselines, pending)
    case ReturnCall(inputs, paths, reach) => ReturnAll(s, inputs, paths, reach).0
    case OverwriteCall(path, source, observed, reached) => Overwrite(s, path, source, observed, reached).0
    case KeepBothCall(path, conflict, source, observed, reached) =>
      KeepAsCopy(s, path, conflict, source, observed, reached).0
  }

  /** `states[i]` is the state in front of call `i`. */
  ghost predicate IsRun(states: seq<Store>, calls: seq<Call>) {
    |states| == |calls| + 1 &&
    forall i :: 0 <= i < |calls| ==> ValidCall(states[i], calls[i]) && states[i + 1] == Apply(states[i], calls[i])
  }

  lemma HistoryGrows(s: Store, c: Call)
    requires ValidCall(s, c)
    ensures s.history <= Apply(s, c).history
  {
    match c
    case ReturnCall(inputs, paths, reach) => ReturnHistoryGrows(s, inputs, paths, reach);
    case _ =>
  }

  lemma {:induction false} ReturnHistoryGrows(s: Store, inputs: Inputs, paths: seq<RelPath>, reach: seq<nat>)
    requires |reach| == |paths|
    ensures s.history <= ReturnAll(s, inputs, paths, reach).0.history
  {
    if paths != [] {
      var n := |paths| - 1;
      ReturnHistoryGrows(s, inputs, paths[..n], reach[..n]);
      ReturnOneKeeps(ReturnAll(s, inputs, paths[..n], reach[..n]).0, inputs, paths[n], reach[n], "", "");
    }
  }

  lemma {:induction false} HistoryGrowsAlong(states: seq<Store>, calls: seq<Call>, i: nat, j: nat)
    requires IsRun(states, calls) && i <= j < |states|
    ensures states[i].history <= states[j].history
  {
    if i < j {
      HistoryGrowsAlong(states, calls, i, j - 1);
      HistoryGrows(states[j - 1], calls[j - 1]);
    }
  }

  /** Over any run: a version that some call displaces is in the history for good, or equalled its baseline at
      that moment, unless the return was allowed without comparing hashes. */
  lemma NothingUnrecoverable(states: seq<Store>, calls: seq<Call>, i: nat, p: RelPath, h: Hash)
    requires IsRun(states, calls) && i < |calls| && !calls[i].World?
    requires Has(states[i], p, h) && !Has(states[i + 1], p, h)
    requires calls[i].ReturnCall? && p in calls[i].paths ==> AccurateAt(calls[i].inputs.scan, states[i], p)
    ensures Stored(p, h) in states[|calls|].history ||
            (calls[i].ReturnCall? && (InBaseline(states[i].baselines, p, h) || !HashChecked(calls[i].inputs, p)))
  {
    HistoryGrowsAlong(states, calls, i + 1, |calls|);
    match calls[i]
    case ReturnCall(inputs, paths, reach) =>
      ReturnDisplacesNothingUnrecoverable(states[i], inputs, paths, reach, p, h);
    case OverwriteCall(path, source, observed, reached) =>
      OverwriteDisplacesNothing(states[i], path, source, observed, reached, p, h);
    case KeepBothCall(path, conflict, source, observed, reached) =>
      KeepBothDisplacesNothing(states[i], path, conflict, source, observed, reached, p, h);
    case World(_, _, _) =>
  }
}
