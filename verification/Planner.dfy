/** `plan_sync`: compare a scan with the stored baselines. */
module Planner {
  import opened Prelude
  import opened Paths
  import opened Model

  /** Hashes decide when both sides are verified; size and time decide otherwise. */
  predicate HasChanged(snap: FileSnapshot, baseline: SyncBaseline, role: DeviceRole) {
    var (hash, status, size, modified) :=
      match role
      case Primary =>
        (baseline.primaryHash, baseline.primaryHashStatus, baseline.primarySize, baseline.primaryModifiedMs)
      case Secondary =>
        (baseline.secondaryHash, baseline.secondaryHashStatus, baseline.secondarySize, baseline.secondaryModifiedMs);
    if snap.hashStatus == Verified && status == Verified && snap.hash.Some? && hash.Some?
    then snap.hash != hash
    else snap.size != size || snap.modifiedMs != modified
  }

  function ChangeDecision(role: DeviceRole): SyncDecision {
    match role case Primary => ApplyToSecondary case Secondary => MarkPendingReturn
  }

  function DeleteDecision(role: DeviceRole): SyncDecision {
    match role case Primary => MoveSecondaryToHistory case Secondary => MarkPendingReturn
  }

  predicate NeedsAction(snap: FileSnapshot, baselines: map<RelPath, SyncBaseline>, role: DeviceRole) {
    IsLive(snap) &&
    (snap.relativePath in baselines ==>
       !snap.kind.Directory? && HasChanged(snap, baselines[snap.relativePath], role))
  }

  function SnapshotAction(snap: FileSnapshot, baselines: map<RelPath, SyncBaseline>, role: DeviceRole)
    : Option<PlannedAction>
  {
    if !NeedsAction(snap, baselines, role) then None
    else
      var baseline := if snap.relativePath in baselines then Some(baselines[snap.relativePath]) else None;
      Some(PlannedAction(snap.relativePath, ChangeDecision(role), Some(snap), baseline))
  }

  function DeletionAction(baseline: SyncBaseline, live: map<RelPath, FileSnapshot>, role: DeviceRole)
    : Option<PlannedAction>
  {
    if baseline.relativePath in live then None
    else Some(PlannedAction(baseline.relativePath, DeleteDecision(role), None, Some(baseline)))
  }

  function SnapshotStep(baselines: map<RelPath, SyncBaseline>, role: DeviceRole)
    : FileSnapshot -> Option<PlannedAction>
  {
    (snap: FileSnapshot) => SnapshotAction(snap, baselines, role)
  }

  function DeletionStep(live: map<RelPath, FileSnapshot>, role: DeviceRole)
    : SyncBaseline -> Option<PlannedAction>
  {
    (baseline: SyncBaseline) => DeletionAction(baseline, live, role)
  }

  function IsDelete(): PlannedAction -> bool {
    (a: PlannedAction) => a.decision.MoveSecondaryToHistory?
  }

  function NotDelete(): PlannedAction -> bool {
    (a: PlannedAction) => !a.decision.MoveSecondaryToHistory?
  }

  function ShallownessKey(): PlannedAction -> int {
    (a: PlannedAction) => var d: int := Depth(a.relativePath); -d
  }

  /** What the final sort is for: deletes deepest first, everything else where it was.
      In every plan the deletes stand behind the rest already. */
  function DeepestDeletesFirst(actions: seq<PlannedAction>): seq<PlannedAction> {
    Filter(NotDelete(), actions) + SortBy(ShallownessKey(), Filter(IsDelete(), actions))
  }

  /** The comparison the code sorts with: only two deletes are ever told apart. */
  function Compare(left: PlannedAction, right: PlannedAction): int {
    if left.decision.MoveSecondaryToHistory? && right.decision.MoveSecondaryToHistory?
    then Depth(right.relativePath) - Depth(left.relativePath)
    else 0
  }

  /** A stable sort by insertion: `x` passes the actions that it compares less than. */
  function InsertByCompare(actions: seq<PlannedAction>, x: PlannedAction): seq<PlannedAction> {
    if actions == [] || Compare(x, actions[|actions| - 1]) >= 0 then actions + [x]
    else InsertByCompare(actions[..|actions| - 1], x) + [actions[|actions| - 1]]
  }

  function SortByCompare(actions: seq<PlannedAction>): seq<PlannedAction> {
    if actions == [] then []
    else InsertByCompare(SortByCompare(actions[..|actions| - 1]), actions[|actions| - 1])
  }

  lemma {:induction false} InsertDelete(applies: seq<PlannedAction>, deletes: seq<PlannedAction>, x: PlannedAction)
    requires (forall a :: a in applies ==> !a.decision.MoveSecondaryToHistory?) && OnlyDeletes(deletes)
    requires x.decision.MoveSecondaryToHistory?
    ensures InsertByCompare(applies + deletes, x) == applies + Insert(ShallownessKey(), deletes, x)
  {
    var all, n := applies + deletes, |deletes| - 1;
    if deletes == [] {
      assert all == applies;
      assert all != [] ==> all[|all| - 1] in applies;
    } else {
      assert all[|all| - 1] == deletes[n] && deletes[n] in deletes && all[..|all| - 1] == applies + deletes[..n];
      if Compare(x, deletes[n]) < 0 {
        InsertDelete(applies, deletes[..n], x);
      }
    }
  }

  lemma {:induction false} AppliesStay(applies: seq<PlannedAction>)
    requires forall a :: a in applies ==> !a.decision.MoveSecondaryToHistory?
    ensures SortByCompare(applies) == applies
  {
    if applies != [] {
      AppliesStay(applies[..|applies| - 1]);
      assert applies[|applies| - 1] in applies;
    }
  }

  /** The comparison is no order on such a list, yet sorting by insertion gives what it is meant to give: behind
      the applies, a delete is only ever compared with deletes, and stops at the first apply. */
  lemma {:induction false} InsertionSortsThePlan(applies: seq<PlannedAction>, deletes: seq<PlannedAction>)
    requires (forall a :: a in applies ==> !a.decision.MoveSecondaryToHistory?) && OnlyDeletes(deletes)
    ensures SortByCompare(applies + deletes) == applies + SortBy(ShallownessKey(), deletes)
  {
    if deletes == [] {
      AppliesStay(applies);
      assert applies + deletes == applies;
    } else {
      var n := |deletes| - 1;
      InsertionSortsThePlan(applies, deletes[..n]);
      SortedDeletes(deletes);
      InsertDelete(applies, SortBy(ShallownessKey(), deletes[..n]), deletes[n]);
      Regroup(applies, deletes);
    }
  }

  lemma Regroup(applies: seq<PlannedAction>, deletes: seq<PlannedAction>)
    requires deletes != []
    ensures var n := |deletes| - 1;
            applies + deletes == applies + deletes[..n] + [deletes[n]] && deletes == deletes[..n] + [deletes[n]]
  {}

  lemma SortedDeletes(deletes: seq<PlannedAction>)
    requires OnlyDeletes(deletes) && deletes != []
    ensures OnlyDeletes(SortBy(ShallownessKey(), deletes[..|deletes| - 1]))
    ensures deletes[|deletes| - 1].decision.MoveSecondaryToHistory?
  {
    SortFacts(ShallownessKey(), deletes[..|deletes| - 1]);
    assert deletes[|deletes| - 1] in deletes;
  }

  lemma DeletesFilter(deletes: seq<PlannedAction>)
    requires OnlyDeletes(deletes)
    ensures Filter(IsDelete(), deletes) == deletes && Filter(NotDelete(), deletes) == []
  {
    FilterAll(IsDelete(), deletes);
    FilterNone(NotDelete(), deletes);
  }

  lemma AppliesFilter(applies: seq<PlannedAction>)
    requires forall a :: a in applies ==> !a.decision.MoveSecondaryToHistory?
    ensures Filter(NotDelete(), applies) == applies && Filter(IsDelete(), applies) == []
  {
    FilterAll(NotDelete(), applies);
    FilterNone(IsDelete(), applies);
  }

  lemma InsertionSortIsDeepestFirst(applies: seq<PlannedAction>, deletes: seq<PlannedAction>)
    requires (forall a :: a in applies ==> !a.decision.MoveSecondaryToHistory?)
    requires OnlyDeletes(deletes) || forall a :: a in deletes ==> !a.decision.MoveSecondaryToHistory?
    ensures SortByCompare(applies + deletes) == DeepestDeletesFirst(applies + deletes)
  {
    FilterAppend(NotDelete(), applies, deletes);
    FilterAppend(IsDelete(), applies, deletes);
    AppliesFilter(applies);
    if OnlyDeletes(deletes) {
      DeletesFilter(deletes);
      InsertionSortsThePlan(applies, deletes);
      assert applies + [] == applies && [] + deletes == deletes;
    } else {
      AppliesFilter(deletes);
      AppliesStay(applies + deletes);
      assert SortBy(ShallownessKey(), [] + []) == [];
    }
  }

  function Plan(snaps: seq<FileSnapshot>, rows: seq<SyncBaseline>, role: DeviceRole): seq<PlannedAction> {
    DeepestDeletesFirst(
      FilterMap(SnapshotStep(BaselineIndex(rows), role), snaps) +
      FilterMap(DeletionStep(LiveIndex(snaps), role), rows))
  }

  method IndexBaselines(rows: seq<SyncBaseline>) returns (baselines: map<RelPath, SyncBaseline>)
    ensures baselines == BaselineIndex(rows)
  {
    baselines := map[];
    for i := 0 to |rows|
      invariant baselines == BaselineIndex(rows[..i])
    {
      assert rows[..i + 1][..i] == rows[..i];
      baselines := baselines[rows[i].relativePath := rows[i]];
    }
    assert rows[..|rows|] == rows;
  }

  method IndexLive(snaps: seq<FileSnapshot>) returns (live: map<RelPath, FileSnapshot>)
    ensures live == LiveIndex(snaps)
  {
    live := map[];
    for i := 0 to |snaps|
      invariant live == LiveIndex(snaps[..i])
    {
      assert snaps[..i + 1][..i] == snaps[..i];
      if IsLive(snaps[i]) {
        live := live[snaps[i].relativePath := snaps[i]];
      }
    }
    assert snaps[..|snaps|] == snaps;
  }

  method PlanSnapshot(snap: FileSnapshot, baselines: map<RelPath, SyncBaseline>, role: DeviceRole)
    returns (action: Option<PlannedAction>)
    ensures action == SnapshotAction(snap, baselines, role)
  {
    if snap.deleted || snap.isSymlink {
      return None;
    }
    var decision := Noop;
    if snap.relativePath in baselines {
      if snap.kind != Directory && HasChanged(snap, baselines[snap.relativePath], role) {
        decision := ChangeDecision(role);
      }
    } else {
      decision := ChangeDecision(role);
    }
    if decision == Noop {
      return None;
    }
    var baseline := if snap.relativePath in baselines then Some(baselines[snap.relativePath]) else None;
    action := Some(PlannedAction(snap.relativePath, decision, Some(snap), baseline));
  }

  method PlanSync(snaps: seq<FileSnapshot>, rows: seq<SyncBaseline>, role: DeviceRole)
    returns (actions: seq<PlannedAction>)
    ensures actions == Plan(snaps, rows, role)
  {
    var baselines := IndexBaselines(rows);
    var live := IndexLive(snaps);
    var applies := PlanSnapshots(snaps, baselines, role);
    var deletions := PlanDeletions(rows, live, role);
    StepDecisions(snaps, baselines, rows, live, role);
    InsertionSortIsDeepestFirst(applies, deletions);
    actions := SortActions(applies + deletions);
  }

  lemma StepDecisions(snaps: seq<FileSnapshot>, baselines: map<RelPath, SyncBaseline>, rows: seq<SyncBaseline>,
                      live: map<RelPath, FileSnapshot>, role: DeviceRole)
    ensures forall a :: a in FilterMap(SnapshotStep(baselines, role), snaps) ==> !a.decision.MoveSecondaryToHistory?
    ensures forall a :: a in FilterMap(DeletionStep(live, role), rows) ==> a.decision == DeleteDecision(role)
  {
    FilterMapMember(SnapshotStep(baselines, role), snaps);
    FilterMapMember(DeletionStep(live, role), rows);
  }

  /** The stable sort by the code's comparison, done by insertion. */
  method SortActions(actions: seq<PlannedAction>) returns (sorted: seq<PlannedAction>)
    ensures sorted == SortByCompare(actions)
  {
    sorted := [];
    for i := 0 to |actions|
      invariant sorted == SortByCompare(actions[..i])
    {
      assert actions[..i + 1][..i] == actions[..i];
      sorted := InsertByCompare(sorted, actions[i]);
    }
    assert actions[..|actions|] == actions;
  }

  method PlanSnapshots(snaps: seq<FileSnapshot>, baselines: map<RelPath, SyncBaseline>, role: DeviceRole)
    returns (actions: seq<PlannedAction>)
    ensures actions == FilterMap(SnapshotStep(baselines, role), snaps)
  {
    actions := [];
    for i := 0 to |snaps|
      invariant actions == FilterMap(SnapshotStep(baselines, role), snaps[..i])
    {
      assert snaps[..i + 1][..i] == snaps[..i];
      var action := PlanSnapshot(snaps[i], baselines, role);
      if action.Some? {
        actions := actions + [action.value];
      }
    }
    assert snaps[..|snaps|] == snaps;
  }

  method PlanDeletions(rows: seq<SyncBaseline>, live: map<RelPath, FileSnapshot>, role: DeviceRole)
    returns (actions: seq<PlannedAction>)
    ensures actions == FilterMap(DeletionStep(live, role), rows)
  {
    actions := [];
    for i := 0 to |rows|
      invariant actions == FilterMap(DeletionStep(live, role), rows[..i])
    {
      assert rows[..i + 1][..i] == rows[..i];
      if rows[i].relativePath !in live {
        actions := actions + [PlannedAction(rows[i].relativePath, DeleteDecision(role), None, Some(rows[i]))];
      }
    }
    assert rows[..|rows|] == rows;
  }

  /** A plan holds exactly the changed or new live entries and the baselines whose entry is gone. */
  lemma PlannedExactly(snaps: seq<FileSnapshot>, rows: seq<SyncBaseline>, role: DeviceRole, a: PlannedAction)
    ensures a in Plan(snaps, rows, role) <==>
            (exists i :: 0 <= i < |snaps| && SnapshotAction(snaps[i], BaselineIndex(rows), role) == Some(a)) ||
            (exists i :: 0 <= i < |rows| && DeletionAction(rows[i], LiveIndex(snaps), role) == Some(a))
  {
    var f, g := SnapshotStep(BaselineIndex(rows), role), DeletionStep(LiveIndex(snaps), role);
    var applies, deletes := FilterMap(f, snaps), FilterMap(g, rows);
    var all := applies + deletes;
    FilterMapMember(f, snaps);
    FilterMapMember(g, rows);
    FilterMember(NotDelete(), all, a);
    FilterMember(IsDelete(), all, a);
    SortFacts(ShallownessKey(), Filter(IsDelete(), all));
    assert a in all <==> a in applies || a in deletes;
    assert a in applies <==> exists i :: 0 <= i < |snaps| && f(snaps[i]) == Some(a);
    assert a in deletes <==> exists i :: 0 <= i < |rows| && g(rows[i]) == Some(a);
    assert forall i :: 0 <= i < |snaps| ==> f(snaps[i]) == SnapshotAction(snaps[i], BaselineIndex(rows), role);
    assert forall i :: 0 <= i < |rows| ==> g(rows[i]) == DeletionAction(rows[i], LiveIndex(snaps), role);
  }

  /** For either role: nothing is planned exactly when the scan and the baselines agree. */
  lemma QuiescentExactly(snaps: seq<FileSnapshot>, rows: seq<SyncBaseline>, role: DeviceRole)
    ensures Plan(snaps, rows, role) == [] <==>
            (forall i :: 0 <= i < |snaps| ==> !NeedsAction(snaps[i], BaselineIndex(rows), role)) &&
            (forall i :: 0 <= i < |rows| ==> rows[i].relativePath in LiveIndex(snaps))
  {
    var plan := Plan(snaps, rows, role);
    if plan == [] {
      forall i | 0 <= i < |snaps| ensures !NeedsAction(snaps[i], BaselineIndex(rows), role) {
        var o := SnapshotAction(snaps[i], BaselineIndex(rows), role);
        if o.Some? { PlannedExactly(snaps, rows, role, o.value); }
      }
      forall i | 0 <= i < |rows| ensures rows[i].relativePath in LiveIndex(snaps) {
        var o := DeletionAction(rows[i], LiveIndex(snaps), role);
        if o.Some? { PlannedExactly(snaps, rows, role, o.value); }
      }
    } else {
      PlannedExactly(snaps, rows, role, plan[0]);
    }
  }

  // ---- the same in the fields of the records ----

  /** Two hashes that were both computed decide alone; otherwise size or time, on the side of the role. */
  predicate Differs(snap: FileSnapshot, hash: Option<Hash>, status: HashStatus, size: int, modifiedMs: int) {
    if snap.hashStatus == Verified && status == Verified && snap.hash.Some? && hash.Some? then snap.hash != hash
    else snap.size != size || snap.modifiedMs != modifiedMs
  }

  lemma PlannedForPath(snaps: seq<FileSnapshot>, rows: seq<SyncBaseline>, role: DeviceRole, i: nat)
    requires UniqueSnapshots(snaps) && i < |snaps| && !snaps[i].deleted && !snaps[i].isSymlink
    ensures (exists a :: a in Plan(snaps, rows, role) && a.relativePath == snaps[i].relativePath) <==>
            SnapshotAction(snaps[i], BaselineIndex(rows), role).Some?
  {
    LiveIndexFacts(snaps);
    var o := SnapshotAction(snaps[i], BaselineIndex(rows), role);
    if o.Some? {
      PlannedExactly(snaps, rows, role, o.value);
    }
    if a :| a in Plan(snaps, rows, role) && a.relativePath == snaps[i].relativePath {
      PlannedExactly(snaps, rows, role, a);
      if k :| 0 <= k < |snaps| && SnapshotAction(snaps[k], BaselineIndex(rows), role) == Some(a) {
        assert snaps[k].relativePath == snaps[i].relativePath;
      }
    }
  }

  /** When a file that has a baseline is planned: by its hash if both are verified, else by size or time; the Primary
      compares with the baseline's primary side, the Secondary with its own. */
  lemma ChangedFileIsPlannedExactly(snaps: seq<FileSnapshot>, rows: seq<SyncBaseline>, role: DeviceRole, i: nat, j: nat)
    requires UniqueSnapshots(snaps) && UniqueBaselines(rows) && i < |snaps| && j < |rows|
    requires !snaps[i].deleted && !snaps[i].isSymlink && snaps[i].kind == File
    requires rows[j].relativePath == snaps[i].relativePath
    ensures var snap, b := snaps[i], rows[j];
            var planned := exists a :: a in Plan(snaps, rows, role) && a.relativePath == snap.relativePath;
            var (hash, status, size, modifiedMs) :=
              if role == Primary then (b.primaryHash, b.primaryHashStatus, b.primarySize, b.primaryModifiedMs)
              else (b.secondaryHash, b.secondaryHashStatus, b.secondarySize, b.secondaryModifiedMs);
            (snap.hashStatus == Verified && status == Verified && snap.hash.Some? && hash.Some? ==>
               (planned <==> snap.hash != hash)) &&
            (!(snap.hashStatus == Verified && status == Verified && snap.hash.Some? && hash.Some?) ==>
               (planned <==> snap.size != size || snap.modifiedMs != modifiedMs))
  {
    BaselineIndexFacts(rows);
    PlannedForPath(snaps, rows, role, i);
  }

  /** What the plan asks for, record by record: a live entry without a row is sent, a live file whose row differs is
      sent with its row, a row without a live entry is deleted; and nothing else. */
  lemma PlanInFields(snaps: seq<FileSnapshot>, rows: seq<SyncBaseline>, role: DeviceRole, a: PlannedAction)
    requires UniqueSnapshots(snaps) && UniqueBaselines(rows)
    ensures a in Plan(snaps, rows, role) <==>
            (exists i :: 0 <= i < |snaps| && AsksForNew(snaps[i], rows, role, a)) ||
            (exists i, j :: 0 <= i < |snaps| && 0 <= j < |rows| && AsksForChanged(snaps[i], rows[j], role, a)) ||
            (exists j :: 0 <= j < |rows| && AsksForDelete(snaps, rows[j], role, a))
  {
    PlannedExactly(snaps, rows, role, a);
    BaselineIndexFacts(rows);
    LiveIndexFacts(snaps);
    forall i | 0 <= i < |snaps|
      ensures SnapshotAction(snaps[i], BaselineIndex(rows), role) == Some(a) <==>
              AsksForNew(snaps[i], rows, role, a) ||
              exists j :: 0 <= j < |rows| && AsksForChanged(snaps[i], rows[j], role, a)
    {
      SnapshotInFields(snaps[i], rows, role, a);
    }
    forall j | 0 <= j < |rows|
      ensures DeletionAction(rows[j], LiveIndex(snaps), role) == Some(a) <==> AsksForDelete(snaps, rows[j], role, a)
    {
      DeletionInFields(snaps, rows[j], role, a);
    }
  }

  predicate NewEntry(snap: FileSnapshot, role: DeviceRole, a: PlannedAction) {
    !snap.deleted && !snap.isSymlink &&
    a == PlannedAction(snap.relativePath, if role == Primary then ApplyToSecondary else MarkPendingReturn, Some(snap),
                       None)
  }

  ghost predicate AsksForNew(snap: FileSnapshot, rows: seq<SyncBaseline>, role: DeviceRole, a: PlannedAction) {
    NewEntry(snap, role, a) && forall j :: 0 <= j < |rows| ==> rows[j].relativePath != snap.relativePath
  }

  predicate AsksForChanged(snap: FileSnapshot, b: SyncBaseline, role: DeviceRole, a: PlannedAction) {
    !snap.deleted && !snap.isSymlink && snap.kind == File && b.relativePath == snap.relativePath &&
    (if role == Primary then Differs(snap, b.primaryHash, b.primaryHashStatus, b.primarySize, b.primaryModifiedMs)
     else Differs(snap, b.secondaryHash, b.secondaryHashStatus, b.secondarySize, b.secondaryModifiedMs)) &&
    a == PlannedAction(snap.relativePath, if role == Primary then ApplyToSecondary else MarkPendingReturn, Some(snap),
                       Some(b))
  }

  ghost predicate AsksForDelete(snaps: seq<FileSnapshot>, b: SyncBaseline, role: DeviceRole, a: PlannedAction) {
    (forall i :: 0 <= i < |snaps| && !snaps[i].deleted && !snaps[i].isSymlink ==>
     snaps[i].relativePath != b.relativePath) &&
    a == PlannedAction(b.relativePath, if role == Primary then MoveSecondaryToHistory else MarkPendingReturn, None,
                       Some(b))
  }

  lemma SnapshotWithRow(snap: FileSnapshot, base: map<RelPath, SyncBaseline>, role: DeviceRole, a: PlannedAction)
    requires snap.relativePath in base && base[snap.relativePath].relativePath == snap.relativePath
    ensures SnapshotAction(snap, base, role) == Some(a) <==> AsksForChanged(snap, base[snap.relativePath], role, a)
  {}

  lemma SnapshotWithoutRow(snap: FileSnapshot, base: map<RelPath, SyncBaseline>, role: DeviceRole, a: PlannedAction)
    requires snap.relativePath !in base
    ensures SnapshotAction(snap, base, role) == Some(a) <==> NewEntry(snap, role, a)
  {}

  lemma SnapshotInFields(snap: FileSnapshot, rows: seq<SyncBaseline>, role: DeviceRole, a: PlannedAction)
    requires UniqueBaselines(rows)
    ensures SnapshotAction(snap, BaselineIndex(rows), role) == Some(a) <==>
            AsksForNew(snap, rows, role, a) || exists j :: 0 <= j < |rows| && AsksForChanged(snap, rows[j], role, a)
  {
    BaselineIndexFacts(rows);
    if snap.relativePath in BaselineIndex(rows) {
      var j :| 0 <= j < |rows| && rows[j] == BaselineIndex(rows)[snap.relativePath];
      SnapshotWithRow(snap, BaselineIndex(rows), role, a);
    } else {
      SnapshotWithoutRow(snap, BaselineIndex(rows), role, a);
    }
  }

  lemma DeletionInFields(snaps: seq<FileSnapshot>, b: SyncBaseline, role: DeviceRole, a: PlannedAction)
    requires UniqueSnapshots(snaps)
    ensures DeletionAction(b, LiveIndex(snaps), role) == Some(a) <==> AsksForDelete(snaps, b, role, a)
  {
    LiveIndexFacts(snaps);
    if b.relativePath in LiveIndex(snaps) {
      var i :| 0 <= i < |snaps| && snaps[i] == LiveIndex(snaps)[b.relativePath];
      assert !snaps[i].deleted && !snaps[i].isSymlink && snaps[i].relativePath == b.relativePath;
    }
  }

  /** Nothing is planned exactly when every live entry has a row that it does not differ from, and every row a live
      entry; a directory never differs. */
  lemma QuiescentInFields(snaps: seq<FileSnapshot>, rows: seq<SyncBaseline>, role: DeviceRole)
    requires UniqueSnapshots(snaps) && UniqueBaselines(rows)
    ensures Plan(snaps, rows, role) == [] <==>
            (forall i :: 0 <= i < |snaps| && !snaps[i].deleted && !snaps[i].isSymlink ==>
               exists j :: 0 <= j < |rows| && Settles(rows[j], snaps[i], role)) &&
            (forall j :: 0 <= j < |rows| ==>
               exists i :: 0 <= i < |snaps| && IsLiveAt(snaps[i], rows[j].relativePath))
  {
    QuiescentExactly(snaps, rows, role);
    BaselineIndexFacts(rows);
    LiveIndexFacts(snaps);
    forall i | 0 <= i < |snaps|
      ensures !NeedsAction(snaps[i], BaselineIndex(rows), role) <==>
              snaps[i].deleted || snaps[i].isSymlink || exists j :: 0 <= j < |rows| && Settles(rows[j], snaps[i], role)
    {
      SettledInFields(snaps[i], rows, role);
    }
    forall j | 0 <= j < |rows|
      ensures rows[j].relativePath in LiveIndex(snaps) <==>
              exists i :: 0 <= i < |snaps| && IsLiveAt(snaps[i], rows[j].relativePath)
    {
      if rows[j].relativePath in LiveIndex(snaps) {
        var i :| 0 <= i < |snaps| && snaps[i] == LiveIndex(snaps)[rows[j].relativePath];
        assert IsLiveAt(snaps[i], rows[j].relativePath);
      }
    }
  }

  predicate IsLiveAt(snap: FileSnapshot, p: RelPath) { !snap.deleted && !snap.isSymlink && snap.relativePath == p }

  predicate Settles(b: SyncBaseline, snap: FileSnapshot, role: DeviceRole) {
    b.relativePath == snap.relativePath &&
    (snap.kind == File ==>
       if role == Primary then !Differs(snap, b.primaryHash, b.primaryHashStatus, b.primarySize, b.primaryModifiedMs)
       else !Differs(snap, b.secondaryHash, b.secondaryHashStatus, b.secondarySize, b.secondaryModifiedMs))
  }

  lemma SettledInFields(snap: FileSnapshot, rows: seq<SyncBaseline>, role: DeviceRole)
    requires UniqueBaselines(rows)
    ensures !NeedsAction(snap, BaselineIndex(rows), role) <==>
            snap.deleted || snap.isSymlink || exists j :: 0 <= j < |rows| && Settles(rows[j], snap, role)
  {
    BaselineIndexFacts(rows);
    if snap.relativePath in BaselineIndex(rows) {
      var j :| 0 <= j < |rows| && rows[j] == BaselineIndex(rows)[snap.relativePath];
      SettledWithRow(snap, BaselineIndex(rows), role);
    }
  }

  lemma SettledWithRow(snap: FileSnapshot, base: map<RelPath, SyncBaseline>, role: DeviceRole)
    requires snap.relativePath in base && base[snap.relativePath].relativePath == snap.relativePath
    ensures !NeedsAction(snap, base, role) <==>
            snap.deleted || snap.isSymlink || Settles(base[snap.relativePath], snap, role)
  {}

  /** A planned delete of an entry runs before the delete of a directory above it. */
  lemma DeletesRunChildFirst(snaps: seq<FileSnapshot>, rows: seq<SyncBaseline>,
                             child: PlannedAction, parent: PlannedAction)
    requires child in Plan(snaps, rows, Primary) && parent in Plan(snaps, rows, Primary)
    requires child.decision.MoveSecondaryToHistory? && parent.decision.MoveSecondaryToHistory?
    requires WellFormed(child.relativePath) && IsDescendant(child.relativePath, parent.relativePath)
    ensures Precedes(Plan(snaps, rows, Primary), child, parent)
  {
    DescendantFacts(child.relativePath, parent.relativePath);
    var all := FilterMap(SnapshotStep(BaselineIndex(rows), Primary), snaps) +
               FilterMap(DeletionStep(LiveIndex(snaps), Primary), rows);
    DeeperFirst(all, child, parent);
  }

  lemma DeeperFirst(all: seq<PlannedAction>, child: PlannedAction, parent: PlannedAction)
    requires child in DeepestDeletesFirst(all) && parent in DeepestDeletesFirst(all)
    requires child.decision.MoveSecondaryToHistory? && parent.decision.MoveSecondaryToHistory?
    requires Depth(child.relativePath) > Depth(parent.relativePath)
    ensures Precedes(DeepestDeletesFirst(all), child, parent)
  {
    var kept, key := Filter(NotDelete(), all), ShallownessKey();
    var sorted := SortBy(key, Filter(IsDelete(), all));
    FilterMember(NotDelete(), all, child);
    FilterMember(NotDelete(), all, parent);
    SortFacts(key, Filter(IsDelete(), all));
    assert child in sorted && parent in sorted;
    SmallerKeyFirst(key, sorted, child, parent);
    PrecedesAppended(kept, sorted, child, parent);
  }

  /** What a sort may rely on: "not greater" is transitive. */
  ghost predicate OrderedByCompare(actions: seq<PlannedAction>) {
    forall a, b, c :: a in actions && b in actions && c in actions && Compare(a, b) <= 0 && Compare(b, c) <= 0 ==>
      Compare(a, c) <= 0
  }

  ghost predicate OnlyDeletes(actions: seq<PlannedAction>) {
    forall a :: a in actions ==> a.decision.MoveSecondaryToHistory?
  }

  ghost predicate DeletesAtOneDepth(actions: seq<PlannedAction>) {
    forall a, b ::
      a in actions && b in actions && a.decision.MoveSecondaryToHistory? && b.decision.MoveSecondaryToHistory?
      ==> Depth(a.relativePath) == Depth(b.relativePath)
  }

  /** The lists on which the comparison is an order: nothing but deletes, or deletes of one depth only. On any
      other list two deletes of different depth both compare equal to something that is not a delete. */
  lemma {:induction false} CompareOrdersExactly(actions: seq<PlannedAction>)
    ensures OrderedByCompare(actions) <==> OnlyDeletes(actions) || DeletesAtOneDepth(actions)
  {
    if OrderedByCompare(actions) && !OnlyDeletes(actions) {
      var other :| other in actions && !other.decision.MoveSecondaryToHistory?;
      forall a, b | a in actions && b in actions && a.decision.MoveSecondaryToHistory? &&
        b.decision.MoveSecondaryToHistory?
        ensures Depth(a.relativePath) == Depth(b.relativePath)
      {
        assert Compare(a, other) == 0 && Compare(other, b) == 0 && Compare(b, other) == 0 && Compare(other, a) == 0;
      }
    }
  }

  /** There the plan's order is what every stable sort by the comparison yields. Deletes alone are sorted, with
      no pair out of order and no equal pair swapped. */
  lemma DeletesAloneAreSorted(actions: seq<PlannedAction>)
    requires OnlyDeletes(actions)
    ensures var sorted := DeepestDeletesFirst(actions);
            multiset(sorted) == multiset(actions) &&
            (forall i, j :: 0 <= i < j < |sorted| ==> Compare(sorted[i], sorted[j]) <= 0) &&
            forall a, b :: Precedes(actions, a, b) && Compare(a, b) <= 0 ==> Precedes(sorted, a, b)
  {
    var sorted := SortBy(ShallownessKey(), actions);
    OnlyDeletesSorted(actions);
    SortFacts(ShallownessKey(), actions);
    assert forall i, j :: 0 <= i < j < |sorted| ==> Compare(sorted[i], sorted[j]) <= 0;
    forall a, b | Precedes(actions, a, b) && Compare(a, b) <= 0
      ensures Precedes(sorted, a, b)
    {
      SortStable(ShallownessKey(), actions, a, b);
    }
  }

  lemma OnlyDeletesSorted(actions: seq<PlannedAction>)
    requires OnlyDeletes(actions)
    ensures DeepestDeletesFirst(actions) == SortBy(ShallownessKey(), actions)
  {
    DeletesFilter(actions);
    assert [] + SortBy(ShallownessKey(), actions) == SortBy(ShallownessKey(), actions);
  }

  /** Where nothing is told apart, nothing moves. */
  lemma DeletesOfOneDepthStayPut(applies: seq<PlannedAction>, deletes: seq<PlannedAction>)
    requires OnlyDeletes(deletes) && DeletesAtOneDepth(deletes)
    requires forall a :: a in applies ==> !a.decision.MoveSecondaryToHistory?
    ensures DeepestDeletesFirst(applies + deletes) == applies + deletes
  {
    FilterAppend(NotDelete(), applies, deletes);
    FilterAppend(IsDelete(), applies, deletes);
    AppliesFilter(applies);
    DeletesFilter(deletes);
    OneDepthIsSorted(deletes);
    SortKeeps(ShallownessKey(), deletes);
    assert applies + [] == applies && [] + deletes == deletes;
  }

  lemma OneDepthIsSorted(deletes: seq<PlannedAction>)
    requires OnlyDeletes(deletes) && DeletesAtOneDepth(deletes)
    ensures SortedBy(ShallownessKey(), deletes)
  {
    forall i, j | 0 <= i < j < |deletes|
      ensures ShallownessKey()(deletes[i]) <= ShallownessKey()(deletes[j])
    {
      assert deletes[i] in deletes && deletes[j] in deletes;
    }
  }

  lemma {:induction false} SortKeeps(key: PlannedAction -> int, actions: seq<PlannedAction>)
    requires SortedBy(key, actions)
    ensures SortBy(key, actions) == actions
  {
    if actions != [] {
      SortKeeps(key, actions[..|actions| - 1]);
    }
  }

  /** That comparison is not an order on mixed lists: "equal" is not transitive. Two deletes, one beneath the
      other, both compare equal to anything that is not a delete, yet differ. */
  lemma CompareIsNotAnOrder(parent: PlannedAction, other: PlannedAction, child: PlannedAction)
    requires parent.decision.MoveSecondaryToHistory? && child.decision.MoveSecondaryToHistory?
    requires !other.decision.MoveSecondaryToHistory?
    requires WellFormed(child.relativePath) && IsDescendant(child.relativePath, parent.relativePath)
    ensures Compare(parent, other) == 0 && Compare(other, child) == 0 && Compare(parent, child) != 0
  {
    DescendantFacts(child.relativePath, parent.relativePath);
  }
}
