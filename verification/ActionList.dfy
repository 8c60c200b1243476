/** What the finished action list of a Primary run contains, and in which order. */
module ActionList {
  import opened Prelude
  import opened Paths
  import opened Model
  import opened TreeTable
  import opened Planner
  import opened PrimarySync

  // ---- what planning may rely on ----

  /** What the scanner hands over: clean paths, every parent present as a directory. */
  ghost predicate ScanOk(live: map<RelPath, FileSnapshot>) {
    (forall p :: p in live ==> WellFormed(p)) &&
    (forall p, q :: p in live && IsDescendant(p, q) ==> q in live && live[q].kind == Directory)
  }

  /** An apply action speaks about a live entry, a delete about one that is gone. */
  ghost predicate Sound(a: PlannedAction, live: map<RelPath, FileSnapshot>, base: map<RelPath, SyncBaseline>) {
    (a.decision == ApplyToSecondary || a.decision == MoveSecondaryToHistory) &&
    (a.decision == ApplyToSecondary ==> a.relativePath in live && a.snapshot == Some(live[a.relativePath])) &&
    (a.decision == MoveSecondaryToHistory ==> a.relativePath !in live) &&
    (if a.relativePath in base then a.baseline == Some(base[a.relativePath]) else a.baseline == None)
  }

  ghost predicate AllSound(actions: seq<PlannedAction>, live: map<RelPath, FileSnapshot>,
                           base: map<RelPath, SyncBaseline>)
  {
    forall i :: 0 <= i < |actions| ==> Sound(actions[i], live, base)
  }

  lemma PlanSound(snaps: seq<FileSnapshot>, rows: seq<SyncBaseline>)
    requires UniqueSnapshots(snaps) && UniqueBaselines(rows)
    ensures AllSound(Plan(snaps, rows, Primary), LiveIndex(snaps), BaselineIndex(rows))
  {
    var plan := Plan(snaps, rows, Primary);
    LiveIndexFacts(snaps);
    BaselineIndexFacts(rows);
    forall i | 0 <= i < |plan| ensures Sound(plan[i], LiveIndex(snaps), BaselineIndex(rows)) {
      PlannedExactly(snaps, rows, Primary, plan[i]);
    }
  }

  lemma RecoveredMember(actions: seq<PlannedAction>, cached: seq<FileSnapshot>, snaps: seq<FileSnapshot>,
                        rows: seq<SyncBaseline>, a: PlannedAction)
    ensures a in WithRecovered(actions, cached, snaps, rows) <==>
            a in actions ||
            exists i :: 0 <= i < |cached| &&
              RecoveredDelete(cached[i], LiveIndex(snaps), BaselineIndex(rows), ActionPaths(actions)) == Some(a)
  {
    var f := RecoveredStep(LiveIndex(snaps), BaselineIndex(rows), ActionPaths(actions));
    FilterMapMember(f, cached);
    assert a in FilterMap(f, cached) <==> exists i :: 0 <= i < |cached| && f(cached[i]) == Some(a);
    assert forall i :: 0 <= i < |cached| ==>
      f(cached[i]) == RecoveredDelete(cached[i], LiveIndex(snaps), BaselineIndex(rows), ActionPaths(actions));
  }

  lemma RepairMember(actions: seq<PlannedAction>, snaps: seq<FileSnapshot>, rows: seq<SyncBaseline>,
                     remote: seq<RemoteFileState>, a: PlannedAction)
    ensures a in WithRepairs(actions, snaps, rows, remote) <==>
            a in actions ||
            exists i :: 0 <= i < |rows| &&
              Repair(rows[i], LiveIndex(snaps), ActionPaths(actions), RemotePaths(remote)) == Some(a)
  {
    var f := RepairStep(LiveIndex(snaps), ActionPaths(actions), RemotePaths(remote));
    FilterMapMember(f, rows);
    assert a in FilterMap(f, rows) <==> exists i :: 0 <= i < |rows| && f(rows[i]) == Some(a);
    assert forall i :: 0 <= i < |rows| ==>
      f(rows[i]) == Repair(rows[i], LiveIndex(snaps), ActionPaths(actions), RemotePaths(remote));
  }

  lemma CompressMember(actions: seq<PlannedAction>, a: PlannedAction)
    ensures a in Compress(actions) <==> a in actions && Retained(a, FilterMap(DirectoryDeleteStep(), actions))
  {
    var directories := FilterMap(DirectoryDeleteStep(), actions);
    FilterMember(RetainStep(directories), actions, a);
  }

  lemma DirectoryDeletesExactly(actions: seq<PlannedAction>, dir: RelPath)
    ensures dir in FilterMap(DirectoryDeleteStep(), actions) <==>
            exists d :: d in actions && d.decision == MoveSecondaryToHistory && IsDirectoryDelete(d) &&
              d.relativePath == dir
  {
    var f := DirectoryDeleteStep();
    FilterMapMember(f, actions);
    assert dir in FilterMap(f, actions) <==> exists i :: 0 <= i < |actions| && f(actions[i]) == Some(dir);
    if d :| d in actions && d.decision == MoveSecondaryToHistory && IsDirectoryDelete(d) && d.relativePath == dir {
      var i :| 0 <= i < |actions| && actions[i] == d;
      assert f(actions[i]) == Some(dir);
    }
  }

  lemma LocalMember(snaps: seq<FileSnapshot>, cached: seq<FileSnapshot>, rows: seq<SyncBaseline>, a: PlannedAction)
    ensures a in LocalActions(snaps, cached, rows) <==>
            a in Compress(WithRecovered(Plan(snaps, rows, Primary), cached, snaps, rows))
  {
    SortFacts(PriorityKey(), Compress(WithRecovered(Plan(snaps, rows, Primary), cached, snaps, rows)));
  }

  lemma AllMember(snaps: seq<FileSnapshot>, cached: seq<FileSnapshot>, rows: seq<SyncBaseline>,
                  remote: seq<RemoteFileState>, a: PlannedAction)
    ensures a in AllActions(snaps, cached, rows, remote) <==>
            a in WithRepairs(LocalActions(snaps, cached, rows), snaps, rows, remote)
  {
    SortFacts(PriorityKey(), WithRepairs(LocalActions(snaps, cached, rows), snaps, rows, remote));
  }

  /** Where an action of the executed list comes from. */
  lemma ListedFrom(snaps: seq<FileSnapshot>, cached: seq<FileSnapshot>, rows: seq<SyncBaseline>,
                   remote: seq<RemoteFileState>, a: PlannedAction)
    requires a in AllActions(snaps, cached, rows, remote)
    ensures a in Plan(snaps, rows, Primary) ||
            (exists i :: 0 <= i < |cached| &&
               RecoveredDelete(cached[i], LiveIndex(snaps), BaselineIndex(rows),
                               ActionPaths(Plan(snaps, rows, Primary))) == Some(a)) ||
            exists i :: 0 <= i < |rows| &&
              Repair(rows[i], LiveIndex(snaps), ActionPaths(LocalActions(snaps, cached, rows)), RemotePaths(remote)) ==
              Some(a)
  {
    AllMember(snaps, cached, rows, remote, a);
    RepairMember(LocalActions(snaps, cached, rows), snaps, rows, remote, a);
    if a in LocalActions(snaps, cached, rows) {
      LocalMember(snaps, cached, rows, a);
      CompressMember(WithRecovered(Plan(snaps, rows, Primary), cached, snaps, rows), a);
      RecoveredMember(Plan(snaps, rows, Primary), cached, snaps, rows, a);
    }
  }

  lemma AllActionsSound(snaps: seq<FileSnapshot>, cached: seq<FileSnapshot>, rows: seq<SyncBaseline>,
                        remote: seq<RemoteFileState>)
    requires UniqueSnapshots(snaps) && UniqueBaselines(rows)
    ensures AllSound(AllActions(snaps, cached, rows, remote), LiveIndex(snaps), BaselineIndex(rows))
  {
    var all := AllActions(snaps, cached, rows, remote);
    PlanSound(snaps, rows);
    forall i | 0 <= i < |all|
      ensures Sound(all[i], LiveIndex(snaps), BaselineIndex(rows))
    {
      ListedFrom(snaps, cached, rows, remote, all[i]);
      EditsAreSound(snaps, rows, all[i]);
    }
  }

  lemma EditsAreSound(snaps: seq<FileSnapshot>, rows: seq<SyncBaseline>, a: PlannedAction)
    requires UniqueBaselines(rows)
    ensures forall c, planned ::
              RecoveredDelete(c, LiveIndex(snaps), BaselineIndex(rows), planned) == Some(a) ==>
              Sound(a, LiveIndex(snaps), BaselineIndex(rows))
    ensures forall i, planned, remote ::
              (0 <= i < |rows| && Repair(rows[i], LiveIndex(snaps), planned, remote) == Some(a)) ==>
              Sound(a, LiveIndex(snaps), BaselineIndex(rows))
  {
    BaselineIndexFacts(rows);
  }

  // ---- one action per path ----

  lemma PathsAppended(actions: seq<PlannedAction>, more: seq<PlannedAction>)
    requires UniqueActions(actions) && UniqueActions(more)
    requires forall a, b :: a in actions && b in more ==> a.relativePath != b.relativePath
    ensures UniqueActions(actions + more)
  {
    var all := actions + more;
    forall i, j | 0 <= i < j < |all| ensures all[i].relativePath != all[j].relativePath {
      if i < |actions| <= j {
        assert all[i] in actions && all[j] in more;
      }
    }
  }

  lemma {:induction false} UniqueFromSnapshots(f: FileSnapshot -> Option<PlannedAction>, snaps: seq<FileSnapshot>)
    requires UniqueSnapshots(snaps)
    requires forall s :: f(s).Some? ==> f(s).value.relativePath == s.relativePath
    ensures UniqueActions(FilterMap(f, snaps))
  {
    if snaps != [] {
      var n := |snaps| - 1;
      UniqueFromSnapshots(f, snaps[..n]);
      FilterMapMember(f, snaps[..n]);
      var rest := FilterMap(f, snaps[..n]);
      forall i | 0 <= i < |rest| ensures rest[i].relativePath != snaps[n].relativePath {
        assert rest[i] in rest;
        var k :| 0 <= k < n && f(snaps[..n][k]) == Some(rest[i]);
        assert rest[i].relativePath == snaps[k].relativePath;
      }
    }
  }

  lemma {:induction false} UniqueFromBaselines(f: SyncBaseline -> Option<PlannedAction>, rows: seq<SyncBaseline>)
    requires UniqueBaselines(rows)
    requires forall b :: f(b).Some? ==> f(b).value.relativePath == b.relativePath
    ensures UniqueActions(FilterMap(f, rows))
  {
    if rows != [] {
      var n := |rows| - 1;
      UniqueFromBaselines(f, rows[..n]);
      FilterMapMember(f, rows[..n]);
      var rest := FilterMap(f, rows[..n]);
      forall i | 0 <= i < |rest| ensures rest[i].relativePath != rows[n].relativePath {
        assert rest[i] in rest;
        var k :| 0 <= k < n && f(rows[..n][k]) == Some(rest[i]);
        assert rest[i].relativePath == rows[k].relativePath;
      }
    }
  }

  /** Unique paths in list form: no two elements, hence no two members, share a path. */
  lemma UniqueMembers(actions: seq<PlannedAction>, a: PlannedAction, b: PlannedAction)
    requires UniqueActions(actions) && a in actions && b in actions && a.relativePath == b.relativePath
    ensures a == b
  {
    var i :| 0 <= i < |actions| && actions[i] == a;
    var j :| 0 <= j < |actions| && actions[j] == b;
    if i < j { assert false; }
    if j < i { assert false; }
  }

  lemma UniqueSublist(actions: seq<PlannedAction>, sub: seq<PlannedAction>)
    requires UniqueActions(actions) && NoDup(sub) && forall a :: a in sub ==> a in actions
    ensures UniqueActions(sub)
  {
    forall i, j | 0 <= i < j < |sub| ensures sub[i].relativePath != sub[j].relativePath {
      if sub[i].relativePath == sub[j].relativePath {
        UniqueMembers(actions, sub[i], sub[j]);
        assert false;
      }
    }
  }

  lemma UniqueSorted(key: PlannedAction -> int, actions: seq<PlannedAction>)
    requires UniqueActions(actions)
    ensures UniqueActions(SortBy(key, actions))
  {
    SortNoDup(key, actions);
    SortFacts(key, actions);
    UniqueSublist(actions, SortBy(key, actions));
  }

  lemma UniqueFiltered(keep: PlannedAction -> bool, actions: seq<PlannedAction>)
    requires UniqueActions(actions)
    ensures UniqueActions(Filter(keep, actions))
  {
    FilterNoDup(keep, actions);
    forall a | a in Filter(keep, actions) ensures a in actions { FilterMember(keep, actions, a); }
    UniqueSublist(actions, Filter(keep, actions));
  }

  lemma PlanUnique(snaps: seq<FileSnapshot>, rows: seq<SyncBaseline>)
    requires UniqueSnapshots(snaps) && UniqueBaselines(rows)
    ensures UniqueActions(Plan(snaps, rows, Primary))
  {
    var f, g := SnapshotStep(BaselineIndex(rows), Primary), DeletionStep(LiveIndex(snaps), Primary);
    UniqueFromSnapshots(f, snaps);
    UniqueFromBaselines(g, rows);
    var applies, deletes := FilterMap(f, snaps), FilterMap(g, rows);
    LiveIndexFacts(snaps);
    forall a, b | a in applies && b in deletes ensures a.relativePath != b.relativePath {
      FilterMapMember(f, snaps);
      FilterMapMember(g, rows);
      var i :| 0 <= i < |snaps| && f(snaps[i]) == Some(a);
      var j :| 0 <= j < |rows| && g(rows[j]) == Some(b);
    }
    PathsAppended(applies, deletes);
    var all := applies + deletes;
    UniqueFiltered(NotDelete(), all);
    UniqueFiltered(IsDelete(), all);
    UniqueSorted(ShallownessKey(), Filter(IsDelete(), all));
    var kept, sorted := Filter(NotDelete(), all), SortBy(ShallownessKey(), Filter(IsDelete(), all));
    SortFacts(ShallownessKey(), Filter(IsDelete(), all));
    forall a, b | a in kept && b in sorted ensures a.relativePath != b.relativePath {
      FilterMember(NotDelete(), all, a);
      FilterMember(IsDelete(), all, b);
      if a.relativePath == b.relativePath { UniqueMembers(all, a, b); assert false; }
    }
    PathsAppended(kept, sorted);
  }

  /** Each path has at most one action, after every edit of the list. */
  lemma AllActionsUnique(snaps: seq<FileSnapshot>, cached: seq<FileSnapshot>, rows: seq<SyncBaseline>,
                         remote: seq<RemoteFileState>)
    requires UniqueSnapshots(snaps) && UniqueSnapshots(cached) && UniqueBaselines(rows)
    ensures UniqueActions(LocalActions(snaps, cached, rows))
    ensures UniqueActions(AllActions(snaps, cached, rows, remote))
  {
    var plan := Plan(snaps, rows, Primary);
    PlanUnique(snaps, rows);
    var f := RecoveredStep(LiveIndex(snaps), BaselineIndex(rows), ActionPaths(plan));
    UniqueFromSnapshots(f, cached);
    forall a: PlannedAction, b: PlannedAction | a in plan && b in FilterMap(f, cached)
      ensures a.relativePath != b.relativePath
    {
      FilterMapMember(f, cached);
      var i :| 0 <= i < |cached| && f(cached[i]) == Some(b);
      assert a.relativePath in ActionPaths(plan);
    }
    PathsAppended(plan, FilterMap(f, cached));
    var recovered := WithRecovered(plan, cached, snaps, rows);
    UniqueFiltered(RetainStep(FilterMap(DirectoryDeleteStep(), recovered)), recovered);
    UniqueSorted(PriorityKey(), Compress(recovered));
    var actions := LocalActions(snaps, cached, rows);
    var g := RepairStep(LiveIndex(snaps), ActionPaths(actions), RemotePaths(remote));
    UniqueFromBaselines(g, rows);
    forall a: PlannedAction, b: PlannedAction | a in actions && b in FilterMap(g, rows)
      ensures a.relativePath != b.relativePath
    {
      FilterMapMember(g, rows);
      var i :| 0 <= i < |rows| && g(rows[i]) == Some(b);
      assert a.relativePath in ActionPaths(actions);
    }
    PathsAppended(actions, FilterMap(g, rows));
    UniqueSorted(PriorityKey(), WithRepairs(actions, snaps, rows, remote));
  }

  // ---- directories before their contents ----

  /** The scanner reports a directory before anything in it. */
  ghost predicate ParentsFirst(snaps: seq<FileSnapshot>) {
    forall i, j ::
      (0 <= i < |snaps| && 0 <= j < |snaps| && IsLive(snaps[i]) && IsLive(snaps[j]) &&
       IsDescendant(snaps[j].relativePath, snaps[i].relativePath)) ==> i < j
  }

  /** Before repairs are added, a directory create runs before every create or upload beneath it. */
  lemma CreatesRunParentFirst(snaps: seq<FileSnapshot>, cached: seq<FileSnapshot>, rows: seq<SyncBaseline>,
                              dir: PlannedAction, below: PlannedAction)
    requires UniqueSnapshots(snaps) && UniqueBaselines(rows) && ParentsFirst(snaps)
    requires ScanOk(LiveIndex(snaps))
    requires dir in LocalActions(snaps, cached, rows) && below in LocalActions(snaps, cached, rows)
    requires dir.decision == ApplyToSecondary && below.decision == ApplyToSecondary
    requires IsDescendant(below.relativePath, dir.relativePath)
    ensures Precedes(LocalActions(snaps, cached, rows), dir, below)
  {
    var plan := Plan(snaps, rows, Primary);
    var recovered := WithRecovered(plan, cached, snaps, rows);
    LocalMember(snaps, cached, rows, dir);
    LocalMember(snaps, cached, rows, below);
    CompressMember(recovered, dir);
    CompressMember(recovered, below);
    RecoveredMember(plan, cached, snaps, rows, dir);
    RecoveredMember(plan, cached, snaps, rows, below);
    PlanOrder(snaps, rows, dir, below);
    var i, j :| 0 <= i < j < |plan| && plan[i] == dir && plan[j] == below;
    assert recovered[i] == dir && recovered[j] == below;
    FilterPrecedes(RetainStep(FilterMap(DirectoryDeleteStep(), recovered)), recovered, dir, below);
    PlanSound(snaps, rows);
    assert Sound(dir, LiveIndex(snaps), BaselineIndex(rows)) && Sound(below, LiveIndex(snaps), BaselineIndex(rows));
    assert Priority(dir) == 0;
    SortStable(PriorityKey(), Compress(recovered), dir, below);
  }

  lemma PlanOrder(snaps: seq<FileSnapshot>, rows: seq<SyncBaseline>, dir: PlannedAction, below: PlannedAction)
    requires ParentsFirst(snaps)
    requires dir in Plan(snaps, rows, Primary) && below in Plan(snaps, rows, Primary)
    requires dir.decision == ApplyToSecondary && below.decision == ApplyToSecondary
    requires IsDescendant(below.relativePath, dir.relativePath)
    ensures Precedes(Plan(snaps, rows, Primary), dir, below)
  {
    var f, g := SnapshotStep(BaselineIndex(rows), Primary), DeletionStep(LiveIndex(snaps), Primary);
    PlannedExactly(snaps, rows, Primary, dir);
    PlannedExactly(snaps, rows, Primary, below);
    var i :| 0 <= i < |snaps| && SnapshotAction(snaps[i], BaselineIndex(rows), Primary) == Some(dir);
    var j :| 0 <= j < |snaps| && SnapshotAction(snaps[j], BaselineIndex(rows), Primary) == Some(below);
    assert f(snaps[i]) == Some(dir) && f(snaps[j]) == Some(below);
    FilterMapPrecedes(f, snaps, i, j);
    var applies, deletes := FilterMap(f, snaps), FilterMap(g, rows);
    var x, y :| 0 <= x < y < |applies| && applies[x] == dir && applies[y] == below;
    assert (applies + deletes)[x] == dir && (applies + deletes)[y] == below;
    FilterPrecedes(NotDelete(), applies + deletes, dir, below);
    var kept, sorted :=
      Filter(NotDelete(), applies + deletes), SortBy(ShallownessKey(), Filter(IsDelete(), applies + deletes));
    var u, v :| 0 <= u < v < |kept| && kept[u] == dir && kept[v] == below;
    assert (kept + sorted)[u] == dir && (kept + sorted)[v] == below;
  }

  // ---- compression ----

  /** Some delete of the list takes `p` away. */
  ghost predicate TakesAway(actions: seq<PlannedAction>, p: RelPath) {
    exists d :: d in actions && d.decision == MoveSecondaryToHistory && AtOrUnder(p, d.relativePath)
  }

  /** Climb to the outermost directory delete: it is never dropped. */
  lemma {:induction false} CoveringDeleteRetained(actions: seq<PlannedAction>, d: PlannedAction)
    returns (kept: PlannedAction)
    requires d in actions && d.decision == MoveSecondaryToHistory
    ensures kept in Compress(actions) && kept.decision == MoveSecondaryToHistory
    ensures AtOrUnder(d.relativePath, kept.relativePath)
    decreases |d.relativePath|
  {
    var directories := FilterMap(DirectoryDeleteStep(), actions);
    CompressMember(actions, d);
    if Retained(d, directories) {
      kept := d;
    } else {
      var dir :| dir in directories && d.relativePath != dir && IsDescendant(d.relativePath, dir);
      DirectoryDeletesExactly(actions, dir);
      var above :| above in actions && above.decision == MoveSecondaryToHistory && IsDirectoryDelete(above) &&
                   above.relativePath == dir;
      kept := CoveringDeleteRetained(actions, above);
      AtOrUnderTransitive(d.relativePath, dir, kept.relativePath);
    }
  }

  /** The compressed list removes exactly the paths that the original list removes. */
  lemma CompressionRemovesTheSame(actions: seq<PlannedAction>, p: RelPath)
    ensures TakesAway(Compress(actions), p) <==> TakesAway(actions, p)
  {
    if TakesAway(actions, p) {
      var d :| d in actions && d.decision == MoveSecondaryToHistory && AtOrUnder(p, d.relativePath);
      var kept := CoveringDeleteRetained(actions, d);
      AtOrUnderTransitive(p, d.relativePath, kept.relativePath);
    }
    if TakesAway(Compress(actions), p) {
      var d :| d in Compress(actions) && d.decision == MoveSecondaryToHistory && AtOrUnder(p, d.relativePath);
      CompressMember(actions, d);
    }
  }

  /** No retained delete lies beneath a retained directory delete, and nothing else is lost or moved. */
  lemma CompressionIsTight(actions: seq<PlannedAction>)
    ensures forall a, d ::
              (a in Compress(actions) && d in Compress(actions) && a.decision == MoveSecondaryToHistory &&
               d.decision == MoveSecondaryToHistory && IsDirectoryDelete(d)) ==>
              !IsDescendant(a.relativePath, d.relativePath)
    ensures Filter(NotDelete(), Compress(actions)) == Filter(NotDelete(), actions)
  {
    forall a, d | a in Compress(actions) && d in Compress(actions) &&
                  a.decision == MoveSecondaryToHistory && d.decision == MoveSecondaryToHistory && IsDirectoryDelete(d)
      ensures !IsDescendant(a.relativePath, d.relativePath)
    {
      CompressMember(actions, a);
      CompressMember(actions, d);
      DirectoryDeletesExactly(actions, d.relativePath);
    }
    FilterTwice(FilterMap(DirectoryDeleteStep(), actions), actions);
  }

  lemma {:induction false} FilterTwice(directories: seq<RelPath>, actions: seq<PlannedAction>)
    ensures Filter(NotDelete(), Filter(RetainStep(directories), actions)) == Filter(NotDelete(), actions)
  {
    if actions != [] {
      var n := |actions| - 1;
      FilterTwice(directories, actions[..n]);
      if Retained(actions[n], directories) {
        FilterAppend(NotDelete(), Filter(RetainStep(directories), actions[..n]), [actions[n]]);
        assert Filter(NotDelete(), [actions[n]]) == if NotDelete()(actions[n]) then [actions[n]] else [] by {
          assert [actions[n]][..0] == [];
        }
      }
    }
  }

  // ---- compression keeps the meaning of the whole list ----

  /** The writes of a list, action by action; a delete that fails writes nothing. */
  function Effects<V>(actions: seq<PlannedAction>, rows: PlannedAction -> seq<Write<V>>): seq<Write<V>> {
    if actions == [] then []
    else Effects(actions[..|actions| - 1], rows) + rows(actions[|actions| - 1])
  }

  ghost predicate DeleteEffect<V>(a: PlannedAction, ws: seq<Write<V>>) { ws == [] || ws == [DropTree(a.relativePath)] }

  /** A delete removes its tree or nothing; the other actions only write rows, none of them where a delete
      of the list could take it away. */
  ghost predicate RowsApart<V(!new)>(actions: seq<PlannedAction>, rows: PlannedAction -> seq<Write<V>>) {
    (forall a :: a in actions && a.decision == MoveSecondaryToHistory ==> DeleteEffect(a, rows(a))) &&
    (forall a, w :: a in actions && a.decision != MoveSecondaryToHistory && w in rows(a) ==>
       w.Put? && !TakesAway(actions, w.path))
  }

  predicate Removes<V(==)>(d: PlannedAction, rows: PlannedAction -> seq<Write<V>>) {
    d.decision == MoveSecondaryToHistory && rows(d) != []
  }

  /** A delete of the list that succeeds takes `p` away. */
  ghost predicate Removed<V>(actions: seq<PlannedAction>, rows: PlannedAction -> seq<Write<V>>, p: RelPath) {
    exists d :: d in actions && Removes(d, rows) && AtOrUnder(p, d.relativePath)
  }

  /** Whatever a delete of the full list removes lies in the tree of a retained delete that succeeds. */
  ghost predicate KeepsRemovals<V(!new)>(actions: seq<PlannedAction>, rows: PlannedAction -> seq<Write<V>>) {
    forall d :: d in actions && Removes(d, rows) ==> Removed(Compress(actions), rows, d.relativePath)
  }

  lemma {:induction false} EffectMember<V>(actions: seq<PlannedAction>, rows: PlannedAction -> seq<Write<V>>,
                                           w: Write<V>)
    ensures w in Effects(actions, rows) <==> exists a :: a in actions && w in rows(a)
  {
    if actions != [] {
      EffectMember(actions[..|actions| - 1], rows, w);
      SplitLast(actions);
    }
  }

  lemma EffectsCover<V(!new)>(actions: seq<PlannedAction>, rows: PlannedAction -> seq<Write<V>>, p: RelPath)
    requires RowsApart(actions, rows)
    ensures Covers(Effects(actions, rows), p) <==> Removed(actions, rows, p)
  {
    var ws := Effects(actions, rows);
    if Covers(ws, p) {
      var i :| 0 <= i < |ws| && ws[i].DropTree? && AtOrUnder(p, ws[i].path);
      EffectMember(actions, rows, ws[i]);
      var a :| a in actions && ws[i] in rows(a);
      assert Removes(a, rows);
    }
    if Removed(actions, rows, p) {
      var d :| d in actions && Removes(d, rows) && AtOrUnder(p, d.relativePath);
      assert rows(d)[0] == DropTree(d.relativePath);
      EffectMember(actions, rows, DropTree(d.relativePath));
    }
  }

  lemma EffectsSeparate<V(!new)>(actions: seq<PlannedAction>, rows: PlannedAction -> seq<Write<V>>)
    requires RowsApart(actions, rows)
    ensures Separate(Effects(actions, rows))
  {
    var ws := Effects(actions, rows);
    forall i, j | 0 <= i < |ws| && 0 <= j < |ws| && ws[i].Put? && ws[j].DropTree?
      ensures !AtOrUnder(ws[i].path, ws[j].path)
    {
      EffectMember(actions, rows, ws[i]);
      EffectMember(actions, rows, ws[j]);
    }
  }

  lemma {:induction false} EffectPuts<V(!new)>(actions: seq<PlannedAction>, rows: PlannedAction -> seq<Write<V>>)
    requires forall a :: a in actions && a.decision == MoveSecondaryToHistory ==> DeleteEffect(a, rows(a))
    requires forall a, w :: a in actions && a.decision != MoveSecondaryToHistory && w in rows(a) ==> w.Put?
    ensures Filter(IsPut<V>(), Effects(actions, rows)) == Effects(Filter(NotDelete(), actions), rows)
  {
    if actions != [] {
      var n := |actions| - 1;
      var a, before := actions[n], Effects(actions[..n], rows);
      EffectPuts(actions[..n], rows);
      FilterAppend(IsPut<V>(), before, rows(a));
      if a.decision == MoveSecondaryToHistory {
        NoPuts(a, rows(a));
      } else {
        FilterAll(IsPut<V>(), rows(a));
        var kept := Filter(NotDelete(), actions[..n]);
        assert (kept + [a])[..|kept|] == kept;
      }
    }
  }

  lemma NoPuts<V>(a: PlannedAction, ws: seq<Write<V>>)
    requires DeleteEffect(a, ws)
    ensures Filter(IsPut<V>(), ws) == []
  {
    if ws != [] {
      assert ws[..0] == [];
    }
  }

  lemma CompressedRowsApart<V(!new)>(actions: seq<PlannedAction>, rows: PlannedAction -> seq<Write<V>>)
    requires RowsApart(actions, rows)
    ensures RowsApart(Compress(actions), rows)
    ensures forall p :: Removed(Compress(actions), rows, p) ==> Removed(actions, rows, p)
  {
    forall a ensures a in Compress(actions) ==> a in actions { CompressMember(actions, a); }
    forall p
      ensures TakesAway(Compress(actions), p) <==> TakesAway(actions, p)
    {
      CompressionRemovesTheSame(actions, p);
    }
  }

  /** Executing the compressed list leaves a table as executing the full one does, if every removal is kept. */
  lemma CompressionPreservesMeaning<V(!new)>(actions: seq<PlannedAction>, rows: PlannedAction -> seq<Write<V>>,
                                             table: map<RelPath, V>)
    requires RowsApart(actions, rows) && KeepsRemovals(actions, rows)
    ensures Run(table, Effects(Compress(actions), rows)) == Run(table, Effects(actions, rows))
  {
    var small := Compress(actions);
    CompressedRowsApart(actions, rows);
    CoversAlike(actions, rows);
    EffectsSeparate(small, rows);
    EffectsSeparate(actions, rows);
    PutsAlike(actions, rows);
    SameEffect(table, Effects(small, rows), Effects(actions, rows));
  }

  lemma RemovedAlike<V(!new)>(actions: seq<PlannedAction>, rows: PlannedAction -> seq<Write<V>>, p: RelPath)
    requires KeepsRemovals(actions, rows) && Removed(actions, rows, p)
    ensures Removed(Compress(actions), rows, p)
  {
    var d :| d in actions && Removes(d, rows) && AtOrUnder(p, d.relativePath);
    assert Removed(Compress(actions), rows, d.relativePath);
    var k :| k in Compress(actions) && Removes(k, rows) && AtOrUnder(d.relativePath, k.relativePath);
    AtOrUnderTransitive(p, d.relativePath, k.relativePath);
  }

  lemma CoversAlike<V(!new)>(actions: seq<PlannedAction>, rows: PlannedAction -> seq<Write<V>>)
    requires RowsApart(actions, rows) && RowsApart(Compress(actions), rows) && KeepsRemovals(actions, rows)
    requires forall p :: Removed(Compress(actions), rows, p) ==> Removed(actions, rows, p)
    ensures forall p :: Covers(Effects(Compress(actions), rows), p) <==> Covers(Effects(actions, rows), p)
  {
    var small := Compress(actions);
    forall p
      ensures Covers(Effects(small, rows), p) <==> Covers(Effects(actions, rows), p)
    {
      EffectsCover(small, rows, p);
      EffectsCover(actions, rows, p);
      if Removed(actions, rows, p) {
        RemovedAlike(actions, rows, p);
      }
    }
  }

  lemma PutsAlike<V(!new)>(actions: seq<PlannedAction>, rows: PlannedAction -> seq<Write<V>>)
    requires RowsApart(actions, rows)
    ensures Filter(IsPut<V>(), Effects(Compress(actions), rows)) == Filter(IsPut<V>(), Effects(actions, rows))
  {
    CompressedRowsApart(actions, rows);
    EffectPuts(Compress(actions), rows);
    EffectPuts(actions, rows);
    CompressionIsTight(actions);
  }

  /** And only then: a delete that would have succeeded, dropped beneath a directory delete that fails, makes a
      difference to any table with a row for it. */
  lemma CompressionPreservesMeaningExactly<V(!new)>(actions: seq<PlannedAction>, rows: PlannedAction -> seq<Write<V>>,
                                                    v: V)
    requires RowsApart(actions, rows)
    ensures KeepsRemovals(actions, rows) <==>
            forall table: map<RelPath, V> ::
              Run(table, Effects(Compress(actions), rows)) == Run(table, Effects(actions, rows))
  {
    if KeepsRemovals(actions, rows) {
      forall table: map<RelPath, V>
        ensures Run(table, Effects(Compress(actions), rows)) == Run(table, Effects(actions, rows))
      {
        CompressionPreservesMeaning(actions, rows, table);
      }
    } else {
      var d :| d in actions && Removes(d, rows) && !Removed(Compress(actions), rows, d.relativePath);
      LostRemovalShows(actions, rows, d, map[d.relativePath := v]);
    }
  }

  lemma LostRemovalShows<V(!new)>(actions: seq<PlannedAction>, rows: PlannedAction -> seq<Write<V>>, d: PlannedAction,
                                  table: map<RelPath, V>)
    requires RowsApart(actions, rows) && d in actions && Removes(d, rows)
    requires !Removed(Compress(actions), rows, d.relativePath) && d.relativePath in table
    ensures d.relativePath in Run(table, Effects(Compress(actions), rows))
    ensures d.relativePath !in Run(table, Effects(actions, rows))
  {
    var p := d.relativePath;
    CompressedRowsApart(actions, rows);
    EffectsSeparate(actions, rows);
    EffectsSeparate(Compress(actions), rows);
    EffectsCover(actions, rows, p);
    EffectsCover(Compress(actions), rows, p);
    Outcome(table, Effects(actions, rows), p);
    Outcome(table, Effects(Compress(actions), rows), p);
  }

  /** With every delete succeeding nothing is lost. */
  lemma SuccessKeepsRemovals<V(!new)>(actions: seq<PlannedAction>, rows: PlannedAction -> seq<Write<V>>)
    requires forall d :: d in actions && d.decision == MoveSecondaryToHistory ==> rows(d) != []
    ensures KeepsRemovals(actions, rows)
  {
    forall d | d in actions && Removes(d, rows)
      ensures Removed(Compress(actions), rows, d.relativePath)
    {
      var kept := CoveringDeleteRetained(actions, d);
      CompressMember(actions, kept);
    }
  }

  // ---- the same for the tables and the peer of a run ----

  /** What the actions would do to the baselines and to the peer's folder, given each one's result. */
  function BaselineRows(result: PlannedAction -> NetworkResult, rehash: map<RelPath, Hash>, now: int)
    : PlannedAction -> seq<Write<SyncBaseline>>
  {
    (a: PlannedAction) => BaselineWrites(a, result(a), rehash, now)
  }

  function PeerRows(result: PlannedAction -> NetworkResult): PlannedAction -> seq<Write<Entry>> {
    (a: PlannedAction) => PeerWrites(a, result(a))
  }

  /** The list before compression. */
  function FullList(snaps: seq<FileSnapshot>, cached: seq<FileSnapshot>, rows: seq<SyncBaseline>): seq<PlannedAction> {
    WithRecovered(Plan(snaps, rows, Primary), cached, snaps, rows)
  }

  lemma FullListSound(snaps: seq<FileSnapshot>, cached: seq<FileSnapshot>, rows: seq<SyncBaseline>)
    requires UniqueSnapshots(snaps) && UniqueBaselines(rows)
    ensures AllSound(FullList(snaps, cached, rows), LiveIndex(snaps), BaselineIndex(rows))
  {
    var full, plan := FullList(snaps, cached, rows), Plan(snaps, rows, Primary);
    PlanSound(snaps, rows);
    BaselineIndexFacts(rows);
    forall i | 0 <= i < |full|
      ensures Sound(full[i], LiveIndex(snaps), BaselineIndex(rows))
    {
      RecoveredMember(plan, cached, snaps, rows, full[i]);
    }
  }

  lemma ApplyWritesLiveRows(a: PlannedAction, result: PlannedAction -> NetworkResult, rehash: map<RelPath, Hash>,
                            now: int,
                            live: map<RelPath, FileSnapshot>, base: map<RelPath, SyncBaseline>)
    requires ScanOk(live) && Sound(a, live, base) && a.decision != MoveSecondaryToHistory
    ensures forall w :: w in BaselineRows(result, rehash, now)(a) ==> w.Put? && w.path in live
    ensures forall w :: w in PeerRows(result)(a) ==> w.Put? && w.path in live
  {
    var parents := ParentPaths(a.relativePath);
    forall p | p in parents
      ensures p in live
    {
      ParentPathsExact(a.relativePath, p);
    }
    forall w | w in BaselineRows(result, rehash, now)(a)
      ensures w.Put? && w.path in live
    {
      if w in Puts(parents, DirectoryBaselineAt(now)) {
        assert w.path in parents;
      }
    }
    forall w | w in PeerRows(result)(a)
      ensures w.Put? && w.path in live
    {
      if w in Puts(parents, FolderAt()) {
        assert w.path in parents;
      }
    }
  }

  /** For the list of any run, whatever each action comes to: the rows and entries that its applies write are never
      in the way of its deletes. */
  lemma RunRowsApart(snaps: seq<FileSnapshot>, cached: seq<FileSnapshot>, rows: seq<SyncBaseline>,
                     result: PlannedAction -> NetworkResult, rehash: map<RelPath, Hash>, now: int)
    requires UniqueSnapshots(snaps) && UniqueBaselines(rows) && ScanOk(LiveIndex(snaps))
    ensures RowsApart(FullList(snaps, cached, rows), BaselineRows(result, rehash, now))
    ensures RowsApart(FullList(snaps, cached, rows), PeerRows(result))
  {
    var full, live, base := FullList(snaps, cached, rows), LiveIndex(snaps), BaselineIndex(rows);
    FullListSound(snaps, cached, rows);
    forall a | a in full
      ensures Sound(a, live, base)
      ensures a.decision != MoveSecondaryToHistory ==>
                (forall w :: w in BaselineRows(result, rehash, now)(a) ==> w.Put? && w.path in live) &&
                (forall w :: w in PeerRows(result)(a) ==> w.Put? && w.path in live)
    {
      var i :| 0 <= i < |full| && full[i] == a;
      assert Sound(full[i], live, base);
      if a.decision != MoveSecondaryToHistory {
        ApplyWritesLiveRows(a, result, rehash, now, live, base);
      }
    }
    assert forall p :: p in live ==> !TakesAway(full, p);
  }

  /** What each action comes to, by the checks before the send and the Secondary's answer. */
  function Sent(remote: map<RelPath, RemoteFileState>, deferred: set<RelPath>, ack: PlannedAction -> Ack)
    : PlannedAction -> NetworkResult
  {
    (a: PlannedAction) => Execute(a, remote, deferred, ack(a))
  }

  predicate PassesCheck(d: PlannedAction, remote: map<RelPath, RemoteFileState>) {
    d.decision == MoveSecondaryToHistory && RemoteDeleteRefusal(d, remote).None?
  }

  /** The check lets the delete through, and the Secondary would carry it out. */
  predicate Passes(d: PlannedAction, remote: map<RelPath, RemoteFileState>, ack: PlannedAction -> Ack) {
    PassesCheck(d, remote) && ack(d).Acked?
  }

  lemma SentRemoves(d: PlannedAction, remote: map<RelPath, RemoteFileState>, deferred: set<RelPath>,
                    ack: PlannedAction -> Ack, rehash: map<RelPath, Hash>, now: int)
    ensures Removes(d, PeerRows(Sent(remote, deferred, ack))) <==> Passes(d, remote, ack)
    ensures Removes(d, BaselineRows(Sent(remote, deferred, ack), rehash, now)) <==> Passes(d, remote, ack)
  {
    assert PeerRows(Sent(remote, deferred, ack))(d) == PeerWrites(d, Execute(d, remote, deferred, ack(d)));
    assert BaselineRows(Sent(remote, deferred, ack), rehash, now)(d) ==
           BaselineWrites(d, Execute(d, remote, deferred, ack(d)), rehash, now);
  }

  /** Whatever delete passes lies in the tree of a retained one that passes. */
  ghost predicate ChecksKeep(actions: seq<PlannedAction>, remote: map<RelPath, RemoteFileState>,
                             ack: PlannedAction -> Ack)
  {
    forall d :: d in actions && Passes(d, remote, ack) ==>
      exists k :: k in Compress(actions) && Passes(k, remote, ack) && AtOrUnder(d.relativePath, k.relativePath)
  }

  lemma KeptByChecks(actions: seq<PlannedAction>, remote: map<RelPath, RemoteFileState>, deferred: set<RelPath>,
                     ack: PlannedAction -> Ack, rehash: map<RelPath, Hash>, now: int)
    ensures KeepsRemovals(actions, PeerRows(Sent(remote, deferred, ack))) <==> ChecksKeep(actions, remote, ack)
    ensures KeepsRemovals(actions, BaselineRows(Sent(remote, deferred, ack), rehash, now)) <==>
            ChecksKeep(actions, remote, ack)
  {
    forall d: PlannedAction
      ensures Removes(d, PeerRows(Sent(remote, deferred, ack))) <==> Passes(d, remote, ack)
      ensures Removes(d, BaselineRows(Sent(remote, deferred, ack), rehash, now)) <==> Passes(d, remote, ack)
    {
      SentRemoves(d, remote, deferred, ack, rehash, now);
    }
  }

  /** So for the baselines and for the peer's folder compression makes no difference in any run exactly if each
      delete that would pass lies at or under a retained one that passes. */
  lemma RunCompressionExact(snaps: seq<FileSnapshot>, cached: seq<FileSnapshot>, rows: seq<SyncBaseline>,
                            remote: map<RelPath, RemoteFileState>, deferred: set<RelPath>,
                            ack: PlannedAction -> Ack, rehash: map<RelPath, Hash>, now: int)
    requires UniqueSnapshots(snaps) && UniqueBaselines(rows) && ScanOk(LiveIndex(snaps))
    ensures var full, result := FullList(snaps, cached, rows), Sent(remote, deferred, ack);
            (ChecksKeep(full, remote, ack) <==>
             forall table: map<RelPath, SyncBaseline> ::
               Run(table, Effects(Compress(full), BaselineRows(result, rehash, now))) ==
               Run(table, Effects(full, BaselineRows(result, rehash, now)))) &&
            (ChecksKeep(full, remote, ack) <==>
             forall tree: map<RelPath, Entry> ::
               Run(tree, Effects(Compress(full), PeerRows(result))) == Run(tree, Effects(full, PeerRows(result))))
  {
    var full, result := FullList(snaps, cached, rows), Sent(remote, deferred, ack);
    KeptByChecks(full, remote, deferred, ack, rehash, now);
    RunRowsApart(snaps, cached, rows, result, rehash, now);
    CompressionPreservesMeaningExactly(full, BaselineRows(result, rehash, now), DirectoryBaseline("", now));
    CompressionPreservesMeaningExactly(full, PeerRows(result), Folder);
  }

  /** The same before anything is sent: it speaks about the list and the Secondary's scan only. */
  ghost predicate CheckedKeep(actions: seq<PlannedAction>, remote: map<RelPath, RemoteFileState>) {
    forall d :: d in actions && PassesCheck(d, remote) ==> CheckedCover(actions, remote, d)
  }

  ghost predicate CheckedCover(actions: seq<PlannedAction>, remote: map<RelPath, RemoteFileState>, d: PlannedAction) {
    exists k :: k in Compress(actions) && PassesCheck(k, remote) && AtOrUnder(d.relativePath, k.relativePath)
  }

  /** A Secondary that carries out whatever it is sent leaves only the checks. */
  lemma ChecksKeepExactly(actions: seq<PlannedAction>, remote: map<RelPath, RemoteFileState>, ack: PlannedAction -> Ack)
    requires forall a :: a in actions ==> ack(a).Acked?
    ensures ChecksKeep(actions, remote, ack) <==> CheckedKeep(actions, remote)
  {
    forall k
      ensures k in Compress(actions) ==> k in actions
    {
      CompressMember(actions, k);
    }
    forall d | d in actions && PassesCheck(d, remote)
      ensures CheckedCover(actions, remote, d) <==>
              exists k :: k in Compress(actions) && Passes(k, remote, ack) && AtOrUnder(d.relativePath, k.relativePath)
    {
      if CheckedCover(actions, remote, d) {
        var k :| k in Compress(actions) && PassesCheck(k, remote) && AtOrUnder(d.relativePath, k.relativePath);
        assert Passes(k, remote, ack);
      }
    }
  }

  // ---- the finished list ----

  /** The finished list of any run: one action per path, and no delete at or above anything it creates. */
  lemma FinishedListIsWellFormed(snaps: seq<FileSnapshot>, cached: seq<FileSnapshot>, rows: seq<SyncBaseline>,
                                 remote: seq<RemoteFileState>)
    requires UniqueSnapshots(snaps) && UniqueSnapshots(cached) && UniqueBaselines(rows)
    requires ScanOk(LiveIndex(snaps))
    ensures var all := AllActions(snaps, cached, rows, remote);
            UniqueActions(all) &&
            forall d, a ::
              (d in all && d.decision == MoveSecondaryToHistory && a in all && a.decision == ApplyToSecondary) ==>
              !AtOrUnder(a.relativePath, d.relativePath)
  {
    var all := AllActions(snaps, cached, rows, remote);
    AllActionsUnique(snaps, cached, rows, remote);
    AllActionsSound(snaps, cached, rows, remote);
  }

  lemma SortedByPriority(snaps: seq<FileSnapshot>, cached: seq<FileSnapshot>, rows: seq<SyncBaseline>,
                         remote: seq<RemoteFileState>)
    ensures SortedBy(PriorityKey(), AllActions(snaps, cached, rows, remote))
  {
    var actions := LocalActions(snaps, cached, rows);
    var repaired := WithRepairs(actions, snaps, rows, remote);
    SortFacts(PriorityKey(), Compress(FullList(snaps, cached, rows)));
    SortFacts(PriorityKey(), repaired);
    if |repaired| <= |actions| {
      assert repaired == actions + [];
    }
  }

  /** With repairs included: every directory create runs before every file upload beneath it. */
  lemma DirectoriesRunBeforeFiles(snaps: seq<FileSnapshot>, cached: seq<FileSnapshot>, rows: seq<SyncBaseline>,
                                  remote: seq<RemoteFileState>, dir: PlannedAction, file: PlannedAction)
    requires UniqueSnapshots(snaps) && UniqueBaselines(rows) && ScanOk(LiveIndex(snaps))
    requires dir in AllActions(snaps, cached, rows, remote) && file in AllActions(snaps, cached, rows, remote)
    requires dir.decision == ApplyToSecondary && file.decision == ApplyToSecondary
    requires IsDescendant(file.relativePath, dir.relativePath)
    requires file.snapshot.Some? && file.snapshot.value.kind == File
    ensures Precedes(AllActions(snaps, cached, rows, remote), dir, file)
  {
    var all := AllActions(snaps, cached, rows, remote);
    AllActionsSound(snaps, cached, rows, remote);
    var i :| 0 <= i < |all| && all[i] == dir;
    var j :| 0 <= j < |all| && all[j] == file;
    assert Sound(all[i], LiveIndex(snaps), BaselineIndex(rows)) && Sound(all[j], LiveIndex(snaps), BaselineIndex(rows));
    SortedByPriority(snaps, cached, rows, remote);
    SmallerKeyFirst(PriorityKey(), all, dir, file);
  }

  // ---- the edits of the list, in the fields of the records ----

  /** An entry of the previous scan is recovered exactly if it was live then, has no live entry now, no baseline, and no
      planned action. */
  lemma RecoveredExactly(snaps: seq<FileSnapshot>, cached: seq<FileSnapshot>, rows: seq<SyncBaseline>, a: PlannedAction)
    requires a !in Plan(snaps, rows, Primary)
    ensures a in FullList(snaps, cached, rows) <==>
            exists i :: 0 <= i < |cached| && AsksForRecovery(cached[i], snaps, rows, a)
  {
    var plan := Plan(snaps, rows, Primary);
    RecoveredMember(plan, cached, snaps, rows, a);
    forall i | 0 <= i < |cached|
      ensures RecoveredDelete(cached[i], LiveIndex(snaps), BaselineIndex(rows), ActionPaths(plan)) == Some(a) <==>
              AsksForRecovery(cached[i], snaps, rows, a)
    {
      RecoveredInFields(cached[i], snaps, rows, a);
    }
  }

  ghost predicate AsksForRecovery(c: FileSnapshot, snaps: seq<FileSnapshot>, rows: seq<SyncBaseline>, a: PlannedAction)
  {
    !c.deleted && !c.isSymlink && NoLiveEntry(snaps, c.relativePath) && NoRow(rows, c.relativePath) &&
    (forall b :: b in Plan(snaps, rows, Primary) ==> b.relativePath != c.relativePath) &&
    a == PlannedAction(c.relativePath, MoveSecondaryToHistory, Some(c), None)
  }

  ghost predicate NoLiveEntry(snaps: seq<FileSnapshot>, p: RelPath) {
    forall i :: 0 <= i < |snaps| && !snaps[i].deleted && !snaps[i].isSymlink ==> snaps[i].relativePath != p
  }

  ghost predicate NoRow(rows: seq<SyncBaseline>, p: RelPath) {
    forall i :: 0 <= i < |rows| ==> rows[i].relativePath != p
  }

  lemma IndexesInFields(snaps: seq<FileSnapshot>, rows: seq<SyncBaseline>, p: RelPath)
    ensures p in LiveIndex(snaps) <==> !NoLiveEntry(snaps, p)
    ensures p in BaselineIndex(rows) <==> !NoRow(rows, p)
  {
    LiveIndexFacts(snaps);
    BaselineIndexFacts(rows);
    if p in LiveIndex(snaps) {
      var i :| 0 <= i < |snaps| && snaps[i] == LiveIndex(snaps)[p];
      assert snaps[i].relativePath == p;
    }
    if p in BaselineIndex(rows) {
      var i :| 0 <= i < |rows| && rows[i] == BaselineIndex(rows)[p];
      assert rows[i].relativePath == p;
    }
  }

  lemma RecoveredInFields(c: FileSnapshot, snaps: seq<FileSnapshot>, rows: seq<SyncBaseline>, a: PlannedAction)
    ensures RecoveredDelete(c, LiveIndex(snaps), BaselineIndex(rows), ActionPaths(Plan(snaps, rows, Primary))) ==
            Some(a) <==>
            AsksForRecovery(c, snaps, rows, a)
  {
    IndexesInFields(snaps, rows, c.relativePath);
    var plan := Plan(snaps, rows, Primary);
    assert c.relativePath in ActionPaths(plan) <==> exists b :: b in plan && b.relativePath == c.relativePath;
  }

  /** A repair is appended exactly for a row with a live entry that does not differ from it, that the Secondary does not
      report, and that the list has no action for. */
  lemma RepairedExactly(actions: seq<PlannedAction>, snaps: seq<FileSnapshot>, rows: seq<SyncBaseline>,
                        remote: seq<RemoteFileState>, a: PlannedAction)
    requires UniqueSnapshots(snaps) && a !in actions
    ensures a in WithRepairs(actions, snaps, rows, remote) <==>
            exists i, j :: 0 <= i < |rows| && 0 <= j < |snaps| && AsksForRepair(rows[i], snaps[j], actions, remote, a)
  {
    RepairMember(actions, snaps, rows, remote, a);
    forall i | 0 <= i < |rows|
      ensures Repair(rows[i], LiveIndex(snaps), ActionPaths(actions), RemotePaths(remote)) == Some(a) <==>
              exists j :: 0 <= j < |snaps| && AsksForRepair(rows[i], snaps[j], actions, remote, a)
    {
      RepairInFields(rows[i], snaps, actions, remote, a);
    }
  }

  ghost predicate AsksForRepair(b: SyncBaseline, snap: FileSnapshot, actions: seq<PlannedAction>,
                                remote: seq<RemoteFileState>, a: PlannedAction)
  {
    !snap.deleted && !snap.isSymlink && snap.relativePath == b.relativePath &&
    (forall c :: c in actions ==> c.relativePath != b.relativePath) &&
    (forall r :: r in remote ==> r.relativePath != b.relativePath) &&
    StandsAsSynced(b, snap) && a == PlannedAction(b.relativePath, ApplyToSecondary, Some(snap), Some(b))
  }

  /** A directory whose row has no hash; a file with the row's hash, or, where one is not verified, size and time. */
  predicate StandsAsSynced(b: SyncBaseline, snap: FileSnapshot) {
    (snap.kind == Directory ==> b.primaryHash == None) &&
    (snap.kind == File && snap.hashStatus == Verified && b.primaryHashStatus == Verified ==>
     snap.hash == b.primaryHash) &&
    (snap.kind == File && !(snap.hashStatus == Verified && b.primaryHashStatus == Verified) ==>
       snap.size == b.primarySize && snap.modifiedMs == b.primaryModifiedMs)
  }

  lemma RepairInFields(b: SyncBaseline, snaps: seq<FileSnapshot>, actions: seq<PlannedAction>,
                       remote: seq<RemoteFileState>, a: PlannedAction)
    requires UniqueSnapshots(snaps)
    ensures Repair(b, LiveIndex(snaps), ActionPaths(actions), RemotePaths(remote)) == Some(a) <==>
            exists j :: 0 <= j < |snaps| && AsksForRepair(b, snaps[j], actions, remote, a)
  {
    var live, p := LiveIndex(snaps), b.relativePath;
    LiveIndexFacts(snaps);
    assert p in ActionPaths(actions) <==> exists c :: c in actions && c.relativePath == p;
    assert p in RemotePaths(remote) <==> exists r :: r in remote && r.relativePath == p;
    if p in live {
      var j :| 0 <= j < |snaps| && snaps[j] == live[p];
      MatchesInFields(b, live[p]);
      assert forall k :: 0 <= k < |snaps| && AsksForRepair(b, snaps[k], actions, remote, a) ==> snaps[k] == live[p];
    }
  }

  lemma MatchesInFields(b: SyncBaseline, snap: FileSnapshot)
    ensures MatchesPrimaryBaseline(snap, b) <==> StandsAsSynced(b, snap)
  {}

  /** A delete is kept exactly if no directory delete of the list lies above it; a directory is known by its last
      snapshot, or by a row that has neither hashes nor sizes on either side. */
  lemma CompressedExactly(actions: seq<PlannedAction>, a: PlannedAction)
    ensures a in Compress(actions) <==>
            a in actions &&
            (a.decision == MoveSecondaryToHistory ==>
               forall d :: d in actions && DeletesDirectory(d) ==> !IsDescendant(a.relativePath, d.relativePath))
  {
    var directories := FilterMap(DirectoryDeleteStep(), actions);
    CompressMember(actions, a);
    forall dir
      ensures dir in directories <==> exists d :: d in actions && DeletesDirectory(d) && d.relativePath == dir
    {
      DirectoryDeletesExactly(actions, dir);
    }
  }

  predicate DeletesDirectory(d: PlannedAction) {
    d.decision == MoveSecondaryToHistory &&
    ((d.snapshot.Some? && d.snapshot.value.kind == Directory) ||
     (d.baseline.Some? &&
      var b := d.baseline.value;
      b.primaryHash == None && b.secondaryHash == None && b.primaryHashStatus == Unavailable &&
      b.secondaryHashStatus == Unavailable && b.primarySize == 0 && b.secondarySize == 0))
  }

  predicate SendsFile(a: PlannedAction) {
    a.decision == ApplyToSecondary && a.snapshot.Some? && a.snapshot.value.kind == File
  }

  /** The order of the executed list: deletes and directory creates, then files of up to 8 MiB, 8,388,608 bytes, then
      larger ones. */
  lemma SmallFilesRunFirst(snaps: seq<FileSnapshot>, cached: seq<FileSnapshot>, rows: seq<SyncBaseline>,
                           remote: seq<RemoteFileState>, i: nat, j: nat)
    requires UniqueSnapshots(snaps) && UniqueBaselines(rows) && i < j < |AllActions(snaps, cached, rows, remote)|
    ensures var a, b := AllActions(snaps, cached, rows, remote)[i], AllActions(snaps, cached, rows, remote)[j];
            (SendsFile(a) ==> SendsFile(b)) &&
            (SendsFile(a) && SendsFile(b) && a.snapshot.value.size > 8388608 ==> b.snapshot.value.size > 8388608)
  {
    var all := AllActions(snaps, cached, rows, remote);
    AllActionsSound(snaps, cached, rows, remote);
    assert Sound(all[i], LiveIndex(snaps), BaselineIndex(rows)) && Sound(all[j], LiveIndex(snaps), BaselineIndex(rows));
    SortedByPriority(snaps, cached, rows, remote);
    assert PriorityKey()(all[i]) <= PriorityKey()(all[j]);
  }
}
