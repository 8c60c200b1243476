/** The history's size limit: old files are deleted until what is left fits. */
module HistoryEviction {
  import opened Prelude
  import opened Ordering

  /** Path components below the history directory, the file's age, and its size. */
  datatype HistoryFile = HistoryFile(path: seq<string>, createdMs: int, size: nat)

  predicate Older(a: HistoryFile, b: HistoryFile) {
    a.createdMs < b.createdMs || (a.createdMs == b.createdMs && PathLess(a.path, b.path))
  }

  function ByAge(): Less<HistoryFile> { (a: HistoryFile, b: HistoryFile) => Older(a, b) }

  ghost predicate UniquePaths(files: seq<HistoryFile>) {
    forall i, j :: 0 <= i < j < |files| ==> files[i].path != files[j].path
  }

  function TotalSize(files: seq<HistoryFile>): nat {
    if files == [] then 0 else TotalSize(files[..|files| - 1]) + files[|files| - 1].size
  }

  // ---- which files go ----

  /** Walk the ordered files; stop as soon as the rest fits, and step over the preserved one. */
  function Evicted(sorted: seq<HistoryFile>, total: int, limit: int, preserve: Option<seq<string>>): seq<HistoryFile> {
    if sorted == [] || total <= limit then []
    else if preserve == Some(sorted[0].path) then Evicted(sorted[1..], total, limit, preserve)
    else [sorted[0]] + Evicted(sorted[1..], total - sorted[0].size, limit, preserve)
  }

  function NotIn(gone: seq<HistoryFile>): HistoryFile -> bool { (f: HistoryFile) => f !in gone }

  function NotPreserved(preserve: Option<seq<string>>): HistoryFile -> bool {
    (f: HistoryFile) => preserve != Some(f.path)
  }

  class HistoryStore {
    var files: seq<HistoryFile>

    constructor (files: seq<HistoryFile>)
      ensures this.files == files
    {
      this.files := files;
    }

    /** `cleanup_to_size_limit_preserving`; `reach` removals succeed before one fails. */
    method CleanupToSizeLimitPreserving(limit: int, preserve: Option<seq<string>>, reach: nat)
      returns (ok: bool, deleted: nat)
      modifies this
      ensures var gone :=
              if limit < 0 then [] else Evicted(SortWith(ByAge(), old(files)), TotalSize(old(files)), limit, preserve);
              deleted == Min(reach, |gone|) && ok == (reach >= |gone|) &&
              files == Filter(NotIn(gone[..deleted]), old(files))
    {
      if limit < 0 {
        FilterAll(NotIn([]), files);
        return true, 0;
      }
      var total := TotalSize(files);
      var sorted := SortWith(ByAge(), files);
      var p := Progress(files, total, 0, false);
      ghost var all := Rest(p, sorted, limit, preserve, reach);
      assert sorted[0..] == sorted;
      var i := 0;
      while i < |sorted| && p.total > limit && !p.failed
        invariant i <= |sorted|
        invariant Rest(p, sorted[i..], limit, preserve, reach) == all
      {
        assert sorted[i..][1..] == sorted[i + 1..];
        p := Advance(p, sorted[i], limit, preserve, reach);
        i := i + 1;
      }
      NothingMore(p, sorted[i..], limit, preserve, reach);
      RestEvicts(files, total, 0, sorted, limit, preserve, reach);
      files, ok, deleted := p.left, !p.failed, p.deleted;
    }
  }

  /** The loop's variables: what is left, its size, the number of deletions, and whether one has failed. */
  datatype Progress = Progress(left: seq<HistoryFile>, total: int, deleted: nat, failed: bool)

  /** One file: stepped over, or deleted and taken off the running total. */
  function Advance(p: Progress, f: HistoryFile, limit: int, preserve: Option<seq<string>>, reach: nat): Progress {
    if p.failed || p.total <= limit || preserve == Some(f.path) then p
    else if p.deleted == reach then p.(failed := true)
    else Progress(Filter(NotIn([f]), p.left), p.total - f.size, p.deleted + 1, false)
  }

  /** The rest of the loop. */
  function Rest(p: Progress, ahead: seq<HistoryFile>, limit: int, preserve: Option<seq<string>>, reach: nat): Progress
    decreases |ahead|
  {
    if ahead == [] then p else Rest(Advance(p, ahead[0], limit, preserve, reach), ahead[1..], limit, preserve, reach)
  }

  lemma {:induction false} NothingMore(p: Progress, ahead: seq<HistoryFile>, limit: int, preserve: Option<seq<string>>,
                                       reach: nat)
    requires ahead == [] || p.failed || p.total <= limit
    ensures Rest(p, ahead, limit, preserve, reach) == p
  {
    if ahead != [] {
      NothingMore(p, ahead[1..], limit, preserve, reach);
    }
  }

  /** `gone` has been deleted from `left`, as far as the removals succeed. */
  ghost predicate Evicts(left: seq<HistoryFile>, done: nat, gone: seq<HistoryFile>, q: Progress, reach: nat)
    requires done <= reach
  {
    var k := Min(reach - done, |gone|);
    q.deleted == done + k && q.failed == (k < |gone|) && q.left == Filter(NotIn(gone[..k]), left)
  }

  lemma EvictsNothing(left: seq<HistoryFile>, done: nat, q: Progress, reach: nat)
    requires done <= reach && q.left == left && q.deleted == done && !q.failed
    ensures Evicts(left, done, [], q, reach)
  {
    FilterAll(NotIn([]), left);
  }

  lemma EvictsNoFurther(left: seq<HistoryFile>, gone: seq<HistoryFile>, q: Progress, reach: nat)
    requires q.left == left && q.deleted == reach && q.failed && gone != []
    ensures Evicts(left, reach, gone, q, reach)
  {
    assert gone[..0] == [];
    FilterAll(NotIn([]), left);
  }

  lemma EvictsOneMore(left: seq<HistoryFile>, done: nat, f: HistoryFile, later: seq<HistoryFile>, q: Progress,
                      reach: nat)
    requires done < reach && Evicts(Filter(NotIn([f]), left), done + 1, later, q, reach)
    ensures Evicts(left, done, [f] + later, q, reach)
  {
    var k := Min(reach - done - 1, |later|);
    assert ([f] + later)[..k + 1] == [f] + later[..k];
    FilterTwice(left, f, later[..k]);
  }

  /** From any point on, the loop deletes what is to be evicted among the files ahead, as far as it gets. */
  lemma {:induction false} RestEvicts(left: seq<HistoryFile>, total: int, done: nat, ahead: seq<HistoryFile>,
                                      limit: int,
                                      preserve: Option<seq<string>>, reach: nat)
    requires done <= reach
    ensures Evicts(left, done, Evicted(ahead, total, limit, preserve),
                   Rest(Progress(left, total, done, false), ahead, limit, preserve, reach), reach)
    decreases |ahead|
  {
    var p := Progress(left, total, done, false);
    if ahead == [] || total <= limit {
      NothingMore(p, ahead, limit, preserve, reach);
      EvictsNothing(left, done, p, reach);
    } else if preserve == Some(ahead[0].path) {
      RestEvicts(left, total, done, ahead[1..], limit, preserve, reach);
    } else if done == reach {
      NothingMore(p.(failed := true), ahead[1..], limit, preserve, reach);
      EvictsNoFurther(left, Evicted(ahead, total, limit, preserve), p.(failed := true), reach);
    } else {
      var f, later := ahead[0], ahead[1..];
      RestEvicts(Filter(NotIn([f]), left), total - f.size, done + 1, later, limit, preserve, reach);
      EvictsOneMore(left, done, f, Evicted(later, total - f.size, limit, preserve),
                    Rest(Progress(Filter(NotIn([f]), left), total - f.size, done + 1, false), later, limit, preserve,
                         reach),
                    reach);
    }
  }

  /** The running total is the size of what is left. */
  lemma {:induction false} RunningTotalIsExact(p: Progress, ahead: seq<HistoryFile>, limit: int,
                                               preserve: Option<seq<string>>, reach: nat)
    requires UniquePaths(p.left) && UniquePaths(ahead) && p.total == TotalSize(p.left)
    requires forall f :: f in ahead ==> f in p.left
    ensures var q := Rest(p, ahead, limit, preserve, reach);
            q.total == TotalSize(q.left)
    decreases |ahead|
  {
    if ahead != [] {
      var f, later := ahead[0], ahead[1..];
      assert ahead == [f] + later;
      RemoveHead(p.left, f, later);
      RunningTotalIsExact(Advance(p, f, limit, preserve, reach), later, limit, preserve, reach);
    }
  }

  lemma RemoveHead(left: seq<HistoryFile>, f: HistoryFile, later: seq<HistoryFile>)
    requires UniquePaths(left) && f in left && UniquePaths([f] + later) && forall g :: g in later ==> g in left
    ensures var after := Filter(NotIn([f]), left);
            UniquePaths(after) && TotalSize(after) == TotalSize(left) - f.size && UniquePaths(later) &&
            forall g :: g in later ==> g in after
  {
    FilterUnique(left, NotIn([f]));
    TotalWithout(left, f);
    assert forall i :: 0 <= i < |later| ==> ([f] + later)[i + 1] == later[i];
    forall g | g in later
      ensures g in Filter(NotIn([f]), left)
    {
      var i :| 0 <= i < |later| && later[i] == g;
      assert ([f] + later)[0].path != ([f] + later)[i + 1].path;
      FilterMember(NotIn([f]), left, g);
    }
  }

  lemma {:induction false} FilterTwice(files: seq<HistoryFile>, f: HistoryFile, gone: seq<HistoryFile>)
    ensures Filter(NotIn(gone), Filter(NotIn([f]), files)) == Filter(NotIn([f] + gone), files)
  {
    if files != [] {
      var n := |files| - 1;
      FilterTwice(files[..n], f, gone);
      var inner := Filter(NotIn([f]), files[..n]);
      if files[n] != f {
        assert (inner + [files[n]])[..|inner|] == inner;
      }
    }
  }

  lemma {:induction false} FilterUnique(files: seq<HistoryFile>, keep: HistoryFile -> bool)
    requires UniquePaths(files)
    ensures UniquePaths(Filter(keep, files))
  {
    if files != [] {
      var n := |files| - 1;
      assert forall i :: 0 <= i < n ==> files[..n][i] == files[i];
      FilterUnique(files[..n], keep);
      forall f | f in Filter(keep, files[..n])
        ensures f.path != files[n].path
      {
        FilterMember(keep, files[..n], f);
      }
    }
  }

  lemma {:induction false} TotalWithout(files: seq<HistoryFile>, f: HistoryFile)
    requires UniquePaths(files)
    ensures f in files ==> TotalSize(Filter(NotIn([f]), files)) == TotalSize(files) - f.size
    ensures f !in files ==> Filter(NotIn([f]), files) == files
  {
    if files != [] {
      var n := |files| - 1;
      assert forall i :: 0 <= i < n ==> files[..n][i] == files[i];
      TotalWithout(files[..n], f);
      SplitLast(files);
      var kept := Filter(NotIn([f]), files[..n]);
      if files[n] == f {
        assert f !in files[..n];
      } else {
        assert (kept + [files[n]])[..|kept|] == kept;
      }
    }
  }

  // ---- the order by age ----

  lemma AgeIsStrict(files: seq<HistoryFile>)
    requires UniquePaths(files)
    ensures StrictOrder(ByAge(), Elements(files))
  {
    forall a, b, c | a in Elements(files) && b in Elements(files) && c in Elements(files)
      ensures !Older(a, a) && (Older(a, b) || Older(b, a) || a == b)
      ensures Older(a, b) && Older(b, c) ==> Older(a, c)
    {
      PathTotal(a.path, a.path);
      PathTotal(a.path, b.path);
      if PathLess(a.path, b.path) && PathLess(b.path, c.path) {
        PathTransitive(a.path, b.path, c.path);
      }
    }
  }

  lemma SortFiles(files: seq<HistoryFile>)
    requires UniquePaths(files)
    ensures var sorted := SortWith(ByAge(), files);
            InOrder(ByAge(), sorted) && Elements(sorted) == Elements(files) &&
            (forall f :: f in sorted <==> f in files) && UniquePaths(sorted)
  {
    var sorted := SortWith(ByAge(), files);
    AgeIsStrict(files);
    SortOrders(ByAge(), files);
    forall f
      ensures f in sorted <==> f in files
    {
      NotAmong(sorted, f);
      NotAmong(files, f);
    }
    forall i, j | 0 <= i < j < |sorted|
      ensures sorted[i].path != sorted[j].path
    {
      assert Older(sorted[i], sorted[j]);
      PathTotal(sorted[i].path, sorted[i].path);
      NotAmong(sorted, sorted[i]);
      NotAmong(sorted, sorted[j]);
    }
  }

  // ---- what eviction does ----

  /** The deleted files are the shortest run of the oldest, the preserved one set aside, that brings the rest
      within the limit; or all of them, if that is not enough. */
  lemma {:induction false} EvictsShortestOldestRun(sorted: seq<HistoryFile>, total: int, limit: int,
                                                   preserve: Option<seq<string>>)
    ensures var gone := Evicted(sorted, total, limit, preserve);
            var candidates := Filter(NotPreserved(preserve), sorted);
            gone <= candidates &&
            (gone == candidates || total - TotalSize(gone) <= limit) &&
            forall m :: 0 <= m < |gone| ==> total - TotalSize(gone[..m]) > limit
    decreases |sorted|
  {
    if sorted != [] && total > limit {
      FilterFront(NotPreserved(preserve), sorted);
      var rest := if preserve == Some(sorted[0].path) then total else total - sorted[0].size;
      EvictsShortestOldestRun(sorted[1..], rest, limit, preserve);
      if preserve != Some(sorted[0].path) {
        var later := Evicted(sorted[1..], rest, limit, preserve);
        TotalOfCons(sorted[0], later);
        StillOver(sorted[0], later, total, limit);
      }
    }
  }

  lemma StillOver(f: HistoryFile, later: seq<HistoryFile>, total: int, limit: int)
    requires total > limit
    requires forall m :: 0 <= m < |later| ==> total - f.size - TotalSize(later[..m]) > limit
    ensures forall m :: 0 <= m < |[f] + later| ==> total - TotalSize(([f] + later)[..m]) > limit
  {
    var gone := [f] + later;
    forall m | 0 <= m < |gone|
      ensures total - TotalSize(gone[..m]) > limit
    {
      if m > 0 {
        assert gone[..m] == [f] + later[..m - 1];
        TotalOfCons(f, later[..m - 1]);
      }
    }
  }

  lemma {:induction false} FilterFront(keep: HistoryFile -> bool, s: seq<HistoryFile>)
    requires s != []
    ensures Filter(keep, s) == (if keep(s[0]) then [s[0]] else []) + Filter(keep, s[1..])
  {
    var n := |s| - 1;
    if n > 0 {
      FilterFront(keep, s[..n]);
      assert s[..n][1..] == s[1..][..n - 1];
    } else {
      assert s[..n] == [] && s[1..] == [];
    }
  }

  lemma {:induction false} TotalOfCons(f: HistoryFile, s: seq<HistoryFile>)
    ensures TotalSize([f] + s) == f.size + TotalSize(s)
  {
    if s == [] {
      assert [f] + s == [f] && [f][..0] == [];
    } else {
      var n := |s| - 1;
      TotalOfCons(f, s[..n]);
      assert ([f] + s)[..n + 1] == [f] + s[..n];
    }
  }

  /** The whole contract of a cleanup that is not interrupted: nothing newer goes before something older, the
      preserved file stays, every deletion was still needed when it happened, and in the end the rest fits or
      only the preserved file is left. */
  lemma CleanupGuarantees(files: seq<HistoryFile>, limit: int, preserve: Option<seq<string>>)
    requires UniquePaths(files)
    ensures var gone := Evicted(SortWith(ByAge(), files), TotalSize(files), limit, preserve);
            var left := Filter(NotIn(gone), files);
            (forall f :: f in gone ==> f in files && preserve != Some(f.path)) &&
            (forall f, g :: f in gone && g in left && preserve != Some(g.path) ==> Older(f, g)) &&
            TotalSize(left) == TotalSize(files) - TotalSize(gone) &&
            (TotalSize(left) <= limit || forall g :: g in left ==> preserve == Some(g.path)) &&
            forall m :: 0 <= m < |gone| ==> TotalSize(files) - TotalSize(gone[..m]) > limit
  {
    var sorted := SortWith(ByAge(), files);
    var total := TotalSize(files);
    var gone := Evicted(sorted, total, limit, preserve);
    var candidates := Filter(NotPreserved(preserve), sorted);
    SortFiles(files);
    EvictsShortestOldestRun(sorted, total, limit, preserve);
    CandidatesInOrder(sorted, preserve);
    forall f
      ensures f in candidates <==> f in files && preserve != Some(f.path)
    {
      FilterMember(NotPreserved(preserve), sorted, f);
    }
    forall f | f in gone
      ensures f in candidates
    {
      var k :| 0 <= k < |gone| && gone[k] == f;
      assert candidates[k] == f;
    }
    TotalOfRest(files, gone);
    forall g
      ensures g in Filter(NotIn(gone), files) <==> g in files && g !in gone
    {
      FilterMember(NotIn(gone), files, g);
    }
    forall f, g | f in gone && g in Filter(NotIn(gone), files) && preserve != Some(g.path)
      ensures Older(f, g)
    {
      OlderThanRest(candidates, gone, f, g);
    }
  }

  lemma {:induction false} CandidatesInOrder(sorted: seq<HistoryFile>, preserve: Option<seq<string>>)
    requires InOrder(ByAge(), sorted) && UniquePaths(sorted)
    ensures InOrder(ByAge(), Filter(NotPreserved(preserve), sorted)) &&
            UniquePaths(Filter(NotPreserved(preserve), sorted))
  {
    FilterUnique(sorted, NotPreserved(preserve));
    if sorted != [] {
      var n := |sorted| - 1;
      assert forall i :: 0 <= i < n ==> sorted[..n][i] == sorted[i];
      CandidatesInOrder(sorted[..n], preserve);
      forall f | f in Filter(NotPreserved(preserve), sorted[..n])
        ensures Older(f, sorted[n])
      {
        FilterMember(NotPreserved(preserve), sorted[..n], f);
        var k :| 0 <= k < n && sorted[..n][k] == f;
        assert ByAge()(sorted[k], sorted[n]);
      }
    }
  }

  lemma OlderThanRest(candidates: seq<HistoryFile>, gone: seq<HistoryFile>, f: HistoryFile, g: HistoryFile)
    requires InOrder(ByAge(), candidates) && gone <= candidates && f in gone && g in candidates && g !in gone
    ensures Older(f, g)
  {
    var i :| 0 <= i < |gone| && gone[i] == f;
    var j :| 0 <= j < |candidates| && candidates[j] == g;
    assert forall k :: 0 <= k < |gone| ==> candidates[k] in gone;
    assert ByAge()(candidates[i], candidates[j]);
  }

  lemma {:induction false} TotalOfRest(files: seq<HistoryFile>, gone: seq<HistoryFile>)
    requires UniquePaths(files) && UniquePaths(gone) && forall f :: f in gone ==> f in files
    ensures TotalSize(Filter(NotIn(gone), files)) == TotalSize(files) - TotalSize(gone)
    decreases |gone|
  {
    if gone == [] {
      FilterAll(NotIn([]), files);
    } else {
      var f, later := gone[0], gone[1..];
      assert gone == [f] + later;
      RemoveHead(files, f, later);
      TotalOfRest(Filter(NotIn([f]), files), later);
      FilterTwice(files, f, later);
      TotalOfCons(f, later);
    }
  }

  /** By creation time, and by path where that is equal: nothing that stays is older than what goes. */
  lemma OldestGoFirst(files: seq<HistoryFile>, limit: int, preserve: Option<seq<string>>, f: HistoryFile,
                      g: HistoryFile)
    requires UniquePaths(files)
    requires var gone := Evicted(SortWith(ByAge(), files), TotalSize(files), limit, preserve);
             f in gone && g in Filter(NotIn(gone), files) && preserve != Some(g.path)
    ensures f.createdMs <= g.createdMs && (f.createdMs == g.createdMs ==> PathLess(f.path, g.path))
  {
    CleanupGuarantees(files, limit, preserve);
    assert Older(f, g);
  }

  // ---- which files an eviction spares ----

  /** What cleanup would still hold when it comes to `f`: everything that is not older, and the preserved file. */
  function HeldAt(f: HistoryFile, preserve: Option<seq<string>>): HistoryFile -> bool {
    (g: HistoryFile) => !Older(g, f) || preserve == Some(g.path)
  }

  lemma {:induction false} FilterAgrees(p: HistoryFile -> bool, q: HistoryFile -> bool, files: seq<HistoryFile>)
    requires forall f :: f in files ==> p(f) == q(f)
    ensures Filter(p, files) == Filter(q, files)
  {
    if files != [] {
      FilterAgrees(p, q, files[..|files| - 1]);
    }
  }

  lemma {:induction false} PrefixTotal(files: seq<HistoryFile>, m: nat, k: nat)
    requires m <= k <= |files|
    ensures TotalSize(files[..m]) <= TotalSize(files[..k])
    decreases k
  {
    if m < k {
      assert files[..k][..k - 1] == files[..k - 1];
      PrefixTotal(files, m, k - 1);
    }
  }

  /** The eviction reaches a candidate exactly when the candidates before it do not free enough. */
  lemma EvictionReaches(sorted: seq<HistoryFile>, total: int, limit: int, preserve: Option<seq<string>>, k: nat)
    requires k < |Filter(NotPreserved(preserve), sorted)|
    ensures k < |Evicted(sorted, total, limit, preserve)| <==>
            total - TotalSize(Filter(NotPreserved(preserve), sorted)[..k]) > limit
  {
    var gone, candidates := Evicted(sorted, total, limit, preserve), Filter(NotPreserved(preserve), sorted);
    EvictsShortestOldestRun(sorted, total, limit, preserve);
    if k < |gone| {
      assert gone[..k] == candidates[..k];
    } else {
      assert gone == candidates[..|gone|];
      PrefixTotal(candidates, |gone|, k);
    }
  }

  /** A file goes exactly when it is not the preserved one and what is not older than it, with the preserved
      file, exceeds the limit: the fate of a file does not depend on anything older. */
  lemma EvictedExactly(files: seq<HistoryFile>, limit: int, preserve: Option<seq<string>>, f: HistoryFile)
    requires UniquePaths(files) && f in files
    ensures f in Evicted(SortWith(ByAge(), files), TotalSize(files), limit, preserve) <==>
            preserve != Some(f.path) && TotalSize(Filter(HeldAt(f, preserve), files)) > limit
  {
    var sorted := SortWith(ByAge(), files);
    var candidates := Filter(NotPreserved(preserve), sorted);
    SortFiles(files);
    CandidatesInOrder(sorted, preserve);
    forall g
      ensures g in candidates <==> g in files && preserve != Some(g.path)
    {
      FilterMember(NotPreserved(preserve), sorted, g);
    }
    GoneByPosition(sorted, TotalSize(files), limit, preserve, f);
    if preserve != Some(f.path) {
      var k :| 0 <= k < |candidates| && candidates[k] == f;
      EvictionReaches(sorted, TotalSize(files), limit, preserve, k);
      HeldTotal(files, candidates, preserve, k);
    }
  }

  lemma GoneByPosition(sorted: seq<HistoryFile>, total: int, limit: int, preserve: Option<seq<string>>, f: HistoryFile)
    requires UniquePaths(Filter(NotPreserved(preserve), sorted))
    ensures var gone, candidates := Evicted(sorted, total, limit, preserve), Filter(NotPreserved(preserve), sorted);
            (f in gone ==> f in candidates) &&
            forall k: nat :: k < |candidates| && candidates[k] == f ==> (f in gone <==> k < |gone|)
  {
    var gone, candidates := Evicted(sorted, total, limit, preserve), Filter(NotPreserved(preserve), sorted);
    EvictsShortestOldestRun(sorted, total, limit, preserve);
    assert forall j :: 0 <= j < |gone| ==> gone[j] == candidates[j];
  }

  /** The files that were created after `f`, or with it and not before it by path, and the preserved file. */
  function NewerOrPreserved(f: HistoryFile, preserve: Option<seq<string>>): HistoryFile -> bool {
    (g: HistoryFile) =>
      g.createdMs > f.createdMs || (g.createdMs == f.createdMs && !PathLess(g.path, f.path)) || preserve == Some(g.path)
  }

  /** The same by creation times. */
  lemma EvictedByAgeExactly(files: seq<HistoryFile>, limit: int, preserve: Option<seq<string>>, f: HistoryFile)
    requires UniquePaths(files) && f in files
    ensures f in Evicted(SortWith(ByAge(), files), TotalSize(files), limit, preserve) <==>
            preserve != Some(f.path) && TotalSize(Filter(NewerOrPreserved(f, preserve), files)) > limit
  {
    EvictedExactly(files, limit, preserve, f);
    FilterAgrees(HeldAt(f, preserve), NewerOrPreserved(f, preserve), files);
  }

  lemma HeldTotal(files: seq<HistoryFile>, candidates: seq<HistoryFile>, preserve: Option<seq<string>>, k: nat)
    requires UniquePaths(files) && InOrder(ByAge(), candidates) && UniquePaths(candidates) && k < |candidates|
    requires forall g :: g in candidates <==> g in files && preserve != Some(g.path)
    ensures TotalSize(Filter(HeldAt(candidates[k], preserve), files)) == TotalSize(files) - TotalSize(candidates[..k])
  {
    var f, before := candidates[k], candidates[..k];
    forall g | g in files
      ensures NotIn(before)(g) == HeldAt(f, preserve)(g)
    {
      if g in candidates {
        var j :| 0 <= j < |candidates| && candidates[j] == g;
        AgeIsStrict(candidates);
        assert g in Elements(candidates) && f in Elements(candidates) by {
          NotAmong(candidates, g);
          NotAmong(candidates, f);
        }
        assert !Older(f, f) && (Older(g, f) && Older(f, g) ==> Older(f, f));
        if j < k {
          assert before[j] == g && ByAge()(g, f);
        } else if k < j {
          assert ByAge()(f, g);
        }
      }
    }
    FilterAgrees(NotIn(before), HeldAt(f, preserve), files);
    TotalOfRest(files, before);
  }

  /** Moving something to the history asks for its destination to be preserved. For a directory that path is no
      file's, and asking for it does nothing at all. */
  lemma {:induction false} PreservedDirectoryIsIgnored(sorted: seq<HistoryFile>, total: int, limit: int,
                                                       dir: seq<string>)
    requires forall f :: f in sorted ==> f.path != dir
    ensures Evicted(sorted, total, limit, Some(dir)) == Evicted(sorted, total, limit, None)
    decreases |sorted|
  {
    if sorted != [] && total > limit {
      PreservedDirectoryIsIgnored(sorted[1..], total - sorted[0].size, limit, dir);
    }
  }

  predicate Beneath(path: seq<string>, dir: seq<string>) { dir < path }

  /** What was just moved as a directory stays whole exactly when each of its files, together with everything
      in the history that is not older, fits the limit. */
  lemma MovedTreeStaysExactly(files: seq<HistoryFile>, limit: int, dir: seq<string>)
    requires UniquePaths(files) && forall f :: f in files ==> f.path != dir
    ensures var gone := Evicted(SortWith(ByAge(), files), TotalSize(files), limit, Some(dir));
            (forall f :: f in files && Beneath(f.path, dir) ==> f !in gone) <==>
            forall f :: f in files && Beneath(f.path, dir) ==> TotalSize(Filter(HeldAt(f, None), files)) <= limit
  {
    SortFiles(files);
    PreservedDirectoryIsIgnored(SortWith(ByAge(), files), TotalSize(files), limit, dir);
    forall f | f in files
      ensures f in Evicted(SortWith(ByAge(), files), TotalSize(files), limit, None) <==>
              TotalSize(Filter(HeldAt(f, None), files)) > limit
    {
      EvictedExactly(files, limit, None, f);
    }
  }

  /** A file larger than the limit, moved as the one thing in its directory, is gone at once. */
  lemma MovedTreeIsNotPreserved(batch: string, dir: string, name: string, now: int, size: nat, limit: int)
    requires 0 <= limit < size
    ensures var file := HistoryFile(["trash", batch, dir, name], now, size);
            Evicted(SortWith(ByAge(), [file]), TotalSize([file]), limit, Some(["trash", batch, dir])) == [file]
  {
    var file := HistoryFile(["trash", batch, dir, name], now, size);
    assert [file][..0] == [] && SortWith(ByAge(), []) == [];
    assert TotalSize([file]) == size;
    assert [file][1..] == [];
    assert |file.path| == 4;
  }
}
