/** The scanner: a walk over a folder tree, and the reuse of hashes from an earlier scan. */
module ScanCache {
  import opened Prelude
  import opened Paths
  import opened Model
  import opened ActionList

  /** Larger files are not hashed. */
  const EAGER_HASH_LIMIT: int := 100 * 1024 * 1024

  /** `Unreadable` makes the whole scan fail; a file that cannot be hashed does not. */
  datatype Node =
    | Link
    | Unreadable
    | Regular(size: int, modifiedMs: int, content: Hash, hashable: bool)
    | Dir(entries: Listing)

  datatype Listing = Nil | Entry(name: string, node: Node, rest: Listing)

  /** The platform's rule: name, and whether it is a directory. */
  type Ignore = (string, bool) -> bool

  datatype Mode = Metadata | Full(cache: map<RelPath, FileSnapshot>)

  function At(prefix: RelPath, name: string): RelPath { if prefix == "" then name else prefix + "/" + name }

  // ---- one entry ----

  predicate CacheHit(cache: map<RelPath, FileSnapshot>, path: RelPath, file: Node)
    requires file.Regular?
  {
    path in cache && cache[path].kind == File && cache[path].size == file.size &&
    cache[path].modifiedMs == file.modifiedMs && cache[path].hashStatus == Verified && cache[path].hash.Some?
  }

  function HashOf(mode: Mode, path: RelPath, file: Node): (Option<Hash>, HashStatus)
    requires file.Regular?
  {
    if mode.Metadata? then (None, Unavailable)
    else if file.size > EAGER_HASH_LIMIT then (None, UnverifiedLargeFile)
    else if CacheHit(mode.cache, path, file) then (mode.cache[path].hash, Verified)
    else if file.hashable then (Some(file.content), Verified)
    else (None, Unavailable)
  }

  function Snapshot(mode: Mode, v: Visit): FileSnapshot {
    match v.node
    case Regular(size, modifiedMs, _, _) =>
      var (hash, status) := HashOf(mode, v.path, v.node);
      FileSnapshot(v.path, File, size, modifiedMs, hash, status, false, false)
    case Dir(_) => FileSnapshot(v.path, Directory, 0, 0, None, Unavailable, false, false)
    case _ => FileSnapshot(v.path, File, 0, 0, None, Unavailable, false, true)
  }

  // ---- the walk ----

  datatype Visit = Visit(path: RelPath, node: Node)

  /** Entries in the order the walk meets them; links are met even when their name is ignored. */
  function Visits(prefix: RelPath, listing: Listing, ignored: Ignore): seq<Visit>
    decreases listing, 0
  {
    match listing
    case Nil => []
    case Entry(name, node, rest) => NodeVisits(At(prefix, name), name, node, ignored) + Visits(prefix, rest, ignored)
  }

  function NodeVisits(path: RelPath, name: string, node: Node, ignored: Ignore): seq<Visit>
    decreases node, 1
  {
    if node.Link? then [Visit(path, node)]
    else if ignored(name, node.Dir?) then []
    else if node.Dir? then [Visit(path, node)] + Visits(path, node.entries, ignored)
    else [Visit(path, node)]
  }

  predicate Fails(visits: seq<Visit>) { exists v | v in visits :: v.node.Unreadable? }

  function Snapshots(mode: Mode, visits: seq<Visit>): (snaps: seq<FileSnapshot>)
    ensures |snaps| == |visits|
    ensures forall i :: 0 <= i < |visits| ==> snaps[i] == Snapshot(mode, visits[i])
  {
    seq(|visits|, i requires 0 <= i < |visits| => Snapshot(mode, visits[i]))
  }

  class Scanner {
    const mode: Mode
    const ignored: Ignore
    var results: seq<FileSnapshot>

    constructor (mode: Mode, ignored: Ignore)
      ensures this.mode == mode && this.ignored == ignored && results == []
    {
      this.mode, this.ignored, results := mode, ignored, [];
    }

    /** `walk_dir`; false is an error, which ends the scan. */
    method WalkDir(prefix: RelPath, listing: Listing) returns (ok: bool)
      modifies this
      ensures ok <==> !Fails(Visits(prefix, listing, ignored))
      ensures ok ==> results == old(results) + Snapshots(mode, Visits(prefix, listing, ignored))
      decreases listing, 0
    {
      var rest := listing;
      ghost var done: seq<Visit> := [];
      while rest.Entry?
        invariant Visits(prefix, listing, ignored) == done + Visits(prefix, rest, ignored)
        invariant !Fails(done)
        invariant results == old(results) + Snapshots(mode, done)
        invariant rest == listing || rest < listing
        decreases rest
      {
        ghost var visited := NodeVisits(At(prefix, rest.name), rest.name, rest.node, ignored);
        ghost var tail := Visits(prefix, rest.rest, ignored);
        SnapshotsOfSum(mode, done, visited);
        ok := WalkEntry(At(prefix, rest.name), rest.name, rest.node);
        if !ok {
          return;
        }
        Regroup(done, visited, tail);
        done := done + visited;
        rest := rest.rest;
      }
      ok := true;
      assert done + [] == done;
    }

    method WalkEntry(path: RelPath, name: string, node: Node) returns (ok: bool)
      modifies this
      ensures ok <==> !Fails(NodeVisits(path, name, node, ignored))
      ensures ok ==> results == old(results) + Snapshots(mode, NodeVisits(path, name, node, ignored))
      decreases node, 1
    {
      if node.Link? {
        results := results + [Snapshot(mode, Visit(path, node))];
        return true;
      }
      if ignored(name, node.Dir?) {
        return true;
      }
      if node.Unreadable? {
        assert Visit(path, node) in NodeVisits(path, name, node, ignored);
        return false;
      }
      results := results + [Snapshot(mode, Visit(path, node))];
      ok := true;
      if node.Dir? {
        ok := WalkDir(path, node.entries);
        FolderVisits(mode, path, name, node, ignored);
      }
    }
  }

  lemma FolderVisits(mode: Mode, path: RelPath, name: string, node: Node, ignored: Ignore)
    requires node.Dir? && !ignored(name, true)
    ensures var all, below := NodeVisits(path, name, node, ignored), Visits(path, node.entries, ignored);
            (Fails(all) <==> Fails(below)) &&
            forall s :: s + Snapshots(mode, all) == s + [Snapshot(mode, Visit(path, node))] + Snapshots(mode, below)
  {
    var first, below := [Visit(path, node)], Visits(path, node.entries, ignored);
    SnapshotsOfSum(mode, first, below);
    assert Snapshots(mode, first) == [Snapshot(mode, Visit(path, node))];
  }

  lemma Regroup<T>(a: seq<T>, b: seq<T>, c: seq<T>)
    ensures a + (b + c) == (a + b) + c
  {}

  lemma SnapshotsOfSum(mode: Mode, a: seq<Visit>, b: seq<Visit>)
    ensures Snapshots(mode, a + b) == Snapshots(mode, a) + Snapshots(mode, b)
    ensures forall s :: s + Snapshots(mode, a + b) == s + Snapshots(mode, a) + Snapshots(mode, b)
  {}

  /** `scan_root_with_cache`. */
  method ScanRoot(root: Listing, mode: Mode, ignored: Ignore) returns (snaps: Option<seq<FileSnapshot>>)
    ensures snaps == Scanned(root, mode, ignored)
  {
    var scanner := new Scanner(mode, ignored);
    var ok := scanner.WalkDir("", root);
    snaps := if ok then Some(scanner.results) else None;
    assert [] + Snapshots(mode, Visits("", root, ignored)) == Snapshots(mode, Visits("", root, ignored));
  }

  function Scanned(root: Listing, mode: Mode, ignored: Ignore): Option<seq<FileSnapshot>> {
    var visits := Visits("", root, ignored);
    if Fails(visits) then None else Some(Snapshots(mode, visits))
  }

  /** A scan fails exactly if it meets something whose data it cannot read; a file that cannot be hashed does not stop
      it. Otherwise it lists as many entries as it meets. */
  lemma ScanFailsExactly(root: Listing, mode: Mode, ignored: Ignore)
    ensures Scanned(root, mode, ignored).None? <==> exists v :: v in Visits("", root, ignored) && v.node == Unreadable
    ensures Scanned(root, mode, ignored).Some? ==>
              |Scanned(root, mode, ignored).value| == |Visits("", root, ignored)|
  {}

  // ---- each entry once ----

  predicate CleanName(name: string) { name != "" && '/' !in name }

  function Names(listing: Listing): set<string> {
    match listing
    case Nil => {}
    case Entry(name, _, rest) => {name} + Names(rest)
  }

  /** Names are single components, and unique in their directory. */
  predicate Clean(listing: Listing) {
    match listing
    case Nil => true
    case Entry(name, node, rest) =>
      CleanName(name) && name !in Names(rest) && Clean(rest) && (node.Dir? ==> Clean(node.entries))
  }

  function Child(listing: Listing, name: string): Option<Node> {
    match listing
    case Nil => None
    case Entry(n, node, rest) => if n == name then Some(node) else Child(rest, name)
  }

  /** What stands at a path of the tree, as far as the rules let the scanner see. */
  function Find(listing: Listing, parts: seq<string>, ignored: Ignore): Option<Node>
    decreases |parts|
  {
    if parts == [] then None
    else
      var node := Child(listing, parts[0]);
      if node.None? then None
      else if node.value.Link? then if |parts| == 1 then node else None
      else if ignored(parts[0], node.value.Dir?) then None
      else if |parts| == 1 then node
      else if node.value.Dir? then Find(node.value.entries, parts[1..], ignored)
      else None
  }

  function PathOf(prefix: RelPath, parts: seq<string>): RelPath
    decreases |parts|
  {
    if parts == [] then prefix else PathOf(At(prefix, parts[0]), parts[1..])
  }

  lemma ChildInNames(listing: Listing, name: string)
    ensures Child(listing, name).Some? <==> name in Names(listing)
  {}

  /** Everything that can be found is visited. */
  lemma {:induction false} FoundIsVisited(prefix: RelPath, listing: Listing, parts: seq<string>, ignored: Ignore)
    requires Find(listing, parts, ignored).Some?
    ensures Visit(PathOf(prefix, parts), Find(listing, parts, ignored).value) in Visits(prefix, listing, ignored)
    decreases listing
  {
    if listing.Entry? {
      if listing.name == parts[0] {
        var path := At(prefix, listing.name);
        assert PathOf(prefix, parts) == PathOf(path, parts[1..]);
        if |parts| == 1 {
          assert PathOf(path, parts[1..]) == path;
          assert Visit(path, listing.node) in NodeVisits(path, listing.name, listing.node, ignored);
        } else {
          FoundIsVisited(path, listing.node.entries, parts[1..], ignored);
        }
      } else {
        assert Find(listing.rest, parts, ignored) == Find(listing, parts, ignored);
        FoundIsVisited(prefix, listing.rest, parts, ignored);
      }
    }
  }

  /** Everything that is visited can be found. */
  lemma {:induction false} VisitedIsFound(prefix: RelPath, listing: Listing, ignored: Ignore, v: Visit)
    returns (parts: seq<string>)
    requires Clean(listing) && v in Visits(prefix, listing, ignored)
    ensures parts != [] && Find(listing, parts, ignored) == Some(v.node) && PathOf(prefix, parts) == v.path
    decreases listing
  {
    var path := At(prefix, listing.name);
    if v in Visits(prefix, listing.rest, ignored) {
      parts := VisitedIsFound(prefix, listing.rest, ignored, v);
      ChildInNames(listing.rest, parts[0]);
      assert parts[0] != listing.name;
      assert Find(listing, parts, ignored) == Find(listing.rest, parts, ignored);
    } else if v == Visit(path, listing.node) {
      parts := [listing.name];
      assert PathOf(prefix, parts) == PathOf(path, []);
    } else {
      var below := VisitedIsFound(path, listing.node.entries, ignored, v);
      parts := [listing.name] + below;
      assert parts[1..] == below;
    }
  }

  // ---- the shape of the paths ----

  lemma SiblingsApart(prefix: RelPath, a: string, b: string, p: RelPath)
    requires CleanName(a) && CleanName(b) && AtOrUnder(p, At(prefix, a)) && AtOrUnder(p, At(prefix, b))
    ensures a == b
  {
    var k := if prefix == "" then 0 else |prefix| + 1;
    if p != At(prefix, a) && p != At(prefix, b) {
      AncestorsComparable(p, At(prefix, a), At(prefix, b));
    }
    assert At(prefix, a)[k..] == a && At(prefix, b)[k..] == b;
  }

  /** Every visited path lies at or under one of the names of the directory. */
  lemma {:induction false} VisitedUnderName(prefix: RelPath, listing: Listing, ignored: Ignore, v: Visit)
    returns (name: string)
    requires Clean(listing) && v in Visits(prefix, listing, ignored)
    ensures name in Names(listing) && CleanName(name) && AtOrUnder(v.path, At(prefix, name))
    decreases listing
  {
    if v in NodeVisits(At(prefix, listing.name), listing.name, listing.node, ignored) {
      name := listing.name;
      if v.path != At(prefix, name) {
        var path := At(prefix, name);
        var inner := VisitedUnderName(path, listing.node.entries, ignored, v);
        EntryIsBelow(path, inner, v.path);
      }
    } else {
      name := VisitedUnderName(prefix, listing.rest, ignored, v);
    }
  }

  lemma EntryIsBelow(dir: RelPath, name: string, p: RelPath)
    requires dir != "" && AtOrUnder(p, At(dir, name))
    ensures IsDescendant(p, dir)
  {
    assert At(dir, name)[..|dir|] == dir && At(dir, name)[|dir|] == '/';
    if p != At(dir, name) {
      assert p[..|At(dir, name)|][..|dir|] == p[..|dir|];
    }
  }

  ghost predicate UniqueVisits(visits: seq<Visit>) {
    forall i, j :: 0 <= i < j < |visits| ==> visits[i].path != visits[j].path
  }

  /** No path is listed twice. */
  lemma {:induction false} VisitsAreUnique(prefix: RelPath, listing: Listing, ignored: Ignore)
    requires Clean(listing)
    ensures UniqueVisits(Visits(prefix, listing, ignored))
    decreases listing, 0
  {
    if listing.Entry? {
      var path := At(prefix, listing.name);
      var a, b := NodeVisits(path, listing.name, listing.node, ignored), Visits(prefix, listing.rest, ignored);
      NodeVisitsAreUnique(path, listing.name, listing.node, ignored);
      VisitsAreUnique(prefix, listing.rest, ignored);
      forall i, j | 0 <= i < |a| && 0 <= j < |b|
        ensures a[i].path != b[j].path
      {
        VisitedUnderEntry(path, listing.name, listing.node, ignored, a[i]);
        var other := VisitedUnderName(prefix, listing.rest, ignored, b[j]);
        if a[i].path == b[j].path {
          SiblingsApart(prefix, listing.name, other, a[i].path);
        }
      }
    }
  }

  lemma NodeVisitsAreUnique(path: RelPath, name: string, node: Node, ignored: Ignore)
    requires path != "" && (node.Dir? ==> Clean(node.entries))
    ensures UniqueVisits(NodeVisits(path, name, node, ignored))
    decreases node, 1
  {
    if node.Dir? {
      var below := Visits(path, node.entries, ignored);
      VisitsAreUnique(path, node.entries, ignored);
      forall j | 0 <= j < |below|
        ensures below[j].path != path
      {
        BelowDirectory(path, node.entries, ignored, below[j]);
      }
    }
  }

  lemma BelowDirectory(path: RelPath, entries: Listing, ignored: Ignore, v: Visit)
    requires path != "" && Clean(entries) && v in Visits(path, entries, ignored)
    ensures IsDescendant(v.path, path)
  {
    var name := VisitedUnderName(path, entries, ignored, v);
    EntryIsBelow(path, name, v.path);
  }

  lemma VisitedUnderEntry(path: RelPath, name: string, node: Node, ignored: Ignore, v: Visit)
    requires path != "" && (node.Dir? ==> Clean(node.entries)) && v in NodeVisits(path, name, node, ignored)
    ensures AtOrUnder(v.path, path)
  {
    if v.path != path {
      BelowDirectory(path, node.entries, ignored, v);
    }
  }

  // ---- directories before their contents ----

  /** `q` lies inside the directory `prefix`. */
  predicate Inside(q: RelPath, prefix: RelPath) { prefix == "" || IsDescendant(q, prefix) }

  ghost predicate ParentBefore(visits: seq<Visit>, j: nat, q: RelPath) {
    exists i :: 0 <= i < j && i < |visits| && visits[i].path == q && visits[i].node.Dir?
  }

  lemma NothingBetween(prefix: RelPath, name: string, q: RelPath)
    requires CleanName(name) && Inside(q, prefix)
    ensures !IsDescendant(At(prefix, name), q)
  {
    var path := At(prefix, name);
    var k := if prefix == "" then 0 else |prefix| + 1;
    if |q| < |path| && |q| >= k {
      assert path[|q|] == name[|q| - k];
    }
  }

  lemma ParentShifts(before: seq<Visit>, some: seq<Visit>, after: seq<Visit>, j: nat, q: RelPath)
    requires j < |some| && ParentBefore(some, j, q)
    ensures ParentBefore(before + some + after, |before| + j, q)
  {
    var i :| 0 <= i < j && some[i].path == q && some[i].node.Dir?;
    assert (before + some + after)[|before| + i] == some[i];
  }

  /** Every directory above a visited path, up to the one the walk began in, was visited before it. */
  lemma {:induction false} ParentsVisitedFirst(prefix: RelPath, listing: Listing, ignored: Ignore, j: nat, q: RelPath)
    requires Clean(listing) && j < |Visits(prefix, listing, ignored)|
    requires IsDescendant(Visits(prefix, listing, ignored)[j].path, q) && Inside(q, prefix)
    ensures ParentBefore(Visits(prefix, listing, ignored), j, q)
    decreases listing
  {
    var path := At(prefix, listing.name);
    var first, rest := NodeVisits(path, listing.name, listing.node, ignored), Visits(prefix, listing.rest, ignored);
    var visits := Visits(prefix, listing, ignored);
    if j >= |first| {
      ParentsVisitedFirst(prefix, listing.rest, ignored, j - |first|, q);
      ParentShifts(first, rest, [], j - |first|, q);
      assert visits == first + rest + [];
    } else if visits[j].path == path {
      NothingBetween(prefix, listing.name, q);
    } else {
      var below := Visits(path, listing.node.entries, ignored);
      assert first == [Visit(path, listing.node)] + below && visits[j] == below[j - 1];
      BelowDirectory(path, listing.node.entries, ignored, visits[j]);
      AncestorsComparable(visits[j].path, q, path);
      if q == path {
        assert visits[0] == Visit(path, listing.node);
      } else if IsDescendant(q, path) {
        ParentsVisitedFirst(path, listing.node.entries, ignored, j - 1, q);
        ParentShifts([Visit(path, listing.node)], below, rest, j - 1, q);
        assert visits == [Visit(path, listing.node)] + below + rest;
      } else {
        NothingBetween(prefix, listing.name, q);
      }
    }
  }

  // ---- clean paths ----

  lemma EntryIsWellFormed(prefix: RelPath, name: string)
    requires CleanName(name) && (prefix == "" || WellFormed(prefix))
    ensures WellFormed(At(prefix, name))
  {
    SplitName(name);
    SplitAppend(prefix, name);
  }

  lemma {:induction false} VisitsAreWellFormed(prefix: RelPath, listing: Listing, ignored: Ignore, v: Visit)
    requires Clean(listing) && (prefix == "" || WellFormed(prefix)) && v in Visits(prefix, listing, ignored)
    ensures WellFormed(v.path)
    decreases listing
  {
    var path := At(prefix, listing.name);
    EntryIsWellFormed(prefix, listing.name);
    if v in Visits(prefix, listing.rest, ignored) {
      VisitsAreWellFormed(prefix, listing.rest, ignored, v);
    } else if v.path != path {
      VisitsAreWellFormed(path, listing.node.entries, ignored, v);
    }
  }

  /** What planning relies on: each path once, clean, parents present as directories and listed first. */
  lemma ScanMeetsPlannersNeeds(root: Listing, mode: Mode, ignored: Ignore)
    requires Clean(root) && Scanned(root, mode, ignored).Some?
    ensures var snaps := Scanned(root, mode, ignored).value;
            UniqueSnapshots(snaps) && ParentsFirst(snaps) && ScanOk(LiveIndex(snaps))
  {
    ScanIsOrdered(root, mode, ignored);
    forall p | p in LiveIndex(Scanned(root, mode, ignored).value)
      ensures WellFormed(p)
    {
      var _ := LiveEntryAt(root, mode, ignored, p);
    }
    forall p, q | p in LiveIndex(Scanned(root, mode, ignored).value) && IsDescendant(p, q)
      ensures q in LiveIndex(Scanned(root, mode, ignored).value)
      ensures LiveIndex(Scanned(root, mode, ignored).value)[q].kind == Directory
    {
      var j := LiveEntryAt(root, mode, ignored, p);
      ParentIsLive(root, mode, ignored, j, q);
    }
  }

  lemma LiveEntryAt(root: Listing, mode: Mode, ignored: Ignore, p: RelPath) returns (j: nat)
    requires Clean(root) && Scanned(root, mode, ignored).Some?
    requires p in LiveIndex(Scanned(root, mode, ignored).value)
    ensures j < |Scanned(root, mode, ignored).value| && Scanned(root, mode, ignored).value[j].relativePath == p
    ensures WellFormed(p)
  {
    j := LiveEntry(Scanned(root, mode, ignored).value, p);
    VisitsAreWellFormed("", root, ignored, Visits("", root, ignored)[j]);
  }

  lemma LiveEntry(snaps: seq<FileSnapshot>, p: RelPath) returns (j: nat)
    requires p in LiveIndex(snaps)
    ensures j < |snaps| && snaps[j] == LiveIndex(snaps)[p] && snaps[j].relativePath == p && IsLive(snaps[j])
  {
    LiveIndexFacts(snaps);
    j :| 0 <= j < |snaps| && snaps[j] == LiveIndex(snaps)[p];
  }

  lemma LiveRow(snaps: seq<FileSnapshot>, i: nat)
    requires UniqueSnapshots(snaps) && i < |snaps| && IsLive(snaps[i])
    ensures snaps[i].relativePath in LiveIndex(snaps) && LiveIndex(snaps)[snaps[i].relativePath] == snaps[i]
  {
    LiveIndexFacts(snaps);
  }

  lemma ScanIsOrdered(root: Listing, mode: Mode, ignored: Ignore)
    requires Clean(root) && Scanned(root, mode, ignored).Some?
    ensures UniqueSnapshots(Scanned(root, mode, ignored).value) && ParentsFirst(Scanned(root, mode, ignored).value)
  {
    var visits := Visits("", root, ignored);
    var snaps := Scanned(root, mode, ignored).value;
    VisitsAreUnique("", root, ignored);
    assert forall i :: 0 <= i < |snaps| ==> snaps[i].relativePath == visits[i].path;
    forall i, j | 0 <= i < |snaps| && 0 <= j < |snaps| && IsDescendant(snaps[j].relativePath, snaps[i].relativePath)
      ensures i < j
    {
      ParentsVisitedFirst("", root, ignored, j, snaps[i].relativePath);
    }
  }

  lemma ParentEntry(root: Listing, mode: Mode, ignored: Ignore, j: nat, q: RelPath) returns (i: nat)
    requires Clean(root) && Scanned(root, mode, ignored).Some?
    requires j < |Scanned(root, mode, ignored).value|
    requires IsDescendant(Scanned(root, mode, ignored).value[j].relativePath, q)
    ensures i < |Scanned(root, mode, ignored).value|
    ensures var snap := Scanned(root, mode, ignored).value[i];
            IsLive(snap) && snap.kind == Directory && snap.relativePath == q
  {
    var visits := Visits("", root, ignored);
    ParentsVisitedFirst("", root, ignored, j, q);
    i :| 0 <= i < j && i < |visits| && visits[i].path == q && visits[i].node.Dir?;
  }

  lemma ParentIsLive(root: Listing, mode: Mode, ignored: Ignore, j: nat, q: RelPath)
    requires Clean(root) && Scanned(root, mode, ignored).Some?
    requires j < |Scanned(root, mode, ignored).value|
    requires IsDescendant(Scanned(root, mode, ignored).value[j].relativePath, q)
    ensures var live := LiveIndex(Scanned(root, mode, ignored).value);
            q in live && live[q].kind == Directory
  {
    ScanIsOrdered(root, mode, ignored);
    var i := ParentEntry(root, mode, ignored, j, q);
    LiveRow(Scanned(root, mode, ignored).value, i);
  }

  // ---- reusing hashes ----

  /** Where an entry of the cache applies, it has the right hash. */
  ghost predicate SoundAt(cache: map<RelPath, FileSnapshot>, v: Visit) {
    v.node.Regular? && v.node.size <= EAGER_HASH_LIMIT && CacheHit(cache, v.path, v.node) ==>
      v.node.hashable && cache[v.path].hash == Some(v.node.content)
  }

  ghost predicate SoundCache(cache: map<RelPath, FileSnapshot>, root: Listing, ignored: Ignore) {
    forall v :: v in Visits("", root, ignored) ==> SoundAt(cache, v)
  }

  /** A scan that reuses hashes reports what a full scan reports exactly when the cache is sound. */
  lemma CachedScanIsFullScanExactly(root: Listing, cache: map<RelPath, FileSnapshot>, ignored: Ignore)
    requires Scanned(root, Full(map[]), ignored).Some?
    ensures Scanned(root, Full(cache), ignored) == Scanned(root, Full(map[]), ignored) <==>
            SoundCache(cache, root, ignored)
  {
    var visits := Visits("", root, ignored);
    var a, b := Snapshots(Full(cache), visits), Snapshots(Full(map[]), visits);
    if SoundCache(cache, root, ignored) {
      forall i | 0 <= i < |visits|
        ensures a[i] == b[i]
      {
        assert SoundAt(cache, visits[i]);
      }
      assert a == b;
    }
    if a == b {
      forall v | v in visits
        ensures SoundAt(cache, v)
      {
        var i :| 0 <= i < |visits| && visits[i] == v;
        assert a[i] == b[i];
      }
    }
  }

  lemma {:induction false} IndexedMember(snaps: seq<FileSnapshot>, p: RelPath)
    ensures p in SnapshotIndex(snaps) ==> SnapshotIndex(snaps)[p] in snaps && SnapshotIndex(snaps)[p].relativePath == p
  {
    if snaps != [] {
      IndexedMember(snaps[..|snaps| - 1], p);
      SplitLast(snaps);
    }
  }

  /** The hash of a file is taken over from the last scan exactly if that has a verified one for the same path, size
      and time; otherwise the file is read. */
  lemma CacheIsUsedExactly(root: Listing, cache: map<RelPath, FileSnapshot>, ignored: Ignore, i: nat)
    requires Scanned(root, Full(cache), ignored).Some? && i < |Visits("", root, ignored)|
    requires Visits("", root, ignored)[i].node.Regular? && Visits("", root, ignored)[i].node.size <= 104857600
    ensures var v, snaps := Visits("", root, ignored)[i], Scanned(root, Full(cache), ignored).value;
            i < |snaps| &&
            var hit := v.path in cache && cache[v.path].kind == File && cache[v.path].size == v.node.size &&
                       cache[v.path].modifiedMs == v.node.modifiedMs && cache[v.path].hashStatus == Verified &&
                       cache[v.path].hash.Some?;
            (hit ==> snaps[i].hash == cache[v.path].hash && snaps[i].hashStatus == Verified) &&
            (!hit ==> snaps[i].hash == (if v.node.hashable then Some(v.node.content) else None) &&
                      snaps[i].hashStatus == if v.node.hashable then Verified else Unavailable)
  {}

  /** A scan for metadata reads nothing. */
  lemma MetadataScanInFields(root: Listing, ignored: Ignore, i: nat)
    requires Scanned(root, Metadata, ignored).Some? && i < |Visits("", root, ignored)|
    ensures var v, snaps := Visits("", root, ignored)[i], Scanned(root, Metadata, ignored).value;
            i < |snaps| &&
            match v.node
            case Regular(size, modifiedMs, _, _) =>
              snaps[i] == FileSnapshot(v.path, File, size, modifiedMs, None, Unavailable, false, false)
            case Dir(_) => snaps[i] == FileSnapshot(v.path, Directory, 0, 0, None, Unavailable, false, false)
            case _ => snaps[i] == FileSnapshot(v.path, File, 0, 0, None, Unavailable, false, true)
  {}

  /** What a scan with a sound cache records, in the end, about each thing it meets: a file of at most 104,857,600
      bytes with the hash of its content, if it can be read; a larger one, or one that cannot, without; folders and
      links without anything. */
  lemma ScannedInFields(root: Listing, cache: map<RelPath, FileSnapshot>, ignored: Ignore, i: nat)
    requires SoundCache(cache, root, ignored)
    requires Scanned(root, Full(cache), ignored).Some? && i < |Visits("", root, ignored)|
    ensures var v, snaps := Visits("", root, ignored)[i], Scanned(root, Full(cache), ignored).value;
            i < |snaps| &&
            match v.node
            case Regular(size, modifiedMs, content, hashable) =>
              snaps[i] == FileSnapshot(v.path, File, size, modifiedMs,
                                       if size <= 104857600 && hashable then Some(content) else None,
                                       if size > 104857600 then UnverifiedLargeFile
                                       else if hashable then Verified else Unavailable,
                                       false, false)
            case Dir(_) => snaps[i] == FileSnapshot(v.path, Directory, 0, 0, None, Unavailable, false, false)
            case _ => snaps[i] == FileSnapshot(v.path, File, 0, 0, None, Unavailable, false, true)
  {
    CachedScanIsFullScanExactly(root, cache, ignored);
  }

  /** A file whose path, size and time did not change did not change. */
  ghost predicate TimesTellChanges(before: Listing, after: Listing, ignored: Ignore) {
    forall v, w :: v in Visits("", before, ignored) && w in Visits("", after, ignored) && SameStamp(v, w) ==>
      (v.node.hashable ==> w.node.hashable) && v.node.content == w.node.content
  }

  predicate SameStamp(v: Visit, w: Visit) {
    v.path == w.path && v.node.Regular? && w.node.Regular? && v.node.size == w.node.size &&
    v.node.modifiedMs == w.node.modifiedMs
  }

  /** The result of a scan that reported the truth is a sound cache for the next one. */
  lemma ScanIsNextCache(before: Listing, after: Listing, ignored: Ignore)
    requires Scanned(before, Full(map[]), ignored).Some? && TimesTellChanges(before, after, ignored)
    ensures SoundCache(SnapshotIndex(Scanned(before, Full(map[]), ignored).value), after, ignored)
  {
    var visits := Visits("", before, ignored);
    var snaps := Scanned(before, Full(map[]), ignored).value;
    forall w | w in Visits("", after, ignored)
      ensures SoundAt(SnapshotIndex(snaps), w)
    {
      IndexedMember(snaps, w.path);
      if w.node.Regular? && CacheHit(SnapshotIndex(snaps), w.path, w.node) {
        var i :| 0 <= i < |snaps| && snaps[i] == SnapshotIndex(snaps)[w.path];
        assert SameStamp(visits[i], w);
      }
    }
  }

  /** Scan after scan, each reusing the hashes of the one before. */
  function ScanSeries(trees: seq<Listing>, ignored: Ignore): Option<seq<FileSnapshot>>
  {
    if trees == [] then Some([])
    else
      var n := |trees| - 1;
      var last := ScanSeries(trees[..n], ignored);
      if last.None? then None else Scanned(trees[n], Full(SnapshotIndex(last.value)), ignored)
  }

  /** However many scans have passed, the last one reports what hashing everything would report. */
  lemma {:induction false} SeriesStaysExact(trees: seq<Listing>, ignored: Ignore)
    requires trees != []
    requires forall i :: 0 <= i < |trees| ==> Scanned(trees[i], Full(map[]), ignored).Some?
    requires forall i :: 0 < i < |trees| ==> TimesTellChanges(trees[i - 1], trees[i], ignored)
    ensures ScanSeries(trees, ignored) == Scanned(trees[|trees| - 1], Full(map[]), ignored)
  {
    var n := |trees| - 1;
    if n == 0 {
      assert SnapshotIndex([]) == map[];
      assert ScanSeries(trees[..0], ignored) == Some([]);
    } else {
      assert trees[..n][n - 1] == trees[n - 1];
      assert forall i :: 0 <= i < n ==> trees[..n][i] == trees[i];
      SeriesStaysExact(trees[..n], ignored);
      ScanIsNextCache(trees[n - 1], trees[n], ignored);
      CachedScanIsFullScanExactly(trees[n], SnapshotIndex(ScanSeries(trees[..n], ignored).value), ignored);
    }
  }
}
