/** Relative paths as the program keeps them: '/'-separated text. */
module Paths {
  import opened Prelude

  type RelPath = string

  /** `is_descendant_path`: strip the parent, and what is left starts with '/'. */
  predicate IsDescendant(path: RelPath, parent: RelPath) {
    |parent| < |path| && path[..|parent|] == parent && path[|parent|] == '/'
  }

  /** The rows `remove_tree` deletes, and what a delete takes away on the peer. */
  predicate AtOrUnder(path: RelPath, root: RelPath) {
    path == root || IsDescendant(path, root)
  }

  lemma DescendantTransitive(a: RelPath, b: RelPath, c: RelPath)
    requires IsDescendant(a, b) && IsDescendant(b, c)
    ensures IsDescendant(a, c)
  {
    assert a[..|c|] == a[..|b|][..|c|];
    assert a[|c|] == a[..|b|][|c|];
  }

  lemma AtOrUnderTransitive(a: RelPath, b: RelPath, c: RelPath)
    requires AtOrUnder(a, b) && AtOrUnder(b, c)
    ensures AtOrUnder(a, c)
  {
    if a != b && b != c { DescendantTransitive(a, b, c); }
  }

  /** The ancestors of one path form a chain. */
  lemma AncestorsComparable(p: RelPath, a: RelPath, b: RelPath)
    requires AtOrUnder(p, a) && AtOrUnder(p, b)
    ensures AtOrUnder(a, b) || AtOrUnder(b, a)
  {
    if a != p && b != p {
      if |a| < |b| {
        assert b[..|a|] == p[..|b|][..|a|] == p[..|a|];
        assert b[|a|] == p[..|b|][|a|];
      } else if |b| < |a| {
        assert a[..|b|] == p[..|a|][..|b|] == p[..|b|];
        assert a[|b|] == p[..|a|][|b|];
      }
    }
  }

  /** Rust's `path.split('/')`. */
  function Split(path: string): (parts: seq<string>)
    ensures parts != []
  {
    if path == "" then [""]
    else
      var before := Split(path[..|path| - 1]);
      var c := path[|path| - 1];
      if c == '/' then before + [""]
      else before[..|before| - 1] + [before[|before| - 1] + [c]]
  }

  /** `parts.join("/")`. */
  function Join(parts: seq<string>): string
  {
    if parts == [] then ""
    else if |parts| == 1 then parts[0]
    else Join(parts[..|parts| - 1]) + "/" + parts[|parts| - 1]
  }

  function NonEmpty(): string -> bool { (part: string) => part != "" }

  /** `path.split('/').filter(|part| !part.is_empty())`. */
  function Parts(path: RelPath): seq<string> { Filter(NonEmpty(), Split(path)) }

  /** `path_depth` and `return_path_depth`. */
  function Depth(path: RelPath): nat { |Parts(path)| }

  /** `parent_directory_paths`: the joins of the proper, non-empty prefixes of the parts. */
  function ParentPaths(path: RelPath): seq<RelPath> {
    var parts := Parts(path);
    if |parts| <= 1 then [] else seq(|parts| - 1, d requires 0 <= d < |parts| - 1 => Join(parts[..d + 1]))
  }

  /** No empty component: no leading, trailing or doubled '/'. The scanner only produces such paths. */
  predicate WellFormed(path: RelPath) { "" !in Split(path) }

  lemma {:induction false} JoinSplit(path: string)
    ensures Join(Split(path)) == path
  {
    if path != "" {
      var n := |path| - 1;
      JoinSplit(path[..n]);
      SplitLast(path);
      var before := Split(path[..n]);
      var parts := Split(path);
      if path[n] == '/' {
        assert parts[..|parts| - 1] == before;
      } else {
        assert parts[..|parts| - 1] == before[..|before| - 1];
      }
    }
  }

  lemma {:induction false} SplitAppend(path: string, name: string)
    requires '/' !in name
    ensures Split(path + "/" + name) == Split(path) + [name]
  {
    if name == "" {
      assert path + "/" + name == path + ['/'];
    } else {
      var n := |name| - 1;
      SplitAppend(path, name[..n]);
      assert name == name[..n] + [name[n]];
      assert path + "/" + name == (path + "/" + name[..n]) + [name[n]];
    }
  }

  lemma {:induction false} SplitName(name: string)
    requires '/' !in name
    ensures Split(name) == [name]
  {
    if name != "" {
      SplitName(name[..|name| - 1]);
      assert name == name[..|name| - 1] + [name[|name| - 1]];
    }
  }

  /** Cutting a path at a '/' cuts its split there too. */
  lemma {:induction false} SplitCut(path: string, i: nat)
    requires i < |path| && path[i] == '/'
    ensures var head := Split(path[..i]);
            |head| < |Split(path)| && Split(path)[..|head|] == head
  {
    var n := |path| - 1;
    var before := Split(path[..n]);
    if i == n {
      assert Split(path)[..|before|] == before;
    } else {
      assert path[..n][..i] == path[..i];
      SplitCut(path[..n], i);
      var head := Split(path[..i]);
      assert Split(path)[..|head|] == before[..|head|];
    }
  }

  /** Every proper prefix of the split is the split of some cut. */
  lemma {:induction false} CutForPrefix(path: string, k: nat) returns (i: nat)
    requires 0 < k < |Split(path)|
    ensures i < |path| && path[i] == '/' && Split(path[..i]) == Split(path)[..k]
  {
    var n := |path| - 1;
    var before := Split(path[..n]);
    if path[n] == '/' && k == |before| {
      i := n;
      assert Split(path)[..k] == before;
    } else {
      i := CutForPrefix(path[..n], k);
      assert path[..n][..i] == path[..i];
      assert Split(path)[..k] == before[..k];
    }
  }

  /** A parent of a well-formed path is well-formed and strictly shallower. */
  lemma DescendantFacts(path: RelPath, parent: RelPath)
    requires WellFormed(path) && IsDescendant(path, parent)
    ensures WellFormed(parent) && Depth(parent) < Depth(path) && parent != ""
  {
    SplitCut(path, |parent|);
    assert Split(parent) == Split(path)[..|Split(parent)|];
    FilterAll(NonEmpty(), Split(path));
    FilterAll(NonEmpty(), Split(parent));
    assert Split("") == [""];
    assert "" in Split("");
  }

  lemma ParentIsListed(path: RelPath, q: RelPath)
    requires WellFormed(path) && IsDescendant(path, q)
    ensures q in ParentPaths(path)
  {
    FilterAll(NonEmpty(), Split(path));
    SplitCut(path, |q|);
    JoinSplit(q);
    DescendantFacts(path, q);
    var k := |Split(q)|;
    assert ParentPaths(path)[k - 1] == q;
  }

  lemma ListedIsParent(path: RelPath, d: nat)
    requires WellFormed(path) && d < |ParentPaths(path)|
    ensures IsDescendant(path, ParentPaths(path)[d])
  {
    FilterAll(NonEmpty(), Split(path));
    var i := CutForPrefix(path, d + 1);
    JoinSplit(path[..i]);
    assert ParentPaths(path)[d] == path[..i];
  }

  /** The parents that the code walks are exactly the paths the given path descends from. */
  lemma ParentPathsExact(path: RelPath, q: RelPath)
    requires WellFormed(path)
    ensures q in ParentPaths(path) <==> IsDescendant(path, q)
  {
    if IsDescendant(path, q) {
      ParentIsListed(path, q);
    }
    if q in ParentPaths(path) {
      var d :| 0 <= d < |ParentPaths(path)| && ParentPaths(path)[d] == q;
      ListedIsParent(path, d);
    }
  }

  lemma {:induction false} JoinFiltered(parts: seq<string>)
    ensures |Join(Filter(NonEmpty(), parts))| <= |Join(parts)|
  {
    if parts != [] {
      var n := |parts| - 1;
      var kept := Filter(NonEmpty(), parts[..n]);
      JoinFiltered(parts[..n]);
      if parts[n] != "" {
        assert (kept + [parts[n]])[..|kept|] == kept;
      }
    }
  }

  lemma {:induction false} JoinPrefix(parts: seq<string>, k: nat)
    requires 0 < k < |parts|
    ensures |Join(parts[..k])| < |Join(parts)|
    decreases |parts|
  {
    var n := |parts| - 1;
    if k < n {
      assert parts[..n][..k] == parts[..k];
      JoinPrefix(parts[..n], k);
    }
  }

  lemma ParentAt(path: RelPath, d: nat)
    requires d < |ParentPaths(path)|
    ensures d + 1 < |Parts(path)| && ParentPaths(path)[d] == Join(Parts(path)[..d + 1])
  {}

  lemma PartsAreShorter(path: RelPath)
    ensures |Join(Parts(path))| <= |path|
  {
    JoinFiltered(Split(path));
    JoinSplit(path);
  }

  /** Whatever the path looks like, a parent is a shorter one. */
  lemma ParentsAreShorter(path: RelPath, q: RelPath)
    requires q in ParentPaths(path)
    ensures |q| < |path| && !AtOrUnder(q, path)
  {
    var d :| 0 <= d < |ParentPaths(path)| && ParentPaths(path)[d] == q;
    ParentAt(path, d);
    JoinPrefix(Parts(path), d + 1);
    PartsAreShorter(path);
  }
}
