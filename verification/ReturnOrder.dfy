/** Which pending paths an explicit return covers, and the order in which they are sent. */
module ReturnOrder {
  import opened Prelude
  import opened Paths
  import opened Model
  import opened Ordering

  type Pending = map<RelPath, PendingReturnChange>

  // ---- selection ----

  /** `expand_selected_return_paths` without the sort: the selected paths that are pending or have pending
      descendants, and all those descendants. */
  function Expanded(selected: seq<RelPath>, pending: Pending): set<RelPath> {
    if selected == [] then {}
    else Expanded(selected[..|selected| - 1], pending) + ExpandedOne(selected[|selected| - 1], pending)
  }

  function ExpandedOne(s: RelPath, pending: Pending): set<RelPath> {
    var below := set p | p in pending && IsDescendant(p, s);
    below + if s in pending || below != {} then {s} else {}
  }

  predicate AnySelected(selected: seq<RelPath>, p: RelPath) {
    exists s | s in selected :: AtOrUnder(p, s)
  }

  /** A pending path is covered exactly when it is at or below a selection; anything else in the result is a
      selection that stands above something pending. */
  lemma {:induction false} ExpandedExactly(selected: seq<RelPath>, pending: Pending, p: RelPath)
    ensures p in pending ==> (p in Expanded(selected, pending) <==> AnySelected(selected, p))
    ensures p !in pending ==>
              (p in Expanded(selected, pending) <==> p in selected && exists q :: q in pending && IsDescendant(q, p))
  {
    if selected != [] {
      var n := |selected| - 1;
      ExpandedExactly(selected[..n], pending, p);
      SplitLast(selected);
      var s := selected[n];
      ExpandedOneExactly(s, pending, p);
    }
  }

  lemma ExpandedOneExactly(s: RelPath, pending: Pending, p: RelPath)
    ensures p in pending ==> (p in ExpandedOne(s, pending) <==> AtOrUnder(p, s))
    ensures p !in pending ==>
            (p in ExpandedOne(s, pending) <==> p == s && exists q :: q in pending && IsDescendant(q, p))
  {
    var below := set x | x in pending && IsDescendant(x, s);
    if q :| q in pending && IsDescendant(q, s) {
      assert q in below;
    } else {
      assert below == {};
    }
  }

  // ---- order ----

  /** `return_path_is_deleted_group`. */
  predicate DeletedGroup(p: RelPath, pending: Pending) {
    if p in pending then pending[p].changeKind == Deleted
    else
      (exists q | q in pending :: IsDescendant(q, p)) &&
      (forall q | q in pending :: IsDescendant(q, p) ==> pending[q].changeKind == Deleted)
  }

  /** Creates before deletes; creates shallow first, deletes deep first; then by text. */
  predicate Before(a: RelPath, b: RelPath, pending: Pending) {
    match (DeletedGroup(a, pending), DeletedGroup(b, pending))
    case (true, true) => Depth(b) < Depth(a) || (Depth(a) == Depth(b) && LexLess(a, b))
    case (false, false) => Depth(a) < Depth(b) || (Depth(a) == Depth(b) && LexLess(a, b))
    case (false, true) => true
    case (true, false) => false
  }

  /** A path is sent with the deletes exactly if its own change is one, or, if it has none, if there is something
      pending beneath it and all of that is deleted. */
  lemma DeletesExactly(p: RelPath, pending: Pending)
    ensures p in pending ==> (DeletedGroup(p, pending) <==> pending[p].changeKind == Deleted)
    ensures p !in pending ==>
              (DeletedGroup(p, pending) <==>
               (exists q :: q in pending && IsDescendant(q, p)) &&
               forall q :: q in pending && IsDescendant(q, p) ==> pending[q].changeKind == Deleted)
  {}

  /** The order in the properties of the paths: creates and changes before deletes; of the former the shallower first,
      of the latter the deeper; and by text, as in a dictionary, where the depth is the same. */
  lemma BeforeExactly(a: RelPath, b: RelPath, pending: Pending)
    ensures var x, y := DeletedGroup(a, pending), DeletedGroup(b, pending);
            Before(a, b, pending) <==>
            (!x && y) ||
            (!x && !y && (Depth(a) < Depth(b) || (Depth(a) == Depth(b) && exists k: nat :: LessFrom(a, b, k)))) ||
            (x && y && (Depth(a) > Depth(b) || (Depth(a) == Depth(b) && exists k: nat :: LessFrom(a, b, k))))
  {
    LexExactly(a, b);
  }

  function Comparator(pending: Pending): Less<RelPath> { (a: RelPath, b: RelPath) => Before(a, b, pending) }

  /** The comparator is a strict total order, so a sorted list is determined by its members. */
  lemma BeforeIsStrictTotalOrder(a: RelPath, b: RelPath, c: RelPath, pending: Pending)
    ensures !Before(a, a, pending)
    ensures Before(a, b, pending) || Before(b, a, pending) || a == b
    ensures Before(a, b, pending) && Before(b, c, pending) ==> Before(a, c, pending)
  {
    LexTotal(a, b);
    LexTotal(a, a);
    if LexLess(a, b) && LexLess(b, c) {
      LexTransitive(a, b, c);
    }
  }

  lemma ComparatorIsStrict(pending: Pending, items: set<RelPath>)
    ensures StrictOrder(Comparator(pending), items)
  {
    forall a, b, c | a in items && b in items && c in items
      ensures !Before(a, a, pending) && (Before(a, b, pending) || Before(b, a, pending) || a == b)
      ensures Before(a, b, pending) && Before(b, c, pending) ==> Before(a, c, pending)
    {
      BeforeIsStrictTotalOrder(a, b, c, pending);
    }
  }

  ghost predicate InSendOrder(paths: seq<RelPath>, pending: Pending) { InOrder(Comparator(pending), paths) }

  /** The list does not depend on the order in which the set was read. */
  lemma ResultIsUnique(a: seq<RelPath>, b: seq<RelPath>, pending: Pending)
    requires InSendOrder(a, pending) && InSendOrder(b, pending) && Elements(a) == Elements(b)
    ensures a == b
  {
    ComparatorIsStrict(pending, Elements(a));
    OrderedListIsUnique(Comparator(pending), a, b);
  }

  /** `expand_selected_return_paths`: a set is collected, listed in whatever order, and sorted. */
  method ExpandSelectedReturnPaths(selected: seq<RelPath>, pending: Pending) returns (paths: seq<RelPath>)
    ensures Elements(paths) == Expanded(selected, pending)
    ensures InSendOrder(paths, pending)
  {
    var expanded: set<RelPath> := {};
    for i := 0 to |selected|
      invariant expanded == Expanded(selected[..i], pending)
    {
      assert selected[..i + 1][..i] == selected[..i];
      var s := selected[i];
      var below := set p | p in pending && IsDescendant(p, s);
      if s in pending {
        expanded := expanded + {s};
      }
      if below != {} {
        expanded := expanded + {s};
      }
      expanded := expanded + below;
    }
    assert selected[..|selected|] == selected;
    paths := [];
    var rest := expanded;
    while rest != {}
      invariant rest <= expanded && Elements(paths) == expanded - rest
      invariant InSendOrder(paths, pending)
      decreases rest
    {
      var p :| p in rest;
      assert p in paths ==> p in Elements(paths);
      ComparatorIsStrict(pending, Elements(paths) + {p});
      InsertKeepsOrder(Comparator(pending), paths, p);
      paths := InsertInto(Comparator(pending), paths, p);
      rest := rest - {p};
    }
  }

  // ---- what the order guarantees ----

  /** Parents are created before what is beneath them, children are deleted before what is above them, and no
      delete comes before a create. */
  lemma OrderRespectsTree(paths: seq<RelPath>, pending: Pending, i: nat, j: nat)
    requires InSendOrder(paths, pending) && i < |paths| && j < |paths|
    ensures DeletedGroup(paths[i], pending) && !DeletedGroup(paths[j], pending) ==> j < i
    ensures WellFormed(paths[j]) && IsDescendant(paths[j], paths[i]) ==>
              (!DeletedGroup(paths[i], pending) && !DeletedGroup(paths[j], pending) ==> i < j) &&
              (DeletedGroup(paths[i], pending) && DeletedGroup(paths[j], pending) ==> j < i)
  {
    if WellFormed(paths[j]) && IsDescendant(paths[j], paths[i]) {
      DescendantFacts(paths[j], paths[i]);
    }
    if j < i {
      assert Comparator(pending)(paths[j], paths[i]);
      BeforeIsStrictTotalOrder(paths[j], paths[i], paths[j], pending);
    } else if i < j {
      assert Comparator(pending)(paths[i], paths[j]);
      BeforeIsStrictTotalOrder(paths[i], paths[j], paths[i], pending);
    }
  }

  /** A delete that runs after a create beneath it takes the new entry away again. */
  ghost predicate DeleteOverCreate(paths: set<RelPath>, pending: Pending) {
    exists d, c :: d in paths && c in paths && DeletedGroup(d, pending) && !DeletedGroup(c, pending) &&
      IsDescendant(c, d)
  }

  /** The order alone does not prevent that. It is excluded exactly when no pending delete at or below a
      selection has a pending create or change beneath it. */
  lemma DeleteOverCreateExactly(selected: seq<RelPath>, pending: Pending)
    ensures DeleteOverCreate(Expanded(selected, pending), pending) <==>
            exists d, c :: d in pending && c in pending && AnySelected(selected, d) && IsDescendant(c, d) &&
              pending[d].changeKind == Deleted && pending[c].changeKind != Deleted
  {
    var paths := Expanded(selected, pending);
    if DeleteOverCreate(paths, pending) {
      var d, c :| d in paths && c in paths && DeletedGroup(d, pending) && !DeletedGroup(c, pending) &&
        IsDescendant(c, d);
      ExpandedExactly(selected, pending, d);
      ExpandedExactly(selected, pending, c);
      if c in pending {
        WitnessBelow(d, c, pending);
      } else {
        var e :| e in pending && IsDescendant(e, c) && pending[e].changeKind != Deleted;
        DescendantTransitive(e, c, d);
        WitnessBelow(d, e, pending);
      }
    }
    if d, c :| d in pending && c in pending && AnySelected(selected, d) && IsDescendant(c, d) &&
               pending[d].changeKind == Deleted && pending[c].changeKind != Deleted
    {
      ExpandedExactly(selected, pending, d);
      ExpandedExactly(selected, pending, c);
      var s :| s in selected && AtOrUnder(d, s);
      AtOrUnderTransitive(c, d, s);
      assert AnySelected(selected, c);
      assert d in paths && c in paths;
    }
  }

  lemma WitnessBelow(d: RelPath, c: RelPath, pending: Pending)
    requires DeletedGroup(d, pending) && c in pending && pending[c].changeKind != Deleted && IsDescendant(c, d)
    ensures d in pending && pending[d].changeKind == Deleted
  {}
}
