/** A path-keyed table under row upserts and subtree removals. The baseline and snapshot
    tables change this way, and so does the peer's folder. */
module TreeTable {
  import opened Prelude
  import opened Paths

  datatype Write<V> = Put(path: RelPath, value: V) | DropTree(path: RelPath)

  /** `upsert` replaces or adds a row; `remove_tree` drops a path and everything beneath it. */
  function Step<V>(t: map<RelPath, V>, w: Write<V>): map<RelPath, V> {
    match w
    case Put(p, v) => t[p := v]
    case DropTree(root) => map p | p in t && !AtOrUnder(p, root) :: t[p]
  }

  function Run<V>(t: map<RelPath, V>, ws: seq<Write<V>>): map<RelPath, V> {
    if ws == [] then t else Step(Run(t, ws[..|ws| - 1]), ws[|ws| - 1])
  }

  /** Some removal takes `p` away. */
  ghost predicate Covers<V>(ws: seq<Write<V>>, p: RelPath) {
    exists i :: 0 <= i < |ws| && ws[i].DropTree? && AtOrUnder(p, ws[i].path)
  }

  ghost predicate PutAt<V>(ws: seq<Write<V>>, p: RelPath, v: V) {
    exists i :: 0 <= i < |ws| && ws[i] == Put(p, v)
  }

  /** The last row written at `p` is `v`. */
  ghost predicate LastPutAt<V>(ws: seq<Write<V>>, p: RelPath, v: V) {
    exists i :: 0 <= i < |ws| && LastPutIs(ws, p, v, i)
  }

  ghost predicate LastPutIs<V>(ws: seq<Write<V>>, p: RelPath, v: V, i: nat)
    requires i < |ws|
  {
    ws[i] == Put(p, v) && forall j :: i < j < |ws| && ws[j].Put? ==> ws[j].path != p
  }

  ghost predicate Touched<V>(ws: seq<Write<V>>, p: RelPath) {
    exists i :: 0 <= i < |ws| && ws[i].Put? && ws[i].path == p
  }

  /** No removal at or above a path that is written. */
  ghost predicate Separate<V>(ws: seq<Write<V>>) {
    forall i, j :: 0 <= i < |ws| && 0 <= j < |ws| && ws[i].Put? && ws[j].DropTree? ==>
      !AtOrUnder(ws[i].path, ws[j].path)
  }

  lemma LastPutStays<V>(ws: seq<Write<V>>, p: RelPath, v: V)
    requires ws != [] && LastPutAt(ws[..|ws| - 1], p, v)
    requires ws[|ws| - 1].Put? ==> ws[|ws| - 1].path != p
    ensures LastPutAt(ws, p, v)
  {
    var before := ws[..|ws| - 1];
    var k :| 0 <= k < |before| && LastPutIs(before, p, v, k);
    assert forall j :: 0 <= j < |before| ==> before[j] == ws[j];
    assert LastPutIs(ws, p, v, k);
  }

  lemma NoDropOverPut<V>(ws: seq<Write<V>>, p: RelPath, w: Write<V>)
    requires Separate(ws) && w in ws && w.DropTree? && Touched(ws, p)
    ensures !AtOrUnder(p, w.path)
  {
    var i :| 0 <= i < |ws| && ws[i].Put? && ws[i].path == p;
    var j :| 0 <= j < |ws| && ws[j] == w;
  }

  /** What a run of writes leaves at one path, when removals and upserts do not meet. */
  lemma {:induction false} Outcome<V>(t: map<RelPath, V>, ws: seq<Write<V>>, p: RelPath)
    requires Separate(ws)
    ensures Touched(ws, p) ==> p in Run(t, ws) && PutAt(ws, p, Run(t, ws)[p]) && LastPutAt(ws, p, Run(t, ws)[p])
    ensures !Touched(ws, p) ==> (p in Run(t, ws) <==> p in t && !Covers(ws, p))
    ensures !Touched(ws, p) && p in Run(t, ws) ==> Run(t, ws)[p] == t[p]
  {
    if ws != [] {
      var n := |ws| - 1;
      var before, w := ws[..n], ws[n];
      Outcome(t, before, p);
      if w.Put? && w.path == p {
        assert LastPutIs(ws, p, w.value, n);
      } else if Touched(before, p) {
        if w.DropTree? {
          NoDropOverPut(ws, p, w);
        }
        LastPutStays(ws, p, Run(t, before)[p]);
      }
    }
  }

  function IsPut<V>(): Write<V> -> bool { (w: Write<V>) => w.Put? }

  function IsDrop<V>(): Write<V> -> bool { (w: Write<V>) => w.DropTree? }

  lemma {:induction false} DropPastPuts<V>(t: map<RelPath, V>, puts: seq<Write<V>>, root: RelPath)
    requires forall i :: 0 <= i < |puts| ==> puts[i].Put? && !AtOrUnder(puts[i].path, root)
    ensures Step(Run(t, puts), DropTree(root)) == Run(Step(t, DropTree(root)), puts)
  {
    if puts != [] {
      DropPastPuts(t, puts[..|puts| - 1], root);
    }
  }

  lemma {:induction false} RunAppend<V>(t: map<RelPath, V>, a: seq<Write<V>>, b: seq<Write<V>>)
    ensures Run(t, a + b) == Run(Run(t, a), b)
  {
    if b == [] {
      assert a + b == a;
    } else {
      assert (a + b)[..|a + b| - 1] == a + b[..|b| - 1];
      RunAppend(t, a, b[..|b| - 1]);
    }
  }

  lemma {:induction false} RunOfSum<V>(t: map<RelPath, V>, a: seq<Write<V>>, w: Write<V>)
    ensures Run(t, a + [w]) == Step(Run(t, a), w)
  {
    assert (a + [w])[..|a|] == a;
  }

  /** All removals may be done first. */
  lemma {:induction false} DropsFirst<V>(t: map<RelPath, V>, ws: seq<Write<V>>)
    requires Separate(ws)
    ensures Run(t, ws) == Run(Run(t, Filter(IsDrop<V>(), ws)), Filter(IsPut<V>(), ws))
  {
    if ws != [] {
      var n := |ws| - 1;
      var before, w := ws[..n], ws[n];
      DropsFirst(t, before);
      var drops, puts := Filter(IsDrop<V>(), before), Filter(IsPut<V>(), before);
      if w.Put? {
        RunOfSum(Run(t, drops), puts, w);
      } else {
        RunOfSum(t, drops, w);
        PutsOutside(before, w.path);
        DropPastPuts(Run(t, drops), puts, w.path);
      }
    }
  }

  lemma PutsOutside<V>(ws: seq<Write<V>>, root: RelPath)
    requires forall i :: 0 <= i < |ws| && ws[i].Put? ==> !AtOrUnder(ws[i].path, root)
    ensures var puts := Filter(IsPut<V>(), ws);
            forall i :: 0 <= i < |puts| ==> puts[i].Put? && !AtOrUnder(puts[i].path, root)
  {
    var puts := Filter(IsPut<V>(), ws);
    forall i | 0 <= i < |puts|
      ensures puts[i].Put? && !AtOrUnder(puts[i].path, root)
    {
      FilterMember(IsPut<V>(), ws, puts[i]);
    }
  }

  /** Two runs end alike when they write the same rows and remove the same paths. */
  lemma SameEffect<V>(t: map<RelPath, V>, ws: seq<Write<V>>, ws': seq<Write<V>>)
    requires Separate(ws) && Separate(ws')
    requires Filter(IsPut<V>(), ws) == Filter(IsPut<V>(), ws')
    requires forall p :: Covers(ws, p) <==> Covers(ws', p)
    ensures Run(t, ws) == Run(t, ws')
  {
    DropsFirst(t, ws);
    DropsFirst(t, ws');
    SameDrops(t, ws, ws');
  }

  lemma SameDrops<V>(t: map<RelPath, V>, ws: seq<Write<V>>, ws': seq<Write<V>>)
    requires forall p :: Covers(ws, p) <==> Covers(ws', p)
    ensures Run(t, Filter(IsDrop<V>(), ws)) == Run(t, Filter(IsDrop<V>(), ws'))
  {
    var a, b := Run(t, Filter(IsDrop<V>(), ws)), Run(t, Filter(IsDrop<V>(), ws'));
    forall p
      ensures (p in a <==> p in b) && (p in a && p in b ==> a[p] == b[p])
    {
      DropsAt(t, ws, p);
      DropsAt(t, ws', p);
    }
    assert a == b;
  }

  lemma DropsAt<V>(t: map<RelPath, V>, ws: seq<Write<V>>, p: RelPath)
    ensures var a := Run(t, Filter(IsDrop<V>(), ws));
            (p in a <==> p in t && !Covers(ws, p)) && (p in a ==> a[p] == t[p])
  {
    OnlyDrops(ws);
    Outcome(t, Filter(IsDrop<V>(), ws), p);
  }

  lemma OnlyDrops<V>(ws: seq<Write<V>>)
    ensures forall i :: 0 <= i < |Filter(IsDrop<V>(), ws)| ==> Filter(IsDrop<V>(), ws)[i].DropTree?
    ensures forall p :: !Touched(Filter(IsDrop<V>(), ws), p)
  {
    var drops := Filter(IsDrop<V>(), ws);
    forall i | 0 <= i < |drops| ensures drops[i].DropTree? {
      FilterMember(IsDrop<V>(), ws, drops[i]);
    }
  }
}
