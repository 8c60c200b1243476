/** Options, list traversals and the stable sort that the other modules share. */
module Prelude {

  datatype Option<+T> = None | Some(value: T)

  /** What a transfer finds at the path it writes to. */
  datatype TargetOf<+C> = Missing | FileWith(content: C) | NonFile

  function Lookup<K, V>(m: map<K, V>, k: K): Option<V> { if k in m then Some(m[k]) else None }

  function Min(a: nat, b: nat): nat { if a <= b then a else b }

  /** Rust's `iter().filter_map(f).collect()`. */
  function FilterMap<A, B>(f: A -> Option<B>, s: seq<A>): seq<B>
  {
    if s == [] then []
    else
      var rest := FilterMap(f, s[..|s| - 1]);
      match f(s[|s| - 1])
      case None => rest
      case Some(b) => rest + [b]
  }

  /** Rust's `retain(p)`. */
  function Filter<A>(p: A -> bool, s: seq<A>): seq<A>
  {
    if s == [] then []
    else if p(s[|s| - 1]) then Filter(p, s[..|s| - 1]) + [s[|s| - 1]]
    else Filter(p, s[..|s| - 1])
  }

  /** Insert `x` behind every element whose key is not larger. */
  function Insert<A>(key: A -> int, s: seq<A>, x: A): seq<A>
  {
    if s == [] || key(s[|s| - 1]) <= key(x) then s + [x]
    else Insert(key, s[..|s| - 1], x) + [s[|s| - 1]]
  }

  /** Rust's stable `sort_by_key(key)`. */
  function SortBy<A>(key: A -> int, s: seq<A>): seq<A>
  {
    if s == [] then [] else Insert(key, SortBy(key, s[..|s| - 1]), s[|s| - 1])
  }

  ghost predicate NoDup<A>(s: seq<A>) {
    forall i, j :: 0 <= i < j < |s| ==> s[i] != s[j]
  }

  /** `a` stands somewhere before `b`. */
  ghost predicate Precedes<A>(s: seq<A>, a: A, b: A) {
    exists i, j :: 0 <= i < j < |s| && s[i] == a && s[j] == b
  }

  ghost predicate SortedBy<A>(key: A -> int, s: seq<A>) {
    forall i, j :: 0 <= i < j < |s| ==> key(s[i]) <= key(s[j])
  }

  lemma SplitLast<A>(s: seq<A>)
    requires s != []
    ensures s == s[..|s| - 1] + [s[|s| - 1]]
  {}

  lemma {:induction false} FilterMapMember<A, B(!new)>(f: A -> Option<B>, s: seq<A>)
    ensures forall b :: b in FilterMap(f, s) <==> exists i :: 0 <= i < |s| && f(s[i]) == Some(b)
  {
    if s != [] {
      FilterMapMember(f, s[..|s| - 1]);
      var rest := FilterMap(f, s[..|s| - 1]);
      forall b
        ensures b in FilterMap(f, s) <==> exists i :: 0 <= i < |s| && f(s[i]) == Some(b)
      {
        if b in rest {
          var i :| 0 <= i < |s| - 1 && f(s[..|s| - 1][i]) == Some(b);
          assert f(s[i]) == Some(b);
        }
        if i :| 0 <= i < |s| && f(s[i]) == Some(b) {
          if i < |s| - 1 { assert f(s[..|s| - 1][i]) == Some(b); }
        }
      }
    }
  }

  /** Elements come out in the order of the elements they came from. */
  lemma {:induction false} FilterMapPrecedes<A, B(!new)>(f: A -> Option<B>, s: seq<A>, i: nat, j: nat)
    requires i < j < |s| && f(s[i]).Some? && f(s[j]).Some?
    ensures Precedes(FilterMap(f, s), f(s[i]).value, f(s[j]).value)
  {
    var n := |s| - 1;
    var rest := FilterMap(f, s[..n]);
    if j < n {
      FilterMapPrecedes(f, s[..n], i, j);
      var a, b :| 0 <= a < b < |rest| && rest[a] == f(s[i]).value && rest[b] == f(s[j]).value;
      assert FilterMap(f, s)[a] == f(s[i]).value && FilterMap(f, s)[b] == f(s[j]).value;
    } else {
      FilterMapMember(f, s[..n]);
      assert f(s[..n][i]) == Some(f(s[i]).value);
      var a :| 0 <= a < |rest| && rest[a] == f(s[i]).value;
      assert FilterMap(f, s)[a] == f(s[i]).value && FilterMap(f, s)[|rest|] == f(s[j]).value;
    }
  }

  lemma {:induction false} FilterMember<A>(p: A -> bool, s: seq<A>, a: A)
    ensures a in Filter(p, s) <==> a in s && p(a)
  {
    if s != [] {
      FilterMember(p, s[..|s| - 1], a);
      SplitLast(s);
    }
  }

  lemma {:induction false} FilterAll<A>(keep: A -> bool, s: seq<A>)
    requires forall i :: 0 <= i < |s| ==> keep(s[i])
    ensures Filter(keep, s) == s
  {
    if s != [] {
      FilterAll(keep, s[..|s| - 1]);
      SplitLast(s);
    }
  }

  lemma {:induction false} FilterNone<A>(keep: A -> bool, s: seq<A>)
    requires forall i :: 0 <= i < |s| ==> !keep(s[i])
    ensures Filter(keep, s) == []
  {
    if s != [] {
      FilterNone(keep, s[..|s| - 1]);
    }
  }

  lemma {:induction false} FilterPrecedes<A>(p: A -> bool, s: seq<A>, a: A, b: A)
    requires Precedes(s, a, b) && p(a) && p(b)
    ensures Precedes(Filter(p, s), a, b)
  {
    var n := |s| - 1;
    var i, j :| 0 <= i < j < |s| && s[i] == a && s[j] == b;
    var rest := Filter(p, s[..n]);
    if j < n {
      assert s[..n][i] == a && s[..n][j] == b;
      FilterPrecedes(p, s[..n], a, b);
      var x, y :| 0 <= x < y < |rest| && rest[x] == a && rest[y] == b;
      assert Filter(p, s)[x] == a && Filter(p, s)[y] == b;
    } else {
      assert s[..n][i] == a;
      FilterMember(p, s[..n], a);
      var x :| 0 <= x < |rest| && rest[x] == a;
      assert Filter(p, s)[x] == a && Filter(p, s)[|rest|] == b;
    }
  }

  lemma {:induction false} FilterAppend<A>(p: A -> bool, s: seq<A>, t: seq<A>)
    ensures Filter(p, s + t) == Filter(p, s) + Filter(p, t)
  {
    if t == [] {
      assert s + t == s;
    } else {
      var n := |t| - 1;
      assert (s + t)[..|s + t| - 1] == s + t[..n];
      FilterAppend(p, s, t[..n]);
    }
  }

  lemma {:induction false} FilterNoDup<A>(p: A -> bool, s: seq<A>)
    requires NoDup(s)
    ensures NoDup(Filter(p, s))
  {
    if s != [] {
      var n := |s| - 1;
      FilterNoDup(p, s[..n]);
      FilterMember(p, s[..n], s[n]);
    }
  }

  lemma {:induction false} InsertIsPermutation<A>(key: A -> int, s: seq<A>, x: A)
    ensures multiset(Insert(key, s, x)) == multiset(s) + multiset{x}
  {
    if s != [] && key(s[|s| - 1]) > key(x) {
      InsertIsPermutation(key, s[..|s| - 1], x);
      SplitLast(s);
      assert multiset(s) == multiset(s[..|s| - 1]) + multiset{s[|s| - 1]};
    }
  }

  lemma InsertMember<A>(key: A -> int, s: seq<A>, x: A, a: A)
    ensures a in Insert(key, s, x) <==> a in s || a == x
  {
    InsertIsPermutation(key, s, x);
    assert a in Insert(key, s, x) <==> a in multiset(Insert(key, s, x));
    assert a in s <==> a in multiset(s);
  }

  lemma SortedPrefix<A>(key: A -> int, s: seq<A>, a: A)
    requires SortedBy(key, s) && s != [] && a in s[..|s| - 1]
    ensures key(a) <= key(s[|s| - 1])
  {}

  lemma {:induction false} InsertKeepsSorted<A>(key: A -> int, s: seq<A>, x: A)
    requires SortedBy(key, s)
    ensures SortedBy(key, Insert(key, s, x))
  {
    if s == [] {
    } else if key(s[|s| - 1]) <= key(x) {
      forall a | a in s
        ensures key(a) <= key(x)
      {
        SplitLast(s);
        if a in s[..|s| - 1] {
          SortedPrefix(key, s, a);
        }
      }
    } else {
      var n := |s| - 1;
      InsertKeepsSorted(key, s[..n], x);
      forall a | a in Insert(key, s[..n], x)
        ensures key(a) <= key(s[n])
      {
        InsertMember(key, s[..n], x, a);
        if a != x {
          SortedPrefix(key, s, a);
        }
      }
    }
  }

  /** The sort is a permutation of its input and in key order. */
  lemma {:induction false} SortFacts<A>(key: A -> int, s: seq<A>)
    ensures multiset(SortBy(key, s)) == multiset(s)
    ensures SortedBy(key, SortBy(key, s))
    ensures |SortBy(key, s)| == |s|
    ensures forall a :: a in SortBy(key, s) <==> a in s
  {
    if s != [] {
      var n := |s| - 1;
      SortFacts(key, s[..n]);
      InsertIsPermutation(key, SortBy(key, s[..n]), s[n]);
      InsertKeepsSorted(key, SortBy(key, s[..n]), s[n]);
      SplitLast(s);
      assert multiset(s) == multiset(s[..n]) + multiset{s[n]};
    }
    var t := SortBy(key, s);
    assert |multiset(t)| == |t| && |multiset(s)| == |s|;
    forall a ensures a in t <==> a in s { assert a in multiset(t) <==> a in multiset(s); }
  }

  lemma {:induction false} InsertPrecedes<A>(key: A -> int, s: seq<A>, x: A, a: A, b: A)
    requires Precedes(s, a, b)
    ensures Precedes(Insert(key, s, x), a, b)
  {
    var n := |s| - 1;
    var i, j :| 0 <= i < j < |s| && s[i] == a && s[j] == b;
    if key(s[n]) <= key(x) {
      assert (s + [x])[i] == a && (s + [x])[j] == b;
    } else {
      var r := Insert(key, s[..n], x);
      if j < n {
        assert s[..n][i] == a && s[..n][j] == b;
        InsertPrecedes(key, s[..n], x, a, b);
        var c, d :| 0 <= c < d < |r| && r[c] == a && r[d] == b;
        assert (r + [s[n]])[c] == a && (r + [s[n]])[d] == b;
      } else {
        assert s[..n][i] == a;
        InsertMember(key, s[..n], x, a);
        var c :| 0 <= c < |r| && r[c] == a;
        assert (r + [s[n]])[c] == a && (r + [s[n]])[|r|] == b;
      }
    }
  }

  lemma {:induction false} InsertBehind<A>(key: A -> int, s: seq<A>, x: A, a: A)
    requires SortedBy(key, s) && a in s && key(a) <= key(x)
    ensures Precedes(Insert(key, s, x), a, x)
  {
    var n := |s| - 1;
    var i :| 0 <= i < |s| && s[i] == a;
    if key(s[n]) <= key(x) {
      assert (s + [x])[i] == a && (s + [x])[|s|] == x;
    } else {
      assert i < n && s[..n][i] == a;
      InsertBehind(key, s[..n], x, a);
      var r := Insert(key, s[..n], x);
      var c, d :| 0 <= c < d < |r| && r[c] == a && r[d] == x;
      assert (r + [s[n]])[c] == a && (r + [s[n]])[d] == x;
    }
  }

  /** The sort is stable: it never swaps a pair that is already in key order. */
  lemma SortStable<A>(key: A -> int, s: seq<A>, a: A, b: A)
    requires Precedes(s, a, b) && key(a) <= key(b)
    ensures Precedes(SortBy(key, s), a, b)
  {
    var i, j :| 0 <= i < j < |s| && s[i] == a && s[j] == b;
    SortStableAt(key, s, i, j);
  }

  lemma SortHas<A>(key: A -> int, s: seq<A>, i: nat)
    requires i < |s|
    ensures s[i] in SortBy(key, s) && SortedBy(key, SortBy(key, s))
  {
    SortFacts(key, s);
  }

  lemma {:induction false} SortStableAt<A>(key: A -> int, s: seq<A>, i: nat, j: nat)
    requires i < j < |s| && key(s[i]) <= key(s[j])
    ensures Precedes(SortBy(key, s), s[i], s[j])
  {
    var n := |s| - 1;
    var before := s[..n];
    assert before[i] == s[i];
    if j < n {
      assert before[j] == s[j];
      SortStableAt(key, before, i, j);
      InsertPrecedes(key, SortBy(key, before), s[n], s[i], s[j]);
    } else {
      SortHas(key, before, i);
      InsertBehind(key, SortBy(key, before), s[n], s[i]);
    }
  }

  lemma SmallerKeyFirst<A>(key: A -> int, s: seq<A>, a: A, b: A)
    requires SortedBy(key, s) && a in s && b in s && key(a) < key(b)
    ensures Precedes(s, a, b)
  {
    var i :| 0 <= i < |s| && s[i] == a;
    var j :| 0 <= j < |s| && s[j] == b;
  }

  lemma PrecedesAppended<A>(before: seq<A>, s: seq<A>, a: A, b: A)
    requires Precedes(s, a, b)
    ensures Precedes(before + s, a, b)
  {
    var i, j :| 0 <= i < j < |s| && s[i] == a && s[j] == b;
    assert (before + s)[|before| + i] == a && (before + s)[|before| + j] == b;
  }

  lemma SortNoDup<A>(key: A -> int, s: seq<A>)
    requires NoDup(s)
    ensures NoDup(SortBy(key, s))
  {
    SortFacts(key, s);
    NoDupMultiset(s);
    MultisetNoDup(SortBy(key, s));
  }

  lemma {:induction false} NoDupMultiset<A>(s: seq<A>)
    requires NoDup(s)
    ensures forall a :: multiset(s)[a] <= 1
  {
    if s != [] {
      var n := |s| - 1;
      NoDupMultiset(s[..n]);
      SplitLast(s);
      assert multiset(s) == multiset(s[..n]) + multiset{s[n]};
      assert s[n] !in s[..n];
      assert s[n] !in multiset(s[..n]);
    }
  }

  lemma MultisetNoDup<A>(s: seq<A>)
    requires forall a :: multiset(s)[a] <= 1
    ensures NoDup(s)
  {
    forall i, j | 0 <= i < j < |s| ensures s[i] != s[j] {
      assert s == s[..j] + s[j..];
      assert multiset(s) == multiset(s[..j]) + multiset(s[j..]);
      assert s[..j][i] in multiset(s[..j]) && s[j..][0] in multiset(s[j..]);
      assert multiset(s[..j])[s[i]] >= 1 && multiset(s[j..])[s[j]] >= 1;
      assert multiset(s)[s[i]] == multiset(s[..j])[s[i]] + multiset(s[j..])[s[i]];
    }
  }
}
