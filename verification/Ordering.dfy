/** Sorting by a comparator, and why the result does not depend on the order of the input. */
module Ordering {
  import opened Prelude

  /** A comparator as the program passes to `sort_by`. */
  type Less<!T> = (T, T) -> bool

  function Elements<T>(s: seq<T>): set<T> { set x | x in s }

  ghost predicate StrictOrder<T>(less: Less<T>, items: set<T>) {
    (forall a :: a in items ==> !less(a, a)) &&
    (forall a, b :: a in items && b in items ==> less(a, b) || less(b, a) || a == b) &&
    (forall a, b, c :: a in items && b in items && c in items && less(a, b) && less(b, c) ==> less(a, c))
  }

  ghost predicate InOrder<T>(less: Less<T>, s: seq<T>) {
    forall i, j :: 0 <= i < j < |s| ==> less(s[i], s[j])
  }

  function InsertInto<T>(less: Less<T>, s: seq<T>, x: T): seq<T> {
    if s == [] then [x]
    else if less(x, s[0]) then [x] + s
    else [s[0]] + InsertInto(less, s[1..], x)
  }

  function SortWith<T>(less: Less<T>, s: seq<T>): seq<T> {
    if s == [] then [] else InsertInto(less, SortWith(less, s[..|s| - 1]), s[|s| - 1])
  }

  lemma NotAmong<T>(s: seq<T>, x: T)
    ensures x in s <==> x in Elements(s)
  {}

  lemma HeadIsLess<T>(less: Less<T>, s: seq<T>, y: T)
    requires InOrder(less, s) && s != [] && y in s[1..]
    ensures less(s[0], y)
  {}

  lemma PutFirst<T>(less: Less<T>, s: seq<T>, x: T)
    requires StrictOrder(less, Elements(s) + {x}) && InOrder(less, s) && s != [] && less(x, s[0])
    ensures InOrder(less, [x] + s)
  {
    forall i | 0 <= i < |s|
      ensures less(x, s[i])
    {
      NotAmong(s, s[0]);
      NotAmong(s, s[i]);
    }
  }

  lemma PutHead<T>(less: Less<T>, head: T, rest: seq<T>)
    requires InOrder(less, rest) && forall y :: y in rest ==> less(head, y)
    ensures InOrder(less, [head] + rest)
  {}

  lemma {:induction false} InsertKeepsOrder<T>(less: Less<T>, s: seq<T>, x: T)
    requires StrictOrder(less, Elements(s) + {x}) && InOrder(less, s) && x !in s
    ensures InOrder(less, InsertInto(less, s, x))
    ensures Elements(InsertInto(less, s, x)) == Elements(s) + {x}
  {
    if s == [] {
    } else if less(x, s[0]) {
      PutFirst(less, s, x);
    } else {
      var rest := InsertInto(less, s[1..], x);
      assert s == [s[0]] + s[1..];
      InsertKeepsOrder(less, s[1..], x);
      NotAmong(s, s[0]);
      forall y | y in rest
        ensures less(s[0], y)
      {
        NotAmong(rest, y);
        NotAmong(s[1..], y);
        if y != x {
          HeadIsLess(less, s, y);
        }
      }
      PutHead(less, s[0], rest);
    }
  }

  lemma {:induction false} SortOrders<T>(less: Less<T>, s: seq<T>)
    requires StrictOrder(less, Elements(s)) && NoDup(s)
    ensures InOrder(less, SortWith(less, s)) && Elements(SortWith(less, s)) == Elements(s)
  {
    if s != [] {
      var n := |s| - 1;
      assert s == s[..n] + [s[n]];
      assert Elements(s) == Elements(s[..n]) + {s[n]};
      forall i, j | 0 <= i < j < n
        ensures s[..n][i] != s[..n][j]
      {
        assert s[i] != s[j];
      }
      SortOrders(less, s[..n]);
      assert s[n] !in s[..n];
      NotAmong(s[..n], s[n]);
      NotAmong(SortWith(less, s[..n]), s[n]);
      InsertKeepsOrder(less, SortWith(less, s[..n]), s[n]);
    }
  }

  lemma SomeElement<T>(s: seq<T>)
    requires s != []
    ensures Elements(s) != {}
  {
    assert s[0] in Elements(s);
  }

  lemma RestOf<T>(less: Less<T>, s: seq<T>)
    requires StrictOrder(less, Elements(s)) && InOrder(less, s) && s != []
    ensures Elements(s[1..]) == Elements(s) - {s[0]}
  {
    assert s[0] in Elements(s);
    assert s == [s[0]] + s[1..];
    assert forall i :: 0 < i < |s| ==> s[i] != s[0];
  }

  /** Two ordered lists with the same members are the same list. */
  lemma {:induction false} OrderedListIsUnique<T>(less: Less<T>, a: seq<T>, b: seq<T>)
    requires StrictOrder(less, Elements(a)) && InOrder(less, a) && InOrder(less, b) && Elements(a) == Elements(b)
    ensures a == b
  {
    if a == [] {
      if b != [] {
        SomeElement(b);
      }
    } else {
      if b == [] {
        SomeElement(a);
      } else {
        NotAmong(a, b[0]);
        NotAmong(b, a[0]);
        NotAmong(a, a[0]);
        RestOf(less, a);
        RestOf(less, b);
        assert a == [a[0]] + a[1..] && b == [b[0]] + b[1..];
        OrderedListIsUnique(less, a[1..], b[1..]);
      }
    }
  }

  // ---- text ----

  /** Rust's order on strings. */
  predicate LexLess(a: string, b: string) {
    if b == "" then false
    else if a == "" then true
    else a[0] < b[0] || (a[0] == b[0] && LexLess(a[1..], b[1..]))
  }

  lemma {:induction false} LexTotal(a: string, b: string)
    ensures LexLess(a, b) || LexLess(b, a) || a == b
    ensures !(LexLess(a, b) && LexLess(b, a)) && !LexLess(a, a)
  {
    if a != "" && b != "" {
      LexTotal(a[1..], b[1..]);
      LexTotal(a[1..], a[1..]);
      assert a == [a[0]] + a[1..] && b == [b[0]] + b[1..];
    } else if a != "" {
      LexTotal(a[1..], a[1..]);
    }
  }

  lemma {:induction false} LexTransitive(a: string, b: string, c: string)
    requires LexLess(a, b) && LexLess(b, c)
    ensures LexLess(a, c)
  {
    if a != "" && a[0] == b[0] == c[0] {
      LexTransitive(a[1..], b[1..], c[1..]);
    }
  }

  /** Rust's order on paths goes component by component. */
  predicate PathLess(a: seq<string>, b: seq<string>) {
    if b == [] then false
    else if a == [] then true
    else LexLess(a[0], b[0]) || (a[0] == b[0] && PathLess(a[1..], b[1..]))
  }

  lemma {:induction false} PathTotal(a: seq<string>, b: seq<string>)
    ensures PathLess(a, b) || PathLess(b, a) || a == b
    ensures !(PathLess(a, b) && PathLess(b, a)) && !PathLess(a, a)
  {
    if a != [] {
      LexTotal(a[0], a[0]);
      PathTotal(a[1..], a[1..]);
      if b != [] {
        LexTotal(a[0], b[0]);
        PathTotal(a[1..], b[1..]);
        assert a == [a[0]] + a[1..] && b == [b[0]] + b[1..];
      }
    }
  }

  lemma {:induction false} PathTransitive(a: seq<string>, b: seq<string>, c: seq<string>)
    requires PathLess(a, b) && PathLess(b, c)
    ensures PathLess(a, c)
  {
    if a != [] {
      if LexLess(a[0], b[0]) && LexLess(b[0], c[0]) {
        LexTransitive(a[0], b[0], c[0]);
      } else if a[0] == b[0] == c[0] {
        PathTransitive(a[1..], b[1..], c[1..]);
      }
    }
  }

  /** The texts agree before `k`, where the first one ends or has the smaller character. */
  predicate LessFrom(a: string, b: string, k: nat) {
    k <= |a| && k < |b| && a[..k] == b[..k] && (k == |a| || a[k] < b[k])
  }

  /** That is the dictionary's order. */
  lemma {:induction false} LexExactly(a: string, b: string)
    ensures LexLess(a, b) <==> exists k: nat :: LessFrom(a, b, k)
  {
    if a == "" {
      assert b != "" ==> LessFrom(a, b, 0);
    } else if b != "" {
      LexExactly(a[1..], b[1..]);
      if a[0] < b[0] {
        assert LessFrom(a, b, 0);
      }
      if a[0] == b[0] && LexLess(a[1..], b[1..]) {
        var k: nat :| LessFrom(a[1..], b[1..], k);
        assert a[..k + 1] == [a[0]] + a[1..][..k] && b[..k + 1] == [b[0]] + b[1..][..k];
        assert LessFrom(a, b, k + 1);
      }
      if k: nat :| LessFrom(a, b, k) {
        if k > 0 {
          assert a[1..][..k - 1] == a[..k][1..] && b[1..][..k - 1] == b[..k][1..];
          assert a[0] == a[..k][0] && b[0] == b[..k][0];
          assert LessFrom(a[1..], b[1..], k - 1);
        }
      }
    }
  }

  /** The paths agree before component `k`, where the first one ends or has the lesser name. */
  predicate PathLessFrom(a: seq<string>, b: seq<string>, k: nat) {
    k <= |a| && k < |b| && a[..k] == b[..k] && (k == |a| || LexLess(a[k], b[k]))
  }

  lemma {:induction false} PathExactly(a: seq<string>, b: seq<string>)
    ensures PathLess(a, b) <==> exists k: nat :: PathLessFrom(a, b, k)
  {
    if a == [] {
      assert b != [] ==> PathLessFrom(a, b, 0);
    } else if b != [] {
      PathExactly(a[1..], b[1..]);
      if LexLess(a[0], b[0]) {
        assert PathLessFrom(a, b, 0);
      }
      if a[0] == b[0] && PathLess(a[1..], b[1..]) {
        var k: nat :| PathLessFrom(a[1..], b[1..], k);
        assert a[..k + 1] == [a[0]] + a[1..][..k] && b[..k + 1] == [b[0]] + b[1..][..k];
        assert PathLessFrom(a, b, k + 1);
      }
      if k: nat :| PathLessFrom(a, b, k) {
        if k > 0 {
          assert a[1..][..k - 1] == a[..k][1..] && b[1..][..k - 1] == b[..k][1..];
          assert a[0] == a[..k][0] && b[0] == b[..k][0];
          assert PathLessFrom(a[1..], b[1..], k - 1);
        }
      }
    }
  }
}
