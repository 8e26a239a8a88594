/** Python's ordering of strings (code point by code point, a proper prefix
    first) and the two sorts the log tools use: `sorted(set(l))` for key
    lists, and the stable `list.sort(key=...)` for memory maps. */
module Order {

  /** `a < b` on Python strings. */
  predicate Lt(a: string, b: string)
    decreases |a|
  {
    if |a| == 0 then |b| > 0
    else |b| > 0 && (a[0] < b[0] || (a[0] == b[0] && Lt(a[1..], b[1..])))
  }

  predicate Le(a: string, b: string) {
    a == b || Lt(a, b)
  }

  lemma {:induction false} LtIrreflexive(a: string)
    ensures !Lt(a, a)
    decreases |a|
  {
    if |a| > 0 {
      LtIrreflexive(a[1..]);
    }
  }

  lemma {:induction false} LtTrans(a: string, b: string, c: string)
    requires Lt(a, b) && Lt(b, c)
    ensures Lt(a, c)
    decreases |a|
  {
    if |a| > 0 && a[0] == b[0] && b[0] == c[0] {
      LtTrans(a[1..], b[1..], c[1..]);
    }
  }

  /** Any two different strings are ordered one way or the other. */
  lemma {:induction false} LtTotal(a: string, b: string)
    ensures a == b || Lt(a, b) || Lt(b, a)
    decreases |a|
  {
    if |a| > 0 && |b| > 0 && a[0] == b[0] {
      LtTotal(a[1..], b[1..]);
      if a[1..] == b[1..] {
        assert a == [a[0]] + a[1..] && b == [b[0]] + b[1..];
      }
    }
  }

  lemma LtAsym(a: string, b: string)
    requires Lt(a, b)
    ensures !Lt(b, a) && a != b
  {
    if Lt(b, a) {
      LtTrans(a, b, a);
      LtIrreflexive(a);
    }
    if a == b {
      LtIrreflexive(a);
    }
  }

  // ---------------------------------------------------------------------------
  // `sorted(set(l))`

  ghost predicate StrictlySorted(s: seq<string>) {
    forall i, j :: 0 <= i < j < |s| ==> Lt(s[i], s[j])
  }

  /** No element occurs twice. */
  ghost predicate Distinct(s: seq<string>) {
    forall i, j :: 0 <= i < j < |s| ==> s[i] != s[j]
  }

  lemma SortedDistinct(s: seq<string>)
    requires StrictlySorted(s)
    ensures Distinct(s)
  {
    forall i, j | 0 <= i < j < |s| ensures s[i] != s[j] {
      LtAsym(s[i], s[j]);
    }
  }

  /** `s` with `x` put in its place, unless it is already there. */
  function InsertUnique(x: string, s: seq<string>): (r: seq<string>)
    ensures forall y :: y in r <==> y == x || y in s
    decreases |s|
  {
    if |s| == 0 then [x]
    else if x == s[0] then s
    else if Lt(x, s[0]) then [x] + s
    else
      assert s == [s[0]] + s[1..];
      [s[0]] + InsertUnique(x, s[1..])
  }

  /** Inserting into a strictly increasing list keeps it so. */
  lemma {:induction false} InsertUniqueSorted(x: string, s: seq<string>)
    requires StrictlySorted(s)
    ensures StrictlySorted(InsertUnique(x, s))
    decreases |s|
  {
    if |s| == 0 || x == s[0] {
    } else if Lt(x, s[0]) {
      forall j | 0 < j < |s| ensures Lt(x, s[j]) {
        LtTrans(x, s[0], s[j]);
      }
    } else {
      var t := InsertUnique(x, s[1..]);
      InsertUniqueSorted(x, s[1..]);
      LtTotal(x, s[0]);
      forall y | y in t ensures Lt(s[0], y) {
        if y != x {
          var j :| 0 <= j < |s[1..]| && s[1..][j] == y;
          assert s[j + 1] == y;
        }
      }
      assert InsertUnique(x, s) == [s[0]] + t;
    }
  }

  /** `sorted(set(l))`: the distinct elements of `l` in increasing order. */
  function SortUnique(l: seq<string>): (r: seq<string>)
    ensures forall y :: y in r <==> y in l
    decreases |l|
  {
    if |l| == 0 then []
    else
      assert l == l[..|l| - 1] + [l[|l| - 1]];
      InsertUnique(l[|l| - 1], SortUnique(l[..|l| - 1]))
  }

  lemma {:induction false} SortUniqueSorted(l: seq<string>)
    ensures StrictlySorted(SortUnique(l))
    decreases |l|
  {
    if |l| > 0 {
      SortUniqueSorted(l[..|l| - 1]);
      InsertUniqueSorted(l[|l| - 1], SortUnique(l[..|l| - 1]));
    }
  }

  /** A set has only one strictly increasing listing: the sorted key list
      depends only on which keys there are. */
  lemma {:induction false} SortedUnique(a: seq<string>, b: seq<string>)
    requires StrictlySorted(a) && StrictlySorted(b)
    requires forall y :: y in a <==> y in b
    ensures a == b
    decreases |a|
  {
    SameEmptiness(a, b);
    if |a| > 0 && |b| > 0 {
      LeastFirst(a, b);
      LeastFirst(b, a);
      assert a[0] == b[0] by {
        if a[0] != b[0] { LtAsym(a[0], b[0]); }
      }
      forall y ensures y in a[1..] <==> y in b[1..] {
        if y in a[1..] {
          TailIn(a, b, y);
        }
        if y in b[1..] {
          TailIn(b, a, y);
        }
      }
      SortedUnique(a[1..], b[1..]);
      assert a == [a[0]] + a[1..] && b == [b[0]] + b[1..];
    }
  }

  lemma SameEmptiness(a: seq<string>, b: seq<string>)
    requires forall y :: y in a <==> y in b
    ensures |a| == 0 <==> |b| == 0
  {
    if |a| > 0 {
      assert a[0] in a;
    }
    if |b| > 0 {
      assert b[0] in b;
    }
  }

  /** An element after the first of one listing is after the first of the
      other, when both start with the same element. */
  lemma TailIn(a: seq<string>, b: seq<string>, y: string)
    requires StrictlySorted(a) && |a| > 0 && |b| > 0 && a[0] == b[0]
    requires forall y :: y in a <==> y in b
    requires y in a[1..]
    ensures y in b[1..]
  {
    var j :| 0 <= j < |a[1..]| && a[1..][j] == y;
    assert Lt(a[0], a[j + 1]);
    LtAsym(a[0], y);
    assert y in b;
    var k :| 0 <= k < |b| && b[k] == y;
    assert b[1..][k - 1] == y;
  }

  /** The first element of a strictly sorted list is below every other
      element of the same set. */
  lemma LeastFirst(a: seq<string>, b: seq<string>)
    requires StrictlySorted(a) && |a| > 0 && |b| > 0
    requires forall y :: y in a <==> y in b
    ensures Le(a[0], b[0])
  {
    assert b[0] in b;
    var j :| 0 <= j < |a| && a[j] == b[0];
    if j > 0 {
      assert Lt(a[0], a[j]);
    }
  }

  // ---------------------------------------------------------------------------
  // `l.sort(key=key)`: stable, so equal keys keep their order.

  ghost predicate SortedBy<T>(s: seq<(string, T)>) {
    forall i, j :: 0 <= i < j < |s| ==> Le(s[i].0, s[j].0)
  }

  lemma LeTrans(a: string, b: string, c: string)
    requires Le(a, b) && Le(b, c)
    ensures Le(a, c)
  {
    if a != b && b != c {
      LtTrans(a, b, c);
    }
  }

  /** `s` with `x` put after every element whose key is not above its own. */
  function InsertBy<T>(x: (string, T), s: seq<(string, T)>): (r: seq<(string, T)>)
    requires SortedBy(s)
    ensures SortedBy(r)
    ensures multiset(r) == multiset(s) + multiset{x}
    decreases |s|
  {
    if |s| == 0 then [x]
    else if Lt(x.0, s[|s| - 1].0) then
      var t := InsertBy(x, s[..|s| - 1]);
      InsertBelow(x, s, t);
      t + [s[|s| - 1]]
    else
      InsertAbove(x, s);
      s + [x]
  }

  /** An element whose key is below the last key goes before the last. */
  lemma InsertBelow<T>(x: (string, T), s: seq<(string, T)>, t: seq<(string, T)>)
    requires SortedBy(s) && |s| > 0 && Lt(x.0, s[|s| - 1].0)
    requires SortedBy(t) && multiset(t) == multiset(s[..|s| - 1]) + multiset{x}
    ensures SortedBy(t + [s[|s| - 1]])
    ensures multiset(t + [s[|s| - 1]]) == multiset(s) + multiset{x}
  {
    var last := s[|s| - 1];
    assert s == s[..|s| - 1] + [last];
    forall y | y in multiset(t) ensures Le(y.0, last.0) {
      if y != x {
        assert y in multiset(s[..|s| - 1]);
        var j :| 0 <= j < |s| - 1 && s[..|s| - 1][j] == y;
        assert s[j] == y;
      }
    }
    SnocSorted(t, last);
  }

  /** An element whose key is not below the last key goes at the end. */
  lemma InsertAbove<T>(x: (string, T), s: seq<(string, T)>)
    requires SortedBy(s) && |s| > 0 && !Lt(x.0, s[|s| - 1].0)
    ensures SortedBy(s + [x])
  {
    var last := s[|s| - 1];
    LtTotal(x.0, last.0);
    forall y | y in multiset(s) ensures Le(y.0, x.0) {
      var j :| 0 <= j < |s| && s[j] == y;
      assert Le(s[j].0, last.0);
      LeTrans(s[j].0, last.0, x.0);
    }
    SnocSorted(s, x);
  }

  lemma SnocSorted<T>(s: seq<(string, T)>, x: (string, T))
    requires SortedBy(s)
    requires forall y :: y in multiset(s) ==> Le(y.0, x.0)
    ensures SortedBy(s + [x])
  {
    forall i, j | 0 <= i < j < |s| + 1 ensures Le((s + [x])[i].0, (s + [x])[j].0) {
      if j == |s| {
        assert s[i] in multiset(s);
      }
    }
  }

  /** `sorted(l, key=lambda p: p[0])` */
  function SortBy<T>(l: seq<(string, T)>): (r: seq<(string, T)>)
    ensures SortedBy(r)
    ensures multiset(r) == multiset(l)
    decreases |l|
  {
    if |l| == 0 then []
    else
      assert l == l[..|l| - 1] + [l[|l| - 1]];
      InsertBy(l[|l| - 1], SortBy(l[..|l| - 1]))
  }

  /** The elements of `s` whose key is `k`, in their order. */
  function WithKey<T>(s: seq<(string, T)>, k: string): seq<(string, T)>
    decreases |s|
  {
    if |s| == 0 then []
    else WithKey(s[..|s| - 1], k) + (if s[|s| - 1].0 == k then [s[|s| - 1]] else [])
  }

  lemma WithKeySnoc<T>(a: seq<(string, T)>, y: (string, T), k: string)
    ensures WithKey(a + [y], k) == WithKey(a, k) + (if y.0 == k then [y] else [])
  {
    assert (a + [y])[..|a|] == a;
  }

  /** Inserting puts `x` after every element with its key. */
  lemma {:induction false} InsertByStable<T>(x: (string, T), s: seq<(string, T)>, k: string)
    requires SortedBy(s)
    ensures WithKey(InsertBy(x, s), k) == WithKey(s, k) + (if x.0 == k then [x] else [])
    decreases |s|
  {
    if |s| == 0 {
      WithKeySnoc([], x, k);
      assert [] + [x] == InsertBy(x, s);
    } else if Lt(x.0, s[|s| - 1].0) {
      var last := s[|s| - 1];
      var init := s[..|s| - 1];
      assert s == init + [last];
      var t := InsertBy(x, init);
      assert InsertBy(x, s) == t + [last];
      InsertByStable(x, init, k);
      WithKeySnoc(t, last, k);
      WithKeySnoc(init, last, k);
      LtIrreflexive(x.0);
    } else {
      assert InsertBy(x, s) == s + [x];
      WithKeySnoc(s, x, k);
    }
  }

  /** The sort is stable: the elements with one key keep their order. */
  lemma {:induction false} SortByStable<T>(l: seq<(string, T)>, k: string)
    ensures WithKey(SortBy(l), k) == WithKey(l, k)
    decreases |l|
  {
    if |l| > 0 {
      SortByStable(l[..|l| - 1], k);
      InsertByStable(l[|l| - 1], SortBy(l[..|l| - 1]), k);
    }
  }
}
