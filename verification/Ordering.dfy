/** Python's `sorted` on values with string keys: code points compared left to
    right, a proper prefix first. */
module Ordering {
  import opened Prelude

  predicate StringLess(a: string, b: string) {
    if b == "" then false
    else if a == "" then true
    else a[0] < b[0] || (a[0] == b[0] && StringLess(a[1..], b[1..]))
  }

  lemma {:induction false} LessTransitive(a: string, b: string, c: string)
    requires StringLess(a, b) && StringLess(b, c)
    ensures StringLess(a, c)
  {
    if a != "" && a[0] == b[0] == c[0] {
      LessTransitive(a[1..], b[1..], c[1..]);
    }
  }

  lemma {:induction false} LessIrreflexive(a: string)
    ensures !StringLess(a, a)
  {
    if a != "" {
      LessIrreflexive(a[1..]);
    }
  }

  lemma {:induction false} LessConnected(a: string, b: string)
    ensures a == b || StringLess(a, b) || StringLess(b, a)
  {
    if a != "" && b != "" && a[0] == b[0] {
      LessConnected(a[1..], b[1..]);
      assert a == [a[0]] + a[1..] && b == [b[0]] + b[1..];
    }
  }

  function Keys<T>(xs: seq<T>, key: T -> string): (ks: seq<string>)
    ensures |ks| == |xs|
  {
    seq(|xs|, i requires 0 <= i < |xs| => key(xs[i]))
  }

  /** Insertion behind every smaller key. */
  function Insert<T(!new)>(x: T, xs: seq<T>, key: T -> string): (r: seq<T>)
    ensures |r| == |xs| + 1
    ensures forall y :: y in r <==> y == x || y in xs
  {
    if xs == [] then [x]
    else if StringLess(key(xs[0]), key(x)) then [xs[0]] + Insert(x, xs[1..], key)
    else [x] + xs
  }

  function SortBy<T(!new)>(xs: seq<T>, key: T -> string): (r: seq<T>)
    ensures |r| == |xs|
    ensures forall y :: y in r <==> y in xs
  {
    if xs == [] then [] else Insert(xs[0], SortBy(xs[1..], key), key)
  }

  ghost predicate Ascending(ks: seq<string>) {
    forall i, j :: 0 <= i < j < |ks| ==> StringLess(ks[i], ks[j])
  }

  lemma {:induction false} InsertAscending<T(!new)>(x: T, xs: seq<T>, key: T -> string)
    requires Ascending(Keys(xs, key))
    requires forall i :: 0 <= i < |xs| ==> key(xs[i]) != key(x)
    ensures Ascending(Keys(Insert(x, xs, key), key))
  {
    if xs != [] {
      LessConnected(key(xs[0]), key(x));
      var ks := Keys(xs, key);
      if StringLess(key(xs[0]), key(x)) {
        assert Keys(xs[1..], key) == ks[1..];
        InsertAscending(x, xs[1..], key);
        var r := Insert(x, xs[1..], key);
        forall j | 0 <= j < |r|
          ensures StringLess(ks[0], Keys(r, key)[j])
        {
          assert r[j] in r;
          if r[j] != x {
            var i :| 0 <= i < |xs[1..]| && xs[1..][i] == r[j];
            assert ks[1 + i] == key(r[j]);
          }
        }
        ConsAscending(ks[0], Keys(r, key));
        assert Keys([xs[0]] + r, key) == [ks[0]] + Keys(r, key);
      } else {
        forall j | 0 <= j < |xs|
          ensures StringLess(key(x), ks[j])
        {
          if j > 0 {
            LessTransitive(key(x), ks[0], ks[j]);
          }
        }
        ConsAscending(key(x), ks);
        assert Keys([x] + xs, key) == [key(x)] + ks;
      }
    }
  }

  lemma ConsAscending(k: string, ks: seq<string>)
    requires Ascending(ks) && forall j :: 0 <= j < |ks| ==> StringLess(k, ks[j])
    ensures Ascending([k] + ks)
  {}

  lemma AscendingNoDup(ks: seq<string>)
    requires Ascending(ks)
    ensures NoDup(ks)
  {
    forall i, j | 0 <= i < j < |ks|
      ensures ks[i] != ks[j]
    {
      LessIrreflexive(ks[i]);
    }
  }

  /** Sorting values with pairwise different keys gives strictly ascending keys. */
  lemma {:induction false} SortAscending<T(!new)>(xs: seq<T>, key: T -> string)
    requires NoDup(Keys(xs, key))
    ensures Ascending(Keys(SortBy(xs, key), key))
  {
    if xs != [] {
      var ks := Keys(xs, key);
      assert Keys(xs[1..], key) == ks[1..];
      SortAscending(xs[1..], key);
      var s := SortBy(xs[1..], key);
      forall i | 0 <= i < |s|
        ensures key(s[i]) != key(xs[0])
      {
        assert s[i] in xs[1..];
        var j :| 0 <= j < |xs[1..]| && xs[1..][j] == s[i];
        assert ks[0] != ks[1 + j];
      }
      InsertAscending(xs[0], s, key);
    }
  }

  lemma SomeElement(s: seq<string>)
    requires s != []
    ensures Elems(s) != {}
  {
    assert s[0] in Elems(s);
  }

  /** A strictly ascending list is determined by its elements. */
  lemma {:induction false} AscendingUnique(a: seq<string>, b: seq<string>)
    requires Ascending(a) && Ascending(b) && Elems(a) == Elems(b)
    ensures a == b
  {
    if a == [] {
      if b != [] {
        SomeElement(b);
      }
    } else {
      assert a[0] in Elems(b) && (b != [] ==> b[0] in Elems(a));
      var i :| 0 <= i < |b| && b[i] == a[0];
      var j :| 0 <= j < |a| && a[j] == b[0];
      if i > 0 && j > 0 {
        LessTransitive(a[0], b[0], a[0]);
      }
      LessIrreflexive(a[0]);
      assert a[0] == b[0];
      forall x
        ensures x in a[1..] <==> x in b[1..]
      {
        LessIrreflexive(x);
        assert x in a <==> x in Elems(a);
        assert x in b <==> x in Elems(b);
        assert x in a <==> x == a[0] || x in a[1..];
        assert x in b <==> x == b[0] || x in b[1..];
      }
      assert Elems(a[1..]) == Elems(b[1..]);
      AscendingUnique(a[1..], b[1..]);
      assert a == [a[0]] + a[1..] && b == [b[0]] + b[1..];
    }
  }

  /** Sorting does not look past the keys: it commutes with any map that keeps them. */
  lemma {:induction false} SortCommutes<T(!new), U(!new)>(xs: seq<T>, key: T -> string, f: T -> U, key2: U -> string)
    requires forall x :: x in xs ==> key2(f(x)) == key(x)
    ensures SortBy(Map(xs, f), key2) == Map(SortBy(xs, key), f)
  {
    if xs != [] {
      SortCommutes(xs[1..], key, f, key2);
      assert Map(xs, f)[1..] == Map(xs[1..], f);
      InsertCommutes(xs[0], SortBy(xs[1..], key), key, f, key2);
    }
  }

  lemma {:induction false} InsertCommutes<T(!new), U(!new)>(x: T, xs: seq<T>, key: T -> string, f: T -> U,
                                                            key2: U -> string)
    requires key2(f(x)) == key(x) && forall y :: y in xs ==> key2(f(y)) == key(y)
    ensures Insert(f(x), Map(xs, f), key2) == Map(Insert(x, xs, key), f)
  {
    if xs != [] {
      assert Map(xs, f)[1..] == Map(xs[1..], f);
      InsertCommutes(x, xs[1..], key, f, key2);
    }
  }

  function Map<T, U>(xs: seq<T>, f: T -> U): (r: seq<U>)
    ensures |r| == |xs| && forall i :: 0 <= i < |xs| ==> r[i] == f(xs[i])
  {
    seq(|xs|, i requires 0 <= i < |xs| => f(xs[i]))
  }

  predicate IsLeast(m: string, s: set<string>) {
    m in s && forall y :: y in s && y != m ==> StringLess(m, y)
  }

  /** The elements of a set of strings, in ascending order. */
  function SortedSet(s: set<string>): (r: seq<string>)
    ensures |r| == |s| && forall x :: x in r <==> x in s
    ensures Ascending(r)
  {
    if s == {} then []
    else
      LeastExists(s);
      LeastUnique(s);
      var m :| IsLeast(m, s);
      [m] + SortedSet(s - {m})
  }

  lemma {:induction false} LeastExists(s: set<string>)
    requires s != {}
    ensures exists m :: IsLeast(m, s)
  {
    var x :| x in s;
    var t := s - {x};
    if t == {} {
      assert s == {x};
      assert IsLeast(x, s);
    } else {
      LeastExists(t);
      var m :| IsLeast(m, t);
      LessConnected(x, m);
      if StringLess(x, m) {
        forall y | y in s && y != x
          ensures StringLess(x, y)
        {
          if y != m {
            LessTransitive(x, m, y);
          }
        }
        assert IsLeast(x, s);
      } else {
        assert IsLeast(m, s);
      }
    }
  }

  lemma LeastUnique(s: set<string>)
    ensures forall m, n :: IsLeast(m, s) && IsLeast(n, s) ==> m == n
  {
    forall m, n | IsLeast(m, s) && IsLeast(n, s)
      ensures m == n
    {
      if m != n {
        LessTransitive(m, n, m);
        LessIrreflexive(m);
      }
    }
  }
}
