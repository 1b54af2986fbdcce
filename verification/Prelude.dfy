/** Shared value types and the few facts about finite sequences that several
    components need. */
module Prelude {

  datatype Option<+T> = None | Some(value: T) {
    function GetOr(other: T): T {
      match this
      case Some(v) => v
      case None => other
    }
  }

  /** Every element occurs at one index only. */
  ghost predicate NoDup<T>(s: seq<T>) {
    forall i, j :: 0 <= i < j < |s| ==> s[i] != s[j]
  }

  function Elems<T>(s: seq<T>): (r: set<T>) {
    set x | x in s
  }

  /** A duplicate-free sequence is as long as its set of elements. */
  lemma {:induction false} NoDupLength<T>(s: seq<T>)
    requires NoDup(s)
    ensures |Elems(s)| == |s|
  {
    if s != [] {
      var t := s[..|s| - 1];
      NoDupLength(t);
      assert s == t + [s[|s| - 1]];
      assert Elems(s) == Elems(t) + {s[|s| - 1]};
    }
  }

  lemma SubsetSize<T>(a: set<T>, b: set<T>)
    requires a <= b
    ensures |a| <= |b|
    ensures |a| == |b| ==> a == b
  {
    assert b == a + (b - a);
    assert |b| == |a| + |b - a|;
  }

  /** More places than values: two places hold the same value. */
  lemma Pigeonhole<T>(s: seq<T>, u: set<T>) returns (i: nat, j: nat)
    requires forall k :: 0 <= k < |s| ==> s[k] in u
    requires |s| > |u|
    ensures i < j < |s| && s[i] == s[j]
  {
    if NoDup(s) {
      NoDupLength(s);
      SubsetSize(Elems(s), u);
      assert false;
    }
    i, j :| 0 <= i < j < |s| && s[i] == s[j];
  }

  lemma SubsetLength<T>(s: seq<T>, u: set<T>)
    requires NoDup(s)
    requires forall k :: 0 <= k < |s| ==> s[k] in u
    ensures |s| <= |u|
    ensures |s| == |u| ==> Elems(s) == u
  {
    NoDupLength(s);
    SubsetSize(Elems(s), u);
  }

  lemma NoDupAppend<T>(a: seq<T>, b: seq<T>)
    requires NoDup(a) && NoDup(b) && forall x :: x in a ==> x !in b
    ensures NoDup(a + b)
  {
    var s := a + b;
    forall i, j | 0 <= i < j < |s|
      ensures s[i] != s[j]
    {
      assert i < |a| ==> s[i] in a;
      assert j >= |a| ==> s[j] in b;
    }
  }

  lemma NoDupSplit<T>(a: seq<T>, b: seq<T>)
    requires NoDup(a + b)
    ensures NoDup(a) && NoDup(b) && forall x :: x in b ==> x !in a
  {
    var s := a + b;
    assert forall i :: 0 <= i < |a| ==> s[i] == a[i];
    assert forall i :: 0 <= i < |b| ==> s[|a| + i] == b[i];
  }
}
