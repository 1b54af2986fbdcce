/** Task statuses on the workflow graph: readiness, the failure cascade and the
    relations between statuses and dependencies that a run keeps
    (backend/app/orchestration/dag.py, backend/app/models/base.py). */
module Statuses {
  import opened Prelude
  import opened Graph
  import opened GraphTheorems

  datatype Status =
    | Todo | Pending | Assigned | Running | Retrying | Completed | Failed | Skipped | Blocked
    | AwaitingApproval

  type StatusMap = map<Id, Status>

  predicate Startable(s: Status) { s.Pending? || s.Todo? }

  /** What a failure upstream turns into SKIPPED. */
  predicate Waiting(s: Status) { s.Pending? || s.Todo? || s.Blocked? }

  predicate Terminal(s: Status) { s.Completed? || s.Failed? || s.Skipped? }

  predicate Lost(s: Status) { s.Failed? || s.Skipped? }

  predicate Started(s: Status) { !Waiting(s) && !s.Skipped? }

  // ---------------------------------------------------------------- Readiness

  predicate DepsMet(specs: seq<Spec>, st: StatusMap, id: Id) {
    forall d :: d in DepsOf(specs, id) ==> d in st && st[d].Completed?
  }

  predicate IsReady(specs: seq<Spec>, st: StatusMap, id: Id) {
    id in st && Startable(st[id]) && DepsMet(specs, st, id)
  }

  function ReadyIn(specs: seq<Spec>, st: StatusMap, order: seq<Id>): (r: seq<Id>)
    ensures forall x :: x in r <==> x in order && IsReady(specs, st, x)
    ensures NoDup(order) ==> NoDup(r)
  {
    if order == [] then []
    else
      var front, last := order[..|order| - 1], order[|order| - 1];
      assert order == front + [last];
      assert NoDup(order) ==> NoDup(front) && last !in front;
      ReadyIn(specs, st, front) + if IsReady(specs, st, last) then [last] else []
  }

  /** The ready ids, in the order of the node dict. */
  function ReadyIds(specs: seq<Spec>, st: StatusMap): (r: seq<Id>)
    ensures forall x :: x in r <==> x in Ids(specs) && IsReady(specs, st, x)
    ensures NoDup(r)
  {
    ReadyIn(specs, st, Order(specs))
  }

  predicate AllTerminal(st: StatusMap) {
    forall x :: x in st ==> Terminal(st[x])
  }

  /** Complete means every node COMPLETED, FAILED or SKIPPED. */
  lemma AllTerminalExact(st: StatusMap)
    ensures AllTerminal(st) <==> forall x :: x in st ==> st[x].Completed? || st[x].Failed? || st[x].Skipped?
  {}

  /** How many of these nodes have a given status. */
  function CountIn(order: seq<Id>, st: StatusMap, s: Status): nat {
    if order == [] then 0
    else
      var last := order[|order| - 1];
      CountIn(order[..|order| - 1], st, s) + if last in st && st[last] == s then 1 else 0
  }

  /** A node is ready exactly when it is PENDING or TODO and all its dependencies are
      COMPLETED; ready nodes come in the order of the node dict. */
  lemma ReadyExact(specs: seq<Spec>, st: StatusMap, x: Id)
    requires st.Keys == Ids(specs)
    ensures x in ReadyIds(specs, st) <==>
      x in st && (st[x].Pending? || st[x].Todo?) && forall d :: d in DepsOf(specs, x) ==> d in st && st[d].Completed?
    ensures Subsequence(ReadyIds(specs, st), Order(specs))
  {
    ReadySubsequence(specs, st, Order(specs));
  }

  ghost predicate Subsequence(s: seq<Id>, t: seq<Id>) {
    if s == [] then true
    else if t == [] then false
    else if s[|s| - 1] == t[|t| - 1] then Subsequence(s[..|s| - 1], t[..|t| - 1])
    else Subsequence(s, t[..|t| - 1])
  }

  lemma {:induction false} ReadySubsequence(specs: seq<Spec>, st: StatusMap, order: seq<Id>)
    requires NoDup(order)
    ensures Subsequence(ReadyIn(specs, st, order), order)
  {
    hide IsReady;
    if order != [] {
      var front, last := order[..|order| - 1], order[|order| - 1];
      assert order == front + [last] && last !in front && NoDup(front);
      hide NoDup;
      ReadySubsequence(specs, st, front);
      var r := ReadyIn(specs, st, front);
      assert r != [] ==> r[|r| - 1] in r && r[|r| - 1] in front;
      if IsReady(specs, st, last) {
        assert (r + [last])[..|r|] == r && ReadyIn(specs, st, order) == r + [last];
      } else {
        assert ReadyIn(specs, st, order) == r + [] == r;
      }
    }
  }

  // ---------------------------------------------------------------- The cascade

  /** A chain of children of which all but the first are waiting. */
  ghost predicate WaitingPath(specs: seq<Spec>, st: StatusMap, w: seq<Id>) {
    |w| >= 2
    && forall i :: 0 < i < |w| ==> w[i] in ChildrenOf(specs, w[i - 1]) && w[i] in st && Waiting(st[w[i]])
  }

  ghost predicate Cascades(specs: seq<Spec>, st: StatusMap, id: Id, x: Id) {
    exists w :: WaitingPath(specs, st, w) && w[0] == id && w[|w| - 1] == x
  }

  ghost function SkipSet(specs: seq<Spec>, st: StatusMap, id: Id): set<Id> {
    set x | x in Ids(specs) && Cascades(specs, st, id, x)
  }

  /** The statuses after `mark_failed`. */
  ghost function AfterFailure(specs: seq<Spec>, st: StatusMap, id: Id): (r: StatusMap)
    ensures r.Keys == st.Keys
  {
    var st1 := if id in st then st[id := Failed] else st;
    map x | x in st1 :: if x in SkipSet(specs, st1, id) then Skipped else st1[x]
  }

  /** The chains a failure follows, with the statuses by name. */
  ghost predicate FailureReaches(specs: seq<Spec>, st: StatusMap, w: seq<Id>, id: Id, x: Id) {
    |w| >= 2 && w[0] == id && w[|w| - 1] == x
    && forall i :: 0 < i < |w| ==>
         w[i] in ChildrenOf(specs, w[i - 1]) && w[i] in st && (st[w[i]].Pending? || st[w[i]].Todo? || st[w[i]].Blocked?)
  }

  /** A failure skips exactly the nodes it reaches through PENDING, TODO or BLOCKED ones. */
  lemma CascadeExact(specs: seq<Spec>, st: StatusMap, id: Id, x: Id)
    ensures x in SkipSet(specs, st, id) <==> exists w :: FailureReaches(specs, st, w, id, x)
  {
    if x in SkipSet(specs, st, id) {
      var w :| WaitingPath(specs, st, w) && w[0] == id && w[|w| - 1] == x;
      assert FailureReaches(specs, st, w, id, x);
    }
    forall w | FailureReaches(specs, st, w, id, x)
      ensures x in SkipSet(specs, st, id)
    {
      assert w[|w| - 1] in ChildrenOf(specs, w[|w| - 2]);
      assert WaitingPath(specs, st, w);
    }
  }

  lemma CascadeStart(specs: seq<Spec>, st: StatusMap, id: Id, c: Id)
    requires c in ChildrenOf(specs, id) && c in st && Waiting(st[c])
    ensures c in SkipSet(specs, st, id)
  {
    assert WaitingPath(specs, st, [id, c]);
  }

  lemma CascadeExtend(specs: seq<Spec>, st: StatusMap, id: Id, x: Id, c: Id)
    requires x in SkipSet(specs, st, id) && c in ChildrenOf(specs, x) && c in st && Waiting(st[c])
    ensures c in SkipSet(specs, st, id)
  {
    var w :| WaitingPath(specs, st, w) && w[0] == id && w[|w| - 1] == x;
    hide ChildrenOf, Ids;
    var v := w + [c];
    forall i | 0 < i < |v|
      ensures v[i] in ChildrenOf(specs, v[i - 1]) && v[i] in st && Waiting(st[v[i]])
    {
      assert i < |w| ==> v[i] == w[i] && v[i - 1] == w[i - 1];
    }
    assert WaitingPath(specs, st, v);
  }

  /** A skipped node was waiting, and a parent of it is the failed node or skipped. */
  lemma CascadeParent(specs: seq<Spec>, st: StatusMap, id: Id, x: Id) returns (y: Id)
    requires x in SkipSet(specs, st, id)
    ensures x in st && Waiting(st[x]) && x in ChildrenOf(specs, y)
    ensures y == id || y in SkipSet(specs, st, id)
  {
    var w :| WaitingPath(specs, st, w) && w[0] == id && w[|w| - 1] == x;
    y := w[|w| - 2];
    if |w| > 2 {
      var v := w[..|w| - 1];
      assert v[|v| - 1] in ChildrenOf(specs, v[|v| - 2]);
      assert WaitingPath(specs, st, v) && v[0] == id && v[|v| - 1] == y;
    }
  }

  /** A set that contains the waiting children of id and of its own members
      contains the whole cascade. */
  lemma CascadeLeast(specs: seq<Spec>, st: StatusMap, id: Id, closed: set<Id>)
    requires forall x, c :: (x == id || x in closed) && c in ChildrenOf(specs, x) && c in st && Waiting(st[c])
                            ==> c in closed
    ensures SkipSet(specs, st, id) <= closed
  {
    forall x | x in SkipSet(specs, st, id)
      ensures x in closed
    {
      var w :| WaitingPath(specs, st, w) && w[0] == id && w[|w| - 1] == x;
      PathInside(specs, st, id, closed, w);
    }
  }

  lemma {:induction false} PathInside(specs: seq<Spec>, st: StatusMap, id: Id, closed: set<Id>, w: seq<Id>)
    requires forall x, c :: (x == id || x in closed) && c in ChildrenOf(specs, x) && c in st && Waiting(st[c])
                            ==> c in closed
    requires WaitingPath(specs, st, w) && w[0] == id
    ensures w[|w| - 1] in closed
  {
    var n := |w| - 1;
    assert w[n] in ChildrenOf(specs, w[n - 1]);
    if n > 1 {
      assert WaitingPath(specs, st, w[..n]);
      PathInside(specs, st, id, closed, w[..n]);
    }
  }

  // ---------------------------------------------------------------- What a run keeps

  ghost predicate Sound(specs: seq<Spec>, st: StatusMap) {
    Unique(specs) && Closed(specs) && Acyclic(specs) && st.Keys == Ids(specs)
  }

  /** A node that has been started has all its dependencies COMPLETED. */
  ghost predicate StartedHasDeps(specs: seq<Spec>, st: StatusMap) {
    forall c :: c in st && Started(st[c]) ==> DepsMet(specs, st, c)
  }

  ghost predicate HasLostDep(specs: seq<Spec>, st: StatusMap, c: Id) {
    exists d :: d in DepsOf(specs, c) && d in st && Lost(st[d])
  }

  /** A node is SKIPPED exactly when a dependency failed or was skipped. */
  ghost predicate SkippedExact(specs: seq<Spec>, st: StatusMap) {
    forall c :: c in st ==> (st[c].Skipped? <==> HasLostDep(specs, st, c))
  }

  /** No waiting node depends on a failed or skipped one. */
  ghost predicate NoWaitingBelowLost(specs: seq<Spec>, st: StatusMap) {
    forall c :: c in st && Waiting(st[c]) ==> !HasLostDep(specs, st, c)
  }

  /** What the cascade does, one node at a time. */
  lemma AfterFailureAt(specs: seq<Spec>, st: StatusMap, id: Id, x: Id)
    requires id in st && x in st
    ensures AfterFailure(specs, st, id)[x]
         == if x == id then Failed else if x in SkipSet(specs, st[id := Failed], id) then Skipped else st[x]
    ensures x != id && AfterFailure(specs, st, id)[x] != st[x] ==>
      Waiting(st[x]) && AfterFailure(specs, st, id)[x].Skipped?
  {
    hide Cascades, ChildrenOf;
    if x in SkipSet(specs, st[id := Failed], id) {
      var y := CascadeParent(specs, st[id := Failed], id, x);
    }
  }

  /** A child of the failed node or of a skipped one does not stay waiting. */
  lemma AfterFailureCatches(specs: seq<Spec>, st: StatusMap, id: Id, d: Id, c: Id)
    requires Unique(specs) && id in st && c in st && c in Ids(specs)
    requires d in DepsOf(specs, c)
    requires d == id || d in SkipSet(specs, st[id := Failed], id)
    ensures !Waiting(AfterFailure(specs, st, id)[c])
  {
    hide Cascades, ChildrenOf, DepsOf;
    var st1 := st[id := Failed];
    UniqueConsistent(specs);
    ChildIffEdge(specs, d, c);
    AfterFailureAt(specs, st, id, c);
    if c != id && Waiting(st[c]) {
      if d == id {
        CascadeStart(specs, st1, id, c);
      } else {
        CascadeExtend(specs, st1, id, d, c);
      }
    }
  }

  /** `mark_failed` never leaves a waiting node below a failed or skipped one,
      whatever the other statuses are. */
  lemma FailureKeepsNoWaitingBelowLost(specs: seq<Spec>, st: StatusMap, id: Id)
    requires Unique(specs) && st.Keys == Ids(specs) && id in st && NoWaitingBelowLost(specs, st)
    ensures NoWaitingBelowLost(specs, AfterFailure(specs, st, id))
  {
    hide Cascades, ChildrenOf, DepsOf, AfterFailure, SkipSet;
    var after := AfterFailure(specs, st, id);
    forall c | c in after && Waiting(after[c])
      ensures !HasLostDep(specs, after, c)
    {
      AfterFailureAt(specs, st, id, c);
      forall d | d in DepsOf(specs, c) && d in after
        ensures !Lost(after[d])
      {
        AfterFailureAt(specs, st, id, d);
        if d == id || d in SkipSet(specs, st[id := Failed], id) {
          AfterFailureCatches(specs, st, id, d, c);
        }
      }
    }
  }
}
