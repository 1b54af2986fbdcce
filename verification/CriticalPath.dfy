/** The longest-path computation of `get_critical_path`
    (backend/app/orchestration/dag.py:243-265): distances relaxed along the
    topological order, then predecessors followed back. */
module CriticalPath {
  import opened Prelude
  import opened Graph
  import opened GraphTheorems

  type Distances = map<Id, nat>
  type Predecessors = map<Id, Option<Id>>

  /** `order` is a complete dependencies-first list of the nodes. */
  ghost predicate Ordered(specs: seq<Spec>, order: seq<Id>) {
    Unique(specs) && NoDup(order) && Elems(order) == Ids(specs) && DepsFirst(specs, order)
  }

  /** A recorded predecessor is a real, already processed parent at the right distance. */
  ghost predicate PredecessorOk(specs: seq<Spec>, order: seq<Id>, i: nat, dist: Distances, pred: Predecessors, x: Id)
    requires dist.Keys == pred.Keys == Ids(specs) && x in pred && i <= |order|
  {
    match pred[x]
    case None => dist[x] == 0
    case Some(y) => y in order[..i] && Edge(specs, y, x) && y in dist && dist[x] == dist[y] + 1
  }

  /** y's children are further away than y. */
  ghost predicate Pushed(specs: seq<Spec>, dist: Distances, y: Id) {
    y in dist && forall c :: Edge(specs, y, c) && c in dist ==> dist[c] > dist[y]
  }

  ghost predicate Progress(specs: seq<Spec>, order: seq<Id>, i: nat, dist: Distances, pred: Predecessors) {
    i <= |order| && dist.Keys == pred.Keys == Ids(specs)
    && (forall x :: x in pred ==> PredecessorOk(specs, order, i, dist, pred, x))
    && forall y :: y in order[..i] ==> Pushed(specs, dist, y)
  }

  /** Half-way through the children of order[i]. */
  ghost predicate Partial(specs: seq<Spec>, order: seq<Id>, i: nat, done: seq<Id>,
                          dist: Distances, pred: Predecessors)
    requires i < |order|
  {
    dist.Keys == pred.Keys == Ids(specs) && order[i] in dist
    && (forall x :: x in pred ==> PredecessorOk(specs, order, i + 1, dist, pred, x))
    && (forall y :: y in order[..i] ==> Pushed(specs, dist, y))
    && forall c :: c in done && c in dist ==> dist[c] > dist[order[i]]
  }

  lemma ProgressStart(specs: seq<Spec>, order: seq<Id>, dist: Distances, pred: Predecessors)
    requires dist.Keys == pred.Keys == Ids(specs)
    requires (forall x :: x in dist ==> dist[x] == 0) && forall x :: x in pred ==> pred[x] == None
    ensures Progress(specs, order, 0, dist, pred)
  {}

  lemma PartialStart(specs: seq<Spec>, order: seq<Id>, i: nat, dist: Distances, pred: Predecessors)
    requires Ordered(specs, order) && Progress(specs, order, i, dist, pred) && i < |order|
    ensures Partial(specs, order, i, [], dist, pred)
  {
    hide Ids, DepsFirst, Edge, Pushed;
    assert order[i] in Elems(order);
    assert order[..i + 1] == order[..i] + [order[i]];
    forall x | x in pred
      ensures PredecessorOk(specs, order, i + 1, dist, pred, x)
    {
      assert PredecessorOk(specs, order, i, dist, pred, x);
    }
  }

  /** A child of order[i] is not among order[..i + 1]. */
  lemma ChildIsLater(specs: seq<Spec>, order: seq<Id>, i: nat, c: Id)
    requires Ordered(specs, order) && i < |order| && Edge(specs, order[i], c)
    ensures c in Ids(specs) && c !in order[..i + 1]
  {
    hide DepsFirst;
    assert c in Elems(order);
    EdgeClimbs(specs, order, order[i], c);
    assert IndexOf(order, order[i]) == i;
    assert forall k :: 0 <= k <= i ==> order[k] != c;
  }

  lemma PushedKept(specs: seq<Spec>, dist: Distances, z: Id, c: Id, further: nat)
    requires Pushed(specs, dist, z) && c in dist && further >= dist[c] && z != c
    ensures Pushed(specs, dist[c := further], z)
  {
    hide Edge;
  }

  lemma PredecessorKept(specs: seq<Spec>, order: seq<Id>, i: nat, dist: Distances, pred: Predecessors,
                        c: Id, y: Id, x: Id)
    requires dist.Keys == pred.Keys == Ids(specs) && i < |order| && c in dist && y in dist && x in dist
    requires c !in order[..i + 1] && y in order[..i + 1] && Edge(specs, y, c)
    requires PredecessorOk(specs, order, i + 1, dist, pred, x)
    ensures PredecessorOk(specs, order, i + 1, dist[c := dist[y] + 1], pred[c := Some(y)], x)
  {
    hide Edge, Ids;
  }

  lemma PartialStep(specs: seq<Spec>, order: seq<Id>, i: nat, done: seq<Id>, c: Id,
                    dist: Distances, pred: Predecessors)
    requires Ordered(specs, order) && i < |order| && Partial(specs, order, i, done, dist, pred)
    requires Edge(specs, order[i], c)
    ensures c in dist
    ensures var further := dist[c] < dist[order[i]] + 1;
            Partial(specs, order, i, done + [c],
                    if further then dist[c := dist[order[i]] + 1] else dist,
                    if further then pred[c := Some(order[i])] else pred)
  {
    hide Ids, Edge, Ordered, PredecessorOk, Pushed;
    ChildIsLater(specs, order, i, c);
    var y := order[i];
    assert y in order[..i + 1] && forall z :: z in order[..i] ==> z in order[..i + 1];
    if dist[c] < dist[y] + 1 {
      var dist', pred' := dist[c := dist[y] + 1], pred[c := Some(y)];
      forall x | x in pred'
        ensures PredecessorOk(specs, order, i + 1, dist', pred', x)
      {
        PredecessorKept(specs, order, i, dist, pred, c, y, x);
      }
      forall z | z in order[..i]
        ensures Pushed(specs, dist', z)
      {
        PushedKept(specs, dist, z, c, dist[y] + 1);
      }
    }
  }

  lemma PartialDone(specs: seq<Spec>, order: seq<Id>, i: nat, done: seq<Id>, dist: Distances, pred: Predecessors)
    requires Ordered(specs, order) && i < |order| && Partial(specs, order, i, done, dist, pred)
    requires forall c :: Edge(specs, order[i], c) ==> c in done
    ensures Progress(specs, order, i + 1, dist, pred)
  {
    hide Ids, DepsFirst, Edge, PredecessorOk;
    assert order[..i + 1] == order[..i] + [order[i]];
  }

  /** No path into a node is longer than its final distance. */
  lemma {:induction false} DistanceBounds(specs: seq<Spec>, order: seq<Id>, dist: Distances, pred: Predecessors,
        w: seq<Id>)
    requires Ordered(specs, order) && Progress(specs, order, |order|, dist, pred) && Path(specs, w)
    ensures w[|w| - 1] in dist && |w| - 1 <= dist[w[|w| - 1]]
  {
    hide DepsFirst;
    var n := |w| - 1;
    if n > 0 {
      PathSlice(specs, w, 0, n);
      DistanceBounds(specs, order, dist, pred, w[0..n]);
      assert Edge(specs, w[n - 1], w[n]);
      assert w[n - 1] in Elems(order) && order[..|order|] == order;
      assert Pushed(specs, dist, w[n - 1]);
    }
  }

  lemma AllPushed(specs: seq<Spec>, order: seq<Id>, dist: Distances, pred: Predecessors, d: Id)
    requires Ordered(specs, order) && Progress(specs, order, |order|, dist, pred) && d in Ids(specs)
    ensures Pushed(specs, dist, d)
  {
    hide Ids, Edge, Pushed, PredecessorOk;
    assert d in Elems(order) && order[..|order|] == order;
  }

  lemma NoPredecessorIsRoot(specs: seq<Spec>, order: seq<Id>, dist: Distances, pred: Predecessors, x: Id)
    requires Ordered(specs, order) && Closed(specs) && Progress(specs, order, |order|, dist, pred)
    requires x in pred && pred[x] == None
    ensures DepsOf(specs, x) == []
  {
    hide DepsFirst, DepsOf, Ids;
    assert PredecessorOk(specs, order, |order|, dist, pred, x);
    if DepsOf(specs, x) != [] {
      var d := DepsOf(specs, x)[0];
      assert DepsKnown(specs, x) && d in Ids(specs) && Edge(specs, d, x);
      AllPushed(specs, order, dist, pred, d);
      assert false;
    }
  }

  /** A longest path: real edges from a root, and none longer anywhere. */
  ghost predicate LongestPath(specs: seq<Spec>, w: seq<Id>) {
    Path(specs, w) && DepsOf(specs, w[0]) == [] && forall v :: Path(specs, v) ==> |v| <= |w|
  }

  /** Following predecessors back from x: w is the part already collected. */
  ghost predicate Trail(specs: seq<Spec>, dist: Distances, end: Id, x: Id, w: seq<Id>) {
    x in dist && end in dist && dist[x] + |w| == dist[end]
    && (w == [] ==> x == end) && (w != [] ==> Path(specs, w) && w[|w| - 1] == end && Edge(specs, x, w[0]))
  }

  lemma TrailStart(specs: seq<Spec>, dist: Distances, end: Id)
    requires end in dist
    ensures Trail(specs, dist, end, end, [])
  {}

  lemma TrailExtend(specs: seq<Spec>, order: seq<Id>, dist: Distances, pred: Predecessors, end: Id, x: Id, w: seq<Id>)
    requires Ordered(specs, order) && Progress(specs, order, |order|, dist, pred)
    requires Trail(specs, dist, end, x, w)
    ensures Path(specs, [x] + w) && ([x] + w)[|w|] == end
    ensures pred[x].Some? ==>
      Trail(specs, dist, end, pred[x].value, [x] + w) && pred[x].value in dist && dist[pred[x].value] < dist[x]
  {
    hide Ordered, Pushed, Edge, Ids;
    var v := [x] + w;
    forall i | 0 <= i < |v| - 1
      ensures Edge(specs, v[i], v[i + 1])
    {
      assert i > 0 ==> Edge(specs, w[i - 1], w[i]);
    }
    assert PredecessorOk(specs, order, |order|, dist, pred, x);
  }

  lemma TrailEnds(specs: seq<Spec>, order: seq<Id>, dist: Distances, pred: Predecessors, end: Id, x: Id, w: seq<Id>)
    requires Ordered(specs, order) && Closed(specs) && Progress(specs, order, |order|, dist, pred)
    requires Trail(specs, dist, end, x, w) && pred[x] == None
    requires forall y :: y in dist ==> dist[y] <= dist[end]
    ensures LongestPath(specs, [x] + w)
  {
    hide DepsFirst, Ids;
    TrailExtend(specs, order, dist, pred, end, x, w);
    NoPredecessorIsRoot(specs, order, dist, pred, x);
    assert PredecessorOk(specs, order, |order|, dist, pred, x);
    forall v | Path(specs, v)
      ensures |v| <= |[x] + w|
    {
      DistanceBounds(specs, order, dist, pred, v);
    }
  }
}
