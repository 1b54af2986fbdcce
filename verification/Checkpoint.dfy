/** Checkpoints (backend/app/orchestration/checkpoint.py): status buckets and the
    DAG snapshot. */
module Checkpoint {
  import opened Graph
  import opened Statuses
  import D = Dag

  datatype Buckets = Buckets(completed: seq<Id>, pending: seq<Id>, failed: seq<Id>)

  /** Nodes with an empty id are passed over; RUNNING, SKIPPED and the rest count as pending. */
  function BucketsOf(rs: seq<D.NodeRecord>): Buckets {
    if rs == [] then Buckets([], [], [])
    else
      var b, r := BucketsOf(rs[..|rs| - 1]), rs[|rs| - 1];
      if r.nodeId == "" then b
      else if r.status.Completed? then b.(completed := b.completed + [r.nodeId])
      else if r.status.Failed? then b.(failed := b.failed + [r.nodeId])
      else b.(pending := b.pending + [r.nodeId])
  }

  function NamedIds(rs: seq<D.NodeRecord>): seq<Id> {
    if rs == [] then []
    else NamedIds(rs[..|rs| - 1]) + if rs[|rs| - 1].nodeId == "" then [] else [rs[|rs| - 1].nodeId]
  }

  /** The buckets partition the node ids, each occurrence going to one of them. */
  lemma {:induction false} BucketsPartition(rs: seq<D.NodeRecord>)
    ensures var b := BucketsOf(rs);
            multiset(b.completed) + multiset(b.failed) + multiset(b.pending) == multiset(NamedIds(rs))
  {
    if rs != [] {
      BucketsPartition(rs[..|rs| - 1]);
      var b, r := BucketsOf(rs[..|rs| - 1]), rs[|rs| - 1];
      if r.nodeId != "" {
        assert multiset(b.completed + [r.nodeId]) == multiset(b.completed) + multiset{r.nodeId};
        assert multiset(b.failed + [r.nodeId]) == multiset(b.failed) + multiset{r.nodeId};
        assert multiset(b.pending + [r.nodeId]) == multiset(b.pending) + multiset{r.nodeId};
        Shuffle(multiset(b.completed), multiset(b.failed), multiset(b.pending), multiset{r.nodeId});
      }
    }
  }

  lemma Shuffle(a: multiset<Id>, b: multiset<Id>, c: multiset<Id>, x: multiset<Id>)
    ensures (a + x) + b + c == a + b + c + x && a + (b + x) + c == a + b + c + x && a + b + (c + x) == a + b + c + x
  {}

  lemma {:induction false} BucketMembers(rs: seq<D.NodeRecord>, x: Id)
    ensures var b := BucketsOf(rs);
            (x in b.completed <==> x != "" && exists r :: r in rs && r.nodeId == x && r.status.Completed?)
            && (x in b.failed <==> x != "" && exists r :: r in rs && r.nodeId == x && r.status.Failed?)
            && (x in b.pending <==>
                  x != "" && exists r :: r in rs && r.nodeId == x && !r.status.Completed? && !r.status.Failed?)
  {
    if rs != [] {
      var front, last := rs[..|rs| - 1], rs[|rs| - 1];
      assert rs == front + [last];
      BucketMembers(front, x);
      assert forall r :: r in rs <==> r in front || r == last;
    }
  }

  datatype WorkflowCheckpoint = WorkflowCheckpoint(snapshot: seq<D.NodeRecord>, buckets: Buckets)

  /** `WorkflowCheckpoint.from_dag` */
  method FromDag(dag: D.Dag) returns (cp: WorkflowCheckpoint)
    requires dag.Valid()
    ensures cp == WorkflowCheckpoint(dag.Snapshot(), BucketsOf(dag.Snapshot()))
  {
    hide ChildrenOf, ParentsOf, DepsOf, Order, Ids, D.Dag.Valid, D.Dag.Snapshot;
    var snapshot := dag.ToDict();
    var completed, pending, failed := [], [], [];
    for i := 0 to |snapshot|
      invariant Buckets(completed, pending, failed) == BucketsOf(snapshot[..i])
    {
      assert snapshot[..i + 1][..i] == snapshot[..i];
      var r := snapshot[i];
      if r.nodeId == "" {
        continue;
      }
      if r.status.Completed? {
        completed := completed + [r.nodeId];
      } else if r.status.Failed? {
        failed := failed + [r.nodeId];
      } else {
        pending := pending + [r.nodeId];
      }
    }
    assert snapshot[..|snapshot|] == snapshot;
    cp := WorkflowCheckpoint(snapshot, Buckets(completed, pending, failed));
  }

  /** Saving a DAG and restoring it gives the same graph with the same adjacency
      lists in the same order, the same statuses and the same ready list. */
  method SaveAndRestore(dag: D.Dag) returns (v: Validation, copy: D.Dag)
    requires dag.Valid() && Unique(dag.specs)
    ensures copy.Valid() && fresh(copy) && fresh(copy.repr)
    ensures copy.specs == dag.specs && copy.order == dag.order && copy.St() == dag.St()
    ensures forall p :: copy.Children(p) == dag.Children(p) && copy.Parents(p) == dag.Parents(p)
    ensures copy.Snapshot() == dag.Snapshot()
    ensures v == Validate(dag.specs)
  {
    hide ChildrenOf, ParentsOf, DepsOf, Order, Ids, Validate, D.Dag.Snapshot, D.Dag.St, D.RecordSpecs, D.RecordStatuses;
    var cp := FromDag(dag);
    D.SnapshotComplete(dag);
    v, copy := D.FromDict(cp.snapshot);
    SnapshotStatuses(dag);
  }

  lemma {:induction false} RecordStatusAt(rs: seq<D.NodeRecord>, st: StatusMap)
    requires forall i :: 0 <= i < |rs| ==> rs[i].nodeId in st && st[rs[i].nodeId] == rs[i].status
    ensures forall id :: id in D.RecordStatuses(rs) <==> exists i :: 0 <= i < |rs| && rs[i].nodeId == id
    ensures forall id :: id in D.RecordStatuses(rs) ==> id in st && D.RecordStatuses(rs)[id] == st[id]
  {
    if rs != [] {
      var n := |rs| - 1;
      RecordStatusAt(rs[..n], st);
      forall id
        ensures id in D.RecordStatuses(rs) <==> exists i :: 0 <= i < |rs| && rs[i].nodeId == id
      {
        if id in D.RecordStatuses(rs[..n]) {
          var i :| 0 <= i < n && rs[..n][i].nodeId == id;
          assert rs[i].nodeId == id;
        }
        if i :| 0 <= i < |rs| && rs[i].nodeId == id {
          assert i < n ==> rs[..n][i].nodeId == id;
        }
      }
    }
  }

  lemma SnapshotAt(dag: D.Dag, i: nat)
    requires dag.Valid() && i < |dag.order|
    ensures dag.order[i] in dag.nodes && dag.Snapshot()[i].nodeId == dag.order[i]
    ensures dag.Snapshot()[i].status == dag.St()[dag.order[i]]
  {
    hide ChildrenOf, ParentsOf, DepsOf, Order;
    assert dag.order[i] in dag.order;
  }

  lemma SnapshotStatuses(dag: D.Dag)
    requires dag.Valid()
    ensures D.RecordStatuses(dag.Snapshot()) == dag.St()
  {
    hide ChildrenOf, ParentsOf, DepsOf, Order, Ids, D.Dag.Snapshot, D.Dag.St, D.RecordStatuses;
    var rs := dag.Snapshot();
    forall i | 0 <= i < |rs|
      ensures rs[i].nodeId in dag.St() && dag.St()[rs[i].nodeId] == rs[i].status && rs[i].nodeId == dag.order[i]
    {
      SnapshotAt(dag, i);
    }
    RecordStatusAt(rs, dag.St());
    forall id | id in dag.St()
      ensures id in D.RecordStatuses(rs)
    {
      assert id in dag.order;
      var i :| 0 <= i < |dag.order| && dag.order[i] == id;
      assert rs[i].nodeId == id;
    }
  }
}
