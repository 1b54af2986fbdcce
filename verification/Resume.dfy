/** Cross-node resume (backend/app/orchestration/resume.py): task rows are reconciled
    with a checkpoint by step number. */
module Resume {
  import opened Prelude
  import opened Graph
  import opened Statuses
  import opened Schedule
  import opened Checkpoint
  import Radix
  import J = CanonicalJson
  import D = Dag

  // ---------------------------------------------------------------- Step numbers

  const HASH_RANGE: nat := 0x7FFF_FFFF

  /** The decimal digits of an id, in order. */
  function DigitsIn(id: Id): (ds: seq<nat>)
    ensures Radix.IsNumeral(10, ds)
  {
    if id == "" then []
    else
      var c := id[|id| - 1];
      DigitsIn(id[..|id| - 1]) + if '0' <= c <= '9' then [(c - '0') as nat] else []
  }

  /** The digits of the id, or else a number made from the process's string hash. */
  function StepNumber(id: Id, hash: Id -> int): nat {
    if DigitsIn(id) != [] then Radix.Eval(10, DigitsIn(id))
    else
      var h := hash(id);
      (if h < 0 then -h else h) % HASH_RANGE + 1
  }

  lemma {:induction false} DigitsAppend(a: Id, b: Id)
    ensures DigitsIn(a + b) == DigitsIn(a) + DigitsIn(b)
  {
    if b == "" {
      assert a + b == a;
    } else {
      assert (a + b)[..|a + b| - 1] == a + b[..|b| - 1];
      DigitsAppend(a, b[..|b| - 1]);
    }
  }

  /** An alternative node added by a replan shares its original's step number. */
  lemma AlternativeSharesStep(id: Id, hash: Id -> int)
    requires DigitsIn(id) != []
    ensures StepNumber(AltId(id), hash) == StepNumber(id, hash)
  {
    hide DigitsIn;
    DigitsAppend(id, "_alt");
    NoDigits("_alt");
    assert DigitsIn(id) + [] == DigitsIn(id);
  }

  lemma {:induction false} NoDigits(s: string)
    requires HasNoDigit(s)
    ensures DigitsIn(s) == []
  {
    if s != "" {
      NoDigits(s[..|s| - 1]);
    }
  }

  lemma {:induction false} DigitsOfText(s: string, ds: seq<nat>)
    requires |s| == |ds| && forall i :: 0 <= i < |ds| ==> ds[i] < 10 && s[i] == '0' + ds[i] as char
    ensures DigitsIn(s) == ds
  {
    if s != "" {
      DigitsOfText(s[..|s| - 1], ds[..|ds| - 1]);
      assert ds == ds[..|ds| - 1] + [ds[|ds| - 1]];
    }
  }

  predicate HasNoDigit(s: string) {
    forall i :: 0 <= i < |s| ==> !('0' <= s[i] <= '9')
  }

  /** An id that ends in a number is numbered by it. */
  lemma NumberedStep(prefix: string, n: nat, hash: Id -> int)
    requires HasNoDigit(prefix)
    ensures StepNumber(prefix + J.NatText(n), hash) == n
  {
    hide DigitsIn;
    DigitsAppend(prefix, J.NatText(n));
    NoDigits(prefix);
    if n == 0 {
      DigitsOfText("0", [0]);
      assert [] + [0] == [0] && [0][..0] == [];
    } else {
      DigitsOfText(J.NatText(n), Radix.Digits(10, n));
      Radix.EvalDigits(10, n);
      assert [] + Radix.Digits(10, n) == Radix.Digits(10, n);
    }
  }

  lemma DigitsSnoc(id: Id, c: char)
    ensures DigitsIn(id + [c]) == DigitsIn(id) + if '0' <= c <= '9' then [(c - '0') as nat] else []
  {
    assert (id + [c])[..|id|] == id;
  }

  lemma EvalSnoc(ds: seq<nat>, d: nat)
    ensures Radix.Eval(10, ds + [d]) == Radix.Eval(10, ds) * 10 + d
  {
    assert (ds + [d])[..|ds|] == ds;
  }

  /** In general a further digit counts, wherever it stands, and nothing else does. */
  lemma StepByDigit(id: Id, c: char, hash: Id -> int)
    requires DigitsIn(id) != []
    ensures !('0' <= c <= '9') ==> StepNumber(id + [c], hash) == StepNumber(id, hash)
    ensures '0' <= c <= '9' ==> StepNumber(id + [c], hash) == StepNumber(id, hash) * 10 + (c - '0') as nat
  {
    hide DigitsIn, Radix.Eval;
    DigitsSnoc(id, c);
    if '0' <= c <= '9' {
      EvalSnoc(DigitsIn(id), (c - '0') as nat);
    } else {
      assert DigitsIn(id) + [] == DigitsIn(id);
    }
  }

  /** Without a digit the process's hash decides, within 31 bits. */
  lemma StepWithoutDigit(id: Id, hash: Id -> int)
    requires HasNoDigit(id)
    ensures 1 <= StepNumber(id, hash) <= 0x7FFF_FFFF
    ensures 0 <= hash(id) < 0x7FFF_FFFF ==> StepNumber(id, hash) == hash(id) + 1
    ensures 0 <= -hash(id) < 0x7FFF_FFFF ==> StepNumber(id, hash) == 1 - hash(id)
  {
    NoDigits(id);
  }

  /** Every process numbers an id alike if, and only if, the id has a digit. */
  lemma StepIsStableIff(id: Id)
    ensures (forall h1: Id -> int, h2: Id -> int :: StepNumber(id, h1) == StepNumber(id, h2)) <==> DigitsIn(id) != []
  {
    if DigitsIn(id) == [] {
      assert StepNumber(id, SameHash(0)) == 1 && StepNumber(id, SameHash(1)) == 2;
    }
  }

  /** A process in which every string has one hash. */
  function SameHash(h: int): Id -> int {
    _ => h
  }

  // ---------------------------------------------------------------- Task rows

  datatype TaskRow = TaskRow(step: nat, status: Status)

  /** What the resume loop needs of one DAG node. */
  datatype Wanted = Wanted(id: Id, step: nat, target: Status)

  /** tasks_by_step: the first row of a step wins. */
  function FirstRow(rows: seq<TaskRow>, step: nat): (i: Option<nat>)
    ensures i.Some? ==> i.value < |rows| && rows[i.value].step == step
    ensures i.Some? ==> forall k :: 0 <= k < i.value ==> rows[k].step != step
    ensures i == None ==> forall k :: 0 <= k < |rows| ==> rows[k].step != step
  {
    if rows == [] then None
    else
      var i := FirstRow(rows[..|rows| - 1], step);
      if i.Some? then i else if rows[|rows| - 1].step == step then Some(|rows| - 1) else None
  }

  datatype Restored = Restored(rows: seq<TaskRow>, created: seq<Id>, updated: seq<Id>)

  /** One node: create its row, or bring the first row of its step to its status.
      The index of rows is the one taken before the loop. */
  function RestoreOne(rows0: seq<TaskRow>, r: Restored, w: Wanted): Restored
    requires |rows0| <= |r.rows|
  {
    var i := FirstRow(rows0, w.step);
    if i == None then r.(rows := r.rows + [TaskRow(w.step, w.target)], created := r.created + [w.id])
    else if r.rows[i.value].status != w.target then
      r.(rows := r.rows[i.value := r.rows[i.value].(status := w.target)], updated := r.updated + [w.id])
    else r
  }

  function Restore(rows0: seq<TaskRow>, ws: seq<Wanted>): (r: Restored)
    ensures |rows0| <= |r.rows|
  {
    if ws == [] then Restored(rows0, [], [])
    else RestoreOne(rows0, Restore(rows0, ws[..|ws| - 1]), ws[|ws| - 1])
  }

  /** Nothing to do: every node's first row is there with the node's status. */
  ghost predicate Settled(rows: seq<TaskRow>, ws: seq<Wanted>) {
    forall w :: w in ws ==> FirstRow(rows, w.step).Some? && rows[FirstRow(rows, w.step).value].status == w.target
  }

  lemma {:induction false} SettledIsNoOp(rows: seq<TaskRow>, ws: seq<Wanted>)
    ensures Settled(rows, ws) <==> Restore(rows, ws).created == [] && Restore(rows, ws).updated == []
    ensures Settled(rows, ws) ==> Restore(rows, ws).rows == rows
  {
    if ws != [] {
      var front, last := ws[..|ws| - 1], ws[|ws| - 1];
      assert ws == front + [last];
      SettledIsNoOp(rows, front);
      assert Settled(rows, ws) ==> Settled(rows, front);
    }
  }

  /** Steps of rows never change; new rows come after the old ones. */
  ghost predicate Extends(rows0: seq<TaskRow>, rows: seq<TaskRow>) {
    |rows0| <= |rows| && forall k :: 0 <= k < |rows0| ==> rows[k].step == rows0[k].step
  }

  lemma FirstRowStatus(rows: seq<TaskRow>, i: nat, status: Status, step: nat)
    requires i < |rows|
    ensures FirstRow(rows[i := rows[i].(status := status)], step) == FirstRow(rows, step)
  {
    var rows' := rows[i := rows[i].(status := status)];
    assert forall k :: 0 <= k < |rows| ==> rows'[k].step == rows[k].step;
  }

  lemma FirstRowAppend(rows: seq<TaskRow>, row: TaskRow, step: nat)
    ensures FirstRow(rows, step).Some? ==> FirstRow(rows + [row], step) == FirstRow(rows, step)
    ensures FirstRow(rows, step) == None && row.step == step ==> FirstRow(rows + [row], step) == Some(|rows|)
  {
    assert (rows + [row])[..|rows|] == rows;
  }

  lemma {:induction false} RestoreExtends(rows0: seq<TaskRow>, ws: seq<Wanted>)
    ensures Extends(rows0, Restore(rows0, ws).rows)
  {
    if ws != [] {
      RestoreExtends(rows0, ws[..|ws| - 1]);
    }
  }

  // ---------------------------------------------------------------- Repeated restores

  /** What the first, or the last, node of a step is wanted with. */
  function FirstTarget(ws: seq<Wanted>, step: nat): Option<Status> {
    if ws == [] then None
    else
      var t := FirstTarget(ws[..|ws| - 1], step);
      if t.Some? then t else if ws[|ws| - 1].step == step then Some(ws[|ws| - 1].target) else None
  }

  function LastTarget(ws: seq<Wanted>, step: nat): Option<Status> {
    if ws == [] then None
    else if ws[|ws| - 1].step == step then Some(ws[|ws| - 1].target)
    else LastTarget(ws[..|ws| - 1], step)
  }

  /** The first row of a step after a restore: a row that was there has the last
      target, a new one the first. */
  ghost predicate FirstIs(rows0: seq<TaskRow>, ws: seq<Wanted>, rows: seq<TaskRow>, step: nat) {
    var i, j := FirstRow(rows0, step), FirstRow(rows, step);
    if i.Some? then j == i && rows[i.value].status == LastTarget(ws, step).GetOr(rows0[i.value].status)
    else
      match FirstTarget(ws, step)
      case None => j == None
      case Some(t) => j.Some? && rows[j.value].status == t
  }

  lemma {:induction false} FirstAfterRestore(rows0: seq<TaskRow>, ws: seq<Wanted>, step: nat)
    ensures FirstIs(rows0, ws, Restore(rows0, ws).rows, step)
  {
    if ws != [] {
      var front, last := ws[..|ws| - 1], ws[|ws| - 1];
      FirstAfterRestore(rows0, front, step);
      RestoreExtends(rows0, front);
      FirstAfterOne(rows0, front, last, Restore(rows0, front), step);
    }
  }

  lemma FirstAfterOne(rows0: seq<TaskRow>, front: seq<Wanted>, last: Wanted, r: Restored, step: nat)
    requires FirstIs(rows0, front, r.rows, step) && Extends(rows0, r.rows)
    ensures FirstIs(rows0, front + [last], RestoreOne(rows0, r, last).rows, step)
  {
    hide FirstRow;
    assert (front + [last])[..|front|] == front;
    var i := FirstRow(rows0, last.step);
    if i.Some? {
      FirstRowStatus(r.rows, i.value, last.target, step);
    } else {
      FirstRowAppend(r.rows, TaskRow(last.step, last.target), step);
    }
  }

  lemma {:induction false} TargetsOfMember(ws: seq<Wanted>, w: Wanted)
    requires w in ws
    ensures FirstTarget(ws, w.step).Some? && LastTarget(ws, w.step).Some?
  {
    if w in ws[..|ws| - 1] {
      TargetsOfMember(ws[..|ws| - 1], w);
    }
  }

  lemma {:induction false} TargetIsMember(ws: seq<Wanted>, step: nat)
    ensures FirstTarget(ws, step).Some? ==>
      exists w :: w in ws && w.step == step && w.target == FirstTarget(ws, step).value
    ensures LastTarget(ws, step).Some? ==>
      exists w :: w in ws && w.step == step && w.target == LastTarget(ws, step).value
  {
    if ws != [] {
      TargetIsMember(ws[..|ws| - 1], step);
      assert ws[|ws| - 1] in ws && forall w :: w in ws[..|ws| - 1] ==> w in ws;
    }
  }

  ghost predicate AllThere(rows: seq<TaskRow>, ws: seq<Wanted>) {
    forall w :: w in ws ==> FirstRow(rows, w.step).Some?
  }

  lemma AllThereAfter(rows0: seq<TaskRow>, ws: seq<Wanted>)
    ensures AllThere(Restore(rows0, ws).rows, ws)
  {
    hide Restore, FirstRow;
    forall w | w in ws
      ensures FirstRow(Restore(rows0, ws).rows, w.step).Some?
    {
      FirstAfterRestore(rows0, ws, w.step);
      TargetsOfMember(ws, w);
    }
  }

  /** Once every step has a row, a restore gives the first row of each step its
      last target and changes no other row. */
  lemma {:induction false} RestoreInPlace(rows: seq<TaskRow>, ws: seq<Wanted>)
    requires AllThere(rows, ws)
    ensures Restore(rows, ws).created == [] && |Restore(rows, ws).rows| == |rows|
    ensures forall k :: 0 <= k < |rows| ==>
      Restore(rows, ws).rows[k]
      == if FirstRow(rows, rows[k].step) != Some(k) then rows[k]
         else rows[k].(status := LastTarget(ws, rows[k].step).GetOr(rows[k].status))
  {
    hide FirstRow;
    if ws != [] {
      var front, last := ws[..|ws| - 1], ws[|ws| - 1];
      assert last in ws && forall w :: w in front ==> w in ws;
      RestoreInPlace(rows, front);
    }
  }

  /** The first row of every wanted step has its last target. */
  ghost predicate AtLast(rows: seq<TaskRow>, ws: seq<Wanted>) {
    forall w :: w in ws ==>
      FirstRow(rows, w.step).Some? && Some(rows[FirstRow(rows, w.step).value].status) == LastTarget(ws, w.step)
  }

  lemma AtLastIff(rows: seq<TaskRow>, ws: seq<Wanted>)
    requires AllThere(rows, ws)
    ensures Restore(rows, ws).rows == rows <==> AtLast(rows, ws)
  {
    hide Restore, FirstRow;
    RestoreInPlace(rows, ws);
    if Restore(rows, ws).rows == rows {
      forall w | w in ws
        ensures Some(rows[FirstRow(rows, w.step).value].status) == LastTarget(ws, w.step)
      {
        var k := FirstRow(rows, w.step).value;
        assert Restore(rows, ws).rows[k] == rows[k];
        TargetsOfMember(ws, w);
      }
    }
    if AtLast(rows, ws) {
      forall k | 0 <= k < |rows|
        ensures Restore(rows, ws).rows[k] == rows[k]
      {
        TargetIsMember(ws, rows[k].step);
      }
    }
  }

  /** Restoring twice leaves the rows as restoring once does if, and only if, every
      step had a row already or its first and last wanted targets agree. */
  lemma RowsSettleIff(rows0: seq<TaskRow>, ws: seq<Wanted>)
    ensures var once := Restore(rows0, ws).rows;
            Restore(once, ws).rows == once
            <==> (forall w :: w in ws ==>
                    FirstRow(rows0, w.step).Some? || FirstTarget(ws, w.step) == LastTarget(ws, w.step))
  {
    hide Restore, FirstRow;
    var once := Restore(rows0, ws).rows;
    AllThereAfter(rows0, ws);
    AtLastIff(once, ws);
    forall w | w in ws
      ensures FirstRow(once, w.step).Some?
      ensures Some(once[FirstRow(once, w.step).value].status) == LastTarget(ws, w.step)
         <==> FirstRow(rows0, w.step).Some? || FirstTarget(ws, w.step) == LastTarget(ws, w.step)
    {
      FirstAfterRestore(rows0, ws, w.step);
      TargetsOfMember(ws, w);
    }
  }

  /** From the second restore on the rows never change again. */
  lemma ThirdRestoreIsNoOp(rows0: seq<TaskRow>, ws: seq<Wanted>)
    ensures var twice := Restore(Restore(rows0, ws).rows, ws).rows; Restore(twice, ws).rows == twice
  {
    hide Restore, FirstRow;
    AllThereAfter(rows0, ws);
    RowsSettleIff(Restore(rows0, ws).rows, ws);
  }

  /** Nodes that share a step number were checkpointed with the same status. */
  ghost predicate StepsAgree(ws: seq<Wanted>) {
    forall v, w :: v in ws && w in ws && v.step == w.step ==> v.target == w.target
  }

  /** A second restore creates nothing, and reports no updated row if, and only if,
      nodes that share a step number have the same checkpointed status. */
  lemma NothingUpdatedIff(rows0: seq<TaskRow>, ws: seq<Wanted>)
    ensures var twice := Restore(Restore(rows0, ws).rows, ws);
            twice.created == [] && (twice.updated == [] <==> StepsAgree(ws))
  {
    hide Restore, FirstRow;
    var once := Restore(rows0, ws).rows;
    AllThereAfter(rows0, ws);
    RestoreInPlace(once, ws);
    SettledIsNoOp(once, ws);
    if StepsAgree(ws) {
      forall w | w in ws
        ensures FirstRow(once, w.step).Some? && once[FirstRow(once, w.step).value].status == w.target
      {
        FirstAfterRestore(rows0, ws, w.step);
        TargetsOfMember(ws, w);
        TargetIsMember(ws, w.step);
      }
    }
  }

  // ---------------------------------------------------------------- Resume

  /** `_bucket_statuses` with its PENDING default: pending beats failed beats completed. */
  function TargetOf(b: Buckets, id: Id): Status {
    if id in b.pending then Pending
    else if id in b.failed then Failed
    else if id in b.completed then Completed
    else Pending
  }

  /** For an id in several buckets, pending wins over failed and failed over completed;
      an id in none is pending. */
  lemma TargetPriority(b: Buckets, id: Id)
    ensures TargetOf(b, id).Completed? <==> id in b.completed && id !in b.failed && id !in b.pending
    ensures TargetOf(b, id).Failed? <==> id in b.failed && id !in b.pending
    ensures TargetOf(b, id).Pending? <==> id in b.pending || (id !in b.failed && id !in b.completed)
  {}

  function WantedFor(b: Buckets, ids: seq<Id>, hash: Id -> int): (ws: seq<Wanted>)
    ensures |ws| == |ids|
    ensures forall i :: 0 <= i < |ids| ==> ws[i] == Wanted(ids[i], StepNumber(ids[i], hash), TargetOf(b, ids[i]))
  {
    seq(|ids|, i requires 0 <= i < |ids| => Wanted(ids[i], StepNumber(ids[i], hash), TargetOf(b, ids[i])))
  }

  /** What the resume loop wants of every node of the restored DAG. */
  function WantedOf(cp: WorkflowCheckpoint, hash: Id -> int): seq<Wanted> {
    WantedFor(cp.buckets, Order(D.RecordSpecs(cp.snapshot)), hash)
  }

  datatype WorkflowRow = WorkflowRow(running: bool, snapshot: seq<D.NodeRecord>, finished: bool)

  class WorkflowResumer {
    var workflow: Option<WorkflowRow>
    var tasks: seq<TaskRow>  // in the order the database returns them

    constructor (workflow: Option<WorkflowRow>, tasks: seq<TaskRow>)
      ensures this.workflow == workflow && this.tasks == tasks
    {
      this.workflow, this.tasks := workflow, tasks;
    }

    /** Reconciles the local rows with a checkpoint; nothing changes when the
        snapshot does not validate. */
    method RestoreFrom(cp: WorkflowCheckpoint, hash: Id -> int)
      returns (v: Validation, createdWorkflow: bool, created: seq<Id>, updated: seq<Id>)
      modifies this
      ensures v == Validate(D.RecordSpecs(cp.snapshot))
      ensures !v.Valid? ==> workflow == old(workflow) && tasks == old(tasks)
      ensures v.Valid? ==>
        workflow == Some(WorkflowRow(true, cp.snapshot, false)) && createdWorkflow == old(workflow).None?
        && Restored(tasks, created, updated) == Restore(old(tasks), WantedOf(cp, hash))
    {
      hide Order, Ids, DepsOf, ChildrenOf, ParentsOf, Validate, StepNumber, TargetOf;
      created, updated, createdWorkflow := [], [], false;
      var dag;
      v, dag := D.FromDict(cp.snapshot);
      if !v.Valid? {
        return;
      }
      createdWorkflow := workflow.None?;
      workflow := Some(WorkflowRow(true, cp.snapshot, false));
      var byStep := TasksByStep();
      created, updated := RestoreTasks(byStep, WantedFor(cp.buckets, dag.order, hash));
    }

    /** tasks_by_step.setdefault over the existing rows. */
    method TasksByStep() returns (byStep: map<nat, nat>)
      ensures forall s :: FirstRow(tasks, s) == if s in byStep then Some(byStep[s]) else None
    {
      byStep := map[];
      for k := 0 to |tasks|
        invariant forall s :: FirstRow(tasks[..k], s) == if s in byStep then Some(byStep[s]) else None
      {
        assert tasks[..k + 1][..k] == tasks[..k];
        if tasks[k].step !in byStep {
          byStep := byStep[tasks[k].step := k];
        }
      }
      assert tasks[..|tasks|] == tasks;
    }

    method RestoreTasks(byStep: map<nat, nat>, ws: seq<Wanted>) returns (created: seq<Id>, updated: seq<Id>)
      requires forall s :: FirstRow(tasks, s) == if s in byStep then Some(byStep[s]) else None
      modifies this`tasks
      ensures Restored(tasks, created, updated) == Restore(old(tasks), ws)
    {
      hide FirstRow;
      created, updated := [], [];
      for k := 0 to |ws|
        invariant Restored(tasks, created, updated) == Restore(old(tasks), ws[..k])
      {
        assert ws[..k + 1][..k] == ws[..k];
        var w := ws[k];
        if w.step !in byStep {
          tasks := tasks + [TaskRow(w.step, w.target)];
          created := created + [w.id];
        } else {
          var i := byStep[w.step];
          if tasks[i].status != w.target {
            tasks := tasks[i := tasks[i].(status := w.target)];
            updated := updated + [w.id];
          }
        }
      }
      assert ws[..|ws|] == ws;
    }
  }

  /** With distinct ids, a node is wanted with the status the snapshot gives it,
      reduced to completed, failed or pending. */
  lemma TargetExact(rs: seq<D.NodeRecord>, r: D.NodeRecord)
    requires Unique(D.RecordSpecs(rs)) && r in rs && r.nodeId != ""
    ensures TargetOf(BucketsOf(rs), r.nodeId) == if r.status.Failed? then Failed
                                                 else if r.status.Completed? then Completed else Pending
  {
    hide BucketsOf;
    BucketMembers(rs, r.nodeId);
    var i :| 0 <= i < |rs| && rs[i] == r;
    forall q | q in rs && q.nodeId == r.nodeId
      ensures q == r
    {
      var j :| 0 <= j < |rs| && rs[j] == q;
      assert D.RecordSpecs(rs)[i].id == D.RecordSpecs(rs)[j].id;
    }
  }

  // ---------------------------------------------------------------- One row per node

  ghost predicate HasRow(rows: seq<TaskRow>, step: nat) {
    exists k :: 0 <= k < |rows| && rows[k].step == step
  }

  lemma HasRowIff(rows: seq<TaskRow>, step: nat)
    ensures HasRow(rows, step) <==> FirstRow(rows, step).Some?
  {}

  /** The nodes reported as created are those whose step had no row, and each of them
      got one. */
  lemma {:induction false} CreatedExact(rows0: seq<TaskRow>, ws: seq<Wanted>)
    ensures var r := Restore(rows0, ws);
            && |r.rows| == |rows0| + |r.created|
            && forall id :: id in r.created <==> exists w :: w in ws && w.id == id && !HasRow(rows0, w.step)
  {
    hide FirstRow, HasRow;
    if ws != [] {
      var front, last := ws[..|ws| - 1], ws[|ws| - 1];
      assert ws == front + [last];
      CreatedExact(rows0, front);
      HasRowIff(rows0, last.step);
      var r := Restore(rows0, ws);
      forall id
        ensures id in r.created <==> exists w :: w in ws && w.id == id && !HasRow(rows0, w.step)
      {
        assert id in r.created <==> id in Restore(rows0, front).created || (id == last.id && !HasRow(rows0, last.step));
        if id == last.id && !HasRow(rows0, last.step) {
          assert last in ws;
        }
      }
    }
  }

  ghost predicate DistinctSteps(ws: seq<Wanted>) {
    forall i, j :: 0 <= i < j < |ws| ==> ws[i].step != ws[j].step
  }

  lemma {:induction false} OnlyTarget(ws: seq<Wanted>, w: Wanted)
    requires DistinctSteps(ws) && w in ws
    ensures FirstTarget(ws, w.step) == LastTarget(ws, w.step) == Some(w.target)
  {
    TargetsOfMember(ws, w);
    TargetIsMember(ws, w.step);
    var i :| 0 <= i < |ws| && ws[i] == w;
    forall v | v in ws && v.step == w.step
      ensures v == w
    {
      var j :| 0 <= j < |ws| && ws[j] == v;
    }
  }

  /** If no two nodes share a step, every node has a row of its own with its status. */
  lemma OneRowPerNode(rows0: seq<TaskRow>, ws: seq<Wanted>, w: Wanted)
    requires DistinctSteps(ws) && w in ws
    ensures var rows := Restore(rows0, ws).rows;
            && FirstRow(rows, w.step).Some?
            && rows[FirstRow(rows, w.step).value] == TaskRow(w.step, w.target)
  {
    hide Restore;
    FirstAfterRestore(rows0, ws, w.step);
    OnlyTarget(ws, w);
  }

  ghost predicate Numbered(prefix: string, id: Id) {
    exists n: nat :: id == prefix + J.NatText(n)
  }

  /** So with ids that differ in their number only, each node is restored to its own row. */
  lemma NumberedNodesGetOwnRows(cp: WorkflowCheckpoint, prefix: string, rows0: seq<TaskRow>, hash: Id -> int)
    requires HasNoDigit(prefix)
    requires forall id :: id in Order(D.RecordSpecs(cp.snapshot)) ==> Numbered(prefix, id)
    ensures DistinctSteps(WantedOf(cp, hash))
    ensures var rows := Restore(rows0, WantedOf(cp, hash)).rows;
            forall w :: w in WantedOf(cp, hash) ==>
              FirstRow(rows, w.step).Some? && rows[FirstRow(rows, w.step).value] == TaskRow(w.step, w.target)
  {
    hide Order, Restore, FirstRow, TargetOf, StepNumber, J.NatText;
    var ws, order := WantedOf(cp, hash), Order(D.RecordSpecs(cp.snapshot));
    forall i, j | 0 <= i < j < |ws|
      ensures ws[i].step != ws[j].step
    {
      assert order[i] in order && order[j] in order;
      var m: nat :| order[i] == prefix + J.NatText(m);
      var n: nat :| order[j] == prefix + J.NatText(n);
      NumberedStep(prefix, m, hash);
      NumberedStep(prefix, n, hash);
    }
    forall w | w in ws
      ensures var rows := Restore(rows0, ws).rows;
              FirstRow(rows, w.step).Some? && rows[FirstRow(rows, w.step).value] == TaskRow(w.step, w.target)
    {
      OneRowPerNode(rows0, ws, w);
    }
  }

  // ---------------------------------------------------------------- Several workers

  ghost predicate AllHaveDigits(cp: WorkflowCheckpoint) {
    forall id :: id in Order(D.RecordSpecs(cp.snapshot)) ==> DigitsIn(id) != []
  }

  /** If every node id has a digit, all processes restore alike. */
  lemma WorkersAgree(cp: WorkflowCheckpoint, h1: Id -> int, h2: Id -> int)
    requires AllHaveDigits(cp)
    ensures WantedOf(cp, h1) == WantedOf(cp, h2)
  {
    hide DigitsIn, Order, TargetOf;
    var order := Order(D.RecordSpecs(cp.snapshot));
    forall i | 0 <= i < |order|
      ensures StepNumber(order[i], h1) == StepNumber(order[i], h2)
    {
      assert order[i] in order;
    }
  }

  /** Some step below n + 1 is not among fewer than n steps. */
  lemma {:induction false} FreeStep(steps: set<nat>, n: nat) returns (c: nat)
    requires |steps| < n
    ensures c < n && c + 1 !in steps
  {
    if n !in steps {
      c := n - 1;
    } else {
      c := FreeStep(steps - {n}, n - 1);
    }
  }

  lemma {:induction false} RowSteps(rows0: seq<TaskRow>, ws: seq<Wanted>, k: nat)
    requires k < |Restore(rows0, ws).rows|
    ensures (exists i :: 0 <= i < |rows0| && rows0[i].step == Restore(rows0, ws).rows[k].step)
         || (exists i :: 0 <= i < |ws| && ws[i].step == Restore(rows0, ws).rows[k].step)
  {
    hide FirstRow;
    if ws == [] {
      assert rows0[k].step == rows0[k].step;
    } else {
      var front, last := ws[..|ws| - 1], ws[|ws| - 1];
      assert ws[|ws| - 1] == last && forall i :: 0 <= i < |front| ==> ws[i] == front[i];
      if k < |Restore(rows0, front).rows| {
        RowSteps(rows0, front, k);
      }
    }
  }

  lemma StepsBound(ws: seq<Wanted>) returns (steps: set<nat>)
    ensures |steps| <= |ws| && forall i :: 0 <= i < |ws| ==> ws[i].step in steps
  {
    steps := {};
    for n := 0 to |ws|
      invariant |steps| <= n && forall i :: 0 <= i < n ==> ws[i].step in steps
    {
      steps := steps + {ws[n].step};
    }
  }

  /** An id without digits can be numbered anew by another process. */
  lemma AnotherWorkerCreates(cp: WorkflowCheckpoint, id: Id) returns (h1: Id -> int, h2: Id -> int)
    requires id in Order(D.RecordSpecs(cp.snapshot)) && DigitsIn(id) == []
    requires |Order(D.RecordSpecs(cp.snapshot))| < HASH_RANGE
    ensures Restore(Restore([], WantedOf(cp, h1)).rows, WantedOf(cp, h2)).created != []
  {
    hide Order, Restore, FirstRow, TargetOf, DigitsIn;
    h1 := SameHash(0);
    var ws := WantedOf(cp, h1);
    var steps := StepsBound(ws);
    var c := FreeStep(steps, HASH_RANGE);
    h2 := SameHash(c);
    var order := Order(D.RecordSpecs(cp.snapshot));
    var k :| 0 <= k < |order| && order[k] == id;
    var vs := WantedOf(cp, h2);
    assert vs[k] in vs && vs[k].step == c + 1;
    var once := Restore([], ws).rows;
    if FirstRow(once, c + 1).Some? {
      RowSteps([], ws, FirstRow(once, c + 1).value);
    }
    NoRowIsCreated(once, vs, vs[k]);
  }

  lemma {:induction false} NoRowIsCreated(rows: seq<TaskRow>, ws: seq<Wanted>, w: Wanted)
    requires w in ws && FirstRow(rows, w.step) == None
    ensures Restore(rows, ws).created != []
  {
    hide FirstRow;
    var front, last := ws[..|ws| - 1], ws[|ws| - 1];
    assert ws == front + [last];
    if w in front {
      NoRowIsCreated(rows, front, w);
    }
  }

  /** A restore after any other worker's creates no row, whatever rows there were, if
      and only if every node id has a digit. There are fewer nodes than hashes. */
  lemma CrossWorkerRestoreIff(cp: WorkflowCheckpoint)
    requires |Order(D.RecordSpecs(cp.snapshot))| < HASH_RANGE
    ensures (forall rows0: seq<TaskRow>, h1: Id -> int, h2: Id -> int ::
               Restore(Restore(rows0, WantedOf(cp, h1)).rows, WantedOf(cp, h2)).created == [])
       <==> AllHaveDigits(cp)
  {
    hide Order, Restore, WantedOf, DigitsIn;
    if AllHaveDigits(cp) {
      forall rows0: seq<TaskRow>, h1: Id -> int, h2: Id -> int
        ensures Restore(Restore(rows0, WantedOf(cp, h1)).rows, WantedOf(cp, h2)).created == []
      {
        WorkersAgree(cp, h1, h2);
        NothingUpdatedIff(rows0, WantedOf(cp, h1));
      }
    } else {
      var id :| id in Order(D.RecordSpecs(cp.snapshot)) && DigitsIn(id) == [];
      var h1, h2 := AnotherWorkerCreates(cp, id);
    }
  }

  /** After a replan every further restore reports an updated row: the completed node
      and its unfinished alternative share a step number but not a status. The rows
      themselves settle with the second restore. */
  lemma ReplannedCheckpointKeepsUpdating(cp: WorkflowCheckpoint, hash: Id -> int, x: Id, rows: seq<TaskRow>,
                                         r: D.NodeRecord, alt: D.NodeRecord)
    requires cp.buckets == BucketsOf(cp.snapshot) && Unique(D.RecordSpecs(cp.snapshot))
    requires r in cp.snapshot && r.nodeId == x && r.status.Completed? && DigitsIn(x) != []
    requires alt in cp.snapshot && alt.nodeId == AltId(x) && !alt.status.Completed?
    ensures var once := Restore(rows, WantedOf(cp, hash)).rows; Restore(once, WantedOf(cp, hash)).updated != []
  {
    hide Restore, BucketsOf, StepNumber, DigitsIn, Order, AltId;
    var ws := WantedOf(cp, hash);
    NothingUpdatedIff(rows, ws);
    AlternativeSharesStep(x, hash);
    NonEmptyDigits(x);
    TargetExact(cp.snapshot, r);
    TargetExact(cp.snapshot, alt);
    WantedHas(cp, hash, r);
    WantedHas(cp, hash, alt);
    assert !StepsAgree(ws);
  }

  lemma NonEmptyDigits(x: Id)
    requires DigitsIn(x) != []
    ensures x != "" && AltId(x) != ""
  {}

  lemma WantedHas(cp: WorkflowCheckpoint, hash: Id -> int, r: D.NodeRecord)
    requires r in cp.snapshot
    ensures Wanted(r.nodeId, StepNumber(r.nodeId, hash), TargetOf(cp.buckets, r.nodeId)) in WantedOf(cp, hash)
  {
    hide StepNumber, TargetOf;
    var specs := D.RecordSpecs(cp.snapshot);
    var i :| 0 <= i < |cp.snapshot| && cp.snapshot[i] == r;
    assert specs[i] in specs;
    assert r.nodeId in Order(specs);
    var k :| 0 <= k < |Order(specs)| && Order(specs)[k] == r.nodeId;
    assert WantedOf(cp, hash)[k] in WantedOf(cp, hash);
  }
}
