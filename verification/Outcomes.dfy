/** What a finished run is worth: which statuses are final, when the loop is sure
    to finish every node, and what the final report says
    (backend/app/orchestration/scheduler.py:318-350, 914-959). */
module Outcomes {
  import opened Prelude
  import opened Graph
  import opened GraphTheorems
  import opened Statuses
  import opened Schedule
  import opened Runs

  // ---------------------------------------------------------------- Finality

  /** What a step may do to other nodes: nothing, or skip one that waits. */
  predicate KeptOrSkipped(a: Status, b: Status) {
    b == a || (b.Skipped? && (a.Pending? || a.Todo? || a.Blocked?))
  }

  lemma StartLeaves(s: State, agents: set<Id>, id: Id, o: Outcome, x: Id)
    requires id in s.st && x in s.st && x != id
    ensures x in Start(s, agents, id, o).st && KeptOrSkipped(s.st[x], Start(s, agents, id, o).st[x])
  {
    hide AfterFailure;
    AfterFailureAt(s.specs, s.st, id, x);
  }

  lemma GateLeaves(s: State, agents: set<Id>, id: Id, o: Outcome, x: Id)
    requires id in s.st && x in s.st && x != id
    ensures x in Gate(s, agents, id, o).st && KeptOrSkipped(s.st[x], Gate(s, agents, id, o).st[x])
  {
    hide AfterFailure;
    AfterFailureAt(s.specs, s.st, id, x);
  }

  lemma FinishLeaves(s: State, agents: set<Id>, id: Id, o: Outcome, x: Id)
    requires s.st.Keys == Ids(s.specs) && id in s.st && x in s.st && x != id
    ensures x in Finish(s, agents, id, o).st && KeptOrSkipped(s.st[x], Finish(s, agents, id, o).st[x])
  {
    hide AfterFailure, Ids, AfterReflection;
    AfterFailureAt(s.specs, s.st, id, x);
    if o.Done? {
      var c := s.Set(id, Completed);
      ReflectionLeaves(c, id, o.reflection, x);
      var t := AfterReflection(c, id, o.reflection);
      AfterFailureAt(t.specs, t.st, id, x);
    }
  }

  lemma ReflectionLeaves(s: State, id: Id, r: Reflection, x: Id)
    requires s.st.Keys == Ids(s.specs) && id in s.st && x in s.st
    ensures id in AfterReflection(s, id, r).st && x in AfterReflection(s, id, r).st
    ensures x != id ==> AfterReflection(s, id, r).st[x] == s.st[x]
  {
    hide Ids;
  }

  lemma {:induction false} StartAllLeaves(s: State, agents: set<Id>, ids: seq<Id>, i: nat,
                                          oracle: Id -> Outcome, x: Id)
    requires InBatch(s, Elems(ids)) && NoDup(ids) && i <= |ids| && x in s.st && x !in ids
    requires forall k :: 0 <= k < |ids| ==> ids[k] in s.st && Startable(s.st[ids[k]])
    ensures x in StartAll(s, agents, ids[..i], oracle).st
    ensures KeptOrSkipped(s.st[x], StartAll(s, agents, ids[..i], oracle).st[x])
    decreases i
  {
    hide InBatch, Start, Gate, Finish;
    if i > 0 {
      StartAllLeaves(s, agents, ids, i - 1, oracle, x);
      assert ids[..i][..i - 1] == ids[..i - 1];
      StartAllKeeps(s, agents, ids, i - 1, oracle);
      var t := StartAll(s, agents, ids[..i - 1], oracle);
      BatchIn(t, Elems(ids));
      StartLeaves(t, agents, ids[i - 1], oracle(ids[i - 1]), x);
    }
  }

  lemma {:induction false} GateAllLeaves(s: State, agents: set<Id>, ids: seq<Id>, i: nat,
                                         oracle: Id -> Outcome, x: Id)
    requires InBatch(s, Elems(ids)) && NoDup(ids) && i <= |ids| && x in s.st && x !in ids
    requires !s.paused && Launched(s, agents, ids, oracle)
    ensures x in GateAll(s, agents, ids[..i], oracle).st
    ensures KeptOrSkipped(s.st[x], GateAll(s, agents, ids[..i], oracle).st[x])
    decreases i
  {
    hide InBatch, Start, Gate, Finish;
    if i > 0 {
      GateAllLeaves(s, agents, ids, i - 1, oracle, x);
      assert ids[..i][..i - 1] == ids[..i - 1];
      GateAllKeeps(s, agents, ids, i - 1, oracle);
      var t := GateAll(s, agents, ids[..i - 1], oracle);
      BatchIn(t, Elems(ids));
      GateLeaves(t, agents, ids[i - 1], oracle(ids[i - 1]), x);
    }
  }

  lemma {:induction false} FinishAllLeaves(s: State, agents: set<Id>, ids: seq<Id>, i: nat,
                                           oracle: Id -> Outcome, x: Id)
    requires InBatch(s, Elems(ids)) && NoDup(ids) && i <= |ids| && x in s.st && x !in ids
    requires Called(s, agents, ids, oracle)
    ensures x in FinishAll(s, agents, ids[..i], oracle).st
    ensures KeptOrSkipped(s.st[x], FinishAll(s, agents, ids[..i], oracle).st[x])
    decreases i
  {
    hide InBatch, Start, Gate, Finish;
    if i > 0 {
      FinishAllLeaves(s, agents, ids, i - 1, oracle, x);
      assert ids[..i][..i - 1] == ids[..i - 1];
      FinishAllKeeps(s, agents, ids, i - 1, oracle);
      var t := FinishAll(s, agents, ids[..i - 1], oracle);
      BatchIn(t, Elems(ids));
      FinishLeaves(t, agents, ids[i - 1], oracle(ids[i - 1]), x);
    }
  }

  /** An iteration leaves every node that was not ready alone, or skips it if it was
      waiting. */
  lemma IterateLeaves(s: State, agents: set<Id>, oracle: Id -> Outcome, x: Id)
    requires Boundary(s) && !s.paused && x in s.st && x !in ReadyIds(s.specs, s.st)
    ensures x in Iterate(s, agents, oracle).st && KeptOrSkipped(s.st[x], Iterate(s, agents, oracle).st[x])
  {
    hide Boundary, ReadyIds, StartAll, GateAll, FinishAll, IsReady, InBatch, GateOrder, Begun, Launched, Called, Starts;
    var ready := ReadyIds(s.specs, s.st);
    var gate := GateOrder(ready, oracle);
    ReadyStartable(s);
    StartPhaseDone(s, agents, oracle);
    GatePhaseDone(s, agents, oracle);
    StartAllLeaves(s, agents, ready, |ready|, oracle, x);
    GateAllLeaves(AfterStart(s, agents, oracle), agents, gate, |gate|, oracle, x);
    FinishAllLeaves(AfterGate(s, agents, oracle), agents, ready, |ready|, oracle, x);
  }

  /** Once a node is neither PENDING, TODO nor BLOCKED at an iteration boundary it
      stays as it is: a retry only ever takes back a completion of its own
      iteration, and a node left RUNNING is never finished. */
  lemma {:induction false} StatusIsFinal(s: State, agents: set<Id>, oracle: (nat, Id) -> Outcome, j: nat, k: nat, x: Id)
    requires Boundary(s) && j <= k
    requires x in RunFor(s, agents, oracle, j).st && !Waiting(RunFor(s, agents, oracle, j).st[x])
    ensures x in RunFor(s, agents, oracle, k).st
    ensures RunFor(s, agents, oracle, k).st[x] == RunFor(s, agents, oracle, j).st[x]
    decreases k
  {
    hide Boundary, Iterate, Stopped;
    if j < k {
      StatusIsFinal(s, agents, oracle, j, k - 1, x);
      RunKeepsBoundary(s, agents, oracle, k - 1);
      var t := RunFor(s, agents, oracle, k - 1);
      if !Stopped(t) {
        UnstoppedIsReady(t);
        ReadyStartable(t);
        IterateLeaves(t, agents, At(oracle, k - 1), x);
      }
    }
  }

  // ---------------------------------------------------------------- The approval gate

  /** A started node whose approval is pending leaves the loop. */
  predicate Holds(agents: set<Id>, id: Id, o: Outcome) {
    Starts(agents, id, o) && o.ApprovalPending?
  }

  /** The place in the gate's order where the loop is left, or its end. */
  function PauseAt(agents: set<Id>, gate: seq<Id>, oracle: Id -> Outcome): (p: nat)
    ensures p <= |gate|
    ensures forall k :: 0 <= k < p ==> !Holds(agents, gate[k], oracle(gate[k]))
    ensures p < |gate| ==> Holds(agents, gate[p], oracle(gate[p]))
  {
    if gate == [] || Holds(agents, gate[0], oracle(gate[0])) then 0 else 1 + PauseAt(agents, gate[1..], oracle)
  }

  /** The status of the k-th started node once the gate has looked at i nodes. */
  function GateStatus(agents: set<Id>, gate: seq<Id>, oracle: Id -> Outcome, i: nat, k: nat): Status
    requires k < |gate|
  {
    var p := PauseAt(agents, gate, oracle);
    if k >= i || k > p then Running
    else if k == p then Pending
    else if oracle(gate[k]).ApprovalDenied? then Failed
    else oracle(gate[k]).AtCall()
  }

  /** Exactly what Phase 1.5 leaves every batch node with, and when it pauses. */
  lemma {:induction false} GateAllAt(s: State, agents: set<Id>, gate: seq<Id>, i: nat, oracle: Id -> Outcome)
    requires InBatch(s, Elems(gate)) && NoDup(gate) && i <= |gate| && !s.paused && Launched(s, agents, gate, oracle)
    ensures GateAll(s, agents, gate[..i], oracle).paused <==> PauseAt(agents, gate, oracle) < i
    ensures forall k :: 0 <= k < |gate| ==>
      gate[k] in GateAll(s, agents, gate[..i], oracle).st
      && GateAll(s, agents, gate[..i], oracle).st[gate[k]]
         == if Starts(agents, gate[k], oracle(gate[k])) then GateStatus(agents, gate, oracle, i, k) else s.st[gate[k]]
    decreases i
  {
    hide InBatch, AfterFailure;
    if i > 0 {
      GateAllAt(s, agents, gate, i - 1, oracle);
      assert gate[..i][..i - 1] == gate[..i - 1];
      GateAllKeeps(s, agents, gate, i - 1, oracle);
      var t := GateAll(s, agents, gate[..i - 1], oracle);
      var id := gate[i - 1];
      GateKeeps(t, agents, Elems(gate), id, oracle(id));
      AfterFailureAt(t.specs, t.st, id, id);
    }
  }

  /** The same for an iteration. */
  lemma GateExact(s: State, agents: set<Id>, oracle: Id -> Outcome)
    requires Boundary(s) && !s.paused
    ensures var gate, t := GateOrder(ReadyIds(s.specs, s.st), oracle), AfterGate(s, agents, oracle);
            && (t.paused <==> PauseAt(agents, gate, oracle) < |gate|)
            && forall k :: 0 <= k < |gate| ==>
                 gate[k] in t.st
                 && t.st[gate[k]] == if Starts(agents, gate[k], oracle(gate[k]))
                                     then GateStatus(agents, gate, oracle, |gate|, k) else Failed
  {
    hide Boundary, ReadyIds, StartAll, GateAll, InBatch, GateOrder, GateStatus, Starts, PauseAt;
    StartPhaseDone(s, agents, oracle);
    var ready := ReadyIds(s.specs, s.st);
    var gate, s1 := GateOrder(ready, oracle), AfterStart(s, agents, oracle);
    GateAllAt(s1, agents, gate, |gate|, oracle);
    forall k | 0 <= k < |gate| && !Starts(agents, gate[k], oracle(gate[k]))
      ensures s1.st[gate[k]] == Failed
    {
      assert gate[k] in gate;
      var j :| 0 <= j < |ready| && ready[j] == gate[k];
    }
  }

  lemma IteratePaused(s: State, agents: set<Id>, oracle: Id -> Outcome)
    requires Boundary(s) && !s.paused
    ensures Iterate(s, agents, oracle).paused == AfterGate(s, agents, oracle).paused
    ensures AfterGate(s, agents, oracle).paused ==> Iterate(s, agents, oracle) == AfterGate(s, agents, oracle)
  {
    hide Boundary, ReadyIds, AfterGate, FinishAll, InBatch, GateOrder, Called, Begun, Launched;
    StartPhaseDone(s, agents, oracle);
    GatePhaseDone(s, agents, oracle);
    var ready, t := ReadyIds(s.specs, s.st), AfterGate(s, agents, oracle);
    FinishAllKeeps(t, agents, ready, |ready|, oracle);
    if t.paused {
      FinishAllPaused(t, agents, ready, oracle);
    }
  }

  lemma {:induction false} FinishAllPaused(s: State, agents: set<Id>, ids: seq<Id>, oracle: Id -> Outcome)
    requires s.paused
    ensures FinishAll(s, agents, ids, oracle) == s
  {
    hide AfterFailure, AfterReflection;
    if ids != [] {
      FinishAllPaused(s, agents, ids[..|ids| - 1], oracle);
    }
  }

  /** A ready node's place in the gate's order. */
  lemma GatePlace(s: State, oracle: Id -> Outcome, x: Id) returns (k: nat)
    requires x in ReadyIds(s.specs, s.st)
    ensures k < |GateOrder(ReadyIds(s.specs, s.st), oracle)| && GateOrder(ReadyIds(s.specs, s.st), oracle)[k] == x
  {
    hide ReadyIds, GateOrder;
    var ready := ReadyIds(s.specs, s.st);
    GateOrderPermutes(ready, oracle);
    k :| 0 <= k < |GateOrder(ready, oracle)| && GateOrder(ready, oracle)[k] == x;
  }

  // ---------------------------------------------------------------- Runs that are not paused

  /** No node is running, except those still to be finished in this batch. */
  ghost predicate Settled(s: State, open: set<Id>) {
    forall x :: x in s.st ==> !Stuck(s.st[x]) || (x in open && s.st[x].Running?)
  }

  lemma FailSettles(s: State, open: set<Id>, id: Id)
    requires Settled(s, open) && id in s.st
    ensures Settled(s.Fail(id), open - {id})
  {
    hide AfterFailure;
    forall x | x in s.st
      ensures !Stuck(s.Fail(id).st[x]) || (x in open - {id} && s.Fail(id).st[x].Running?)
    {
      AfterFailureAt(s.specs, s.st, id, x);
    }
  }

  lemma StartSettles(s: State, agents: set<Id>, open: set<Id>, id: Id, o: Outcome)
    requires Settled(s, open) && id in s.st
    ensures Settled(Start(s, agents, id, o), open + {id})
  {
    hide AfterFailure;
    if !Starts(agents, id, o) {
      FailSettles(s, open, id);
    }
  }

  lemma FinishSettles(s: State, agents: set<Id>, open: set<Id>, id: Id, o: Outcome)
    requires Settled(s, open) && id in s.st && !s.paused
    requires s.st[id].Running? ==> Finishes(agents, id, o)
    ensures Settled(Finish(s, agents, id, o), open - {id})
  {
    hide AfterFailure;
    if Finishes(agents, id, o) {
      if o.Done? {
        var t := AfterReflection(s.Set(id, Completed), id, o.reflection);
        assert Settled(t, open - {id});
        if o.lateError {
          FailSettles(t, open - {id}, id);
        }
      } else {
        FailSettles(s, open, id);
      }
    }
  }

  lemma {:induction false} StartAllSettles(s: State, agents: set<Id>, ids: seq<Id>, oracle: Id -> Outcome)
    requires Settled(s, {}) && forall x :: x in ids ==> x in s.st
    ensures Settled(StartAll(s, agents, ids, oracle), Elems(ids))
    ensures StartAll(s, agents, ids, oracle).st.Keys == s.st.Keys
  {
    hide Start, Settled;
    if ids != [] {
      var front, last := ids[..|ids| - 1], ids[|ids| - 1];
      assert ids == front + [last];
      StartAllSettles(s, agents, front, oracle);
      StartSettles(StartAll(s, agents, front, oracle), agents, Elems(front), last, oracle(last));
      StartKeys(StartAll(s, agents, front, oracle), agents, last, oracle(last));
      assert Elems(ids) == Elems(front) + {last};
    } else {
      assert Elems(ids) == {};
    }
  }

  /** Outcomes that neither deny nor suspend a node. */
  predicate Plain(o: Outcome) { !o.PolicyDenied? && !o.ApprovalPending? }

  lemma {:induction false} GateAllSettles(s: State, agents: set<Id>, ids: seq<Id>, oracle: Id -> Outcome, open: set<Id>)
    requires Settled(s, open) && forall x :: x in ids ==> x in s.st
    ensures Settled(GateAll(s, agents, ids, oracle), open)
    ensures GateAll(s, agents, ids, oracle).st.Keys == s.st.Keys
  {
    hide AfterFailure, Settled;
    if ids != [] {
      var front, last := ids[..|ids| - 1], ids[|ids| - 1];
      assert ids == front + [last];
      GateAllSettles(s, agents, front, oracle, open);
      var t := GateAll(s, agents, front, oracle);
      FailSettles(t, open, last);
      SettledWider(t.Fail(last), open - {last}, open);
      ResetSettles(t, open, last);
    }
  }

  lemma ResetSettles(s: State, open: set<Id>, id: Id)
    requires Settled(s, open) && id in s.st
    ensures Settled(s.Set(id, Pending), open) && Settled(s.Set(id, Pending).(paused := true), open)
  {}

  lemma SettledWider(s: State, open: set<Id>, more: set<Id>)
    requires Settled(s, open) && open <= more
    ensures Settled(s, more)
  {}

  lemma {:induction false} FinishAllSettles(s: State, agents: set<Id>, ids: seq<Id>, i: nat, oracle: Id -> Outcome)
    requires InBatch(s, Elems(ids)) && NoDup(ids) && i <= |ids| && !s.paused && Settled(s, Elems(ids))
    requires Called(s, agents, ids, oracle)
    requires forall k :: 0 <= k < |ids| && s.st[ids[k]].Running? ==> Finishes(agents, ids[k], oracle(ids[k]))
    ensures Settled(FinishAll(s, agents, ids[..i], oracle), Elems(ids[i..]))
    decreases i
  {
    hide InBatch, Finish, Settled;
    if i > 0 {
      FinishAllSettles(s, agents, ids, i - 1, oracle);
      assert ids[..i][..i - 1] == ids[..i - 1];
      FinishAllKeeps(s, agents, ids, i - 1, oracle);
      var t := FinishAll(s, agents, ids[..i - 1], oracle);
      var id := ids[i - 1];
      FinishSettles(t, agents, Elems(ids[i - 1..]), id, oracle(id));
      assert Elems(ids[i - 1..]) - {id} == Elems(ids[i..]) by { ElemsTail(ids, i - 1); }
    } else {
      assert ids[0..] == ids;
    }
  }

  lemma ElemsTail(ids: seq<Id>, i: nat)
    requires NoDup(ids) && i < |ids|
    ensures Elems(ids[i..]) - {ids[i]} == Elems(ids[i + 1..])
  {
    assert ids[i..] == [ids[i]] + ids[i + 1..];
  }

  /** Phase 3 does not touch a batch node that is not finished in it. */
  lemma {:induction false} FinishAllSkips(s: State, agents: set<Id>, ids: seq<Id>, i: nat, oracle: Id -> Outcome)
    requires InBatch(s, Elems(ids)) && NoDup(ids) && i <= |ids|
    requires Called(s, agents, ids, oracle)
    ensures var t := FinishAll(s, agents, ids[..i], oracle);
            forall k :: 0 <= k < i && !Finishes(agents, ids[k], oracle(ids[k])) ==>
              ids[k] in t.st && t.st[ids[k]] == s.st[ids[k]]
    decreases i
  {
    hide InBatch, AfterReflection, AfterFailure;
    if i > 0 {
      FinishAllSkips(s, agents, ids, i - 1, oracle);
      assert ids[..i][..i - 1] == ids[..i - 1];
      FinishAllKeeps(s, agents, ids, i - 1, oracle);
      var t := FinishAll(s, agents, ids[..i - 1], oracle);
      var id := ids[i - 1];
      FinishKeeps(t, agents, Elems(ids), id, oracle(id));
    }
  }

  /** Before Phase 3, only batch nodes can be RUNNING out of turn. */
  lemma GateSettles(s: State, agents: set<Id>, oracle: Id -> Outcome)
    requires Boundary(s) && !s.paused && Settled(s, {})
    ensures Settled(AfterGate(s, agents, oracle), Elems(ReadyIds(s.specs, s.st)))
  {
    hide Boundary, ReadyIds, StartAll, GateAll, InBatch, GateOrder, Begun, Launched, Settled, IsReady;
    var ready := ReadyIds(s.specs, s.st);
    ReadyStartable(s);
    StartPhaseDone(s, agents, oracle);
    assert forall x :: x in ready ==> x in s.st;
    StartAllSettles(s, agents, ready, oracle);
    GateAllSettles(AfterStart(s, agents, oracle), agents, GateOrder(ready, oracle), oracle, Elems(ready));
  }

  /** A started node that met a policy denial. */
  predicate Denies(agents: set<Id>, id: Id, o: Outcome) {
    id in agents && o.PolicyDenied?
  }

  lemma RunningFinishes(s: State, agents: set<Id>, oracle: Id -> Outcome, x: Id)
    requires Boundary(s) && !s.paused && !AfterGate(s, agents, oracle).paused && x in ReadyIds(s.specs, s.st)
    ensures x in AfterGate(s, agents, oracle).st
    ensures AfterGate(s, agents, oracle).st[x].Running? && !Denies(agents, x, oracle(x)) ==>
      Finishes(agents, x, oracle(x))
    ensures Denies(agents, x, oracle(x)) ==> AfterGate(s, agents, oracle).st[x].Running?
  {
    hide Boundary, ReadyIds, AfterGate, GateOrder;
    GateExact(s, agents, oracle);
    var k := GatePlace(s, oracle, x);
  }

  lemma IterateSettles(s: State, agents: set<Id>, oracle: Id -> Outcome)
    requires Boundary(s) && !s.paused && Settled(s, {}) && !Iterate(s, agents, oracle).paused
    requires forall x :: x in ReadyIds(s.specs, s.st) ==> !Denies(agents, x, oracle(x))
    ensures Settled(Iterate(s, agents, oracle), {})
  {
    hide Boundary, ReadyIds, AfterStart, AfterGate, FinishAll, InBatch, Settled, GateOrder, Begun, Launched, Denies,
      Finishes;
    var ready, t := ReadyIds(s.specs, s.st), AfterGate(s, agents, oracle);
    StartPhaseDone(s, agents, oracle);
    GatePhaseDone(s, agents, oracle);
    IteratePaused(s, agents, oracle);
    GateSettles(s, agents, oracle);
    forall k | 0 <= k < |ready| && t.st[ready[k]].Running?
      ensures Finishes(agents, ready[k], oracle(ready[k]))
    {
      RunningFinishes(s, agents, oracle, ready[k]);
    }
    assert ready[|ready|..] == [] && Elems<Id>([]) == {};
    FinishAllSettles(t, agents, ready, |ready|, oracle);
  }

  /** A policy denial leaves its node RUNNING. */
  lemma DeniedIsRunning(s: State, agents: set<Id>, oracle: Id -> Outcome, x: Id)
    requires Boundary(s) && !s.paused && !Iterate(s, agents, oracle).paused
    requires x in ReadyIds(s.specs, s.st) && Denies(agents, x, oracle(x))
    ensures x in Iterate(s, agents, oracle).st && Iterate(s, agents, oracle).st[x].Running?
  {
    hide Boundary, ReadyIds, AfterStart, AfterGate, FinishAll, InBatch, GateOrder, Begun, Launched;
    var ready, t := ReadyIds(s.specs, s.st), AfterGate(s, agents, oracle);
    StartPhaseDone(s, agents, oracle);
    GatePhaseDone(s, agents, oracle);
    IteratePaused(s, agents, oracle);
    RunningFinishes(s, agents, oracle, x);
    FinishAllSkips(t, agents, ready, |ready|, oracle);
    var k :| 0 <= k < |ready| && ready[k] == x;
  }

  /** In iteration j node x is ready, has an agent and is denied by policy. */
  ghost predicate DeniedAt(s: State, agents: set<Id>, oracle: (nat, Id) -> Outcome, j: nat, x: Id) {
    var t := RunFor(s, agents, oracle, j);
    !Stopped(t) && x in ReadyIds(t.specs, t.st) && Denies(agents, x, oracle(j, x))
  }

  lemma NotPausedBefore(s: State, agents: set<Id>, oracle: (nat, Id) -> Outcome, k: nat)
    requires k > 0 && !RunFor(s, agents, oracle, k).paused
    ensures !RunFor(s, agents, oracle, k - 1).paused
  {
    hide Iterate;
  }

  lemma {:induction false} NeverPausedBefore(s: State, agents: set<Id>, oracle: (nat, Id) -> Outcome, j: nat, k: nat)
    requires j <= k && !RunFor(s, agents, oracle, k).paused
    ensures !RunFor(s, agents, oracle, j).paused
    decreases k
  {
    hide RunFor;
    if j < k {
      NotPausedBefore(s, agents, oracle, k);
      NeverPausedBefore(s, agents, oracle, j, k - 1);
    }
  }

  lemma {:induction false} RunSettles(s: State, agents: set<Id>, oracle: (nat, Id) -> Outcome, k: nat)
    requires Boundary(s) && Settled(s, {}) && !RunFor(s, agents, oracle, k).paused
    requires forall j: nat, x :: j < k ==> !DeniedAt(s, agents, oracle, j, x)
    ensures Settled(RunFor(s, agents, oracle, k), {})
  {
    hide Boundary, Iterate, Stopped, Settled, ReadyIds, Denies;
    if k > 0 {
      NotPausedBefore(s, agents, oracle, k);
      RunSettles(s, agents, oracle, k - 1);
      RunKeepsBoundary(s, agents, oracle, k - 1);
      var t := RunFor(s, agents, oracle, k - 1);
      if !Stopped(t) {
        forall x | x in ReadyIds(t.specs, t.st)
          ensures !Denies(agents, x, oracle(k - 1, x))
        {
          assert !DeniedAt(s, agents, oracle, k - 1, x);
        }
        IterateSettles(t, agents, At(oracle, k - 1));
      }
    }
  }

  ghost predicate NoStuck(s: State) {
    Settled(s, {})
  }

  /** A run that is not paused and starts with no stuck node ends, within 3n + 9
      iterations, with every node COMPLETED, FAILED or SKIPPED if, and only if,
      policy denied none of the nodes it started. */
  lemma RunCompletesIff(s: State, agents: set<Id>, oracle: (nat, Id) -> Outcome)
    requires Boundary(s) && NoStuck(s) && !RunFor(s, agents, oracle, 3 * |Ids(s.specs)| + 9).paused
    ensures var n := 3 * |Ids(s.specs)| + 9;
            AllTerminal(RunFor(s, agents, oracle, n).st) <==> forall j: nat, x :: j < n ==>
              !DeniedAt(s, agents, oracle, j, x)
  {
    hide RunFor, ReadyIds, StartedHasDeps, SkippedExact, Acyclic, DeniedAt, Ids;
    var n := 3 * |Ids(s.specs)| + 9;
    var t := RunFor(s, agents, oracle, n);
    RunEnds(s, agents, oracle);
    RunKeepsBoundary(s, agents, oracle, n);
    if forall j: nat, x :: j < n ==> !DeniedAt(s, agents, oracle, j, x) {
      RunSettles(s, agents, oracle, n);
      EndIsFinished(t);
    }
    forall j: nat, x | j < n && DeniedAt(s, agents, oracle, j, x)
      ensures !AllTerminal(t.st)
    {
      DenialBlocks(s, agents, oracle, j, n, x);
    }
  }

  lemma EndIsFinished(t: State)
    requires Boundary(t) && Stopped(t) && !t.paused && Settled(t, {})
    ensures AllTerminal(t.st)
  {
    hide ReadyIds, Acyclic, StartedHasDeps, SkippedExact, Closed, Unique, Ancestor;
    if ReadyIds(t.specs, t.st) == [] && !AllTerminal(t.st) {
      NothingReady(t);
    }
  }

  /** From a denial on its node stays RUNNING. */
  lemma DenialBlocks(s: State, agents: set<Id>, oracle: (nat, Id) -> Outcome, j: nat, k: nat, x: Id)
    requires Boundary(s) && j < k && !RunFor(s, agents, oracle, k).paused && DeniedAt(s, agents, oracle, j, x)
    ensures x in RunFor(s, agents, oracle, k).st && RunFor(s, agents, oracle, k).st[x].Running?
  {
    hide Boundary, Iterate, ReadyIds, RunFor, Stopped, Denies;
    var t := RunFor(s, agents, oracle, j);
    RunKeepsBoundary(s, agents, oracle, j);
    NeverPausedBefore(s, agents, oracle, j + 1, k);
    UnstoppedIsReady(t);
    RunMore(s, agents, oracle, j);
    DeniedIsRunning(t, agents, At(oracle, j), x);
    StatusIsFinal(s, agents, oracle, j + 1, k, x);
  }

  lemma {:induction false} PlainNeverPauses(s: State, agents: set<Id>, oracle: (nat, Id) -> Outcome, k: nat)
    requires Boundary(s) && !s.paused && forall j, x :: Plain(oracle(j, x))
    ensures !RunFor(s, agents, oracle, k).paused
  {
    hide Boundary, Iterate, Stopped, AfterGate, ReadyIds, GateOrder;
    if k > 0 {
      PlainNeverPauses(s, agents, oracle, k - 1);
      RunKeepsBoundary(s, agents, oracle, k - 1);
      var t := RunFor(s, agents, oracle, k - 1);
      if !Stopped(t) {
        IteratePaused(t, agents, At(oracle, k - 1));
        GateExact(t, agents, At(oracle, k - 1));
        NothingHolds(agents, GateOrder(ReadyIds(t.specs, t.st), At(oracle, k - 1)), At(oracle, k - 1));
      }
    }
  }

  lemma NothingHolds(agents: set<Id>, gate: seq<Id>, oracle: Id -> Outcome)
    requires forall x :: Plain(oracle(x))
    ensures PauseAt(agents, gate, oracle) == |gate|
  {}

  /** In particular a run in which no node is denied by policy or held for approval
      finishes. */
  lemma PlainRunCompletes(s: State, agents: set<Id>, oracle: (nat, Id) -> Outcome)
    requires Boundary(s) && !s.paused && NoStuck(s) && forall j, x :: Plain(oracle(j, x))
    ensures AllTerminal(RunFor(s, agents, oracle, 3 * |Ids(s.specs)| + 9).st)
  {
    hide Boundary, RunFor, Stopped, ReadyIds, NoStuck, AllTerminal;
    PlainNeverPauses(s, agents, oracle, 3 * |Ids(s.specs)| + 9);
    RunCompletesIff(s, agents, oracle);
  }

  /** The next iteration fails a ready node with no entry in the agent table. */
  lemma AlternativeWithoutAgentFails(s: State, agents: set<Id>, oracle: Id -> Outcome, alt: Id)
    requires Boundary(s) && !s.paused && alt in ReadyIds(s.specs, s.st) && alt !in agents
    ensures var t := Iterate(s, agents, oracle); alt in t.st && t.st[alt].Failed?
  {
    hide Boundary, ReadyIds, AfterStart, AfterGate, FinishAll, InBatch, GateOrder, Begun, Launched;
    var ready, t := ReadyIds(s.specs, s.st), AfterGate(s, agents, oracle);
    StartPhaseDone(s, agents, oracle);
    GatePhaseDone(s, agents, oracle);
    GateExact(s, agents, oracle);
    var place := GatePlace(s, oracle, alt);
    FinishAllSkips(t, agents, ready, |ready|, oracle);
    var k :| 0 <= k < |ready| && ready[k] == alt;
  }

  /** Replanning a completed node makes its alternative ready at once. */
  lemma AlternativeIsReady(s: State, batch: set<Id>, id: Id)
    requires InBatch(s, batch) && id in batch && AfterReplan(s, id) != s
    ensures AltId(id) in ReadyIds(AfterReplan(s, id).specs, AfterReplan(s, id).st)
  {
    hide Acyclic, Order, ReadyIn, Ids, DepsOf, StartedHasDeps, SkippedExact;
    var t := AfterReplan(s, id);
    var spec := Spec(AltId(id), DepsOf(s.specs, id));
    ClosedDeps(s.specs, id);
    AddedNodeKeepsAcyclic(s.specs, spec);
    assert t.specs == s.specs + [spec] && DepsMet(s.specs, s.st, id);
    assert IsReady(t.specs, t.st, AltId(id));
  }

  // ---------------------------------------------------------------- The final report

  datatype Report = Report(failed: bool, partial: bool, failedTasks: nat, skippedTasks: nat)

  /** The status written at the end: FAILED only if something failed and nothing
      completed; otherwise COMPLETED, flagged partial if something failed. */
  function FinalReport(completed: nat, failed: nat, skipped: nat): Report {
    if failed > 0 && completed == 0 then Report(true, false, 0, skipped)
    else if failed > 0 then Report(false, true, failed, skipped)
    else Report(false, false, 0, skipped)
  }

  function ReportOf(specs: seq<Spec>, st: StatusMap): Report {
    var order := Order(specs);
    FinalReport(CountIn(order, st, Completed), CountIn(order, st, Failed), CountIn(order, st, Skipped))
  }

  lemma {:induction false} CountZero(order: seq<Id>, st: StatusMap, x: Status)
    ensures CountIn(order, st, x) == 0 <==> forall id :: id in order && id in st ==> st[id] != x
  {
    if order != [] {
      assert order == order[..|order| - 1] + [order[|order| - 1]];
      CountZero(order[..|order| - 1], st, x);
    }
  }

  lemma {:induction false} CountTotal(order: seq<Id>, st: StatusMap)
    requires forall id :: id in order ==> id in st && Terminal(st[id])
    ensures CountIn(order, st, Completed) + CountIn(order, st, Failed) + CountIn(order, st, Skipped) == |order|
  {
    if order != [] {
      assert order == order[..|order| - 1] + [order[|order| - 1]];
      CountTotal(order[..|order| - 1], st);
    }
  }

  ghost function NodesWith(st: StatusMap, x: Status): set<Id> {
    set id | id in st && st[id] == x
  }

  lemma OneMore(all: set<Id>, seen: set<Id>, last: Id)
    requires last !in seen
    ensures |all * (seen + {last})| == |all * seen| + if last in all then 1 else 0
  {
    if last in all {
      assert all * (seen + {last}) == all * seen + {last};
    } else {
      assert all * (seen + {last}) == all * seen;
    }
  }

  lemma InNodesWith(st: StatusMap, x: Status, id: Id)
    ensures id in NodesWith(st, x) <==> id in st && st[id] == x
  {}

  lemma NoDupFront(order: seq<Id>)
    requires NoDup(order) && order != []
    ensures var front, last := order[..|order| - 1], order[|order| - 1];
            NoDup(front) && last !in Elems(front) && Elems(order) == Elems(front) + {last}
  {
    assert order == order[..|order| - 1] + [order[|order| - 1]];
  }

  lemma {:induction false} CountIsNumber(order: seq<Id>, st: StatusMap, x: Status)
    requires NoDup(order)
    ensures CountIn(order, st, x) == |NodesWith(st, x) * Elems(order)|
  {
    hide NodesWith, NoDup, Elems;
    if order == [] {
      NothingListed(NodesWith(st, x));
    } else {
      var last := order[|order| - 1];
      NoDupFront(order);
      CountIsNumber(order[..|order| - 1], st, x);
      InNodesWith(st, x, last);
      OneMore(NodesWith(st, x), Elems(order[..|order| - 1]), last);
    }
  }

  lemma NothingListed(all: set<Id>)
    ensures |all * Elems([])| == 0
  {
    assert all * Elems([]) == {};
  }

  /** Each field of the report in terms of the nodes. */
  lemma ReportFields(s: State)
    requires s.st.Keys == Ids(s.specs)
    ensures var r, failed, completed := ReportOf(s.specs, s.st), NodesWith(s.st, Failed), NodesWith(s.st, Completed);
            && (r.failed <==> failed != {} && completed == {})
            && (r.partial <==> failed != {} && completed != {})
            && r.failedTasks == (if failed != {} && completed != {} then |failed| else 0)
            && r.skippedTasks == |NodesWith(s.st, Skipped)|
  {
    hide Order, CountIn, Ids;
    var order := Order(s.specs);
    assert Elems(order) == Ids(s.specs);
    forall x: Status
      ensures CountIn(order, s.st, x) == |NodesWith(s.st, x)|
    {
      CountIsNumber(order, s.st, x);
      assert NodesWith(s.st, x) * Elems(order) == NodesWith(s.st, x);
    }
  }

  /** A workflow reported COMPLETED and not partial has every node COMPLETED if,
      and only if, the loop did not break early. */
  lemma ReportHonest(s: State)
    requires Boundary(s)
    ensures var r := ReportOf(s.specs, s.st);
            (r.failed <==> (exists x :: x in s.st && s.st[x].Failed?) && forall x :: x in s.st ==> !s.st[x].Completed?)
            && (!r.failed && !r.partial ==>
                  (AllTerminal(s.st) <==> forall x :: x in s.st ==> s.st[x].Completed?))
            && (AllTerminal(s.st) ==>
                  CountIn(Order(s.specs), s.st, Completed) + CountIn(Order(s.specs), s.st, Failed)
                  + CountIn(Order(s.specs), s.st, Skipped) == |Ids(s.specs)|)
  {
    hide Acyclic, StartedHasDeps, SkippedExact, Order, CountIn, Ids, Ancestor, Closed, Unique;
    var order := Order(s.specs);
    CountZero(order, s.st, Completed);
    CountZero(order, s.st, Failed);
    NoDupLength(order);
    assert Elems(order) == Ids(s.specs);
    if AllTerminal(s.st) {
      CountTotal(order, s.st);
    }
    forall x | x in s.st && s.st[x].Skipped?
      ensures exists a :: a in s.st && s.st[a].Failed?
    {
      BoundaryStatuses(s, x);
    }
  }

  const DENY_ALL: Id -> Outcome := _ => PolicyDenied

  /** Only running and pending nodes. */
  ghost predicate Untouched(s: State) {
    forall x :: x in s.st ==> s.st[x].Running? || s.st[x].Pending?
  }

  lemma {:induction false} DeniedStart(s: State, agents: set<Id>, ids: seq<Id>)
    requires Untouched(s) && !s.paused && forall x :: x in ids ==> x in agents && x in s.st
    ensures var t := StartAll(s, agents, ids, DENY_ALL);
            Untouched(t) && !t.paused && t.specs == s.specs && t.st.Keys == s.st.Keys
            && (forall x :: x in ids ==> t.st[x].Running?)
            && (forall x :: x in s.st && x !in ids ==> t.st[x] == s.st[x])
  {
    hide AfterFailure;
    if ids != [] {
      assert ids == ids[..|ids| - 1] + [ids[|ids| - 1]];
      DeniedStart(s, agents, ids[..|ids| - 1]);
      assert DENY_ALL(ids[|ids| - 1]) == PolicyDenied;
    }
  }

  lemma {:induction false} DeniedRest(s: State, agents: set<Id>, ids: seq<Id>)
    ensures GateAll(s, agents, ids, DENY_ALL) == s
    ensures FinishAll(s, agents, ids, DENY_ALL) == s
  {
    hide AfterFailure, AfterReflection;
    if ids != [] {
      DeniedRest(s, agents, ids[..|ids| - 1]);
      assert DENY_ALL(ids[|ids| - 1]) == PolicyDenied;
    }
  }

  /** A workflow all of whose ready tasks policy denies is left with nothing ready,
      nothing completed, and the report COMPLETED, not partial. */
  lemma PolicyDenialReportsCompleted(s: State, agents: set<Id>)
    requires Boundary(s) && !s.paused && s.st.Keys <= agents && forall x :: x in s.st ==> s.st[x].Pending?
    ensures var t := Iterate(s, agents, DENY_ALL);
            ReadyIds(t.specs, t.st) == [] && (forall x :: x in t.st ==> !t.st[x].Completed?)
            && ReportOf(t.specs, t.st) == Report(false, false, 0, 0)
  {
    hide Boundary, StartAll, GateAll, FinishAll, Order, ReadyIn, CountIn, DepsOf, Ids;
    var ready := ReadyIds(s.specs, s.st);
    BatchStart(s);
    BatchIn(s, Elems(ready));
    DeniedStart(s, agents, ready);
    var t := StartAll(s, agents, ready, DENY_ALL);
    DeniedRest(t, agents, ready);
    DeniedRest(t, agents, GateOrder(ready, DENY_ALL));
    assert Iterate(s, agents, DENY_ALL) == t;
    CountZero(Order(t.specs), t.st, Completed);
    CountZero(Order(t.specs), t.st, Failed);
    CountZero(Order(t.specs), t.st, Skipped);
    forall x | x in Ids(t.specs)
      ensures !IsReady(t.specs, t.st, x)
    {
      assert IsReady(s.specs, s.st, x) ==> x in ready;
    }
    NothingIn(ReadyIds(t.specs, t.st));
  }

  lemma HasFirst(ids: seq<Id>)
    requires ids != []
    ensures exists x :: x in ids
  {
    assert ids[0] in ids;
  }

  lemma NothingIn(ids: seq<Id>)
    requires forall x :: x !in ids
    ensures ids == []
  {
    if ids != [] {
      HasFirst(ids);
      assert false;
    }
  }
}
