/** What an approval pause saves, and when the saved workflow can still be finished
    (backend/app/orchestration/scheduler.py:426-640). */
module Pauses {
  import opened Graph
  import opened Statuses
  import opened Schedule
  import opened Runs
  import opened Outcomes

  /** The statuses of a batch in the state a pause saves: what had no agent or no
      budget FAILED, the node the loop stopped at is PENDING, what a human denied or
      the gate auto-approved before it is FAILED or PENDING, and everything else, a
      node with a recorded approval or a policy denial included, is RUNNING. */
  lemma PausedStatuses(s: State, agents: set<Id>, oracle: Id -> Outcome, k: nat)
    requires Boundary(s) && !s.paused && Iterate(s, agents, oracle).paused
    requires k < |GateOrder(ReadyIds(s.specs, s.st), oracle)|
    ensures var t, gate := Iterate(s, agents, oracle), GateOrder(ReadyIds(s.specs, s.st), oracle);
            var x, p := gate[k], PauseAt(agents, gate, oracle);
            && p < |gate| && x in t.st
            && t.st[x] == if !Starts(agents, x, oracle(x)) then Failed
                          else if k == p || (k < p && oracle(x).Cleared()) then Pending
                          else if k < p && oracle(x).ApprovalDenied? then Failed
                          else Running
  {
    hide Boundary, ReadyIds, Iterate, AfterGate, GateOrder;
    IteratePaused(s, agents, oracle);
    GateExact(s, agents, oracle);
  }

  /** The pause does not leave the k-th node of the gate's order RUNNING. */
  predicate Released(agents: set<Id>, gate: seq<Id>, oracle: Id -> Outcome, k: nat)
    requires k < |gate|
  {
    var p, o := PauseAt(agents, gate, oracle), oracle(gate[k]);
    !Starts(agents, gate[k], o) || k == p || (k < p && (o.ApprovalDenied? || o.Cleared()))
  }

  ghost predicate AllReleased(s: State, agents: set<Id>, oracle: Id -> Outcome) {
    var gate := GateOrder(ReadyIds(s.specs, s.st), oracle);
    forall k :: 0 <= k < |gate| ==> Released(agents, gate, oracle, k)
  }

  /** A workflow resumed from the saved state, on any node. */
  function Resumed(t: State, retries: map<Id, nat>): State {
    State(t.specs, t.st, retries, 0, false)
  }

  /** No node meets a policy denial or a pending approval. */
  ghost predicate PlainCourse(oracle: (nat, Id) -> Outcome) {
    forall j, x :: Plain(oracle(j, x))
  }

  /** The workflow ends, within the bound of a run from s, with every node terminal. */
  ghost predicate EndsFinished(s: State, agents: set<Id>, oracle: (nat, Id) -> Outcome) {
    AllTerminal(RunFor(s, agents, oracle, 3 * |Ids(s.specs)| + 9).st)
  }

  lemma ResumedIsBoundary(t: State, retries: map<Id, nat>)
    requires Boundary(t)
    ensures Boundary(Resumed(t, retries))
  {}

  /** The saved state has no stuck node if, and only if, every other node that
      started was denied by a human, or auto-approved at the gate, before the pause. */
  lemma SavedStuckIff(s: State, agents: set<Id>, oracle: Id -> Outcome)
    requires Boundary(s) && !s.paused && NoStuck(s) && Iterate(s, agents, oracle).paused
    ensures NoStuck(Iterate(s, agents, oracle)) <==> AllReleased(s, agents, oracle)
  {
    hide Boundary, ReadyIds, Iterate, AfterGate, GateOrder, PauseAt, Starts;
    var t, gate := Iterate(s, agents, oracle), GateOrder(ReadyIds(s.specs, s.st), oracle);
    forall k | 0 <= k < |gate|
      ensures gate[k] in t.st && (t.st[gate[k]].Running? <==> !Released(agents, gate, oracle, k))
    {
      PausedStatuses(s, agents, oracle, k);
    }
    IteratePaused(s, agents, oracle);
    GateSettles(s, agents, oracle);
    forall x | x in t.st && Stuck(t.st[x])
      ensures exists k :: 0 <= k < |gate| && gate[k] == x && t.st[x].Running?
    {
      var k := GatePlace(s, oracle, x);
    }
  }

  /** A started node that is not released is saved as RUNNING, and no run that
      starts from the saved state ever finishes it. */
  lemma PauseStrands(s: State, agents: set<Id>, oracle: Id -> Outcome, i: nat,
                     agents2: set<Id>, oracle2: (nat, Id) -> Outcome, retries: map<Id, nat>, k: nat)
    requires Boundary(s) && !s.paused && Iterate(s, agents, oracle).paused
    requires i < |GateOrder(ReadyIds(s.specs, s.st), oracle)|
    requires !Released(agents, GateOrder(ReadyIds(s.specs, s.st), oracle), oracle, i)
    ensures var b := GateOrder(ReadyIds(s.specs, s.st), oracle)[i];
            var t := RunFor(Resumed(Iterate(s, agents, oracle), retries), agents2, oracle2, k);
            b in t.st && t.st[b].Running? && !AllTerminal(t.st)
  {
    hide Boundary, RunFor, Iterate, ReadyIds, GateOrder, PauseAt, Starts;
    var t := Iterate(s, agents, oracle);
    IterateKeeps(s, agents, oracle);
    PausedStatuses(s, agents, oracle, i);
    ResumedIsBoundary(t, retries);
    RunStart(Resumed(t, retries), agents2, oracle2);
    StatusIsFinal(Resumed(t, retries), agents2, oracle2, 0, k, GateOrder(ReadyIds(s.specs, s.st), oracle)[i]);
  }

  lemma RunStart(s: State, agents: set<Id>, oracle: (nat, Id) -> Outcome)
    ensures RunFor(s, agents, oracle, 0) == s
  {}

  /** If nothing was stuck before, then either every other node that started was
      denied by a human or auto-approved before the pause, and every resumed run
      without policy denials and pending approvals finishes the workflow; or some node
      was not, and no resumed run ever does. */
  lemma PauseDichotomy(s: State, agents: set<Id>, oracle: Id -> Outcome, retries: map<Id, nat>)
    requires Boundary(s) && !s.paused && NoStuck(s) && Iterate(s, agents, oracle).paused
    ensures var u := Resumed(Iterate(s, agents, oracle), retries);
            if AllReleased(s, agents, oracle)
            then forall agents2, oracle2 :: PlainCourse(oracle2) ==> EndsFinished(u, agents2, oracle2)
            else forall agents2, oracle2, k: nat :: !AllTerminal(RunFor(u, agents2, oracle2, k).st)
  {
    hide Boundary, RunFor, Iterate, ReadyIds, GateOrder, Released, AllTerminal, NoStuck;
    var u := Resumed(Iterate(s, agents, oracle), retries);
    IterateKeeps(s, agents, oracle);
    ResumedIsBoundary(Iterate(s, agents, oracle), retries);
    SavedStuckIff(s, agents, oracle);
    if AllReleased(s, agents, oracle) {
      NothingStuckResumed(Iterate(s, agents, oracle), retries);
      forall agents2, oracle2 | PlainCourse(oracle2)
        ensures EndsFinished(u, agents2, oracle2)
      {
        PlainRunCompletes(u, agents2, oracle2);
      }
    } else {
      var gate := GateOrder(ReadyIds(s.specs, s.st), oracle);
      var i :| 0 <= i < |gate| && !Released(agents, gate, oracle, i);
      forall agents2, oracle2, k: nat
        ensures !AllTerminal(RunFor(u, agents2, oracle2, k).st)
      {
        PauseStrands(s, agents, oracle, i, agents2, oracle2, retries, k);
      }
    }
  }

  lemma NothingStuckResumed(t: State, retries: map<Id, nat>)
    requires NoStuck(t)
    ensures NoStuck(Resumed(t, retries))
  {}

  /** If the gated node is alone in its batch, the saved state is the one before
      the iteration, with that node PENDING. */
  lemma SingleNodePauseIsLossless(s: State, agents: set<Id>, oracle: Id -> Outcome, a: Id)
    requires Boundary(s) && !s.paused && ReadyIds(s.specs, s.st) == [a]
    requires a in agents && oracle(a).ApprovalPending?
    ensures Iterate(s, agents, oracle) == s.Set(a, Pending).(paused := true)
  {
    hide Boundary, ReadyIds, AfterFailure, StartAll, GateAll, FinishAll, GateOrder;
    SingleBatch(s, agents, a, oracle);
    var s1 := s.Set(a, Running);
    SingleBatch(s1, agents, a, oracle);
    var s2 := s1.Set(a, Pending).(paused := true);
    FinishAllPaused(s2, agents, [a], oracle);
    assert s2.st == s.st[a := Pending];
  }

  lemma SingleBatch(s: State, agents: set<Id>, a: Id, oracle: Id -> Outcome)
    ensures StartAll(s, agents, [a], oracle) == Start(s, agents, a, oracle(a))
    ensures GateAll(s, agents, [a], oracle) == Gate(s, agents, a, oracle(a))
    ensures GateOrder([a], oracle) == [a]
  {
    hide Start, Gate;
    assert [a][..0] == [];
    assert StartAll(s, agents, [], oracle) == s && GateAll(s, agents, [], oracle) == s;
    var e := oracle(a).Escalated();
    assert Turns([a], oracle, e) == [a] && Turns([a], oracle, !e) == [];
  }
}
