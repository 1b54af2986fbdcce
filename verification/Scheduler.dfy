/** The main loop of `execute_workflow` and its branches as methods on the DAG
    object (backend/app/orchestration/scheduler.py), each proved to compute the
    corresponding function of Schedule. */
module Scheduler {
  import opened Prelude
  import opened Graph
  import opened Statuses
  import opened Schedule
  import opened Runs
  import opened Outcomes
  import D = Dag

  datatype Exit = PausedForApproval | Finished(report: Report)

  class WorkflowScheduler {
    var replanCount: nat
    var retryCount: map<Id, nat>  // the retry_count column of task rows

    constructor (retryCount: map<Id, nat>)
      ensures replanCount == 0 && this.retryCount == retryCount
    {
      replanCount := 0;
      this.retryCount := retryCount;
    }

    ghost function Abs(dag: D.Dag, paused: bool): State
      requires dag.Valid()
      reads this, dag, dag.repr
    {
      State(dag.specs, dag.St(), retryCount, replanCount, paused)
    }

    // -------------------------------------------------------------- One node

    method StartNode(dag: D.Dag, agents: set<Id>, id: Id, o: Outcome)
      requires dag.Valid() && id in dag.nodes
      modifies dag.repr
      ensures dag.Valid() && dag.nodes == old(dag.nodes)
      ensures Abs(dag, false) == Start(old(Abs(dag, false)), agents, id, o)
    {
      hide ChildrenOf, ParentsOf, DepsOf, Order, Ids, AfterFailure, SkipSet, D.Dag.Valid, D.Dag.St;
      if id !in agents {
        var _, _ := dag.MarkFailed(id, Some("No agent assigned"));
      } else if o.BudgetExhausted? {
        var _, _ := dag.MarkFailed(id, Some("Budget insufficient"));
      } else {
        var _ := dag.MarkRunning(id);
      }
    }

    method GateNode(dag: D.Dag, agents: set<Id>, id: Id, o: Outcome) returns (paused: bool)
      requires dag.Valid() && id in dag.nodes
      modifies dag.repr
      ensures dag.Valid() && dag.nodes == old(dag.nodes)
      ensures Abs(dag, paused) == Gate(old(Abs(dag, false)), agents, id, o)
    {
      hide ChildrenOf, ParentsOf, DepsOf, Order, Ids, AfterFailure, SkipSet, D.Dag.Valid, D.Dag.St;
      paused := false;
      if Starts(agents, id, o) {
        if o.ApprovalDenied? {
          var _, _ := dag.MarkFailed(id, Some("Denied by human"));
        } else if o.ApprovalPending? {
          var _ := dag.MarkPending(id);
          paused := true;
        } else if o.Cleared() {
          var _ := dag.MarkPending(id);
        }
      }
    }

    /** `DynamicReplanner.replan`: an alternative with the same dependencies. */
    method AddAlternative(dag: D.Dag, id: Id) returns (added: bool)
      requires dag.Valid() && id in dag.nodes
      modifies dag
      ensures dag.Valid() && fresh(dag.repr - old(dag.repr)) && old(dag.repr) <= dag.repr
      ensures added == (AltId(id) !in old(dag.nodes)) && old(dag.nodes.Keys) <= dag.nodes.Keys
      ensures dag.specs == if !added then old(dag.specs)
                           else old(dag.specs) + [Spec(AltId(id), DepsOf(old(dag.specs), id))]
      ensures dag.St() == if added then old(dag.St())[AltId(id) := Pending] else old(dag.St())
    {
      hide ChildrenOf, ParentsOf, Order, Ids, DepsOf, D.Dag.St;
      var node := dag.nodes[id];
      var alt := new D.DagNode(AltId(id), node.capability, node.dependsOn, Pending, None, None);
      added := dag.AddNode(alt);
    }

    /** The replan branch: the cap comes first. */
    method ReplanNode(dag: D.Dag, id: Id)
      requires dag.Valid() && id in dag.nodes
      modifies this, dag
      ensures dag.Valid() && fresh(dag.repr - old(dag.repr)) && old(dag.nodes.Keys) <= dag.nodes.Keys
      ensures Abs(dag, false) == AfterReplan(old(Abs(dag, false)), id)
    {
      hide ChildrenOf, ParentsOf, Order, Ids, DepsOf, AfterReplan, AltId, D.Dag.Valid, D.Dag.St;
      ghost var before := Abs(dag, false);
      if replanCount >= MAX_REPLANS_PER_WORKFLOW {
        ReplanResult(before, id, before);
        return;
      }
      var added := AddAlternative(dag, id);
      if added {
        replanCount := replanCount + 1;
        retryCount := retryCount[AltId(id) := 0];
      }
      ReplanResult(before, id, Abs(dag, false));
    }

    /** The retry branch: SelfCorrectionEngine.evaluate, then reset the node. */
    method RetryNode(dag: D.Dag, id: Id, lowConfidence: bool)
      requires dag.Valid() && id in dag.nodes
      modifies this, dag.repr
      ensures dag.Valid() && dag.nodes == old(dag.nodes)
      ensures Abs(dag, false) == AfterRetry(old(Abs(dag, false)), id, lowConfidence)
    {
      hide ChildrenOf, ParentsOf, DepsOf, Order, Ids, D.Dag.Valid, D.Dag.St, D.Dag.Texts;
      var count := if id in retryCount then retryCount[id] else 0;
      if count >= MAX_RETRIES_PER_TASK || !lowConfidence {
        return;
      }
      retryCount := retryCount[id := count + 1];
      var _ := dag.MarkPending(id);
    }

    /** `_reflect_on_task` on a node that has just completed. */
    method ReflectOnTask(dag: D.Dag, id: Id, r: Reflection)
      requires dag.Valid() && id in dag.nodes
      modifies this, dag, dag.repr
      ensures dag.Valid() && fresh(dag.repr - old(dag.repr)) && old(dag.nodes.Keys) <= dag.nodes.Keys
      ensures Abs(dag, false) == AfterReflection(old(Abs(dag, false)), id, r)
    {
      hide ChildrenOf, ParentsOf, DepsOf, Order, Ids, AfterRetry, AfterReplan, D.Dag.Valid, D.Dag.St;
      match r {
        case RetryTask(low) => RetryNode(dag, id, low);
        case Replan => ReplanNode(dag, id);
        case _ =>
      }
    }

    /** `_handle_failure` */
    method FailNode(dag: D.Dag, id: Id)
      requires dag.Valid() && id in dag.nodes
      modifies dag.repr
      ensures dag.Valid() && dag.nodes == old(dag.nodes) && dag.repr == old(dag.repr)
      ensures Abs(dag, false) == old(Abs(dag, false)).Fail(id)
    {
      hide ChildrenOf, ParentsOf, DepsOf, Order, Ids, AfterFailure, SkipSet;
      hide D.Dag.Valid, D.Dag.St, D.Dag.Texts;
      var _, _ := dag.MarkFailed(id, Some("task failed"));
    }

    /** A completed node and what its reflection asks for. */
    method CompleteNode(dag: D.Dag, id: Id, r: Reflection)
      requires dag.Valid() && id in dag.nodes && Closed(dag.specs)
      modifies this, dag, dag.repr
      ensures dag.Valid() && fresh(dag.repr - old(dag.repr)) && old(dag.nodes.Keys) <= dag.nodes.Keys
      ensures Abs(dag, false) == AfterReflection(old(Abs(dag, false)).Set(id, Completed), id, r)
    {
      hide ChildrenOf, ParentsOf, DepsOf, Order, Ids, SkipSet, AfterReflection;
      hide D.Dag.Valid, D.Dag.St, D.Dag.Texts;
      var _, _ := dag.MarkCompleted(id, Some("output"));
      ReflectOnTask(dag, id, r);
    }

    method FinishNode(dag: D.Dag, agents: set<Id>, id: Id, o: Outcome)
      requires dag.Valid() && id in dag.nodes && Closed(dag.specs)
      modifies this, dag, dag.repr
      ensures dag.Valid() && fresh(dag.repr - old(dag.repr)) && old(dag.nodes.Keys) <= dag.nodes.Keys
      ensures Abs(dag, false) == Finish(old(Abs(dag, false)), agents, id, o)
    {
      hide ChildrenOf, ParentsOf, DepsOf, Order, Ids, AfterFailure, SkipSet, AfterReflection;
      hide D.Dag.Valid, D.Dag.St, D.Dag.Texts;
      if !Finishes(agents, id, o) {
        return;
      }
      if !o.Done? {
        FailNode(dag, id);
        return;
      }
      CompleteNode(dag, id, o.reflection);
      if o.lateError {
        FailNode(dag, id);
      }
    }

    // -------------------------------------------------------------- One batch

    method StartPhase(dag: D.Dag, agents: set<Id>, ids: seq<Id>, oracle: Id -> Outcome)
      requires dag.Valid() && forall x :: x in ids ==> x in dag.nodes
      modifies dag.repr
      ensures dag.Valid() && dag.nodes == old(dag.nodes)
      ensures Abs(dag, false) == StartAll(old(Abs(dag, false)), agents, ids, oracle)
    {
      hide ChildrenOf, DepsOf, Order, Ids, Start, D.Dag.Valid, D.Dag.St;
      for i := 0 to |ids|
        invariant dag.Valid() && dag.nodes == old(dag.nodes) && dag.repr == old(dag.repr)
        invariant Abs(dag, false) == StartAll(old(Abs(dag, false)), agents, ids[..i], oracle)
      {
        assert ids[..i + 1][..i] == ids[..i];
        StartNode(dag, agents, ids[i], oracle(ids[i]));
      }
      assert ids[..|ids|] == ids;
    }

    method GatePhase(dag: D.Dag, agents: set<Id>, ids: seq<Id>, oracle: Id -> Outcome) returns (paused: bool)
      requires dag.Valid() && forall x :: x in ids ==> x in dag.nodes
      modifies dag.repr
      ensures dag.Valid() && dag.nodes == old(dag.nodes)
      ensures Abs(dag, paused) == GateAll(old(Abs(dag, false)), agents, ids, oracle)
    {
      hide ChildrenOf, DepsOf, Order, Ids, D.Dag.Valid, D.Dag.St, AfterFailure;
      paused := false;
      for i := 0 to |ids|
        invariant dag.Valid() && dag.nodes == old(dag.nodes) && dag.repr == old(dag.repr)
        invariant Abs(dag, paused) == GateAll(old(Abs(dag, false)), agents, ids[..i], oracle)
      {
        assert ids[..i + 1][..i] == ids[..i];
        if !paused {
          paused := GateNode(dag, agents, ids[i], oracle(ids[i]));
        }
      }
      assert ids[..|ids|] == ids;
    }

    method FinishPhase(dag: D.Dag, agents: set<Id>, ids: seq<Id>, oracle: Id -> Outcome)
      requires dag.Valid() && NoDup(ids) && InBatch(Abs(dag, false), Elems(ids))
      requires (forall k :: 0 <= k < |ids| ==> ids[k] in dag.nodes) && Called(Abs(dag, false), agents, ids, oracle)
      modifies this, dag, dag.repr
      ensures dag.Valid() && fresh(dag.repr - old(dag.repr))
      ensures Abs(dag, false) == FinishAll(old(Abs(dag, false)), agents, ids, oracle)
    {
      hide ChildrenOf, DepsOf, Order, Ids, D.Dag.Valid, D.Dag.St, Finish, InBatch;
      ghost var s := Abs(dag, false);
      for i := 0 to |ids|
        invariant dag.Valid() && fresh(dag.repr - old(dag.repr))
        invariant forall k :: 0 <= k < |ids| ==> ids[k] in dag.nodes
        invariant Abs(dag, false) == FinishAll(s, agents, ids[..i], oracle)
      {
        assert ids[..i + 1][..i] == ids[..i];
        FinishAllKeeps(s, agents, ids, i, oracle);
        BatchClosed(Abs(dag, false), Elems(ids));
        FinishNode(dag, agents, ids[i], oracle(ids[i]));
      }
      assert ids[..|ids|] == ids;
    }

    /** One turn of the loop over the ready nodes. */
    method RunBatch(dag: D.Dag, agents: set<Id>, ids: seq<Id>, oracle: Id -> Outcome) returns (paused: bool)
      requires dag.Valid() && Boundary(Abs(dag, false)) && ids == ReadyIds(dag.specs, dag.St())
      modifies this, dag, dag.repr
      ensures dag.Valid() && fresh(dag.repr - old(dag.repr))
      ensures Abs(dag, paused) == Iterate(old(Abs(dag, false)), agents, oracle)
    {
      hide ChildrenOf, DepsOf, Order, Ids, D.Dag.Valid, D.Dag.St, InBatch, Boundary, StartAll, GateAll, FinishAll,
        ReadyIds;
      hide GateOrder, Begun, Starts, Finishes;
      ghost var s := Abs(dag, false);
      StartPhaseDone(s, agents, oracle);
      GatePhaseDone(s, agents, oracle);
      BatchIn(s, Elems(ids));
      StartPhase(dag, agents, ids, oracle);
      var gate := GateOrder(ids, oracle);
      assert forall x :: x in gate ==> x in Elems(ids);
      paused := GatePhase(dag, agents, gate, oracle);
      if paused {
        FinishAllPaused(Abs(dag, paused), agents, ids, oracle);
      } else {
        FinishPhase(dag, agents, ids, oracle);
      }
    }

    // -------------------------------------------------------------- The run

    /** The execution loop. The runaway branch is there as in the source and is
        shown dead; what each node meets is up to the oracle. */
    method ExecuteWorkflow(dag: D.Dag, agents: set<Id>, oracle: (nat, Id) -> Outcome)
      returns (exit: Exit, iterations: nat)
      requires dag.Valid() && Boundary(Abs(dag, false))
      modifies this, dag, dag.repr
      ensures dag.Valid() && iterations <= 3 * |old(dag.order)| + 10 <= RunawayLimit(|old(dag.order)|)
      ensures var t := RunFor(old(Abs(dag, false)), agents, oracle, iterations);
              Abs(dag, exit.PausedForApproval?) == t && Stopped(t)
      ensures exit.Finished? ==> exit.report == ReportOf(dag.specs, dag.St())
    {
      hide ChildrenOf, DepsOf, Order, Ids, D.Dag.Valid, D.Dag.St, Boundary, Iterate, Potential, ReadyIds;
      hide RunFor, Stopped, AllTerminal, At, RunawayLimit, CountIn;
      ghost var s := Abs(dag, false);
      RunLimit(dag, s);
      iterations := 0;
      RunNone(s, agents, oracle);
      var limit := RunawayLimit(|dag.order|);
      ghost var n := |dag.order|;
      var complete := dag.IsComplete();
      while !complete
        invariant dag.Valid() && fresh(dag.repr - old(dag.repr))
        invariant Abs(dag, false) == RunFor(s, agents, oracle, iterations) && Boundary(Abs(dag, false))
        invariant complete == AllTerminal(dag.St())
        invariant Potential(Abs(dag, false)) + iterations <= 3 * n + 9
        decreases Potential(Abs(dag, false))
      {
        if iterations + 1 > limit {
          assert false;  // workflow_scheduler_loop_runaway
        }
        ghost var t := Abs(dag, false);
        BoundaryClosed(t);
        var ready := dag.GetReadyNodes();
        var ids := seq(|ready|, i requires 0 <= i < |ready| => ready[i].nodeId);
        ReadyNames(dag, ready, ids);
        StopCases(t);
        if ids == [] {
          break;
        }
        IterateKeeps(t, agents, At(oracle, iterations));
        IterateSpends(t, agents, At(oracle, iterations));
        RunMore(s, agents, oracle, iterations);
        PausedStops(Iterate(t, agents, At(oracle, iterations)));
        var paused := RunBatch(dag, agents, ids, At(oracle, iterations));
        iterations := iterations + 1;
        if paused {
          return PausedForApproval, iterations;
        }
        complete := dag.IsComplete();
      }
      StopCases(Abs(dag, false));
      exit := Report(dag);
    }

    method Report(dag: D.Dag) returns (exit: Exit)
      requires dag.Valid()
      ensures exit == Finished(ReportOf(dag.specs, dag.St()))
    {
      hide ChildrenOf, DepsOf, Order, Ids, D.Dag.St, CountIn;
      var completed := dag.Count(Completed);
      var failed := dag.Count(Failed);
      var skipped := dag.Count(Skipped);
      exit := Finished(FinalReport(completed, failed, skipped));
    }
  }

  lemma RunLimit(dag: D.Dag, s: State)
    requires dag.Valid() && s.specs == dag.specs
    ensures Potential(s) <= 3 * |dag.order| + 9 && 3 * |dag.order| + 10 <= RunawayLimit(|dag.order|)
  {
    hide Order, Ids, Potential;
    OrderLength(s.specs);
    PotentialAtMost(s);
  }

  lemma RunNone(s: State, agents: set<Id>, oracle: (nat, Id) -> Outcome)
    ensures RunFor(s, agents, oracle, 0) == s
  {}

  lemma StopCases(s: State)
    requires s.st.Keys == Ids(s.specs) && !s.paused
    ensures Stopped(s) <==> ReadyIds(s.specs, s.st) == [] || AllTerminal(s.st)
  {}

  lemma BatchClosed(s: State, batch: set<Id>)
    requires InBatch(s, batch)
    ensures Closed(s.specs)
  {}

  lemma BoundaryClosed(s: State)
    requires Boundary(s)
    ensures Closed(s.specs)
  {}

  lemma OrderLength(specs: seq<Spec>)
    ensures |Order(specs)| == |Ids(specs)|
  {
    hide Order, Ids;
    NoDupLength(Order(specs));
    assert Elems(Order(specs)) == Ids(specs);
  }

  lemma ReadyNames(dag: D.Dag, ready: seq<D.DagNode>, ids: seq<Id>)
    requires dag.Valid() && dag.Lists(ready, ReadyIds(dag.specs, dag.St()))
    requires |ids| == |ready| && forall i :: 0 <= i < |ready| ==> ids[i] == ready[i].nodeId
    ensures ids == ReadyIds(dag.specs, dag.St())
  {
    hide ReadyIds, Order, Ids, DepsOf, ChildrenOf, ParentsOf;
  }

  lemma ReplanResult(s: State, id: Id, t: State)
    requires if s.replans >= MAX_REPLANS_PER_WORKFLOW || AltId(id) in Ids(s.specs) then t == s
             else t.specs == s.specs + [Spec(AltId(id), DepsOf(s.specs, id))] && t.st == s.st[AltId(id) := Pending]
                  && t.retries == s.retries[AltId(id) := 0] && t.replans == s.replans + 1 && t.paused == s.paused
    ensures t == AfterReplan(s, id)
  {}
}
