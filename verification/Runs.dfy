/** Whole runs of the scheduler: what every run keeps, why it ends within the
    iteration guard and what can block it. */
module Runs {
  import opened Prelude
  import opened Graph
  import opened GraphTheorems
  import opened Statuses
  import opened Schedule

  /** The loop ends: it paused, nothing is ready, or everything is terminal. */
  ghost predicate Stopped(s: State) {
    s.paused || ReadyIds(s.specs, s.st) == [] || AllTerminal(s.st)
  }

  function At(oracle: (nat, Id) -> Outcome, k: nat): Id -> Outcome {
    x => oracle(k, x)
  }

  /** The state after at most k iterations; the oracle decides what each node
      meets in each iteration. */
  ghost function RunFor(s: State, agents: set<Id>, oracle: (nat, Id) -> Outcome, k: nat): State {
    if k == 0 then s
    else
      var t := RunFor(s, agents, oracle, k - 1);
      if Stopped(t) then t else Iterate(t, agents, At(oracle, k - 1))
  }

  /** Validation is enough to start: a validated graph of unstarted nodes is at an
      iteration boundary. */
  lemma ValidatedIsBoundary(specs: seq<Spec>, st: StatusMap, retries: map<Id, nat>)
    requires Unique(specs) && Validate(specs).Valid? && st.Keys == Ids(specs)
    requires forall x :: x in st ==> Startable(st[x])
    ensures Boundary(State(specs, st, retries, 0, false))
  {
    hide Validate, ChildrenOf, Order, DepsOf, Acyclic;
    UniqueConsistent(specs);
    ValidateExact(specs);
  }

  lemma {:induction false} RunKeepsBoundary(s: State, agents: set<Id>, oracle: (nat, Id) -> Outcome, k: nat)
    requires Boundary(s)
    ensures Boundary(RunFor(s, agents, oracle, k))
  {
    hide Boundary, Iterate;
    if k > 0 {
      RunKeepsBoundary(s, agents, oracle, k - 1);
      var t := RunFor(s, agents, oracle, k - 1);
      if !Stopped(t) {
        IterateKeeps(t, agents, At(oracle, k - 1));
      }
    }
  }

  // ---------------------------------------------------------------- Termination

  function Left(r: nat): nat { if r >= MAX_RETRIES_PER_TASK then 0 else MAX_RETRIES_PER_TASK - r }

  /** How often a node may still be run: three times at first, once less after
      each retry, and not at all once it is settled. */
  function Weight(s: State, x: Id): nat {
    if x !in s.st then 0
    else if Startable(s.st[x]) then 1 + Left(s.Retries(x))
    else if s.st[x].Running? then Left(s.Retries(x))
    else 0
  }

  function WeightIn(order: seq<Id>, s: State): nat {
    if order == [] then 0 else WeightIn(order[..|order| - 1], s) + Weight(s, order[|order| - 1])
  }

  function ReplansLeft(s: State): nat {
    if s.replans >= MAX_REPLANS_PER_WORKFLOW then 0 else MAX_REPLANS_PER_WORKFLOW - s.replans
  }

  function Potential(s: State): nat {
    WeightIn(Order(s.specs), s) + (1 + MAX_RETRIES_PER_TASK) * ReplansLeft(s)
  }

  lemma {:induction false} WeightMonotone(order: seq<Id>, s: State, t: State)
    requires forall x :: x in order ==> Weight(t, x) <= Weight(s, x)
    ensures WeightIn(order, t) <= WeightIn(order, s)
    ensures (exists x :: x in order && Weight(t, x) < Weight(s, x)) ==> WeightIn(order, t) < WeightIn(order, s)
  {
    hide Weight;
    if order != [] {
      var front, last := order[..|order| - 1], order[|order| - 1];
      assert order == front + [last];
      WeightMonotone(front, s, t);
    }
  }

  lemma {:induction false} WeightAtMost(order: seq<Id>, s: State)
    ensures WeightIn(order, s) <= 3 * |order|
  {
    if order != [] {
      WeightAtMost(order[..|order| - 1], s);
    }
  }

  /** The budget a run starts with. */
  lemma PotentialAtMost(s: State)
    ensures Potential(s) <= 3 * |Ids(s.specs)| + 9
  {
    hide Order, WeightIn, Ids;
    WeightAtMost(Order(s.specs), s);
    NoDupLength(Order(s.specs));
    assert Elems(Order(s.specs)) == Ids(s.specs);
  }

  lemma FailPotential(s: State, id: Id)
    requires s.st.Keys == Ids(s.specs) && id in s.st
    ensures Potential(s.Fail(id)) <= Potential(s)
    ensures Startable(s.st[id]) ==> Potential(s.Fail(id)) < Potential(s)
  {
    hide Order, WeightIn, Ids, AfterFailure;
    var t := s.Fail(id);
    forall x | x in Order(s.specs)
      ensures Weight(t, x) <= Weight(s, x) && (x == id ==> Weight(t, x) == 0)
    {
      AfterFailureAt(s.specs, s.st, id, x);
    }
    WeightMonotone(Order(s.specs), s, t);
  }

  lemma SetPotential(s: State, id: Id, x: Status)
    requires s.st.Keys == Ids(s.specs) && id in s.st
    requires Weight(s.Set(id, x), id) <= Weight(s, id)
    ensures Potential(s.Set(id, x)) <= Potential(s)
    ensures Weight(s.Set(id, x), id) < Weight(s, id) ==> Potential(s.Set(id, x)) < Potential(s)
  {
    hide Order, WeightIn, Ids;
    WeightMonotone(Order(s.specs), s, s.Set(id, x));
  }

  lemma StartPotential(s: State, agents: set<Id>, id: Id, o: Outcome)
    requires s.st.Keys == Ids(s.specs) && id in s.st && Startable(s.st[id])
    ensures Potential(Start(s, agents, id, o)) < Potential(s)
  {
    hide Potential, AfterFailure;
    if Starts(agents, id, o) {
      SetPotential(s, id, Running);
    } else {
      FailPotential(s, id);
    }
  }

  /** The nodes the approval gate lets through: each is given back one run, which
      finishing it takes away again. */
  function ClearedCount(agents: set<Id>, ids: seq<Id>, oracle: Id -> Outcome): nat {
    if ids == [] then 0
    else
      var last := ids[|ids| - 1];
      ClearedCount(agents, ids[..|ids| - 1], oracle) + if last in agents && oracle(last).Cleared() then 1 else 0
  }

  lemma {:induction false} ResetWeight(order: seq<Id>, s: State, id: Id)
    requires NoDup(order) && id in s.st && s.st[id].Running?
    ensures WeightIn(order, s.Set(id, Pending)) <= WeightIn(order, s) + if id in order then 1 else 0
  {
    hide Weight;
    if order != [] {
      var front, last := order[..|order| - 1], order[|order| - 1];
      assert order == front + [last];
      ResetWeight(front, s, id);
      ResetOne(s, id, last);
    }
  }

  lemma ResetOne(s: State, id: Id, x: Id)
    requires id in s.st && s.st[id].Running?
    ensures Weight(s.Set(id, Pending), x) <= Weight(s, x) + if x == id then 1 else 0
  {}

  lemma GatePotential(s: State, agents: set<Id>, id: Id, o: Outcome)
    requires s.st.Keys == Ids(s.specs) && id in s.st
    requires Starts(agents, id, o) ==> s.st[id].Running?
    ensures !Gate(s, agents, id, o).paused ==>
      Potential(Gate(s, agents, id, o)) <= Potential(s) + if id in agents && o.Cleared() then 1 else 0
  {
    hide AfterFailure, WeightIn, Order;
    if !s.paused && Starts(agents, id, o) {
      if o.ApprovalDenied? {
        FailPotential(s, id);
      } else if o.Cleared() {
        ResetWeight(Order(s.specs), s, id);
      }
    }
  }

  /** Completing a node and putting it back for a retry costs one retry. */
  lemma RetryPotential(s: State, id: Id, low: bool)
    requires s.st.Keys == Ids(s.specs) && id in s.st && (s.st[id].Running? || s.st[id].Pending?)
    ensures Potential(AfterRetry(s.Set(id, Completed), id, low)) <= Potential(s)
    ensures s.st[id].Pending? ==> Potential(AfterRetry(s.Set(id, Completed), id, low)) < Potential(s)
  {
    hide Order, WeightIn, Ids;
    WeightMonotone(Order(s.specs), s, AfterRetry(s.Set(id, Completed), id, low));
  }

  /** The three runs an alternative node may have are paid for by one replan. */
  lemma ReplanPotential(s: State, id: Id)
    requires s.st.Keys == Ids(s.specs)
    ensures Potential(AfterReplan(s, id)) <= Potential(s)
  {
    hide Ids, Order, WeightIn, Weight, DepsOf;
    var t := AfterReplan(s, id);
    if t != s {
      var alt := AltId(id);
      SnocIds(s.specs, Spec(alt, DepsOf(s.specs, id)));
      assert alt !in Order(s.specs);
      ReplanWeights(s, id);
      WeightMonotone(Order(s.specs), s, t);
      WeightSnoc(Order(s.specs), alt, t);
    }
  }

  lemma ReplanWeights(s: State, id: Id)
    requires s.st.Keys == Ids(s.specs) && AfterReplan(s, id) != s
    ensures forall x :: x in Ids(s.specs) ==> Weight(AfterReplan(s, id), x) == Weight(s, x)
    ensures Weight(AfterReplan(s, id), AltId(id)) == 3
  {
    hide Ids, DepsOf;
  }

  lemma WeightSnoc(order: seq<Id>, x: Id, s: State)
    ensures WeightIn(order + [x], s) == WeightIn(order, s) + Weight(s, x)
  {
    assert (order + [x])[..|order|] == order;
  }

  lemma FinishPotential(s: State, agents: set<Id>, id: Id, o: Outcome)
    requires s.st.Keys == Ids(s.specs) && id in s.st
    requires !s.paused && Finishes(agents, id, o) ==> s.st[id] == o.AtCall()
    ensures Potential(Finish(s, agents, id, o)) <= Potential(s)
    ensures !s.paused && Finishes(agents, id, o) && o.Cleared() ==> Potential(Finish(s, agents, id, o)) < Potential(s)
  {
    hide Potential, AfterFailure, Ids, AfterReplan, AfterRetry;
    if !s.paused && Finishes(agents, id, o) {
      if o.Done? {
        var c := s.Set(id, Completed);
        var t := AfterReflection(c, id, o.reflection);
        assert Potential(t) <= Potential(s) && (o.Cleared() ==> Potential(t) < Potential(s)) by {
          SetPotential(s, id, Completed);
          RetryPotential(s, id, o.reflection.RetryTask? && o.reflection.lowConfidence);
          ReplanPotential(c, id);
        }
        ReflectionShape(c, id, o.reflection);
        if o.lateError {
          FailPotential(t, id);
        }
      } else {
        FailPotential(s, id);
      }
    }
  }

  lemma ReflectionShape(s: State, id: Id, r: Reflection)
    requires s.st.Keys == Ids(s.specs) && id in s.st
    ensures AfterReflection(s, id, r).st.Keys == Ids(AfterReflection(s, id, r).specs)
    ensures id in AfterReflection(s, id, r).st
  {
    SnocIds(s.specs, Spec(AltId(id), DepsOf(s.specs, id)));
  }

  lemma {:induction false} StartAllPotential(s: State, agents: set<Id>, ids: seq<Id>, i: nat, oracle: Id -> Outcome)
    requires InBatch(s, Elems(ids)) && NoDup(ids) && i <= |ids|
    requires forall k :: 0 <= k < |ids| ==> ids[k] in s.st && Startable(s.st[ids[k]])
    ensures Potential(StartAll(s, agents, ids[..i], oracle)) + i <= Potential(s)
    decreases i
  {
    hide InBatch, Start, Potential;
    if i > 0 {
      StartAllPotential(s, agents, ids, i - 1, oracle);
      assert ids[..i][..i - 1] == ids[..i - 1];
      StartAllKeeps(s, agents, ids, i - 1, oracle);
      var t := StartAll(s, agents, ids[..i - 1], oracle);
      BatchIn(t, Elems(ids));
      StartPotential(t, agents, ids[i - 1], oracle(ids[i - 1]));
    }
  }

  lemma {:induction false} GateAllPotential(s: State, agents: set<Id>, ids: seq<Id>, i: nat, oracle: Id -> Outcome)
    requires InBatch(s, Elems(ids)) && NoDup(ids) && i <= |ids| && !s.paused
    requires Launched(s, agents, ids, oracle)
    ensures var t := GateAll(s, agents, ids[..i], oracle);
            !t.paused ==> Potential(t) <= Potential(s) + ClearedCount(agents, ids[..i], oracle)
    decreases i
  {
    hide InBatch, Potential, AfterFailure;
    if i > 0 {
      GateAllPotential(s, agents, ids, i - 1, oracle);
      assert ids[..i][..i - 1] == ids[..i - 1];
      GateAllKeeps(s, agents, ids, i - 1, oracle);
      var t := GateAll(s, agents, ids[..i - 1], oracle);
      BatchIn(t, Elems(ids));
      GatePotential(t, agents, ids[i - 1], oracle(ids[i - 1]));
    }
  }

  lemma {:induction false} FinishAllPotential(s: State, agents: set<Id>, ids: seq<Id>, i: nat, oracle: Id -> Outcome)
    requires InBatch(s, Elems(ids)) && NoDup(ids) && i <= |ids|
    requires Called(s, agents, ids, oracle)
    ensures !s.paused ==>
      Potential(FinishAll(s, agents, ids[..i], oracle)) + ClearedCount(agents, ids[..i], oracle) <= Potential(s)
    decreases i
  {
    hide InBatch, Potential, AfterFailure, AfterReflection, Finish;
    if i > 0 {
      FinishAllPotential(s, agents, ids, i - 1, oracle);
      assert ids[..i][..i - 1] == ids[..i - 1];
      FinishAllKeeps(s, agents, ids, i - 1, oracle);
      var t := FinishAll(s, agents, ids[..i - 1], oracle);
      BatchIn(t, Elems(ids));
      FinishPotential(t, agents, ids[i - 1], oracle(ids[i - 1]));
    }
  }

  /** Every iteration that does not pause spends budget. */
  lemma IterateSpends(s: State, agents: set<Id>, oracle: Id -> Outcome)
    requires Boundary(s) && !s.paused && ReadyIds(s.specs, s.st) != []
    ensures !Iterate(s, agents, oracle).paused ==> Potential(Iterate(s, agents, oracle)) < Potential(s)
  {
    hide Boundary, ReadyIds, StartAll, GateAll, FinishAll, Potential, InBatch, GateOrder, Begun, Launched, Called,
      Starts;
    var ready := ReadyIds(s.specs, s.st);
    var gate := GateOrder(ready, oracle);
    ReadyStartable(s);
    StartPhaseDone(s, agents, oracle);
    GatePhaseDone(s, agents, oracle);
    BatchIn(s, Elems(ready));
    StartAllPotential(s, agents, ready, |ready|, oracle);
    GateAllPotential(AfterStart(s, agents, oracle), agents, gate, |gate|, oracle);
    ClearedReordered(agents, ready, oracle);
    FinishAllKeeps(AfterGate(s, agents, oracle), agents, ready, |ready|, oracle);
    FinishAllPotential(AfterGate(s, agents, oracle), agents, ready, |ready|, oracle);
  }

  /** Reordering the batch for the gate does not change how many it lets through. */
  lemma ClearedReordered(agents: set<Id>, ids: seq<Id>, oracle: Id -> Outcome)
    ensures ClearedCount(agents, GateOrder(ids, oracle), oracle) == ClearedCount(agents, ids, oracle)
  {
    hide Turns, ClearedCount;
    ClearedAppend(agents, Turns(ids, oracle, false), Turns(ids, oracle, true), oracle);
    ClearedSplit(agents, ids, oracle);
  }

  lemma {:induction false} ClearedAppend(agents: set<Id>, a: seq<Id>, b: seq<Id>, oracle: Id -> Outcome)
    ensures ClearedCount(agents, a + b, oracle) == ClearedCount(agents, a, oracle) + ClearedCount(agents, b, oracle)
  {
    if b == [] {
      assert a + b == a;
    } else {
      assert (a + b)[..|a + b| - 1] == a + b[..|b| - 1];
      ClearedAppend(agents, a, b[..|b| - 1], oracle);
    }
  }

  lemma {:induction false} ClearedSplit(agents: set<Id>, ids: seq<Id>, oracle: Id -> Outcome)
    ensures ClearedCount(agents, Turns(ids, oracle, false), oracle)
          + ClearedCount(agents, Turns(ids, oracle, true), oracle)
         == ClearedCount(agents, ids, oracle)
  {
    if ids != [] {
      var front, last := ids[..|ids| - 1], ids[|ids| - 1];
      ClearedSplit(agents, front, oracle);
      var mine := oracle(last).Escalated();
      ClearedAppend(agents, Turns(front, oracle, mine), [last], oracle);
      assert Turns(ids, oracle, mine) == Turns(front, oracle, mine) + [last];
      assert Turns(ids, oracle, !mine) == Turns(front, oracle, !mine);
      assert [last][..0] == [];
    }
  }

  lemma RunMore(s: State, agents: set<Id>, oracle: (nat, Id) -> Outcome, k: nat)
    requires !Stopped(RunFor(s, agents, oracle, k))
    ensures RunFor(s, agents, oracle, k + 1) == Iterate(RunFor(s, agents, oracle, k), agents, At(oracle, k))
  {
    hide Iterate;
  }

  lemma UnstoppedIsReady(s: State)
    requires !Stopped(s)
    ensures !s.paused && ReadyIds(s.specs, s.st) != []
  {}

  lemma PausedStops(s: State)
    ensures s.paused ==> Stopped(s)
  {}

  lemma {:induction false} RunSpends(s: State, agents: set<Id>, oracle: (nat, Id) -> Outcome, k: nat)
    requires Boundary(s)
    ensures var t := RunFor(s, agents, oracle, k); Stopped(t) || Potential(t) + k <= Potential(s)
  {
    hide Boundary, Iterate, Potential, Stopped;
    if k > 0 {
      RunSpends(s, agents, oracle, k - 1);
      RunKeepsBoundary(s, agents, oracle, k - 1);
      var t := RunFor(s, agents, oracle, k - 1);
      if !Stopped(t) {
        UnstoppedIsReady(t);
        IterateSpends(t, agents, At(oracle, k - 1));
        PausedStops(Iterate(t, agents, At(oracle, k - 1)));
      }
    }
  }

  function RunawayLimit(n: nat): nat { if 5 * n > 50 then 5 * n else 50 }

  /** Every run on a graph of n nodes stops after at most 3n + 9 iterations, one
      less than it takes to reach the runaway guard's smallest value. */
  lemma RunEnds(s: State, agents: set<Id>, oracle: (nat, Id) -> Outcome)
    requires Boundary(s)
    ensures var n := |Ids(s.specs)|;
            Stopped(RunFor(s, agents, oracle, 3 * n + 9)) &&
              3 * n + 10 <= RunawayLimit(n) == if 5 * n > 50 then 5 * n else 50
  {
    hide Boundary, Iterate, Potential, Stopped, RunFor, Ids;
    var n := |Ids(s.specs)|;
    PotentialAtMost(s);
    RunSpends(s, agents, oracle, 3 * n + 9);
    var t := RunFor(s, agents, oracle, 3 * n + 9);
    if !Stopped(t) {
      assert Potential(t) == 0;
      RunKeepsBoundary(s, agents, oracle, 3 * n + 9);
      EmptyPotentialStops(t);
    }
  }

  lemma EmptyPotentialStops(s: State)
    requires Potential(s) == 0
    ensures Stopped(s)
  {
    if ReadyIds(s.specs, s.st) != [] {
      ReadyHasWeight(s);
      assert false;
    }
  }

  lemma ReadyHasWeight(s: State)
    requires ReadyIds(s.specs, s.st) != []
    ensures Potential(s) > 0
  {
    var x := ReadyIds(s.specs, s.st)[0];
    assert x in ReadyIds(s.specs, s.st);
    assert IsReady(s.specs, s.st, x);
    WeightPositive(Order(s.specs), s, x);
  }

  lemma {:induction false} WeightPositive(order: seq<Id>, s: State, x: Id)
    requires x in order && x in s.st && Startable(s.st[x])
    ensures WeightIn(order, s) > 0
  {
    var last := order[|order| - 1];
    if last != x {
      assert order == order[..|order| - 1] + [last];
      WeightPositive(order[..|order| - 1], s, x);
    }
  }

  // ---------------------------------------------------------------- Statuses along paths

  /** Everything above a started node is COMPLETED. */
  lemma {:induction false} AboveStarted(s: State, w: seq<Id>)
    requires Boundary(s) && Path(s.specs, w) && |w| >= 2 && Started(s.st[w[|w| - 1]])
    ensures w[0] in s.st && s.st[w[0]].Completed?
  {
    hide Acyclic, DepsOf, Ids, Closed, Unique;
    var n := |w| - 1;
    assert Edge(s.specs, w[n - 1], w[n]);
    assert DepsMet(s.specs, s.st, w[n]);
    if n > 1 {
      PathSlice(s.specs, w, 0, n);
      AboveStarted(s, w[0..n]);
    }
  }

  /** Everything below a failed node is SKIPPED. */
  lemma {:induction false} BelowFailed(s: State, w: seq<Id>)
    requires Boundary(s) && Path(s.specs, w) && |w| >= 2 && s.st[w[0]].Failed?
    ensures s.st[w[|w| - 1]].Skipped?
  {
    hide Acyclic, DepsOf, Ids, Closed, Unique;
    var n := |w| - 1;
    assert Edge(s.specs, w[n - 1], w[n]);
    if n > 1 {
      PathSlice(s.specs, w, 0, n);
      BelowFailed(s, w[0..n]);
    }
    assert Lost(s.st[w[n - 1]]);
    assert HasLostDep(s.specs, s.st, w[n]);
  }

  lemma AncestorExtend(specs: seq<Spec>, a: Id, d: Id, c: Id)
    requires Closed(specs) && Edge(specs, d, c) && (a == d || Ancestor(specs, a, d))
    ensures Ancestor(specs, a, c)
  {
    hide DepsOf;
    assert DepsKnown(specs, c);
    if a == d {
      assert Path(specs, [d, c]);
    } else {
      var w :| |w| >= 2 && Path(specs, w) && w[0] == a && w[|w| - 1] == d;
      PathAppend(specs, w, c);
      assert (w + [c])[|w|] == c;
    }
  }

  /** A skipped node has a failed ancestor: found by walking up, which ends
      because the topological order falls. */
  lemma {:induction false} SkippedHasFailedAncestor(s: State, c: Id) returns (a: Id)
    requires Boundary(s) && c in s.st && s.st[c].Skipped?
    requires c in TopologicalOrder(s.specs)
    ensures a in s.st && s.st[a].Failed? && Ancestor(s.specs, a, c)
    decreases IndexOf(TopologicalOrder(s.specs), c)
  {
    hide Acyclic, Ids, TopologicalOrder, Ancestor, StartedHasDeps;
    var d :| d in DepsOf(s.specs, c) && d in s.st && Lost(s.st[d]);
    UniqueConsistent(s.specs);
    TopologicalExact(s.specs);
    EdgeClimbs(s.specs, TopologicalOrder(s.specs), d, c);
    if s.st[d].Failed? {
      a := d;
    } else {
      a := SkippedHasFailedAncestor(s, d);
    }
    AncestorExtend(s.specs, a, d, c);
  }

  /** At every iteration boundary: what has started has only completed ancestors,
      and a node is SKIPPED exactly when some ancestor FAILED. */
  lemma RunStatuses(s: State, agents: set<Id>, oracle: (nat, Id) -> Outcome, k: nat, c: Id)
    requires Boundary(s)
    ensures var t := RunFor(s, agents, oracle, k);
            c in t.st ==>
              (Started(t.st[c]) ==> forall a :: Ancestor(t.specs, a, c) ==> a in t.st && t.st[a].Completed?)
              && (t.st[c].Skipped? <==> exists a :: a in t.st && t.st[a].Failed? && Ancestor(t.specs, a, c))
  {
    hide RunFor, Boundary;
    RunKeepsBoundary(s, agents, oracle, k);
    BoundaryStatuses(RunFor(s, agents, oracle, k), c);
  }

  lemma BoundaryStatuses(t: State, c: Id)
    requires Boundary(t)
    ensures c in t.st ==>
              (Started(t.st[c]) ==> forall a :: Ancestor(t.specs, a, c) ==> a in t.st && t.st[a].Completed?)
              && (t.st[c].Skipped? <==> exists a :: a in t.st && t.st[a].Failed? && Ancestor(t.specs, a, c))
  {
    hide StartedHasDeps, SkippedExact, TopologicalOrder, Ids;
    if c in t.st {
      forall a | Started(t.st[c]) && Ancestor(t.specs, a, c)
        ensures a in t.st && t.st[a].Completed?
      {
        var w :| |w| >= 2 && Path(t.specs, w) && w[0] == a && w[|w| - 1] == c;
        AboveStarted(t, w);
      }
      forall a | a in t.st && t.st[a].Failed? && Ancestor(t.specs, a, c)
        ensures t.st[c].Skipped?
      {
        var w :| |w| >= 2 && Path(t.specs, w) && w[0] == a && w[|w| - 1] == c;
        BelowFailed(t, w);
      }
      UniqueConsistent(t.specs);
      TopologicalExact(t.specs);
      assert c in Elems(TopologicalOrder(t.specs));
      if t.st[c].Skipped? {
        var a := SkippedHasFailedAncestor(t, c);
      }
    }
  }

  // ---------------------------------------------------------------- Deadlock

  predicate Stuck(x: Status) { !Terminal(x) && !Startable(x) }

  /** If nothing is ready, a node that waits to start has an ancestor that is
      neither finished nor able to start. */
  lemma {:induction false} WaitingHasStuckAncestor(s: State, c: Id) returns (a: Id)
    requires Boundary(s) && ReadyIds(s.specs, s.st) == [] && c in s.st && Startable(s.st[c])
    requires c in TopologicalOrder(s.specs)
    ensures a in s.st && Stuck(s.st[a]) && Ancestor(s.specs, a, c)
    decreases IndexOf(TopologicalOrder(s.specs), c)
  {
    hide Acyclic, TopologicalOrder, Ancestor, StartedHasDeps, Order;
    var d := BlockingDependency(s, c);
    UniqueConsistent(s.specs);
    TopologicalExact(s.specs);
    EdgeClimbs(s.specs, TopologicalOrder(s.specs), d, c);
    if Startable(s.st[d]) {
      a := WaitingHasStuckAncestor(s, d);
    } else {
      a := d;
    }
    AncestorExtend(s.specs, a, d, c);
  }

  lemma BlockingDependency(s: State, c: Id) returns (d: Id)
    requires Boundary(s) && ReadyIds(s.specs, s.st) == [] && c in s.st && Startable(s.st[c])
    ensures Edge(s.specs, d, c) && d in s.st && !Terminal(s.st[d])
  {
    hide Acyclic, StartedHasDeps, Order, ReadyIn, Unique;
    assert c !in ReadyIds(s.specs, s.st);
    assert !DepsMet(s.specs, s.st, c);
    assert !HasLostDep(s.specs, s.st, c);
    ClosedDeps(s.specs, c);
    d :| d in DepsOf(s.specs, c) && !(d in s.st && s.st[d].Completed?);
  }

  /** The loop can only break early below a node that is neither finished nor startable. */
  lemma NothingReady(s: State)
    requires Boundary(s) && ReadyIds(s.specs, s.st) == [] && !AllTerminal(s.st)
    ensures exists a :: a in s.st && Stuck(s.st[a])
    ensures forall c :: c in s.st && Startable(s.st[c]) ==>
      exists a :: a in s.st && Stuck(s.st[a]) && Ancestor(s.specs, a, c)
  {
    hide TopologicalOrder, Ancestor, StartedHasDeps, SkippedExact, ReadyIds, Ids;
    UniqueConsistent(s.specs);
    TopologicalExact(s.specs);
    forall c | c in s.st && Startable(s.st[c])
      ensures exists a :: a in s.st && Stuck(s.st[a]) && Ancestor(s.specs, a, c)
    {
      assert c in Elems(TopologicalOrder(s.specs));
      var a := WaitingHasStuckAncestor(s, c);
    }
  }
}
