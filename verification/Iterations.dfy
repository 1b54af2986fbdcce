/** What one iteration of the scheduler's loop does, outcome by outcome
    (backend/app/orchestration/scheduler.py:352-906). */
module Iterations {
  import opened Prelude
  import opened Graph
  import opened GraphTheorems
  import opened Statuses
  import opened Schedule
  import opened Runs
  import opened Outcomes

  // ---------------------------------------------------------------- Phase 3

  /** A reflection that sends the node back: low confidence and a retry left. */
  predicate Retried(o: Outcome, retries: nat) {
    o.Done? && o.reflection.RetryTask? && o.reflection.lowConfidence && retries < 2
  }

  /** The status a node leaves Phase 3 with, once its agent was called. */
  function CalledResult(o: Outcome, retries: nat): Status {
    if o.LlmError? || o.PostError? || (o.Done? && o.lateError) then Failed
    else if Retried(o, retries) then Pending
    else Completed
  }

  lemma FinishOwn(s: State, agents: set<Id>, id: Id, o: Outcome)
    requires s.st.Keys == Ids(s.specs) && id in s.st && !s.paused && Finishes(agents, id, o)
    ensures var t := Finish(s, agents, id, o);
            && id in t.st && t.st[id] == CalledResult(o, s.Retries(id))
            && t.Retries(id) == s.Retries(id) + if Retried(o, s.Retries(id)) then 1 else 0
  {
    hide AfterFailure, Ids;
    AfterFailureAt(s.specs, s.st, id, id);
    if o.Done? {
      var t := AfterReflection(s.Set(id, Completed), id, o.reflection);
      assert id in t.st;
      AfterFailureAt(t.specs, t.st, id, id);
    }
  }

  lemma FinishRetries(s: State, agents: set<Id>, id: Id, o: Outcome, b: Id)
    requires b in Ids(s.specs) && b != id
    ensures Finish(s, agents, id, o).Retries(b) == s.Retries(b)
  {
    hide AfterFailure, Ids;
  }

  /** Phase 3 gives a called node its result on its own turn, and nothing before or after. */
  lemma {:induction false} FinishAllAt(s: State, agents: set<Id>, ids: seq<Id>, i: nat, oracle: Id -> Outcome, k: nat)
    requires InBatch(s, Elems(ids)) && NoDup(ids) && i <= |ids| && !s.paused && Called(s, agents, ids, oracle)
    requires k < |ids|
    ensures var t, o, r := FinishAll(s, agents, ids[..i], oracle), oracle(ids[k]), s.Retries(ids[k]);
            && ids[k] in t.st && ids[k] in s.st
            && (if k < i && Finishes(agents, ids[k], o)
                then t.st[ids[k]] == CalledResult(o, r) && t.Retries(ids[k]) == r + if Retried(o, r) then 1 else 0
                else t.st[ids[k]] == s.st[ids[k]] && t.Retries(ids[k]) == r)
    decreases i
  {
    hide InBatch, Finish, CalledResult, Retried, Finishes, Called;
    CalledIn(s, agents, ids, oracle, k);
    if i == 0 {
      assert ids[..0] == [];
    } else {
      FinishAllAt(s, agents, ids, i - 1, oracle, k);
      assert ids[..i][..i - 1] == ids[..i - 1];
      FinishAllKeeps(s, agents, ids, i - 1, oracle);
      var t := FinishAll(s, agents, ids[..i - 1], oracle);
      var id := ids[i - 1];
      BatchIn(t, Elems(ids));
      TurnIsCalled(s, t, agents, ids, i - 1, oracle);
      FinishKeeps(t, agents, Elems(ids), id, oracle(id));
      if k != i - 1 {
        FinishRetries(t, agents, id, oracle(id), ids[k]);
      } else if Finishes(agents, id, oracle(id)) {
        FinishOwn(t, agents, id, oracle(id));
      } else {
        NotFinished(t, agents, id, oracle(id));
      }
    }
  }

  lemma CalledIn(s: State, agents: set<Id>, ids: seq<Id>, oracle: Id -> Outcome, k: nat)
    requires Called(s, agents, ids, oracle) && k < |ids|
    ensures ids[k] in s.st
  {}

  /** A node whose turn has come has the status it was called with. */
  lemma TurnIsCalled(s: State, t: State, agents: set<Id>, ids: seq<Id>, i: nat, oracle: Id -> Outcome)
    requires Called(s, agents, ids, oracle) && KeptFrom(s, t, ids, i) && i < |ids| && !s.paused
    ensures ids[i] in t.st && (Finishes(agents, ids[i], oracle(ids[i])) ==> t.st[ids[i]] == oracle(ids[i]).AtCall())
  {}

  // ---------------------------------------------------------------- Retry counts before Phase 3

  lemma {:induction false} StartAllRetries(s: State, agents: set<Id>, ids: seq<Id>, oracle: Id -> Outcome)
    ensures StartAll(s, agents, ids, oracle).retries == s.retries
    ensures StartAll(s, agents, ids, oracle).specs == s.specs && StartAll(s, agents, ids, oracle).replans == s.replans
  {
    hide AfterFailure;
    if ids != [] {
      StartAllRetries(s, agents, ids[..|ids| - 1], oracle);
    }
  }

  lemma {:induction false} GateAllRetries(s: State, agents: set<Id>, ids: seq<Id>, oracle: Id -> Outcome)
    ensures GateAll(s, agents, ids, oracle).retries == s.retries
    ensures GateAll(s, agents, ids, oracle).specs == s.specs && GateAll(s, agents, ids, oracle).replans == s.replans
  {
    hide AfterFailure;
    if ids != [] {
      GateAllRetries(s, agents, ids[..|ids| - 1], oracle);
    }
  }

  lemma GateChangesNoCount(s: State, agents: set<Id>, oracle: Id -> Outcome)
    ensures AfterGate(s, agents, oracle).retries == s.retries
    ensures AfterGate(s, agents, oracle).specs == s.specs && AfterGate(s, agents, oracle).replans == s.replans
  {
    hide StartAll, GateAll, ReadyIds, GateOrder;
    StartAllRetries(s, agents, ReadyIds(s.specs, s.st), oracle);
    GateAllRetries(AfterStart(s, agents, oracle), agents, GateOrder(ReadyIds(s.specs, s.st), oracle), oracle);
  }

  // ---------------------------------------------------------------- An iteration

  /** The status of every ready node after an iteration that is not paused. */
  lemma IterateExact(s: State, agents: set<Id>, oracle: Id -> Outcome, x: Id)
    requires Boundary(s) && !s.paused && !Iterate(s, agents, oracle).paused && x in ReadyIds(s.specs, s.st)
    ensures var t, o := Iterate(s, agents, oracle), oracle(x);
            && x in t.st
            && (x !in agents ==> t.st[x].Failed?)
            && (x in agents ==>
                  && !o.ApprovalPending?
                  && (o.BudgetExhausted? || o.ApprovalDenied? || o.LlmError? || o.PostError? ==> t.st[x].Failed?)
                  && (o.PolicyDenied? ==> t.st[x].Running?)
                  && (o.Done? && o.lateError ==> t.st[x].Failed?)
                  && (o.Done? && !o.lateError && !o.reflection.RetryTask? ==> t.st[x].Completed?)
                  && (o.Done? && !o.lateError && o.reflection.RetryTask? ==>
                        t.st[x] == if o.reflection.lowConfidence && s.Retries(x) < 2 then Pending else Completed))
  {
    IterateCalled(s, agents, oracle, x);
    hide Boundary, ReadyIds, Iterate, AfterGate, GateOrder;
    IteratePaused(s, agents, oracle);
    GateExact(s, agents, oracle);
    var k := GatePlace(s, oracle, x);
  }

  /** A node whose agent was called has Phase 3's result, every other ready node
      that of the gate. */
  lemma IterateCalled(s: State, agents: set<Id>, oracle: Id -> Outcome, x: Id)
    requires Boundary(s) && !s.paused && !Iterate(s, agents, oracle).paused && x in ReadyIds(s.specs, s.st)
    ensures var t, u := Iterate(s, agents, oracle), AfterGate(s, agents, oracle);
            && x in t.st && x in u.st
            && (if Finishes(agents, x, oracle(x))
                then t.st[x] == CalledResult(oracle(x), s.Retries(x))
                     && t.Retries(x) == s.Retries(x) + if Retried(oracle(x), s.Retries(x)) then 1 else 0
                else t.st[x] == u.st[x] && t.Retries(x) == s.Retries(x))
  {
    hide Boundary, ReadyIds, AfterGate, AfterStart, FinishAll, InBatch, GateOrder, Begun, Launched, Called;
    hide CalledResult, Retried, Finishes;
    var ready, u := ReadyIds(s.specs, s.st), AfterGate(s, agents, oracle);
    StartPhaseDone(s, agents, oracle);
    GatePhaseDone(s, agents, oracle);
    IteratePaused(s, agents, oracle);
    GateChangesNoCount(s, agents, oracle);
    BatchIn(u, Elems(ready));
    var k :| 0 <= k < |ready| && ready[k] == x;
    FinishAllAt(u, agents, ready, |ready|, oracle, k);
  }

  /** A retry is counted, and nothing else is: no node is sent back a third time. */
  lemma RetriesExact(s: State, agents: set<Id>, oracle: Id -> Outcome, x: Id)
    requires Boundary(s) && !s.paused && !Iterate(s, agents, oracle).paused && x in ReadyIds(s.specs, s.st)
    ensures Iterate(s, agents, oracle).Retries(x)
         == s.Retries(x) + if x in agents && Retried(oracle(x), s.Retries(x)) then 1 else 0
  {
    hide Boundary, ReadyIds, AfterGate, Iterate;
    IterateCalled(s, agents, oracle, x);
  }

  // ---------------------------------------------------------------- Replans

  predicate AsksReplan(agents: set<Id>, id: Id, o: Outcome) {
    id in agents && o.Done? && o.reflection.Replan?
  }

  /** t's declarations are those of s and, after them, one alternative each for some
      nodes of the batch that asked for one: same dependencies, PENDING. */
  ghost predicate OnlyAlternatives(s: State, t: State, agents: set<Id>, ids: seq<Id>, oracle: Id -> Outcome) {
    s.specs <= t.specs
    && forall j :: |s.specs| <= j < |t.specs| ==> Requested(s, t, agents, ids, oracle, t.specs[j])
  }

  ghost predicate Requested(s: State, t: State, agents: set<Id>, ids: seq<Id>, oracle: Id -> Outcome, spec: Spec) {
    exists x :: x in ids && AsksReplan(agents, x, oracle(x)) && IsAlternative(s, t, spec, x)
  }

  ghost predicate IsAlternative(s: State, t: State, spec: Spec, x: Id) {
    spec == Spec(AltId(x), DepsOf(s.specs, x)) && AltId(x) in t.st && t.st[AltId(x)].Pending?
  }

  /** Each addition is counted, up to three; below that every request was met. */
  ghost predicate ReplansCounted(s: State, t: State, agents: set<Id>, ids: seq<Id>, oracle: Id -> Outcome) {
    t.replans == s.replans + |t.specs| - |s.specs|
    && (|t.specs| > |s.specs| ==> t.replans <= 3)
    && (t.replans < 3 ==> forall x :: x in ids && AsksReplan(agents, x, oracle(x)) ==> AltId(x) in Ids(t.specs))
  }

  lemma {:induction false} DepsExtend(specs: seq<Spec>, more: seq<Spec>, c: Id)
    requires specs <= more && Unique(more) && c in Ids(specs)
    ensures DepsOf(more, c) == DepsOf(specs, c)
    decreases |more|
  {
    var i :| 0 <= i < |specs| && specs[i].id == c;
    assert more[i] == specs[i];
    assert Unique(specs);
    UniqueDeps(specs, i);
    UniqueDeps(more, i);
  }

  /** An alternative still waits: its dependencies are those of a batch node. */
  lemma AlternativeWaits(t: State, batch: set<Id>, alt: Id, x: Id)
    requires InBatch(t, batch) && x in batch && x in t.st && alt in t.st && DepsOf(t.specs, alt) == DepsOf(t.specs, x)
    ensures !t.st[alt].Skipped?
  {
    hide DepsOf, Acyclic;
    assert DepsMet(t.specs, t.st, x);
  }

  lemma FinishSpecs(s: State, agents: set<Id>, id: Id, o: Outcome)
    requires !s.paused && Finishes(agents, id, o)
    ensures var t := Finish(s, agents, id, o);
            if AsksReplan(agents, id, o) && s.replans < 3 && AltId(id) !in Ids(s.specs)
            then t.specs == s.specs + [Spec(AltId(id), DepsOf(s.specs, id))] && t.replans == s.replans + 1
                 && AltId(id) in t.st
            else t.specs == s.specs && t.replans == s.replans
  {
    hide AfterFailure, Ids, DepsOf;
  }

  /** What a later step leaves of an alternative: it stays PENDING. */
  lemma AlternativeStays(s: State, t: State, agents: set<Id>, batch: set<Id>, id: Id, o: Outcome, j: nat, x: Id)
    requires InBatch(t, batch) && InBatch(Finish(t, agents, id, o), batch) && id in batch && x in batch
    requires batch <= Ids(s.specs) && s.specs <= t.specs && |s.specs| <= j < |t.specs|
    requires t.specs <= Finish(t, agents, id, o).specs && IsAlternative(s, t, t.specs[j], x)
    ensures IsAlternative(s, Finish(t, agents, id, o), Finish(t, agents, id, o).specs[j], x)
  {
    var u := Finish(t, agents, id, o);
    var alt := AltId(x);
    assert t.specs[j] == u.specs[j];
    NewIdDiffers(s.specs, t.specs, j, id);
    BatchIn(t, batch);
    BatchIn(u, batch);
    hide Finish, Boundary, DepsMet, DepsOutside, AltId, DepsOf, Ids;
    FinishLeaves(t, agents, id, o, alt);
    BoundaryUnique(u);
    UniqueDeps(u.specs, j);
    DepsExtend(s.specs, u.specs, x);
    AlternativeWaits(u, batch, alt, x);
  }

  lemma BoundaryUnique(s: State)
    requires Boundary(s)
    ensures Unique(s.specs)
  {}

  lemma NewIdDiffers(specs: seq<Spec>, more: seq<Spec>, j: nat, id: Id)
    requires specs <= more && |specs| <= j < |more| && id in Ids(specs) && Unique(more)
    ensures more[j].id != id
  {
    var i :| 0 <= i < |specs| && specs[i].id == id;
    assert more[i] == specs[i];
  }

  lemma {:induction false} FinishAllReplans(s: State, agents: set<Id>, ids: seq<Id>, i: nat, oracle: Id -> Outcome)
    requires InBatch(s, Elems(ids)) && NoDup(ids) && i <= |ids| && !s.paused && Called(s, agents, ids, oracle)
    ensures OnlyAlternatives(s, FinishAll(s, agents, ids[..i], oracle), agents, ids, oracle)
    ensures ReplansCounted(s, FinishAll(s, agents, ids[..i], oracle), agents, ids[..i], oracle)
    decreases i
  {
    hide InBatch, Finish;
    if i == 0 {
      assert ids[..0] == [];
    } else {
      FinishAllReplans(s, agents, ids, i - 1, oracle);
      assert ids[..i][..i - 1] == ids[..i - 1] && ids[..i] == ids[..i - 1] + [ids[i - 1]];
      FinishAllKeeps(s, agents, ids, i - 1, oracle);
      FinishAllKeeps(s, agents, ids, i, oracle);
      BatchIn(s, Elems(ids));
      OneReplan(s, FinishAll(s, agents, ids[..i - 1], oracle), agents, ids, i - 1, oracle);
    }
  }

  lemma OneReplan(s: State, t: State, agents: set<Id>, ids: seq<Id>, i: nat, oracle: Id -> Outcome)
    requires i < |ids| && Elems(ids) <= Ids(s.specs) && !t.paused
    requires InBatch(t, Elems(ids)) && InBatch(Finish(t, agents, ids[i], oracle(ids[i])), Elems(ids))
    requires OnlyAlternatives(s, t, agents, ids, oracle) && ReplansCounted(s, t, agents, ids[..i], oracle)
    ensures OnlyAlternatives(s, Finish(t, agents, ids[i], oracle(ids[i])), agents, ids, oracle)
    ensures ReplansCounted(s, Finish(t, agents, ids[i], oracle(ids[i])), agents, ids[..i] + [ids[i]], oracle)
  {
    hide InBatch, Finish, DepsOf, AltId, Ids, AsksReplan, IsAlternative;
    var id, o := ids[i], oracle(ids[i]);
    var u := Finish(t, agents, id, o);
    assert id in Elems(ids);
    if Finishes(agents, id, o) {
      FinishSpecs(t, agents, id, o);
    } else {
      NotFinished(t, agents, id, o);
    }
    assert t.specs <= u.specs;
    forall j | |s.specs| <= j < |u.specs|
      ensures Requested(s, u, agents, ids, oracle, u.specs[j])
    {
      if j < |t.specs| {
        assert Requested(s, t, agents, ids, oracle, t.specs[j]);
        var x :| x in ids && AsksReplan(agents, x, oracle(x)) && IsAlternative(s, t, t.specs[j], x);
        AlternativeStays(s, t, agents, Elems(ids), id, o, j, x);
      } else {
        NewAlternative(s, t, agents, Elems(ids), id, o);
      }
    }
    IdsGrow(t.specs, u.specs);
    if AsksReplan(agents, id, o) {
      AskingFinishes(agents, id, o);
    }
  }

  lemma NotFinished(s: State, agents: set<Id>, id: Id, o: Outcome)
    requires !Finishes(agents, id, o)
    ensures Finish(s, agents, id, o) == s && !AsksReplan(agents, id, o)
  {}

  lemma AskingFinishes(agents: set<Id>, id: Id, o: Outcome)
    requires AsksReplan(agents, id, o)
    ensures Finishes(agents, id, o)
  {}

  lemma IdsGrow(specs: seq<Spec>, more: seq<Spec>)
    requires specs <= more
    ensures Ids(specs) <= Ids(more)
    ensures forall s :: more == specs + [s] ==> s.id in Ids(more)
  {
    forall x | x in Ids(specs)
      ensures x in Ids(more)
    {
      var i :| 0 <= i < |specs| && specs[i].id == x;
      assert more[i] == specs[i];
    }
  }

  lemma NewAlternative(s: State, t: State, agents: set<Id>, batch: set<Id>, id: Id, o: Outcome)
    requires InBatch(t, batch) && InBatch(Finish(t, agents, id, o), batch) && id in batch && !t.paused
    requires batch <= Ids(s.specs) && s.specs <= t.specs && |Finish(t, agents, id, o).specs| > |t.specs|
    ensures AsksReplan(agents, id, o) && |Finish(t, agents, id, o).specs| == |t.specs| + 1
    ensures IsAlternative(s, Finish(t, agents, id, o), Finish(t, agents, id, o).specs[|t.specs|], id)
  {
    var u := Finish(t, agents, id, o);
    var j := |t.specs|;
    BatchIn(t, batch);
    BatchIn(u, batch);
    if Finishes(agents, id, o) {
      FinishSpecs(t, agents, id, o);
      NewIsPending(t, agents, id, o);
    } else {
      NotFinished(t, agents, id, o);
    }
    hide Finish, Boundary, DepsMet, DepsOutside, AltId, DepsOf, Ids;
    BoundaryUnique(t);
    BoundaryUnique(u);
    DepsExtend(s.specs, t.specs, id);
    DepsExtend(s.specs, u.specs, id);
    UniqueDeps(u.specs, j);
    AlternativeWaits(u, batch, AltId(id), id);
  }

  lemma NewIsPending(t: State, agents: set<Id>, id: Id, o: Outcome)
    requires t.st.Keys == Ids(t.specs) && id in t.st && !t.paused && Finishes(agents, id, o)
    requires AsksReplan(agents, id, o) && t.replans < 3 && AltId(id) !in Ids(t.specs)
    ensures AltId(id) in Finish(t, agents, id, o).st
    ensures Finish(t, agents, id, o).st[AltId(id)].Pending? || Finish(t, agents, id, o).st[AltId(id)].Skipped?
  {
    hide AfterFailure, Ids;
    var v := AfterReflection(t.Set(id, Completed), id, o.reflection);
    AfterFailureAt(v.specs, v.st, id, AltId(id));
  }

  /** The only nodes an iteration adds are alternatives of nodes that asked for a
      replan, with their dependencies and PENDING; every request is met until three
      have been counted, unless the alternative was there. */
  lemma ReplansExact(s: State, agents: set<Id>, oracle: Id -> Outcome)
    requires Boundary(s) && !s.paused && !Iterate(s, agents, oracle).paused
    ensures OnlyAlternatives(s, Iterate(s, agents, oracle), agents, ReadyIds(s.specs, s.st), oracle)
    ensures ReplansCounted(s, Iterate(s, agents, oracle), agents, ReadyIds(s.specs, s.st), oracle)
  {
    hide Boundary, ReadyIds, AfterGate, AfterStart, FinishAll, InBatch, GateOrder, Begun, Launched, Called,
      IsAlternative;
    var ready, u := ReadyIds(s.specs, s.st), AfterGate(s, agents, oracle);
    StartPhaseDone(s, agents, oracle);
    GatePhaseDone(s, agents, oracle);
    IteratePaused(s, agents, oracle);
    GateChangesNoCount(s, agents, oracle);
    FinishAllReplans(u, agents, ready, |ready|, oracle);
    SameSpecs(u, s, Iterate(s, agents, oracle), agents, ready, oracle);
  }

  lemma SameSpecs(u: State, s: State, t: State, agents: set<Id>, ids: seq<Id>, oracle: Id -> Outcome)
    requires u.specs == s.specs && OnlyAlternatives(u, t, agents, ids, oracle)
    ensures OnlyAlternatives(s, t, agents, ids, oracle)
  {
    forall j | |s.specs| <= j < |t.specs|
      ensures Requested(s, t, agents, ids, oracle, t.specs[j])
    {
      assert Requested(u, t, agents, ids, oracle, t.specs[j]);
      var x :| x in ids && AsksReplan(agents, x, oracle(x)) && IsAlternative(u, t, t.specs[j], x);
      assert IsAlternative(s, t, t.specs[j], x);
    }
  }

  // ---------------------------------------------------------------- Alternatives and the agent table

  /** Every task succeeds and is accepted. */
  const ACCEPT_ALL: Id -> Outcome := _ => Done(false, false, Accept, false)

  lemma AcceptAllNotPaused(s: State, agents: set<Id>)
    requires Boundary(s) && !s.paused
    ensures !Iterate(s, agents, ACCEPT_ALL).paused
  {
    hide Boundary, ReadyIds, Iterate, AfterGate, GateOrder;
    IteratePaused(s, agents, ACCEPT_ALL);
    GateExact(s, agents, ACCEPT_ALL);
    NothingHolds(agents, GateOrder(ReadyIds(s.specs, s.st), ACCEPT_ALL), ACCEPT_ALL);
  }

  ghost predicate FailsNext(s: State, agents: set<Id>, oracle: Id -> Outcome, x: Id) {
    var t := Iterate(s, agents, oracle);
    x in t.st && t.st[x].Failed?
  }

  /** A ready alternative is bound to fail in the next iteration if, and only if, the
      agent table has no entry for it, and a replan makes none. */
  lemma AlternativeFailsIff(s: State, agents: set<Id>, alt: Id)
    requires Boundary(s) && !s.paused && alt in ReadyIds(s.specs, s.st)
    ensures (forall oracle: Id -> Outcome :: FailsNext(s, agents, oracle, alt)) <==> alt !in agents
  {
    hide Boundary, ReadyIds, Iterate;
    if alt in agents {
      AcceptAllNotPaused(s, agents);
      IterateExact(s, agents, ACCEPT_ALL, alt);
      assert !FailsNext(s, agents, ACCEPT_ALL, alt);
    } else {
      forall oracle: Id -> Outcome
        ensures FailsNext(s, agents, oracle, alt)
      {
        AlternativeWithoutAgentFails(s, agents, oracle, alt);
      }
    }
  }
}
