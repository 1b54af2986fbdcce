/** One iteration of the scheduler's main loop as a function of the DAG state and
    of what happens to each ready node (backend/app/orchestration/scheduler.py:265-941
    and 1146-1348, backend/app/intelligence/dynamic_replanner.py,
    backend/app/intelligence/self_correction.py). */
module Schedule {
  import opened Prelude
  import opened Graph
  import opened GraphTheorems
  import opened Statuses

  const MAX_RETRIES_PER_TASK: nat := 2
  const MAX_REPLANS_PER_WORKFLOW: nat := 3

  /** What the reflection engine asks for after a task completed. Abort and
      unknown actions leave the DAG alone, as accept does. */
  datatype Reflection = Accept | RetryTask(lowConfidence: bool) | Replan | OtherAction

  /** What happens to one ready node in one iteration. A cleared node met the
      approval gate without a recorded decision and was let through: the gate has
      reset it to PENDING by then. An escalated node is sent to the gate by a
      policy, not by its capability, and comes after those. An error raised after
      the reflection (lateError) still ends in the failure handler. */
  datatype Outcome =
    | BudgetExhausted
    | PolicyDenied
    | ApprovalDenied(escalated: bool)
    | ApprovalPending(escalated: bool)
    | LlmError(cleared: bool, escalated: bool)
    | PostError(cleared: bool, escalated: bool)
    | Done(cleared: bool, escalated: bool, reflection: Reflection, lateError: bool)
  {
    predicate Runs() { LlmError? || PostError? || Done? }

    predicate Cleared() { Runs() && cleared }

    predicate Escalated() { (ApprovalDenied? || ApprovalPending? || Runs()) && escalated }

    /** The status of a node whose agent is called. */
    function AtCall(): Status { if Cleared() then Pending else Running }
  }

  datatype State = State(
    specs: seq<Spec>,
    st: StatusMap,
    retries: map<Id, nat>,  // retry_count of the node's task row
    replans: nat,
    paused: bool)
  {
    function Retries(id: Id): nat { if id in retries then retries[id] else 0 }

    function Set(id: Id, s: Status): State { this.(st := st[id := s]) }

    ghost function Fail(id: Id): State { this.(st := AfterFailure(specs, st, id)) }
  }

  function AltId(id: Id): Id { id + "_alt" }

  /** The retry branch: SelfCorrectionEngine.evaluate decides. */
  function AfterRetry(s: State, id: Id, lowConfidence: bool): State {
    if s.Retries(id) >= MAX_RETRIES_PER_TASK || !lowConfidence then s
    else s.Set(id, Pending).(retries := s.retries[id := s.Retries(id) + 1])
  }

  /** The replan branch: an alternative node with the same dependencies. */
  function AfterReplan(s: State, id: Id): State {
    if s.replans >= MAX_REPLANS_PER_WORKFLOW || AltId(id) in Ids(s.specs) then s
    else s.(specs := s.specs + [Spec(AltId(id), DepsOf(s.specs, id))],
            st := s.st[AltId(id) := Pending],
            retries := s.retries[AltId(id) := 0],
            replans := s.replans + 1)
  }

  function AfterReflection(s: State, id: Id, r: Reflection): State {
    match r
    case RetryTask(low) => AfterRetry(s, id, low)
    case Replan => AfterReplan(s, id)
    case _ => s
  }

  predicate Starts(agents: set<Id>, id: Id, o: Outcome) {
    id in agents && !o.BudgetExhausted?
  }

  /** Phase 1: no agent or no budget fails the node, otherwise it runs. */
  ghost function Start(s: State, agents: set<Id>, id: Id, o: Outcome): State {
    if Starts(agents, id, o) then s.Set(id, Running) else s.Fail(id)
  }

  /** Phase 1.5: a denied approval fails the node; without a decision it is reset,
      and a pending approval then leaves the loop. A policy denial only drops the
      node from this batch. */
  ghost function Gate(s: State, agents: set<Id>, id: Id, o: Outcome): State {
    if s.paused || !Starts(agents, id, o) then s
    else if o.ApprovalDenied? then s.Fail(id)
    else if o.ApprovalPending? then s.Set(id, Pending).(paused := true)
    else if o.Cleared() then s.Set(id, Pending)
    else s
  }

  predicate Finishes(agents: set<Id>, id: Id, o: Outcome) {
    id in agents && o.Runs()
  }

  /** Phase 3: an error fails the node; otherwise it completes and is reflected on. */
  ghost function Finish(s: State, agents: set<Id>, id: Id, o: Outcome): State {
    if s.paused || !Finishes(agents, id, o) then s
    else if o.LlmError? || o.PostError? then s.Fail(id)
    else
      var t := AfterReflection(s.Set(id, Completed), id, o.reflection);
      if o.lateError then t.Fail(id) else t
  }

  ghost function StartAll(s: State, agents: set<Id>, ids: seq<Id>, oracle: Id -> Outcome): State {
    if ids == [] then s
    else
      var last := ids[|ids| - 1];
      Start(StartAll(s, agents, ids[..|ids| - 1], oracle), agents, last, oracle(last))
  }

  ghost function GateAll(s: State, agents: set<Id>, ids: seq<Id>, oracle: Id -> Outcome): State {
    if ids == [] then s
    else
      var last := ids[|ids| - 1];
      Gate(GateAll(s, agents, ids[..|ids| - 1], oracle), agents, last, oracle(last))
  }

  ghost function FinishAll(s: State, agents: set<Id>, ids: seq<Id>, oracle: Id -> Outcome): State {
    if ids == [] then s
    else
      var last := ids[|ids| - 1];
      Finish(FinishAll(s, agents, ids[..|ids| - 1], oracle), agents, last, oracle(last))
  }

  function Turns(ids: seq<Id>, oracle: Id -> Outcome, escalated: bool): seq<Id> {
    if ids == [] then []
    else
      var last := ids[|ids| - 1];
      Turns(ids[..|ids| - 1], oracle, escalated) + if oracle(last).Escalated() == escalated then [last] else []
  }

  /** The order in which the approval gate looks at a batch: the nodes a policy
      escalated come last. Nodes that need no approval pass it unchanged. */
  function GateOrder(ids: seq<Id>, oracle: Id -> Outcome): seq<Id> {
    Turns(ids, oracle, false) + Turns(ids, oracle, true)
  }

  /** The state after Phase 1. */
  ghost function AfterStart(s: State, agents: set<Id>, oracle: Id -> Outcome): State {
    StartAll(s, agents, ReadyIds(s.specs, s.st), oracle)
  }

  /** The state after Phase 1.5. */
  ghost function AfterGate(s: State, agents: set<Id>, oracle: Id -> Outcome): State {
    GateAll(AfterStart(s, agents, oracle), agents, GateOrder(ReadyIds(s.specs, s.st), oracle), oracle)
  }

  /** One turn of `while not dag.is_complete` with a non-empty ready list. */
  ghost function Iterate(s: State, agents: set<Id>, oracle: Id -> Outcome): State {
    FinishAll(AfterGate(s, agents, oracle), agents, ReadyIds(s.specs, s.st), oracle)
  }

  // ---------------------------------------------------------------- Invariants

  /** What holds at every iteration boundary of every run. */
  ghost predicate Boundary(s: State) {
    Sound(s.specs, s.st) && StartedHasDeps(s.specs, s.st) && SkippedExact(s.specs, s.st)
  }

  /** What holds inside an iteration over `batch`: besides the boundary facts, the
      batch's dependencies are completed and outside it, and nothing below it has
      started. */
  ghost predicate InBatch(s: State, batch: set<Id>) {
    Boundary(s) && batch <= Ids(s.specs)
    && (forall b :: b in batch ==> DepsMet(s.specs, s.st, b) && DepsOutside(s.specs, b, batch))
    && forall c :: c in s.st && !DepsOutside(s.specs, c, batch) ==> !Started(s.st[c])
  }

  ghost predicate DepsOutside(specs: seq<Spec>, c: Id, batch: set<Id>) {
    forall d :: d in DepsOf(specs, c) ==> d !in batch
  }

  lemma BatchStart(s: State)
    requires Boundary(s)
    ensures InBatch(s, Elems(ReadyIds(s.specs, s.st)))
  {
    hide Acyclic, Order, DepsOf, ReadyIn, Ids;
    var ready := ReadyIds(s.specs, s.st);
    var batch := Elems(ready);
    forall b | b in batch
      ensures DepsMet(s.specs, s.st, b) && DepsOutside(s.specs, b, batch)
    {
      assert IsReady(s.specs, s.st, b);
    }
    forall c | c in s.st && !DepsOutside(s.specs, c, batch)
      ensures !Started(s.st[c])
    {
      var d :| d in DepsOf(s.specs, c) && d in batch;
      assert d in ready;
    }
  }

  /** Assigning a status that is neither lost nor unstarted-from-lost to a batch
      node keeps every fact. */
  lemma SetKeeps(s: State, batch: set<Id>, id: Id, x: Status)
    requires InBatch(s, batch) && id in batch && id in s.st && !Lost(s.st[id]) && !Lost(x)
    ensures InBatch(s.Set(id, x), batch)
  {
    hide Acyclic, DepsOf, Ids, Closed, Unique;
    var t := s.Set(id, x);
    assert t.st.Keys == s.st.Keys;
    forall c | c in t.st && c != id && DepsMet(s.specs, s.st, c) && DepsOutside(s.specs, c, batch)
      ensures DepsMet(s.specs, t.st, c)
    {}
    forall c | c in t.st && Started(t.st[c])
      ensures DepsMet(t.specs, t.st, c)
    {
      assert c != id ==> Started(s.st[c]) && DepsOutside(s.specs, c, batch);
    }
    forall c | c in t.st
      ensures HasLostDep(t.specs, t.st, c) <==> HasLostDep(s.specs, s.st, c)
    {}
    NotSkippedItself(s, id);
  }

  /** A node with completed dependencies has no lost one. */
  lemma NotSkippedItself(s: State, id: Id)
    requires id in s.st && DepsMet(s.specs, s.st, id)
    ensures !HasLostDep(s.specs, s.st, id)
  {
    hide DepsOf;
  }

  /** Failing a batch node touches no other batch node. */
  lemma FailFrame(s: State, batch: set<Id>, id: Id, b: Id)
    requires InBatch(s, batch) && id in batch && b in batch && b != id && id in s.st && b in s.st
    ensures s.Fail(id).st[b] == s.st[b]
  {
    hide Acyclic, DepsOf, Ids, Closed, ChildrenOf, SkipSet, AfterFailure;
    AfterFailureAt(s.specs, s.st, id, b);
    var st1 := s.st[id := Failed];
    if b in SkipSet(s.specs, st1, id) {
      var y := CascadeParent(s.specs, st1, id, b);
      UniqueConsistent(s.specs);
      ChildIffEdge(s.specs, y, b);
      SkipSetWaits(s.specs, st1, id, y);
    }
  }

  lemma SkipSetWaits(specs: seq<Spec>, st: StatusMap, id: Id, y: Id)
    ensures y in SkipSet(specs, st, id) ==> y in st && Waiting(st[y])
  {
    hide SkipSet, ChildrenOf;
    if y in SkipSet(specs, st, id) {
      var z := CascadeParent(specs, st, id, y);
    }
  }

  /** Completed dependencies of another node stay completed when a batch node fails. */
  lemma FailKeepsDeps(s: State, batch: set<Id>, id: Id, c: Id)
    requires InBatch(s, batch) && id in batch && id in s.st
    requires DepsMet(s.specs, s.st, c) && DepsOutside(s.specs, c, batch)
    ensures DepsMet(s.specs, s.Fail(id).st, c)
  {
    hide Acyclic, DepsOf, Ids, Closed, ChildrenOf, SkipSet, AfterFailure, StartedHasDeps, SkippedExact;
    forall d | d in DepsOf(s.specs, c)
      ensures d in s.Fail(id).st && s.Fail(id).st[d].Completed?
    {
      assert d in s.st && s.st[d].Completed?;
      AfterFailureAt(s.specs, s.st, id, d);
    }
  }

  /** The skipped nodes after a failure are exactly those with a lost dependency. */
  lemma FailSkips(s: State, batch: set<Id>, id: Id, c: Id)
    requires InBatch(s, batch) && id in batch && id in s.st && !Lost(s.st[id]) && c in s.st
    ensures s.Fail(id).st[c].Skipped? <==> HasLostDep(s.specs, s.Fail(id).st, c)
  {
    hide Acyclic, DepsOf, Ids, Closed, ChildrenOf, SkipSet, AfterFailure;
    var after, st1 := s.Fail(id).st, s.st[id := Failed];
    AfterFailureAt(s.specs, s.st, id, c);
    if after[c].Skipped? {
      if c in SkipSet(s.specs, st1, id) {
        var y := CascadeParent(s.specs, st1, id, c);
        UniqueConsistent(s.specs);
        ChildIffEdge(s.specs, y, c);
        SkipSetWaits(s.specs, st1, id, y);
        AfterFailureAt(s.specs, s.st, id, y);
      } else {
        var d :| d in DepsOf(s.specs, c) && d in s.st && Lost(s.st[d]);
        AfterFailureAt(s.specs, s.st, id, d);
        assert Lost(after[d]);
      }
    } else {
      forall d | d in DepsOf(s.specs, c) && d in after
        ensures !Lost(after[d])
      {
        if Lost(after[d]) {
          FailSkipsBelow(s, batch, id, c, d);
        }
      }
    }
  }

  lemma FailSkipsBelow(s: State, batch: set<Id>, id: Id, c: Id, d: Id)
    requires InBatch(s, batch) && id in batch && id in s.st && !Lost(s.st[id]) && c in s.st
    requires d in DepsOf(s.specs, c) && d in s.st && Lost(s.Fail(id).st[d])
    ensures s.Fail(id).st[c].Skipped?
  {
    hide Acyclic, DepsOf, Ids, Closed, ChildrenOf, SkipSet, AfterFailure;
    var st1 := s.st[id := Failed];
    AfterFailureAt(s.specs, s.st, id, c);
    AfterFailureAt(s.specs, s.st, id, d);
    SkipSetWaits(s.specs, st1, id, d);
    if d == id || d in SkipSet(s.specs, st1, id) {
      AfterFailureCatches(s.specs, s.st, id, d, c);
      assert c != id && !Started(s.st[c]);
    } else {
      assert HasLostDep(s.specs, s.st, c);
    }
  }

  lemma FailKeeps(s: State, batch: set<Id>, id: Id)
    requires InBatch(s, batch) && id in batch && id in s.st && !Lost(s.st[id])
    ensures InBatch(s.Fail(id), batch)
  {
    hide Acyclic, DepsOf, Ids, Closed, ChildrenOf, SkipSet, AfterFailure, Unique;
    var t := s.Fail(id);
    assert t.st.Keys == s.st.Keys;
    forall c | c in t.st
      ensures t.st[c].Skipped? <==> HasLostDep(t.specs, t.st, c)
      ensures Started(t.st[c]) ==> c == id || Started(s.st[c])
    {
      FailSkips(s, batch, id, c);
      AfterFailureAt(s.specs, s.st, id, c);
    }
    forall c | c in t.st && (c in batch || Started(t.st[c]))
      ensures DepsMet(t.specs, t.st, c)
    {
      FailKeepsDeps(s, batch, id, c);
    }
  }

  lemma RetryKeeps(s: State, batch: set<Id>, id: Id, low: bool)
    requires InBatch(s, batch) && id in batch && id in s.st && !Lost(s.st[id])
    ensures InBatch(AfterRetry(s, id, low), batch)
  {
    hide Boundary, DepsMet, DepsOutside;
    SetKeeps(s, batch, id, Pending);
    RetriesIrrelevant(s.Set(id, Pending), batch);
  }

  lemma RetriesIrrelevant(s: State, batch: set<Id>)
    requires InBatch(s, batch)
    ensures forall r, n, p :: InBatch(State(s.specs, s.st, r, n, p), batch)
  {}

  lemma ReplanKeeps(s: State, batch: set<Id>, id: Id)
    requires InBatch(s, batch) && id in batch && id in s.st
    ensures InBatch(AfterReplan(s, id), batch)
  {
    hide Acyclic, Ids, Closed, Unique, DepsOf;
    var t := AfterReplan(s, id);
    if t != s {
      var alt := AltId(id);
      var spec := Spec(alt, DepsOf(s.specs, id));
      ClosedDeps(s.specs, id);
      AddedNodeKeepsAcyclic(s.specs, spec);
      assert t.specs == s.specs + [spec] && t.st == s.st[alt := Pending];
      forall c | c in s.st
        ensures DepsOf(t.specs, c) == DepsOf(s.specs, c) && alt !in DepsOf(t.specs, c)
      {
        ClosedDeps(s.specs, c);
      }
      forall c | c in s.st
        ensures HasLostDep(t.specs, t.st, c) <==> HasLostDep(s.specs, s.st, c)
      {}
      NotSkippedItself(s, id);
      assert alt !in DepsOf(t.specs, alt);
      assert !HasLostDep(t.specs, t.st, alt);
    }
  }

  lemma ClosedDeps(specs: seq<Spec>, c: Id)
    requires Closed(specs) && c in Ids(specs)
    ensures forall d :: d in DepsOf(specs, c) ==> d in Ids(specs)
  {
    assert DepsKnown(specs, c);
  }

  // ---------------------------------------------------------------- The three phases

  /** In Phase 1 every batch node keeps its status until its own turn, and then
      runs or has failed. */
  ghost predicate Begun(s0: State, s: State, agents: set<Id>, ids: seq<Id>, i: nat, oracle: Id -> Outcome) {
    i <= |ids| && (forall k :: 0 <= k < |ids| ==> ids[k] in s.st && ids[k] in s0.st)
    && (forall k :: i <= k < |ids| ==> s.st[ids[k]] == s0.st[ids[k]])
    && forall k :: 0 <= k < i ==>
         s.st[ids[k]] == if Starts(agents, ids[k], oracle(ids[k])) then Running else Failed
  }

  lemma StartKeeps(s: State, agents: set<Id>, batch: set<Id>, id: Id, o: Outcome)
    requires InBatch(s, batch) && id in batch && id in s.st && Startable(s.st[id])
    ensures InBatch(Start(s, agents, id, o), batch)
    ensures forall b :: b in batch && b != id ==> b in s.st && Start(s, agents, id, o).st[b] == s.st[b]
  {
    hide Boundary, DepsMet, DepsOutside, AfterFailure;
    BatchIn(s, batch);
    if Starts(agents, id, o) {
      SetKeeps(s, batch, id, Running);
    } else {
      FailKeeps(s, batch, id);
      forall b | b in batch && b != id
        ensures s.Fail(id).st[b] == s.st[b]
      {
        FailFrame(s, batch, id, b);
      }
    }
  }

  lemma BatchIn(s: State, batch: set<Id>)
    requires InBatch(s, batch)
    ensures batch <= s.st.Keys == Ids(s.specs)
  {}

  lemma {:induction false} StartAllKeeps(s: State, agents: set<Id>, ids: seq<Id>, i: nat, oracle: Id -> Outcome)
    requires InBatch(s, Elems(ids)) && NoDup(ids) && i <= |ids|
    requires forall k :: 0 <= k < |ids| ==> ids[k] in s.st && Startable(s.st[ids[k]])
    ensures InBatch(StartAll(s, agents, ids[..i], oracle), Elems(ids))
    ensures Begun(s, StartAll(s, agents, ids[..i], oracle), agents, ids, i, oracle)
    decreases i
  {
    hide InBatch, Start;
    if i > 0 {
      StartAllKeeps(s, agents, ids, i - 1, oracle);
      assert ids[..i][..i - 1] == ids[..i - 1];
      var t := StartAll(s, agents, ids[..i - 1], oracle);
      var id := ids[i - 1];
      StartKeeps(t, agents, Elems(ids), id, oracle(id));
      StartOwn(t, agents, id, oracle(id));
      StartKeys(t, agents, id, oracle(id));
    }
  }

  lemma StartOwn(s: State, agents: set<Id>, id: Id, o: Outcome)
    requires id in s.st
    ensures Start(s, agents, id, o).st[id] == if Starts(agents, id, o) then Running else Failed
  {
    AfterFailureAt(s.specs, s.st, id, id);
  }

  lemma StartKeys(s: State, agents: set<Id>, id: Id, o: Outcome)
    requires id in s.st
    ensures Start(s, agents, id, o).st.Keys == s.st.Keys && Start(s, agents, id, o).specs == s.specs
  {}

  /** In Phases 1.5 and 3 every batch node keeps its status until its own turn. */
  ghost predicate KeptFrom(s0: State, s: State, ids: seq<Id>, i: nat) {
    i <= |ids| && (forall k :: 0 <= k < |ids| ==> ids[k] in s.st && ids[k] in s0.st)
    && forall k :: i <= k < |ids| ==> s.st[ids[k]] == s0.st[ids[k]]
  }

  /** After Phase 1: the nodes that start are RUNNING. */
  ghost predicate Launched(s: State, agents: set<Id>, ids: seq<Id>, oracle: Id -> Outcome) {
    forall k :: 0 <= k < |ids| ==>
      ids[k] in s.st && (Starts(agents, ids[k], oracle(ids[k])) ==> s.st[ids[k]].Running?)
  }

  /** After Phase 1.5, unless it paused: the nodes whose agents are called are at
      that point. */
  ghost predicate Called(s: State, agents: set<Id>, ids: seq<Id>, oracle: Id -> Outcome) {
    forall k :: 0 <= k < |ids| ==>
      ids[k] in s.st
      && (!s.paused && Finishes(agents, ids[k], oracle(ids[k])) ==> s.st[ids[k]] == oracle(ids[k]).AtCall())
  }

  lemma {:induction false} TurnsMembers(ids: seq<Id>, oracle: Id -> Outcome, escalated: bool)
    requires NoDup(ids)
    ensures NoDup(Turns(ids, oracle, escalated))
    ensures forall x :: x in Turns(ids, oracle, escalated) <==> x in ids && oracle(x).Escalated() == escalated
  {
    if ids != [] {
      var front, last := ids[..|ids| - 1], ids[|ids| - 1];
      assert ids == front + [last] && last !in front;
      TurnsMembers(front, oracle, escalated);
    }
  }

  /** The gate looks at every node of the batch once. */
  lemma GateOrderPermutes(ids: seq<Id>, oracle: Id -> Outcome)
    requires NoDup(ids)
    ensures NoDup(GateOrder(ids, oracle)) && Elems(GateOrder(ids, oracle)) == Elems(ids)
    ensures forall x :: x in GateOrder(ids, oracle) <==> x in ids
  {
    hide Turns;
    TurnsMembers(ids, oracle, false);
    TurnsMembers(ids, oracle, true);
    NoDupAppend(Turns(ids, oracle, false), Turns(ids, oracle, true));
  }

  lemma GateKeeps(s: State, agents: set<Id>, batch: set<Id>, id: Id, o: Outcome)
    requires InBatch(s, batch) && id in batch && id in s.st
    requires !s.paused && Starts(agents, id, o) ==> s.st[id].Running?
    ensures InBatch(Gate(s, agents, id, o), batch)
    ensures forall b :: b in batch && b != id ==> b in s.st && Gate(s, agents, id, o).st[b] == s.st[b]
  {
    hide Boundary, DepsMet, DepsOutside, AfterFailure;
    BatchIn(s, batch);
    if !s.paused && Starts(agents, id, o) {
      if o.ApprovalDenied? {
        FailKeeps(s, batch, id);
        forall b | b in batch && b != id
          ensures s.Fail(id).st[b] == s.st[b]
        {
          FailFrame(s, batch, id, b);
        }
      } else if o.ApprovalPending? {
        SetKeeps(s, batch, id, Pending);
        RetriesIrrelevant(s.Set(id, Pending), batch);
      } else if o.Cleared() {
        SetKeeps(s, batch, id, Pending);
      }
    }
  }

  lemma {:induction false} GateAllKeeps(s: State, agents: set<Id>, ids: seq<Id>, i: nat, oracle: Id -> Outcome)
    requires InBatch(s, Elems(ids)) && NoDup(ids) && i <= |ids| && !s.paused
    requires Launched(s, agents, ids, oracle)
    ensures InBatch(GateAll(s, agents, ids[..i], oracle), Elems(ids))
    ensures KeptFrom(s, GateAll(s, agents, ids[..i], oracle), ids, i)
    ensures var t := GateAll(s, agents, ids[..i], oracle);
            !t.paused ==> forall k :: 0 <= k < i && Finishes(agents, ids[k], oracle(ids[k])) ==>
              t.st[ids[k]] == oracle(ids[k]).AtCall()
    decreases i
  {
    hide InBatch;
    if i > 0 {
      GateAllKeeps(s, agents, ids, i - 1, oracle);
      assert ids[..i][..i - 1] == ids[..i - 1];
      var t := GateAll(s, agents, ids[..i - 1], oracle);
      var id := ids[i - 1];
      GateKeeps(t, agents, Elems(ids), id, oracle(id));
    }
  }

  lemma ReflectionKeeps(s: State, batch: set<Id>, id: Id, r: Reflection)
    requires InBatch(s, batch) && id in batch && id in s.st && s.st[id].Completed?
    ensures InBatch(AfterReflection(s, id, r), batch)
    ensures forall b :: b in batch && b != id ==> b in s.st && AfterReflection(s, id, r).st[b] == s.st[b]
    ensures id in AfterReflection(s, id, r).st && !Lost(AfterReflection(s, id, r).st[id])
  {
    hide Boundary, DepsMet, DepsOutside;
    BatchIn(s, batch);
    match r
    case RetryTask(low) => RetryKeeps(s, batch, id, low);
    case Replan => ReplanKeeps(s, batch, id);
    case _ =>
  }

  lemma FinishKeeps(s: State, agents: set<Id>, batch: set<Id>, id: Id, o: Outcome)
    requires InBatch(s, batch) && id in batch && id in s.st
    requires !s.paused && Finishes(agents, id, o) ==> s.st[id] == o.AtCall()
    ensures InBatch(Finish(s, agents, id, o), batch)
    ensures forall b :: b in batch && b != id ==>
      b in s.st && b in Finish(s, agents, id, o).st && Finish(s, agents, id, o).st[b] == s.st[b]
  {
    hide Boundary, DepsMet, DepsOutside, AfterFailure, AfterReflection;
    BatchIn(s, batch);
    if !s.paused && Finishes(agents, id, o) {
      if o.Done? {
        SetKeeps(s, batch, id, Completed);
        var c := s.Set(id, Completed);
        ReflectionKeeps(c, batch, id, o.reflection);
        var t := AfterReflection(c, id, o.reflection);
        BatchIn(t, batch);
        if o.lateError {
          FailInBatch(t, batch, id);
        }
      } else {
        FailInBatch(s, batch, id);
      }
    }
  }

  lemma FailInBatch(s: State, batch: set<Id>, id: Id)
    requires InBatch(s, batch) && id in batch && id in s.st && !Lost(s.st[id])
    ensures InBatch(s.Fail(id), batch)
    ensures forall b :: b in batch && b != id ==> b in s.st && s.Fail(id).st[b] == s.st[b]
  {
    hide Boundary, DepsMet, DepsOutside, AfterFailure;
    BatchIn(s, batch);
    FailKeeps(s, batch, id);
    forall b | b in batch && b != id
      ensures s.Fail(id).st[b] == s.st[b]
    {
      FailFrame(s, batch, id, b);
    }
  }

  lemma {:induction false} FinishAllKeeps(s: State, agents: set<Id>, ids: seq<Id>, i: nat, oracle: Id -> Outcome)
    requires InBatch(s, Elems(ids)) && NoDup(ids) && i <= |ids|
    requires Called(s, agents, ids, oracle)
    ensures InBatch(FinishAll(s, agents, ids[..i], oracle), Elems(ids))
    ensures KeptFrom(s, FinishAll(s, agents, ids[..i], oracle), ids, i)
    ensures FinishAll(s, agents, ids[..i], oracle).paused == s.paused
    decreases i
  {
    hide InBatch, AfterReflection, AfterFailure;
    if i > 0 {
      FinishAllKeeps(s, agents, ids, i - 1, oracle);
      assert ids[..i][..i - 1] == ids[..i - 1];
      var t := FinishAll(s, agents, ids[..i - 1], oracle);
      var id := ids[i - 1];
      FinishKeeps(t, agents, Elems(ids), id, oracle(id));
      FinishPaused(t, agents, id, oracle(id));
      assert InBatch(Finish(t, agents, id, oracle(id)), Elems(ids));
      BatchIn(Finish(t, agents, id, oracle(id)), Elems(ids));
    }
  }

  lemma FinishPaused(s: State, agents: set<Id>, id: Id, o: Outcome)
    ensures Finish(s, agents, id, o).paused == s.paused
  {}

  /** Where the phases of an iteration leave off. */
  lemma StartPhaseDone(s: State, agents: set<Id>, oracle: Id -> Outcome)
    requires Boundary(s) && !s.paused
    ensures var ready, s1 := ReadyIds(s.specs, s.st), AfterStart(s, agents, oracle);
            var gate := GateOrder(ready, oracle);
            && InBatch(s, Elems(ready)) && InBatch(s1, Elems(ready)) && !s1.paused
            && Begun(s, s1, agents, ready, |ready|, oracle)
            && Launched(s1, agents, ready, oracle) && Launched(s1, agents, gate, oracle)
            && NoDup(gate) && Elems(gate) == Elems(ready) && (forall x :: x in gate <==> x in ready)
            && ready[..|ready|] == ready && gate[..|gate|] == gate
  {
    hide Boundary, DepsMet, DepsOutside, ReadyIds, StartAll, IsReady, InBatch, GateOrder;
    var ready := ReadyIds(s.specs, s.st);
    BatchStart(s);
    BatchIn(s, Elems(ready));
    ReadyStartable(s);
    assert ready[..|ready|] == ready;
    StartAllKeeps(s, agents, ready, |ready|, oracle);
    StartAllPaused(s, agents, ready, oracle);
    GateOrderPermutes(ready, oracle);
    var gate := GateOrder(ready, oracle);
    LaunchedToo(AfterStart(s, agents, oracle), agents, ready, gate, oracle);
  }

  lemma LaunchedToo(s: State, agents: set<Id>, ids: seq<Id>, gate: seq<Id>, oracle: Id -> Outcome)
    requires Launched(s, agents, ids, oracle) && forall x :: x in gate ==> x in ids
    ensures Launched(s, agents, gate, oracle)
  {
    forall k | 0 <= k < |gate|
      ensures gate[k] in s.st && (Starts(agents, gate[k], oracle(gate[k])) ==> s.st[gate[k]].Running?)
    {
      assert gate[k] in gate;
      var j :| 0 <= j < |ids| && ids[j] == gate[k];
    }
  }

  lemma CalledToo(s: State, agents: set<Id>, gate: seq<Id>, ids: seq<Id>, oracle: Id -> Outcome)
    requires Called(s, agents, gate, oracle) && forall x :: x in ids ==> x in gate
    ensures Called(s, agents, ids, oracle)
  {
    forall k | 0 <= k < |ids|
      ensures ids[k] in s.st
      ensures !s.paused && Finishes(agents, ids[k], oracle(ids[k])) ==> s.st[ids[k]] == oracle(ids[k]).AtCall()
    {
      assert ids[k] in ids;
      var j :| 0 <= j < |gate| && gate[j] == ids[k];
    }
  }

  lemma GatePhaseDone(s: State, agents: set<Id>, oracle: Id -> Outcome)
    requires Boundary(s) && !s.paused
    ensures var ready, s2 := ReadyIds(s.specs, s.st), AfterGate(s, agents, oracle);
            && InBatch(s2, Elems(ready)) && Called(s2, agents, ready, oracle)
  {
    hide Boundary, ReadyIds, AfterStart, GateAll, InBatch, GateOrder, Launched, Begun, Starts;
    StartPhaseDone(s, agents, oracle);
    var ready := ReadyIds(s.specs, s.st);
    var gate := GateOrder(ready, oracle);
    GateAllKeeps(AfterStart(s, agents, oracle), agents, gate, |gate|, oracle);
    CalledToo(AfterGate(s, agents, oracle), agents, gate, ready, oracle);
  }

  /** Every iteration of every run keeps the invariant, whatever its nodes meet. */
  lemma IterateKeeps(s: State, agents: set<Id>, oracle: Id -> Outcome)
    requires Boundary(s) && !s.paused
    ensures Boundary(Iterate(s, agents, oracle))
  {
    hide Boundary, DepsMet, DepsOutside, ReadyIds, AfterGate, FinishAll, Called, GateOrder;
    StartPhaseDone(s, agents, oracle);
    GatePhaseDone(s, agents, oracle);
    var ready := ReadyIds(s.specs, s.st);
    FinishAllKeeps(AfterGate(s, agents, oracle), agents, ready, |ready|, oracle);
  }

  lemma ReadyStartable(s: State)
    ensures forall k :: 0 <= k < |ReadyIds(s.specs, s.st)| ==>
      ReadyIds(s.specs, s.st)[k] in s.st && Startable(s.st[ReadyIds(s.specs, s.st)[k]])
  {
    var ready := ReadyIds(s.specs, s.st);
    forall k | 0 <= k < |ready|
      ensures ready[k] in s.st && Startable(s.st[ready[k]])
    {
      assert ready[k] in ready;
    }
  }

  lemma {:induction false} StartAllPaused(s: State, agents: set<Id>, ids: seq<Id>, oracle: Id -> Outcome)
    ensures StartAll(s, agents, ids, oracle).paused == s.paused
  {
    if ids != [] {
      StartAllPaused(s, agents, ids[..|ids| - 1], oracle);
    }
  }
}
