/** The mutable workflow DAG (backend/app/orchestration/dag.py): node objects whose
    status is assigned in place, and two adjacency dicts kept beside them. */
module Dag {
  import opened Prelude
  import opened Graph
  import opened GraphTheorems
  import opened Statuses
  import opened CriticalPath

  class DagNode {
    const nodeId: Id
    const capability: string
    const dependsOn: seq<Id>
    var status: Status
    var output: Option<string>
    var error: Option<string>

    constructor (nodeId: Id, capability: string, dependsOn: seq<Id>, status: Status,
                 output: Option<string>, error: Option<string>)
      ensures this.nodeId == nodeId && this.capability == capability && this.dependsOn == dependsOn
      ensures this.status == status && this.output == output && this.error == error
    {
      this.nodeId := nodeId;
      this.capability := capability;
      this.dependsOn := dependsOn;
      this.status := status;
      this.output := output;
      this.error := error;
    }
  }

  datatype Text = Text(output: Option<string>, error: Option<string>)

  function SpecOf(n: DagNode): Spec {
    Spec(n.nodeId, n.dependsOn)
  }

  function SpecsOf(ns: seq<DagNode>): (r: seq<Spec>)
    ensures |r| == |ns| && forall i :: 0 <= i < |ns| ==> r[i] == SpecOf(ns[i])
  {
    seq(|ns|, i requires 0 <= i < |ns| => SpecOf(ns[i]))
  }

  /** {n.node_id: n for n in list}: the last node of an id wins. */
  ghost function LastNodes(list: seq<DagNode>): map<Id, DagNode> {
    if list == [] then map[]
    else LastNodes(list[..|list| - 1])[list[|list| - 1].nodeId := list[|list| - 1]]
  }

  lemma ListSnoc(list: seq<DagNode>, n: DagNode)
    ensures SpecsOf(list + [n]) == SpecsOf(list) + [SpecOf(n)]
    ensures LastNodes(list + [n]) == LastNodes(list)[n.nodeId := n]
    ensures Elems(list + [n]) == Elems(list) + {n}
  {
    assert (list + [n])[..|list|] == list;
  }

  // ---------------------------------------------------------------- Facts about lists and statuses

  lemma EdgesOf(specs: seq<Spec>, p: Id)
    requires Unique(specs)
    ensures forall c :: c in ChildrenOf(specs, p) <==> Edge(specs, p, c)
  {
    hide ChildrenOf, Edge;
    forall c
      ensures c in ChildrenOf(specs, p) <==> Edge(specs, p, c)
    {
      UniqueConsistent(specs);
      ChildIffEdge(specs, p, c);
    }
  }

  lemma PartialKeys(specs: seq<Spec>, order: seq<Id>, i: nat, done: seq<Id>, dist: Distances, pred: Predecessors)
    requires i < |order| && Partial(specs, order, i, done, dist, pred)
    ensures dist.Keys == pred.Keys == Ids(specs) && order[i] in dist
  {}

  lemma ProgressKeys(specs: seq<Spec>, order: seq<Id>, i: nat, dist: Distances, pred: Predecessors)
    requires Progress(specs, order, i, dist, pred)
    ensures dist.Keys == pred.Keys == Ids(specs)
  {}

  lemma OrderedAll(specs: seq<Spec>, order: seq<Id>)
    requires Unique(specs) && NoDup(order) && Elems(order) == Ids(specs) && DepsFirst(specs, order)
    ensures Ordered(specs, order)
  {}

  /** The status map after one node joined. */
  lemma StatusInsert(before: StatusMap, after: StatusMap, id: Id, s: Status)
    requires after.Keys == before.Keys + {id} && after[id] == s
    requires forall x :: x in before && x != id ==> after[x] == before[x]
    ensures after == before[id := s]
  {}

  lemma SkippedAreSeen(specs: seq<Spec>, st: StatusMap, id: Id, skipped: seq<Id>, seen: set<Id>, toSkip: seq<Id>)
    requires WorkList(specs, st, id, skipped, seen, toSkip)
    ensures NoDup(skipped) && Elems(skipped) <= seen
  {}

  lemma FailureIsSkipping(specs: seq<Spec>, st: StatusMap, id: Id, skipped: seq<Id>)
    requires id in st && Elems(skipped) == SkipSet(specs, st[id := Failed], id)
    ensures AfterFailure(specs, st, id) == Skipping(st[id := Failed], skipped)
  {
    hide SkipSet;
    assert forall x :: x in skipped <==> x in Elems(skipped);
  }

  /** Work-list bookkeeping: what is skipped is in the cascade, and every child of
      id or of a skipped node is seen or still listed. */
  ghost predicate WorkList(specs: seq<Spec>, st: StatusMap, id: Id, skipped: seq<Id>, seen: set<Id>, toSkip: seq<Id>) {
    NoDup(skipped) && Elems(skipped) <= seen && seen <= Ids(specs)
    && (forall x :: x in toSkip ==> x in Ids(specs) && FedBy(specs, id, skipped, x))
    && (forall x :: x in skipped ==> x in SkipSet(specs, st, id))
    && (forall x :: x in seen && x in st && Waiting(st[x]) ==> x in skipped)
    && ChildrenListed(specs, id, seen + Elems(toSkip))
    && forall x :: x in skipped ==> ChildrenListed(specs, x, seen + Elems(toSkip))
  }

  ghost predicate ChildrenListed(specs: seq<Spec>, p: Id, listed: set<Id>) {
    forall c :: c in ChildrenOf(specs, p) ==> c in listed
  }

  /** Some parent of x is id or already skipped. */
  ghost predicate FedBy(specs: seq<Spec>, id: Id, skipped: seq<Id>, x: Id) {
    x in ChildrenOf(specs, id) || exists y :: y in skipped && x in ChildrenOf(specs, y)
  }

  lemma WorkListStart(specs: seq<Spec>, st: StatusMap, id: Id)
    ensures WorkList(specs, st, id, [], {}, ChildrenOf(specs, id))
  {}

  /** A popped id that was seen, or is not waiting, only becomes seen. */
  lemma WorkListPass(specs: seq<Spec>, st: StatusMap, id: Id, skipped: seq<Id>, seen: set<Id>, toSkip: seq<Id>)
    requires WorkList(specs, st, id, skipped, seen, toSkip) && toSkip != []
    requires toSkip[0] in seen || (toSkip[0] in st && !Waiting(st[toSkip[0]]))
    ensures WorkList(specs, st, id, skipped, seen + {toSkip[0]}, toSkip[1..])
  {
    hide ChildrenOf, SkipSet, FedBy;
    assert Elems(toSkip) == {toSkip[0]} + Elems(toSkip[1..]);
  }

  /** A popped waiting id is skipped and its children are listed. */
  lemma WorkListSkip(specs: seq<Spec>, st: StatusMap, id: Id, skipped: seq<Id>, seen: set<Id>, toSkip: seq<Id>)
    requires WorkList(specs, st, id, skipped, seen, toSkip) && toSkip != []
    requires toSkip[0] !in seen && toSkip[0] in st && Waiting(st[toSkip[0]])
    ensures WorkList(specs, st, id, skipped + [toSkip[0]], seen + {toSkip[0]},
                     toSkip[1..] + ChildrenOf(specs, toSkip[0]))
  {
    hide SkipSet, ChildrenOf, FedBy, ChildrenListed, Ids;
    var x := toSkip[0];
    var rest := toSkip[1..] + ChildrenOf(specs, x);
    CascadeAlong(specs, st, id, skipped, x);
    ChildrenAreNodes(specs, x);
    assert Elems(toSkip) == {x} + Elems(toSkip[1..]);
    assert Elems(rest) == Elems(toSkip[1..]) + Elems(ChildrenOf(specs, x));
    var was, now := seen + Elems(toSkip), seen + {x} + Elems(rest);
    forall y | y in rest
      ensures y in Ids(specs) && FedBy(specs, id, skipped + [x], y)
    {
      FedByMore(specs, id, skipped, x, y);
    }
    forall p | ChildrenListed(specs, p, was) || p == x
      ensures ChildrenListed(specs, p, now)
    {
      ListedMore(specs, p, was, now);
      ListedOwn(specs, x, now);
    }
    NoDupAppend(skipped, [x]);
  }

  lemma FedByMore(specs: seq<Spec>, id: Id, skipped: seq<Id>, x: Id, y: Id)
    ensures FedBy(specs, id, skipped, y) || y in ChildrenOf(specs, x) ==> FedBy(specs, id, skipped + [x], y)
  {
    hide ChildrenOf;
    assert x in skipped + [x];
  }

  lemma ListedMore(specs: seq<Spec>, p: Id, was: set<Id>, now: set<Id>)
    requires was <= now
    ensures ChildrenListed(specs, p, was) ==> ChildrenListed(specs, p, now)
  {}

  lemma ListedOwn(specs: seq<Spec>, p: Id, now: set<Id>)
    requires Elems(ChildrenOf(specs, p)) <= now
    ensures ChildrenListed(specs, p, now)
  {}

  lemma WorkListDone(specs: seq<Spec>, st: StatusMap, id: Id, skipped: seq<Id>, seen: set<Id>)
    requires WorkList(specs, st, id, skipped, seen, [])
    ensures NoDup(skipped) && Elems(skipped) == SkipSet(specs, st, id)
  {
    hide SkipSet, ChildrenOf, FedBy;
    assert seen + Elems([]) == seen;
    CascadeLeast(specs, st, id, Elems(skipped));
  }

  ghost function Skipping(st: StatusMap, skipped: seq<Id>): StatusMap {
    map x | x in st :: if x in skipped then Skipped else st[x]
  }

  /** The status map after one node object's status was assigned. */
  lemma StatusUpdate(before: StatusMap, after: StatusMap, id: Id, s: Status)
    requires before.Keys == after.Keys && id in after && after[id] == s
    requires forall x :: x in after && x != id ==> after[x] == before[x]
    ensures after == before[id := s]
  {}

  function SkipMessage(id: Id): string {
    "Skipped: dependency '" + id + "' failed"
  }

  /** reason or "Blocked by dependency or manual action" */
  function BlockedReason(reason: Option<string>): string {
    if reason.GetOr("") != "" then reason.value else "Blocked by dependency or manual action"
  }

  /** Skipped nodes name the failed one in their error; outputs stay. */
  ghost function SkippedTexts(ts: map<Id, Text>, skipped: seq<Id>, id: Id): map<Id, Text> {
    map x | x in ts :: if x in skipped then Text(ts[x].output, Some(SkipMessage(id))) else ts[x]
  }

  lemma TextUpdate(before: map<Id, Text>, after: map<Id, Text>, id: Id, t: Text)
    requires before.Keys == after.Keys && id in after && after[id] == t
    requires forall x :: x in after && x != id ==> after[x] == before[x]
    ensures after == before[id := t]
  {}

  lemma TextsNone(ts: map<Id, Text>, id: Id)
    ensures SkippedTexts(ts, [], id) == ts
  {}

  lemma TextsAt(ts: map<Id, Text>, skipped: seq<Id>, id: Id, x: Id)
    requires x in ts && x !in skipped
    ensures x in SkippedTexts(ts, skipped, id) && SkippedTexts(ts, skipped, id)[x] == ts[x]
    ensures SkippedTexts(ts, skipped, id).Keys == ts.Keys
  {}

  lemma TextsMore(ts: map<Id, Text>, skipped: seq<Id>, id: Id, x: Id)
    requires x in ts && x !in skipped
    ensures SkippedTexts(ts, skipped, id)[x := Text(ts[x].output, Some(SkipMessage(id)))]
         == SkippedTexts(ts, skipped + [x], id)
  {}

  lemma ReadyNone(specs: seq<Spec>, st: StatusMap)
    ensures ReadyIn(specs, st, []) == []
  {}

  lemma ReadyStep(specs: seq<Spec>, st: StatusMap, order: seq<Id>, i: nat)
    requires i < |order|
    ensures ReadyIn(specs, st, order[..i + 1])
         == ReadyIn(specs, st, order[..i]) + if IsReady(specs, st, order[i]) then [order[i]] else []
  {
    assert order[..i + 1][..i] == order[..i];
  }

  lemma SkippingNone(st: StatusMap)
    ensures Skipping(st, []) == st
  {}

  lemma SkippingAt(st: StatusMap, skipped: seq<Id>, x: Id)
    requires x in st && x !in skipped
    ensures x in Skipping(st, skipped) && Skipping(st, skipped)[x] == st[x]
  {}

  lemma SkippingMore(st: StatusMap, skipped: seq<Id>, x: Id, after: StatusMap)
    requires x in st && after == Skipping(st, skipped)[x := Skipped]
    ensures after == Skipping(st, skipped + [x])
  {}

  lemma ChildrenAreNodes(specs: seq<Spec>, p: Id)
    ensures forall c :: c in ChildrenOf(specs, p) ==> c in Ids(specs)
  {}

  lemma CascadeAlong(specs: seq<Spec>, st: StatusMap, id: Id, skipped: seq<Id>, x: Id)
    requires FedBy(specs, id, skipped, x) && x in st && Waiting(st[x])
    requires forall y :: y in skipped ==> y in SkipSet(specs, st, id)
    ensures x in SkipSet(specs, st, id)
  {
    hide ChildrenOf, SkipSet;
    if x in ChildrenOf(specs, id) {
      CascadeStart(specs, st, id, x);
    } else {
      var y :| y in skipped && x in ChildrenOf(specs, y);
      CascadeExtend(specs, st, id, y, x);
    }
  }

  lemma KahnShift(specs: seq<Spec>, sorted: seq<Id>, queue: seq<Id>, deg: Degrees)
    requires deg.Keys == Ids(specs) && (forall x :: x in queue ==> x in deg) && queue != []
    ensures var (q, d) := Relax(ChildrenOf(specs, queue[0]), queue[1..], deg);
            sorted + Kahn(specs, queue, deg).sorted == sorted + [queue[0]] + Kahn(specs, q, d).sorted
            && Kahn(specs, queue, deg).deg == Kahn(specs, q, d).deg
  {}

  lemma NoSpecs()
    ensures Order([]) == [] && Ids([]) == {}
    ensures forall c :: DepsOf([], c) == [] && ChildrenOf([], c) == [] && ParentsOf([], c) == []
  {}

  lemma EdgesFromNone(child: Id)
    ensures forall p :: EdgesFrom(p, child, []) == []
  {}

  lemma EdgesFromSnoc(child: Id, deps: seq<Id>, k: nat)
    requires k < |deps|
    ensures deps[..k + 1] == deps[..k] + [deps[k]]
    ensures forall p :: EdgesFrom(p, child, deps[..k + 1])
                     == EdgesFrom(p, child, deps[..k]) + if p == deps[k] then [child] else []
  {
    assert deps[..k + 1][..k] == deps[..k];
  }

  /** The lists of a declaration list with one more declaration. */
  lemma SpecSnoc(specs: seq<Spec>, s: Spec)
    ensures Ids(specs + [s]) == Ids(specs) + {s.id}
    ensures Order(specs + [s]) == Order(specs) + if s.id in Ids(specs) then [] else [s.id]
    ensures forall c :: DepsOf(specs + [s], c) == if c == s.id then s.deps else DepsOf(specs, c)
    ensures forall p :: ChildrenOf(specs + [s], p) == ChildrenOf(specs, p) + EdgesFrom(p, s.id, s.deps)
    ensures forall c :: ParentsOf(specs + [s], c) == ParentsOf(specs, c) + if c == s.id then s.deps else []
  {
    assert (specs + [s])[..|specs|] == specs;
  }

  // ---------------------------------------------------------------- The graph object

  class Dag {
    var nodes: map<Id, DagNode>
    var order: seq<Id>  // the key order of the node dict
    var adjacency: map<Id, seq<Id>>
    var reverse: map<Id, seq<Id>>
    ghost var specs: seq<Spec>  // every declaration so far
    ghost var repr: set<DagNode>  // the node objects

    // -------------------------------------------------------------- Representation

    /** A defaultdict(list) read. */
    function Children(p: Id): seq<Id>
      reads this`adjacency
    {
      if p in adjacency then adjacency[p] else []
    }

    function Parents(c: Id): seq<Id>
      reads this`reverse
    {
      if c in reverse then reverse[c] else []
    }

    ghost predicate ValidNodes(specs: seq<Spec>)
      reads this`nodes, this`order, this`repr
    {
      order == Order(specs) && nodes.Keys == Ids(specs) && (forall id :: id in nodes ==> nodes[id] in repr)
      && forall id :: id in nodes ==> nodes[id].nodeId == id && nodes[id].dependsOn == DepsOf(specs, id)
    }

    ghost predicate ValidEdges(specs: seq<Spec>)
      reads this`adjacency, this`reverse
    {
      (forall p :: Children(p) == ChildrenOf(specs, p)) && (forall c :: Parents(c) == ParentsOf(specs, c))
    }

    ghost predicate Valid()
      reads this
    {
      ValidNodes(specs) && ValidEdges(specs)
    }

    ghost function St(): (st: StatusMap)
      requires Valid()
      reads this, repr
      ensures st.Keys == nodes.Keys == Ids(specs)
    {
      map id | id in nodes :: nodes[id].status
    }

    /** What the nodes carry besides their status. */
    ghost function Texts(): (ts: map<Id, Text>)
      requires Valid()
      reads this, repr
      ensures ts.Keys == nodes.Keys
    {
      map id | id in nodes :: Text(nodes[id].output, nodes[id].error)
    }

    /** The node object of an id. */
    ghost function NodeOf(id: Id): (r: set<DagNode>)
      requires Valid()
      reads this
      ensures r <= repr
    {
      if id in nodes then {nodes[id]} else {}
    }

    ghost function Objects(): (r: set<DagNode>)
      requires Valid()
      reads this
      ensures r <= repr
    {
      nodes.Values
    }

    /** ns are the node objects of these ids, in this order. */
    ghost predicate Lists(ns: seq<DagNode>, ids: seq<Id>)
      reads this`nodes
    {
      |ns| == |ids| && forall k :: 0 <= k < |ids| ==> ids[k] in nodes && ns[k] == nodes[ids[k]]
    }

    // -------------------------------------------------------------- Construction

    /** Builds the three dicts from the listed nodes; a repeated id keeps its
        place, the last node wins, and every node's edges are added. */
    constructor (list: seq<DagNode>)
      ensures Valid() && specs == SpecsOf(list) && repr == Elems(list)
      ensures nodes == LastNodes(list)
    {
      nodes, order, adjacency, reverse := map[], [], map[], map[];
      specs, repr := [], {};
      new;
      hide ChildrenOf, ParentsOf, DepsOf, Order;
      assert Valid() by { NoSpecs(); }
      assert specs == SpecsOf(list[..0]) && repr == Elems(list[..0]) && nodes == LastNodes(list[..0]);
      hide Dag.Valid, SpecsOf, LastNodes;
      var i := 0;
      while i < |list|
        invariant i <= |list| && specs == SpecsOf(list[..i]) && Valid() && repr == Elems(list[..i])
        invariant nodes == LastNodes(list[..i])
      {
        var n := list[i];
        ListSnoc(list[..i], n);
        Insert(n);
        assert list[..i + 1] == list[..i] + [n];
        i := i + 1;
      }
      assert list[..|list|] == list;
    }

    /** The node dict entry and the edges of one more declaration. */
    method Insert(n: DagNode)
      requires Valid()
      modifies this
      ensures Valid() && specs == old(specs) + [SpecOf(n)]
      ensures nodes == old(nodes)[n.nodeId := n] && repr == old(repr) + {n}
    {
      hide ChildrenOf, ParentsOf, DepsOf, Order, Ids;
      InsertNode(n);
      InsertEdges(n);
      specs := specs + [SpecOf(n)];
    }

    method InsertNode(n: DagNode)
      requires ValidNodes(specs)
      modifies this`nodes, this`order, this`repr
      ensures ValidNodes(specs + [SpecOf(n)]) && nodes == old(nodes)[n.nodeId := n] && repr == old(repr) + {n}
    {
      hide DepsOf, Order, Ids, ChildrenOf, ParentsOf, EdgesFrom;
      SpecSnoc(specs, SpecOf(n));
      if n.nodeId !in nodes {
        order := order + [n.nodeId];
      }
      nodes, repr := nodes[n.nodeId := n], repr + {n};
      forall id | id in nodes
        ensures nodes[id] in repr && nodes[id].nodeId == id && nodes[id].dependsOn == DepsOf(specs + [SpecOf(n)], id)
      {
        assert id != n.nodeId ==> id in old(nodes) && nodes[id] == old(nodes)[id];
      }
    }

    method InsertEdges(n: DagNode)
      requires ValidEdges(specs)
      modifies this`adjacency, this`reverse
      ensures ValidEdges(specs + [SpecOf(n)])
    {
      hide ChildrenOf, ParentsOf, EdgesFrom, Ids;
      SpecSnoc(specs, SpecOf(n));
      AddEdges(n.nodeId, n.dependsOn);
    }

    method AddEdges(child: Id, deps: seq<Id>)
      modifies this`adjacency, this`reverse
      ensures forall p :: Children(p) == old(Children(p)) + EdgesFrom(p, child, deps)
      ensures forall c :: Parents(c) == old(Parents(c)) + if c == child then deps else []
    {
      hide EdgesFrom, Dag.Children, Dag.Parents;
      EdgesFromNone(child);
      var k := 0;
      while k < |deps|
        invariant k <= |deps|
        invariant forall p :: Children(p) == old(Children(p)) + EdgesFrom(p, child, deps[..k])
        invariant forall c :: Parents(c) == old(Parents(c)) + if c == child then deps[..k] else []
      {
        EdgesFromSnoc(child, deps, k);
        label Before:
        AddEdge(deps[k], child);
        forall p
          ensures Children(p) == old(Children(p)) + EdgesFrom(p, child, deps[..k + 1])
        {
          assert Children(p) == old@Before(Children(p)) + if p == deps[k] then [child] else [];
        }
        forall c
          ensures Parents(c) == old(Parents(c)) + if c == child then deps[..k + 1] else []
        {
          assert Parents(c) == old@Before(Parents(c)) + if c == child then [deps[k]] else [];
        }
        k := k + 1;
      }
      assert deps[..|deps|] == deps;
    }

    method AddEdge(dep: Id, child: Id)
      modifies this`adjacency, this`reverse
      ensures forall p :: Children(p) == old(Children(p)) + if p == dep then [child] else []
      ensures forall c :: Parents(c) == old(Parents(c)) + if c == child then [dep] else []
    {
      adjacency := adjacency[dep := Children(dep) + [child]];
      reverse := reverse[child := Parents(child) + [dep]];
    }

    // -------------------------------------------------------------- Kahn's algorithm

    /** The work-list loop shared by validation and the sort. */
    method RunKahn(start: Degrees) returns (r: KahnResult)
      requires Valid() && start.Keys == Ids(specs)
      ensures r == KahnFrom(specs, start)
    {
      hide Relax, ChildrenOf, Order, Ids;
      var queue := WithDegree(order, start, true);
      var deg, sorted := start, [];
      ghost var goal := KahnFrom(specs, start);
      assert [] + goal.sorted == goal.sorted;
      while queue != []
        invariant deg.Keys == Ids(specs) && forall x :: x in queue ==> x in deg
        invariant sorted + Kahn(specs, queue, deg).sorted == goal.sorted && Kahn(specs, queue, deg).deg == goal.deg
        decreases |queue| + |Positive(deg)|
      {
        var nid := queue[0];
        KahnShift(specs, sorted, queue, deg);
        queue, deg := RelaxChildren(Children(nid), queue[1..], deg);
        sorted := sorted + [nid];
      }
      assert sorted + [] == sorted;
      r := KahnResult(sorted, deg);
    }

    /** The inner loop over one dequeued node's children. */
    method RelaxChildren(children: seq<Id>, queue0: seq<Id>, deg0: Degrees) returns (queue: seq<Id>, deg: Degrees)
      requires forall c :: c in children ==> c in deg0
      ensures (queue, deg) == Relax(children, queue0, deg0)
    {
      queue, deg := queue0, deg0;
      for j := 0 to |children|
        invariant (queue, deg) == Relax(children[..j], queue0, deg0)
      {
        assert children[..j + 1][..j] == children[..j];
        var child := children[j];
        assert child in children;
        deg := deg[child := deg[child] - 1];
        if deg[child] == 0 {
          queue := queue + [child];
        }
      }
      assert children[..|children|] == children;
    }

    /** The first check of `validate`: the first dependency that is no node. */
    method FindDangling() returns (r: Option<(Id, Id)>)
      requires Valid()
      ensures r == FirstDangling(specs, order)
    {
      hide ChildrenOf, Order, DepsOf, Ids;
      var i := 0;
      while i < |order|
        invariant i <= |order| && FirstDangling(specs, order) == FirstDangling(specs, order[i..])
      {
        var node := nodes[order[i]];
        var k := 0;
        assert node.dependsOn[0..] == node.dependsOn;
        while k < |node.dependsOn|
          invariant k <= |node.dependsOn|
          invariant FirstMissing(node.dependsOn, nodes.Keys) == FirstMissing(node.dependsOn[k..], nodes.Keys)
        {
          if node.dependsOn[k] !in nodes {
            return Some((order[i], node.dependsOn[k]));
          }
          assert node.dependsOn[k..][1..] == node.dependsOn[k + 1..];
          k := k + 1;
        }
        assert order[i..][1..] == order[i + 1..];
        i := i + 1;
      }
      r := None;
    }

    /** `validate`: the checks in the order of the source, first failure wins. */
    method Check() returns (v: Validation)
      requires Valid()
      ensures v == Validate(specs)
    {
      hide ChildrenOf, Order, Kahn, DepsOf, FirstDangling, Ids;
      var dangling := FindDangling();
      if dangling.Some? {
        return MissingDependency(dangling.value.0, dangling.value.1);
      }
      var deg: Degrees := map id | id in nodes :: |nodes[id].dependsOn|;
      assert deg == DependencyCounts(specs);
      if WithDegree(order, deg, true) == [] {
        return NoRoots;
      }
      var r := RunKahn(deg);
      if |r.sorted| != |order| {
        return HasCycle(WithDegree(order, r.deg, false));
      }
      if forall c :: c in order ==> Children(c) != [] {
        return NoLeaves;
      }
      return Validation.Valid;
    }

    method TopologicalSort() returns (r: seq<DagNode>)
      requires Valid()
      ensures Lists(r, TopologicalOrder(specs))
    {
      hide ParentsOf, Order, Kahn;
      var deg: Degrees := map id | id in nodes :: |Parents(id)|;
      assert deg == ParentCounts(specs);
      var k := RunKahn(deg);
      r := seq(|k.sorted|, i requires 0 <= i < |k.sorted| && k.sorted[i] in nodes reads this => nodes[k.sorted[i]]);
    }

    // -------------------------------------------------------------- Status operations

    /** The nodes whose dependencies are all completed and that wait to start. */
    method GetReadyNodes() returns (ready: seq<DagNode>)
      requires Valid() && Closed(specs)
      ensures Lists(ready, ReadyIds(specs, St()))
    {
      hide ChildrenOf, ParentsOf, Order, DepsOf, Ids, IsReady, ReadyIn;
      ready := [];
      ReadyNone(specs, St());
      var i := 0;
      while i < |order|
        invariant i <= |order| && Lists(ready, ReadyIn(specs, St(), order[..i]))
      {
        ReadyStep(specs, St(), order, i);
        var isReady := NodeIsReady(order[i]);
        if isReady {
          ready := ready + [nodes[order[i]]];
        }
        i := i + 1;
      }
      assert order[..|order|] == order;
    }

    method NodeIsReady(id: Id) returns (b: bool)
      requires Valid() && Closed(specs) && id in nodes
      ensures b == IsReady(specs, St(), id)
    {
      hide ChildrenOf, ParentsOf, Order, DepsOf, Ids;
      var node := nodes[id];
      assert DepsKnown(specs, id);
      if !Startable(node.status) || exists d :: d in node.dependsOn && Lost(nodes[d].status) {
        return false;
      }
      b := forall d :: d in node.dependsOn ==> nodes[d].status.Completed?;
    }

    /** `get_node` for the operations that assign a status; None is the KeyError. */
    method GetNode(id: Id) returns (node: Option<DagNode>)
      requires Valid()
      ensures node == if id in nodes then Some(nodes[id]) else None
    {
      node := if id in nodes then Some(nodes[id]) else None;
    }

    method MarkRunning(id: Id) returns (found: bool)
      requires Valid()
      modifies NodeOf(id)
      ensures Valid() && found == (id in nodes)
      ensures St() == if found then old(St())[id := Running] else old(St())
      ensures Texts() == old(Texts())
    {
      hide ChildrenOf, ParentsOf, Order, DepsOf, Ids;
      var node := GetNode(id);
      if node == None {
        return false;
      }
      node.value.status := Running;
      StatusUpdate(old(St()), St(), id, Running);
      found := true;
    }

    /** Reset for a retry: the output is dropped. */
    method MarkPending(id: Id) returns (found: bool)
      requires Valid()
      modifies NodeOf(id)
      ensures Valid() && found == (id in nodes)
      ensures St() == if found then old(St())[id := Pending] else old(St())
      ensures Texts() == if found then old(Texts())[id := Text(None, old(Texts())[id].error)] else old(Texts())
    {
      hide ChildrenOf, ParentsOf, Order, DepsOf, Ids;
      var node := GetNode(id);
      if node == None {
        return false;
      }
      node.value.status := Pending;
      node.value.output := None;
      StatusUpdate(old(St()), St(), id, Pending);
      TextUpdate(old(Texts()), Texts(), id, Text(None, old(Texts())[id].error));
      found := true;
    }

    method MarkBlocked(id: Id, reason: Option<string>) returns (found: bool)
      requires Valid()
      modifies NodeOf(id)
      ensures Valid() && found == (id in nodes)
      ensures St() == if found then old(St())[id := Blocked] else old(St())
      ensures Texts() == if found then old(Texts())[id := Text(old(Texts())[id].output, Some(BlockedReason(reason)))]
                         else old(Texts())
    {
      hide ChildrenOf, ParentsOf, Order, DepsOf, Ids, BlockedReason;
      var node := GetNode(id);
      if node == None {
        return false;
      }
      node.value.status := Blocked;
      node.value.error := Some(BlockedReason(reason));
      StatusUpdate(old(St()), St(), id, Blocked);
      TextUpdate(old(Texts()), Texts(), id, Text(old(Texts())[id].output, Some(BlockedReason(reason))));
      found := true;
    }

    /** Completes a node and returns what is ready afterwards. */
    method MarkCompleted(id: Id, output: Option<string>) returns (found: bool, ready: seq<DagNode>)
      requires Valid() && Closed(specs)
      modifies NodeOf(id)
      ensures Valid() && found == (id in nodes)
      ensures St() == if found then old(St())[id := Completed] else old(St())
      ensures Texts() == if found then old(Texts())[id := Text(output, old(Texts())[id].error)] else old(Texts())
      ensures found ==> Lists(ready, ReadyIds(specs, St()))
    {
      hide ChildrenOf, ParentsOf, Order, DepsOf, Ids, ReadyIds, Dag.Texts, Dag.St;
      found := SetCompleted(id, output);
      if !found {
        return false, [];
      }
      ready := GetReadyNodes();
    }

    method SetCompleted(id: Id, output: Option<string>) returns (found: bool)
      requires Valid()
      modifies NodeOf(id)
      ensures Valid() && found == (id in nodes)
      ensures St() == if found then old(St())[id := Completed] else old(St())
      ensures Texts() == if found then old(Texts())[id := Text(output, old(Texts())[id].error)] else old(Texts())
    {
      hide ChildrenOf, ParentsOf, Order, DepsOf, Ids;
      var node := GetNode(id);
      if node == None {
        return false;
      }
      node.value.status := Completed;
      node.value.output := output;
      StatusUpdate(old(St()), St(), id, Completed);
      TextUpdate(old(Texts()), Texts(), id, Text(output, old(Texts())[id].error));
      found := true;
    }

    /** Fails a node and skips exactly the nodes its failure reaches through
        waiting nodes; each skipped id is returned once. */
    method MarkFailed(id: Id, error: Option<string>) returns (found: bool, skipped: seq<Id>)
      requires Valid()
      modifies Objects()
      ensures Valid() && found == (id in nodes)
      ensures St() == if found then AfterFailure(specs, old(St()), id) else old(St())
      ensures Texts() == if !found then old(Texts())
                         else SkippedTexts(old(Texts())[id := Text(old(Texts())[id].output, error)], skipped, id)
      ensures NoDup(skipped)
      ensures Elems(skipped) == if found then SkipSet(specs, old(St())[id := Failed], id) else {}
    {
      hide ChildrenOf, ParentsOf, Order, DepsOf, Ids, SkipSet, AfterFailure, Skipping, SkippedTexts;
      skipped := [];
      var node := GetNode(id);
      if node == None {
        return false, [];
      }
      node.value.status := Failed;
      node.value.error := error;
      StatusUpdate(old(St()), St(), id, Failed);
      TextUpdate(old(Texts()), Texts(), id, Text(old(Texts())[id].output, error));
      skipped := SkipDescendants(id);
      found := true;
      FailureIsSkipping(specs, old(St()), id, skipped);
    }

    method SkipOne(childId: Id, id: Id)
      requires Valid() && childId in nodes
      modifies NodeOf(childId)
      ensures Valid() && St() == old(St())[childId := Skipped]
      ensures Texts() == old(Texts())[childId := Text(old(Texts())[childId].output, Some(SkipMessage(id)))]
    {
      hide ChildrenOf, ParentsOf, Order, DepsOf, Ids, SkipMessage;
      var child := nodes[childId];
      child.status := Skipped;
      child.error := Some(SkipMessage(id));
      StatusUpdate(old(St()), St(), childId, Skipped);
      TextUpdate(old(Texts()), Texts(), childId, Text(old(Texts())[childId].output, Some(SkipMessage(id))));
    }

    /** The work-list loop of `mark_failed`. */
    method SkipDescendants(id: Id) returns (skipped: seq<Id>)
      requires Valid() && id in nodes
      modifies Objects()
      ensures Valid() && NoDup(skipped) && Elems(skipped) == SkipSet(specs, old(St()), id)
      ensures St() == Skipping(old(St()), skipped) && Texts() == SkippedTexts(old(Texts()), skipped, id)
    {
      hide ChildrenOf, ParentsOf, Order, DepsOf, Ids, SkipSet, WorkList, Skipping, SkipMessage, SkippedTexts, Dag.Texts;
      ghost var st, texts := St(), Texts();
      SkippingNone(st);
      TextsNone(texts, id);
      skipped := [];
      var toSkip := Children(id);
      var seen: set<Id> := {};
      WorkListStart(specs, st, id);
      while toSkip != []
        invariant Valid() && seen <= nodes.Keys && nodes == old(nodes) && specs == old(specs)
        invariant forall x :: x in toSkip ==> x in nodes
        invariant WorkList(specs, st, id, skipped, seen, toSkip)
        invariant St() == Skipping(st, skipped) && Texts() == SkippedTexts(texts, skipped, id)
        decreases nodes.Keys - seen, |toSkip|
      {
        var childId := toSkip[0];
        if childId in seen {
          WorkListPass(specs, st, id, skipped, seen, toSkip);
          assert seen + {childId} == seen;
          toSkip := toSkip[1..];
          continue;
        }
        var child := nodes[childId];
        SkippedAreSeen(specs, st, id, skipped, seen, toSkip);
        SkippingAt(st, skipped, childId);
        assert St()[childId] == child.status;
        if Waiting(child.status) {
          WorkListSkip(specs, st, id, skipped, seen, toSkip);
          ChildrenAreNodes(specs, childId);
          TextsAt(texts, skipped, id, childId);
          SkipOne(childId, id);
          SkippingMore(st, skipped, childId, St());
          TextsMore(texts, skipped, id, childId);
          skipped := skipped + [childId];
          toSkip := toSkip[1..] + Children(childId);
        } else {
          WorkListPass(specs, st, id, skipped, seen, toSkip);
          toSkip := toSkip[1..];
        }
        seen := seen + {childId};
      }
      WorkListDone(specs, st, id, skipped, seen);
    }

    /** Adds a node while the workflow runs; false is the ValueError on a known id. */
    method AddNode(n: DagNode) returns (added: bool)
      requires Valid()
      modifies this
      ensures Valid() && added == (n.nodeId !in old(nodes))
      ensures added ==> specs == old(specs) + [SpecOf(n)] && nodes == old(nodes)[n.nodeId := n]
      ensures added ==> repr == old(repr) + {n} && St() == old(St())[n.nodeId := n.status]
      ensures !added ==> specs == old(specs) && nodes == old(nodes) && repr == old(repr) && St() == old(St())
    {
      hide ChildrenOf, ParentsOf, Order, DepsOf, Ids;
      if n.nodeId in nodes {
        return false;
      }
      Insert(n);
      added := true;
      StatusInsert(old(St()), St(), n.nodeId, n.status);
    }

    // -------------------------------------------------------------- Progress

    method IsComplete() returns (b: bool)
      requires Valid()
      ensures b == AllTerminal(St())
    {
      hide ChildrenOf, ParentsOf, Order, DepsOf;
      b := forall id :: id in nodes ==> Terminal(nodes[id].status);
    }

    method Count(s: Status) returns (n: nat)
      requires Valid()
      ensures n == CountIn(order, St(), s)
    {
      hide ChildrenOf, ParentsOf, Order, DepsOf, Ids;
      n := 0;
      for i := 0 to |order|
        invariant n == CountIn(order[..i], St(), s)
      {
        assert order[..i + 1][..i] == order[..i];
        if nodes[order[i]].status == s {
          n := n + 1;
        }
      }
      assert order[..|order|] == order;
    }

    // -------------------------------------------------------------- Critical path

    /** The longest chain of dependent tasks. */
    method GetCriticalPath() returns (path: seq<DagNode>)
      requires Valid() && Unique(specs) && Closed(specs) && Acyclic(specs) && specs != []
      ensures exists w :: Lists(path, w) && LongestPath(specs, w)
    {
      hide ChildrenOf, ParentsOf, Order, DepsOf, Ids, TopologicalOrder, Progress, Acyclic, Path;
      var topo := TopologicalSort();
      ghost var order := TopologicalOrder(specs);
      UniqueConsistent(specs);
      TopologicalExact(specs);
      OrderedAll(specs, order);
      var dist, pred := Distances(topo);
      ProgressKeys(specs, order, |topo|, dist, pred);
      assert specs[0].id in Elems(order) by { assert specs[0].id in Ids(specs) by { FirstIsId(specs); } }
      assert forall n :: n in topo ==> n.nodeId in order && n.nodeId in Elems(order);
      var end := Furthest(topo, dist);
      forall y | y in dist
        ensures dist[y] <= dist[end]
      {
        assert y in Elems(order);
        var k :| 0 <= k < |order| && order[k] == y;
        assert topo[k] in topo;
      }
      path := FollowBack(dist, pred, end);
    }

    /** Collects the path by following predecessors from its end. */
    method FollowBack(dist: Distances, pred: Predecessors, end: Id) returns (path: seq<DagNode>)
      requires Valid() && Closed(specs) && Ordered(specs, TopologicalOrder(specs))
      requires Progress(specs, TopologicalOrder(specs), |TopologicalOrder(specs)|, dist, pred)
      requires end in dist && forall y :: y in dist ==> dist[y] <= dist[end]
      ensures exists w :: Lists(path, w) && LongestPath(specs, w)
    {
      hide ChildrenOf, ParentsOf, Order, DepsOf, Ids, TopologicalOrder, Progress, Ordered, Path, Trail, LongestPath;
      ghost var order := TopologicalOrder(specs);
      ProgressKeys(specs, order, |order|, dist, pred);
      TrailStart(specs, dist, end);
      path := [];
      ghost var w := [];
      var current := Some(end);
      while current.Some?
        invariant Lists(path, w)
        invariant current.Some? ==> current.value in dist && Trail(specs, dist, end, current.value, w)
        invariant current == None ==> LongestPath(specs, w)
        decreases current.Some?, if current.Some? && current.value in dist then dist[current.value] else 0
      {
        var x := current.value;
        TrailExtend(specs, order, dist, pred, end, x, w);
        if pred[x] == None {
          TrailEnds(specs, order, dist, pred, end, x, w);
        }
        path := [nodes[x]] + path;
        w := [x] + w;
        current := pred[x];
      }
    }

    /** Relaxes every edge in topological order. */
    method Distances(topo: seq<DagNode>) returns (dist: Distances, pred: Predecessors)
      requires Valid() && Lists(topo, TopologicalOrder(specs)) && Ordered(specs, TopologicalOrder(specs))
      ensures Progress(specs, TopologicalOrder(specs), |topo|, dist, pred)
    {
      hide ChildrenOf, ParentsOf, Order, DepsOf, Ids, TopologicalOrder, Progress, Partial;
      ghost var order := TopologicalOrder(specs);
      dist := map id | id in nodes :: 0;
      pred := map id | id in nodes :: None;
      ProgressStart(specs, order, dist, pred);
      for i := 0 to |topo|
        invariant Progress(specs, order, i, dist, pred)
      {
        PartialStart(specs, order, i, dist, pred);
        var children := Children(topo[i].nodeId);
        EdgesOf(specs, order[i]);
        for j := 0 to |children|
          invariant Partial(specs, order, i, children[..j], dist, pred)
        {
          PartialStep(specs, order, i, children[..j], children[j], dist, pred);
          PartialKeys(specs, order, i, children[..j], dist, pred);
          assert children[..j + 1] == children[..j] + [children[j]];
          if dist[children[j]] < dist[topo[i].nodeId] + 1 {
            dist, pred := dist[children[j] := dist[topo[i].nodeId] + 1], pred[children[j] := Some(topo[i].nodeId)];
          }
        }
        assert children[..|children|] == children;
        PartialDone(specs, order, i, children, dist, pred);
      }
    }

    /** max(distances, key=distances.get): the first of the furthest. */
    method Furthest(topo: seq<DagNode>, dist: Distances) returns (end: Id)
      requires Valid() && topo != [] && (forall n :: n in topo ==> n.nodeId in dist)
      ensures end in dist && forall n :: n in topo ==> dist[n.nodeId] <= dist[end]
    {
      end := topo[0].nodeId;
      for i := 1 to |topo|
        invariant end in dist && forall n :: n in topo[..i] ==> dist[n.nodeId] <= dist[end]
      {
        assert topo[..i + 1] == topo[..i] + [topo[i]];
        if dist[topo[i].nodeId] > dist[end] {
          end := topo[i].nodeId;
        }
      }
      assert topo[..|topo|] == topo;
    }

    // -------------------------------------------------------------- Storage

    /** What `to_dict` stores, node by node. */
    ghost function Snapshot(): (rs: seq<NodeRecord>)
      requires Valid()
      reads this, repr
      ensures |rs| == |order|
    {
      seq(|order|, i requires 0 <= i < |order| && order[i] in nodes && nodes[order[i]] in repr reads this, repr =>
        RecordOf(nodes[order[i]]))
    }

    method ToDict() returns (rs: seq<NodeRecord>)
      requires Valid()
      ensures rs == Snapshot()
    {
      hide ChildrenOf, ParentsOf, Order, DepsOf, Ids;
      rs := [];
      for i := 0 to |order|
        invariant |rs| == i && forall k :: 0 <= k < i ==> rs[k] == RecordOf(nodes[order[k]])
      {
        rs := rs + [RecordOf(nodes[order[i]])];
      }
    }
  }

  datatype NodeRecord = NodeRecord(nodeId: Id, capability: string, dependsOn: seq<Id>,
                                   status: Status, output: Option<string>, error: Option<string>)

  function RecordOf(n: DagNode): NodeRecord
    reads n
  {
    NodeRecord(n.nodeId, n.capability, n.dependsOn, n.status, n.output, n.error)
  }

  function RecordSpecs(rs: seq<NodeRecord>): (specs: seq<Spec>)
    ensures |specs| == |rs| && forall i :: 0 <= i < |rs| ==> specs[i] == Spec(rs[i].nodeId, rs[i].dependsOn)
  {
    seq(|rs|, i requires 0 <= i < |rs| => Spec(rs[i].nodeId, rs[i].dependsOn))
  }

  function RecordStatuses(rs: seq<NodeRecord>): (st: StatusMap)
  {
    if rs == [] then map[] else RecordStatuses(rs[..|rs| - 1])[rs[|rs| - 1].nodeId := rs[|rs| - 1].status]
  }

  lemma SpecsAgree(list: seq<DagNode>, rs: seq<NodeRecord>)
    requires |list| == |rs| && forall k :: 0 <= k < |rs| ==> RecordOf(list[k]) == rs[k]
    ensures SpecsOf(list) == RecordSpecs(rs)
  {}

  method NodesFrom(rs: seq<NodeRecord>) returns (list: seq<DagNode>)
    ensures |list| == |rs| && fresh(Elems(list))
    ensures forall k :: 0 <= k < |rs| ==> RecordOf(list[k]) == rs[k]
  {
    list := [];
    for i := 0 to |rs|
      invariant |list| == i && forall k :: 0 <= k < i ==> fresh(list[k]) && RecordOf(list[k]) == rs[k]
    {
      var r := rs[i];
      var n := new DagNode(r.nodeId, r.capability, r.dependsOn, r.status, r.output, r.error);
      list := list + [n];
    }
  }

  /** Rebuilds a DAG object from stored records; v is what validation says. */
  method FromDict(rs: seq<NodeRecord>) returns (v: Validation, dag: Dag)
    ensures fresh(dag) && dag.Valid() && fresh(dag.repr)
    ensures dag.specs == RecordSpecs(rs) && v == Validate(RecordSpecs(rs))
    ensures dag.St() == RecordStatuses(rs)
    ensures Unique(RecordSpecs(rs)) ==> dag.Snapshot() == rs
  {
    hide ChildrenOf, ParentsOf, Order, DepsOf, Ids, Validate, LastNodes, RecordStatuses, SpecsOf, RecordSpecs;
    var list := NodesFrom(rs);
    dag := new Dag(list);
    SpecsAgree(list, rs);
    StatusesMatch(dag, list, rs);
    v := dag.Check();
  }

  lemma {:induction false} LastNodesRecords(list: seq<DagNode>, rs: seq<NodeRecord>)
    requires |list| == |rs| && forall k :: 0 <= k < |rs| ==> RecordOf(list[k]) == rs[k]
    ensures LastNodes(list).Keys == RecordStatuses(rs).Keys
    ensures forall id :: id in LastNodes(list) ==>
      LastNodes(list)[id] in list && LastNodes(list)[id].status == RecordStatuses(rs)[id]
  {
    if list != [] {
      var n := |list| - 1;
      LastNodesRecords(list[..n], rs[..n]);
      assert list == list[..n] + [list[n]];
    }
  }

  lemma StatusesMatch(dag: Dag, list: seq<DagNode>, rs: seq<NodeRecord>)
    requires dag.Valid() && dag.nodes == LastNodes(list) && dag.specs == RecordSpecs(rs)
    requires |list| == |rs| && forall k :: 0 <= k < |rs| ==> RecordOf(list[k]) == rs[k]
    ensures dag.St() == RecordStatuses(rs)
    ensures Unique(RecordSpecs(rs)) ==> dag.Snapshot() == rs
  {
    hide ChildrenOf, ParentsOf, Order, DepsOf, Ids, LastNodes, RecordStatuses;
    LastNodesRecords(list, rs);
    if Unique(RecordSpecs(rs)) {
      UniqueOrder(RecordSpecs(rs));
      forall k | 0 <= k < |rs|
        ensures dag.Snapshot()[k] == rs[k]
      {
        var id := rs[k].nodeId;
        assert dag.order[k] == id;
        var m :| 0 <= m < |list| && list[m] == dag.nodes[id];
        assert RecordSpecs(rs)[m].id == RecordSpecs(rs)[k].id;
        assert m == k;
      }
    }
  }

  /** With distinct ids the stored records hold the whole graph. */
  lemma SnapshotComplete(dag: Dag)
    requires dag.Valid() && Unique(dag.specs)
    ensures RecordSpecs(dag.Snapshot()) == dag.specs
  {
    hide ChildrenOf, ParentsOf, Order, DepsOf, Ids;
    UniqueOrder(dag.specs);
    forall i | 0 <= i < |dag.specs|
      ensures RecordSpecs(dag.Snapshot())[i] == dag.specs[i]
    {
      assert dag.order[i] == dag.specs[i].id;
      UniqueDeps(dag.specs, i);
      assert dag.order[i] in dag.nodes by { assert dag.order[i] in Order(dag.specs); }
    }
  }
}
