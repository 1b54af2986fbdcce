/** The workflow graph as a list of node declarations, and Kahn's algorithm on
    it (backend/app/orchestration/dag.py). Everything the DAG class computes is
    specified by the functions here; the theorems about them are in
    GraphTheorems. */
module Graph {
  import opened Prelude

  type Id = string

  /** One declared node: its id and what it depends on, repeats included. */
  datatype Spec = Spec(id: Id, deps: seq<Id>)

  function Ids(specs: seq<Spec>): set<Id> {
    set s | s in specs :: s.id
  }

  /** The keys of the node dict in insertion order: a repeated id keeps its place. */
  function Order(specs: seq<Spec>): (r: seq<Id>)
    ensures forall x :: x in r <==> x in Ids(specs)
    ensures NoDup(r)
  {
    if specs == [] then []
    else
      var front, last := specs[..|specs| - 1], specs[|specs| - 1];
      assert specs == front + [last];
      var r := Order(front);
      if last.id in r then r else r + [last.id]
  }

  /** The dependencies kept for an id: those of its last declaration. */
  function DepsOf(specs: seq<Spec>, id: Id): seq<Id> {
    if specs == [] then []
    else if specs[|specs| - 1].id == id then specs[|specs| - 1].deps
    else DepsOf(specs[..|specs| - 1], id)
  }

  /** One copy of the child for every time it names the parent. */
  function EdgesFrom(p: Id, child: Id, deps: seq<Id>): (r: seq<Id>)
    ensures forall c :: c in r ==> c == child
  {
    if deps == [] then []
    else EdgesFrom(p, child, deps[..|deps| - 1]) + if deps[|deps| - 1] == p then [child] else []
  }

  /** parent -> children, in the order the declarations add them. */
  function ChildrenOf(specs: seq<Spec>, p: Id): (r: seq<Id>)
    ensures forall c :: c in r ==> c in Ids(specs)
  {
    if specs == [] then []
    else
      var front, last := specs[..|specs| - 1], specs[|specs| - 1];
      assert specs == front + [last];
      ChildrenOf(front, p) + EdgesFrom(p, last.id, last.deps)
  }

  /** child -> parents; every declaration of the id contributes. */
  function ParentsOf(specs: seq<Spec>, c: Id): seq<Id> {
    if specs == [] then []
    else ParentsOf(specs[..|specs| - 1], c) + if specs[|specs| - 1].id == c then specs[|specs| - 1].deps else []
  }

  ghost predicate Unique(specs: seq<Spec>) {
    forall i, j :: 0 <= i < j < |specs| ==> specs[i].id != specs[j].id
  }

  /** The edges of an id are those of its last declaration: an earlier one that was
      overridden left none behind. */
  ghost predicate Consistent(specs: seq<Spec>) {
    forall c :: ParentsOf(specs, c) == DepsOf(specs, c)
  }

  predicate DepsKnown(specs: seq<Spec>, c: Id) {
    forall d :: d in DepsOf(specs, c) ==> d in Ids(specs)
  }

  ghost predicate Closed(specs: seq<Spec>) {
    forall c :: c in Ids(specs) ==> DepsKnown(specs, c)
  }

  // ---------------------------------------------------------------- Paths

  ghost predicate Edge(specs: seq<Spec>, p: Id, c: Id) {
    c in Ids(specs) && p in DepsOf(specs, c)
  }

  /** A chain of nodes, each a dependency of the next. */
  ghost predicate Path(specs: seq<Spec>, w: seq<Id>) {
    w != [] && (forall i :: 0 <= i < |w| ==> w[i] in Ids(specs))
    && forall i :: 0 <= i < |w| - 1 ==> Edge(specs, w[i], w[i + 1])
  }

  ghost predicate Cycle(specs: seq<Spec>, w: seq<Id>) {
    |w| >= 2 && Path(specs, w) && w[0] == w[|w| - 1]
  }

  ghost predicate Acyclic(specs: seq<Spec>) {
    forall w :: !Cycle(specs, w)
  }

  /** a is an ancestor of c: there is a path of at least one edge. */
  ghost predicate Ancestor(specs: seq<Spec>, a: Id, c: Id) {
    exists w :: |w| >= 2 && Path(specs, w) && w[0] == a && w[|w| - 1] == c
  }

  // ---------------------------------------------------------------- Kahn

  type Degrees = map<Id, int>

  function Positive(deg: Degrees): set<Id> {
    set c | c in deg && deg[c] > 0
  }

  /** One dequeued node's edges: decrement each child, queue it on reaching zero. */
  function Relax(children: seq<Id>, queue: seq<Id>, deg: Degrees): (r: (seq<Id>, Degrees))
    requires forall c :: c in children ==> c in deg
    ensures r.1.Keys == deg.Keys
    ensures |r.0| + |Positive(r.1)| == |queue| + |Positive(deg)|
    ensures forall x :: x in r.0 ==> x in queue || x in deg
  {
    if children == [] then (queue, deg)
    else
      var c := children[|children| - 1];
      var (q, d) := Relax(children[..|children| - 1], queue, deg);
      var d' := d[c := d[c] - 1];
      assert Positive(d') == if d[c] == 1 then Positive(d) - {c} else Positive(d);
      (if d'[c] == 0 then q + [c] else q, d')
  }

  datatype KahnResult = KahnResult(sorted: seq<Id>, deg: Degrees)

  /** The work-list loop: the ids in the order they are dequeued, and the
      in-degrees left behind. */
  function Kahn(specs: seq<Spec>, queue: seq<Id>, deg: Degrees): (r: KahnResult)
    requires deg.Keys == Ids(specs) && forall x :: x in queue ==> x in deg
    ensures r.deg.Keys == deg.Keys
    ensures forall x :: x in r.sorted ==> x in deg
    decreases |queue| + |Positive(deg)|
  {
    if queue == [] then KahnResult([], deg)
    else
      var (q, d) := Relax(ChildrenOf(specs, queue[0]), queue[1..], deg);
      var rest := Kahn(specs, q, d);
      KahnResult([queue[0]] + rest.sorted, rest.deg)
  }

  function Select(order: seq<Id>, keep: Id -> bool): (r: seq<Id>)
    ensures forall x :: x in r <==> x in order && keep(x)
    ensures NoDup(order) ==> NoDup(r)
  {
    if order == [] then []
    else
      var front, last := order[..|order| - 1], order[|order| - 1];
      assert order == front + [last];
      assert NoDup(order) ==> NoDup(front) && last !in front;
      Select(front, keep) + if keep(last) then [last] else []
  }

  function WithDegree(order: seq<Id>, deg: Degrees, zero: bool): (r: seq<Id>)
    requires forall x :: x in order ==> x in deg
    ensures forall x :: x in r <==> x in order && (if zero then deg[x] == 0 else deg[x] > 0)
    ensures NoDup(order) ==> NoDup(r)
  {
    Select(order, x => x in deg && if zero then deg[x] == 0 else deg[x] > 0)
  }

  function DependencyCounts(specs: seq<Spec>): Degrees {
    map c | c in Ids(specs) :: |DepsOf(specs, c)|
  }

  function ParentCounts(specs: seq<Spec>): Degrees {
    map c | c in Ids(specs) :: |ParentsOf(specs, c)|
  }

  function KahnFrom(specs: seq<Spec>, deg: Degrees): (r: KahnResult)
    requires deg.Keys == Ids(specs)
    ensures r.deg.Keys == deg.Keys
  {
    Kahn(specs, WithDegree(Order(specs), deg, true), deg)
  }

  // ---------------------------------------------------------------- Operations

  datatype Validation =
    | Valid
    | MissingDependency(node: Id, dep: Id)
    | NoRoots
    | HasCycle(remaining: seq<Id>)
    | NoLeaves

  function FirstMissing(deps: seq<Id>, known: set<Id>): (r: Option<Id>)
    ensures r == None <==> forall d :: d in deps ==> d in known
    ensures r.Some? ==> r.value in deps && r.value !in known
  {
    if deps == [] then None
    else if deps[0] !in known then Some(deps[0])
    else FirstMissing(deps[1..], known)
  }

  function FirstDangling(specs: seq<Spec>, order: seq<Id>): (r: Option<(Id, Id)>)
    ensures r == None <==> forall c :: c in order ==> DepsKnown(specs, c)
    ensures r.Some? ==>
      r.value.0 in order && r.value.1 in DepsOf(specs, r.value.0) && r.value.1 !in Ids(specs)
  {
    if order == [] then None
    else
      var m := FirstMissing(DepsOf(specs, order[0]), Ids(specs));
      assert order == [order[0]] + order[1..] && (DepsKnown(specs, order[0]) <==> m == None);
      if m.Some? then Some((order[0], m.value)) else FirstDangling(specs, order[1..])
  }

  /** What `validate` decides, error by error in the order of its checks. */
  function Validate(specs: seq<Spec>): Validation {
    var order := Order(specs);
    var dangling := FirstDangling(specs, order);
    if dangling.Some? then MissingDependency(dangling.value.0, dangling.value.1)
    else
      var deg := DependencyCounts(specs);
      if WithDegree(order, deg, true) == [] then NoRoots
      else
        var r := KahnFrom(specs, deg);
        if |r.sorted| != |order| then HasCycle(WithDegree(order, r.deg, false))
        else if forall c :: c in order ==> ChildrenOf(specs, c) != [] then NoLeaves
        else Valid
  }

  function TopologicalOrder(specs: seq<Spec>): seq<Id> {
    KahnFrom(specs, ParentCounts(specs)).sorted
  }
}
