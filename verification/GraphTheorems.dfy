/** What Kahn's algorithm on the workflow graph achieves: validation accepts
    exactly the acyclic graphs, and the topological order is one. */
module GraphTheorems {
  import opened Prelude
  import opened Graph

  // ---------------------------------------------------------------- Lists of declarations

  lemma {:induction false} UniqueOrder(specs: seq<Spec>)
    requires Unique(specs)
    ensures |Order(specs)| == |specs|
    ensures forall i :: 0 <= i < |specs| ==> Order(specs)[i] == specs[i].id
  {
    if specs != [] {
      var front := specs[..|specs| - 1];
      UniqueOrder(front);
      assert specs[|specs| - 1].id !in Order(front);
    }
  }

  lemma {:induction false} UniqueDeps(specs: seq<Spec>, i: nat)
    requires Unique(specs) && i < |specs|
    ensures DepsOf(specs, specs[i].id) == specs[i].deps
  {
    if i < |specs| - 1 {
      UniqueDeps(specs[..|specs| - 1], i);
    }
  }

  lemma {:induction false} UnknownDeps(specs: seq<Spec>, c: Id)
    requires c !in Ids(specs)
    ensures DepsOf(specs, c) == [] && ParentsOf(specs, c) == []
    ensures forall p :: c !in ChildrenOf(specs, p)
  {
    if specs != [] {
      var front, last := specs[..|specs| - 1], specs[|specs| - 1];
      assert last in specs && forall s :: s in front ==> s in specs;
      UnknownDeps(front, c);
    }
  }

  lemma {:induction false} UniqueParents(specs: seq<Spec>, c: Id)
    requires Unique(specs)
    ensures ParentsOf(specs, c) == DepsOf(specs, c)
  {
    if specs != [] {
      var front, last := specs[..|specs| - 1], specs[|specs| - 1];
      if last.id == c {
        assert c !in Ids(front);
        UnknownDeps(front, c);
      } else {
        UniqueParents(front, c);
      }
    }
  }

  lemma {:induction false} EdgesFromCount(p: Id, child: Id, deps: seq<Id>, c: Id)
    ensures multiset(EdgesFrom(p, child, deps))[c] == if c == child then multiset(deps)[p] else 0
  {
    if deps != [] {
      var front, last := deps[..|deps| - 1], deps[|deps| - 1];
      assert deps == front + [last];
      EdgesFromCount(p, child, front, c);
    }
  }

  lemma UniqueConsistent(specs: seq<Spec>)
    requires Unique(specs)
    ensures Consistent(specs)
  {
    forall c
      ensures ParentsOf(specs, c) == DepsOf(specs, c)
    {
      UniqueParents(specs, c);
    }
  }

  /** The two adjacency lists mirror each other, multiplicities included, for any
      list of declarations. */
  lemma {:induction false} Mirror(specs: seq<Spec>, p: Id, c: Id)
    ensures multiset(ChildrenOf(specs, p))[c] == multiset(ParentsOf(specs, c))[p]
  {
    if specs != [] {
      var front, last := specs[..|specs| - 1], specs[|specs| - 1];
      Mirror(front, p, c);
      EdgesFromCount(p, last.id, last.deps, c);
    }
  }

  lemma ChildIffEdge(specs: seq<Spec>, p: Id, c: Id)
    requires Consistent(specs)
    ensures c in ChildrenOf(specs, p) <==> Edge(specs, p, c)
  {
    Mirror(specs, p, c);
    assert c in ChildrenOf(specs, p) <==> multiset(ChildrenOf(specs, p))[c] > 0;
    assert p in DepsOf(specs, c) <==> multiset(DepsOf(specs, c))[p] > 0;
    if c !in Ids(specs) {
      UnknownDeps(specs, c);
    }
  }

  // ---------------------------------------------------------------- Counting open dependencies

  /** How many dependencies, repeats included, are not yet done. */
  ghost function Open(deps: seq<Id>, done: set<Id>): nat {
    if deps == [] then 0
    else Open(deps[..|deps| - 1], done) + if deps[|deps| - 1] in done then 0 else 1
  }

  lemma {:induction false} OpenAfter(deps: seq<Id>, done: set<Id>, p: Id)
    requires p !in done
    ensures Open(deps, done) == Open(deps, done + {p}) + multiset(deps)[p]
  {
    if deps != [] {
      var front := deps[..|deps| - 1];
      assert deps == front + [deps[|deps| - 1]];
      OpenAfter(front, done, p);
    }
  }

  lemma {:induction false} OpenZero(deps: seq<Id>, done: set<Id>)
    ensures Open(deps, done) == 0 <==> forall d :: d in deps ==> d in done
    ensures Open(deps, {}) == |deps|
  {
    if deps != [] {
      var front, last := deps[..|deps| - 1], deps[|deps| - 1];
      assert deps == front + [last];
      OpenZero(front, done);
    }
  }

  lemma {:induction false} RelaxDegrees(children: seq<Id>, queue: seq<Id>, deg: Degrees, c: Id)
    requires (forall x :: x in children ==> x in deg) && c in deg
    ensures Relax(children, queue, deg).1[c] == deg[c] - multiset(children)[c]
  {
    if children != [] {
      var front, last := children[..|children| - 1], children[|children| - 1];
      assert children == front + [last];
      RelaxDegrees(front, queue, deg, c);
    }
  }

  /** Relaxing queues exactly the nodes whose in-degree crosses zero, each once. */
  lemma {:induction false} RelaxQueue(children: seq<Id>, queue: seq<Id>, deg: Degrees) returns (pushed: seq<Id>)
    requires forall c :: c in children ==> c in deg
    ensures Relax(children, queue, deg).0 == queue + pushed && NoDup(pushed)
    ensures forall c :: c in pushed <==> c in deg && deg[c] > 0 >= Relax(children, queue, deg).1[c]
  {
    pushed := [];
    if children != [] {
      var front, last := children[..|children| - 1], children[|children| - 1];
      pushed := RelaxQueue(front, queue, deg);
      RelaxDegrees(front, queue, deg, last);
      var d0 := Relax(front, queue, deg).1;
      var d := Relax(children, queue, deg).1;
      assert d == d0[last := d0[last] - 1];
      if d[last] == 0 {
        pushed := pushed + [last];
      }
    }
  }

  // ---------------------------------------------------------------- The loop invariant

  /** Each node stands after all its dependencies. */
  ghost predicate DepsFirst(specs: seq<Spec>, order: seq<Id>) {
    forall i, d :: 0 <= i < |order| && d in DepsOf(specs, order[i]) ==> d in order[..i]
  }

  /** Enough of c's parent entries are done to bring its in-degree, the number of
      dependencies of its last declaration, down to zero. */
  ghost predicate Enough(specs: seq<Spec>, c: Id, done: set<Id>) {
    |DepsOf(specs, c)| + Open(ParentsOf(specs, c), done) <= |ParentsOf(specs, c)|
  }

  ghost predicate EnoughFirst(specs: seq<Spec>, order: seq<Id>) {
    forall k :: 0 <= k < |order| ==> Enough(specs, order[k], Elems(order[..k]))
  }

  ghost function DegreeLeft(specs: seq<Spec>, c: Id, done: set<Id>): int {
    |DepsOf(specs, c)| - |ParentsOf(specs, c)| + Open(ParentsOf(specs, c), done)
  }

  /** For any list of declarations. An in-degree can fall below zero, when overridden
      declarations left edges behind. */
  ghost predicate KahnInvariant(specs: seq<Spec>, done: seq<Id>, queue: seq<Id>, deg: Degrees) {
    deg.Keys == Ids(specs)
    && NoDup(done + queue) && (forall x :: x in done + queue ==> x in deg)
    && EnoughFirst(specs, done)
    && (forall c :: c in deg ==> deg[c] == DegreeLeft(specs, c, Elems(done)))
    && (forall c :: c in deg ==> (deg[c] <= 0 <==> c in done + queue))
  }

  lemma EnoughAppend(specs: seq<Spec>, done: seq<Id>, x: Id)
    requires EnoughFirst(specs, done) && Enough(specs, x, Elems(done))
    ensures EnoughFirst(specs, done + [x])
  {
    hide Enough;
    var r := done + [x];
    forall k | 0 <= k < |r|
      ensures Enough(specs, r[k], Elems(r[..k]))
    {
      assert r[..k] == done[..k];
      assert k == |done| ==> done[..k] == done;
    }
  }

  lemma StepDegrees(specs: seq<Spec>, done: seq<Id>, x: Id, rest: seq<Id>, deg: Degrees, c: Id)
    requires deg.Keys == Ids(specs) && c in deg && x !in done && deg[c] == DegreeLeft(specs, c, Elems(done))
    ensures Relax(ChildrenOf(specs, x), rest, deg).1[c] == DegreeLeft(specs, c, Elems(done + [x])) <= deg[c]
  {
    hide Relax, ChildrenOf, DepsOf, ParentsOf, Open;
    RelaxDegrees(ChildrenOf(specs, x), rest, deg, c);
    Mirror(specs, x, c);
    OpenAfter(ParentsOf(specs, c), Elems(done), x);
    assert Elems(done + [x]) == Elems(done) + {x};
  }

  lemma StepQueue(children: seq<Id>, done: seq<Id>, queue: seq<Id>, deg: Degrees)
    requires queue != [] && NoDup(done + queue)
    requires (forall c :: c in children ==> c in deg) && forall x :: x in done + queue ==> x in deg
    requires forall c :: c in deg ==> (deg[c] <= 0 <==> c in done + queue)
    ensures var (q, d) := Relax(children, queue[1..], deg);
            NoDup(done + [queue[0]] + q)
            && forall c :: c in done + [queue[0]] + q <==> c in deg && (deg[c] <= 0 || deg[c] > 0 >= d[c])
  {
    hide Relax;
    var pushed := RelaxQueue(children, queue[1..], deg);
    var all := done + queue;
    assert done + [queue[0]] + (queue[1..] + pushed) == all + pushed;
    NoDupAppend(all, pushed);
  }

  lemma KahnStep(specs: seq<Spec>, done: seq<Id>, queue: seq<Id>, deg: Degrees)
    requires KahnInvariant(specs, done, queue, deg) && queue != []
    ensures var (q, d) := Relax(ChildrenOf(specs, queue[0]), queue[1..], deg);
            KahnInvariant(specs, done + [queue[0]], q, d)
  {
    hide Relax, ChildrenOf, DepsOf, ParentsOf, Open, Ids;
    var x := queue[0];
    var (q, d) := Relax(ChildrenOf(specs, x), queue[1..], deg);
    NoDupSplit(done, queue);
    assert x in done + queue;
    StepQueue(ChildrenOf(specs, x), done, queue, deg);
    EnoughAppend(specs, done, x);
    forall c | c in d
      ensures d[c] == DegreeLeft(specs, c, Elems(done + [x])) <= deg[c]
    {
      StepDegrees(specs, done, x, queue[1..], deg, c);
    }
  }

  lemma {:induction false} OpenShrinks(deps: seq<Id>, done: set<Id>, more: set<Id>)
    requires done <= more
    ensures Open(deps, more) <= Open(deps, done)
  {
    if deps != [] {
      OpenShrinks(deps[..|deps| - 1], done, more);
    }
  }

  lemma {:induction false} KahnRun(specs: seq<Spec>, done: seq<Id>, queue: seq<Id>, deg: Degrees)
    requires KahnInvariant(specs, done, queue, deg)
    ensures KahnInvariant(specs, done + Kahn(specs, queue, deg).sorted, [], Kahn(specs, queue, deg).deg)
    decreases |queue| + |Positive(deg)|
  {
    hide Relax, EnoughFirst, DegreeLeft, ChildrenOf;
    if queue == [] {
      assert done + [] == done;
    } else {
      var (q, d) := Relax(ChildrenOf(specs, queue[0]), queue[1..], deg);
      KahnStep(specs, done, queue, deg);
      KahnRun(specs, done + [queue[0]], q, d);
      assert done + Kahn(specs, queue, deg).sorted == done + [queue[0]] + Kahn(specs, q, d).sorted;
    }
  }

  /** The run validation makes, on any list of declarations. */
  lemma KahnFromStart(specs: seq<Spec>)
    ensures var r := KahnFrom(specs, DependencyCounts(specs));
            KahnInvariant(specs, r.sorted, [], r.deg) && r.sorted + [] == r.sorted
  {
    hide Kahn, ChildrenOf, DepsOf, ParentsOf, Open, Order, Ids;
    var deg := DependencyCounts(specs);
    var roots := WithDegree(Order(specs), deg, true);
    forall c | c in deg
      ensures deg[c] == DegreeLeft(specs, c, Elems([]))
    {
      OpenZero(ParentsOf(specs, c), {});
      assert Elems<Id>([]) == {};
    }
    assert [] + roots == roots;
    KahnRun(specs, [], roots, deg);
    var r := Kahn(specs, roots, deg);
    assert [] + r.sorted == r.sorted && r.sorted + [] == r.sorted;
  }

  // ---------------------------------------------------------------- Without edges of overridden declarations

  lemma ConsistentDepsFirst(specs: seq<Spec>, order: seq<Id>)
    requires Consistent(specs) && EnoughFirst(specs, order)
    ensures DepsFirst(specs, order)
  {
    forall i, d | 0 <= i < |order| && d in DepsOf(specs, order[i])
      ensures d in order[..i]
    {
      assert Enough(specs, order[i], Elems(order[..i]));
      OpenZero(DepsOf(specs, order[i]), Elems(order[..i]));
      assert d in Elems(order[..i]);
    }
  }

  /** The sort starts from the parent lists; there it makes the same run. */
  lemma SameRun(specs: seq<Spec>)
    requires Consistent(specs)
    ensures ParentCounts(specs) == DependencyCounts(specs)
    ensures TopologicalOrder(specs) == KahnFrom(specs, DependencyCounts(specs)).sorted
  {
    hide Kahn, Order;
    forall c | c in Ids(specs)
      ensures ParentCounts(specs)[c] == DependencyCounts(specs)[c]
    {
      assert ParentsOf(specs, c) == DepsOf(specs, c);
    }
    assert ParentCounts(specs) == DependencyCounts(specs);
  }

  // ---------------------------------------------------------------- What is never dequeued

  ghost function IndexOf(order: seq<Id>, x: Id): (i: nat)
    requires x in order
    ensures i < |order| && order[i] == x
  {
    var i :| 0 <= i < |order| && order[i] == x;
    i
  }

  /** Deps-first lists are closed under ancestors, and paths climb in them. */
  lemma {:induction false} PathClimbs(specs: seq<Spec>, order: seq<Id>, w: seq<Id>)
    requires DepsFirst(specs, order) && NoDup(order) && Path(specs, w) && w[|w| - 1] in order
    ensures forall i :: 0 <= i < |w| ==> w[i] in order
    ensures forall i, j :: 0 <= i < j < |w| ==> IndexOf(order, w[i]) < IndexOf(order, w[j])
  {
    if |w| > 1 {
      var n := |w| - 1;
      var front := w[..n];
      var k := IndexOf(order, w[n]);
      assert Edge(specs, w[n - 1], w[n]);
      assert w[n - 1] in order[..k];
      var m :| 0 <= m < k && order[m] == w[n - 1];
      assert Path(specs, front) && front[n - 1] == w[n - 1];
      PathClimbs(specs, order, front);
      forall i | 0 <= i < n
        ensures w[i] in order && IndexOf(order, w[i]) < k
      {
        assert front[i] == w[i];
        assert i < n - 1 ==> IndexOf(order, front[i]) < IndexOf(order, front[n - 1]);
      }
      forall i, j | 0 <= i < j < |w|
        ensures IndexOf(order, w[i]) < IndexOf(order, w[j])
      {
        assert j < n ==> front[i] == w[i] && front[j] == w[j];
      }
    }
  }

  /** A path that begins by going once round a cycle. */
  ghost predicate Rho(specs: seq<Spec>, w: seq<Id>, j: nat) {
    Path(specs, w) && 0 < j < |w| && w[0] == w[j]
  }

  /** x lies on a cycle or downstream of one. */
  ghost predicate CycleFeeds(specs: seq<Spec>, x: Id) {
    exists w, j: nat :: Rho(specs, w, j) && w[|w| - 1] == x
  }

  ghost predicate DependsInto(specs: seq<Spec>, c: Id, u: set<Id>) {
    exists d :: d in u && d in DepsOf(specs, c)
  }

  /** If every node of u has a dependency in u, one can walk back for ever. */
  lemma {:induction false} BackWalk(specs: seq<Spec>, u: set<Id>, x: Id, n: nat) returns (w: seq<Id>)
    requires u <= Ids(specs) && x in u
    requires forall c {:trigger DependsInto(specs, c, u)} :: c in u ==> DependsInto(specs, c, u)
    ensures |w| == n + 1 && w[n] == x && Path(specs, w) && forall i :: 0 <= i <= n ==> w[i] in u
    decreases n
  {
    if n == 0 {
      w := [x];
    } else {
      assert DependsInto(specs, x, u);
      var d :| d in u && d in DepsOf(specs, x);
      var v := BackWalk(specs, u, d, n - 1);
      PathAppend(specs, v, x);
      w := v + [x];
    }
  }

  lemma PathAppend(specs: seq<Spec>, v: seq<Id>, x: Id)
    requires Path(specs, v) && Edge(specs, v[|v| - 1], x)
    ensures Path(specs, v + [x])
  {
    var w := v + [x];
    forall i | 0 <= i < |w| - 1
      ensures Edge(specs, w[i], w[i + 1])
    {
      assert i < |v| - 1 ==> Edge(specs, v[i], v[i + 1]);
    }
  }

  lemma PathSlice(specs: seq<Spec>, w: seq<Id>, i: nat, j: nat)
    requires Path(specs, w) && i < j <= |w|
    ensures Path(specs, w[i..j])
  {
    var v := w[i..j];
    forall k | 0 <= k < |v| - 1
      ensures Edge(specs, v[k], v[k + 1])
    {
      assert Edge(specs, w[i + k], w[i + k + 1]);
    }
  }

  lemma LeftOverIsFed(specs: seq<Spec>, u: set<Id>, x: Id)
    requires u <= Ids(specs) && x in u
    requires forall c {:trigger DependsInto(specs, c, u)} :: c in u ==> DependsInto(specs, c, u)
    ensures CycleFeeds(specs, x)
  {
    var w := BackWalk(specs, u, x, |u|);
    var i, j := Pigeonhole(w, u);
    PathSlice(specs, w, i, |w|);
    var v := w[i..];
    assert v[0] == v[j - i] && v[|v| - 1] == x;
    assert Rho(specs, v, j - i);
  }

  lemma ReachedIsNotFed(specs: seq<Spec>, order: seq<Id>, x: Id)
    requires DepsFirst(specs, order) && NoDup(order) && x in order
    ensures !CycleFeeds(specs, x)
  {
    forall w, j: nat | Rho(specs, w, j)
      ensures w[|w| - 1] != x
    {
      if w[|w| - 1] == x {
        PathClimbs(specs, order, w);
        assert false;
      }
    }
  }

  lemma {:induction false} OpenAppend(a: seq<Id>, b: seq<Id>, done: set<Id>)
    ensures Open(a + b, done) == Open(a, done) + Open(b, done) && Open(b, done) <= |b|
  {
    if b == [] {
      assert a + b == a;
    } else {
      assert (a + b)[..|a + b| - 1] == a + b[..|b| - 1];
      OpenAppend(a, b[..|b| - 1], done);
    }
  }

  /** The parent entries contain the dependencies of the last declaration. */
  lemma {:induction false} DepsWithinParents(specs: seq<Spec>, c: Id, done: set<Id>)
    ensures |DepsOf(specs, c)| - Open(DepsOf(specs, c), done) <= |ParentsOf(specs, c)| - Open(ParentsOf(specs, c), done)
  {
    if specs != [] {
      var front, last := specs[..|specs| - 1], specs[|specs| - 1];
      if last.id == c {
        OpenAppend(ParentsOf(front, c), last.deps, done);
        OpenAppend([], ParentsOf(front, c), done);
        assert [] + ParentsOf(front, c) == ParentsOf(front, c);
      } else {
        DepsWithinParents(front, c, done);
        assert ParentsOf(front, c) + [] == ParentsOf(front, c);
      }
    }
  }

  /** Who is dequeued when validation runs the loop, on any list of declarations. */
  lemma RunFacts(specs: seq<Spec>)
    ensures var r := KahnFrom(specs, DependencyCounts(specs));
            NoDup(r.sorted) && Elems(r.sorted) <= Ids(specs) && EnoughFirst(specs, r.sorted)
            && forall x :: x in Ids(specs) ==>
                 (r.deg[x] <= 0 <==> x in r.sorted) && r.deg[x] == DegreeLeft(specs, x, Elems(r.sorted))
  {
    hide KahnFrom, DegreeLeft, EnoughFirst, Ids;
    KahnFromStart(specs);
  }

  /** A node never dequeued lies on a cycle or downstream of one: the loop's word
      against a graph can be trusted on any list whose dependencies exist. */
  lemma LeftOverExact(specs: seq<Spec>, x: Id)
    requires Closed(specs) && x in Ids(specs) && x !in KahnFrom(specs, DependencyCounts(specs)).sorted
    ensures CycleFeeds(specs, x)
  {
    hide KahnFrom, DepsOf, ParentsOf, Open, Ids, CycleFeeds;
    RunFacts(specs);
    var done := Elems(KahnFrom(specs, DependencyCounts(specs)).sorted);
    var u := Ids(specs) - done;
    forall c | c in u
      ensures DependsInto(specs, c, u)
    {
      DepsWithinParents(specs, c, done);
      OpenZero(DepsOf(specs, c), done);
      assert DepsKnown(specs, c);
    }
    LeftOverIsFed(specs, u, x);
  }

  /** Where only last declarations have edges, the nodes Kahn's loop never reaches are
      exactly those that some cycle feeds. */
  lemma RemainingExact(specs: seq<Spec>, x: Id)
    requires Consistent(specs) && Closed(specs) && x in Ids(specs)
    ensures x !in TopologicalOrder(specs) <==> CycleFeeds(specs, x)
  {
    hide KahnFrom, Ids, CycleFeeds, DegreeLeft, DepsFirst, EnoughFirst;
    SameRun(specs);
    RunFacts(specs);
    var order := TopologicalOrder(specs);
    ConsistentDepsFirst(specs, order);
    if x in order {
      ReachedIsNotFed(specs, order, x);
    } else {
      LeftOverExact(specs, x);
    }
  }

  lemma AcyclicIffNothingFed(specs: seq<Spec>)
    ensures Acyclic(specs) <==> forall x :: x in Ids(specs) ==> !CycleFeeds(specs, x)
  {
    forall x | x in Ids(specs) && CycleFeeds(specs, x)
      ensures !Acyclic(specs)
    {
      var w, j: nat :| Rho(specs, w, j) && w[|w| - 1] == x;
      PathSlice(specs, w, 0, j + 1);
      assert Cycle(specs, w[0..j + 1]);
    }
    forall w | Cycle(specs, w)
      ensures w[0] in Ids(specs) && CycleFeeds(specs, w[0])
    {
      assert Rho(specs, w, |w| - 1);
    }
  }

  // ---------------------------------------------------------------- Main results

  /** On an acyclic graph the order lists every node once, dependencies first. */
  lemma TopologicalExact(specs: seq<Spec>)
    requires Consistent(specs) && Closed(specs) && Acyclic(specs)
    ensures NoDup(TopologicalOrder(specs)) && Elems(TopologicalOrder(specs)) == Ids(specs)
    ensures DepsFirst(specs, TopologicalOrder(specs))
  {
    hide KahnFrom, Ids, CycleFeeds, DegreeLeft, DepsFirst, EnoughFirst, Acyclic;
    SameRun(specs);
    RunFacts(specs);
    ConsistentDepsFirst(specs, TopologicalOrder(specs));
    AcyclicIffNothingFed(specs);
    forall x | x in Ids(specs)
      ensures x in TopologicalOrder(specs)
    {
      RemainingExact(specs, x);
    }
  }

  lemma LastIsLeaf(specs: seq<Spec>, order: seq<Id>)
    requires Consistent(specs) && order != []
    requires DepsFirst(specs, order) && NoDup(order) && Elems(order) == Ids(specs)
    ensures ChildrenOf(specs, order[|order| - 1]) == []
  {
    var last := order[|order| - 1];
    assert IndexOf(order, last) == |order| - 1;
    if ChildrenOf(specs, last) != [] {
      var c := ChildrenOf(specs, last)[0];
      ChildIffEdge(specs, last, c);
      assert c in Elems(order);
      EdgeClimbs(specs, order, last, c);
      assert false;
    }
  }

  lemma EdgeClimbs(specs: seq<Spec>, order: seq<Id>, p: Id, c: Id)
    requires DepsFirst(specs, order) && NoDup(order) && Edge(specs, p, c) && c in order
    ensures p in order && IndexOf(order, p) < IndexOf(order, c)
  {
    var k := IndexOf(order, c);
    assert p in order[..k];
  }

  // ---------------------------------------------------------------- Validation

  /** Some order of all ids has enough parent entries before each. */
  ghost predicate Sortable(specs: seq<Spec>) {
    exists order :: SortsAll(specs, order)
  }

  ghost predicate SortsAll(specs: seq<Spec>, order: seq<Id>) {
    NoDup(order) && Elems(order) == Ids(specs) && EnoughFirst(specs, order)
  }

  /** Some node has no children, those of overridden declarations included. */
  ghost predicate HasLeaf(specs: seq<Spec>) {
    exists c :: c in Ids(specs) && ChildrenOf(specs, c) == []
  }

  /** The loop gets as far as any order does. */
  lemma {:induction false} LoopIsGreedy(specs: seq<Spec>, order: seq<Id>, k: nat)
    requires SortsAll(specs, order) && k <= |order|
    ensures Elems(order[..k]) <= Elems(KahnFrom(specs, DependencyCounts(specs)).sorted)
  {
    hide KahnFrom, DepsOf, ParentsOf, Open, Ids;
    if k > 0 {
      LoopIsGreedy(specs, order, k - 1);
      RunFacts(specs);
      var done := Elems(KahnFrom(specs, DependencyCounts(specs)).sorted);
      var c := order[k - 1];
      assert order[..k] == order[..k - 1] + [c];
      assert c in Elems(order) && Enough(specs, c, Elems(order[..k - 1]));
      OpenShrinks(ParentsOf(specs, c), Elems(order[..k - 1]), done);
    }
  }

  /** The count comparison succeeds exactly on the sortable lists. */
  lemma CountReachesAllIff(specs: seq<Spec>)
    ensures |KahnFrom(specs, DependencyCounts(specs)).sorted| == |Order(specs)| <==> Sortable(specs)
  {
    hide KahnFrom, EnoughFirst, Order, DegreeLeft, Ids;
    RunFacts(specs);
    var sorted := KahnFrom(specs, DependencyCounts(specs)).sorted;
    NoDupLength(sorted);
    NoDupLength(Order(specs));
    assert Elems(Order(specs)) == Ids(specs);
    SubsetSize(Elems(sorted), Ids(specs));
    if |sorted| == |Order(specs)| {
      assert SortsAll(specs, sorted);
    }
    if Sortable(specs) {
      var order :| SortsAll(specs, order);
      LoopIsGreedy(specs, order, |order|);
      assert order[..|order|] == order;
      assert Elems(sorted) == Ids(specs);
    }
  }

  lemma AcyclicIsSortable(specs: seq<Spec>)
    requires Closed(specs) && Acyclic(specs)
    ensures Sortable(specs)
  {
    hide KahnFrom, EnoughFirst, DegreeLeft, Ids, CycleFeeds, Acyclic;
    RunFacts(specs);
    AcyclicIffNothingFed(specs);
    var sorted := KahnFrom(specs, DependencyCounts(specs)).sorted;
    forall x | x in Ids(specs)
      ensures x in Elems(sorted)
    {
      if x !in sorted {
        LeftOverExact(specs, x);
      }
    }
    assert SortsAll(specs, sorted);
  }

  /** Where only last declarations have edges, the sortable graphs are the acyclic
      ones, and they have a leaf. */
  lemma ConsistentSortableIff(specs: seq<Spec>)
    requires Consistent(specs) && Closed(specs)
    ensures Sortable(specs) <==> Acyclic(specs)
    ensures Acyclic(specs) && specs != [] ==> HasLeaf(specs)
  {
    hide EnoughFirst, Ids, CycleFeeds, Acyclic, DepsFirst, TopologicalOrder;
    if Sortable(specs) {
      var order :| SortsAll(specs, order);
      ConsistentDepsFirst(specs, order);
      forall x | x in Ids(specs)
        ensures !CycleFeeds(specs, x)
      {
        assert x in Elems(order);
        ReachedIsNotFed(specs, order, x);
      }
      AcyclicIffNothingFed(specs);
    }
    if Acyclic(specs) {
      AcyclicIsSortable(specs);
      if specs != [] {
        TopologicalExact(specs);
        var order := TopologicalOrder(specs);
        FirstIsId(specs);
        LastIsLeaf(specs, order);
        assert order[|order| - 1] in Elems(order);
      }
    }
  }

  lemma FirstIsId(specs: seq<Spec>)
    requires specs != []
    ensures specs[0].id in Ids(specs)
  {}

  lemma ClosedIffNoneDangling(specs: seq<Spec>)
    ensures FirstDangling(specs, Order(specs)) == None <==> Closed(specs)
  {}

  /** A sortable list has a root, where the loop starts. */
  lemma SortableHasRoot(specs: seq<Spec>)
    requires Sortable(specs) && specs != []
    ensures WithDegree(Order(specs), DependencyCounts(specs), true) != []
  {
    hide Order, Ids;
    var order :| SortsAll(specs, order);
    FirstIsId(specs);
    assert order != [] by { assert specs[0].id in Elems(order); }
    assert Enough(specs, order[0], Elems(order[..0]));
    OpenZero(ParentsOf(specs, order[0]), {});
    assert Elems(order[..0]) == {} && order[0] in Elems(order);
    assert order[0] in WithDegree(Order(specs), DependencyCounts(specs), true);
  }

  /** What validation accepts, for any list of declarations; on acyclic ones it
      errs exactly where no node is a leaf, and nowhere if only last declarations
      have edges. */
  lemma ValidateExact(specs: seq<Spec>)
    ensures Validate(specs).MissingDependency? <==> !Closed(specs)
    ensures Validate(specs).Valid? <==> specs != [] && Closed(specs) && Sortable(specs) && HasLeaf(specs)
    ensures Validate(specs).NoLeaves? <==> specs != [] && Closed(specs) && Sortable(specs) && !HasLeaf(specs)
    ensures specs != [] && Closed(specs) && Acyclic(specs) ==> (Validate(specs).Valid? <==> HasLeaf(specs))
    ensures Consistent(specs) ==>
      (Validate(specs).Valid? <==> specs != [] && Closed(specs) && Acyclic(specs)) && !Validate(specs).NoLeaves?
  {
    hide KahnFrom, DepsOf, ChildrenOf, Sortable, FirstDangling, Consistent, Acyclic;
    ClosedIffNoneDangling(specs);
    CountReachesAllIff(specs);
    if specs != [] && Sortable(specs) {
      SortableHasRoot(specs);
    }
    if Closed(specs) && Acyclic(specs) {
      AcyclicIsSortable(specs);
    }
    if Closed(specs) && Consistent(specs) {
      ConsistentSortableIff(specs);
    }
    assert specs == [] ==> Order(specs) == [];
  }

  /** What a rejection claims is true of any list: the listed nodes are fed by a
      cycle, and without a root every node is. Where only last declarations have
      edges, no fed node is missing from the list. */
  lemma RejectionExact(specs: seq<Spec>)
    ensures Validate(specs).HasCycle? ==>
      Validate(specs).remaining != [] && forall x :: x in Validate(specs).remaining ==>
        x in Ids(specs) && CycleFeeds(specs, x)
    ensures Validate(specs).NoRoots? ==> forall x :: x in Ids(specs) ==> CycleFeeds(specs, x)
    ensures Validate(specs).HasCycle? || (Validate(specs).NoRoots? && specs != []) ==> !Acyclic(specs)
    ensures Consistent(specs) && Validate(specs).HasCycle? ==>
      forall x :: x in Ids(specs) && CycleFeeds(specs, x) ==> x in Validate(specs).remaining
  {
    hide KahnFrom, Order, FirstDangling, Acyclic, CycleFeeds, ChildrenOf, Consistent;
    ClosedIffNoneDangling(specs);
    if Closed(specs) {
      NotReachedIsFed(specs);
      AcyclicIffNothingFed(specs);
      if Validate(specs).NoRoots? {
        NoRootsNoRun(specs);
        if specs != [] {
          FirstIsId(specs);
        }
      } else if Validate(specs).HasCycle? {
        SomethingRemains(specs);
        assert Validate(specs).remaining[0] in Validate(specs).remaining;
        if Consistent(specs) {
          CountDetectsCycles(specs);
        }
      }
    }
  }

  lemma NotReachedIsFed(specs: seq<Spec>)
    requires Closed(specs)
    ensures var r := KahnFrom(specs, DependencyCounts(specs));
            forall x :: x in Ids(specs) ==>
              (r.deg[x] > 0 <==> x !in r.sorted) && (x !in r.sorted ==> CycleFeeds(specs, x))
  {
    hide KahnFrom, CycleFeeds, EnoughFirst, DegreeLeft, DepsKnown;
    RunFacts(specs);
    forall x | x in Ids(specs) && x !in KahnFrom(specs, DependencyCounts(specs)).sorted
      ensures CycleFeeds(specs, x)
    {
      LeftOverExact(specs, x);
    }
  }

  lemma NoRootsNoRun(specs: seq<Spec>)
    requires WithDegree(Order(specs), DependencyCounts(specs), true) == []
    ensures KahnFrom(specs, DependencyCounts(specs)).sorted == []
  {}

  lemma SomethingRemains(specs: seq<Spec>)
    requires |KahnFrom(specs, DependencyCounts(specs)).sorted| != |Order(specs)|
    ensures WithDegree(Order(specs), KahnFrom(specs, DependencyCounts(specs)).deg, false) != []
  {
    hide KahnFrom, EnoughFirst, DegreeLeft, Order, Ids;
    RunFacts(specs);
    var r := KahnFrom(specs, DependencyCounts(specs));
    NoDupLength(r.sorted);
    NoDupLength(Order(specs));
    assert Elems(Order(specs)) == Ids(specs);
    var rest := Ids(specs) - Elems(r.sorted);
    assert Ids(specs) == Elems(r.sorted) + rest;
    assert |rest| != 0;
    var x :| x in rest;
    assert x in WithDegree(Order(specs), r.deg, false);
  }

  /** Where only last declarations have edges, the count comparison notices exactly
      the cycles, and what it reports as remaining is exactly what a cycle feeds. */
  lemma CountDetectsCycles(specs: seq<Spec>)
    requires Consistent(specs) && Closed(specs)
    ensures var r := KahnFrom(specs, DependencyCounts(specs));
            (|r.sorted| == |Order(specs)| <==> Acyclic(specs))
            && forall x :: x in WithDegree(Order(specs), r.deg, false) <==> x in Ids(specs) && CycleFeeds(specs, x)
  {
    hide KahnFrom, Sortable, DepsOf, ChildrenOf, CycleFeeds, Acyclic, Order, EnoughFirst, DegreeLeft;
    CountReachesAllIff(specs);
    ConsistentSortableIff(specs);
    SameRun(specs);
    RunFacts(specs);
    forall x | x in Ids(specs)
      ensures x !in KahnFrom(specs, DependencyCounts(specs)).sorted <==> CycleFeeds(specs, x)
    {
      RemainingExact(specs, x);
    }
  }

  lemma AddedNodeLists(specs: seq<Spec>, s: Spec)
    requires Unique(specs) && Closed(specs)
    requires s.id !in Ids(specs) && forall d :: d in s.deps ==> d in Ids(specs)
    ensures Unique(specs + [s]) && Closed(specs + [s])
    ensures Ids(specs + [s]) == Ids(specs) + {s.id}
    ensures forall c :: DepsOf(specs + [s], c) == if c == s.id then s.deps else DepsOf(specs, c)
  {
    hide Order, Unique;
    var all := specs + [s];
    SnocIds(specs, s);
    SnocUnique(specs, s);
    assert all[..|specs|] == specs;
    hide Ids, DepsOf;
    forall c | c in Ids(all)
      ensures DepsKnown(all, c)
    {
      assert c in Ids(specs) ==> DepsKnown(specs, c);
    }
  }

  lemma SnocUnique(specs: seq<Spec>, s: Spec)
    requires Unique(specs) && s.id !in Ids(specs)
    ensures Unique(specs + [s])
  {
    assert forall i :: 0 <= i < |specs| ==> specs[i].id in Ids(specs);
  }

  /** A node added below existing ones keeps a graph well formed and acyclic. */
  lemma AddedNodeKeepsAcyclic(specs: seq<Spec>, s: Spec)
    requires Unique(specs) && Closed(specs) && Acyclic(specs)
    requires s.id !in Ids(specs) && forall d :: d in s.deps ==> d in Ids(specs)
    ensures Unique(specs + [s]) && Closed(specs + [s]) && Acyclic(specs + [s])
    ensures Ids(specs + [s]) == Ids(specs) + {s.id}
    ensures forall c :: DepsOf(specs + [s], c) == if c == s.id then s.deps else DepsOf(specs, c)
  {
    hide Ids, DepsOf, Unique;
    var all := specs + [s];
    AddedNodeLists(specs, s);
    forall w | Cycle(all, w)
      ensures Cycle(specs, w)
    {
      forall i | 0 <= i < |w| - 1
        ensures w[i] in Ids(specs)
      {
        assert Edge(all, w[i], w[i + 1]);
        assert w[i + 1] in Ids(specs) ==> DepsKnown(specs, w[i + 1]);
      }
      forall i | 0 <= i < |w| - 1
        ensures Edge(specs, w[i], w[i + 1])
      {
        assert Edge(all, w[i], w[i + 1]);
      }
    }
  }

  lemma SnocIds(front: seq<Spec>, last: Spec)
    ensures Order(front + [last]) == if last.id in Order(front) then Order(front) else Order(front) + [last.id]
    ensures Ids(front + [last]) == Ids(front) + {last.id}
  {
    assert (front + [last])[..|front|] == front;
  }
}
