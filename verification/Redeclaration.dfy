/** Lists that declare an id more than once. The node dict keeps the last declaration
    while the edges of all of them stay (backend/app/orchestration/dag.py:39-46), and
    validation can err both ways. */
module Redeclaration {
  import opened Prelude
  import opened Graph
  import opened GraphTheorems

  // ---------------------------------------------------------------- When no stray edge is left

  ghost predicate Overridden(specs: seq<Spec>, i: nat)
    requires i < |specs|
  {
    exists j :: i < j < |specs| && specs[j].id == specs[i].id
  }

  lemma {:induction false} ParentsAreDepsIff(specs: seq<Spec>, c: Id)
    ensures |DepsOf(specs, c)| <= |ParentsOf(specs, c)|
    ensures ParentsOf(specs, c) == DepsOf(specs, c)
       <==> forall i :: 0 <= i < |specs| && specs[i].id == c && Overridden(specs, i) ==> specs[i].deps == []
  {
    if specs != [] {
      var front, last := specs[..|specs| - 1], specs[|specs| - 1];
      assert specs == front + [last];
      ParentsAreDepsIff(front, c);
      NoParentsIff(front, c);
      assert forall i :: 0 <= i < |front| ==>
        specs[i] == front[i] && (Overridden(specs, i) <==> Overridden(front, i) || front[i].id == last.id) by {
        forall i | 0 <= i < |front|
          ensures Overridden(specs, i) <==> Overridden(front, i) || front[i].id == last.id
        {
          OverriddenMore(front, last, i);
        }
      }
      assert !Overridden(specs, |front|);
      if last.id == c {
        assert ParentsOf(specs, c) == ParentsOf(front, c) + last.deps;
        assert ParentsOf(specs, c) == last.deps <==> ParentsOf(front, c) == [];
      }
    }
  }

  lemma OverriddenMore(front: seq<Spec>, last: Spec, i: nat)
    requires i < |front|
    ensures Overridden(front + [last], i) <==> Overridden(front, i) || front[i].id == last.id
  {
    var specs := front + [last];
    if Overridden(front, i) {
      var j :| i < j < |front| && front[j].id == front[i].id;
      assert specs[j].id == specs[i].id;
    }
    if front[i].id == last.id {
      assert specs[|front|].id == specs[i].id;
    }
  }

  lemma {:induction false} NoParentsIff(specs: seq<Spec>, c: Id)
    ensures ParentsOf(specs, c) == [] <==> forall i :: 0 <= i < |specs| && specs[i].id == c ==> specs[i].deps == []
  {
    if specs != [] {
      var front := specs[..|specs| - 1];
      NoParentsIff(front, c);
      assert forall i :: 0 <= i < |front| ==> specs[i] == front[i];
    }
  }

  /** What a caller can check: only last declarations of an id have dependencies. */
  lemma ConsistentIff(specs: seq<Spec>)
    ensures Consistent(specs) <==> forall i :: 0 <= i < |specs| && Overridden(specs, i) ==> specs[i].deps == []
  {
    hide Overridden;
    forall c
      ensures ParentsOf(specs, c) == DepsOf(specs, c)
         <==> forall i :: 0 <= i < |specs| && specs[i].id == c && Overridden(specs, i) ==> specs[i].deps == []
    {
      ParentsAreDepsIff(specs, c);
    }
    if Consistent(specs) {
      forall i | 0 <= i < |specs| && Overridden(specs, i)
        ensures specs[i].deps == []
      {
        assert ParentsOf(specs, specs[i].id) == DepsOf(specs, specs[i].id);
      }
    }
  }

  // ---------------------------------------------------------------- Two lists validation misjudges

  lemma EdgesFromOne(p: Id, child: Id, dep: Id)
    ensures EdgesFrom(p, child, [dep]) == if dep == p then [child] else []
    ensures EdgesFrom(p, child, []) == []
  {
    assert [dep][..0] == [];
  }

  lemma NothingDeclared(c: Id)
    ensures Ids([]) == {} && DepsOf([], c) == [] && ParentsOf([], c) == [] && ChildrenOf([], c) == []
  {}

  /** The lists after one more declaration with at most one dependency. */
  lemma SnocAt(front: seq<Spec>, last: Spec, c: Id)
    requires |last.deps| <= 1
    ensures DepsOf(front + [last], c) == if last.id == c then last.deps else DepsOf(front, c)
    ensures ParentsOf(front + [last], c) == ParentsOf(front, c) + if last.id == c then last.deps else []
    ensures ChildrenOf(front + [last], c)
         == ChildrenOf(front, c) + if last.deps == [c] then [last.id] else []
  {
    assert (front + [last])[..|front|] == front;
    if |last.deps| == 1 {
      EdgesFromOne(c, last.id, last.deps[0]);
      assert last.deps == [last.deps[0]];
    }
  }

  /** Declares a twice: first depending on r, then on itself. */
  function HiddenCycle(r: Id, a: Id, z: Id): seq<Spec> {
    [] + [Spec(r, [])] + [Spec(a, [r])] + [Spec(a, [a])] + [Spec(z, [])]
  }

  lemma HiddenCycleIds(r: Id, a: Id, z: Id)
    ensures Ids(HiddenCycle(r, a, z)) == {r, a, z}
  {
    hide Ids, Order;
    SnocIds([], Spec(r, []));
    SnocIds([] + [Spec(r, [])], Spec(a, [r]));
    SnocIds([] + [Spec(r, [])] + [Spec(a, [r])], Spec(a, [a]));
    SnocIds([] + [Spec(r, [])] + [Spec(a, [r])] + [Spec(a, [a])], Spec(z, []));
    NothingDeclared(r);
  }

  lemma HiddenCycleAt(r: Id, a: Id, z: Id, c: Id)
    requires r != a && a != z && z != r
    ensures DepsOf(HiddenCycle(r, a, z), c) == if c == a then [a] else []
    ensures ParentsOf(HiddenCycle(r, a, z), c) == if c == a then [r, a] else []
    ensures c == z ==> ChildrenOf(HiddenCycle(r, a, z), c) == []
  {
    hide DepsOf, ParentsOf, ChildrenOf;
    NothingDeclared(c);
    SnocAt([], Spec(r, []), c);
    SnocAt([] + [Spec(r, [])], Spec(a, [r]), c);
    SnocAt([] + [Spec(r, [])] + [Spec(a, [r])], Spec(a, [a]), c);
    SnocAt([] + [Spec(r, [])] + [Spec(a, [r])] + [Spec(a, [a])], Spec(z, []), c);
  }

  /** A stray edge stands in for the dependency that closes the cycle: a list whose
      second declaration of a depends on a itself is accepted. */
  lemma StrayEdgeHidesCycle(r: Id, a: Id, z: Id)
    requires r != a && a != z && z != r
    ensures Validate(HiddenCycle(r, a, z)).Valid? && Cycle(HiddenCycle(r, a, z), [a, a])
  {
    hide DepsOf, ParentsOf, ChildrenOf, Ids, Validate, Open;
    var specs := HiddenCycle(r, a, z);
    HiddenCycleIds(r, a, z);
    HiddenCycleAt(r, a, z, r);
    HiddenCycleAt(r, a, z, a);
    HiddenCycleAt(r, a, z, z);
    ValidateExact(specs);
    assert Closed(specs) && HasLeaf(specs);
    HiddenCycleSorts(specs, r, a, z);
    assert Edge(specs, a, a);
  }

  lemma HiddenCycleSorts(specs: seq<Spec>, r: Id, a: Id, z: Id)
    requires r != a && a != z && z != r && Ids(specs) == {r, a, z}
    requires DepsOf(specs, r) == ParentsOf(specs, r) == [] && DepsOf(specs, z) == ParentsOf(specs, z) == []
    requires DepsOf(specs, a) == [a] && ParentsOf(specs, a) == [r, a]
    ensures Sortable(specs)
  {
    hide DepsOf, ParentsOf, Ids;
    var order := [r, a, z];
    assert order[..0] == [] && order[..1] == [r] && order[..2] == [r, a];
    assert [r, a][..1] == [r] && [r][..0] == [];
    assert r in Elems([r]) && Open([r], Elems([r])) == 0;
    assert Open([r, a], Elems([r, a][..1])) <= 1;
    assert EnoughFirst(specs, order);
    assert SortsAll(specs, order);
  }

  /** Declares a twice: first depending on b, then on nothing. */
  function HiddenLeaf(a: Id, b: Id): seq<Spec> {
    [] + [Spec(a, [b])] + [Spec(a, [])] + [Spec(b, [a])]
  }

  lemma HiddenLeafIds(a: Id, b: Id)
    ensures Ids(HiddenLeaf(a, b)) == {a, b}
  {
    hide Ids, Order;
    SnocIds([], Spec(a, [b]));
    SnocIds([] + [Spec(a, [b])], Spec(a, []));
    SnocIds([] + [Spec(a, [b])] + [Spec(a, [])], Spec(b, [a]));
    NothingDeclared(a);
  }

  lemma HiddenLeafAt(a: Id, b: Id, c: Id)
    requires a != b
    ensures DepsOf(HiddenLeaf(a, b), c) == if c == b then [a] else []
    ensures ChildrenOf(HiddenLeaf(a, b), c) == if c == a then [b] else if c == b then [a] else []
  {
    hide DepsOf, ParentsOf, ChildrenOf;
    NothingDeclared(c);
    SnocAt([], Spec(a, [b]), c);
    SnocAt([] + [Spec(a, [b])], Spec(a, []), c);
    SnocAt([] + [Spec(a, [b])] + [Spec(a, [])], Spec(b, [a]), c);
  }

  lemma OneEdgeIsAcyclic(specs: seq<Spec>, a: Id, b: Id)
    requires a != b && forall p, c :: Edge(specs, p, c) ==> p == a && c == b
    ensures Acyclic(specs)
  {
    forall w | Path(specs, w) && |w| >= 2
      ensures w[0] != w[|w| - 1]
    {
      assert Edge(specs, w[0], w[1]);
      assert Edge(specs, w[|w| - 2], w[|w| - 2 + 1]);
    }
  }

  /** A stray edge hides the only leaf: an acyclic list whose dependencies all exist
      is refused. */
  lemma StrayEdgeHidesLeaf(a: Id, b: Id)
    requires a != b
    ensures Closed(HiddenLeaf(a, b)) && Acyclic(HiddenLeaf(a, b)) && Validate(HiddenLeaf(a, b)).NoLeaves?
  {
    hide DepsOf, ChildrenOf, Ids, Validate;
    var specs := HiddenLeaf(a, b);
    HiddenLeafIds(a, b);
    HiddenLeafAt(a, b, a);
    HiddenLeafAt(a, b, b);
    OneEdgeIsAcyclic(specs, a, b);
    assert Closed(specs) && !HasLeaf(specs);
    AcyclicIsSortable(specs);
    ValidateExact(specs);
  }
}
