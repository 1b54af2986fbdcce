/** A cluster of honest nodes under an arbitrary schedule of pull rounds, with no
    new writes (backend/app/crdt/gossip.py:110-182): who ends up with what. */
module Convergence {
  import opened Prelude
  import opened Store
  import opened Sync
  import opened Gossip
  import opened GossipTheorems
  import opened HonestPeer
  import M = Merkle

  datatype Node = Node(rows: seq<Row>, workflows: set<string>)

  /** One round: `puller` reconciles with `peer`. */
  datatype Pull = Pull(puller: nat, peer: nat)

  ghost predicate Fits(schedule: seq<Pull>, n: nat) {
    forall k :: 0 <= k < |schedule| ==> schedule[k].puller < n && schedule[k].peer < n
  }

  ghost function AfterRound(w: World, node: Node, peer: Node): Node {
    var s := Round(w, Honest(w, peer.rows, None), node.rows, node.workflows, None);
    Node(s.rows, s.workflows)
  }

  ghost function Run(w: World, nodes: seq<Node>, schedule: seq<Pull>): (r: seq<Node>)
    requires Fits(schedule, |nodes|)
    ensures |r| == |nodes|
  {
    if schedule == [] then nodes
    else
      var last := schedule[|schedule| - 1];
      var before := Run(w, nodes, schedule[..|schedule| - 1]);
      before[last.puller := AfterRound(w, before[last.puller], before[last.peer])]
  }

  /** No hashed row has been superseded or archived. */
  ghost predicate AllActive(rows: seq<Row>) {
    forall i :: 0 <= i < |rows| && rows[i].hash.Some? ==> rows[i].state == ACTIVE
  }

  ghost predicate Good(w: World, node: Node) {
    Healthy(w, node.rows) && AllActive(node.rows)
  }

  ghost predicate AllGood(w: World, nodes: seq<Node>) {
    forall k :: 0 <= k < |nodes| ==> Good(w, nodes[k])
  }

  /** SHA-256 does not collide on the texts of the two summaries a pull compares. */
  ghost predicate PullFaithful(w: World, node: Node, peer: Node) {
    SummariesFaithful(w, Hashes(node.rows), Hashes(peer.rows))
  }

  /** Nor in any pull of the schedule. */
  ghost predicate RunFaithful(w: World, nodes: seq<Node>, schedule: seq<Pull>)
    requires Fits(schedule, |nodes|)
  {
    forall k :: 0 <= k < |schedule| ==>
      var before := Run(w, nodes, schedule[..k]);
      PullFaithful(w, before[schedule[k].puller], before[schedule[k].peer])
  }

  // ---------------------------------------------------------------- One pull

  lemma ActiveIsAll(w: World, rows: seq<Row>)
    requires Healthy(w, rows) && AllActive(rows)
    ensures ActiveSet(rows, None) == Hashes(rows)
  {
    NoEmptyHash(w, rows);
    hide ActiveSet, Hashes, Genuine, Portable;
    forall h
      ensures h in ActiveSet(rows, None) <==> h in Hashes(rows)
    {
      ActiveIn(rows, None, h);
      if h in Hashes(rows) {
        var i := HashIndex(rows, h);
        assert Advertised(rows[i], None);
      }
      if h in ActiveSet(rows, None) {
        var i :| 0 <= i < |rows| && Advertised(rows[i], None) && rows[i].hash == Some(h);
        RowInHashes(rows, rows[i]);
      }
    }
  }

  lemma CopiedHealthy(w: World, a: seq<Row>, b: seq<Row>, source: seq<Row>)
    requires Healthy(w, a) && Healthy(w, source) && AllActive(a) && AllActive(source) && Copied(a, b, source) &&
      StoreOk(w, b)
    ensures Healthy(w, b) && AllActive(b)
  {
    hide Genuine, Portable;
    forall i | 0 <= i < |b| && b[i].hash.Some?
      ensures Portable(w, b[i]) && b[i].state == ACTIVE
    {
      if i < |a| {
        assert b[i] == a[i];
      } else {
        var j :| 0 <= j < |source| && source[j] == b[i];
      }
    }
  }

  /** A pull makes the puller's set the union of the two and leaves it fit to be
      pulled from. */
  lemma PullIsUnion(w: World, node: Node, peer: Node)
    requires Sound(w) && PullFaithful(w, node, peer) && Good(w, node) && Good(w, peer)
    ensures Good(w, AfterRound(w, node, peer))
    ensures Copied(node.rows, AfterRound(w, node, peer).rows, peer.rows)
    ensures Hashes(AfterRound(w, node, peer).rows) == Hashes(node.rows) + Hashes(peer.rows)
  {
    hide Sound, StoreOk, Portable, ActiveSet, Hashes, Round, Copied, SummariesFaithful, AllActive;
    ActiveIsAll(w, node.rows);
    ActiveIsAll(w, peer.rows);
    HonestRoundIsUnion(w, node.rows, peer.rows, node.workflows, None);
    RoundKeepsStore(w, Honest(w, peer.rows, None), node.rows, node.workflows, None);
    CopiedHealthy(w, node.rows, AfterRound(w, node, peer).rows, peer.rows);
  }

  // ---------------------------------------------------------------- Paths

  /** Pulls ks of the schedule, in order, carry records from node i to node j. */
  ghost predicate TimePath(schedule: seq<Pull>, i: nat, j: nat, ks: seq<nat>) {
    && (forall a :: 0 <= a < |ks| ==> ks[a] < |schedule|)
    && (forall a, b :: 0 <= a < b < |ks| ==> ks[a] < ks[b])
    && (forall a :: 0 < a < |ks| ==> schedule[ks[a]].peer == schedule[ks[a - 1]].puller)
    && (if ks == [] then i == j else schedule[ks[0]].peer == i && schedule[ks[|ks| - 1]].puller == j)
  }

  ghost predicate Reaches(schedule: seq<Pull>, i: nat, j: nat) {
    exists ks: seq<nat> :: TimePath(schedule, i, j, ks)
  }

  lemma PathExtends(schedule: seq<Pull>, last: Pull, i: nat, j: nat, ks: seq<nat>)
    requires TimePath(schedule, i, j, ks)
    ensures TimePath(schedule + [last], i, j, ks)
    ensures j == last.peer ==> TimePath(schedule + [last], i, last.puller, ks + [|schedule|])
  {
    var longer := schedule + [last];
    assert forall a :: 0 <= a < |ks| ==> longer[ks[a]] == schedule[ks[a]];
    assert longer[|schedule|] == last;
  }

  lemma PathShrinks(schedule: seq<Pull>, last: Pull, i: nat, j: nat, ks: seq<nat>)
    requires TimePath(schedule + [last], i, j, ks)
    ensures TimePath(schedule, i, j, ks) || (last.puller == j && ks != [] &&
      TimePath(schedule, i, last.peer, ks[..|ks| - 1]))
  {
    var longer := schedule + [last];
    if ks != [] {
      var front := ks[..|ks| - 1];
      assert forall a :: 0 <= a < |front| ==> ks[a] < ks[|ks| - 1];
      assert forall a :: 0 <= a < |front| ==> front[a] < |schedule| && longer[front[a]] == schedule[front[a]];
      if ks[|ks| - 1] < |schedule| {
        assert longer[ks[|ks| - 1]] == schedule[ks[|ks| - 1]];
      }
    }
  }

  /** A path over one more pull either does not use it or ends with it. */
  lemma ReachesStep(schedule: seq<Pull>, last: Pull, i: nat, j: nat)
    ensures Reaches(schedule + [last], i, j)
       <==> (Reaches(schedule, i, j) || (last.puller == j && Reaches(schedule, i, last.peer)))
  {
    hide TimePath;
    if Reaches(schedule + [last], i, j) {
      var ks: seq<nat> :| TimePath(schedule + [last], i, j, ks);
      PathShrinks(schedule, last, i, j, ks);
    }
    if Reaches(schedule, i, j) {
      var ks: seq<nat> :| TimePath(schedule, i, j, ks);
      PathExtends(schedule, last, i, j, ks);
    }
    if last.puller == j && Reaches(schedule, i, last.peer) {
      var ks: seq<nat> :| TimePath(schedule, i, last.peer, ks);
      PathExtends(schedule, last, i, last.peer, ks);
    }
  }

  lemma ReachesNone(i: nat, j: nat)
    ensures Reaches([], i, j) <==> i == j
  {
    if i == j {
      assert TimePath([], i, j, []);
    }
  }

  /** Some node held the hash at the start and reaches node j. */
  ghost predicate Carried(nodes: seq<Node>, schedule: seq<Pull>, h: string, j: nat) {
    exists i: nat :: i < |nodes| && h in Hashes(nodes[i].rows) && Reaches(schedule, i, j)
  }

  lemma CarriedStep(nodes: seq<Node>, schedule: seq<Pull>, last: Pull, h: string, j: nat)
    ensures Carried(nodes, schedule + [last], h, j)
       <==> (Carried(nodes, schedule, h, j) || (last.puller == j && Carried(nodes, schedule, h, last.peer)))
  {
    hide Reaches, Hashes;
    if Carried(nodes, schedule + [last], h, j) {
      var i: nat :| i < |nodes| && h in Hashes(nodes[i].rows) && Reaches(schedule + [last], i, j);
      ReachesStep(schedule, last, i, j);
    }
    if Carried(nodes, schedule, h, j) {
      var i: nat :| i < |nodes| && h in Hashes(nodes[i].rows) && Reaches(schedule, i, j);
      ReachesStep(schedule, last, i, j);
    }
    if last.puller == j && Carried(nodes, schedule, h, last.peer) {
      var i: nat :| i < |nodes| && h in Hashes(nodes[i].rows) && Reaches(schedule, i, last.peer);
      ReachesStep(schedule, last, i, j);
    }
  }

  // ---------------------------------------------------------------- Runs

  lemma FitsFront(schedule: seq<Pull>, n: nat)
    requires Fits(schedule, n) && schedule != []
    ensures Fits(schedule[..|schedule| - 1], n)
    ensures schedule == schedule[..|schedule| - 1] + [schedule[|schedule| - 1]]
    ensures schedule[|schedule| - 1].puller < n && schedule[|schedule| - 1].peer < n
  {}

  lemma FaithfulFront(w: World, nodes: seq<Node>, schedule: seq<Pull>)
    requires Fits(schedule, |nodes|) && schedule != [] && RunFaithful(w, nodes, schedule)
    requires Fits(schedule[..|schedule| - 1], |nodes|)
    ensures RunFaithful(w, nodes, schedule[..|schedule| - 1])
    ensures var last, before := schedule[|schedule| - 1], Run(w, nodes, schedule[..|schedule| - 1]);
            PullFaithful(w, before[last.puller], before[last.peer])
  {
    hide Run, PullFaithful;
    var front := schedule[..|schedule| - 1];
    forall k | 0 <= k < |front|
      ensures var before := Run(w, nodes, front[..k]); PullFaithful(w, before[front[k].puller], before[front[k].peer])
    {
      assert front[..k] == schedule[..k];
    }
  }

  /** After any schedule node j holds exactly the hashes of the nodes with a
      time-respecting path of pulls to it. */
  lemma {:induction false} RunIsReachability(w: World, nodes: seq<Node>, schedule: seq<Pull>)
    requires Sound(w) && AllGood(w, nodes) && Fits(schedule, |nodes|) && RunFaithful(w, nodes, schedule)
    ensures AllGood(w, Run(w, nodes, schedule))
    ensures forall h, j: nat :: j < |nodes| ==>
      (h in Hashes(Run(w, nodes, schedule)[j].rows) <==> Carried(nodes, schedule, h, j))
  {
    hide Sound, RunFaithful, PullFaithful, Good, Hashes, AfterRound, Carried, Fits, Copied;
    if schedule == [] {
      forall h, j: nat | j < |nodes|
        ensures h in Hashes(nodes[j].rows) <==> Carried(nodes, [], h, j)
      {
        CarriedAtStart(nodes, h, j);
      }
    } else {
      FitsFront(schedule, |nodes|);
      FaithfulFront(w, nodes, schedule);
      var front, last := schedule[..|schedule| - 1], schedule[|schedule| - 1];
      RunIsReachability(w, nodes, front);
      var before := Run(w, nodes, front);
      PullIsUnion(w, before[last.puller], before[last.peer]);
      forall h, j: nat | j < |nodes|
        ensures h in Hashes(Run(w, nodes, schedule)[j].rows) <==> Carried(nodes, schedule, h, j)
      {
        CarriedStep(nodes, front, last, h, j);
      }
    }
  }

  lemma CarriedAtStart(nodes: seq<Node>, h: string, j: nat)
    requires j < |nodes|
    ensures h in Hashes(nodes[j].rows) <==> Carried(nodes, [], h, j)
  {
    hide Hashes, Reaches;
    ReachesNone(j, j);
    forall i: nat | i < |nodes|
      ensures Reaches([], i, j) <==> i == j
    {
      ReachesNone(i, j);
    }
  }

  /** Some node that reaches node j had this very row at the start. */
  ghost predicate Brought(nodes: seq<Node>, schedule: seq<Pull>, row: Row, j: nat) {
    exists i: nat :: i < |nodes| && row in nodes[i].rows && Reaches(schedule, i, j)
  }

  lemma BroughtStep(nodes: seq<Node>, schedule: seq<Pull>, last: Pull, row: Row, j: nat)
    requires Brought(nodes, schedule, row, j) || (last.puller == j && Brought(nodes, schedule, row, last.peer))
    ensures Brought(nodes, schedule + [last], row, j)
  {
    hide Reaches;
    var from := if Brought(nodes, schedule, row, j) then j else last.peer;
    var i: nat :| i < |nodes| && row in nodes[i].rows && Reaches(schedule, i, from);
    ReachesStep(schedule, last, i, j);
  }

  /** The records themselves, signatures and all: node j keeps its rows in place, and
      every row it holds is a row of a node that reaches it. */
  lemma {:induction false} RowsAreBrought(w: World, nodes: seq<Node>, schedule: seq<Pull>, j: nat)
    requires Sound(w) && AllGood(w, nodes) && Fits(schedule, |nodes|) && RunFaithful(w, nodes, schedule) && j < |nodes|
    ensures nodes[j].rows <= Run(w, nodes, schedule)[j].rows
    ensures forall row :: row in Run(w, nodes, schedule)[j].rows ==> Brought(nodes, schedule, row, j)
  {
    hide Sound, RunFaithful, PullFaithful, Good, Hashes, AfterRound, Brought, Fits;
    if schedule == [] {
      forall row | row in nodes[j].rows
        ensures Brought(nodes, [], row, j)
      {
        BroughtAtStart(nodes, row, j);
      }
    } else {
      FitsFront(schedule, |nodes|);
      FaithfulFront(w, nodes, schedule);
      var front, last := schedule[..|schedule| - 1], schedule[|schedule| - 1];
      RowsAreBrought(w, nodes, front, j);
      RowsAreBrought(w, nodes, front, last.peer);
      RunIsReachability(w, nodes, front);
      var before := Run(w, nodes, front);
      PullIsUnion(w, before[last.puller], before[last.peer]);
      var after := Run(w, nodes, schedule);
      forall row | row in after[j].rows
        ensures Brought(nodes, schedule, row, j)
      {
        if j == last.puller {
          CopiedRow(before[j].rows, after[j].rows, before[last.peer].rows, row);
        }
        BroughtStep(nodes, front, last, row, j);
      }
    }
  }

  lemma CopiedRow(a: seq<Row>, b: seq<Row>, source: seq<Row>, row: Row)
    requires Copied(a, b, source) && row in b
    ensures row in a || row in source
  {
    var k :| 0 <= k < |b| && b[k] == row;
    assert k < |a| ==> b[k] == a[k];
  }

  lemma BroughtAtStart(nodes: seq<Node>, row: Row, j: nat)
    requires j < |nodes| && row in nodes[j].rows
    ensures Brought(nodes, [], row, j)
  {
    hide Reaches;
    ReachesNone(j, j);
  }

  ghost predicate FullyReaching(schedule: seq<Pull>, n: nat) {
    forall i: nat, j: nat :: i < n && j < n ==> Reaches(schedule, i, j)
  }

  /** Two schedules that let every node reach every other end in one and the same
      state everywhere, with one Merkle summary. */
  lemma SchedulesAgree(w: World, nodes: seq<Node>, a: seq<Pull>, b: seq<Pull>, i: nat, j: nat)
    requires Sound(w) && AllGood(w, nodes) && i < |nodes| && j < |nodes|
    requires Fits(a, |nodes|) && RunFaithful(w, nodes, a) && FullyReaching(a, |nodes|)
    requires Fits(b, |nodes|) && RunFaithful(w, nodes, b) && FullyReaching(b, |nodes|)
    ensures Hashes(Run(w, nodes, a)[i].rows) == Hashes(Run(w, nodes, b)[j].rows)
    ensures M.Summarise(w.sha, ActiveSet(Run(w, nodes, a)[i].rows, None))
         == M.Summarise(w.sha, ActiveSet(Run(w, nodes, b)[j].rows, None))
  {
    RunIsReachability(w, nodes, a);
    RunIsReachability(w, nodes, b);
    hide Sound, RunFaithful, Hashes, Run, Fits, Reaches, ActiveSet, M.Summarise;
    var x, y := Run(w, nodes, a)[i].rows, Run(w, nodes, b)[j].rows;
    forall h
      ensures h in Hashes(x) <==> h in Hashes(y)
    {
      assert h in Hashes(x) <==> Carried(nodes, a, h, i);
      assert h in Hashes(y) <==> Carried(nodes, b, h, j);
    }
    assert Good(w, Run(w, nodes, a)[i]) && Good(w, Run(w, nodes, b)[j]);
    ActiveIsAll(w, x);
    ActiveIsAll(w, y);
  }
}
