/** One pull-only reconciliation round (backend/app/crdt/gossip.py) as a
    transformation of the puller's session, whatever the peer answers. */
module Gossip {
  import opened Prelude
  import opened Ordering
  import opened CanonicalJson
  import opened Store
  import opened Sync
  import M = Merkle

  const FETCH_BATCH_SIZE: nat := 100

  datatype PeerRecord = PeerRecord(
    hash: string,
    workflowId: string,
    agent: Option<string>,
    memoryType: string,
    content: string,
    confidence: Float,
    metadata: seq<Entry>,
    author: Option<string>,
    parents: seq<string>,
    signature: Option<string>,
    state: string)

  /** A peer's answers; None is any PeerClientError. The answer to a fetch may
      depend on how many fetches came before. */
  datatype Peer = Peer(
    summary: Option<M.Summary>,
    buckets: nat -> Option<seq<string>>,
    fetch: (nat, seq<string>) -> Option<seq<PeerRecord>>)

  /** The client refuses a summary that has not 256 buckets. */
  function FetchSummary(peer: Peer): (r: Option<M.Summary>)
    ensures r.Some? <==> peer.summary.Some? && |peer.summary.value.buckets| == M.BUCKET_COUNT
    ensures r.Some? ==> r == peer.summary
  {
    if peer.summary.Some? && |peer.summary.value.buckets| == M.BUCKET_COUNT then peer.summary else None
  }

  function Multibase(hashes: seq<string>): seq<string> {
    if hashes == [] then []
    else
      var last := hashes[|hashes| - 1];
      Multibase(hashes[..|hashes| - 1]) + if last != "" && last[0] == 'z' then [last] else []
  }

  /** The client keeps the strings that look like multibase. */
  function FetchBucketHashes(peer: Peer, i: nat): Option<seq<string>> {
    match peer.buckets(i)
    case None => None
    case Some(hashes) => Some(Multibase(hashes))
  }

  datatype Failure = PeerClientFailure | Unexpected

  datatype Counts = Counts(
    compared: nat, divergent: nat, missing: nat, fetched: nat,
    persisted: nat, unknownWorkflow: nat, invalid: nat, duplicate: nat,
    error: Option<Failure>, inSyncBefore: bool)
  {
    function Handled(): nat { persisted + unknownWorkflow + invalid + duplicate }
  }

  const NO_COUNTS := Counts(0, 0, 0, 0, 0, 0, 0, 0, None, false)

  /** Everything a round changes: the two tables, the lookup cache, the report. */
  datatype Session = Session(
    rows: seq<Row>, workflows: set<string>,
    knownWorkflows: set<string>, knownHashes: set<string>,
    counts: Counts)

  datatype Verdict = Persisted | Skipped | Aborted

  // ---------------------------------------------------------------- One record

  function ParseMemoryType(s: string): Option<MemoryType> {
    if s == "fact" then Some(FACT)
    else if s == "context" then Some(CONTEXT)
    else if s == "result" then Some(RESULT)
    else if s == "reasoning" then Some(REASONING)
    else if s == "meta" then Some(META)
    else if s == "cache" then Some(CACHE)
    else None
  }

  /** A state the peer made up is read as active. */
  function ParseState(s: string): RecordState {
    if s == "superseded" then SUPERSEDED
    else if s == "historical" then HISTORICAL
    else if s == "tombstoned" then TOMBSTONED
    else ACTIVE
  }

  function RequestOf(record: PeerRecord, workflow: string, agent: Option<string>, memoryType: MemoryType): Request {
    Request(
      Fields(workflow, memoryType, record.content, record.confidence, record.metadata, record.parents,
        record.author, agent),
      None, Some(record.hash), record.signature, ParseState(record.state))
  }

  function SkipUnknown(s: Session): Session {
    s.(counts := s.counts.(unknownWorkflow := s.counts.unknownWorkflow + 1))
  }

  function SkipInvalid(s: Session): Session {
    s.(counts := s.counts.(invalid := s.counts.invalid + 1))
  }

  function SkipDuplicate(s: Session): Session {
    s.(counts := s.counts.(duplicate := s.counts.duplicate + 1))
  }

  /** A workflow not known yet gets a shadow row if it has none. */
  function WithWorkflow(s: Session, workflow: string): Session {
    if workflow in s.knownWorkflows then s
    else s.(workflows := s.workflows + {workflow}, knownWorkflows := s.knownWorkflows + {workflow})
  }

  /** None where the id is present and not a UUID. */
  function ParseAgent(w: World, agent: Option<string>): Option<Option<string>> {
    if agent == None || agent.value == "" then Some(None)
    else
      match w.uuid(agent.value)
      case None => None
      case Some(u) => Some(Some(u))
  }

  /** _persist_peer_record */
  function Persist(w: World, s: Session, record: PeerRecord): (Session, Verdict) {
    if record.workflowId == "" then (SkipUnknown(s), Skipped)
    else
      match w.uuid(record.workflowId)
      case None => (SkipInvalid(s), Skipped)
      case Some(workflow) =>
        var t := WithWorkflow(s, workflow);
        if record.hash in t.knownHashes then (SkipDuplicate(t), Skipped)
        else
          match ParseAgent(w, record.agent)
          case None => (SkipInvalid(t), Skipped)
          case Some(agent) =>
            match ParseMemoryType(record.memoryType)
            case None => (SkipInvalid(t), Skipped)
            case Some(memoryType) => Submit(w, t, record, RequestOf(record, workflow, agent, memoryType))
  }

  function Submit(w: World, t: Session, record: PeerRecord, req: Request): (Session, Verdict) {
    match PutInto(w, t.rows, req)
    case (_, Rejected(OtherException)) => (t, Aborted)
    case (_, Rejected(_)) => (SkipInvalid(t), Skipped)
    case (rows, _) => (t.(rows := rows, knownHashes := t.knownHashes + {record.hash}), Persisted)
  }

  // ---------------------------------------------------------------- A batch

  function RecordHashes(records: seq<PeerRecord>): set<string> {
    set r | r in records && r.hash != "" :: r.hash
  }

  function NamedWorkflows(w: World, records: seq<PeerRecord>): set<string> {
    set r | r in records && r.workflowId != "" && w.uuid(r.workflowId).Some? :: w.uuid(r.workflowId).value
  }

  /** Two lookups, of the batch's hashes and of its workflows, in the tables. */
  function ExtendKnown(w: World, s: Session, records: seq<PeerRecord>): Session {
    s.(knownHashes := s.knownHashes + (RecordHashes(records) - s.knownHashes) * Hashes(s.rows),
       knownWorkflows := s.knownWorkflows + (NamedWorkflows(w, records) - s.knownWorkflows) * s.workflows)
  }

  function Failed(s: Session, f: Failure): Session {
    s.(counts := s.counts.(error := Some(f)))
  }

  function AddPersisted(s: Session): Session {
    s.(counts := s.counts.(persisted := s.counts.persisted + 1))
  }

  /** The first records of a batch; an exception ends it. */
  function PersistAll(w: World, s: Session, records: seq<PeerRecord>): Session {
    if records == [] then s
    else
      var t := PersistAll(w, s, records[..|records| - 1]);
      if t.counts.error.Some? then t else PersistOne(w, t, records[|records| - 1])
  }

  function PersistOne(w: World, s: Session, record: PeerRecord): Session {
    match Persist(w, s, record)
    case (t, Persisted) => AddPersisted(t)
    case (t, Skipped) => t
    case (t, Aborted) => Failed(t, Unexpected)
  }

  function StartBatch(w: World, s: Session, records: seq<PeerRecord>): Session {
    ExtendKnown(w, s.(counts := s.counts.(fetched := s.counts.fetched + |records|)), records)
  }

  function Batch(w: World, peer: Peer, s: Session, n: nat, hashes: seq<string>): Session {
    match peer.fetch(n, hashes)
    case None => Failed(s, PeerClientFailure)
    case Some(records) => PersistAll(w, StartBatch(w, s, records), records)
  }

  function Batches(w: World, peer: Peer, s: Session, batches: seq<seq<string>>): Session {
    if batches == [] then s
    else
      var n := |batches| - 1;
      var t := Batches(w, peer, s, batches[..n]);
      if t.counts.error.Some? then t else Batch(w, peer, t, n, batches[n])
  }

  /** items[0 : size], items[size : 2 * size], ... */
  function Chunks(items: seq<string>, size: nat): seq<seq<string>>
    requires size > 0
  {
    if |items| == 0 then []
    else if |items| <= size then [items]
    else [items[..size]] + Chunks(items[size..], size)
  }

  // ---------------------------------------------------------------- A round

  function NotIn(hashes: seq<string>, held: set<string>): seq<string> {
    if hashes == [] then []
    else
      var last := hashes[|hashes| - 1];
      NotIn(hashes[..|hashes| - 1], held) + if last !in held then [last] else []
  }

  /** _collect_missing_hashes, over the first buckets of the list. */
  ghost function Collect(peer: Peer, held: set<string>, indices: seq<nat>): Option<seq<string>> {
    if indices == [] then Some([])
    else
      var i := indices[|indices| - 1];
      match Collect(peer, held, indices[..|indices| - 1])
      case None => None
      case Some(missing) =>
        match FetchBucketHashes(peer, i)
        case None => None
        case Some(hashes) => Some(missing + NotIn(hashes, M.BucketSet(held, i)))
  }

  /** What the round has found out before it fetches anything. */
  ghost function Compare(w: World, peer: Peer, held: set<string>): (Counts, seq<string>) {
    match FetchSummary(peer)
    case None => (NO_COUNTS.(error := Some(PeerClientFailure)), [])
    case Some(theirs) =>
      var ours := M.Summarise(w.sha, held);
      var counts := NO_COUNTS.(compared := M.BUCKET_COUNT);
      if ours.root == theirs.root then (counts.(inSyncBefore := true), [])
      else
        var divergent := M.DivergesFrom(ours, theirs);
        if divergent == [] then (counts.(inSyncBefore := true), [])
        else
          match Collect(peer, held, divergent)
          case None => (counts.(divergent := |divergent|, error := Some(PeerClientFailure)), [])
          case Some(missing) => (counts.(divergent := |divergent|, missing := |missing|), missing)
  }

  /** reconcile_with */
  ghost function Round(w: World, peer: Peer, rows: seq<Row>, workflows: set<string>, scope: Option<string>): Session {
    var (counts, missing) := Compare(w, peer, ActiveSet(rows, scope));
    Batches(w, peer, Session(rows, workflows, {}, {}, counts), Chunks(missing, FETCH_BATCH_SIZE))
  }

  // ---------------------------------------------------------------- The service

  class GossipRoundReport {
    var compared: nat
    var divergent: nat
    var missing: nat
    var fetched: nat
    var persisted: nat
    var unknownWorkflow: nat
    var invalid: nat
    var duplicate: nat
    var error: Option<Failure>
    var inSyncBefore: bool

    constructor ()
      ensures Value() == NO_COUNTS
    {
      compared, divergent, missing, fetched := 0, 0, 0, 0;
      persisted, unknownWorkflow, invalid, duplicate := 0, 0, 0, 0;
      error, inSyncBefore := None, false;
    }

    function Value(): Counts
      reads this
    {
      Counts(compared, divergent, missing, fetched, persisted, unknownWorkflow, invalid, duplicate, error, inSyncBefore)
    }
  }

  class Known {
    var workflowIds: set<string>
    var contentHashes: set<string>

    constructor ()
      ensures workflowIds == {} && contentHashes == {}
    {
      workflowIds, contentHashes := {}, {};
    }
  }

  class GossipService {
    const store: CrdtStore
    const sync: SyncService
    var workflows: set<string>

    constructor (store: CrdtStore, workflows: set<string>)
      ensures this.store == store && sync.store == store && this.workflows == workflows
    {
      this.store := store;
      this.sync := new SyncService(store);
      this.workflows := workflows;
    }

    ghost predicate Valid() {
      sync.store == store
    }

    ghost function State(known: Known, report: GossipRoundReport): Session
      reads this, store, known, report
    {
      Session(store.rows, workflows, known.workflowIds, known.contentHashes, report.Value())
    }

    method AutoShadowWorkflow(workflow: string)
      modifies this
      ensures workflows == old(workflows) + {workflow}
    {
      if workflow in workflows {
        assert workflows == workflows + {workflow};
        return;
      }
      workflows := workflows + {workflow};
    }

    method PersistPeerRecord(record: PeerRecord, known: Known, report: GossipRoundReport) returns (verdict: Verdict)
      requires Valid()
      modifies this, store, known, report
      ensures (State(known, report), verdict) == Persist(store.world, old(State(known, report)), record)
    {
      hide PutInto, ParseMemoryType, ParseState;
      if record.workflowId == "" {
        report.unknownWorkflow := report.unknownWorkflow + 1;
        return Skipped;
      }
      var workflow := store.world.uuid(record.workflowId);
      if workflow == None {
        report.invalid := report.invalid + 1;
        return Skipped;
      }
      if workflow.value !in known.workflowIds {
        AutoShadowWorkflow(workflow.value);
        known.workflowIds := known.workflowIds + {workflow.value};
      }
      if record.hash in known.contentHashes {
        report.duplicate := report.duplicate + 1;
        return Skipped;
      }
      var agent: Option<string> := None;
      if record.agent.Some? && record.agent.value != "" {
        agent := store.world.uuid(record.agent.value);
        if agent == None {
          report.invalid := report.invalid + 1;
          return Skipped;
        }
      }
      var memoryType := ParseMemoryType(record.memoryType);
      if memoryType == None {
        report.invalid := report.invalid + 1;
        return Skipped;
      }
      PutAppends(store.world, store.rows, RequestOf(record, workflow.value, agent, memoryType.value));
      var outcome := store.Put(RequestOf(record, workflow.value, agent, memoryType.value));
      if outcome.Rejected? {
        if outcome.error.OtherException? {
          return Aborted;
        }
        report.invalid := report.invalid + 1;
        return Skipped;
      }
      known.contentHashes := known.contentHashes + {record.hash};
      return Persisted;
    }

    method ExtendKnown(records: seq<PeerRecord>, known: Known)
      modifies known
      ensures known.contentHashes
           == old(known.contentHashes) + (RecordHashes(records) - old(known.contentHashes)) * Hashes(store.rows)
      ensures known.workflowIds
           == old(known.workflowIds) + (NamedWorkflows(store.world, records) - old(known.workflowIds)) * workflows
    {
      var unseenHashes := RecordHashes(records) - known.contentHashes;
      if unseenHashes != {} {
        known.contentHashes := known.contentHashes + unseenHashes * Hashes(store.rows);
      }
      var named: set<string> := {};
      for n := 0 to |records|
        invariant known.contentHashes == old(known.contentHashes) + unseenHashes * Hashes(store.rows)
        invariant known.workflowIds == old(known.workflowIds)
        invariant named == NamedWorkflows(store.world, records[..n])
      {
        assert records[..n + 1] == records[..n] + [records[n]];
        if records[n].workflowId == "" {
          continue;
        }
        var workflow := store.world.uuid(records[n].workflowId);
        if workflow.Some? {
          named := named + {workflow.value};
        }
      }
      assert records[..|records|] == records;
      var unseenWorkflows := named - known.workflowIds;
      if unseenWorkflows != {} {
        known.workflowIds := known.workflowIds + unseenWorkflows * workflows;
      }
    }

    method PersistBatch(records: seq<PeerRecord>, known: Known, report: GossipRoundReport) returns (ok: bool)
      requires Valid() && report.error == None
      modifies this, store, known, report
      ensures State(known, report)
           == PersistAll(store.world, StartBatch(store.world, old(State(known, report)), records), records)
      ensures ok <==> report.error == None
    {
      hide Persist, PutInto;
      report.fetched := report.fetched + |records|;
      ExtendKnown(records, known);
      ghost var start := StartBatch(store.world, old(State(known, report)), records);
      assert State(known, report) == start;
      for n := 0 to |records|
        invariant State(known, report) == PersistAll(store.world, start, records[..n])
        invariant report.error == None
      {
        assert records[..n + 1][..n] == records[..n];
        ghost var before := State(known, report);
        var verdict := PersistPeerRecord(records[n], known, report);
        PersistKeepsError(store.world, before, records[n]);
        if verdict == Aborted {
          report.error := Some(Unexpected);
          FirstFailure(store.world, start, records, n + 1);
          return false;
        }
        if verdict == Persisted {
          report.persisted := report.persisted + 1;
        }
      }
      assert records[..|records|] == records;
      ok := true;
    }

    method CollectMissingHashes(peer: Peer, indices: seq<nat>, scope: Option<string>) returns (r: Option<seq<string>>)
      requires Valid() && forall i :: 0 <= i < |indices| ==> indices[i] < M.BUCKET_COUNT
      ensures r == Collect(peer, ActiveSet(store.rows, scope), indices)
    {
      hide M.BucketSet, SortedSet;
      var missing: seq<string> := [];
      for n := 0 to |indices|
        invariant Collect(peer, ActiveSet(store.rows, scope), indices[..n]) == Some(missing)
      {
        assert indices[..n + 1][..n] == indices[..n];
        var peerHashes := FetchBucketHashes(peer, indices[n]);
        if peerHashes == None {
          CollectFails(peer, ActiveSet(store.rows, scope), indices, n + 1);
          return None;
        }
        if peerHashes.value == [] {
          assert missing + [] == missing;
          continue;
        }
        var listing := sync.BucketHashes(indices[n], scope);
        var localHashes := Elems(listing.value);
        assert localHashes == M.BucketSet(ActiveSet(store.rows, scope), indices[n]);
        var start := missing;
        for k := 0 to |peerHashes.value|
          invariant missing == start + NotIn(peerHashes.value[..k], localHashes)
        {
          var h := peerHashes.value[k];
          assert peerHashes.value[..k + 1][..k] == peerHashes.value[..k];
          if h !in localHashes {
            missing := missing + [h];
          }
        }
        assert peerHashes.value[..|peerHashes.value|] == peerHashes.value;
      }
      assert indices[..|indices|] == indices;
      r := Some(missing);
    }

    method ReconcileWith(peer: Peer, scope: Option<string>) returns (report: GossipRoundReport)
      requires Valid()
      modifies this, store
      ensures Round(store.world, peer, old(store.rows), old(workflows), scope).rows == store.rows
      ensures Round(store.world, peer, old(store.rows), old(workflows), scope).workflows == workflows
      ensures Round(store.world, peer, old(store.rows), old(workflows), scope).counts == report.Value()
    {
      hide M.Summarise, PersistAll, Persist, PutInto, Collect, M.DifferingBelow, Batch;
      report := new GossipRoundReport();
      var localSummary := sync.Summarise(scope);
      var peerSummary := FetchSummary(peer);
      if peerSummary == None {
        report.error := Some(PeerClientFailure);
        return;
      }
      report.compared := |localSummary.buckets|;
      if localSummary.root == peerSummary.value.root {
        report.inSyncBefore := true;
        return;
      }
      var divergent := M.DivergesFrom(localSummary, peerSummary.value);
      report.divergent := |divergent|;
      if divergent == [] {
        report.inSyncBefore := true;
        return;
      }
      assert forall i :: 0 <= i < |divergent| ==> divergent[i] in divergent;
      var missing := CollectMissingHashes(peer, divergent, scope);
      if missing == None {
        report.error := Some(PeerClientFailure);
        return;
      }
      report.missing := |missing.value|;
      FetchMissing(peer, missing.value, report);
    }

    /** The batch loop of reconcile_with. */
    method FetchMissing(peer: Peer, missing: seq<string>, report: GossipRoundReport)
      requires Valid() && report.error == None
      modifies this, store, report
      ensures var s := Batches(store.world, peer, Session(old(store.rows), old(workflows), {}, {}, old(report.Value())),
                               Chunks(missing, FETCH_BATCH_SIZE));
              s.rows == store.rows && s.workflows == workflows && s.counts == report.Value()
    {
      hide PersistAll, Persist, PutInto, StartBatch, Chunks;
      var known := new Known();
      ghost var start := State(known, report);
      var batches := Chunks(missing, FETCH_BATCH_SIZE);
      for n := 0 to |batches|
        invariant fresh(known)
        invariant State(known, report) == Batches(store.world, peer, start, batches[..n])
        invariant report.error == None
      {
        assert batches[..n + 1][..n] == batches[..n];
        var records := peer.fetch(n, batches[n]);
        if records == None {
          report.error := Some(PeerClientFailure);
          FirstFailedBatch(store.world, peer, start, batches, n + 1);
          return;
        }
        var ok := PersistBatch(records.value, known, report);
        if !ok {
          FirstFailedBatch(store.world, peer, start, batches, n + 1);
          return;
        }
      }
      assert batches[..|batches|] == batches;
    }
  }

  lemma PersistKeepsError(w: World, s: Session, record: PeerRecord)
    ensures Persist(w, s, record).0.counts.error == s.counts.error
  {}

  /** Nothing follows the first failure. */
  lemma {:induction false} FirstFailure(w: World, s: Session, records: seq<PeerRecord>, n: nat)
    requires n <= |records| && PersistAll(w, s, records[..n]).counts.error.Some?
    ensures PersistAll(w, s, records) == PersistAll(w, s, records[..n])
    decreases |records|
  {
    hide Persist;
    if n < |records| {
      var front := records[..|records| - 1];
      assert front[..n] == records[..n];
      FirstFailure(w, s, front, n);
    } else {
      assert records[..n] == records;
    }
  }

  lemma {:induction false} FirstFailedBatch(w: World, peer: Peer, s: Session, batches: seq<seq<string>>, n: nat)
    requires n <= |batches| && Batches(w, peer, s, batches[..n]).counts.error.Some?
    ensures Batches(w, peer, s, batches) == Batches(w, peer, s, batches[..n])
    decreases |batches|
  {
    hide Batch;
    if n < |batches| {
      var front := batches[..|batches| - 1];
      assert front[..n] == batches[..n];
      FirstFailedBatch(w, peer, s, front, n);
    } else {
      assert batches[..n] == batches;
    }
  }

  lemma {:induction false} CollectFails(peer: Peer, held: set<string>, indices: seq<nat>, n: nat)
    requires n <= |indices| && Collect(peer, held, indices[..n]) == None
    ensures Collect(peer, held, indices) == None
    decreases |indices|
  {
    if n < |indices| {
      var front := indices[..|indices| - 1];
      assert front[..n] == indices[..n];
      CollectFails(peer, held, front, n);
    } else {
      assert indices[..n] == indices;
    }
  }
}
