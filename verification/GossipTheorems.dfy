/** What a reconciliation round keeps with any peer. */
module GossipTheorems {
  import opened Prelude
  import opened Store
  import opened Sync
  import opened Gossip
  import Base58
  import Hashing
  import M = Merkle

  // ---------------------------------------------------------------- Any peer

  ghost predicate Inv(w: World, s: Session) {
    StoreOk(w, s.rows) && s.knownHashes <= Hashes(s.rows) && s.knownWorkflows <= s.workflows
  }

  /** Of these hashes, the cache knows every one the store holds. */
  ghost predicate Aware(s: Session, hashes: set<string>) {
    forall h :: h in hashes && h in Hashes(s.rows) ==> h in s.knownHashes
  }

  /** From a to b rows were only added, one for each record counted as persisted,
      and each names a workflow that exists. */
  ghost predicate Grown(a: Session, b: Session) {
    && a.rows <= b.rows && a.workflows <= b.workflows
    && |b.rows| - |a.rows| == b.counts.persisted - a.counts.persisted
    && forall i :: |a.rows| <= i < |b.rows| ==> b.rows[i].fields.workflowId in b.workflows
  }

  lemma GrownTransitive(a: Session, b: Session, c: Session)
    requires Grown(a, b) && Grown(b, c)
    ensures Grown(a, c)
  {
    forall i | |a.rows| <= i < |c.rows|
      ensures c.rows[i].fields.workflowId in c.workflows
    {
      assert i < |b.rows| ==> c.rows[i] == b.rows[i];
    }
  }

  lemma HashesAppend(rows: seq<Row>, row: Row)
    requires row.hash.Some?
    ensures Hashes(rows + [row]) == Hashes(rows) + {row.hash.value}
  {
    forall h
      ensures h in Hashes(rows + [row]) <==> h in Hashes(rows) + {row.hash.value}
    {
      if h in Hashes(rows) {
        var r :| r in rows && r.hash == Some(h);
        assert r in rows + [row];
      }
      if h in Hashes(rows + [row]) {
        var r :| r in rows + [row] && r.hash == Some(h);
        assert r == row || r in rows;
      }
    }
    assert row in rows + [row];
  }

  lemma InHashes(rows: seq<Row>, h: string)
    ensures h in Hashes(rows) <==> FetchByHash(rows, h).Some?
  {
    hide Hashes;
    var found := FetchByHash(rows, h);
    if found.Some? {
      RowInHashes(rows, found.value);
    }
    if h in Hashes(rows) {
      var i := HashIndex(rows, h);
    }
  }

  lemma RowInHashes(rows: seq<Row>, row: Row)
    requires row in rows && row.hash.Some?
    ensures row.hash.value in Hashes(rows)
  {}

  lemma HashIndex(rows: seq<Row>, h: string) returns (i: nat)
    requires h in Hashes(rows)
    ensures i < |rows| && rows[i].hash == Some(h)
  {
    var r :| r in rows && r.hash == Some(h);
    i :| 0 <= i < |rows| && rows[i] == r;
  }

  /** A put on a peer's behalf. */
  lemma SubmitStep(w: World, s: Session, record: PeerRecord, req: Request)
    requires Sound(w) && Inv(w, s) && record.hash !in s.knownHashes && record.hash !in Hashes(s.rows)
    requires req.keypair == None && req.hash == Some(record.hash)
    ensures var (t, v) := Submit(w, s, record, req);
            && Inv(w, t) && t.workflows == s.workflows && t.knownWorkflows == s.knownWorkflows
            && (v == Persisted ==>
                  && t.rows == s.rows + [Row(req.fields, req.hash, Resolve(w, req).signature, req.state)]
                  && t.knownHashes == s.knownHashes + {record.hash} && t.counts == s.counts)
            && (v != Persisted ==> t.rows == s.rows && t.knownHashes == s.knownHashes)
            && (v == Skipped ==> t.counts == s.counts.(invalid := s.counts.invalid + 1))
            && (v == Aborted ==> t.counts == s.counts)
  {
    hide StoreOk, Sound, Resolve, Hashes;
    PutKeepsStore(w, s.rows, req);
    InHashes(s.rows, record.hash);
    if Resolve(w, req).Resolved? {
      ResolvedIsGenuine(w, req);
      HashesAppend(s.rows, Row(req.fields, req.hash, Resolve(w, req).signature, req.state));
    }
  }

  /** One record: at most one row more, its hash known exactly when stored, and
      exactly one counter moves unless the round aborts. */
  lemma PersistStep(w: World, s: Session, record: PeerRecord)
    requires Sound(w) && Inv(w, s) && Aware(s, {record.hash})
    ensures var (t, v) := Persist(w, s, record);
            && Inv(w, t) && s.workflows <= t.workflows
            && (v == Persisted ==>
                  && |t.rows| == |s.rows| + 1 && t.rows[..|s.rows|] == s.rows
                  && t.rows[|s.rows|].hash == Some(record.hash) && t.rows[|s.rows|].fields.workflowId in t.workflows
                  && t.knownHashes == s.knownHashes + {record.hash} && t.counts == s.counts)
            && (v != Persisted ==> t.rows == s.rows && t.knownHashes == s.knownHashes)
            && (v == Skipped ==>
                  t.counts.Handled() == s.counts.Handled() + 1 && t.counts.persisted == s.counts.persisted)
            && (v == Aborted ==> t.counts == s.counts)
            && t.counts.fetched == s.counts.fetched && t.counts.error == s.counts.error
  {
    hide StoreOk, Sound, Submit, ParseMemoryType, Hashes;
    if record.workflowId != "" && w.uuid(record.workflowId).Some? {
      var workflow := w.uuid(record.workflowId).value;
      var t := WithWorkflow(s, workflow);
      if record.hash !in t.knownHashes && ParseAgent(w, record.agent).Some? &&
        ParseMemoryType(record.memoryType).Some? {
        SubmitStep(w, t, record,
                   RequestOf(record, workflow, ParseAgent(w, record.agent).value,
                     ParseMemoryType(record.memoryType).value));
      }
    }
  }

  // ---------------------------------------------------------------- Reading what a peer sends

  /** The client keeps exactly the strings that start with z, as often as they were sent. */
  lemma {:induction false} MultibaseExactly(hashes: seq<string>, h: string)
    ensures multiset(Multibase(hashes))[h] == if h != "" && h[0] == 'z' then multiset(hashes)[h] else 0
  {
    if hashes != [] {
      assert hashes == hashes[..|hashes| - 1] + [hashes[|hashes| - 1]];
      MultibaseExactly(hashes[..|hashes| - 1], h);
    }
  }

  /** The row a record would become, if its ids and its type can be read. */
  function RowOf(w: World, record: PeerRecord): Option<Row> {
    if record.workflowId == "" || w.uuid(record.workflowId) == None || ParseAgent(w, record.agent) == None
       || ParseMemoryType(record.memoryType) == None
    then None
    else
      var req := RequestOf(record, w.uuid(record.workflowId).value, ParseAgent(w, record.agent).value,
                           ParseMemoryType(record.memoryType).value);
      Some(Row(req.fields, req.hash, req.signature, req.state))
  }

  predicate Absent(s: Option<string>) {
    s.None? || s.value == ""
  }

  /** When there is one, and what it holds field by field: ids as parsed, an empty agent
      as none. */
  lemma RowOfExact(w: World, record: PeerRecord)
    ensures RowOf(w, record).Some? <==>
      record.workflowId != "" && w.uuid(record.workflowId).Some? && ParseMemoryType(record.memoryType).Some?
      && (Absent(record.agent) || w.uuid(record.agent.value).Some?)
    ensures RowOf(w, record).Some? ==>
      var row := RowOf(w, record).value;
      && Some(row.fields.workflowId) == w.uuid(record.workflowId)
      && row.fields.agent == (if Absent(record.agent) then None else w.uuid(record.agent.value))
      && Some(row.fields.memoryType) == ParseMemoryType(record.memoryType)
      && row.fields.content == record.content && row.fields.confidence == record.confidence
      && row.fields.metadata == record.metadata && row.fields.parents == record.parents
      && row.fields.author == record.author && row.signature == record.signature
      && row.hash == Some(record.hash) && row.state == ParseState(record.state)
  {
    hide ParseMemoryType, ParseState;
  }

  /** A record is persisted exactly when the store does not hold its hash and the
      row it would become is genuine; it is a duplicate exactly when the store
      holds it, and of an unknown workflow exactly when it names none. */
  lemma PersistedExactly(w: World, s: Session, record: PeerRecord)
    requires Inv(w, s) && Aware(s, {record.hash})
    ensures var (t, v) := Persist(w, s, record);
            && (v == Persisted <==>
                  record.hash !in Hashes(s.rows) && RowOf(w, record).Some? && Genuine(w, RowOf(w, record).value))
            && (v == Persisted ==> t.rows == s.rows + [RowOf(w, record).value])
            && (t.counts.unknownWorkflow != s.counts.unknownWorkflow <==> record.workflowId == "")
            && (t.counts.duplicate != s.counts.duplicate <==>
                  record.workflowId != "" && w.uuid(record.workflowId).Some? && record.hash in Hashes(s.rows))
  {
    hide StoreOk, Hashes, ParseMemoryType, ParseState, Genuine, Resolve;
    InHashes(s.rows, record.hash);
    if RowOf(w, record).Some? {
      var req := RequestOf(record, w.uuid(record.workflowId).value, ParseAgent(w, record.agent).value,
                           ParseMemoryType(record.memoryType).value);
      OfferedAcceptedExactly(w, s.rows, req);
    }
  }

  /** The round is aborted exactly by a new, readable record whose body cannot be
      hashed, or whose own address is signed in the name of a malformed DID. */
  lemma AbortedExactly(w: World, s: Session, record: PeerRecord)
    requires Inv(w, s) && Aware(s, {record.hash})
    ensures Persist(w, s, record).1 == Aborted <==>
      record.hash !in Hashes(s.rows) && RowOf(w, record).Some?
      && var body := RowOf(w, record).value.fields.Body();
         (!Hashing.Hashable(body)
          || (record.hash == Hashing.ContentHash(w.sha, body) && record.signature.Some?
              && body.author.Some? && w.resolve(body.author.value).MalformedDid?))
  {
    hide StoreOk, Hashes, ParseMemoryType, ParseState, Genuine, Resolve, PutInto, Hashing.Hashable;
    hide Hashing.ContentHash, Hashing.SignableText, Verified;
    InHashes(s.rows, record.hash);
    if RowOf(w, record).Some? {
      var req := RequestOf(record, w.uuid(record.workflowId).value, ParseAgent(w, record.agent).value,
                           ParseMemoryType(record.memoryType).value);
      if record.signature.Some? {
        ForeignWriteExact(w, s.rows, req);
      } else {
        UnsignedWriteExact(w, s.rows, req);
      }
    }
  }

  /** A row persisted from a peer is verified exactly when the record carried a
      signature: an unsigned record is not checked against the author it names. */
  lemma PersistedVerifiedIff(w: World, s: Session, record: PeerRecord)
    requires Inv(w, s) && Aware(s, {record.hash}) && Persist(w, s, record).1 == Persisted
    ensures RowOf(w, record).Some? && Persist(w, s, record).0.rows == s.rows + [RowOf(w, record).value]
    ensures RowOf(w, record).value.fields.author == record.author
    ensures Verified(w, RowOf(w, record).value) <==> record.signature.Some?
  {
    PersistedExactly(w, s, record);
    hide Inv, Aware, Persist, Hashes, Verified, ParseMemoryType, ParseAgent;
  }

  /** Without a signature a record needs only its own hash, whatever author it names. */
  lemma UnsignedClaimIsPersisted(w: World, s: Session, record: PeerRecord)
    requires Inv(w, s) && Aware(s, {record.hash}) && record.hash !in Hashes(s.rows)
    requires record.signature == None && RowOf(w, record).Some?
    requires Hashing.Hashable(RowOf(w, record).value.fields.Body())
    requires record.hash == Hashing.ContentHash(w.sha, RowOf(w, record).value.fields.Body())
    ensures Persist(w, s, record).1 == Persisted && !Verified(w, RowOf(w, record).value)
  {
    PersistedExactly(w, s, record);
    hide Inv, Aware, Persist, Hashes, ParseMemoryType, ParseAgent, Hashing.ContentHash, Hashing.Hashable;
  }

  lemma PersistAware(w: World, s: Session, record: PeerRecord, hashes: set<string>)
    requires Sound(w) && Inv(w, s) && Aware(s, hashes) && record.hash in hashes
    ensures Aware(Persist(w, s, record).0, hashes)
    ensures Persist(w, s, record).1 == Persisted ==>
              Hashes(Persist(w, s, record).0.rows) == Hashes(s.rows) + {record.hash}
  {
    hide Hashes, Persist, Inv, Sound;
    PersistStep(w, s, record);
    var (t, v) := Persist(w, s, record);
    if v == Persisted {
      assert t.rows == s.rows + [t.rows[|s.rows|]];
      HashesAppend(s.rows, t.rows[|s.rows|]);
    }
  }

  /** The body of the record loop. */
  lemma StepGrown(w: World, s: Session, record: PeerRecord, hashes: set<string>)
    requires Sound(w) && Inv(w, s) && Aware(s, hashes) && record.hash in hashes && s.counts.error == None
    ensures var t := PersistOne(w, s, record);
            && Inv(w, t) && Grown(s, t) && Aware(t, hashes) && t.counts.fetched == s.counts.fetched
            && t.counts.Handled() <= s.counts.Handled() + 1
            && (t.counts.error == None ==> t.counts.Handled() == s.counts.Handled() + 1)
  {
    hide Persist, StoreOk, Sound, Hashes;
    PersistStep(w, s, record);
    PersistAware(w, s, record, hashes);
  }

  ghost predicate Drawn(records: seq<PeerRecord>, hashes: set<string>) {
    forall i :: 0 <= i < |records| ==> records[i].hash in hashes
  }

  lemma {:induction false} AllGrown(w: World, s: Session, records: seq<PeerRecord>, hashes: set<string>)
    requires Sound(w) && Inv(w, s) && Aware(s, hashes) && Drawn(records, hashes) && s.counts.error == None
    ensures var t := PersistAll(w, s, records);
            && Inv(w, t) && Grown(s, t) && Aware(t, hashes) && t.counts.fetched == s.counts.fetched
            && t.counts.Handled() <= s.counts.Handled() + |records|
            && (t.counts.error == None ==> t.counts.Handled() == s.counts.Handled() + |records|)
  {
    hide Persist, Inv, Sound, Grown, Aware;
    if records == [] {
      GrownReflexive(s);
    } else {
      var front := records[..|records| - 1];
      AllGrown(w, s, front, hashes);
      var t := PersistAll(w, s, front);
      if t.counts.error == None {
        StepGrown(w, t, records[|records| - 1], hashes);
        GrownTransitive(s, t, PersistOne(w, t, records[|records| - 1]));
      }
    }
  }

  lemma GrownReflexive(s: Session)
    ensures Grown(s, s)
  {}

  ghost function AllHashes(records: seq<PeerRecord>): set<string> {
    set r | r in records :: r.hash
  }

  /** No stored hash is the empty string. */
  lemma NoEmptyHash(w: World, rows: seq<Row>)
    requires StoreOk(w, rows)
    ensures "" !in Hashes(rows)
  {
    hide Hashes, Hashing.ContentHash, Hashing.Hashable;
    if "" in Hashes(rows) {
      var i := HashIndex(rows, "");
      assert Genuine(w, rows[i]);
      HashStartsWithZ(w, rows[i]);
    }
  }

  lemma HashStartsWithZ(w: World, row: Row)
    requires Genuine(w, row) && row.hash.Some?
    ensures row.hash.value != "" && row.hash.value[0] == 'z'
  {
    hide Hashing.SignableText, Hashing.Hashable, Base58.Encode;
  }

  /** The lookups before a batch make the cache agree with the store on it. */
  lemma StartAware(w: World, s: Session, records: seq<PeerRecord>)
    requires Inv(w, s)
    ensures var t := StartBatch(w, s, records);
            && Inv(w, t) && Aware(t, AllHashes(records)) && t.rows == s.rows && t.workflows == s.workflows
            && t.counts == s.counts.(fetched := s.counts.fetched + |records|)
  {
    NoEmptyHash(w, s.rows);
    hide StoreOk, Hashes;
  }

  /** At every record's turn the cache answers for the store: for each hash of
      the batch it holds the hash exactly when the store does. */
  lemma KnownMatchesStore(w: World, s: Session, records: seq<PeerRecord>, n: nat, k: nat)
    requires Sound(w) && Inv(w, s) && s.counts.error == None && n <= |records| && k < |records|
    ensures var t := PersistAll(w, StartBatch(w, s, records), records[..n]);
            records[k].hash in t.knownHashes <==> records[k].hash in Hashes(t.rows)
  {
    StartAware(w, s, records);
    hide PersistAll, StartBatch, StoreOk, Sound, Hashes;
    AllGrown(w, StartBatch(w, s, records), records[..n], AllHashes(records));
  }

  lemma BatchGrown(w: World, peer: Peer, s: Session, n: nat, hashes: seq<string>)
    requires Sound(w) && Inv(w, s) && s.counts.error == None
    ensures var t := Batch(w, peer, s, n, hashes);
            && Inv(w, t) && Grown(s, t)
            && t.counts.Handled() - s.counts.Handled() <= t.counts.fetched - s.counts.fetched
            && (t.counts.error == None ==>
                 t.counts.Handled() - s.counts.Handled() == t.counts.fetched - s.counts.fetched)
  {
    match peer.fetch(n, hashes)
    case None =>
    case Some(records) =>
      StartAware(w, s, records);
      hide PersistAll, StartBatch, StoreOk, Sound, Hashes;
      AllGrown(w, StartBatch(w, s, records), records, AllHashes(records));
  }

  lemma {:induction false} BatchesGrown(w: World, peer: Peer, s: Session, batches: seq<seq<string>>)
    requires Sound(w) && Inv(w, s)
    ensures var t := Batches(w, peer, s, batches);
            && Inv(w, t) && Grown(s, t)
            && t.counts.Handled() - s.counts.Handled() <= t.counts.fetched - s.counts.fetched
            && (t.counts.error == None ==>
                 t.counts.Handled() - s.counts.Handled() == t.counts.fetched - s.counts.fetched)
  {
    hide Batch, Inv, Sound, Grown;
    if batches == [] {
      GrownReflexive(s);
    } else {
      var n := |batches| - 1;
      BatchesGrown(w, peer, s, batches[..n]);
      var t := Batches(w, peer, s, batches[..n]);
      if t.counts.error == None {
        BatchGrown(w, peer, t, n, batches[n]);
        GrownTransitive(s, t, Batch(w, peer, t, n, batches[n]));
      }
    }
  }

  lemma CompareCounts(w: World, peer: Peer, held: set<string>)
    ensures var counts := Compare(w, peer, held).0;
            counts.Handled() == 0 && counts.fetched == 0 && counts.persisted == 0
  {
    hide Collect, M.DifferingBelow, M.Summarise;
  }

  /** Whatever a peer answers, a round leaves a genuine store in which every old
      row stands unchanged; it grew by the records counted as persisted, and the
      accounts balance unless the round ended in an error. */
  lemma RoundKeepsStore(w: World, peer: Peer, rows: seq<Row>, workflows: set<string>, scope: Option<string>)
    requires Sound(w) && StoreOk(w, rows)
    ensures var s := Round(w, peer, rows, workflows, scope);
            && StoreOk(w, s.rows) && rows <= s.rows && |s.rows| == |rows| + s.counts.persisted
            && workflows <= s.workflows
            && (forall i :: |rows| <= i < |s.rows| ==> s.rows[i].fields.workflowId in s.workflows)
            && s.counts.Handled() <= s.counts.fetched
            && (s.counts.error == None ==> s.counts.Handled() == s.counts.fetched)
  {
    hide Batches, Chunks, Compare, StoreOk, Sound;
    CompareCounts(w, peer, ActiveSet(rows, scope));
    var (counts, missing) := Compare(w, peer, ActiveSet(rows, scope));
    BatchesGrown(w, peer, Session(rows, workflows, {}, {}, counts), Chunks(missing, FETCH_BATCH_SIZE));
  }

  // ---------------------------------------------------------------- Failures

  lemma {:induction false} AllKeepsFetched(w: World, s: Session, records: seq<PeerRecord>)
    ensures PersistAll(w, s, records).counts.fetched == s.counts.fetched
    ensures PersistAll(w, s, records).counts.missing == s.counts.missing
    ensures s.counts.error == None && PersistAll(w, s, records).counts.error.Some? ==>
      PersistAll(w, s, records).counts.error == Some(Unexpected)
  {
    hide Persist;
    if records != [] {
      var front, last := records[..|records| - 1], records[|records| - 1];
      AllKeepsFetched(w, s, front);
      OneKeepsFetched(w, PersistAll(w, s, front), last);
    }
  }

  lemma OneKeepsFetched(w: World, s: Session, record: PeerRecord)
    ensures PersistOne(w, s, record).counts.fetched == s.counts.fetched
    ensures PersistOne(w, s, record).counts.missing == s.counts.missing
    ensures PersistOne(w, s, record).counts.error == s.counts.error
         || PersistOne(w, s, record).counts.error == Some(Unexpected)
  {
    hide PutInto, ParseMemoryType, ParseState;
  }

  /** How many records the peer answers these requests with, if it answers them all. */
  function Answered(peer: Peer, batches: seq<seq<string>>): Option<nat> {
    if batches == [] then Some(0)
    else
      var n := |batches| - 1;
      var before, last := Answered(peer, batches[..n]), peer.fetch(n, batches[n]);
      if before == None || last == None then None else Some(before.value + |last.value|)
  }

  /** A round that reports no error had every batch answered and counts every record of
      the answers; an answer that fails is reported as the peer's. */
  lemma {:induction false} FetchesExact(w: World, peer: Peer, s: Session, batches: seq<seq<string>>)
    requires s.counts.error == None
    ensures var t := Batches(w, peer, s, batches);
            && (t.counts.error == None ==>
                  Answered(peer, batches).Some? && t.counts.fetched == s.counts.fetched + Answered(peer, batches).value)
            && (Answered(peer, batches) == None ==> t.counts.error.Some?)
            && (t.counts.error == Some(PeerClientFailure) ==> Answered(peer, batches) == None)
  {
    hide PersistAll;
    if batches != [] {
      var n := |batches| - 1;
      FetchesExact(w, peer, s, batches[..n]);
      var t := Batches(w, peer, s, batches[..n]);
      match peer.fetch(n, batches[n])
      case None =>
      case Some(records) =>
        if t.counts.error == None {
          AllKeepsFetched(w, StartBatch(w, t, records), records);
        }
    }
  }

  // ---------------------------------------------------------------- Batches

  function Flatten(parts: seq<seq<string>>): seq<string> {
    if parts == [] then [] else parts[0] + Flatten(parts[1..])
  }

  lemma {:induction false} FlattenLast(parts: seq<seq<string>>)
    requires parts != []
    ensures Flatten(parts) == Flatten(parts[..|parts| - 1]) + parts[|parts| - 1]
  {
    var front := parts[..|parts| - 1];
    if |parts| > 1 {
      FlattenLast(parts[1..]);
      assert parts[1..][..|parts| - 2] == front[1..];
    } else {
      assert parts[1..] == [];
    }
  }

  /** The batches, end to end, are the list; none is empty or too large to serve. */
  lemma {:induction false} ChunksExact(items: seq<string>, size: nat)
    requires size > 0
    ensures Flatten(Chunks(items, size)) == items
    ensures forall i :: 0 <= i < |Chunks(items, size)| ==> 0 < |Chunks(items, size)[i]| <= size
  {
    if |items| > size {
      ChunksExact(items[size..], size);
      assert items == items[..size] + items[size..];
      assert Chunks(items, size)[1..] == Chunks(items[size..], size);
    } else if items != [] {
      assert Flatten([items]) == items + Flatten([]);
    }
  }
}
