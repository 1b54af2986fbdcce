/** A round with a peer that answers from its own store
    (backend/app/api/memory_sync.py): the puller ends with the union. */
module HonestPeer {
  import opened Prelude
  import opened Ordering
  import opened Store
  import opened Sync
  import opened Gossip
  import opened GossipTheorems
  import Hashing
  import Base58
  import M = Merkle

  function TypeValue(t: MemoryType): string {
    match t
    case FACT => "fact"
    case CONTEXT => "context"
    case RESULT => "result"
    case REASONING => "reasoning"
    case META => "meta"
    case CACHE => "cache"
  }

  function StateValue(s: RecordState): string {
    match s
    case ACTIVE => "active"
    case SUPERSEDED => "superseded"
    case HISTORICAL => "historical"
    case TOMBSTONED => "tombstoned"
  }

  lemma WireInverse(t: MemoryType, s: RecordState)
    ensures ParseMemoryType(TypeValue(t)) == Some(t) && ParseState(StateValue(s)) == s
  {
    assert |"fact"| == 4 && |"context"| == 7 && |"result"| == 6 && |"reasoning"| == 9;
    assert |"meta"| == 4 && "fact"[0] == 'f' && "meta"[0] == 'm' && |"cache"| == 5;
    assert |"active"| == 6 && |"superseded"| == 10 && |"historical"| == 10 && |"tombstoned"| == 10;
    assert "superseded"[0] == 's' && "historical"[0] == 'h' && "tombstoned"[0] == 't';
  }

  /** A type is read from its own value only, and only a state's own value is read as a
      state other than ACTIVE. */
  lemma WireExact(s: string, t: MemoryType, state: RecordState)
    ensures ParseMemoryType(s) == Some(t) <==> s == TypeValue(t)
    ensures state != ACTIVE ==> (ParseState(s) == state <==> s == StateValue(state))
  {
    WireInverse(t, state);
    hide ParseState, StateValue;
    StateFromValue(s);
  }

  lemma StateFromValue(s: string)
    ensures ParseState(s) != ACTIVE ==> s == StateValue(ParseState(s))
  {}

  /** The client reads an empty string as an absent value. */
  function OrNone(s: Option<string>): Option<string> {
    if s == Some("") then None else s
  }

  /** A row as it arrives at the puller. */
  function WireOf(row: Row): PeerRecord
    requires row.hash.Some?
  {
    var f := row.fields;
    PeerRecord(row.hash.value, f.workflowId, OrNone(f.agent), TypeValue(f.memoryType), f.content, f.confidence,
               f.metadata, OrNone(f.author), f.parents, OrNone(row.signature), StateValue(row.state))
  }

  function Wires(rows: seq<Row>): (r: seq<PeerRecord>)
    requires forall i :: 0 <= i < |rows| ==> rows[i].hash.Some?
    ensures |r| == |rows| && forall i :: 0 <= i < |rows| ==> r[i] == WireOf(rows[i])
  {
    seq(|rows|, i requires 0 <= i < |rows| => WireOf(rows[i]))
  }

  function ServeWires(rows: seq<Row>, hashes: seq<string>): Option<seq<PeerRecord>> {
    match ServeRecords(rows, hashes)
    case None => None
    case Some(served) => if hashes == [] then Some([]) else Some(Wires(Served(rows, hashes)))
  }

  ghost function Honest(w: World, rows: seq<Row>, scope: Option<string>): (peer: Peer)
    ensures peer.summary == Some(M.Summarise(w.sha, ActiveSet(rows, scope)))
    ensures forall i: nat :: peer.buckets(i) == BucketListing(rows, scope, i)
    ensures forall n: nat, hashes :: peer.fetch(n, hashes) == ServeWires(rows, hashes)
  {
    Peer(Some(M.Summarise(w.sha, ActiveSet(rows, scope))),
         (i: nat) => BucketListing(rows, scope, i),
         (n: nat, hashes: seq<string>) => ServeWires(rows, hashes))
  }

  /** Ids in the form str(uuid) gives them, and no empty author. */
  ghost predicate Portable(w: World, row: Row) {
    && row.fields.workflowId != "" && w.uuid(row.fields.workflowId) == Some(row.fields.workflowId)
    && (row.fields.agent.Some? ==>
          row.fields.agent.value != "" && w.uuid(row.fields.agent.value) == row.fields.agent)
    && row.fields.author != Some("")
  }

  /** What an honest peer holds. */
  ghost predicate Healthy(w: World, rows: seq<Row>) {
    StoreOk(w, rows) && forall i :: 0 <= i < |rows| && rows[i].hash.Some? ==> Portable(w, rows[i])
  }

  // ---------------------------------------------------------------- Records

  function RequestFor(row: Row): Request
    requires row.hash.Some?
  {
    RequestOf(WireOf(row), row.fields.workflowId, row.fields.agent, row.fields.memoryType)
  }

  /** A genuine row survives the wire: it is accepted as itself. */
  lemma GenuineIsAccepted(w: World, row: Row)
    requires Genuine(w, row) && row.hash.Some? && Portable(w, row)
    ensures RequestFor(row).fields == row.fields && RequestFor(row).state == row.state
    ensures Resolve(w, RequestFor(row)) == Resolved(row.hash, row.signature)
  {
    WireInverse(row.fields.memoryType, row.state);
    hide Hashing.ContentHash, Hashing.SignableText, Hashing.Hashable, TypeValue, StateValue, ParseState, TypeName;
    var req := RequestFor(row);
    assert req.fields == row.fields;
  }

  lemma HonestSubmit(w: World, s: Session, row: Row)
    requires row.hash.Some? && Genuine(w, row) && Portable(w, row) && row.hash.value !in Hashes(s.rows)
    ensures Submit(w, s, WireOf(row), RequestFor(row))
         == (s.(rows := s.rows + [row], knownHashes := s.knownHashes + {row.hash.value}), Persisted)
  {
    GenuineIsAccepted(w, row);
    hide Genuine, Portable, TypeValue, StateValue, ParseState, Hashes, Resolve;
    InHashes(s.rows, row.hash.value);
  }

  lemma HonestStep(w: World, s: Session, row: Row)
    requires row.hash.Some? && Genuine(w, row) && Portable(w, row) && Inv(w, s) && Aware(s, {row.hash.value})
    ensures var (t, v) := Persist(w, s, WireOf(row));
            && t.counts.invalid == s.counts.invalid && t.counts.unknownWorkflow == s.counts.unknownWorkflow
            && (if row.hash.value in Hashes(s.rows) then v == Skipped && t.rows == s.rows
                else v == Persisted && t.rows == s.rows + [row])
  {
    WireInverse(row.fields.memoryType, row.state);
    AgentSurvives(w, row);
    WorkflowSurvives(w, row);
    hide Genuine, Portable, TypeValue, StateValue, ParseMemoryType, ParseState, Hashes, StoreOk, Submit, ParseAgent;
    if row.hash.value !in Hashes(s.rows) {
      HonestSubmit(w, WithWorkflow(s, row.fields.workflowId), row);
    }
  }

  lemma AgentSurvives(w: World, row: Row)
    requires row.hash.Some? && Portable(w, row)
    ensures ParseAgent(w, WireOf(row).agent) == Some(row.fields.agent)
  {}

  lemma WorkflowSurvives(w: World, row: Row)
    requires row.hash.Some? && Portable(w, row)
    ensures w.uuid(WireOf(row).workflowId) == Some(row.fields.workflowId) && WireOf(row).workflowId != ""
  {}

  ghost predicate AllFrom(served: seq<Row>, rows: seq<Row>) {
    forall i :: 0 <= i < |served| ==> served[i] in rows && served[i].hash.Some?
  }

  /** Rows were added at the end only, each a copy of one of the peer's. */
  ghost predicate Copied(a: seq<Row>, b: seq<Row>, source: seq<Row>) {
    a <= b && forall i :: |a| <= i < |b| ==> b[i] in source && b[i].hash.Some?
  }

  /** What records of an honest peer do to the session. */
  ghost predicate Merged(s: Session, t: Session, hashes: set<string>, source: seq<Row>) {
    && t.counts.error == None && t.counts.invalid == s.counts.invalid
    && t.counts.unknownWorkflow == s.counts.unknownWorkflow
    && Hashes(t.rows) == Hashes(s.rows) + hashes && Copied(s.rows, t.rows, source)
  }

  lemma MergedTransitive(s: Session, t: Session, u: Session, a: set<string>, b: set<string>, source: seq<Row>)
    requires Merged(s, t, a, source) && Merged(t, u, b, source)
    ensures Merged(s, u, a + b, source)
  {
    hide Hashes;
    forall i | |s.rows| <= i < |u.rows|
      ensures u.rows[i] in source && u.rows[i].hash.Some?
    {
      assert i < |t.rows| ==> u.rows[i] == t.rows[i];
    }
  }

  lemma MergedReflexive(s: Session, source: seq<Row>)
    requires s.counts.error == None
    ensures Merged(s, s, {}, source)
  {
    assert Hashes(s.rows) + {} == Hashes(s.rows);
  }

  lemma MergedFine(s: Session, t: Session, hashes: set<string>, source: seq<Row>)
    requires Merged(s, t, hashes, source)
    ensures t.counts.error == None
  {}

  lemma HealthyRow(w: World, rows: seq<Row>, row: Row)
    requires Healthy(w, rows) && row in rows
    ensures Genuine(w, row) && (row.hash.Some? ==> Portable(w, row))
  {
    hide Genuine, Portable;
    var i :| 0 <= i < |rows| && rows[i] == row;
  }

  lemma HonestOne(w: World, s: Session, row: Row, source: seq<Row>)
    requires Sound(w) && Inv(w, s) && Healthy(w, source) && row in source && row.hash.Some?
    requires Aware(s, {row.hash.value}) && s.counts.error == None
    ensures Merged(s, PersistOne(w, s, WireOf(row)), {row.hash.value}, source)
  {
    hide Healthy, Persist, Sound, Inv, Hashes, Genuine, Portable, WireOf;
    HealthyRow(w, source, row);
    PersistKeepsError(w, s, WireOf(row));
    HonestStep(w, s, row);
    if row.hash.value !in Hashes(s.rows) {
      HashesAppend(s.rows, row);
    }
  }

  ghost function RowHashes(rows: seq<Row>): set<string>
    requires forall i :: 0 <= i < |rows| ==> rows[i].hash.Some?
  {
    set i | 0 <= i < |rows| :: rows[i].hash.value
  }

  lemma {:induction false} HonestRecords(w: World, s: Session, served: seq<Row>, source: seq<Row>, hashes: set<string>)
    requires Sound(w) && Inv(w, s) && Healthy(w, source) && AllFrom(served, source)
    requires Aware(s, hashes) && RowHashes(served) <= hashes && s.counts.error == None
    ensures Merged(s, PersistAll(w, s, Wires(served)), RowHashes(served), source)
  {
    hide Healthy, Sound, Inv, Hashes, PersistOne, WireOf, Aware;
    if served == [] {
    } else {
      var front, last := served[..|served| - 1], served[|served| - 1];
      assert Wires(served)[..|served| - 1] == Wires(front);
      assert RowHashes(served) == RowHashes(front) + {last.hash.value};
      HonestRecords(w, s, front, source, hashes);
      var t := PersistAll(w, s, Wires(front));
      WiresDrawn(front, hashes);
      AllGrown(w, s, Wires(front), hashes);
      AwareSubset(t, hashes, {last.hash.value});
      HonestOne(w, t, last, source);
      MergedTransitive(s, t, PersistOne(w, t, WireOf(last)), RowHashes(front), {last.hash.value}, source);
    }
  }

  lemma WiresDrawn(served: seq<Row>, hashes: set<string>)
    requires (forall i :: 0 <= i < |served| ==> served[i].hash.Some?) && RowHashes(served) <= hashes
    ensures Drawn(Wires(served), hashes)
  {
    forall i | 0 <= i < |served|
      ensures Wires(served)[i].hash in hashes
    {
      assert served[i].hash.value in RowHashes(served);
    }
  }

  lemma AwareSubset(s: Session, a: set<string>, b: set<string>)
    requires Aware(s, a) && b <= a
    ensures Aware(s, b)
  {}

  // ---------------------------------------------------------------- Batches

  /** The rows served for advertised hashes carry exactly those hashes. */
  lemma ServedHashes(rows: seq<Row>, scope: Option<string>, hashes: seq<string>)
    requires forall h :: h in hashes ==> h in ActiveSet(rows, scope)
    ensures AllFrom(Served(rows, hashes), rows) && RowHashes(Served(rows, hashes)) == Elems(hashes)
  {
    hide Served, ActiveSet;
    var served := Served(rows, hashes);
    forall i | 0 <= i < |served|
      ensures served[i] in rows && served[i].hash.value in hashes
    {
      ServedExactly(rows, hashes, served[i]);
    }
    forall h | h in hashes
      ensures h in RowHashes(served)
    {
      ActiveIn(rows, scope, h);
      var i :| 0 <= i < |rows| && Advertised(rows[i], scope) && rows[i].hash == Some(h);
      ServedExactly(rows, hashes, rows[i]);
      var j :| 0 <= j < |served| && served[j] == rows[i];
    }
  }

  lemma HonestBatch(w: World, s: Session, source: seq<Row>, scope: Option<string>, n: nat, hashes: seq<string>)
    requires Sound(w) && Inv(w, s) && Healthy(w, source) && s.counts.error == None
    requires 0 < |hashes| <= FETCH_BATCH_SIZE && forall h :: h in hashes ==> h in ActiveSet(source, scope)
    ensures Merged(s, Batch(w, Honest(w, source, scope), s, n, hashes), Elems(hashes), source)
  {
    hide Healthy, Sound, StoreOk, Hashes, PersistAll, ActiveSet, Served, StartBatch, RowHashes, AllFrom, Aware, WireOf;
    ServedHashes(source, scope, hashes);
    var served := Served(source, hashes);
    StartAware(w, s, Wires(served));
    var t := StartBatch(w, s, Wires(served));
    WireHashes(served);
    HonestRecords(w, t, served, source, AllHashes(Wires(served)));
  }

  lemma WireHashes(served: seq<Row>)
    requires forall i :: 0 <= i < |served| ==> served[i].hash.Some?
    ensures RowHashes(served) <= AllHashes(Wires(served))
  {
    forall i | 0 <= i < |served|
      ensures served[i].hash.value in AllHashes(Wires(served))
    {
      assert Wires(served)[i] in Wires(served) && Wires(served)[i].hash == served[i].hash.value;
    }
  }

  ghost predicate Servable(batches: seq<seq<string>>, hashes: set<string>) {
    forall i :: 0 <= i < |batches| ==> 0 < |batches[i]| <= FETCH_BATCH_SIZE && forall h :: h in batches[i] ==>
      h in hashes
  }

  lemma {:induction false} HonestBatches(w: World, s: Session, source: seq<Row>, scope: Option<string>,
        batches: seq<seq<string>>)
    requires Sound(w) && Inv(w, s) && Healthy(w, source) && s.counts.error == None
    requires Servable(batches, ActiveSet(source, scope))
    ensures Merged(s, Batches(w, Honest(w, source, scope), s, batches), Elems(Flatten(batches)), source)
  {
    hide Healthy, Sound, Inv, Hashes, Batch, ActiveSet, Grown, Merged, Honest;
    if batches == [] {
      assert Elems(Flatten(batches)) == {};
      MergedReflexive(s, source);
    } else {
      var n := |batches| - 1;
      var front := batches[..n];
      assert Servable(front, ActiveSet(source, scope));
      HonestBatches(w, s, source, scope, front);
      MergedFine(s, Batches(w, Honest(w, source, scope), s, front), Elems(Flatten(front)), source);
      var t := Batches(w, Honest(w, source, scope), s, front);
      BatchesGrown(w, Honest(w, source, scope), s, front);
      HonestBatch(w, t, source, scope, n, batches[n]);
      FlattenLast(batches);
      assert Elems(Flatten(batches)) == Elems(Flatten(front)) + Elems(batches[n]);
      MergedTransitive(s, t, Batch(w, Honest(w, source, scope), t, n, batches[n]),
                       Elems(Flatten(front)), Elems(batches[n]), source);
    }
  }

  // ---------------------------------------------------------------- Missing hashes

  lemma {:induction false} MultibaseKeeps(hashes: seq<string>)
    requires forall i :: 0 <= i < |hashes| ==> hashes[i] != "" && hashes[i][0] == 'z'
    ensures Multibase(hashes) == hashes
  {
    if hashes != [] {
      MultibaseKeeps(hashes[..|hashes| - 1]);
    }
  }

  lemma {:induction false} NotInExactly(hashes: seq<string>, held: set<string>)
    requires NoDup(hashes)
    ensures NoDup(NotIn(hashes, held))
    ensures Elems(NotIn(hashes, held)) == Elems(hashes) - held
  {
    if hashes != [] {
      var front, last := hashes[..|hashes| - 1], hashes[|hashes| - 1];
      NotInExactly(front, held);
      assert hashes == front + [last];
      assert last !in Elems(front);
      if last !in held {
        assert last !in Elems(NotIn(front, held));
        NoDupAppend(NotIn(front, held), [last]);
        assert Elems(NotIn(front, held) + [last]) == Elems(NotIn(front, held)) + {last};
      } else {
        assert NotIn(hashes, held) == NotIn(front, held);
      }
      assert Elems(hashes) == Elems(front) + {last};
    }
  }

  /** The multibase hashes of some buckets of a set. */
  ghost function InBuckets(hashes: set<string>, indices: seq<nat>): set<string> {
    set h | h in hashes && M.BucketForHash(h).Some? && M.BucketForHash(h).value in indices
  }

  lemma HonestListing(w: World, source: seq<Row>, scope: Option<string>, i: nat)
    requires i < M.BUCKET_COUNT
    ensures FetchBucketHashes(Honest(w, source, scope), i) == Some(SortedSet(M.BucketSet(ActiveSet(source, scope), i)))
  {
    hide SortedSet, ActiveSet;
    var listing := SortedSet(M.BucketSet(ActiveSet(source, scope), i));
    forall k | 0 <= k < |listing|
      ensures listing[k] != "" && listing[k][0] == 'z'
    {
      assert listing[k] in listing;
    }
    MultibaseKeeps(listing);
  }

  /** Of the divergent buckets, exactly what the peer advertises and we do not, once each. */
  lemma {:induction false} CollectExactly(w: World, source: seq<Row>, scope: Option<string>, held: set<string>,
        indices: seq<nat>)
    requires NoDup(indices) && forall i :: 0 <= i < |indices| ==> indices[i] < M.BUCKET_COUNT
    ensures Collect(Honest(w, source, scope), held, indices).Some?
    ensures var missing := Collect(Honest(w, source, scope), held, indices).value;
            NoDup(missing) && Elems(missing) == InBuckets(ActiveSet(source, scope), indices) - held
  {
    hide ActiveSet, SortedSet, M.BucketForHash, Ascending;
    if indices != [] {
      var front, i := indices[..|indices| - 1], indices[|indices| - 1];
      CollectExactly(w, source, scope, held, front);
      var missing := Collect(Honest(w, source, scope), held, front).value;
      HonestListing(w, source, scope, i);
      var theirs := SortedSet(M.BucketSet(ActiveSet(source, scope), i));
      AscendingNoDup(theirs);
      NotInExactly(theirs, M.BucketSet(held, i));
      CollectStep(ActiveSet(source, scope), held, indices, missing, NotIn(theirs, M.BucketSet(held, i)));
    }
  }

  lemma CollectStep(theirs: set<string>, held: set<string>, indices: seq<nat>, missing: seq<string>, more: seq<string>)
    requires indices != [] && NoDup(indices) && NoDup(missing) && NoDup(more)
    requires Elems(missing) == InBuckets(theirs, indices[..|indices| - 1]) - held
    requires Elems(more) == M.BucketSet(theirs, indices[|indices| - 1]) - M.BucketSet(held, indices[|indices| - 1])
    ensures NoDup(missing + more) && Elems(missing + more) == InBuckets(theirs, indices) - held
  {
    hide M.BucketForHash;
    var front, i := indices[..|indices| - 1], indices[|indices| - 1];
    assert indices == front + [i];
    NoDupSplit(front, [i]);
    forall h | h in missing
      ensures h !in more
    {
      assert h in Elems(missing) && M.BucketForHash(h).value in front;
      assert h in more <==> h in Elems(more);
    }
    NoDupAppend(missing, more);
    forall h
      ensures h in Elems(missing + more) <==> h in InBuckets(theirs, indices) - held
    {
      assert h in Elems(missing + more) <==> h in Elems(missing) || h in Elems(more);
    }
  }

  // ---------------------------------------------------------------- The round

  /** A genuine row's address is well formed, so it has a bucket. */
  lemma GenuineHasBucket(w: World, row: Row)
    requires Sound(w) && Genuine(w, row) && row.hash.Some?
    ensures M.BucketForHash(row.hash.value).Some?
  {
    hide Hashing.SignableText, Hashing.Hashable, Base58.Encode, M.BucketForHash;
    M.HashBucket(w.sha(Hashing.SignableText(row.fields.Body())));
  }

  lemma ActiveWellFormed(w: World, rows: seq<Row>, scope: Option<string>)
    requires Sound(w) && StoreOk(w, rows)
    ensures M.WellFormed(ActiveSet(rows, scope)) == ActiveSet(rows, scope)
    ensures ActiveSet(rows, scope) <= Hashes(rows)
  {
    hide ActiveSet, Genuine, Sound, Hashes, M.BucketForHash;
    forall h | h in ActiveSet(rows, scope)
      ensures M.BucketForHash(h).Some? && h in Hashes(rows)
    {
      ActiveIn(rows, scope, h);
      var i :| 0 <= i < |rows| && Advertised(rows[i], scope) && rows[i].hash == Some(h);
      GenuineHasBucket(w, rows[i]);
      RowInHashes(rows, rows[i]);
    }
  }

  ghost predicate SummariesFaithful(w: World, a: set<string>, b: set<string>) {
    M.NoCollision(w.sha, M.HashedTexts(w.sha, a) + M.HashedTexts(w.sha, b))
  }

  /** Outside the divergent buckets there is nothing to fetch. */
  lemma DivergentCover(w: World, ours: set<string>, theirs: set<string>)
    requires SummariesFaithful(w, ours, theirs) && M.WellFormed(theirs) == theirs
    ensures var divergent := M.DivergesFrom(M.Summarise(w.sha, ours), M.Summarise(w.sha, theirs));
            && InBuckets(theirs, divergent) - ours == theirs - ours
            && NoDup(divergent) && forall i :: 0 <= i < |divergent| ==> divergent[i] < M.BUCKET_COUNT
  {
    hide M.Summarise, SummariesFaithful, M.BucketForHash;
    var divergent := M.DivergesFrom(M.Summarise(w.sha, ours), M.Summarise(w.sha, theirs));
    DivergentShape(M.Summarise(w.sha, ours), M.Summarise(w.sha, theirs));
    forall h | h in theirs && h !in ours
      ensures h in InBuckets(theirs, divergent)
    {
      assert h in M.WellFormed(theirs);
      BucketDiverges(w, ours, theirs, h);
    }
  }

  lemma DivergentShape(a: M.Summary, b: M.Summary)
    requires |a.buckets| == |b.buckets| == M.BUCKET_COUNT
    ensures NoDup(M.DivergesFrom(a, b))
    ensures forall i :: 0 <= i < |M.DivergesFrom(a, b)| ==> M.DivergesFrom(a, b)[i] < M.BUCKET_COUNT
  {
    assert forall i :: 0 <= i < |M.DivergesFrom(a, b)| ==> M.DivergesFrom(a, b)[i] in M.DivergesFrom(a, b);
  }

  lemma BucketDiverges(w: World, ours: set<string>, theirs: set<string>, h: string)
    requires SummariesFaithful(w, ours, theirs) && (h in theirs <==> h !in ours) && M.BucketForHash(h).Some?
    ensures M.BucketForHash(h).value in M.DivergesFrom(M.Summarise(w.sha, ours), M.Summarise(w.sha, theirs))
  {
    hide M.Summarise, M.BucketForHash, M.DifferingBelow, M.HashedTexts, M.NoCollision;
    var i := M.BucketForHash(h).value;
    M.BucketRange(h);
    assert h in M.BucketSet(theirs, i) <==> h !in M.BucketSet(ours, i);
    M.DivergesExact(w.sha, ours, theirs, i);
  }

  /** The comparison and the collection together find exactly the hashes the peer
      advertises and we do not, each once. */
  lemma MissingExactly(w: World, source: seq<Row>, scope: Option<string>, ours: set<string>)
    requires Sound(w) && StoreOk(w, source) && M.WellFormed(ours) == ours
    requires SummariesFaithful(w, ours, ActiveSet(source, scope))
    ensures var (counts, missing) := Compare(w, Honest(w, source, scope), ours);
            && NoDup(missing) && Elems(missing) == ActiveSet(source, scope) - ours
            && counts.error == None && counts.missing == |ActiveSet(source, scope) - ours|
            && counts.invalid == 0 && counts.unknownWorkflow == 0
            && (counts.inSyncBefore <==> ActiveSet(source, scope) == ours)
            && counts.compared == 256 && counts.divergent == |DifferingBuckets(ActiveSet(source, scope), ours)|
  {
    ActiveWellFormed(w, source, scope);
    var theirs := ActiveSet(source, scope);
    DivergentCover(w, ours, theirs);
    RootsAgree(w, ours, theirs);
    hide Sound, StoreOk, ActiveSet, M.Summarise, M.DifferingBelow, SummariesFaithful, M.WellFormed, Collect;
    var divergent := M.DivergesFrom(M.Summarise(w.sha, ours), M.Summarise(w.sha, theirs));
    CollectExactly(w, source, scope, ours, divergent);
    var (counts, missing) := Compare(w, Honest(w, source, scope), ours);
    NoDupLength(missing);
    DivergentCount(w, ours, theirs);
  }

  /** The buckets in which two sets of hashes differ. */
  ghost function DifferingBuckets(a: set<string>, b: set<string>): set<nat> {
    set i | 0 <= i < M.BUCKET_COUNT && M.BucketSet(a, i) != M.BucketSet(b, i)
  }

  lemma DivergentCount(w: World, ours: set<string>, theirs: set<string>)
    requires SummariesFaithful(w, ours, theirs)
    ensures |M.DivergesFrom(M.Summarise(w.sha, ours), M.Summarise(w.sha, theirs))| == |DifferingBuckets(theirs, ours)|
    ensures ours == theirs ==> DifferingBuckets(theirs, ours) == {}
  {
    hide M.Summarise, M.DifferingBelow, M.BucketSet, M.HashedTexts, M.NoCollision;
    var divergent := M.DivergesFrom(M.Summarise(w.sha, ours), M.Summarise(w.sha, theirs));
    DivergentShape(M.Summarise(w.sha, ours), M.Summarise(w.sha, theirs));
    forall i: nat
      ensures i in Elems(divergent) <==> i in DifferingBuckets(theirs, ours)
    {
      M.DivergesExact(w.sha, ours, theirs, i);
    }
    assert Elems(divergent) == DifferingBuckets(theirs, ours);
    NoDupLength(divergent);
  }

  lemma RootsAgree(w: World, ours: set<string>, theirs: set<string>)
    requires Sound(w) && SummariesFaithful(w, ours, theirs) && M.WellFormed(ours) == ours &&
      M.WellFormed(theirs) == theirs
    ensures M.Summarise(w.sha, ours).root == M.Summarise(w.sha, theirs).root <==> ours == theirs
    ensures M.DivergesFrom(M.Summarise(w.sha, ours), M.Summarise(w.sha, theirs)) == [] ==> ours == theirs
  {
    hide M.Summarise, M.BucketForHash, M.HashedTexts, M.NoCollision, M.WellFormed;
    M.RootExact(w.sha, ours, theirs);
    if M.DivergesFrom(M.Summarise(w.sha, ours), M.Summarise(w.sha, theirs)) == [] {
      forall h | h in ours || h in theirs
        ensures h in ours && h in theirs
      {
        HasBucket(if h in ours then ours else theirs, h);
        if (h in theirs) != (h in ours) {
          BucketDiverges(w, ours, theirs, h);
        }
      }
    }
  }

  lemma HasBucket(hashes: set<string>, h: string)
    requires M.WellFormed(hashes) == hashes && h in hashes
    ensures M.BucketForHash(h).Some?
  {
    assert h in M.WellFormed(hashes);
  }

  /** After a round with an honest peer the store holds the union of its own
      hashes and the ones the peer advertises; the new rows are the peer's own. */
  lemma HonestRoundIsUnion(w: World, rows: seq<Row>, source: seq<Row>, workflows: set<string>, scope: Option<string>)
    requires Sound(w) && StoreOk(w, rows) && Healthy(w, source)
    requires SummariesFaithful(w, ActiveSet(rows, scope), ActiveSet(source, scope))
    ensures var s := Round(w, Honest(w, source, scope), rows, workflows, scope);
            && Hashes(s.rows) == Hashes(rows) + ActiveSet(source, scope)
            && Copied(rows, s.rows, source)
            && s.counts.error == None && s.counts.invalid == 0 && s.counts.unknownWorkflow == 0
  {
    ActiveWellFormed(w, rows, scope);
    hide Sound, StoreOk, Healthy, ActiveSet, Compare, M.WellFormed, Hashes, Honest, SummariesFaithful, Batches,
      Chunks, Copied;
    var peer := Honest(w, source, scope);
    var ours := ActiveSet(rows, scope);
    MissingExactly(w, source, scope, ours);
    var (counts, missing) := Compare(w, peer, ours);
    HonestFetch(w, Session(rows, workflows, {}, {}, counts), source, scope, missing);
    SetMinus(Hashes(rows), ours, ActiveSet(source, scope));
  }

  lemma SetMinus(all: set<string>, ours: set<string>, theirs: set<string>)
    requires ours <= all
    ensures all + (theirs - ours) == all + theirs
  {}

  lemma HonestFetch(w: World, s: Session, source: seq<Row>, scope: Option<string>, missing: seq<string>)
    requires Sound(w) && StoreOk(w, s.rows) && Healthy(w, source) && s.knownHashes == {} && s.knownWorkflows == {}
    requires s.counts.error == None && Elems(missing) <= ActiveSet(source, scope)
    ensures Merged(s, Batches(w, Honest(w, source, scope), s, Chunks(missing, FETCH_BATCH_SIZE)), Elems(missing),
      source)
  {
    hide Sound, StoreOk, Healthy, ActiveSet, Hashes, Honest, Batches, Chunks, Merged, Servable;
    ChunksExact(missing, FETCH_BATCH_SIZE);
    ChunksServable(missing, ActiveSet(source, scope));
    HonestBatches(w, s, source, scope, Chunks(missing, FETCH_BATCH_SIZE));
  }

  lemma ChunksServable(missing: seq<string>, hashes: set<string>)
    requires Elems(missing) <= hashes
    ensures Servable(Chunks(missing, FETCH_BATCH_SIZE), hashes)
  {
    var batches := Chunks(missing, FETCH_BATCH_SIZE);
    ChunksExact(missing, FETCH_BATCH_SIZE);
    forall i | 0 <= i < |batches|
      ensures forall h :: h in batches[i] ==> h in hashes
    {
      PartOfWhole(batches, i);
      assert forall h :: h in batches[i] ==> h in Elems(missing);
    }
  }

  lemma {:induction false} PartOfWhole(parts: seq<seq<string>>, i: nat)
    requires i < |parts|
    ensures forall h :: h in parts[i] ==> h in Flatten(parts)
  {
    if i > 0 {
      PartOfWhole(parts[1..], i - 1);
    }
  }

  /** A row added by such a round is one the peer advertises and we did not hold: it is
      ACTIVE and belongs to the workflow asked for. */
  lemma AddedRowsExact(w: World, rows: seq<Row>, source: seq<Row>, workflows: set<string>, scope: Option<string>,
        i: nat)
    requires Sound(w) && StoreOk(w, rows) && Healthy(w, source)
    requires SummariesFaithful(w, ActiveSet(rows, scope), ActiveSet(source, scope))
    requires |rows| <= i < |Round(w, Honest(w, source, scope), rows, workflows, scope).rows|
    ensures var row := Round(w, Honest(w, source, scope), rows, workflows, scope).rows[i];
            && row in source && row.state.ACTIVE? && (scope.None? || row.fields.workflowId == scope.value)
            && row.hash.Some? && row.hash.value !in Hashes(rows)
  {
    hide Sound, Genuine, Portable, ActiveSet, Hashes, Honest, SummariesFaithful, Round;
    HonestRoundIsUnion(w, rows, source, workflows, scope);
    RoundKeepsStore(w, Honest(w, source, scope), rows, workflows, scope);
    var after := Round(w, Honest(w, source, scope), rows, workflows, scope).rows;
    var row := after[i];
    var h := row.hash.value;
    RowInHashes(after, row);
    NewHashIsNew(rows, after, i);
    ActiveExactly(source, scope, h);
    var j :| 0 <= j < |source| && source[j].hash == Some(h) && source[j].state.ACTIVE?
             && (scope.None? || source[j].fields.workflowId == scope.value);
    SameAddressSameRow(w, source, j, row);
  }

  lemma NewHashIsNew(rows: seq<Row>, after: seq<Row>, i: nat)
    requires OneRowPerHash(after) && rows <= after && |rows| <= i < |after| && after[i].hash.Some?
    ensures after[i].hash.value !in Hashes(rows)
  {
    hide Hashes;
    forall k | 0 <= k < |rows|
      ensures rows[k].hash != after[i].hash
    {
      assert after[k] == rows[k];
    }
    if after[i].hash.value in Hashes(rows) {
      var k := HashIndex(rows, after[i].hash.value);
    }
  }

  lemma SameAddressSameRow(w: World, source: seq<Row>, j: nat, row: Row)
    requires StoreOk(w, source) && j < |source| && row in source && row.hash.Some? && source[j].hash == row.hash
    ensures source[j] == row
  {
    hide Genuine;
    var k :| 0 <= k < |source| && source[k] == row;
  }
}
