/** The append-only, signed, content-addressed write path
    (backend/app/crdt/store.py). Ed25519, DID resolution and UUID parsing are
    parameters; base58, canonical text and hashing are the real ones. */
module Store {
  import opened Prelude
  import opened Base58
  import opened CanonicalJson
  import opened Hashing
  import M = Merkle

  type Seed = seq<Byte>
  type PublicKey = seq<Byte>

  /** What a DID gives without a network: its key, nothing (did:web and unknown
      methods), or a parse error. */
  datatype DidKey = Inline(key: PublicKey) | NotInline | MalformedDid

  datatype World = World(
    sha: M.Sha,
    resolve: string -> DidKey,
    publicKey: Seed -> PublicKey,
    sign: (string, Seed) -> seq<Byte>,
    verify: (string, seq<Byte>, PublicKey) -> bool,
    uuid: string -> Option<string>)

  /** The hypotheses on the foreign functions: a 32-byte digest, a signature
      verifies under its own key, and a printed UUID parses to itself. */
  ghost predicate Sound(w: World) {
    && M.DigestsAre32(w.sha)
    && (forall text, seed :: w.verify(text, w.sign(text, seed), w.publicKey(seed)))
    && forall s :: w.uuid(s).Some? ==> w.uuid(w.uuid(s).value) == w.uuid(s)
  }

  /** A signature verifies under no key but its own. */
  ghost predicate KeysBind(w: World) {
    forall text, seed, key :: w.verify(text, w.sign(text, seed), key) ==> key == w.publicKey(seed)
  }

  datatype MemoryType = FACT | CONTEXT | RESULT | REASONING | META | CACHE

  datatype RecordState = ACTIVE | SUPERSEDED | HISTORICAL | TOMBSTONED

  function TypeName(t: MemoryType): string {
    match t
    case FACT => "FACT"
    case CONTEXT => "CONTEXT"
    case RESULT => "RESULT"
    case REASONING => "REASONING"
    case META => "META"
    case CACHE => "CACHE"
  }

  /** The caller's part of a record. */
  datatype Fields = Fields(
    workflowId: string,
    memoryType: MemoryType,
    content: string,
    confidence: Float,
    metadata: seq<Entry>,
    parents: seq<string>,
    author: Option<string>,
    agent: Option<string>)
  {
    /** build_canonical_body; str() of a member of the enumeration has its class in front. */
    function Body(): Body {
      Hashing.Body(workflowId, "MemoryType." + TypeName(memoryType), content, confidence, metadata, parents, author,
        agent)
    }
  }

  datatype Row = Row(fields: Fields, hash: Option<string>, signature: Option<string>, state: RecordState)

  datatype KeyPair = KeyPair(seed: Seed, pub: PublicKey)

  datatype Request = Request(
    fields: Fields,
    keypair: Option<KeyPair>,
    hash: Option<string>,
    signature: Option<string>,
    state: RecordState)

  datatype Resolution =
    | Resolved(hash: Option<string>, signature: Option<string>)
    | SignatureMismatch
    | UnknownAuthor
    | OtherException

  datatype Outcome = Written(row: Row) | Existing(row: Row) | Rejected(error: Resolution)
  {
    predicate Ok() { !Rejected? }
  }

  // ---------------------------------------------------------------- put

  function EncodeMultibase(raw: seq<Byte>): string {
    "z" + Encode(raw)
  }

  /** None where the source raises. */
  function DecodeMultibase(s: string): Option<seq<Byte>> {
    if s == "" || s[0] != 'z' then None else Decode(s[1..])
  }

  /** _resolve_hash_and_signature */
  function Resolve(w: World, req: Request): Resolution {
    var body := req.fields.Body();
    if req.keypair == None && req.signature == None then
      if req.hash == None && body.author == None then Resolved(None, None)
      else if !Hashable(body) then OtherException
      else if req.hash.Some? && req.hash.value != ContentHash(w.sha, body) then SignatureMismatch
      else Resolved(Some(ContentHash(w.sha, body)), None)
    else if !Hashable(body) then OtherException
    else if req.hash.Some? && req.hash.value != ContentHash(w.sha, body) then SignatureMismatch
    else if req.keypair.Some? then
      var signature := EncodeMultibase(w.sign(SignableText(body), req.keypair.value.seed));
      if req.signature.Some? && req.signature.value != signature then SignatureMismatch
      else Resolved(Some(ContentHash(w.sha, body)), Some(signature))
    else CheckSignature(w, body, req.signature.value)
  }

  /** The branch that holds no private key. */
  function CheckSignature(w: World, body: Body, signature: string): Resolution
    requires Hashable(body)
  {
    if body.author == None then UnknownAuthor
    else
      match w.resolve(body.author.value)
      case MalformedDid => OtherException
      case NotInline => UnknownAuthor
      case Inline(key) =>
        var raw := DecodeMultibase(signature);
        if raw == None || !w.verify(SignableText(body), raw.value, key) then SignatureMismatch
        else Resolved(Some(ContentHash(w.sha, body)), Some(signature))
  }

  function FetchByHash(rows: seq<Row>, h: string): (r: Option<Row>)
    ensures r.Some? ==> r.value in rows && r.value.hash == Some(h)
    ensures r.None? ==> forall i :: 0 <= i < |rows| ==> rows[i].hash != Some(h)
  {
    if rows == [] then None
    else if rows[0].hash == Some(h) then Some(rows[0])
    else FetchByHash(rows[1..], h)
  }

  function PutInto(w: World, rows: seq<Row>, req: Request): (r: (seq<Row>, Outcome)) {
    var resolution := Resolve(w, req);
    if !resolution.Resolved? then (rows, Rejected(resolution))
    else
      var row := Row(req.fields, resolution.hash, resolution.signature, req.state);
      var found := if row.hash == None then None else FetchByHash(rows, row.hash.value);
      if found.Some? then (rows, Existing(found.value)) else (rows + [row], Written(row))
  }

  function Puts(w: World, rows: seq<Row>, reqs: seq<Request>): seq<Row> {
    if reqs == [] then rows
    else PutInto(w, Puts(w, rows, reqs[..|reqs| - 1]), reqs[|reqs| - 1]).0
  }

  class CrdtStore {
    const world: World
    var rows: seq<Row>

    constructor (world: World)
      ensures this.world == world && rows == []
    {
      this.world := world;
      this.rows := [];
    }

    method Put(req: Request) returns (outcome: Outcome)
      modifies this
      ensures (rows, outcome) == PutInto(world, old(rows), req)
    {
      var resolution := Resolve(world, req);
      if !resolution.Resolved? {
        return Rejected(resolution);
      }
      var record := Row(req.fields, resolution.hash, resolution.signature, req.state);
      if record.hash.Some? {
        var existing := FetchByHash(rows, record.hash.value);
        if existing.Some? {
          return Existing(existing.value);
        }
      }
      rows := rows + [record];
      return Written(record);
    }
  }

  // ---------------------------------------------------------------- Invariant

  /** Its signature verifies under the key of its declared author. */
  ghost predicate Verified(w: World, row: Row) {
    var body := row.fields.Body();
    && row.signature.Some? && body.author.Some? && Hashable(body)
    && w.resolve(body.author.value).Inline?
    && DecodeMultibase(row.signature.value).Some?
    && w.verify(SignableText(body), DecodeMultibase(row.signature.value).value, w.resolve(body.author.value).key)
  }

  /** The address is the row's own, and a signature is a valid one on a hashed row. */
  ghost predicate Genuine(w: World, row: Row) {
    && (row.hash.Some? ==> Hashable(row.fields.Body()) && row.hash.value == ContentHash(w.sha, row.fields.Body()))
    && (row.signature.Some? ==> row.hash.Some? && Verified(w, row))
  }

  ghost predicate OneRowPerHash(rows: seq<Row>) {
    forall i, j :: 0 <= i < j < |rows| && rows[i].hash.Some? ==> rows[i].hash != rows[j].hash
  }

  ghost predicate StoreOk(w: World, rows: seq<Row>) {
    OneRowPerHash(rows) && forall i :: 0 <= i < |rows| ==> Genuine(w, rows[i])
  }

  /** What the local writers ensure: the keypair is the declared author's. */
  predicate KeyMatches(w: World, req: Request) {
    req.keypair.Some? ==>
      req.fields.author.Some? && w.resolve(req.fields.author.value) == Inline(w.publicKey(req.keypair.value.seed))
  }

  lemma MultibaseInverse(raw: seq<Byte>)
    ensures DecodeMultibase(EncodeMultibase(raw)) == Some(raw)
  {
    hide Encode, Decode;
    DecodeEncode(raw);
    assert EncodeMultibase(raw)[1..] == Encode(raw);
  }

  /** A put adds one row at the end or nothing; it never touches a row that is there. */
  lemma PutAppends(w: World, rows: seq<Row>, req: Request)
    ensures var (after, outcome) := PutInto(w, rows, req);
            && (outcome.Written? ==>
                 after == rows + [outcome.row] && outcome.row.fields == req.fields && outcome.row.state == req.state)
            && (!outcome.Written? ==> after == rows)
            && (outcome.Existing? ==> outcome.row in rows && outcome.row.hash.Some?)
  {}

  /** The accepted row is genuine when the keypair, if any, is the author's. */
  lemma ResolvedIsGenuine(w: World, req: Request)
    requires Sound(w) && KeyMatches(w, req) && Resolve(w, req).Resolved?
    ensures Genuine(w, Row(req.fields, Resolve(w, req).hash, Resolve(w, req).signature, req.state))
    ensures req.hash.Some? ==> Resolve(w, req).hash == req.hash
    ensures req.signature.Some? ==> Resolve(w, req).signature == req.signature
  {
    hide DecodeMultibase, EncodeMultibase, SignableText, ContentHash, Hashable;
    if req.keypair.Some? && Hashable(req.fields.Body()) {
      MultibaseInverse(w.sign(SignableText(req.fields.Body()), req.keypair.value.seed));
    }
  }

  lemma PutKeepsStore(w: World, rows: seq<Row>, req: Request)
    requires Sound(w) && StoreOk(w, rows) && KeyMatches(w, req)
    ensures StoreOk(w, PutInto(w, rows, req).0)
  {
    hide Genuine, Sound, KeyMatches, Resolve;
    if Resolve(w, req).Resolved? {
      ResolvedIsGenuine(w, req);
    }
  }

  /** Over every run of puts, from peers or from local writers holding their own
      keys, the store stays genuine and only grows: a superseded row stays so. */
  lemma {:induction false} RunKeepsStore(w: World, rows: seq<Row>, reqs: seq<Request>)
    requires Sound(w) && StoreOk(w, rows) && forall i :: 0 <= i < |reqs| ==> KeyMatches(w, reqs[i])
    ensures StoreOk(w, Puts(w, rows, reqs)) && rows <= Puts(w, rows, reqs)
  {
    hide StoreOk, Sound, KeyMatches, PutInto;
    if reqs != [] {
      var front, last := reqs[..|reqs| - 1], reqs[|reqs| - 1];
      RunKeepsStore(w, rows, front);
      PutKeepsStore(w, Puts(w, rows, front), last);
      PutAppends(w, Puts(w, rows, front), last);
    }
  }

  /** Writing a hashed record again changes nothing and returns a row of that hash. */
  lemma PutTwice(w: World, rows: seq<Row>, req: Request)
    requires Resolve(w, req).Resolved? && Resolve(w, req).hash.Some?
    ensures var once := PutInto(w, rows, req).0;
            && PutInto(w, once, req).0 == once
            && PutInto(w, once, req).1.Existing?
            && PutInto(w, once, req).1.row.hash == Resolve(w, req).hash
  {
    hide Resolve;
    var once := PutInto(w, rows, req).0;
    assert PutInto(w, rows, req).1.Written? ==> once[|rows|].hash == Resolve(w, req).hash;
  }

  /** The row that wins over a duplicate is the same document. */
  lemma ExistingIsSame(w: World, rows: seq<Row>, req: Request)
    requires Sound(w) && StoreOk(w, rows) && KeyMatches(w, req) && PutInto(w, rows, req).1.Existing?
    requires FloatsFine(req.fields.Body()) && FloatsFine(PutInto(w, rows, req).1.row.fields.Body())
    requires Hashable(req.fields.Body()) && Hashable(PutInto(w, rows, req).1.row.fields.Body())
    requires M.NoCollision(w.sha, {SignableText(req.fields.Body()),
      SignableText(PutInto(w, rows, req).1.row.fields.Body())})
    ensures SameBody(req.fields.Body(), PutInto(w, rows, req).1.row.fields.Body())
  {
    var found := PutInto(w, rows, req).1.row;
    ExistingIsGenuine(w, rows, req);
    hide PutInto, Resolve, StoreOk, Sound, KeyMatches, Hashable, FloatsFine, SameBody, ContentHash, SignableText;
    ContentHashExact(w.sha, req.fields.Body(), found.fields.Body());
  }

  lemma ExistingIsGenuine(w: World, rows: seq<Row>, req: Request)
    requires StoreOk(w, rows) && PutInto(w, rows, req).1.Existing?
    ensures Hashable(req.fields.Body()) && Hashable(PutInto(w, rows, req).1.row.fields.Body())
    ensures ContentHash(w.sha, req.fields.Body()) == ContentHash(w.sha, PutInto(w, rows, req).1.row.fields.Body())
  {
    hide Hashable, ContentHash, SignableText, DecodeMultibase, EncodeMultibase;
    var found := PutInto(w, rows, req).1.row;
    var i :| 0 <= i < |rows| && rows[i] == found;
    assert Genuine(w, rows[i]);
  }

  /** Helper, a case split of Resolve: a record that arrives with a signature and no
      private key is taken exactly when its hash is its own and its signature is its
      author's. */
  lemma ForeignAcceptedExactly(w: World, rows: seq<Row>, req: Request)
    requires req.keypair == None && req.signature.Some?
    ensures PutInto(w, rows, req).1.Ok()
       <==> (Hashable(req.fields.Body())
             && (req.hash.Some? ==> req.hash.value == ContentHash(w.sha, req.fields.Body()))
             && Verified(w, Row(req.fields, req.hash, req.signature, req.state)))
  {
    hide Hashable, ContentHash, SignableText, DecodeMultibase;
  }

  /** Helper, a case split of Resolve: a record offered with its address is taken
      exactly when it is genuine as it stands. */
  lemma OfferedAcceptedExactly(w: World, rows: seq<Row>, req: Request)
    requires req.keypair == None && req.hash.Some?
    ensures PutInto(w, rows, req).1.Ok() <==> Genuine(w, Row(req.fields, req.hash, req.signature, req.state))
    ensures PutInto(w, rows, req).1.Ok() ==> Resolve(w, req) == Resolved(req.hash, req.signature)
  {
    hide Hashable, ContentHash, SignableText, DecodeMultibase;
  }

  // ---------------------------------------------------------------- Which writes are accepted

  ghost predicate Held(rows: seq<Row>, h: string) {
    exists i :: 0 <= i < |rows| && rows[i].hash == Some(h)
  }

  lemma HeldIff(rows: seq<Row>, h: string)
    ensures Held(rows, h) <==> FetchByHash(rows, h).Some?
  {
    var found := FetchByHash(rows, h);
    if found.Some? {
      var i :| 0 <= i < |rows| && rows[i] == found.value;
    }
  }

  /** A write by someone who holds a private key, the one every checkpoint and audit
      entry makes: taken exactly when the body can be hashed and a supplied hash and
      signature are its own; stored with its address and its signature. */
  lemma KeypairWriteExact(w: World, rows: seq<Row>, req: Request)
    requires req.keypair.Some?
    ensures var body, (after, outcome) := req.fields.Body(), PutInto(w, rows, req);
            && (!Hashable(body) ==> after == rows && outcome == Rejected(OtherException))
            && (Hashable(body) ==>
                  var h, text := ContentHash(w.sha, body), SignableText(body);
                  var signature := "z" + Encode(w.sign(text, req.keypair.value.seed));
                  if (req.hash.Some? && req.hash.value != h) || (req.signature.Some? &&
                    req.signature.value != signature)
                  then after == rows && outcome == Rejected(SignatureMismatch)
                  else if Held(rows, h) then after == rows && outcome.Existing? && outcome.row.hash == Some(h)
                  else after == rows + [Row(req.fields, Some(h), Some(signature), req.state)]
                       && outcome == Written(Row(req.fields, Some(h), Some(signature), req.state)))
  {
    hide Hashable, ContentHash, SignableText, Held;
    if Hashable(req.fields.Body()) {
      HeldIff(rows, ContentHash(w.sha, req.fields.Body()));
    }
  }

  /** A write with neither key nor signature: without author and hash it is stored
      without an address; otherwise it is hashed, and stored unsigned under its own
      address unless a supplied hash is another. */
  lemma UnsignedWriteExact(w: World, rows: seq<Row>, req: Request)
    requires req.keypair == None && req.signature == None
    ensures var body, (after, outcome) := req.fields.Body(), PutInto(w, rows, req);
            if body.author == None && req.hash == None
            then after == rows + [Row(req.fields, None, None, req.state)]
                 && outcome == Written(Row(req.fields, None, None, req.state))
            else if !Hashable(body) then after == rows && outcome == Rejected(OtherException)
            else
              var h := ContentHash(w.sha, body);
              if req.hash.Some? && req.hash.value != h then after == rows && outcome == Rejected(SignatureMismatch)
              else if Held(rows, h) then after == rows && outcome.Existing? && outcome.row.hash == Some(h)
              else after == rows + [Row(req.fields, Some(h), None, req.state)]
                   && outcome == Written(Row(req.fields, Some(h), None, req.state))
  {
    hide Hashable, ContentHash, SignableText, Held;
    if Hashable(req.fields.Body()) {
      HeldIff(rows, ContentHash(w.sha, req.fields.Body()));
    }
  }

  /** A write with a signature made elsewhere: which error it meets, or the row. */
  lemma ForeignWriteExact(w: World, rows: seq<Row>, req: Request)
    requires req.keypair == None && req.signature.Some?
    ensures var body, (after, outcome) := req.fields.Body(), PutInto(w, rows, req);
            if !Hashable(body) then after == rows && outcome == Rejected(OtherException)
            else
              var h := ContentHash(w.sha, body);
              if req.hash.Some? && req.hash.value != h then after == rows && outcome == Rejected(SignatureMismatch)
              else if body.author == None || w.resolve(body.author.value).NotInline?
              then after == rows && outcome == Rejected(UnknownAuthor)
              else if w.resolve(body.author.value).MalformedDid?
              then after == rows && outcome == Rejected(OtherException)
              else if !Verified(w, Row(req.fields, Some(h), req.signature, req.state))
              then after == rows && outcome == Rejected(SignatureMismatch)
              else if Held(rows, h) then after == rows && outcome.Existing? && outcome.row.hash == Some(h)
              else after == rows + [Row(req.fields, Some(h), req.signature, req.state)]
                   && outcome == Written(Row(req.fields, Some(h), req.signature, req.state))
  {
    hide Hashable, ContentHash, SignableText, Held, DecodeMultibase;
    if Hashable(req.fields.Body()) {
      HeldIff(rows, ContentHash(w.sha, req.fields.Body()));
    }
  }

  /** The hashed body determines the record, its type included. */
  lemma BodyInjective(a: Fields, b: Fields)
    requires a.Body() == b.Body()
    ensures a == b
  {
    var prefix := "MemoryType.";
    assert (prefix + TypeName(a.memoryType))[|prefix|..] == TypeName(a.memoryType);
    assert (prefix + TypeName(b.memoryType))[|prefix|..] == TypeName(b.memoryType);
    TypeNamesDiffer(a.memoryType, b.memoryType);
  }

  lemma TypeNamesDiffer(a: MemoryType, b: MemoryType)
    requires TypeName(a) == TypeName(b)
    ensures a == b
  {
    assert |"FACT"| == 4 && |"CONTEXT"| == 7 && |"RESULT"| == 6 && |"REASONING"| == 9 && |"META"| == 4 &&
      |"CACHE"| == 5;
    assert "FACT"[0] == 'F' && "META"[0] == 'M';
  }

  /** put never compares a keypair with the author it signs for, so the row it
      writes is genuine exactly when the caller did. */
  lemma KeypairWriteGenuineIff(w: World, rows: seq<Row>, req: Request)
    requires Sound(w) && KeysBind(w) && req.keypair.Some? && PutInto(w, rows, req).1.Written?
    ensures Genuine(w, PutInto(w, rows, req).1.row) <==> KeyMatches(w, req)
  {
    hide Hashable, ContentHash, SignableText, DecodeMultibase, EncodeMultibase;
    MultibaseInverse(w.sign(SignableText(req.fields.Body()), req.keypair.value.seed));
  }

  /** A signed write that declares no author is stored, and every peer it is
      offered to refuses it. */
  lemma AuthorlessWriteIsRefusedByPeers(w: World, rows: seq<Row>, peer: seq<Row>, req: Request)
    requires req.keypair.Some? && req.fields.author == None && req.hash == None && req.signature == None
    requires Hashable(req.fields.Body()) && FetchByHash(rows, ContentHash(w.sha, req.fields.Body())) == None
    ensures var outcome := PutInto(w, rows, req).1;
            && outcome.Written? && outcome.row.signature.Some?
            && PutInto(w, peer, Request(outcome.row.fields, None, outcome.row.hash, outcome.row.signature, ACTIVE)).1
               == Rejected(UnknownAuthor)
  {
    hide Hashable, ContentHash, SignableText, DecodeMultibase, EncodeMultibase;
  }
}
