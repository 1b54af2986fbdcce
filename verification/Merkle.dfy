/** The bucketed Merkle fingerprint (backend/app/crdt/merkle.py). SHA-256 is any
    function from texts to 32 bytes; the theorems ask only that it does not
    collide on the finitely many texts the two summaries hash. */
module Merkle {
  import opened Prelude
  import opened Ordering
  import opened Base58
  import Radix

  const BUCKET_COUNT: nat := 256

  type Sha = string -> seq<Byte>

  ghost predicate DigestsAre32(sha: Sha) {
    forall s :: |sha(s)| == 32
  }

  ghost predicate NoCollision(sha: Sha, texts: set<string>) {
    forall x, y :: x in texts && y in texts && sha(x) == sha(y) ==> x == y
  }

  // ---------------------------------------------------------------- Text forms

  /** hexdigest() */
  function Hex(bytes: seq<Byte>): (s: string)
    ensures |s| == 2 * |bytes|
  {
    seq(2 * |bytes|, i requires 0 <= i < 2 * |bytes| =>
      if i % 2 == 0 then Radix.HexDigit(bytes[i / 2] / 16) else Radix.HexDigit(bytes[i / 2] % 16))
  }

  lemma HexDigitInjective(a: nat, b: nat)
    requires a < 16 && b < 16 && Radix.HexDigit(a) == Radix.HexDigit(b)
    ensures a == b
  {}

  lemma HexInjective(a: seq<Byte>, b: seq<Byte>)
    requires Hex(a) == Hex(b)
    ensures a == b
  {
    assert |a| == |b|;
    forall i | 0 <= i < |a|
      ensures a[i] == b[i]
    {
      assert Hex(a)[2 * i] == Hex(b)[2 * i] && Hex(a)[2 * i + 1] == Hex(b)[2 * i + 1];
      HexDigitInjective(a[i] / 16, b[i] / 16);
      HexDigitInjective(a[i] % 16, b[i] % 16);
    }
  }

  /** hexdigest writes each byte as two lower-case digits, the higher one first. */
  lemma HexExact(bytes: seq<Byte>, i: nat)
    requires i < |bytes|
    ensures |Hex(bytes)| == 2 * |bytes|
    ensures var hi, lo := Radix.HexValue(Hex(bytes)[2 * i]), Radix.HexValue(Hex(bytes)[2 * i + 1]);
            hi.Some? && lo.Some? && hi.value * 16 + lo.value == bytes[i]
    ensures forall c :: c in Hex(bytes) ==> '0' <= c <= '9' || 'a' <= c <= 'f'
  {
    assert Hex(bytes)[2 * i] == Radix.HexDigit(bytes[i] / 16) && Hex(bytes)[2 * i + 1] == Radix.HexDigit(bytes[i] % 16);
  }

  /** "\n".join(lines) */
  function JoinLines(lines: seq<string>): string {
    if lines == [] then ""
    else if |lines| == 1 then lines[0]
    else lines[0] + "\n" + JoinLines(lines[1..])
  }

  ghost predicate OneLine(s: string) {
    forall i :: 0 <= i < |s| ==> s[i] != '\n'
  }

  lemma LinePrefix(a: string, b: string, r: string, q: string)
    requires OneLine(a) && OneLine(b)
    requires a + r == b + q && (r == "" || r[0] == '\n') && (q == "" || q[0] == '\n')
    ensures a == b && r == q
  {
    var w := a + r;
    assert forall i :: 0 <= i < |a| ==> w[i] == a[i] && a[i] != '\n';
    assert forall i :: 0 <= i < |b| ==> w[i] == b[i] && b[i] != '\n';
    assert (r != "" ==> w[|a|] == r[0]) && (q != "" ==> w[|b|] == q[0]);
    assert w[..|a|] == a && w[..|b|] == b && w[|a|..] == r && w[|b|..] == q;
  }

  function LineTail(lines: seq<string>): string {
    if lines == [] then "" else "\n" + JoinLines(lines)
  }

  lemma JoinCons(lines: seq<string>)
    requires lines != []
    ensures JoinLines(lines) == lines[0] + LineTail(lines[1..])
  {}

  lemma {:induction false} JoinInjective(a: seq<string>, b: seq<string>)
    requires a != [] && b != [] && (forall x :: x in a ==> OneLine(x)) && forall x :: x in b ==> OneLine(x)
    requires JoinLines(a) == JoinLines(b)
    ensures a == b
  {
    hide OneLine, JoinLines;
    JoinCons(a);
    JoinCons(b);
    LinePrefix(a[0], b[0], LineTail(a[1..]), LineTail(b[1..]));
    assert a == [a[0]] + a[1..] && b == [b[0]] + b[1..];
    if a[1..] != [] && b[1..] != [] {
      TailJoin(a[1..], b[1..]);
      JoinInjective(a[1..], b[1..]);
    }
  }

  lemma TailJoin(a: seq<string>, b: seq<string>)
    requires a != [] && b != [] && LineTail(a) == LineTail(b)
    ensures JoinLines(a) == JoinLines(b)
  {
    hide JoinLines;
    assert LineTail(a)[1..] == JoinLines(a) && LineTail(b)[1..] == JoinLines(b);
  }

  // ---------------------------------------------------------------- Buckets

  /** The first byte of a multibase hash; None is the ValueError on a malformed one. */
  function BucketForHash(h: string): (i: Option<nat>)
    ensures i.Some? ==> i.value < BUCKET_COUNT
  {
    if h == "" || h[0] != 'z' then None
    else
      var d := Decode(h[1..]);
      if d == None || d.value == [] then None else Some(d.value[0])
  }

  /** A hash has a bucket exactly when it is z and the base58 text of some bytes, and
      the bucket is the first of them. */
  lemma BucketExact(h: string, i: nat)
    ensures BucketForHash(h) == Some(i) <==>
      exists bytes: seq<Byte> :: bytes != [] && bytes[0] == i && h == "z" + Encode(bytes)
  {
    hide Encode, Decode;
    if BucketForHash(h) == Some(i) {
      var bytes := Decode(h[1..]).value;
      DecodeNeedsAlphabet(h[1..]);
      EncodeDecode(h[1..]);
      assert h == "z" + h[1..];
    }
    forall bytes: seq<Byte> | bytes != [] && bytes[0] == i && h == "z" + Encode(bytes)
      ensures BucketForHash(h) == Some(i)
    {
      HashBucket(bytes);
    }
  }

  lemma WellFormedIsOneLine(h: string)
    requires BucketForHash(h).Some?
    ensures OneLine(h)
  {
    hide AlphabetMap, Decode;
    DecodeNeedsAlphabet(h[1..]);
    NewlineOutside();
    forall i | 0 <= i < |h|
      ensures h[i] != '\n'
    {
      assert i > 0 ==> h[i] == h[1..][i - 1];
    }
  }

  lemma DecodeNeedsAlphabet(s: string)
    requires Decode(s).Some?
    ensures InAlphabet(s)
  {}

  lemma NewlineOutside()
    ensures AlphabetMap('\n') == None
  {}

  /** A content hash made from a digest falls in the bucket of its first byte. */
  lemma HashBucket(digest: seq<Byte>)
    requires digest != []
    ensures BucketForHash("z" + Encode(digest)) == Some(digest[0])
  {
    hide Encode, Decode;
    DecodeEncode(digest);
    assert ("z" + Encode(digest))[1..] == Encode(digest);
  }

  ghost function BucketSet(hashes: set<string>, i: nat): set<string> {
    set h | h in hashes && BucketForHash(h) == Some(i)
  }

  ghost function WellFormed(hashes: set<string>): set<string> {
    set h | h in hashes && BucketForHash(h).Some?
  }

  datatype Summary = Summary(root: string, buckets: seq<Option<string>>, count: nat)

  function BucketBody(bucket: set<string>): string {
    JoinLines(SortedSet(bucket))
  }

  function BucketDigest(sha: Sha, bucket: set<string>): Option<string> {
    if bucket == {} then None else Some(Hex(sha(BucketBody(bucket))))
  }

  /** The digests one after the other; an empty bucket contributes nothing. */
  function RootBody(buckets: seq<Option<string>>): string {
    if buckets == [] then ""
    else RootBody(buckets[..|buckets| - 1]) + buckets[|buckets| - 1].GetOr("")
  }

  ghost function BucketDigests(sha: Sha, hashes: set<string>): (r: seq<Option<string>>)
    ensures |r| == BUCKET_COUNT
    ensures forall i :: 0 <= i < BUCKET_COUNT ==> r[i] == BucketDigest(sha, BucketSet(hashes, i))
  {
    seq(BUCKET_COUNT, i requires 0 <= i < BUCKET_COUNT => BucketDigest(sha, BucketSet(hashes, i)))
  }

  ghost function Summarise(sha: Sha, hashes: set<string>): (r: Summary)
    ensures |r.buckets| == BUCKET_COUNT
  {
    var buckets := BucketDigests(sha, hashes);
    Summary(Hex(sha(RootBody(buckets))), buckets, |WellFormed(hashes)|)
  }

  /** Every text hashed while summarising. */
  ghost function HashedTexts(sha: Sha, hashes: set<string>): set<string> {
    {RootBody(BucketDigests(sha, hashes))} + set i | 0 <= i < BUCKET_COUNT :: BucketBody(BucketSet(hashes, i))
  }

  // ---------------------------------------------------------------- Theorems

  lemma BucketBodyExact(a: set<string>, b: set<string>)
    requires a != {} && b != {} && BucketBody(a) == BucketBody(b)
    requires (forall h :: h in a ==> OneLine(h)) && forall h :: h in b ==> OneLine(h)
    ensures a == b
  {
    hide OneLine, JoinLines, SortedSet, StringLess;
    var x, y := SortedSet(a), SortedSet(b);
    assert |x| == |a| && |y| == |b|;
    JoinInjective(x, y);
    assert forall h :: h in a <==> h in x;
    assert forall h :: h in b <==> h in y;
  }

  lemma BucketOneLine(hashes: set<string>, i: nat)
    ensures forall h :: h in BucketSet(hashes, i) ==> OneLine(h)
  {
    hide OneLine, BucketForHash;
    forall h | h in BucketSet(hashes, i)
      ensures OneLine(h)
    {
      WellFormedIsOneLine(h);
    }
  }

  /** Two non-empty buckets have the same digest only if they are the same set. */
  lemma DigestExact(sha: Sha, a: set<string>, b: set<string>, i: nat, j: nat)
    requires NoCollision(sha, HashedTexts(sha, a) + HashedTexts(sha, b)) && i < BUCKET_COUNT && j < BUCKET_COUNT
    requires BucketSet(a, i) != {} && BucketSet(b, j) != {}
    requires BucketDigest(sha, BucketSet(a, i)) == BucketDigest(sha, BucketSet(b, j))
    ensures BucketSet(a, i) == BucketSet(b, j)
  {
    hide BucketBody, BucketSet, RootBody, BucketDigests, Hex, OneLine;
    HexInjective(sha(BucketBody(BucketSet(a, i))), sha(BucketBody(BucketSet(b, j))));
    assert BucketBody(BucketSet(a, i)) in HashedTexts(sha, a);
    assert BucketBody(BucketSet(b, j)) in HashedTexts(sha, b);
    BucketOneLine(a, i);
    BucketOneLine(b, j);
    BucketBodyExact(BucketSet(a, i), BucketSet(b, j));
  }

  /** The indices at which two summaries differ, ascending. */
  function DivergesFrom(a: Summary, b: Summary): (r: seq<nat>)
    requires |a.buckets| == |b.buckets| == BUCKET_COUNT
  {
    DifferingBelow(a, b, BUCKET_COUNT)
  }

  function DifferingBelow(a: Summary, b: Summary, n: nat): (r: seq<nat>)
    requires |a.buckets| == |b.buckets| == BUCKET_COUNT && n <= BUCKET_COUNT
    ensures forall i: nat :: i in r <==> i < n && a.buckets[i] != b.buckets[i]
    ensures forall i, j :: 0 <= i < j < |r| ==> r[i] < r[j]
  {
    if n == 0 then []
    else
      var front := DifferingBelow(a, b, n - 1);
      assert forall i :: 0 <= i < |front| ==> front[i] in front;
      if a.buckets[n - 1] != b.buckets[n - 1] then front + [n - 1] else front
  }

  /** The bucket comparison finds exactly the buckets whose sets differ. */
  lemma DivergesExact(sha: Sha, a: set<string>, b: set<string>, i: nat)
    requires NoCollision(sha, HashedTexts(sha, a) + HashedTexts(sha, b))
    ensures i in DivergesFrom(Summarise(sha, a), Summarise(sha, b))
       <==> i < BUCKET_COUNT && BucketSet(a, i) != BucketSet(b, i)
  {
    hide HashedTexts, NoCollision, BucketSet, RootBody, WellFormed, BucketBody;
    if i < BUCKET_COUNT && BucketDigest(sha, BucketSet(a, i)) == BucketDigest(sha, BucketSet(b, i)) {
      if BucketSet(a, i) != {} {
        DigestExact(sha, a, b, i, i);
      }
    }
  }

  // The root body as a list of its non-empty chunks.

  function Chunks(buckets: seq<Option<string>>): (r: seq<string>) {
    if buckets == [] then []
    else
      var last := buckets[|buckets| - 1];
      Chunks(buckets[..|buckets| - 1]) + if last.Some? then [last.value] else []
  }

  function Concat(chunks: seq<string>): string {
    if chunks == [] then "" else Concat(chunks[..|chunks| - 1]) + chunks[|chunks| - 1]
  }

  lemma {:induction false} RootBodyIsConcat(buckets: seq<Option<string>>)
    ensures RootBody(buckets) == Concat(Chunks(buckets))
  {
    if buckets != [] {
      var front, last := buckets[..|buckets| - 1], buckets[|buckets| - 1];
      RootBodyIsConcat(front);
      if last.Some? {
        assert (Chunks(front) + [last.value])[..|Chunks(front)|] == Chunks(front);
      } else {
        assert Chunks(front) + [] == Chunks(front) && RootBody(front) + "" == RootBody(front);
      }
    }
  }

  lemma {:induction false} ChunkMembers(buckets: seq<Option<string>>, d: string)
    ensures d in Chunks(buckets) <==> Some(d) in buckets
  {
    if buckets != [] {
      assert buckets == buckets[..|buckets| - 1] + [buckets[|buckets| - 1]];
      ChunkMembers(buckets[..|buckets| - 1], d);
    }
  }

  /** Chunks of one length can be read back from their concatenation. */
  lemma {:induction false} ConcatInjective(a: seq<string>, b: seq<string>, n: nat)
    requires n > 0 && (forall x :: x in a ==> |x| == n) && forall x :: x in b ==> |x| == n
    requires Concat(a) == Concat(b)
    ensures a == b
    decreases |a|
  {
    ConcatLength(a, n);
    ConcatLength(b, n);
    LengthsAgree(|a|, |b|, n);
    if a != [] {
      var fa, fb := a[..|a| - 1], b[..|b| - 1];
      var la, lb := a[|a| - 1], b[|b| - 1];
      assert a == fa + [la] && b == fb + [lb];
      ConcatLength(fa, n);
      ConcatLength(fb, n);
      assert Concat(a)[..|Concat(fa)|] == Concat(fa) && Concat(b)[..|Concat(fb)|] == Concat(fb);
      assert Concat(a)[|Concat(fa)|..] == la && Concat(b)[|Concat(fb)|..] == lb;
      ConcatInjective(fa, fb, n);
    }
  }

  lemma LengthsAgree(i: nat, j: nat, n: nat)
    requires n > 0 && i * n == j * n
    ensures i == j
  {
    if i < j {
      LongerIsLonger(i, j, n);
    } else if j < i {
      LongerIsLonger(j, i, n);
    }
  }

  lemma LongerIsLonger(i: nat, j: nat, n: nat)
    requires n > 0 && i < j
    ensures i * n < j * n
  {
    Radix.MulMono(i + 1, j, n);
  }

  lemma {:induction false} ConcatLength(a: seq<string>, n: nat)
    requires forall x :: x in a ==> |x| == n
    ensures |Concat(a)| == |a| * n
  {
    if a != [] {
      var front := a[..|a| - 1];
      assert a == front + [a[|a| - 1]];
      ConcatLength(front, n);
      assert |Concat(a)| == |front| * n + n;
      assert |front| * n + n == (|front| + 1) * n;
    }
  }

  lemma DigestLengths(sha: Sha, hashes: set<string>)
    requires DigestsAre32(sha)
    ensures forall d :: d in Chunks(BucketDigests(sha, hashes)) ==> |d| == 64
  {
    hide BucketSet, BucketBody;
    forall d | d in Chunks(BucketDigests(sha, hashes))
      ensures |d| == 64
    {
      ChunkMembers(BucketDigests(sha, hashes), d);
    }
  }

  lemma RootIncludes(sha: Sha, a: set<string>, b: set<string>)
    requires NoCollision(sha, HashedTexts(sha, a) + HashedTexts(sha, b))
    requires Chunks(BucketDigests(sha, a)) == Chunks(BucketDigests(sha, b))
    ensures WellFormed(a) <= WellFormed(b)
  {
    hide HashedTexts, NoCollision, BucketBody, Hex, Chunks, BucketForHash, RootBody;
    forall h | h in WellFormed(a)
      ensures h in WellFormed(b)
    {
      var i := BucketForHash(h).value;
      assert h in BucketSet(a, i);
      var d := BucketDigests(sha, a)[i].value;
      ChunkMembers(BucketDigests(sha, a), d);
      ChunkMembers(BucketDigests(sha, b), d);
      var j :| 0 <= j < BUCKET_COUNT && BucketDigests(sha, b)[j] == Some(d);
      DigestExact(sha, a, b, i, j);
      assert h in BucketSet(b, j);
    }
  }

  lemma BucketsOfWellFormed(a: set<string>, b: set<string>, i: nat)
    requires WellFormed(a) == WellFormed(b)
    ensures BucketSet(a, i) == BucketSet(b, i)
  {
    hide BucketForHash;
    forall h
      ensures h in BucketSet(a, i) <==> h in BucketSet(b, i)
    {
      assert h in WellFormed(a) <==> h in WellFormed(b);
    }
  }

  /** Equal roots mean equal sets of well-formed hashes, and conversely. The bucket
      a digest came from need not be known: a hash determines its own bucket. */
  lemma RootExact(sha: Sha, a: set<string>, b: set<string>)
    requires DigestsAre32(sha) && NoCollision(sha, HashedTexts(sha, a) + HashedTexts(sha, b))
    ensures Summarise(sha, a).root == Summarise(sha, b).root <==> WellFormed(a) == WellFormed(b)
  {
    hide NoCollision, BucketBody, Hex, BucketForHash, RootBody, BucketSet, Chunks, Concat, WellFormed;
    var x, y := BucketDigests(sha, a), BucketDigests(sha, b);
    if Summarise(sha, a).root == Summarise(sha, b).root {
      HexInjective(sha(RootBody(x)), sha(RootBody(y)));
      RootTexts(sha, a, b);
      RootBodyIsConcat(x);
      RootBodyIsConcat(y);
      DigestLengths(sha, a);
      DigestLengths(sha, b);
      ConcatInjective(Chunks(x), Chunks(y), 64);
      RootIncludes(sha, a, b);
      SwapCollision(sha, a, b);
      RootIncludes(sha, b, a);
    } else if WellFormed(a) == WellFormed(b) {
      SameDigests(sha, a, b);
    }
  }

  lemma SameDigests(sha: Sha, a: set<string>, b: set<string>)
    requires WellFormed(a) == WellFormed(b)
    ensures BucketDigests(sha, a) == BucketDigests(sha, b)
  {
    hide BucketSet, WellFormed, BucketDigest;
    forall i | 0 <= i < BUCKET_COUNT
      ensures BucketDigests(sha, a)[i] == BucketDigests(sha, b)[i]
    {
      BucketsOfWellFormed(a, b, i);
    }
  }

  lemma RootTexts(sha: Sha, a: set<string>, b: set<string>)
    requires NoCollision(sha, HashedTexts(sha, a) + HashedTexts(sha, b))
    requires sha(RootBody(BucketDigests(sha, a))) == sha(RootBody(BucketDigests(sha, b)))
    ensures RootBody(BucketDigests(sha, a)) == RootBody(BucketDigests(sha, b))
  {
    hide RootBody, BucketDigests, BucketBody, BucketSet;
    assert RootBody(BucketDigests(sha, a)) in HashedTexts(sha, a);
    assert RootBody(BucketDigests(sha, b)) in HashedTexts(sha, b);
  }

  lemma SwapCollision(sha: Sha, a: set<string>, b: set<string>)
    requires NoCollision(sha, HashedTexts(sha, a) + HashedTexts(sha, b))
    ensures NoCollision(sha, HashedTexts(sha, b) + HashedTexts(sha, a))
  {
    hide HashedTexts;
    assert HashedTexts(sha, b) + HashedTexts(sha, a) == HashedTexts(sha, a) + HashedTexts(sha, b);
  }

  /** The summary as merkle.py documents it: a bucket's digest is that of its hashes in
      ascending order, one a line; the root's that of the digests, one after the
      other; each well-formed hash is counted once. */
  lemma SummaryExact(sha: Sha, hashes: set<string>, i: nat, lines: seq<string>)
    requires i < BUCKET_COUNT && Ascending(lines)
    requires forall h :: h in lines <==> h in hashes && BucketForHash(h) == Some(i)
    ensures var s := Summarise(sha, hashes);
            && s.buckets[i] == (if lines == [] then None else Some(Hex(sha(JoinLines(lines)))))
            && s.root == Hex(sha(Concat(Chunks(s.buckets))))
            && s.count == |set h | h in hashes && BucketForHash(h).Some?|
  {
    hide Hex, JoinLines, BucketForHash, StringLess, Concat, Chunks, SortedSet, RootBody;
    var bucket := BucketSet(hashes, i);
    RootBodyIsConcat(BucketDigests(sha, hashes));
    if lines == [] {
      assert forall h :: h in bucket ==> h in lines;
      assert bucket == {};
    } else {
      assert lines[0] in lines && lines[0] in bucket;
    }
    forall h
      ensures h in Elems(SortedSet(bucket)) <==> h in Elems(lines)
    {}
    assert Elems(SortedSet(bucket)) == Elems(lines);
    AscendingUnique(SortedSet(bucket), lines);
  }

  // ---------------------------------------------------------------- The loops

  lemma OneMoreHash(seen: set<string>, h: string)
    requires BucketForHash(h).Some?
    ensures |WellFormed(seen + {h})|
         == |WellFormed(seen)| + if h in BucketSet(seen, BucketForHash(h).value) then 0 else 1
    ensures forall i: nat :: BucketSet(seen + {h}, i)
              == if BucketForHash(h) == Some(i) then BucketSet(seen, i) + {h} else BucketSet(seen, i)
  {
    hide BucketForHash;
    assert WellFormed(seen + {h}) == WellFormed(seen) + {h};
    assert h in WellFormed(seen) <==> h in BucketSet(seen, BucketForHash(h).value);
    assert h in WellFormed(seen) ==> WellFormed(seen) + {h} == WellFormed(seen);
  }

  lemma MalformedHash(seen: set<string>, h: string)
    requires BucketForHash(h) == None
    ensures WellFormed(seen + {h}) == WellFormed(seen)
    ensures forall i: nat :: BucketSet(seen + {h}, i) == BucketSet(seen, i)
  {
    hide BucketForHash;
  }

  /** Distributes the hashes over an array of sets, counting each once. */
  method FillBuckets(hashes: seq<string>, buckets: array<set<string>>) returns (total: nat)
    requires buckets.Length == BUCKET_COUNT
    requires forall i :: 0 <= i < BUCKET_COUNT ==> buckets[i] == {}
    modifies buckets
    ensures total == |WellFormed(Elems(hashes))|
    ensures forall i :: 0 <= i < BUCKET_COUNT ==> buckets[i] == BucketSet(Elems(hashes), i)
  {
    hide BucketForHash, WellFormed, BucketSet;
    NothingSeen();
    assert Elems(hashes[..0]) == {};
    total := 0;
    for n := 0 to |hashes|
      invariant total == |WellFormed(Elems(hashes[..n]))|
      invariant forall i :: 0 <= i < BUCKET_COUNT ==> buckets[i] == BucketSet(Elems(hashes[..n]), i)
    {
      var h := hashes[n];
      assert hashes[..n + 1] == hashes[..n] + [h];
      assert Elems(hashes[..n + 1]) == Elems(hashes[..n]) + {h};
      var idx := BucketForHash(h);
      if idx == None {
        MalformedHash(Elems(hashes[..n]), h);
        continue;
      }
      OneMoreHash(Elems(hashes[..n]), h);
      BucketRange(h);
      if h in buckets[idx.value] {
        assert buckets[idx.value] + {h} == buckets[idx.value];
        continue;
      }
      buckets[idx.value] := buckets[idx.value] + {h};
      total := total + 1;
    }
    assert hashes[..|hashes|] == hashes;
  }

  lemma NothingSeen()
    ensures WellFormed({}) == {} && forall i: nat :: BucketSet({}, i) == {}
  {}

  lemma BucketRange(h: string)
    ensures BucketForHash(h).Some? ==> BucketForHash(h).value < BUCKET_COUNT
  {}

  /** The order and the repetitions of the input do not reach the summary. */
  method SummariseHashes(sha: Sha, hashes: seq<string>) returns (summary: Summary)
    ensures summary == Summarise(sha, Elems(hashes))
  {
    hide BucketForHash, BucketSet, WellFormed, JoinLines, SortedSet;
    var buckets := new set<string>[BUCKET_COUNT](_ => {});
    var total := FillBuckets(hashes, buckets);
    var digests: seq<Option<string>> := [];
    for i := 0 to BUCKET_COUNT
      invariant |digests| == i
      invariant forall j :: 0 <= j < i ==> digests[j] == BucketDigest(sha, BucketSet(Elems(hashes), j))
    {
      if buckets[i] == {} {
        digests := digests + [None];
      } else {
        digests := digests + [Some(Hex(sha(JoinLines(SortedSet(buckets[i])))))];
      }
    }
    assert digests == BucketDigests(sha, Elems(hashes));
    var rootBody := "";
    for i := 0 to BUCKET_COUNT
      invariant rootBody == RootBody(digests[..i])
    {
      assert digests[..i + 1][..i] == digests[..i];
      rootBody := rootBody + digests[i].GetOr("");
    }
    assert digests[..BUCKET_COUNT] == digests;
    summary := Summary(Hex(sha(rootBody)), digests, total);
  }
}
