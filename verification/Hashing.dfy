/** Content addressing (backend/app/crdt/hashing.py): which fields of a record
    are hashed, and what equality of two addresses means. */
module Hashing {
  import opened Prelude
  import opened Ordering
  import opened Base58
  import opened CanonicalJson
  import M = Merkle
  import J = JsonReader

  datatype Body = Body(
    workflowId: string,
    memoryType: string,
    content: string,
    confidence: Float,
    metadata: seq<Entry>,
    parents: seq<string>,
    author: Option<string>,
    agent: Option<string>)

  const FIELDS: seq<string> :=
    ["author_did", "confidence", "content", "memory_type", "metadata", "parent_hashes", "source_agent_id",
     "workflow_id"]

  // ---------------------------------------------------------------- Cloning

  function KeyText(k: Key): string {
    match k
    case StrKey(name) => name
    case OtherKey(_, text) => text
  }

  /** d[k] = v on a dict kept in insertion order. */
  function Assign(es: seq<Entry>, k: string, v: PyValue): (r: seq<Entry>)
    ensures forall e :: e in r ==> e in es || e == Entry(StrKey(k), v)
  {
    if es == [] then [Entry(StrKey(k), v)]
    else if es[0].key == StrKey(k) then [Entry(StrKey(k), v)] + es[1..]
    else [es[0]] + Assign(es[1..], k, v)
  }

  /** Tuples become lists, keys and foreign values their text. */
  function Clone(v: PyValue): PyValue
    decreases v, 1
  {
    match v
    case PyDict(es) => PyDict(CloneEntries(es))
    case PyList(items) => PyList(CloneItems(items))
    case PyTuple(items) => PyList(CloneItems(items))
    case PyOther(text) => PyStr(text)
    case _ => v
  }

  function CloneItems(items: seq<PyValue>): (r: seq<PyValue>)
    ensures |r| == |items|
    decreases items, 0
  {
    if items == [] then [] else [Clone(items[0])] + CloneItems(items[1..])
  }

  /** A later key with the same text overwrites an earlier one. */
  function CloneEntries(es: seq<Entry>): seq<Entry>
    decreases es, 0
  {
    if es == [] then []
    else
      Assign(CloneEntries(es[..|es| - 1]), KeyText(es[|es| - 1].key), CloneOf(es[|es| - 1]))
  }

  function CloneOf(e: Entry): PyValue
    decreases e, 0
  {
    Clone(e.val)
  }

  /** What Python guarantees of any value's floats. */
  ghost predicate ReprsFine(v: PyValue) {
    match v
    case PyFloat(Fractional(t)) => FractionText(t)
    case PyList(items) => forall x :: x in items ==> ReprsFine(x)
    case PyTuple(items) => forall x :: x in items ==> ReprsFine(x)
    case PyDict(es) => forall e :: e in es ==> ReprsFine(e.val)
    case _ => true
  }

  /** A NaN or an infinity at any depth that a later key does not overwrite. */
  predicate Finite(v: PyValue) {
    Encodable(Clone(v))
  }

  lemma {:induction false} AssignKeys(es: seq<Entry>, k: string, v: PyValue)
    requires NoDup(KeyNames(es)) && forall e :: e in es ==> e.key.StrKey?
    ensures NoDup(KeyNames(Assign(es, k, v)))
  {
    var r := Assign(es, k, v);
    if es != [] {
      var ks := KeyNames(es);
      assert KeyNames(es[1..]) == ks[1..];
      if es[0].key == StrKey(k) {
        assert KeyNames(r) == ks;
      } else {
        AssignKeys(es[1..], k, v);
        var t := Assign(es[1..], k, v);
        assert KeyNames(r) == [ks[0]] + KeyNames(t);
        forall j | 0 <= j < |t|
          ensures KeyNames(t)[j] != ks[0]
        {
          assert t[j] in t;
          if t[j] in es[1..] {
            var i :| 0 <= i < |es[1..]| && es[1..][i] == t[j];
            assert ks[1 + i] == t[j].key && ks[0] != ks[1 + i];
          }
        }
      }
    }
  }

  /** A clone is always a value the serialiser is exact on. */
  lemma {:induction false} CloneWellFormed(v: PyValue)
    requires ReprsFine(v)
    ensures WellFormed(Clone(v))
    decreases v, 1
  {
    if v.IsSequence() {
      CloneItemsWellFormed(v, v.items);
    } else if v.PyDict? {
      CloneEntriesWellFormed(v, v.entries);
    }
  }

  lemma {:induction false} CloneItemsWellFormed(owner: PyValue, items: seq<PyValue>)
    requires owner.IsSequence() && (forall x :: x in items ==> x in owner.items) && ReprsFine(owner)
    ensures forall x :: x in CloneItems(items) ==> WellFormed(x)
    decreases owner, 0, |items|
  {
    if items != [] {
      assert items[0] in owner.items;
      CloneWellFormed(items[0]);
      CloneItemsWellFormed(owner, items[1..]);
    }
  }

  lemma {:induction false} CloneEntriesWellFormed(owner: PyValue, es: seq<Entry>)
    requires owner.PyDict? && (forall e :: e in es ==> e in owner.entries) && ReprsFine(owner)
    ensures NoDup(KeyNames(CloneEntries(es)))
    ensures forall e :: e in CloneEntries(es) ==> e.key.StrKey? && WellFormed(e.val)
    decreases owner, 0, |es|
  {
    if es != [] {
      var front, last := es[..|es| - 1], es[|es| - 1];
      assert last in es;
      CloneEntriesWellFormed(owner, front);
      CloneWellFormed(last.val);
      AssignKeys(CloneEntries(front), KeyText(last.key), Clone(last.val));
    }
  }

  // ---------------------------------------------------------------- The hashed document

  function TextOrNone(s: Option<string>): PyValue {
    match s
    case None => PyNone
    case Some(t) => PyStr(t)
  }

  const WHOLE := (s: string) => s
  const STR := (s: string) => PyStr(s)

  function StringList(s: seq<string>): PyValue {
    PyList(Ordering.Map(s, STR))
  }

  /** The values of the document, in the order of FIELDS. */
  function Values(b: Body): (r: seq<PyValue>)
    ensures |r| == 8
  {
    [TextOrNone(b.author), PyFloat(b.confidence), PyStr(b.content), PyStr(b.memoryType),
     Clone(PyDict(b.metadata)), StringList(SortBy(b.parents, WHOLE)), TextOrNone(b.agent), PyStr(b.workflowId)]
  }

  function DictOf(names: seq<string>, values: seq<PyValue>): (d: PyValue)
    requires |names| == |values|
    ensures d.PyDict? && |d.entries| == |names|
    ensures forall i :: 0 <= i < |names| ==> d.entries[i] == Entry(StrKey(names[i]), values[i])
  {
    PyDict(seq(|names|, i requires 0 <= i < |names| => Entry(StrKey(names[i]), values[i])))
  }

  function AsJsonable(b: Body): PyValue {
    DictOf(FIELDS, Values(b))
  }

  predicate Hashable(b: Body) {
    !b.confidence.NonFinite? && Finite(PyDict(b.metadata))
  }

  ghost predicate FloatsFine(b: Body) {
    ReprsFine(PyFloat(b.confidence)) && ReprsFine(PyDict(b.metadata))
  }

  lemma FieldsDiffer()
    ensures |FIELDS| == 8 && NoDup(FIELDS)
  {
    forall i, j | 0 <= i < j < 8
      ensures FIELDS[i] != FIELDS[j]
    {
      assert |FIELDS[0]| == 10 && |FIELDS[1]| == 10 && |FIELDS[2]| == 7 && |FIELDS[3]| == 11;
      assert |FIELDS[4]| == 8 && |FIELDS[5]| == 13 && |FIELDS[6]| == 15 && |FIELDS[7]| == 11;
      assert FIELDS[0][0] == 'a' && FIELDS[1][0] == 'c' && FIELDS[3][0] == 'm' && FIELDS[7][0] == 'w';
    }
  }

  lemma ParentsEncodable(parents: seq<string>)
    ensures Encodable(StringList(parents)) && WellFormed(StringList(parents))
  {}

  /** The serialiser raises on the document exactly when a number in it is not finite. */
  lemma JsonableFine(b: Body)
    ensures Encodable(AsJsonable(b)) <==> Hashable(b)
    ensures FloatsFine(b) ==> WellFormed(AsJsonable(b))
  {
    hide SortBy, Clone;
    FieldsDiffer();
    ParentsEncodable(SortBy(b.parents, WHOLE));
    DictEncodable(FIELDS, Values(b));
    assert AllEncodable(Values(b)) ==> Encodable(Values(b)[1]) && Encodable(Values(b)[4]);
    if FloatsFine(b) {
      CloneWellFormed(PyDict(b.metadata));
      DictWellFormed(FIELDS, Values(b));
    }
  }

  lemma DictEncodable(names: seq<string>, values: seq<PyValue>)
    requires |names| == |values|
    ensures Encodable(DictOf(names, values)) <==> AllEncodable(values)
  {
    var es := DictOf(names, values).entries;
    assert forall i :: 0 <= i < |es| ==> es[i] in es && es[i].val == values[i];
  }

  lemma DictWellFormed(names: seq<string>, values: seq<PyValue>)
    requires |names| == |values| && NoDup(names) && forall v :: v in values ==> WellFormed(v)
    ensures WellFormed(DictOf(names, values))
  {
    var es := DictOf(names, values).entries;
    assert forall i :: 0 <= i < |es| ==> KeyNames(es)[i] == StrKey(names[i]);
  }

  /** SHA-256 of the canonical text, in multibase base58btc. */
  function ContentHash(sha: M.Sha, b: Body): (h: string)
    requires Hashable(b)
  {
    "z" + Encode(sha(SignableText(b)))
  }

  function SignableText(b: Body): string
    requires Hashable(b)
  {
    JsonableFine(b);
    Text(AsJsonable(b))
  }

  // ---------------------------------------------------------------- Theorem

  /** Equal fields: parents in any order, numbers by value, metadata as documents. */
  ghost predicate SameBody(a: Body, b: Body)
    requires Hashable(a) && Hashable(b)
  {
    a.workflowId == b.workflowId && a.memoryType == b.memoryType && a.content == b.content
    && a.confidence == b.confidence && a.author == b.author && a.agent == b.agent
    && multiset(a.parents) == multiset(b.parents)
    && Same(Clone(PyDict(a.metadata)), Clone(PyDict(b.metadata)))
  }

  ghost predicate AllEncodable(xs: seq<PyValue>) {
    forall i :: 0 <= i < |xs| ==> Encodable(xs[i])
  }

  ghost predicate Agree(xs: seq<PyValue>, ys: seq<PyValue>)
    requires |xs| == |ys| && AllEncodable(xs) && AllEncodable(ys)
  {
    forall i :: 0 <= i < |xs| ==> Same(xs[i], ys[i])
  }

  lemma SameCovers(d: PyValue, f: PyValue, e: Entry)
    requires d.PyDict? && f.PyDict? && Encodable(d) && Encodable(f) && Same(d, f) && e in d.entries
    ensures exists g :: g in f.entries && g.key == e.key && Encodable(g.val) && Encodable(e.val) && Same(e.val, g.val)
  {}

  lemma SameField(names: seq<string>, xs: seq<PyValue>, ys: seq<PyValue>, i: nat)
    requires NoDup(names) && |names| == |xs| == |ys| && i < |names|
    requires Encodable(DictOf(names, xs)) && Encodable(DictOf(names, ys)) && Encodable(xs[i]) && Encodable(ys[i])
    requires Same(DictOf(names, xs), DictOf(names, ys))
    ensures Same(xs[i], ys[i])
  {
    hide Same, Encodable;
    var d, f := DictOf(names, xs), DictOf(names, ys);
    var e := d.entries[i];
    SameCovers(d, f, e);
    var g :| g in f.entries && g.key == e.key && Encodable(g.val) && Encodable(e.val) && Same(e.val, g.val);
    var j :| 0 <= j < |f.entries| && f.entries[j] == g;
    assert names[i] == names[j];
  }

  lemma SameDict(names: seq<string>, xs: seq<PyValue>, ys: seq<PyValue>)
    requires |names| == |xs| == |ys|
    requires Encodable(DictOf(names, xs)) && Encodable(DictOf(names, ys))
    requires forall i :: 0 <= i < |names| ==> Encodable(xs[i]) && Encodable(ys[i]) && Same(xs[i], ys[i])
    ensures Same(DictOf(names, xs), DictOf(names, ys))
  {
    var d, f := DictOf(names, xs), DictOf(names, ys);
    forall e | e in d.entries
      ensures exists g :: g in f.entries && g.key == e.key && Same(e.val, g.val)
    {
      hide Same, Encodable;
      var i :| 0 <= i < |d.entries| && d.entries[i] == e;
      var g := f.entries[i];
      assert g in f.entries && g.key == e.key && Same(e.val, g.val);
    }
  }

  /** Two objects with the same, pairwise different, keys are the same document
      exactly when they agree field by field. */
  lemma SameFields(names: seq<string>, xs: seq<PyValue>, ys: seq<PyValue>)
    requires NoDup(names) && |names| == |xs| == |ys|
    requires Encodable(DictOf(names, xs)) && Encodable(DictOf(names, ys))
    requires AllEncodable(xs) && AllEncodable(ys)
    ensures Same(DictOf(names, xs), DictOf(names, ys)) <==> Agree(xs, ys)
  {
    hide Same, Encodable, DictOf;
    if Same(DictOf(names, xs), DictOf(names, ys)) {
      forall i | 0 <= i < |names|
        ensures Same(xs[i], ys[i])
      {
        SameField(names, xs, ys, i);
      }
    }
    if Agree(xs, ys) {
      SameDict(names, xs, ys);
    }
  }

  predicate AtMost(x: string, y: string) {
    x == y || StringLess(x, y)
  }

  lemma AtMostTransitive(x: string, y: string, z: string)
    requires AtMost(x, y) && AtMost(y, z)
    ensures AtMost(x, z)
  {
    if StringLess(x, y) && StringLess(y, z) {
      LessTransitive(x, y, z);
    }
  }

  predicate NonDescending(s: seq<string>) {
    forall i, j :: 0 <= i < j < |s| ==> AtMost(s[i], s[j])
  }

  lemma ConsNonDescending(x: string, s: seq<string>)
    requires NonDescending(s) && forall y :: y in s ==> AtMost(x, y)
    ensures NonDescending([x] + s)
  {}

  lemma UnconsNonDescending(s: seq<string>)
    requires NonDescending(s) && s != []
    ensures NonDescending(s[1..]) && forall y :: y in s[1..] ==> AtMost(s[0], y)
  {}

  lemma {:induction false} InsertSorted(x: string, s: seq<string>)
    requires NonDescending(s)
    ensures NonDescending(Insert(x, s, WHOLE))
    ensures multiset(Insert(x, s, WHOLE)) == multiset(s) + multiset{x}
  {
    hide NonDescending, StringLess;
    if s == [] {
      SingletonNonDescending(x);
    } else {
      UnconsNonDescending(s);
      LessConnected(s[0], x);
      assert s == [s[0]] + s[1..];
      if StringLess(s[0], x) {
        InsertSorted(x, s[1..]);
        ConsNonDescending(s[0], Insert(x, s[1..], WHOLE));
      } else {
        forall y | y in s
          ensures AtMost(x, y)
        {
          if y != s[0] {
            AtMostTransitive(x, s[0], y);
          }
        }
        ConsNonDescending(x, s);
      }
    }
  }

  lemma SingletonNonDescending(x: string)
    ensures NonDescending([x])
  {}

  lemma {:induction false} SortIsSorted(s: seq<string>)
    ensures NonDescending(SortBy(s, WHOLE)) && multiset(SortBy(s, WHOLE)) == multiset(s)
  {
    if s != [] {
      SortIsSorted(s[1..]);
      InsertSorted(s[0], SortBy(s[1..], WHOLE));
      assert s == [s[0]] + s[1..];
    }
  }

  lemma TailMultiset(s: seq<string>)
    requires s != []
    ensures multiset(s[1..]) == multiset(s) - multiset{s[0]} && |s| == |multiset(s)|
  {
    assert s == [s[0]] + s[1..];
  }

  lemma SameElements(a: seq<string>, b: seq<string>, x: string)
    requires multiset(a) == multiset(b) && x in a
    ensures x in b
  {
    assert x in multiset(a);
  }

  lemma {:induction false} SortedUnique(a: seq<string>, b: seq<string>)
    requires NonDescending(a) && NonDescending(b) && multiset(a) == multiset(b)
    ensures a == b
  {
    hide NonDescending, AtMost;
    assert |a| == |multiset(a)| == |multiset(b)| == |b|;
    if a != [] {
      SameElements(a, b, a[0]);
      SameElements(b, a, b[0]);
      HeadsAgree(a, b);
      TailMultiset(a);
      TailMultiset(b);
      UnconsNonDescending(a);
      UnconsNonDescending(b);
      SortedUnique(a[1..], b[1..]);
      assert a == [a[0]] + a[1..] && b == [b[0]] + b[1..];
    }
  }

  lemma HeadsAgree(a: seq<string>, b: seq<string>)
    requires NonDescending(a) && NonDescending(b) && a != [] && b != [] && a[0] in b && b[0] in a
    ensures a[0] == b[0]
  {
    hide StringLess;
    Antisymmetric(a[0], b[0]);
  }

  lemma Antisymmetric(x: string, y: string)
    requires AtMost(x, y) && AtMost(y, x)
    ensures x == y
  {
    if x != y {
      LessTransitive(x, y, x);
      LessIrreflexive(x);
    }
  }

  lemma SameStringList(x: seq<string>, y: seq<string>)
    requires Encodable(StringList(x)) && Encodable(StringList(y))
    ensures Same(StringList(x), StringList(y)) <==> x == y
  {
    var a, b := StringList(x), StringList(y);
    assert Same(a, b) <==> |x| == |y| && forall i :: 0 <= i < |x| ==> Same(a.items[i], b.items[i]);
    assert |x| == |y| ==> forall i :: 0 <= i < |x| ==> (Same(a.items[i], b.items[i]) <==> x[i] == y[i]);
  }

  lemma ParentsSame(a: seq<string>, b: seq<string>)
    requires Encodable(StringList(SortBy(a, WHOLE))) && Encodable(StringList(SortBy(b, WHOLE)))
    ensures Same(StringList(SortBy(a, WHOLE)), StringList(SortBy(b, WHOLE))) <==> multiset(a) == multiset(b)
  {
    hide NonDescending, Same, Encodable, StringList;
    SortIsSorted(a);
    SortIsSorted(b);
    SameStringList(SortBy(a, WHOLE), SortBy(b, WHOLE));
    if multiset(a) == multiset(b) {
      SortedUnique(SortBy(a, WHOLE), SortBy(b, WHOLE));
    }
  }

  lemma SameScalars(x: string, y: string, p: Option<string>, q: Option<string>, f: Float, g: Float)
    ensures Same(PyStr(x), PyStr(y)) <==> x == y
    ensures Same(TextOrNone(p), TextOrNone(q)) <==> p == q
    ensures !f.NonFinite? && !g.NonFinite? ==> (Same(PyFloat(f), PyFloat(g)) <==> f == g)
  {}

  lemma AgreeEight(x: seq<PyValue>, y: seq<PyValue>)
    requires |x| == |y| == 8 && AllEncodable(x) && AllEncodable(y)
    ensures Agree(x, y)
       <==> (Same(x[0], y[0]) && Same(x[1], y[1]) && Same(x[2], y[2]) && Same(x[3], y[3])
             && Same(x[4], y[4]) && Same(x[5], y[5]) && Same(x[6], y[6]) && Same(x[7], y[7]))
  {
    hide Same, Encodable;
  }

  lemma SameValues(a: Body, b: Body)
    requires Hashable(a) && Hashable(b) && AllEncodable(Values(a)) && AllEncodable(Values(b))
    ensures SameBody(a, b) <==> Agree(Values(a), Values(b))
  {
    hide SortBy, Clone, Same, Encodable, TextOrNone, StringList, Agree;
    ParentsEncodable(SortBy(a.parents, WHOLE));
    ParentsEncodable(SortBy(b.parents, WHOLE));
    ParentsSame(a.parents, b.parents);
    AgreeEight(Values(a), Values(b));
    SameScalars(a.content, b.content, a.author, b.author, a.confidence, b.confidence);
    SameScalars(a.memoryType, b.memoryType, a.agent, b.agent, a.confidence, b.confidence);
    SameScalars(a.workflowId, b.workflowId, a.agent, b.agent, a.confidence, b.confidence);
  }

  lemma ValuesEncodable(b: Body)
    requires Hashable(b)
    ensures AllEncodable(Values(b))
  {
    hide SortBy, Clone;
    ParentsEncodable(SortBy(b.parents, WHOLE));
  }

  /** The signed text identifies the record body. */
  lemma SignableExact(a: Body, b: Body)
    requires Hashable(a) && Hashable(b) && FloatsFine(a) && FloatsFine(b)
    ensures SignableText(a) == SignableText(b) <==> SameBody(a, b)
  {
    hide Values, Text, Clone, SameBody, Hashable;
    JsonableFine(a);
    JsonableFine(b);
    CanonicalExact(AsJsonable(a), AsJsonable(b));
    FieldsDiffer();
    ValuesEncodable(a);
    ValuesEncodable(b);
    SameValues(a, b);
    SameFields(FIELDS, Values(a), Values(b));
  }

  /** Two records have one address exactly when they have the same body. */
  lemma ContentHashExact(sha: M.Sha, a: Body, b: Body)
    requires Hashable(a) && Hashable(b) && FloatsFine(a) && FloatsFine(b)
    requires M.NoCollision(sha, {SignableText(a), SignableText(b)})
    ensures ContentHash(sha, a) == ContentHash(sha, b) <==> SameBody(a, b)
  {
    hide SignableText, SameBody, Hashable, FloatsFine, Encode, Decode;
    SignableExact(a, b);
    var x, y := sha(SignableText(a)), sha(SignableText(b));
    if ContentHash(sha, a) == ContentHash(sha, b) {
      assert ("z" + Encode(x))[1..] == Encode(x) && ("z" + Encode(y))[1..] == Encode(y);
      DecodeEncode(x);
      DecodeEncode(y);
    }
  }

  /** The two stages as the source composes them; None is the raised error. */
  method ComputeContentHash(sha: M.Sha, b: Body) returns (r: Option<string>)
    ensures r == if Hashable(b) then Some(ContentHash(sha, b)) else None
  {
    JsonableFine(b);
    var text := Canonicalize(AsJsonable(b));
    if text == None {
      return None;
    }
    var encoded := B58Encode(sha(text.value));
    r := Some("z" + encoded);
  }

  // ---------------------------------------------------------------- What is hashed

  /** The document that is hashed, name by name; the parents in ascending order. */
  lemma DocumentExact(b: Body)
    ensures var es := AsJsonable(b).entries;
            && |es| == 8
            && es[0] == Entry(StrKey("author_did"), if b.author.None? then PyNone else PyStr(b.author.value))
            && es[1] == Entry(StrKey("confidence"), PyFloat(b.confidence))
            && es[2] == Entry(StrKey("content"), PyStr(b.content))
            && es[3] == Entry(StrKey("memory_type"), PyStr(b.memoryType))
            && es[4] == Entry(StrKey("metadata"), Clone(PyDict(b.metadata)))
            && es[5] == Entry(StrKey("parent_hashes"), StringList(SortBy(b.parents, WHOLE)))
            && es[6] == Entry(StrKey("source_agent_id"), if b.agent.None? then PyNone else PyStr(b.agent.value))
            && es[7] == Entry(StrKey("workflow_id"), PyStr(b.workflowId))
    ensures NonDescending(SortBy(b.parents, WHOLE)) && multiset(SortBy(b.parents, WHOLE)) == multiset(b.parents)
  {
    SortIsSorted(b.parents);
    hide SortBy, Clone, NonDescending;
  }

  lemma {:induction false} AssignNew(es: seq<Entry>, k: string, v: PyValue)
    requires forall i :: 0 <= i < |es| ==> es[i].key != StrKey(k)
    ensures Assign(es, k, v) == es + [Entry(StrKey(k), v)]
  {
    if es != [] {
      AssignNew(es[1..], k, v);
      assert es == [es[0]] + es[1..];
    }
  }

  /** A tuple is cloned as a list, a foreign value and a foreign key as their text. */
  lemma CloneForeign(items: seq<PyValue>, kind: string, text: string, v: PyValue)
    ensures Clone(PyTuple(items)) == Clone(PyList(items)) && Clone(PyOther(text)) == PyStr(text)
    ensures Clone(PyDict([Entry(OtherKey(kind, text), v)])) == PyDict([Entry(StrKey(text), Clone(v))])
  {
    var es := [Entry(OtherKey(kind, text), v)];
    assert es[..0] == [] && CloneEntries([]) == [];
    CloneOfIs(es[0]);
    assert CloneEntries(es) == Assign([], text, Clone(v));
  }

  /** With distinct string keys cloning goes entry by entry. */
  lemma {:induction false} CloneEntriesAt(es: seq<Entry>)
    requires NoDup(KeyNames(es)) && forall e :: e in es ==> e.key.StrKey?
    ensures |CloneEntries(es)| == |es|
    ensures forall i :: 0 <= i < |es| ==> CloneEntries(es)[i] == Entry(es[i].key, Clone(es[i].val))
  {
    hide Clone;
    if es != [] {
      var front, last := es[..|es| - 1], es[|es| - 1];
      assert last in es && es == front + [last];
      assert KeyNames(front) == KeyNames(es)[..|front|];
      CloneEntriesAt(front);
      forall i | 0 <= i < |front|
        ensures CloneEntries(front)[i].key != last.key
      {
        assert KeyNames(es)[i] != KeyNames(es)[|front|];
      }
      AssignNew(CloneEntries(front), KeyText(last.key), Clone(last.val));
      CloneOfIs(last);
    }
  }

  lemma CloneOfIs(e: Entry)
    ensures CloneOf(e) == Clone(e.val)
  {}

  lemma {:induction false} CloneItemsAt(items: seq<PyValue>, i: nat)
    requires i < |items|
    ensures CloneItems(items)[i] == Clone(items[i])
  {
    if i > 0 {
      CloneItemsAt(items[1..], i - 1);
    }
  }

  /** Cloning a value the serialiser takes keeps its document. */
  lemma {:induction false} CloneKeepsDocument(v: PyValue)
    requires WellFormed(v) && Encodable(v)
    ensures Encodable(Clone(v)) && Same(v, Clone(v))
    decreases v
  {
    if v.IsSequence() {
      CloneOfList(v);
      var c := Clone(v);
      forall i | 0 <= i < |v.items|
        ensures Encodable(c.items[i]) && Same(v.items[i], c.items[i])
      {
        CloneItemsAt(v.items, i);
        assert v.items[i] in v.items;
        CloneKeepsDocument(v.items[i]);
      }
    } else if v.PyDict? {
      CloneEntriesAt(v.entries);
      var c := CloneEntries(v.entries);
      forall i | 0 <= i < |v.entries|
        ensures c[i].key == v.entries[i].key && Encodable(c[i].val) && Same(v.entries[i].val, c[i].val)
      {
        assert v.entries[i] in v.entries;
        CloneKeepsDocument(v.entries[i].val);
      }
      EntriesSame(v, c);
    }
  }

  lemma CloneOfList(v: PyValue)
    requires v.IsSequence()
    ensures Clone(v) == PyList(CloneItems(v.items))
  {}

  lemma EntriesSame(v: PyValue, c: seq<Entry>)
    requires v.PyDict? && Encodable(v) && |c| == |v.entries|
    requires forall i :: 0 <= i < |c| ==>
      v.entries[i] in v.entries && c[i].key == v.entries[i].key && Encodable(c[i].val) &&
        Same(v.entries[i].val, c[i].val)
    ensures Encodable(PyDict(c)) && Same(v, PyDict(c))
  {
    EntriesEncodable(v, c);
    hide Same;
    forall e | e in v.entries
      ensures Partnered(e, c)
    {
      hide Encodable;
      var i :| 0 <= i < |v.entries| && v.entries[i] == e;
      assert c[i] in c && c[i].key == e.key;
    }
    AllPartnered(v, c);
  }

  ghost predicate Partnered(e: Entry, c: seq<Entry>) {
    Encodable(e.val) && exists g :: g in c && g.key == e.key && Encodable(g.val) && Same(e.val, g.val)
  }

  lemma AllPartnered(v: PyValue, c: seq<Entry>)
    requires v.PyDict? && Encodable(v) && Encodable(PyDict(c)) && |c| == |v.entries|
    requires forall e :: e in v.entries ==> Partnered(e, c)
    ensures Same(v, PyDict(c))
  {}

  lemma EntriesEncodable(v: PyValue, c: seq<Entry>)
    requires v.PyDict? && Encodable(v) && |c| == |v.entries|
    requires forall i :: 0 <= i < |c| ==>
      v.entries[i] in v.entries && c[i].key == v.entries[i].key && Encodable(c[i].val)
    ensures Encodable(PyDict(c))
  {
    forall e | e in c
      ensures e.key.StrKey? && Encodable(e.val)
    {
      var i :| 0 <= i < |c| && c[i] == e;
    }
  }

  /** An address is the digest of the signed text, and that text is the JSON of the
      document above. */
  lemma AddressExact(sha: M.Sha, b: Body)
    requires Hashable(b) && FloatsFine(b)
    ensures ContentHash(sha, b) != "" && ContentHash(sha, b)[0] == 'z'
    ensures Decode(ContentHash(sha, b)[1..]) == Some(sha(SignableText(b)))
    ensures Encodable(AsJsonable(b))
    ensures var read := J.ReadValue(SignableText(b));
            read.Some? && read.value.1 == "" && J.Reads(AsJsonable(b), read.value.0)
  {
    hide Encode, Decode, AsJsonable, Text, J.ReadValue, J.Reads, Hashable;
    JsonableFine(b);
    J.TextIsJson(AsJsonable(b));
    DecodeEncode(sha(SignableText(b)));
    assert ContentHash(sha, b)[1..] == Encode(sha(SignableText(b)));
  }
}
