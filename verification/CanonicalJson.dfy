/** The canonical serialiser (backend/app/identity/canonicalize.py). Its output
    is what peers hash and sign, so two documents may share a text only when
    they are the same document. */
module CanonicalJson {
  import opened Prelude
  import opened Ordering
  import opened Radix

  /** A finite float is whole, or is known by the text repr gives it. */
  datatype Float = Whole(n: int) | Fractional(repr: string) | NonFinite

  /** A key that is not a string, or a value no branch of the serialiser knows,
      is represented by what str gives for it. */
  datatype Key = StrKey(name: string) | OtherKey(kind: string, text: string)

  datatype Entry = Entry(key: Key, val: PyValue)

  datatype PyValue =
    | PyNone
    | PyBool(b: bool)
    | PyStr(s: string)
    | PyInt(n: int)
    | PyFloat(f: Float)
    | PyList(items: seq<PyValue>)
    | PyTuple(items: seq<PyValue>)
    | PyDict(entries: seq<Entry>)  // in insertion order
    | PyOther(text: string)
  {
    predicate IsSequence() { PyList? || PyTuple? }

    predicate IsNumber() { PyInt? || PyFloat? }
  }

  // ---------------------------------------------------------------- Values

  predicate NumberChar(c: char) {
    '0' <= c <= '9' || c == '+' || c == '-' || c == '.' || c == 'e'
  }

  /** What repr gives for a finite float that is not whole. */
  predicate FractionText(t: string) {
    t != "" && (forall c :: c in t ==> NumberChar(c)) && ('.' in t || 'e' in t)
  }

  ghost function KeyNames(es: seq<Entry>): seq<Key> {
    seq(|es|, i requires 0 <= i < |es| => es[i].key)
  }

  /** What Python itself guarantees: a dict's keys differ, and repr has its form. */
  ghost predicate WellFormed(v: PyValue) {
    match v
    case PyFloat(Fractional(t)) => FractionText(t)
    case PyList(items) => forall x :: x in items ==> WellFormed(x)
    case PyTuple(items) => forall x :: x in items ==> WellFormed(x)
    case PyDict(es) => NoDup(KeyNames(es)) && forall e :: e in es ==> WellFormed(e.val)
    case _ => true
  }

  /** The values that are serialised; every other one raises. */
  predicate Encodable(v: PyValue) {
    match v
    case PyFloat(f) => !f.NonFinite?
    case PyList(items) => forall x :: x in items ==> Encodable(x)
    case PyTuple(items) => forall x :: x in items ==> Encodable(x)
    case PyDict(es) => forall e :: e in es ==> e.key.StrKey? && Encodable(e.val)
    case PyOther(_) => false
    case _ => true
  }

  datatype Number = Int(n: int) | Fraction(repr: string)

  function NumberOf(v: PyValue): Number
    requires v.IsNumber() && Encodable(v)
  {
    match v
    case PyInt(n) => Int(n)
    case PyFloat(Whole(n)) => Int(n)
    case PyFloat(Fractional(t)) => Fraction(t)
  }

  /** The same document: equal up to the order of dict entries, list or tuple,
      and a whole number written as int or as float. */
  ghost predicate Same(a: PyValue, b: PyValue)
    requires Encodable(a) && Encodable(b)
    decreases a
  {
    if a.IsNumber() then b.IsNumber() && NumberOf(a) == NumberOf(b)
    else if a.IsSequence() then
      b.IsSequence() && |a.items| == |b.items|
      && forall i :: 0 <= i < |a.items| ==> Same(a.items[i], b.items[i])
    else if a.PyDict? then
      b.PyDict? && |a.entries| == |b.entries|
      && forall e :: e in a.entries ==> exists g :: g in b.entries && g.key == e.key && Same(e.val, g.val)
    else a == b
  }

  // ---------------------------------------------------------------- Text

  function NatText(n: nat): string {
    var ds := Digits(10, n);
    if n == 0 then "0" else seq(|ds|, i requires 0 <= i < |ds| => '0' + ds[i] as char)
  }

  /** str(int) */
  function IntText(n: int): string {
    if n < 0 then "-" + NatText(-n) else NatText(n)
  }

  function EscapeChar(c: char): string {
    if c == '"' then "\\\""
    else if c == '\\' then "\\\\"
    else if c == 8 as char then "\\b"
    else if c == 12 as char then "\\f"
    else if c == '\n' then "\\n"
    else if c == '\r' then "\\r"
    else if c == '\t' then "\\t"
    else if c < 32 as char then "\\u00" + [HexDigit(c as nat / 16), HexDigit(c as nat % 16)]
    else [c]
  }

  function Escaped(s: string): string {
    if s == "" then "" else Escaped(s[..|s| - 1]) + EscapeChar(s[|s| - 1])
  }

  function Quote(s: string): string {
    "\"" + (Escaped(s) + "\"")
  }

  datatype Member = Member(name: string, text: string)

  const NAME := (m: Member) => m.name

  function MemberText(m: Member): string {
    Quote(m.name) + ":" + m.text
  }

  /** The rest of an object's text, up to and including its closing brace. */
  function Members(ms: seq<Member>, first: bool): string {
    if ms == [] then "}"
    else (if first then "" else ",") + MemberText(ms[0]) + Members(ms[1..], false)
  }

  function Text(v: PyValue): string
    requires Encodable(v)
    decreases v, 1
  {
    match v
    case PyNone => "null"
    case PyBool(b) => if b then "true" else "false"
    case PyStr(s) => Quote(s)
    case PyInt(n) => IntText(n)
    case PyFloat(f) => if f.Whole? then IntText(f.n) else f.repr
    case PyList(items) => "[" + Elements(items, true)
    case PyTuple(items) => "[" + Elements(items, true)
    case PyDict(es) => "{" + Members(SortBy(Rendered(es), NAME), true)
  }

  /** The rest of an array's text, up to and including its closing bracket. */
  function Elements(items: seq<PyValue>, first: bool): string
    requires forall x :: x in items ==> Encodable(x)
    decreases items, 0
  {
    if items == [] then "]"
    else (if first then "" else ",") + Text(items[0]) + Elements(items[1..], false)
  }

  function Rendered(es: seq<Entry>): (ms: seq<Member>)
    requires forall e :: e in es ==> e.key.StrKey? && Encodable(e.val)
    ensures |ms| == |es|
    decreases es, 0
  {
    if es == [] then [] else [Render(es[0])] + Rendered(es[1..])
  }

  function Render(e: Entry): Member
    requires e.key.StrKey? && Encodable(e.val)
    decreases e, 0
  {
    Member(e.key.name, Text(e.val))
  }

  // ---------------------------------------------------------------- Lexical facts

  lemma NatTextDigits(n: nat)
    ensures NatText(n) != "" && '0' <= NatText(n)[0] <= '9'
    ensures forall c :: c in NatText(n) ==> '0' <= c <= '9'
    ensures n != 0 ==> NatText(n)[0] != '0'
  {}

  lemma NatTextInjective(m: nat, n: nat)
    requires NatText(m) == NatText(n)
    ensures m == n
  {
    var a, b := Digits(10, m), Digits(10, n);
    EvalDigits(10, m);
    EvalDigits(10, n);
    NatTextDigits(m);
    NatTextDigits(n);
    if m != 0 && n != 0 {
      assert |a| == |b|;
      forall i | 0 <= i < |a|
        ensures a[i] == b[i]
      {
        assert NatText(m)[i] == NatText(n)[i];
      }
      assert a == b;
    }
  }

  lemma IntTextChars(n: int)
    ensures IntText(n) != ""
    ensures forall c :: c in IntText(n) ==> NumberChar(c) && c != '.' && c != 'e'
  {
    NatTextDigits(if n < 0 then -n else n);
  }

  lemma IntTextInjective(m: int, n: int)
    requires IntText(m) == IntText(n)
    ensures m == n
  {
    hide NatText;
    NatTextDigits(if m < 0 then -m else m);
    NatTextDigits(if n < 0 then -n else n);
    if m < 0 && n < 0 {
      assert IntText(m)[1..] == NatText(-m) && IntText(n)[1..] == NatText(-n);
      NatTextInjective(-m, -n);
    } else if m >= 0 && n >= 0 {
      NatTextInjective(m, n);
    }
  }

  /** Escapes are a prefix code. */
  lemma EscapePrefix(a: char, b: char, r: string, s: string)
    requires EscapeChar(a) + r == EscapeChar(b) + s
    ensures a == b && r == s
  {
    var x, y := EscapeChar(a), EscapeChar(b);
    assert (x + r)[0] == (y + s)[0];
    assert |x| > 1 && |y| > 1 ==> (x + r)[1] == (y + s)[1];
    if |x| == 6 && |y| == 6 {
      assert (x + r)[4] == (y + s)[4] && (x + r)[5] == (y + s)[5];
      assert x[4] == y[4] && x[5] == y[5];
    }
    assert a == b;
    assert (x + r)[|x|..] == r && (y + s)[|y|..] == s;
  }

  lemma {:induction false} EscapedCons(c: char, s: string)
    ensures Escaped([c] + s) == EscapeChar(c) + Escaped(s)
  {
    hide EscapeChar;
    var t := [c] + s;
    if s == "" {
      assert t[..0] == "";
    } else {
      assert t[..|t| - 1] == [c] + s[..|s| - 1];
      EscapedCons(c, s[..|s| - 1]);
    }
  }

  lemma EscapedUncons(s: string)
    requires s != ""
    ensures Escaped(s) == EscapeChar(s[0]) + Escaped(s[1..])
    ensures Escaped(s) != "" && Escaped(s)[0] != '"'
  {
    EscapedCons(s[0], s[1..]);
    assert s == [s[0]] + s[1..];
  }

  /** A quoted string ends at its first bare quotation mark. */
  lemma {:induction false} EscapedPrefix(s: string, t: string, r: string, q: string)
    requires Escaped(s) + ("\"" + r) == Escaped(t) + ("\"" + q)
    ensures s == t && r == q
  {
    var x, y := "\"" + r, "\"" + q;
    if s != "" {
      EscapedUncons(s);
      assert (Escaped(s) + x)[0] == Escaped(s)[0];
    }
    if t != "" {
      EscapedUncons(t);
      assert (Escaped(t) + y)[0] == Escaped(t)[0];
    }
    if s == "" {
      assert t == "" && Escaped(s) + x == x && Escaped(t) + y == y;
      assert x[1..] == r && y[1..] == q;
    } else {
      assert t != "";
      Reassociate(EscapeChar(s[0]), Escaped(s[1..]), x);
      Reassociate(EscapeChar(t[0]), Escaped(t[1..]), y);
      EscapePrefix(s[0], t[0], Escaped(s[1..]) + x, Escaped(t[1..]) + y);
      EscapedPrefix(s[1..], t[1..], r, q);
      assert s == [s[0]] + s[1..] && t == [t[0]] + t[1..];
    }
  }

  lemma Reassociate(a: string, b: string, c: string)
    ensures (a + b) + c == a + (b + c)
  {}

  lemma QuoteThen(s: string, r: string)
    ensures Quote(s) + r == "\"" + (Escaped(s) + ("\"" + r))
  {
    Reassociate("\"", Escaped(s) + "\"", r);
    Reassociate(Escaped(s), "\"", r);
  }

  lemma DropFirst(c: char, r: string, q: string)
    requires [c] + r == [c] + q
    ensures r == q
  {
    assert ([c] + r)[1..] == r && ([c] + q)[1..] == q;
  }

  lemma DropSeparator(sep: string, x: string, y: string)
    requires sep + x == sep + y
    ensures x == y
  {
    assert (sep + x)[|sep|..] == x && (sep + y)[|sep|..] == y;
  }

  lemma QuotePrefix(s: string, t: string, r: string, q: string)
    requires Quote(s) + r == Quote(t) + q
    ensures s == t && r == q
  {
    QuoteThen(s, r);
    QuoteThen(t, q);
    DropFirst('"', Escaped(s) + ("\"" + r), Escaped(t) + ("\"" + q));
    EscapedPrefix(s, t, r, q);
  }

  /** What may follow a value inside a document. */
  predicate Stop(r: string) {
    r == "" || r[0] == ',' || r[0] == ']' || r[0] == '}'
  }

  /** A number extends as far as number characters do. */
  lemma NumberPrefix(x: string, y: string, r: string, q: string)
    requires x + r == y + q && Stop(r) && Stop(q)
    requires (forall c :: c in x ==> NumberChar(c)) && (forall c :: c in y ==> NumberChar(c))
    ensures x == y && r == q
  {
    var w := x + r;
    assert forall i :: 0 <= i < |x| ==> w[i] == x[i] && NumberChar(x[i]);
    assert forall i :: 0 <= i < |y| ==> w[i] == y[i] && NumberChar(y[i]);
    assert (r != "" ==> w[|x|] == r[0]) && (q != "" ==> w[|y|] == q[0]);
    assert w[..|x|] == x && w[..|y|] == y && w[|x|..] == r && w[|y|..] == q;
  }

  lemma NumberText(v: PyValue)
    requires v.IsNumber() && Encodable(v) && WellFormed(v)
    ensures Text(v) != "" && forall c :: c in Text(v) ==> NumberChar(c)
    ensures NumberOf(v).Fraction? <==> '.' in Text(v) || 'e' in Text(v)
    ensures NumberOf(v).Fraction? ==> Text(v) == NumberOf(v).repr
    ensures NumberOf(v).Int? ==> Text(v) == IntText(NumberOf(v).n)
  {
    if NumberOf(v).Int? {
      IntTextChars(NumberOf(v).n);
    }
  }

  lemma SameNumberText(a: PyValue, b: PyValue)
    requires a.IsNumber() && Encodable(a) && WellFormed(a)
    requires b.IsNumber() && Encodable(b) && WellFormed(b)
    ensures Text(a) == Text(b) <==> NumberOf(a) == NumberOf(b)
  {
    NumberText(a);
    NumberText(b);
    if Text(a) == Text(b) && NumberOf(a).Int? {
      IntTextInjective(NumberOf(a).n, NumberOf(b).n);
    }
  }

  /** The first character tells the kinds of value apart. */
  lemma FirstChar(v: PyValue)
    requires Encodable(v) && WellFormed(v)
    ensures Text(v) != ""
    ensures v.PyNone? <==> Text(v)[0] == 'n'
    ensures v.PyBool? <==> Text(v)[0] == 't' || Text(v)[0] == 'f'
    ensures v.PyStr? <==> Text(v)[0] == '"'
    ensures v.IsNumber() <==> NumberChar(Text(v)[0])
    ensures v.IsSequence() <==> Text(v)[0] == '['
    ensures v.PyDict? <==> Text(v)[0] == '{'
  {
    if v.IsNumber() {
      NumberText(v);
      assert Text(v)[0] in Text(v);
    }
  }

  // ---------------------------------------------------------------- Sorted members

  const ENTRY_NAME := (e: Entry) => if e.key.StrKey? then e.key.name else ""

  const RENDER := (e: Entry) =>
    if e.key.StrKey? && Encodable(e.val) then Render(e) else Member("", "")

  lemma {:induction false} RenderedAt(es: seq<Entry>, i: nat)
    requires (forall e :: e in es ==> e.key.StrKey? && Encodable(e.val)) && i < |es|
    ensures Rendered(es)[i] == Render(es[i])
  {
    if i > 0 {
      RenderedAt(es[1..], i - 1);
    }
  }

  /** Rendering entries and then sorting them is rendering the sorted entries. */
  lemma SortedRendered(es: seq<Entry>)
    requires forall e :: e in es ==> e.key.StrKey? && Encodable(e.val)
    ensures SortBy(Rendered(es), NAME) == Rendered(SortBy(es, ENTRY_NAME))
  {
    var sorted := SortBy(es, ENTRY_NAME);
    forall i | 0 <= i < |es|
      ensures Rendered(es)[i] == RENDER(es[i])
    {
      RenderedAt(es, i);
    }
    forall i | 0 <= i < |sorted|
      ensures Rendered(sorted)[i] == RENDER(sorted[i])
    {
      assert sorted[i] in sorted;
      RenderedAt(sorted, i);
    }
    assert Rendered(es) == Map(es, RENDER) && Rendered(sorted) == Map(sorted, RENDER);
    SortCommutes(es, ENTRY_NAME, RENDER, NAME);
  }

  lemma SortedNames(es: seq<Entry>)
    requires NoDup(KeyNames(es)) && forall e :: e in es ==> e.key.StrKey?
    ensures Ascending(Keys(SortBy(es, ENTRY_NAME), ENTRY_NAME))
  {
    var ks := Keys(es, ENTRY_NAME);
    forall i, j | 0 <= i < j < |ks|
      ensures ks[i] != ks[j]
    {
      assert KeyNames(es)[i] != KeyNames(es)[j];
    }
    SortAscending(es, ENTRY_NAME);
  }

  // ---------------------------------------------------------------- Unique decodability

  /** Entries a dict can be serialised from. */
  ghost predicate Fine(es: seq<Entry>) {
    forall e :: e in es ==> e.key.StrKey? && WellFormed(e.val) && Encodable(e.val)
  }

  /** Equal keys and the same values, place by place. */
  ghost predicate Pointwise(es: seq<Entry>, gs: seq<Entry>)
    requires Fine(es) && Fine(gs)
  {
    |es| == |gs|
    && (es != [] ==> es[0].key == gs[0].key && Same(es[0].val, gs[0].val) && Pointwise(es[1..], gs[1..]))
  }

  lemma {:induction false} PointwiseAt(es: seq<Entry>, gs: seq<Entry>, i: nat)
    requires Fine(es) && Fine(gs) && Pointwise(es, gs) && i < |es|
    ensures es[i].key == gs[i].key && Same(es[i].val, gs[i].val)
  {
    if i > 0 {
      PointwiseAt(es[1..], gs[1..], i - 1);
    }
  }

  lemma {:induction false} PointwiseFrom(es: seq<Entry>, gs: seq<Entry>)
    requires Fine(es) && Fine(gs) && |es| == |gs|
    requires forall i :: 0 <= i < |es| ==> es[i].key == gs[i].key && Same(es[i].val, gs[i].val)
    ensures Pointwise(es, gs)
  {
    if es != [] {
      PointwiseFrom(es[1..], gs[1..]);
    }
  }

  lemma ElementsThen(xs: seq<PyValue>, first: bool, r: string)
    requires xs != [] && forall x :: x in xs ==> Encodable(x)
    ensures Elements(xs, first) + r
         == (if first then "" else ",") + (Text(xs[0]) + (Elements(xs[1..], false) + r))
  {
    var sep := if first then "" else ",";
    Reassociate(sep + Text(xs[0]), Elements(xs[1..], false), r);
    Reassociate(sep, Text(xs[0]), Elements(xs[1..], false) + r);
  }

  lemma MembersThen(es: seq<Entry>, first: bool, r: string)
    requires es != [] && forall e :: e in es ==> e.key.StrKey? && Encodable(e.val)
    ensures Members(Rendered(es), first) + r
         == (if first then "" else ",")
          + (Quote(es[0].key.name) + (":" + (Text(es[0].val) + (Members(Rendered(es[1..]), false) + r))))
  {
    var sep := if first then "" else ",";
    var name, text, rest := Quote(es[0].key.name), Text(es[0].val), Members(Rendered(es[1..]), false);
    assert Rendered(es)[1..] == Rendered(es[1..]);
    Reassociate(sep + (name + ":" + text), rest, r);
    Reassociate(sep, name + ":" + text, rest + r);
    Reassociate(name + ":", text, rest + r);
    Reassociate(name, ":", text + (rest + r));
  }

  /** A value's text, followed by anything that may follow a value, determines
      both the value and where it ends. */
  lemma {:induction false} ValuePrefix(a: PyValue, b: PyValue, r: string, q: string)
    requires WellFormed(a) && Encodable(a) && WellFormed(b) && Encodable(b)
    requires Text(a) + r == Text(b) + q && Stop(r) && Stop(q)
    ensures Same(a, b) && r == q
    decreases a, 3
  {
    FirstChar(a);
    FirstChar(b);
    assert (Text(a) + r)[0] == Text(a)[0] && (Text(b) + q)[0] == Text(b)[0];
    if a.IsNumber() {
      NumberText(a);
      NumberText(b);
      NumberPrefix(Text(a), Text(b), r, q);
      SameNumberText(a, b);
    } else if a.PyStr? {
      QuotePrefix(a.s, b.s, r, q);
    } else if a.IsSequence() {
      Reassociate("[", Elements(a.items, true), r);
      Reassociate("[", Elements(b.items, true), q);
      DropFirst('[', Elements(a.items, true) + r, Elements(b.items, true) + q);
      ElementsPrefix(a, a.items, b.items, true, r, q);
    } else if a.PyDict? {
      DictPrefix(a, b, r, q);
    } else {
      assert Text(a) == Text(b);
      assert (Text(a) + r)[|Text(a)|..] == r && (Text(a) + q)[|Text(a)|..] == q;
    }
  }

  lemma ElementsStart(xs: seq<PyValue>, first: bool, r: string)
    requires forall x :: x in xs ==> WellFormed(x) && Encodable(x)
    ensures Elements(xs, first) != "" && ((Elements(xs, first) + r)[0] == ']' <==> xs == [])
  {
    var text := Elements(xs, first);
    if xs != [] {
      FirstChar(xs[0]);
    }
    assert text != "" && (text + r)[0] == text[0];
  }

  lemma ElementsStop(xs: seq<PyValue>, r: string)
    requires forall x :: x in xs ==> Encodable(x)
    ensures Stop(Elements(xs, false) + r)
  {}

  lemma {:induction false} ElementsPrefix(owner: PyValue, xs: seq<PyValue>, ys: seq<PyValue>, first: bool,
                                          r: string, q: string)
    requires owner.IsSequence() && forall x :: x in xs ==> x in owner.items
    requires forall x :: x in xs ==> WellFormed(x) && Encodable(x)
    requires forall y :: y in ys ==> WellFormed(y) && Encodable(y)
    requires Elements(xs, first) + r == Elements(ys, first) + q && Stop(r) && Stop(q)
    ensures |xs| == |ys| && (forall i :: 0 <= i < |xs| ==> Same(xs[i], ys[i])) && r == q
    decreases owner, 1, |xs|
  {
    ElementsStart(xs, first, r);
    ElementsStart(ys, first, q);
    if xs == [] {
      DropFirst(']', r, q);
    } else {
      ElementsThen(xs, first, r);
      ElementsThen(ys, first, q);
      ElementsStop(xs[1..], r);
      ElementsStop(ys[1..], q);
      var x', y' := Elements(xs[1..], false) + r, Elements(ys[1..], false) + q;
      DropSeparator(if first then "" else ",", Text(xs[0]) + x', Text(ys[0]) + y');
      assert xs[0] in owner.items;
      ValuePrefix(xs[0], ys[0], x', y');
      ElementsPrefix(owner, xs[1..], ys[1..], false, r, q);
      forall i | 0 <= i < |xs|
        ensures Same(xs[i], ys[i])
      {
        assert i > 0 ==> xs[i] == xs[1..][i - 1] && ys[i] == ys[1..][i - 1];
      }
    }
  }

  lemma MembersStart(es: seq<Entry>, first: bool, r: string)
    requires forall e :: e in es ==> e.key.StrKey? && Encodable(e.val)
    ensures Members(Rendered(es), first) != "" && ((Members(Rendered(es), first) + r)[0] == '}' <==> es == [])
  {
    var text := Members(Rendered(es), first);
    assert text != "" && (text + r)[0] == text[0];
  }

  lemma MemberHead(first: bool, m: string, n: string, x: string, y: string)
    requires (if first then "" else ",") + (Quote(m) + (":" + x))
          == (if first then "" else ",") + (Quote(n) + (":" + y))
    ensures m == n && x == y
  {
    DropSeparator(if first then "" else ",", Quote(m) + (":" + x), Quote(n) + (":" + y));
    QuotePrefix(m, n, ":" + x, ":" + y);
    DropFirst(':', x, y);
  }

  lemma {:induction false} MembersPrefix(owner: PyValue, es: seq<Entry>, gs: seq<Entry>, first: bool,
                                         r: string, q: string)
    requires owner.PyDict? && (forall e :: e in es ==> e in owner.entries) && Fine(es) && Fine(gs)
    requires Members(Rendered(es), first) + r == Members(Rendered(gs), first) + q && Stop(r) && Stop(q)
    ensures Pointwise(es, gs) && r == q
    decreases owner, 1, |es|
  {
    MembersStart(es, first, r);
    MembersStart(gs, first, q);
    if es == [] {
      DropFirst('}', r, q);
    } else {
      var e, g := es[0], gs[0];
      var e', g' := Members(Rendered(es[1..]), false) + r, Members(Rendered(gs[1..]), false) + q;
      MembersThen(es, first, r);
      MembersThen(gs, first, q);
      MemberHead(first, e.key.name, g.key.name, Text(e.val) + e', Text(g.val) + g');
      assert e in owner.entries;
      MembersStop(es[1..], r);
      MembersStop(gs[1..], q);
      ValuePrefix(e.val, g.val, e', g');
      MembersPrefix(owner, es[1..], gs[1..], false, r, q);
    }
  }

  lemma MembersStop(es: seq<Entry>, r: string)
    requires Fine(es)
    ensures Stop(Members(Rendered(es), false) + r)
  {}

  lemma {:induction false} DictPrefix(a: PyValue, b: PyValue, r: string, q: string)
    requires a.PyDict? && b.PyDict?
    requires WellFormed(a) && Encodable(a) && WellFormed(b) && Encodable(b)
    requires Text(a) + r == Text(b) + q && Stop(r) && Stop(q)
    ensures Same(a, b) && r == q
    decreases a, 2
  {
    var es, gs := SortBy(a.entries, ENTRY_NAME), SortBy(b.entries, ENTRY_NAME);
    SortedRendered(a.entries);
    SortedRendered(b.entries);
    var x, y := Members(Rendered(es), true), Members(Rendered(gs), true);
    Reassociate("{", x, r);
    Reassociate("{", y, q);
    DropFirst('{', x + r, y + q);
    MembersPrefix(a, es, gs, true, r, q);
    PointwiseSame(a, b, es, gs);
  }

  lemma PointwiseSame(a: PyValue, b: PyValue, es: seq<Entry>, gs: seq<Entry>)
    requires a.PyDict? && b.PyDict? && Encodable(a) && Encodable(b) && Fine(es) && Fine(gs)
    requires (forall e :: e in a.entries <==> e in es) && (forall g :: g in b.entries <==> g in gs)
    requires |es| == |a.entries| && |gs| == |b.entries| && Pointwise(es, gs)
    ensures Same(a, b)
  {
    forall e | e in a.entries
      ensures exists g :: g in b.entries && g.key == e.key && Same(e.val, g.val)
    {
      var i :| 0 <= i < |es| && es[i] == e;
      PointwiseAt(es, gs, i);
      assert gs[i] in gs;
    }
  }

  /** Same documents, same text. */
  lemma {:induction false} SameText(a: PyValue, b: PyValue)
    requires WellFormed(a) && Encodable(a) && WellFormed(b) && Encodable(b) && Same(a, b)
    ensures Text(a) == Text(b)
    decreases a, 3
  {
    if a.IsNumber() {
      SameNumberText(a, b);
    } else if a.IsSequence() {
      ElementsText(a, a.items, b.items, true);
    } else if a.PyDict? {
      var es, gs := SortBy(a.entries, ENTRY_NAME), SortBy(b.entries, ENTRY_NAME);
      SortedRendered(a.entries);
      SortedRendered(b.entries);
      SameCovered(a, b);
      SortedNames(a.entries);
      SortedNames(b.entries);
      SortedAgree(es, gs);
      MembersText(a, es, gs);
    }
  }

  lemma {:induction false} MembersText(owner: PyValue, es: seq<Entry>, gs: seq<Entry>)
    requires owner.PyDict? && (forall e :: e in es ==> e in owner.entries) && Fine(es) && Fine(gs)
    requires Pointwise(es, gs)
    ensures Rendered(es) == Rendered(gs)
    decreases owner, 1, |es|
  {
    if es != [] {
      assert es[0] in owner.entries;
      SameText(es[0].val, gs[0].val);
      MembersText(owner, es[1..], gs[1..]);
    }
  }

  lemma {:induction false} ElementsText(owner: PyValue, xs: seq<PyValue>, ys: seq<PyValue>, first: bool)
    requires owner.IsSequence() && forall x :: x in xs ==> x in owner.items
    requires forall x :: x in xs ==> WellFormed(x) && Encodable(x)
    requires forall y :: y in ys ==> WellFormed(y) && Encodable(y)
    requires |xs| == |ys| && forall i :: 0 <= i < |xs| ==> Same(xs[i], ys[i])
    ensures Elements(xs, first) == Elements(ys, first)
    decreases owner, 1, |xs|
  {
    if xs != [] {
      assert xs[0] in owner.items;
      SameText(xs[0], ys[0]);
      ElementsText(owner, xs[1..], ys[1..], false);
    }
  }

  lemma NamesIncluded(es: seq<Entry>, gs: seq<Entry>)
    requires forall e :: e in es ==> exists g :: g in gs && g.key == e.key
    ensures forall k :: k in Keys(es, ENTRY_NAME) ==> k in Keys(gs, ENTRY_NAME)
  {
    var ks, ls := Keys(es, ENTRY_NAME), Keys(gs, ENTRY_NAME);
    forall k | k in ks
      ensures k in ls
    {
      var i :| 0 <= i < |ks| && ks[i] == k;
      var g :| g in gs && g.key == es[i].key;
      var j :| 0 <= j < |gs| && gs[j] == g;
      assert ls[j] == k;
    }
  }

  /** Every entry has one with the same key and a same value on the other side. */
  ghost predicate Covered(es: seq<Entry>, gs: seq<Entry>)
    requires Fine(es) && Fine(gs)
  {
    |es| == |gs| && forall e :: e in es ==> HasPartner(e, gs)
  }

  ghost predicate HasPartner(e: Entry, gs: seq<Entry>)
    requires Encodable(e.val) && Fine(gs)
  {
    exists g :: g in gs && g.key == e.key && Same(e.val, g.val)
  }

  lemma SameCovered(a: PyValue, b: PyValue)
    requires a.PyDict? && b.PyDict?
    requires WellFormed(a) && Encodable(a) && WellFormed(b) && Encodable(b) && Same(a, b)
    ensures Fine(SortBy(a.entries, ENTRY_NAME)) && Fine(SortBy(b.entries, ENTRY_NAME))
    ensures Covered(SortBy(a.entries, ENTRY_NAME), SortBy(b.entries, ENTRY_NAME))
  {
    var es, gs := SortBy(a.entries, ENTRY_NAME), SortBy(b.entries, ENTRY_NAME);
    forall e | e in es
      ensures HasPartner(e, gs)
    {
      var g :| g in b.entries && g.key == e.key && Same(e.val, g.val);
      assert g in gs;
    }
  }

  lemma SameNames(es: seq<Entry>, gs: seq<Entry>)
    requires Fine(es) && Fine(gs) && Covered(es, gs)
    requires Ascending(Keys(es, ENTRY_NAME)) && Ascending(Keys(gs, ENTRY_NAME))
    ensures Keys(es, ENTRY_NAME) == Keys(gs, ENTRY_NAME)
  {
    var ks, ls := Keys(es, ENTRY_NAME), Keys(gs, ENTRY_NAME);
    NamesIncluded(es, gs);
    AscendingNoDup(ks);
    AscendingNoDup(ls);
    NoDupLength(ls);
    SubsetLength(ks, Elems(ls));
    AscendingUnique(ks, ls);
  }

  /** Sorting two dicts with the same content puts equal keys at equal places. */
  lemma SortedAgree(es: seq<Entry>, gs: seq<Entry>)
    requires Fine(es) && Fine(gs) && Covered(es, gs)
    requires Ascending(Keys(es, ENTRY_NAME)) && Ascending(Keys(gs, ENTRY_NAME))
    ensures Pointwise(es, gs)
  {
    SameNames(es, gs);
    var ks, ls := Keys(es, ENTRY_NAME), Keys(gs, ENTRY_NAME);
    forall i | 0 <= i < |es|
      ensures es[i].key == gs[i].key && Same(es[i].val, gs[i].val)
    {
      assert ls[i] == ks[i] == ENTRY_NAME(es[i]);
      PartnerAt(es[i], gs, i);
    }
    PointwiseFrom(es, gs);
  }

  lemma PartnerAt(e: Entry, gs: seq<Entry>, i: nat)
    requires i < |gs| && Ascending(Keys(gs, ENTRY_NAME))
    requires e.key.StrKey? && Encodable(e.val) && Fine(gs)
    requires HasPartner(e, gs)
    requires Keys(gs, ENTRY_NAME)[i] == ENTRY_NAME(e)
    ensures e.key == gs[i].key && Same(e.val, gs[i].val)
  {
    var ls := Keys(gs, ENTRY_NAME);
    var g :| g in gs && g.key == e.key && Same(e.val, g.val);
    var j :| 0 <= j < |gs| && gs[j] == g;
    assert ls[j] == ls[i];
    LessIrreflexive(ls[i]);
  }

  /** The canonical text identifies the document and nothing but the document. */
  lemma CanonicalExact(a: PyValue, b: PyValue)
    requires WellFormed(a) && Encodable(a) && WellFormed(b) && Encodable(b)
    ensures Text(a) == Text(b) <==> Same(a, b)
  {
    if Text(a) == Text(b) {
      ValuePrefix(a, b, "", "");
    } else if Same(a, b) {
      SameText(a, b);
    }
  }

  // ---------------------------------------------------------------- Code

  /** "".join(parts) */
  function Joined(parts: seq<string>): string {
    if parts == [] then "" else Joined(parts[..|parts| - 1]) + parts[|parts| - 1]
  }

  lemma JoinedAppend(parts: seq<string>, part: string)
    ensures Joined(parts + [part]) == Joined(parts) + part
  {
    assert (parts + [part])[..|parts|] == parts;
  }

  method EscapeString(s: string) returns (text: string)
    ensures text == Quote(s)
  {
    var result := ["\""];
    assert result[..0] == [];
    for i := 0 to |s|
      invariant Joined(result) == "\"" + Escaped(s[..i])
    {
      JoinedAppend(result, EscapeChar(s[i]));
      assert s[..i + 1][..i] == s[..i];
      Reassociate("\"", Escaped(s[..i]), EscapeChar(s[i]));
      result := result + [EscapeChar(s[i])];
    }
    assert s[..|s|] == s;
    JoinedAppend(result, "\"");
    Reassociate("\"", Escaped(s), "\"");
    text := Joined(result + ["\""]);
  }

  /** The list `_emit` appends to. */
  class Parts {
    var items: seq<string>

    constructor ()
      ensures items == []
    {
      items := [];
    }

    method Append(part: string)
      modifies this
      ensures Joined(items) == old(Joined(items)) + part
    {
      JoinedAppend(items, part);
      items := items + [part];
    }
  }

  /** Appends the value's text; ok is false where the source raises. */
  method Emit(value: PyValue, out: Parts) returns (ok: bool)
    modifies out
    ensures ok == Encodable(value)
    ensures ok ==> Joined(out.items) == old(Joined(out.items)) + Text(value)
    decreases value, 2
  {
    match value
    case PyNone => out.Append("null"); ok := true;
    case PyBool(b) => out.Append(if b then "true" else "false"); ok := true;
    case PyStr(s) =>
      var text := EscapeString(s);
      out.Append(text);
      ok := true;
    case PyInt(n) => out.Append(IntText(n)); ok := true;
    case PyFloat(f) =>
      if f.NonFinite? {
        return false;
      }
      out.Append(if f.Whole? then IntText(f.n) else f.repr);
      ok := true;
    case PyList(items) => ok := EmitItems(value, items, out);
    case PyTuple(items) => ok := EmitItems(value, items, out);
    case PyDict(es) => ok := EmitEntries(value, es, out);
    case PyOther(_) => ok := false;
  }

  /** What has been appended after the opening bracket, item by item. */
  function ElementsSoFar(items: seq<PyValue>): string
    requires forall x :: x in items ==> Encodable(x)
  {
    if items == [] then ""
    else
      var k := |items| - 1;
      ElementsSoFar(items[..k]) + (if k == 0 then "" else ",") + Text(items[k])
  }

  lemma {:induction false} ElementsJoin(xs: seq<PyValue>, ys: seq<PyValue>)
    requires (forall x :: x in xs ==> Encodable(x)) && forall y :: y in ys ==> Encodable(y)
    ensures ElementsSoFar(xs) + Elements(ys, xs == []) == ElementsSoFar(xs + ys) + "]"
    decreases |ys|
  {
    if ys == [] {
      assert xs + ys == xs;
    } else {
      var sep := if xs == [] then "" else ",";
      var zs := xs + [ys[0]];
      assert zs[..|xs|] == xs && zs + ys[1..] == xs + ys;
      ElementsJoin(zs, ys[1..]);
      Reassociate(ElementsSoFar(xs), sep + Text(ys[0]), Elements(ys[1..], false));
      Reassociate(ElementsSoFar(xs), sep, Text(ys[0]));
    }
  }

  function MembersSoFar(es: seq<Entry>): string
    requires forall e :: e in es ==> e.key.StrKey? && Encodable(e.val)
  {
    if es == [] then ""
    else
      var k := |es| - 1;
      MembersSoFar(es[..k]) + (if k == 0 then "" else ",") + Quote(es[k].key.name) + ":" + Text(es[k].val)
  }

  lemma {:induction false} MembersJoin(xs: seq<Entry>, ys: seq<Entry>)
    requires forall e :: e in xs ==> e.key.StrKey? && Encodable(e.val)
    requires forall e :: e in ys ==> e.key.StrKey? && Encodable(e.val)
    ensures MembersSoFar(xs) + Members(Rendered(ys), xs == []) == MembersSoFar(xs + ys) + "}"
    decreases |ys|
  {
    if ys == [] {
      assert xs + ys == xs;
    } else {
      var sep := if xs == [] then "" else ",";
      var zs := xs + [ys[0]];
      assert zs[..|xs|] == xs && zs + ys[1..] == xs + ys;
      MembersJoin(zs, ys[1..]);
      assert Rendered(ys)[1..] == Rendered(ys[1..]);
      MemberStep(MembersSoFar(xs), sep, Quote(ys[0].key.name), Text(ys[0].val), Members(Rendered(ys[1..]), false));
    }
  }

  lemma MemberStep(a: string, sep: string, name: string, text: string, rest: string)
    ensures a + (sep + (name + ":" + text) + rest) == (a + sep + name + ":" + text) + rest
  {}

  method EmitItems(value: PyValue, items: seq<PyValue>, out: Parts) returns (ok: bool)
    requires value.IsSequence() && items == value.items
    modifies out
    ensures ok == Encodable(value)
    ensures ok ==> Joined(out.items) == old(Joined(out.items)) + Text(value)
    decreases value, 1
  {
    hide Text, Elements, Members, SortBy, Quote;
    ghost var start := Joined(out.items);
    out.Append("[");
    for i := 0 to |items|
      invariant forall x :: x in items[..i] ==> Encodable(x)
      invariant Joined(out.items) == start + "[" + ElementsSoFar(items[..i])
    {
      var fine := EmitItem(value, i, out);
      if !fine {
        return false;
      }
      AppendStep(start + "[", items, i);
    }
    out.Append("]");
    ok := true;
    assert items[..|items|] == items;
    ArrayText(start, value);
  }

  lemma ArrayText(start: string, value: PyValue)
    requires value.IsSequence() && forall x :: x in value.items ==> Encodable(x)
    ensures Encodable(value)
    ensures start + "[" + ElementsSoFar(value.items) + "]" == start + Text(value)
  {
    ElementsWhole(value.items);
    FinishText(start, "[", ElementsSoFar(value.items), "]");
  }

  lemma ElementsWhole(items: seq<PyValue>)
    requires forall x :: x in items ==> Encodable(x)
    ensures ElementsSoFar(items) + "]" == Elements(items, true)
  {
    var none: seq<PyValue> := [];
    assert none + items == items;
    ElementsJoin(none, items);
    EmptyPrefix(Elements(items, true));
  }

  lemma EmptyPrefix(s: string)
    ensures "" + s == s
  {}

  lemma MembersWhole(items: seq<Entry>)
    requires forall e :: e in items ==> e.key.StrKey? && Encodable(e.val)
    ensures MembersSoFar(items) + "}" == Members(Rendered(items), true)
  {
    var none: seq<Entry> := [];
    assert none + items == items;
    MembersJoin(none, items);
    EmptyPrefix(Members(Rendered(items), true));
  }

  /** One turn of the loop over a list or tuple. */
  method EmitItem(value: PyValue, i: nat, out: Parts) returns (ok: bool)
    requires value.IsSequence() && i < |value.items|
    modifies out
    ensures ok == Encodable(value.items[i])
    ensures ok ==>
      Joined(out.items) == old(Joined(out.items)) + (if i == 0 then "" else ",") + Text(value.items[i])
    decreases value, 0
  {
    if i > 0 {
      out.Append(",");
    } else {
      assert Joined(out.items) + "" == Joined(out.items);
    }
    ok := Emit(value.items[i], out);
  }

  lemma AppendStep(start: string, items: seq<PyValue>, i: nat)
    requires i < |items| && (forall x :: x in items[..i] ==> Encodable(x)) && Encodable(items[i])
    ensures forall x :: x in items[..i + 1] ==> Encodable(x)
    ensures start + ElementsSoFar(items[..i]) + (if i == 0 then "" else ",") + Text(items[i])
         == start + ElementsSoFar(items[..i + 1])
  {
    var xs := items[..i + 1];
    assert xs == items[..i] + [items[i]] && xs[..i] == items[..i];
    Reassociate(start, ElementsSoFar(items[..i]), if i == 0 then "" else ",");
    Reassociate(start, ElementsSoFar(items[..i]) + (if i == 0 then "" else ","), Text(items[i]));
  }

  lemma FinishText(start: string, open: string, body: string, close: string)
    ensures start + open + body + close == start + (open + (body + close))
  {}

  method EmitEntries(value: PyValue, es: seq<Entry>, out: Parts) returns (ok: bool)
    requires value == PyDict(es)
    modifies out
    ensures ok == Encodable(value)
    ensures ok ==> Joined(out.items) == old(Joined(out.items)) + Text(value)
    decreases value, 1
  {
    hide Text, Elements, Members, SortBy, Quote;
    ghost var start := Joined(out.items);
    out.Append("{");
    var items := SortBy(es, ENTRY_NAME);
    for i := 0 to |items|
      invariant forall e :: e in items[..i] ==> e.key.StrKey? && Encodable(e.val)
      invariant Joined(out.items) == start + "{" + MembersSoFar(items[..i])
    {
      assert items[i] in items;
      var fine := EmitEntry(value, items[i], i, out);
      if !fine {
        return false;
      }
      EntryStep(start + "{", items, i);
    }
    out.Append("}");
    ok := true;
    assert items[..|items|] == items;
    ObjectText(start, value);
  }

  lemma ObjectText(start: string, value: PyValue)
    requires value.PyDict?
    requires forall e :: e in SortBy(value.entries, ENTRY_NAME) ==> e.key.StrKey? && Encodable(e.val)
    ensures Encodable(value)
    ensures start + "{" + MembersSoFar(SortBy(value.entries, ENTRY_NAME)) + "}" == start + Text(value)
  {
    var items := SortBy(value.entries, ENTRY_NAME);
    assert forall e :: e in value.entries ==> e in items;
    SortedRendered(value.entries);
    MembersWhole(items);
    FinishText(start, "{", MembersSoFar(items), "}");
  }

  /** One turn of the loop over the sorted entries of a dict. */
  method EmitEntry(value: PyValue, e: Entry, i: nat, out: Parts) returns (ok: bool)
    requires value.PyDict? && e in value.entries
    modifies out
    ensures ok == (e.key.StrKey? && Encodable(e.val))
    ensures ok ==>
      Joined(out.items) == old(Joined(out.items)) + (if i == 0 then "" else ",")
                           + Quote(e.key.name) + ":" + Text(e.val)
    decreases value, 0
  {
    if !e.key.StrKey? {
      return false;
    }
    if i > 0 {
      out.Append(",");
    } else {
      assert Joined(out.items) + "" == Joined(out.items);
    }
    var name := EscapeString(e.key.name);
    out.Append(name);
    out.Append(":");
    ok := Emit(e.val, out);
  }

  lemma EntryStep(start: string, items: seq<Entry>, i: nat)
    requires i < |items| && items[i].key.StrKey? && Encodable(items[i].val)
    requires forall e :: e in items[..i] ==> e.key.StrKey? && Encodable(e.val)
    ensures forall e :: e in items[..i + 1] ==> e.key.StrKey? && Encodable(e.val)
    ensures start + MembersSoFar(items[..i]) + (if i == 0 then "" else ",") + Quote(items[i].key.name) + ":"
            + Text(items[i].val)
         == start + MembersSoFar(items[..i + 1])
  {
    var xs := items[..i + 1];
    var sep, name, text := if i == 0 then "" else ",", Quote(items[i].key.name), Text(items[i].val);
    var a := MembersSoFar(items[..i]);
    assert xs == items[..i] + [items[i]] && xs[..i] == items[..i];
    Reassociate(start, a, sep);
    Reassociate(start, a + sep, name);
    Reassociate(start, a + sep + name, ":");
    Reassociate(start, a + sep + name + ":", text);
  }

  /** The text to be encoded as UTF-8, or None where the source raises. */
  method Canonicalize(value: PyValue) returns (r: Option<string>)
    ensures r == if Encodable(value) then Some(Text(value)) else None
  {
    var parts := new Parts();
    var ok := Emit(value, parts);
    r := if ok then Some(Joined(parts.items)) else None;
    assert ok ==> "" + Text(value) == Text(value);
  }
}
