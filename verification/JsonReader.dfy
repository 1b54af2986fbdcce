/** A reader of JSON after the grammar of RFC 8259, without insignificant whitespace,
    and the proof that the canonical text is the JSON of its document. */
module JsonReader {
  import opened Prelude
  import opened Ordering
  import opened CanonicalJson
  import Radix

  // ---------------------------------------------------------------- Strings

  /** The code unit of four hexadecimal digits. */
  function HexCode(s: string): Option<nat>
    requires |s| == 4
  {
    var a, b, c, d := Radix.HexValue(s[0]), Radix.HexValue(s[1]), Radix.HexValue(s[2]), Radix.HexValue(s[3]);
    if a == None || b == None || c == None || d == None then None
    else Some(((a.value * 16 + b.value) * 16 + c.value) * 16 + d.value)
  }

  /** The two-character escapes. */
  function ShortEscape(c: char): Option<char> {
    if c == '"' then Some('"')
    else if c == '\\' then Some('\\')
    else if c == '/' then Some('/')
    else if c == 'b' then Some(8 as char)
    else if c == 'f' then Some(12 as char)
    else if c == 'n' then Some(10 as char)
    else if c == 'r' then Some(13 as char)
    else if c == 't' then Some(9 as char)
    else None
  }

  function Cons(c: char, r: Option<(string, string)>): Option<(string, string)> {
    match r
    case None => None
    case Some((s, rest)) => Some(([c] + s, rest))
  }

  /** The characters of a string behind its opening quotation mark, and what follows
      the closing one. */
  function ReadChars(t: string): (r: Option<(string, string)>)
    ensures r.Some? ==> |r.value.1| < |t|
  {
    if t == "" then None
    else if t[0] == '"' then Some(("", t[1..]))
    else if t[0] < 32 as char then None
    else if t[0] != '\\' then Cons(t[0], ReadChars(t[1..]))
    else if |t| < 2 then None
    else if t[1] == 'u' then
      if |t| < 6 then None
      else
        var code := HexCode(t[2..6]);
        if code == None || 0xD800 <= code.value then None else Cons(code.value as char, ReadChars(t[6..]))
    else
      var c := ShortEscape(t[1]);
      if c == None then None else Cons(c.value, ReadChars(t[2..]))
  }

  // ---------------------------------------------------------------- Numbers

  function NumberLength(t: string): (n: nat)
    ensures n <= |t|
  {
    if t != "" && NumberChar(t[0]) then 1 + NumberLength(t[1..]) else 0
  }

  predicate AllDigits(s: string) {
    forall i :: 0 <= i < |s| ==> '0' <= s[i] <= '9'
  }

  /** No leading zero. */
  predicate IsNatural(s: string) {
    s != "" && AllDigits(s) && (s[0] == '0' ==> |s| == 1)
  }

  function NaturalValue(s: string): nat
    requires AllDigits(s)
  {
    if s == "" then 0
    else
      var last := s[|s| - 1];
      assert '0' <= last <= '9';
      NaturalValue(s[..|s| - 1]) * 10 + (last - '0') as nat
  }

  /** A fraction or an exponent makes a number that is known by its text. */
  function ReadNumber(s: string): Option<PyValue> {
    if IsNatural(s) then Some(PyInt(NaturalValue(s)))
    else if s != "" && s[0] == '-' && IsNatural(s[1..]) then Some(PyInt(0 - NaturalValue(s[1..])))
    else if FractionText(s) then Some(PyFloat(Fractional(s)))
    else None
  }

  // ---------------------------------------------------------------- Values

  predicate Starts(t: string, word: string) {
    |word| <= |t| && t[..|word|] == word
  }

  /** A value at the start of a text, and what follows it. */
  function ReadValue(t: string): (r: Option<(PyValue, string)>)
    ensures r.Some? ==> |r.value.1| < |t|
    decreases |t|, 0
  {
    if t == "" then None
    else if t[0] == '"' then
      match ReadChars(t[1..])
      case None => None
      case Some((s, rest)) => Some((PyStr(s), rest))
    else if t[0] == '[' then
      if |t| > 1 && t[1] == ']' then Some((PyList([]), t[2..]))
      else
        match ReadItems(t[1..])
        case None => None
        case Some((items, rest)) => Some((PyList(items), rest))
    else if t[0] == '{' then
      if |t| > 1 && t[1] == '}' then Some((PyDict([]), t[2..]))
      else
        match ReadMembers(t[1..])
        case None => None
        case Some((entries, rest)) => Some((PyDict(entries), rest))
    else if Starts(t, "null") then Some((PyNone, t[4..]))
    else if Starts(t, "true") then Some((PyBool(true), t[4..]))
    else if Starts(t, "false") then Some((PyBool(false), t[5..]))
    else
      var n := NumberLength(t);
      var v := ReadNumber(t[..n]);
      if n == 0 || v == None then None else Some((v.value, t[n..]))
  }

  /** The elements of an array, up to and including its closing bracket. */
  function ReadItems(t: string): (r: Option<(seq<PyValue>, string)>)
    ensures r.Some? ==> |r.value.1| < |t|
    decreases |t|, 1
  {
    match ReadValue(t)
    case None => None
    case Some((v, rest)) =>
      if rest == "" then None
      else if rest[0] == ']' then Some(([v], rest[1..]))
      else if rest[0] != ',' then None
      else
        match ReadItems(rest[1..])
        case None => None
        case Some((more, end)) => Some(([v] + more, end))
  }

  /** The members of an object, up to and including its closing brace. */
  function ReadMembers(t: string): (r: Option<(seq<Entry>, string)>)
    ensures r.Some? ==> |r.value.1| < |t|
    decreases |t|, 1
  {
    if t == "" || t[0] != '"' then None
    else
      match ReadChars(t[1..])
      case None => None
      case Some((name, colon)) =>
        if colon == "" || colon[0] != ':' then None
        else
          match ReadValue(colon[1..])
          case None => None
          case Some((v, rest)) =>
            var e := Entry(StrKey(name), v);
            if rest == "" then None
            else if rest[0] == '}' then Some(([e], rest[1..]))
            else if rest[0] != ',' then None
            else
              match ReadMembers(rest[1..])
              case None => None
              case Some((more, end)) => Some(([e] + more, end))
  }

  // ---------------------------------------------------------------- Strings read back

  lemma HexDigitValue(d: nat)
    requires d < 16
    ensures Radix.HexValue(Radix.HexDigit(d)) == Some(d)
  {}

  lemma ControlEscape(c: char)
    requires c < 32 as char
    ensures HexCode(['0', '0', Radix.HexDigit(c as nat / 16), Radix.HexDigit(c as nat % 16)]) == Some(c as nat)
  {
    HexDigitValue(c as nat / 16);
    HexDigitValue(c as nat % 16);
  }

  /** Every escape is read as its character. */
  lemma ReadEscape(c: char, x: string)
    ensures ReadChars(EscapeChar(c) + x) == Cons(c, ReadChars(x))
  {
    var e := EscapeChar(c);
    var t := e + x;
    assert t[0] == e[0] && t[|e|..] == x;
    if |e| > 1 {
      assert t[1] == e[1];
    }
    if |e| == 6 {
      assert t[2..6] == ['0', '0', Radix.HexDigit(c as nat / 16), Radix.HexDigit(c as nat % 16)];
      ControlEscape(c);
    }
  }

  lemma {:induction false} ReadEscaped(s: string, r: string)
    ensures ReadChars(Escaped(s) + ("\"" + r)) == Some((s, r))
  {
    hide EscapeChar;
    if s == "" {
      assert Escaped(s) + ("\"" + r) == "\"" + r && ("\"" + r)[1..] == r;
    } else {
      EscapedUncons(s);
      Reassociate(EscapeChar(s[0]), Escaped(s[1..]), "\"" + r);
      ReadEscape(s[0], Escaped(s[1..]) + ("\"" + r));
      ReadEscaped(s[1..], r);
      assert [s[0]] + s[1..] == s;
    }
  }

  /** A quoted string is read back with what follows it. */
  lemma ReadQuoted(s: string, r: string)
    ensures Quote(s) + r != "" && (Quote(s) + r)[0] == '"' && ReadChars((Quote(s) + r)[1..]) == Some((s, r))
  {
    hide Escaped, Quote;
    QuoteThen(s, r);
    ReadEscaped(s, r);
    assert ("\"" + (Escaped(s) + ("\"" + r)))[1..] == Escaped(s) + ("\"" + r);
  }

  // ---------------------------------------------------------------- Numbers read back

  lemma {:induction false} NumberExtent(x: string, r: string)
    requires (forall c :: c in x ==> NumberChar(c)) && Stop(r)
    ensures NumberLength(x + r) == |x|
  {
    if x == "" {
      assert x + r == r;
    } else {
      assert (x + r)[0] == x[0] && (x + r)[1..] == x[1..] + r;
      NumberExtent(x[1..], r);
    }
  }

  lemma {:induction false} DigitsValue(ds: seq<nat>, s: string)
    requires |s| == |ds| && forall i :: 0 <= i < |ds| ==> ds[i] < 10 && s[i] == '0' + ds[i] as char
    ensures AllDigits(s) && NaturalValue(s) == Radix.Eval(10, ds)
  {
    if ds != [] {
      DigitsValue(ds[..|ds| - 1], s[..|s| - 1]);
      assert AllDigits(s);
    }
  }

  lemma NaturalBack(n: nat)
    ensures IsNatural(NatText(n)) && NaturalValue(NatText(n)) == n
  {
    NatTextDigits(n);
    if n == 0 {
      DigitsValue([0], "0");
    } else {
      DigitsValue(Radix.Digits(10, n), NatText(n));
      Radix.EvalDigits(10, n);
    }
  }

  lemma IntegerBack(n: int)
    ensures ReadNumber(IntText(n)) == Some(PyInt(n))
  {
    hide NatText, NaturalValue;
    if n < 0 {
      NaturalBack(-n);
      assert IntText(n)[1..] == NatText(-n);
      assert !AllDigits(IntText(n)) by { assert IntText(n)[0] == '-'; }
    } else {
      NaturalBack(n);
    }
  }

  lemma FractionBack(t: string)
    requires FractionText(t)
    ensures ReadNumber(t) == Some(PyFloat(Fractional(t)))
  {
    var i :| 0 <= i < |t| && (t[i] == '.' || t[i] == 'e');
    assert !AllDigits(t);
    if t[0] == '-' {
      assert t[1..][i - 1] == t[i];
      assert !AllDigits(t[1..]);
    }
  }

  // ---------------------------------------------------------------- Documents read back

  /** In every object at any depth the names come in strictly ascending order. */
  ghost predicate NamesAscend(v: PyValue) {
    match v
    case PyList(items) => forall x :: x in items ==> NamesAscend(x)
    case PyDict(es) => Ascending(Keys(es, ENTRY_NAME)) && forall e :: e in es ==> e.key.StrKey? && NamesAscend(e.val)
    case PyTuple(_) => false
    case _ => true
  }

  /** w is v's document, with its names in order. */
  ghost predicate Reads(v: PyValue, w: PyValue)
    requires Encodable(v)
  {
    WellFormed(w) && Encodable(w) && Same(v, w) && NamesAscend(w)
  }

  lemma TokenBack(x: string, w: PyValue, r: string)
    requires x != "" && (forall c :: c in x ==> NumberChar(c)) && ReadNumber(x) == Some(w) && Stop(r)
    ensures ReadValue(x + r) == Some((w, r))
  {
    hide ReadNumber;
    NumberExtent(x, r);
    var t := x + r;
    assert t[..|x|] == x && t[|x|..] == r && t[0] == x[0] && x[0] in x;
    NotAWord(t);
  }

  lemma NumberBack(v: PyValue, r: string)
    requires v.IsNumber() && Encodable(v) && WellFormed(v) && Stop(r)
    ensures var t := ReadValue(Text(v) + r); t.Some? && t.value.1 == r && Reads(v, t.value.0)
  {
    hide ReadValue, ReadNumber, IntText;
    NumberText(v);
    if NumberOf(v).Int? {
      IntegerBack(NumberOf(v).n);
      TokenBack(Text(v), PyInt(NumberOf(v).n), r);
    } else {
      FractionBack(NumberOf(v).repr);
      TokenBack(Text(v), PyFloat(Fractional(NumberOf(v).repr)), r);
    }
  }

  lemma StartsWith(t: string, word: string)
    requires word != "" && Starts(t, word)
    ensures t != "" && t[0] == word[0]
  {
    assert t[..|word|][0] == t[0];
  }

  lemma NotAWord(t: string)
    requires t != "" && t[0] != 'n' && t[0] != 't' && t[0] != 'f'
    ensures !Starts(t, "null") && !Starts(t, "true") && !Starts(t, "false")
  {
    if Starts(t, "null") {
      StartsWith(t, "null");
    } else if Starts(t, "true") {
      StartsWith(t, "true");
    } else if Starts(t, "false") {
      StartsWith(t, "false");
    }
  }

  lemma StartsSelf(word: string, r: string)
    ensures Starts(word + r, word) && (word + r)[|word|..] == r
  {
    assert (word + r)[..|word|] == word;
  }

  lemma NullBack(r: string)
    ensures ReadValue("null" + r) == Some((PyNone, r))
  {
    StartsSelf("null", r);
  }

  lemma TrueBack(r: string)
    ensures ReadValue("true" + r) == Some((PyBool(true), r))
  {
    StartsSelf("true", r);
    if Starts("true" + r, "null") {
      StartsWith("true" + r, "null");
    }
  }

  lemma FalseBack(r: string)
    ensures ReadValue("false" + r) == Some((PyBool(false), r))
  {
    StartsSelf("false", r);
    if Starts("false" + r, "null") {
      StartsWith("false" + r, "null");
    } else if Starts("false" + r, "true") {
      StartsWith("false" + r, "true");
    }
  }

  lemma StringBack(s: string, r: string)
    ensures ReadValue(Quote(s) + r) == Some((PyStr(s), r))
  {
    hide Quote, ReadChars;
    ReadQuoted(s, r);
  }

  /** The canonical text of a value, read as JSON, is the value's document, with
      nothing left over and its names in ascending order. */
  lemma {:induction false} ValueBack(v: PyValue, r: string)
    requires WellFormed(v) && Encodable(v) && Stop(r)
    ensures var t := ReadValue(Text(v) + r); t.Some? && t.value.1 == r && Reads(v, t.value.0)
    decreases v, 3
  {
    if v.IsNumber() {
      NumberBack(v, r);
    } else if v.PyStr? {
      StringBack(v.s, r);
    } else if v.IsSequence() {
      ListBack(v, r);
    } else if v.PyDict? {
      DictBack(v, r);
    } else if v == PyNone {
      NullBack(r);
    } else if v == PyBool(true) {
      TrueBack(r);
    } else {
      FalseBack(r);
    }
  }

  lemma BracketBack(open: char, body: string)
    ensures ([open] + body)[0] == open && ([open] + body)[1..] == body
    ensures body != "" ==> ([open] + body)[1] == body[0]
  {}

  lemma ReadList(body: string)
    requires body != "" && body[0] != ']' && ReadItems(body).Some?
    ensures ReadValue("[" + body) == Some((PyList(ReadItems(body).value.0), ReadItems(body).value.1))
  {
    hide ReadItems;
    BracketBack('[', body);
  }

  lemma ReadDict(body: string)
    requires body != "" && body[0] != '}' && ReadMembers(body).Some?
    ensures ReadValue("{" + body) == Some((PyDict(ReadMembers(body).value.0), ReadMembers(body).value.1))
  {
    hide ReadMembers;
    BracketBack('{', body);
  }

  lemma ReadEmpty(r: string)
    ensures ReadValue("[" + ("]" + r)) == Some((PyList([]), r))
    ensures ReadValue("{" + ("}" + r)) == Some((PyDict([]), r))
  {
    BracketBack('[', "]" + r);
    BracketBack('{', "}" + r);
    assert ("[" + ("]" + r))[2..] == r && ("{" + ("}" + r))[2..] == r;
  }

  lemma TextOfList(v: PyValue)
    requires v.IsSequence() && Encodable(v)
    ensures Text(v) == "[" + Elements(v.items, true)
  {}

  lemma TextOfDict(v: PyValue)
    requires v.PyDict? && WellFormed(v) && Encodable(v)
    ensures Fine(SortBy(v.entries, ENTRY_NAME))
    ensures Text(v) == "{" + Members(Rendered(SortBy(v.entries, ENTRY_NAME)), true)
  {
    SortedRendered(v.entries);
  }

  lemma {:induction false} ListBack(v: PyValue, r: string)
    requires v.IsSequence() && WellFormed(v) && Encodable(v) && Stop(r)
    ensures var t := ReadValue(Text(v) + r); t.Some? && t.value.1 == r && Reads(v, t.value.0)
    decreases v, 2
  {
    hide ReadValue, ReadItems, Reads, Text, Elements;
    TextOfList(v);
    var body := Elements(v.items, true);
    Reassociate("[", body, r);
    ElementsStart(v.items, true, r);
    if v.items == [] {
      NoElements(r);
      ReadEmpty(r);
      ListReads(v, []);
    } else {
      ItemsBack(v, v.items, r);
      ElementsThen(v.items, true, r);
      EmptyPrefix(Text(v.items[0]) + (Elements(v.items[1..], false) + r));
      ReadList(body + r);
      ListReads(v, ReadItems(body + r).value.0);
    }
  }

  lemma NoElements(r: string)
    ensures Elements([], true) + r == "]" + r
  {}

  ghost predicate AllRead(xs: seq<PyValue>, ws: seq<PyValue>)
    requires forall x :: x in xs ==> Encodable(x)
  {
    |ws| == |xs| && forall i :: 0 <= i < |xs| ==> Reads(xs[i], ws[i])
  }

  lemma ListReads(v: PyValue, ws: seq<PyValue>)
    requires v.IsSequence() && Encodable(v) && AllRead(v.items, ws)
    ensures Reads(v, PyList(ws))
  {}

  lemma {:induction false} ItemsBack(owner: PyValue, xs: seq<PyValue>, r: string)
    requires owner.IsSequence() && xs != [] && forall x :: x in xs ==> x in owner.items && WellFormed(x) && Encodable(x)
    requires Stop(r)
    ensures var t := ReadItems(Text(xs[0]) + (Elements(xs[1..], false) + r));
            t.Some? && t.value.1 == r && AllRead(xs, t.value.0)
    decreases owner, 1, |xs|
  {
    hide Reads, ReadValue;
    var tail := xs[1..];
    var rest := Elements(tail, false) + r;
    assert xs[0] in owner.items;
    ElementsStop(tail, r);
    ValueBack(xs[0], rest);
    ElementsStart(tail, false, r);
    if tail == [] {
      assert rest[1..] == r;
    } else {
      ItemsBack(owner, tail, r);
      ElementsThen(tail, false, r);
      BracketBack(',', Text(tail[0]) + (Elements(tail[1..], false) + r));
    }
  }

  lemma {:induction false} DictBack(v: PyValue, r: string)
    requires v.PyDict? && WellFormed(v) && Encodable(v) && Stop(r)
    ensures var t := ReadValue(Text(v) + r); t.Some? && t.value.1 == r && Reads(v, t.value.0)
    decreases v, 2
  {
    hide ReadValue, ReadMembers, Reads, Text, Members, SortBy, Rendered;
    TextOfDict(v);
    var es := SortBy(v.entries, ENTRY_NAME);
    var body := Members(Rendered(es), true);
    Reassociate("{", body, r);
    MembersStart(es, true, r);
    if es == [] {
      NoMembers(r);
      ReadEmpty(r);
      DictReads(v, es, []);
    } else {
      MembersBack(v, es, r);
      MembersThen(es, true, r);
      EmptyPrefix(MembersRest(es, r));
      ReadDict(body + r);
      DictReads(v, es, ReadMembers(body + r).value.0);
    }
  }

  function MembersRest(es: seq<Entry>, r: string): string
    requires es != [] && forall e :: e in es ==> e.key.StrKey? && Encodable(e.val)
  {
    Quote(es[0].key.name) + (":" + (Text(es[0].val) + (Members(Rendered(es[1..]), false) + r)))
  }

  ghost predicate AllMembersRead(es: seq<Entry>, gs: seq<Entry>)
    requires Fine(es)
  {
    |gs| == |es| && forall i :: 0 <= i < |es| ==> gs[i].key == es[i].key && Reads(es[i].val, gs[i].val)
  }

  lemma DictReads(v: PyValue, es: seq<Entry>, gs: seq<Entry>)
    requires v.PyDict? && WellFormed(v) && Encodable(v) && es == SortBy(v.entries, ENTRY_NAME) && Fine(es)
    requires AllMembersRead(es, gs)
    ensures Reads(v, PyDict(gs))
  {
    hide SortBy, Same;
    forall g | g in gs
      ensures g.key.StrKey? && WellFormed(g.val) && Encodable(g.val) && NamesAscend(g.val)
    {
      var i :| 0 <= i < |gs| && gs[i] == g;
      assert es[i] in es && Reads(es[i].val, gs[i].val);
    }
    PairsAgree(es, gs);
    PointwiseSame(v, PyDict(gs), es, gs);
    SortedNames(v.entries);
    assert Keys(gs, ENTRY_NAME) == Keys(es, ENTRY_NAME);
    AscendingKeysDiffer(gs);
  }

  lemma PairsAgree(es: seq<Entry>, gs: seq<Entry>)
    requires Fine(es) && Fine(gs) && AllMembersRead(es, gs)
    ensures Pointwise(es, gs)
  {
    hide Same, Encodable, NamesAscend, WellFormed;
    PointwiseFrom(es, gs);
  }

  lemma AscendingKeysDiffer(gs: seq<Entry>)
    requires Ascending(Keys(gs, ENTRY_NAME)) && forall g :: g in gs ==> g.key.StrKey?
    ensures NoDup(KeyNames(gs))
  {
    AscendingNoDup(Keys(gs, ENTRY_NAME));
    forall i, j | 0 <= i < j < |gs|
      ensures KeyNames(gs)[i] != KeyNames(gs)[j]
    {
      assert Keys(gs, ENTRY_NAME)[i] != Keys(gs, ENTRY_NAME)[j];
      assert gs[i] in gs && gs[j] in gs;
    }
  }

  lemma ReadMember(t: string, name: string, colon: string, v: PyValue, rest: string)
    requires t != "" && t[0] == '"' && ReadChars(t[1..]) == Some((name, colon))
    requires colon != "" && colon[0] == ':' && ReadValue(colon[1..]) == Some((v, rest)) && rest != ""
    ensures rest[0] == '}' ==> ReadMembers(t) == Some(([Entry(StrKey(name), v)], rest[1..]))
    ensures rest[0] == ',' && ReadMembers(rest[1..]).Some? ==>
      ReadMembers(t) == Some(([Entry(StrKey(name), v)] + ReadMembers(rest[1..]).value.0,
        ReadMembers(rest[1..]).value.1))
  {
    hide ReadChars, ReadValue;
  }

  lemma AllMembersCons(es: seq<Entry>, e: Entry, gs: seq<Entry>)
    requires es != [] && Fine(es) && AllMembersRead(es[1..], gs) && e.key == es[0].key && Reads(es[0].val, e.val)
    ensures AllMembersRead(es, [e] + gs)
  {
    hide Reads;
  }

  lemma {:induction false} MembersBack(owner: PyValue, es: seq<Entry>, r: string)
    requires owner.PyDict? && es != [] && (forall e :: e in es ==> e in owner.entries) && Fine(es) && Stop(r)
    ensures var t := ReadMembers(MembersRest(es, r)); t.Some? && t.value.1 == r && AllMembersRead(es, t.value.0)
    decreases owner, 1, |es|
  {
    hide Reads, ReadValue, ReadChars, ReadMembers, Quote, Text, Members, AllMembersRead;
    var tail := es[1..];
    var rest := Members(Rendered(tail), false) + r;
    var name, value := es[0].key.name, Text(es[0].val) + rest;
    assert es[0] in owner.entries;
    MembersStop(tail, r);
    ValueBack(es[0].val, rest);
    ReadQuoted(name, ":" + value);
    BracketBack(':', value);
    MembersStart(tail, false, r);
    var w := ReadValue(value).value.0;
    ReadMember(MembersRest(es, r), name, ":" + value, w, rest);
    if tail == [] {
      NoMembers(r);
      NothingRead();
      AllMembersCons(es, Entry(StrKey(name), w), []);
      assert [Entry(StrKey(name), w)] + [] == [Entry(StrKey(name), w)];
    } else {
      MembersBack(owner, tail, r);
      MembersThen(tail, false, r);
      BracketBack(',', MembersRest(tail, r));
      AllMembersCons(es, Entry(StrKey(name), w), ReadMembers(MembersRest(tail, r)).value.0);
    }
  }

  lemma NothingRead()
    ensures AllMembersRead([], [])
  {}

  lemma NoMembers(r: string)
    ensures Members(Rendered([]), false) + r == "}" + r && ("}" + r)[1..] == r
    ensures Members(Rendered([]), true) + r == "}" + r
  {}

  /** So the whole text is one JSON value. */
  lemma TextIsJson(v: PyValue)
    requires WellFormed(v) && Encodable(v)
    ensures var t := ReadValue(Text(v)); t.Some? && t.value.1 == "" && Reads(v, t.value.0)
  {
    hide Text, Reads, ReadValue;
    ValueBack(v, "");
    assert Text(v) + "" == Text(v);
  }
}
