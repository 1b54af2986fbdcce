/** The base58btc codec (backend/app/identity/_base58.py): every content hash,
    signature and did:key identifier on the network passes through it. */
module Base58 {
  import opened Prelude
  import opened Radix

  type Byte = b: nat | b < 256

  /** The Bitcoin alphabet, in its runs of consecutive characters: 0, I, O and
      l are left out. */
  const ALPHABET: string :=
    "123456789" + "ABCDEFGH" + "JKLMN" + "PQRSTUVWXYZ" + "abcdefghijk" + "mnopqrstuvwxyz"

  /** The digit a character stands for, or None outside the alphabet. */
  function AlphabetMap(c: char): (r: Option<nat>)
    ensures r.Some? ==> r.value < 58
  {
    if '1' <= c <= '9' then Some((c - '1') as nat)
    else if 'A' <= c <= 'H' then Some(9 + (c - 'A') as nat)
    else if 'J' <= c <= 'N' then Some(17 + (c - 'J') as nat)
    else if 'P' <= c <= 'Z' then Some(22 + (c - 'P') as nat)
    else if 'a' <= c <= 'k' then Some(33 + (c - 'a') as nat)
    else if 'm' <= c <= 'z' then Some(44 + (c - 'm') as nat)
    else None
  }

  /** The alphabet spelt out by code point. */
  function CodePoint(i: nat): nat
    requires i < 58
  {
    if i < 9 then 49 + i else if i < 17 then 56 + i else if i < 22 then 57 + i
    else if i < 33 then 58 + i else if i < 44 then 64 + i else 65 + i
  }

  lemma AlphabetAt(i: nat)
    requires i < 58
    ensures |ALPHABET| == 58 && ALPHABET[i] as nat == CodePoint(i)
  {
    assert i < 9 ==> ALPHABET[i] == "123456789"[i] == '1' + i as char;
    assert 9 <= i < 17 ==> ALPHABET[i] == "ABCDEFGH"[i - 9] == 'A' + (i - 9) as char;
    assert 17 <= i < 22 ==> ALPHABET[i] == "JKLMN"[i - 17] == 'J' + (i - 17) as char;
    assert 22 <= i < 33 ==> ALPHABET[i] == "PQRSTUVWXYZ"[i - 22] == 'P' + (i - 22) as char;
    assert 33 <= i < 44 ==> ALPHABET[i] == "abcdefghijk"[i - 33] == 'a' + (i - 33) as char;
    assert 44 <= i ==> ALPHABET[i] == "mnopqrstuvwxyz"[i - 44] == 'm' + (i - 44) as char;
  }

  /** The range table is exactly the inverse of indexing the alphabet. */
  lemma AlphabetMapIsInverse(c: char, i: nat)
    requires i < 58
    ensures |ALPHABET| == 58
    ensures AlphabetMap(c) == Some(i) <==> ALPHABET[i] == c
  {
    AlphabetAt(i);
    MapMatchesCodePoint(c, i);
  }

  lemma MapMatchesCodePoint(c: char, i: nat)
    requires i < 58
    ensures AlphabetMap(c) == Some(i) <==> c as nat == CodePoint(i)
  {}

  /** The character for a digit. */
  function Symbol(d: nat): (c: char)
    requires d < 58
    ensures AlphabetMap(c) == Some(d)
  {
    AlphabetMapIsInverse('1', d);
    AlphabetMapIsInverse(ALPHABET[d], d);
    ALPHABET[d]
  }

  // ---------------------------------------------------------------- Specification

  function ToText(ds: seq<nat>): (s: string)
    requires IsNumeral(58, ds)
    ensures |s| == |ds|
  {
    seq(|ds|, i requires 0 <= i < |ds| => Symbol(ds[i]))
  }

  predicate InAlphabet(s: string) {
    forall i :: 0 <= i < |s| ==> AlphabetMap(s[i]).Some?
  }

  function FromText(s: string): (ds: seq<nat>)
    requires InAlphabet(s)
    ensures IsNumeral(58, ds) && |ds| == |s|
  {
    seq(|s|, i requires 0 <= i < |s| => AlphabetMap(s[i]).value)
  }

  function AsBytes(ds: seq<nat>): (r: seq<Byte>)
    requires IsNumeral(256, ds)
    ensures r == ds
  {
    ds
  }

  /** Leading zero bytes become leading '1's; the rest is the number in base 58. */
  function Encode(data: seq<Byte>): string {
    ToText(Recode(256, 58, data))
  }

  /** None stands for the ValueError on a character outside the alphabet. */
  function Decode(encoded: string): Option<seq<Byte>> {
    if InAlphabet(encoded) then Some(AsBytes(Recode(58, 256, FromText(encoded)))) else None
  }

  // ---------------------------------------------------------------- Theorems

  lemma TextInverse(ds: seq<nat>)
    requires IsNumeral(58, ds)
    ensures InAlphabet(ToText(ds)) && FromText(ToText(ds)) == ds
  {
    hide Symbol, AlphabetMap;
    assert forall i :: 0 <= i < |ds| ==> AlphabetMap(ToText(ds)[i]) == Some(ds[i]);
  }

  lemma SymbolOf(c: char)
    requires AlphabetMap(c).Some?
    ensures Symbol(AlphabetMap(c).value) == c
  {
    AlphabetMapIsInverse(c, AlphabetMap(c).value);
  }

  lemma InverseText(s: string)
    requires InAlphabet(s)
    ensures ToText(FromText(s)) == s
  {
    forall i | 0 <= i < |s|
      ensures ToText(FromText(s))[i] == s[i]
    {
      SymbolOf(s[i]);
    }
  }

  /** Every byte string survives the trip through text. */
  lemma DecodeEncode(data: seq<Byte>)
    ensures Decode(Encode(data)) == Some(data)
  {
    TextInverse(Recode(256, 58, data));
    RecodeInverse(256, 58, data);
  }

  /** Every text over the alphabet survives the trip through bytes, so the codec
      is a bijection between byte strings and such texts. */
  lemma EncodeDecode(s: string)
    ensures InAlphabet(s) <==> Decode(s).Some?
    ensures InAlphabet(s) ==> Encode(Decode(s).value) == s
  {
    if InAlphabet(s) {
      RecodeInverse(58, 256, FromText(s));
      InverseText(s);
    }
  }

  /** The text denotes the same number in base 58, after one '1' for each leading
      zero byte. */
  lemma EncodeValue(data: seq<Byte>)
    ensures Eval(58, FromText(Encode(data))) == Eval(256, data)
    ensures LeadingZeros(FromText(Encode(data))) == LeadingZeros(data)
  {
    RecodeValue(256, 58, data);
    TextInverse(Recode(256, 58, data));
  }

  lemma EncodeInjective(a: seq<Byte>, b: seq<Byte>)
    requires Encode(a) == Encode(b)
    ensures a == b
  {
    DecodeEncode(a);
    DecodeEncode(b);
  }

  lemma {:induction false} PowerBound(m: nat)
    ensures Pow(256, m) <= Pow(58, (3 * m + 1) / 2)
  {
    if m == 1 {
      assert Pow(256, 1) == 256 * Pow(256, 0);
      assert Pow(58, 2) == 58 * Pow(58, 1) == 58 * (58 * Pow(58, 0));
    } else if m >= 2 {
      PowerBound(m - 2);
      var p, q := Pow(256, m - 2), Pow(58, (3 * m + 1) / 2 - 3);
      assert (3 * (m - 2) + 1) / 2 == (3 * m + 1) / 2 - 3;
      assert Pow(256, m) == 256 * Pow(256, m - 1) == 256 * (256 * p);
      var k := (3 * m + 1) / 2;
      assert Pow(58, k) == 58 * Pow(58, k - 1) == 58 * (58 * Pow(58, k - 2)) == 58 * (58 * (58 * q));
    }
  }

  /** The text of n bytes has at most ceil(3n/2) characters, and at least one for
      every leading zero byte. */
  lemma EncodedLength(data: seq<Byte>)
    ensures LeadingZeros(data) <= |Encode(data)| <= (3 * |data| + 1) / 2
  {
    var k := LeadingZeros(data);
    var rest: seq<nat> := data[k..];
    assert data == Zeros(k) + rest;
    EvalZeros(256, k, rest);
    EvalBelowPow(256, rest);
    PowerBound(|rest|);
    DigitsShort(58, Eval(256, rest), (3 * |rest| + 1) / 2);
  }

  // ---------------------------------------------------------------- Byte length

  /** int.bit_length */
  function BitLength(n: nat): nat {
    |Digits(2, n)|
  }

  lemma {:induction false} PowBits(k: nat)
    ensures Pow(256, k) == Pow(2, 8 * k)
  {
    if k > 0 {
      PowBits(k - 1);
      var e := 8 * k;
      var q := Pow(2, e - 8);
      assert Pow(2, e - 6) == 2 * Pow(2, e - 7) == 4 * q;
      assert Pow(2, e - 4) == 2 * Pow(2, e - 5) == 4 * Pow(2, e - 6);
      assert Pow(2, e - 2) == 2 * Pow(2, e - 3) == 4 * Pow(2, e - 4);
      assert Pow(2, e) == 2 * Pow(2, e - 1) == 4 * Pow(2, e - 2);
    }
  }

  /** (bit_length + 7) // 8 bytes are exactly enough. */
  lemma ByteLength(n: nat)
    ensures (BitLength(n) + 7) / 8 == |Digits(256, n)|
  {
    var k := |Digits(256, n)|;
    EvalDigits(256, n);
    EvalBelowPow(256, Digits(256, n));
    PowBits(k);
    DigitsShort(2, n, 8 * k);
    if k > 0 {
      if n < Pow(256, k - 1) {
        DigitsShort(256, n, k - 1);
        assert false;
      }
      PowBits(k - 1);
      DigitsLong(2, n, 8 * (k - 1));
    }
  }

  /** int.to_bytes(length, "big"), low byte last. */
  function ToBytes(n: nat, length: nat): (r: seq<Byte>)
    ensures |r| == length
  {
    if length == 0 then [] else ToBytes(n / 256, length - 1) + [n % 256]
  }

  lemma {:induction false} ToBytesIsDigits(n: nat)
    ensures ToBytes(n, |Digits(256, n)|) == Digits(256, n)
    decreases n
  {
    if n != 0 {
      DivShrinks(256, n);
      ToBytesIsDigits(n / 256);
      if n / 256 == 0 {
        DivZero(256, n);
      }
    }
  }

  // ---------------------------------------------------------------- Code

  method B58Encode(data: seq<Byte>) returns (text: string)
    ensures text == Encode(data)
  {
    hide Symbol, Digits;
    if data == [] {
      EncodeEmpty();
      return "";
    }
    var leadingZeros := 0;
    while leadingZeros < |data| && data[leadingZeros] == 0
      invariant leadingZeros <= LeadingZeros(data)
    {
      leadingZeros := leadingZeros + 1;
    }
    var num := Eval(256, data);
    var out := "";
    assert ToText(Digits(58, num)) + out == ToText(Digits(58, num));
    while num > 0
      invariant ToText(Digits(58, num)) + out == ToText(Digits(58, Eval(256, data)))
    {
      EncodeStep(num, out);
      var rem := num % 58;
      num := num / 58;
      out := [Symbol(rem)] + out;
    }
    text := seq(leadingZeros, _ => Symbol(0)) + out;
    EncodeEnd(data, leadingZeros, out);
  }

  lemma EncodeEmpty()
    ensures Encode([]) == ""
  {}

  lemma ToTextAppend(a: seq<nat>, b: seq<nat>)
    requires IsNumeral(58, a) && IsNumeral(58, b)
    ensures IsNumeral(58, a + b) && ToText(a + b) == ToText(a) + ToText(b)
  {
    hide Symbol;
  }

  lemma EncodeStep(num: nat, out: string)
    requires num > 0
    ensures num / 58 < num
    ensures ToText(Digits(58, num / 58)) + ([Symbol(num % 58)] + out) == ToText(Digits(58, num)) + out
  {
    hide Symbol;
    DivShrinks(58, num);
    if num / 58 == 0 {
      DivZero(58, num);
    }
    var front, last := Digits(58, num / 58), [num % 58];
    assert Digits(58, num) == front + last;
    ToTextAppend(front, last);
    assert ToText(last) == [Symbol(num % 58)];
    Regroup(ToText(front), ToText(last), out);
  }

  lemma Regroup(a: string, b: string, c: string)
    ensures a + (b + c) == (a + b) + c
  {}

  lemma EncodeEnd(data: seq<Byte>, zeros: nat, out: string)
    requires zeros == LeadingZeros(data)
    requires ToText(Digits(58, 0)) + out == ToText(Digits(58, Eval(256, data)))
    ensures seq(zeros, _ => Symbol(0)) + out == Encode(data)
  {
    hide Symbol, Eval, LeadingZeros;
    assert ToText(Digits(58, 0)) == "";
    var ds := Digits(58, Eval(256, data));
    assert out == ToText(ds);
    ToTextAppend(Zeros(zeros), ds);
    assert ToText(Zeros(zeros)) == seq(zeros, _ => Symbol(0));
  }

  method B58Decode(encoded: string) returns (r: Option<seq<Byte>>)
    ensures r == Decode(encoded)
  {
    if encoded == "" {
      return Some([]);
    }
    hide Symbol, AlphabetMap, Digits;
    var leadingOnes := 0;
    while leadingOnes < |encoded| && encoded[leadingOnes] == Symbol(0)
      invariant leadingOnes <= |encoded|
      invariant forall i :: 0 <= i < leadingOnes ==> encoded[i] == Symbol(0)
    {
      leadingOnes := leadingOnes + 1;
    }
    var num, i := 0, 0;
    while i < |encoded|
      invariant i <= |encoded| && InAlphabet(encoded[..i])
      invariant num == Eval(58, FromText(encoded[..i]))
    {
      var digit := AlphabetMap(encoded[i]);
      if digit == None {
        return None;
      }
      DecodeStep(encoded, i);
      num := num * 58 + digit.value;
      i := i + 1;
    }
    assert encoded[..i] == encoded;
    var body := if num == 0 then [] else ToBytes(num, (BitLength(num) + 7) / 8);
    ByteLength(num);
    ToBytesIsDigits(num);
    OnesAreZeros(encoded, leadingOnes);
    r := Some(AsBytes(Zeros(leadingOnes)) + body);
  }

  lemma DecodeStep(s: string, i: nat)
    requires i < |s| && InAlphabet(s[..i]) && AlphabetMap(s[i]).Some?
    ensures InAlphabet(s[..i + 1])
    ensures Eval(58, FromText(s[..i + 1])) == Eval(58, FromText(s[..i])) * 58 + AlphabetMap(s[i]).value
  {
    var d := AlphabetMap(s[i]).value;
    EvalAppend(58, FromText(s[..i]), d);
    assert FromText(s[..i + 1]) == FromText(s[..i]) + [d];
  }

  lemma OnesAreZeros(s: string, k: nat)
    requires InAlphabet(s) && k <= |s|
    requires forall i :: 0 <= i < k ==> s[i] == Symbol(0)
    requires k < |s| ==> s[k] != Symbol(0)
    ensures LeadingZeros(FromText(s)) == k
  {
    hide Symbol, AlphabetMap;
    var ds := FromText(s);
    assert forall i :: 0 <= i < k ==> AlphabetMap(s[i]) == Some(0) && ds[i] == 0;
    if k < |s| {
      SymbolOf(s[k]);
      assert ds[k] != 0;
    }
  }
}
