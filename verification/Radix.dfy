/** Positional numerals in an arbitrary base, big-endian, as the integer
    conversions of the base58 codec use them. */
module Radix {
  import opened Prelude

  ghost predicate IsNumeral(b: nat, ds: seq<nat>) {
    forall i :: 0 <= i < |ds| ==> ds[i] < b
  }

  /** A lower-case hexadecimal digit. */
  function HexDigit(d: nat): (c: char)
    requires d < 16
  {
    if d < 10 then '0' + d as char else 'a' + (d - 10) as char
  }

  /** What a hexadecimal digit stands for. */
  function HexValue(c: char): Option<nat> {
    if '0' <= c <= '9' then Some((c - '0') as nat)
    else if 'a' <= c <= 'f' then Some(10 + (c - 'a') as nat)
    else if 'A' <= c <= 'F' then Some(10 + (c - 'A') as nat)
    else None
  }

  /** The number a big-endian digit string denotes. */
  function Eval(b: nat, ds: seq<nat>): nat {
    if ds == [] then 0 else Eval(b, ds[..|ds| - 1]) * b + ds[|ds| - 1]
  }

  /** The shortest digit string for n; zero is the empty string. */
  function Digits(b: nat, n: nat): (ds: seq<nat>)
    requires b >= 2
    ensures forall i :: 0 <= i < |ds| ==> ds[i] < b
    ensures ds != [] ==> ds[0] != 0
    ensures ds == [] <==> n == 0
    decreases n
  {
    if n == 0 then []
    else
      DivShrinks(b, n);
      var front := Digits(b, n / b);
      if front == [] then DivZero(b, n); [n] else front + [n % b]
  }

  lemma DivShrinks(b: nat, n: nat)
    requires b >= 2 && n > 0
    ensures n / b < n
  {}

  lemma DivZero(b: nat, n: nat)
    requires b >= 2 && n / b == 0
    ensures n < b && n % b == n
  {}

  function LeadingZeros(ds: seq<nat>): (k: nat)
    ensures k <= |ds|
    ensures forall i :: 0 <= i < k ==> ds[i] == 0
    ensures k < |ds| ==> ds[k] != 0
  {
    if ds == [] || ds[0] != 0 then 0 else 1 + LeadingZeros(ds[1..])
  }

  function Zeros(k: nat): (ds: seq<nat>)
    ensures |ds| == k && forall i :: 0 <= i < k ==> ds[i] == 0
  {
    seq(k, _ => 0)
  }

  /** Leading zeros are kept one for one; the rest is re-expressed in base b. */
  function Recode(a: nat, b: nat, ds: seq<nat>): (r: seq<nat>)
    requires b >= 2
    ensures IsNumeral(b, r)
  {
    Zeros(LeadingZeros(ds)) + Digits(b, Eval(a, ds))
  }

  lemma EvalAppend(b: nat, front: seq<nat>, d: nat)
    ensures Eval(b, front + [d]) == Eval(b, front) * b + d
  {
    assert (front + [d])[..|front|] == front;
  }

  lemma DivMod(b: nat, n: nat)
    requires b > 0
    ensures (n / b) * b + n % b == n
  {}

  lemma MulMono(x: nat, y: nat, b: nat)
    requires x <= y
    ensures x * b <= y * b
  {}

  lemma MulCancel(x: nat, y: nat, b: nat)
    requires x * b < y * b
    ensures x < y
  {}

  lemma {:induction false} EvalDigits(b: nat, n: nat)
    requires b >= 2
    ensures Eval(b, Digits(b, n)) == n
    decreases n
  {
    if n != 0 {
      DivShrinks(b, n);
      EvalDigits(b, n / b);
      var front, ds := Digits(b, n / b), Digits(b, n);
      if front == [] {
        DivZero(b, n);
        EvalAppend(b, [], n);
        assert ds == [] + [n];
      } else {
        EvalAppend(b, front, n % b);
        DivMod(b, n);
      }
    }
  }

  lemma {:induction false} EvalZeros(b: nat, k: nat, ds: seq<nat>)
    ensures Eval(b, Zeros(k) + ds) == Eval(b, ds)
    decreases |ds|, k
  {
    var s := Zeros(k) + ds;
    if ds != [] {
      assert s[..|s| - 1] == Zeros(k) + ds[..|ds| - 1];
      EvalZeros(b, k, ds[..|ds| - 1]);
    } else if k > 0 {
      assert s[..|s| - 1] == Zeros(k - 1) + ds;
      EvalZeros(b, k - 1, ds);
    } else {
      assert s == ds;
    }
  }

  lemma EvalBound(b: nat, ds: seq<nat>)
    requires b >= 2 && ds != [] && ds[0] != 0
    ensures Eval(b, ds) > 0
  {
    if |ds| > 1 {
      EvalBound(b, ds[..|ds| - 1]);
      PositiveProduct(Eval(b, ds[..|ds| - 1]), b);
    }
  }

  lemma PositiveProduct(x: nat, y: nat)
    requires x > 0 && y > 0
    ensures x * y > 0
  {}

  lemma DivModUnique(b: nat, q: nat, r: nat)
    requires r < b
    ensures (q * b + r) / b == q && (q * b + r) % b == r
  {
    var n := q * b + r;
    DivMod(b, n);
    MulCancel(n / b, q + 1, b);
    MulCancel(q, n / b + 1, b);
  }

  /** The shortest numeral is unique. */
  lemma {:induction false} DigitsEval(b: nat, ds: seq<nat>)
    requires b >= 2 && IsNumeral(b, ds)
    requires ds != [] ==> ds[0] != 0
    ensures Digits(b, Eval(b, ds)) == ds
  {
    if ds != [] {
      var front, last := ds[..|ds| - 1], ds[|ds| - 1];
      DigitsEval(b, front);
      DivModUnique(b, Eval(b, front), last);
      EvalBound(b, ds);
      assert ds == front + [last];
    }
  }

  lemma LeadingZerosOf(k: nat, ds: seq<nat>)
    requires ds != [] ==> ds[0] != 0
    ensures LeadingZeros(Zeros(k) + ds) == k
  {
    var s := Zeros(k) + ds;
    assert forall i :: 0 <= i < k ==> s[i] == 0;
    assert ds != [] ==> s[k] == ds[0];
  }

  /** Recoding from base a to base b and back is the identity on all digit strings. */
  lemma RecodeInverse(a: nat, b: nat, ds: seq<nat>)
    requires a >= 2 && b >= 2 && IsNumeral(a, ds)
    ensures Recode(b, a, Recode(a, b, ds)) == ds
  {
    var k := LeadingZeros(ds);
    var rest := ds[k..];
    assert ds == Zeros(k) + rest;
    EvalZeros(a, k, rest);
    var n := Eval(a, rest);
    LeadingZerosOf(k, Digits(b, n));
    EvalZeros(b, k, Digits(b, n));
    EvalDigits(b, n);
    DigitsEval(a, rest);
  }

  function Pow(b: nat, k: nat): (r: nat)
    ensures b > 0 ==> r > 0
  {
    if k == 0 then 1 else
      var p := Pow(b, k - 1);
      if b > 0 then PositiveProduct(b, p); b * p else b * p
  }

  lemma AppendBelow(e: nat, d: nat, b: nat, p: nat)
    requires d < b && e < p
    ensures e * b + d < b * p
  {
    MulMono(e + 1, p, b);
  }

  lemma {:induction false} EvalBelowPow(b: nat, ds: seq<nat>)
    requires b >= 2 && IsNumeral(b, ds)
    ensures Eval(b, ds) < Pow(b, |ds|)
  {
    if ds != [] {
      var front, last := ds[..|ds| - 1], ds[|ds| - 1];
      EvalBelowPow(b, front);
      AppendBelow(Eval(b, front), last, b, Pow(b, |front|));
    }
  }

  lemma {:induction false} DigitsShort(b: nat, n: nat, k: nat)
    requires b >= 2 && n < Pow(b, k)
    ensures |Digits(b, n)| <= k
    decreases k
  {
    if n != 0 {
      DivShrinks(b, n);
      DivMod(b, n);
      MulCancel(n / b, Pow(b, k - 1), b);
      DigitsShort(b, n / b, k - 1);
    }
  }

  lemma {:induction false} DigitsLong(b: nat, n: nat, k: nat)
    requires b >= 2 && n >= Pow(b, k)
    ensures |Digits(b, n)| > k
    decreases k
  {
    if k > 0 {
      DivMod(b, n);
      MulCancel(Pow(b, k - 1), n / b + 1, b);
      DigitsLong(b, n / b, k - 1);
    }
  }

  /** Recoding keeps the number and the leading zeros. */
  lemma RecodeValue(a: nat, b: nat, ds: seq<nat>)
    requires a >= 2 && b >= 2 && IsNumeral(a, ds)
    ensures Eval(b, Recode(a, b, ds)) == Eval(a, ds) && LeadingZeros(Recode(a, b, ds)) == LeadingZeros(ds)
  {
    EvalDigits(b, Eval(a, ds));
    EvalZeros(b, LeadingZeros(ds), Digits(b, Eval(a, ds)));
    LeadingZerosOf(LeadingZeros(ds), Digits(b, Eval(a, ds)));
  }
}
