/** Positional notation: the digits of a number, the number of some digits,
    and why the two determine each other. */
module Numerals {
  import opened Words

  /** Digits of n, most significant first, without leading zeros. */
  function Digits(n: nat, base: nat): (d: seq<nat>)
    requires base >= 2
    ensures |d| >= 1
    decreases n
  {
    if n < base then [n] else
      QuotientShrinks(n, base);
      Digits(n / base, base) + [n % base]
  }

  lemma QuotientShrinks(n: nat, base: nat)
    requires base >= 2 && n >= base
    ensures 0 < n / base < n
    ensures n == n / base * base + n % base && 0 <= n % base < base
  {
    var q := n / base;
    assert n == q * base + n % base;
    if q >= 1 {
      MulMono(2, base, q);
    }
  }

  /** The number a digit sequence stands for. */
  function Eval(d: seq<nat>, base: nat): (n: nat)
  {
    if d == [] then 0 else
      MulMono(0, Eval(d[..|d| - 1], base), base);
      Eval(d[..|d| - 1], base) * base + d[|d| - 1]
  }

  ghost predicate Canonical(d: seq<nat>, base: nat) {
    && |d| >= 1
    && (forall i :: 0 <= i < |d| ==> d[i] < base)
    && (|d| > 1 ==> d[0] != 0)
  }

  lemma {:induction false} EvalDigits(n: nat, base: nat)
    requires base >= 2
    ensures Eval(Digits(n, base), base) == n
    decreases n
  {
    if n < base {
      assert Digits(n, base)[..0] == [];
    } else {
      QuotientShrinks(n, base);
      EvalDigits(n / base, base);
      assert Digits(n, base)[..|Digits(n, base)| - 1] == Digits(n / base, base);
    }
  }

  lemma {:induction false} DigitsCanonical(n: nat, base: nat)
    requires base >= 2
    ensures Canonical(Digits(n, base), base)
    ensures n > 0 ==> Digits(n, base)[0] != 0
    decreases n
  {
    if n >= base {
      QuotientShrinks(n, base);
      DigitsCanonical(n / base, base);
    }
  }

  /** No other canonical sequence stands for the same number. */
  lemma {:induction false} DigitsUnique(d: seq<nat>, base: nat)
    requires base >= 2 && Canonical(d, base)
    ensures Digits(Eval(d, base), base) == d
  {
    var last := |d| - 1;
    if last == 0 {
      assert d[..0] == [] && d == [d[0]];
    } else {
      var high := Eval(d[..last], base);
      DigitsUnique(d[..last], base);
      EvalPositive(d[..last], base);
      MulMono(1, high, base);
      DivModUnique(high * base + d[last], base, high, d[last]);
      assert d == d[..last] + [d[last]];
    }
  }

  lemma {:induction false} EvalPositive(d: seq<nat>, base: nat)
    requires base >= 1 && |d| >= 1 && d[0] != 0
    ensures Eval(d, base) > 0
  {
    var last := |d| - 1;
    if last > 0 {
      EvalPositive(d[..last], base);
      MulMono(1, Eval(d[..last], base), base);
    }
  }

  function Pow(base: nat, n: nat): (p: nat) {
    if n == 0 then 1 else
      MulMono(0, base, Pow(base, n - 1));
      base * Pow(base, n - 1)
  }

  lemma {:induction false} EvalBound(d: seq<nat>, base: nat)
    requires base >= 1 && forall i :: 0 <= i < |d| ==> d[i] < base
    ensures Eval(d, base) < Pow(base, |d|)
  {
    if d != [] {
      var last := |d| - 1;
      EvalBound(d[..last], base);
      MulMono(Eval(d[..last], base) + 1, Pow(base, last), base);
      Distribute(Eval(d[..last], base), 1, base);
    }
  }

  /** Digit sequences of equal length denote the same number only if equal. */
  lemma {:induction false} EvalInjective(a: seq<nat>, b: seq<nat>, base: nat)
    requires base >= 2 && |a| == |b| && Eval(a, base) == Eval(b, base)
    requires forall k :: 0 <= k < |a| ==> a[k] < base && b[k] < base
    ensures a == b
  {
    if a != [] {
      var last := |a| - 1;
      DivModUnique(Eval(a, base), base, Eval(a[..last], base), a[last]);
      DivModUnique(Eval(a, base), base, Eval(b[..last], base), b[last]);
      EvalInjective(a[..last], b[..last], base);
      assert a == a[..last] + [a[last]] && b == b[..last] + [b[last]];
    }
  }

  lemma {:induction false} EvalConcat(a: seq<nat>, b: seq<nat>, base: nat)
    ensures Eval(a + b, base) == Eval(a, base) * Pow(base, |b|) + Eval(b, base)
  {
    if b == [] {
      assert a + b == a;
    } else {
      var last := |b| - 1;
      EvalConcat(a, b[..last], base);
      assert (a + b)[..|a + b| - 1] == a + b[..last];
      Distribute(Eval(a, base) * Pow(base, last), Eval(b[..last], base), base);
      Associate(Eval(a, base), Pow(base, last), base);
    }
  }

  /** A number has at most k digits exactly when it is below base^k. */
  lemma {:induction false} DigitCount(n: nat, base: nat, k: nat)
    requires base >= 2 && k >= 1
    ensures |Digits(n, base)| <= k <==> n < Pow(base, k)
    decreases k
  {
    PowAtLeast(base, k);
    if n >= base {
      QuotientShrinks(n, base);
      if k == 1 {
        assert Pow(base, 1) == base * Pow(base, 0) == base;
      } else {
        DigitCount(n / base, base, k - 1);
        BelowProduct(n / base, n % base, Pow(base, k - 1), base);
      }
    }
  }

  lemma BelowProduct(q: nat, r: nat, p: nat, base: nat)
    requires r < base
    ensures q < p <==> q * base + r < base * p
  {
    if q < p {
      MulMono(q + 1, p, base);
      Distribute(q, 1, base);
    } else {
      MulMono(p, q, base);
    }
  }

  lemma {:induction false} PowAtLeast(base: nat, k: nat)
    requires base >= 1 && k >= 1
    ensures Pow(base, k) >= base
  {
    if k > 1 {
      PowAtLeast(base, k - 1);
      MulMono(1, Pow(base, k - 1), base);
    }
  }

  lemma {:induction false} PowSplit(base: nat, a: nat, b: nat)
    ensures Pow(base, a + b) == Pow(base, a) * Pow(base, b)
  {
    if a != 0 {
      PowSplit(base, a - 1, b);
      Associate(base, Pow(base, a - 1), Pow(base, b));
    }
  }

  lemma PowMono(base: nat, a: nat, b: nat)
    requires base >= 1 && a <= b
    ensures Pow(base, a) <= Pow(base, b)
  {
    if a == 0 {
      if b > 0 { PowAtLeast(base, b); }
    } else if a < b {
      PowSplit(base, a, b - a);
      PowAtLeast(base, b - a);
      MulMono(1, Pow(base, b - a), Pow(base, a));
    }
  }

  // ---- Text -------------------------------------------------------------------

  const HEXDIGITS: string := "0123456789abcdef"

  /** Digit values as characters. */
  function Text(d: seq<nat>): (t: string)
    requires forall i :: 0 <= i < |d| ==> d[i] < 16
    ensures |t| == |d|
  {
    seq(|d|, i requires 0 <= i < |d| => HEXDIGITS[d[i]])
  }

  predicate IsDigit(c: char) { '0' <= c <= '9' }

  ghost predicate AllDigits(str: string) {
    forall i :: 0 <= i < |str| ==> IsDigit(str[i])
  }

  predicate IsHexDigit(c: char) {
    IsDigit(c) || 'a' <= c <= 'f' || 'A' <= c <= 'F'
  }

  function DigitValue(c: char): (v: nat)
    requires IsHexDigit(c)
    ensures v < 16
  {
    if c >= 'a' then c as int - 'a' as int + 10
    else if c >= 'A' then c as int - 'A' as int + 10
    else c as int - '0' as int
  }

  function Values(t: string): (d: seq<nat>)
    requires forall i :: 0 <= i < |t| ==> IsHexDigit(t[i])
    ensures |d| == |t| && forall i :: 0 <= i < |t| ==> d[i] < 16
  {
    seq(|t|, i requires 0 <= i < |t| => DigitValue(t[i]))
  }

  lemma ValuesConcat(a: string, b: string)
    requires (forall i :: 0 <= i < |a| ==> IsHexDigit(a[i])) && (forall i :: 0 <= i < |b| ==> IsHexDigit(b[i]))
    ensures forall i :: 0 <= i < |a + b| ==> IsHexDigit((a + b)[i])
    ensures Values(a + b) == Values(a) + Values(b)
  {
  }

  lemma ValuesOfText(d: seq<nat>)
    requires forall i :: 0 <= i < |d| ==> d[i] < 16
    ensures forall i :: 0 <= i < |d| ==> IsHexDigit(Text(d)[i])
    ensures Values(Text(d)) == d
  {
    forall i | 0 <= i < |d| ensures IsHexDigit(HEXDIGITS[d[i]]) && DigitValue(HEXDIGITS[d[i]]) == d[i] {
      DigitRoundTrip(d[i]);
    }
  }

  lemma DigitRoundTrip(v: nat)
    requires v < 16
    ensures IsHexDigit(HEXDIGITS[v]) && DigitValue(HEXDIGITS[v]) == v
    ensures v < 10 ==> IsDigit(HEXDIGITS[v])
  {
  }

  /** The printed form of a number. */
  function Print(n: nat, base: nat): (t: string)
    requires 2 <= base <= 16
  {
    DigitsCanonical(n, base);
    Text(Digits(n, base))
  }

  /** Reading a printed number back. */
  lemma PrintRead(n: nat, base: nat)
    requires 2 <= base <= 16
    ensures forall i :: 0 <= i < |Print(n, base)| ==> IsHexDigit(Print(n, base)[i])
    ensures Eval(Values(Print(n, base)), base) == n
  {
    DigitsCanonical(n, base);
    ValuesOfText(Digits(n, base));
    EvalDigits(n, base);
  }

  /** A printed decimal is made of digits. */
  lemma PrintDecimal(n: nat)
    ensures |Print(n, 10)| >= 1 && AllDigits(Print(n, 10)) && '\0' !in Print(n, 10)
  {
    hide Digits;
    DigitsCanonical(n, 10);
    forall i | 0 <= i < |Print(n, 10)| ensures IsDigit(Print(n, 10)[i]) {
      DigitRoundTrip(Digits(n, 10)[i]);
    }
  }

  /** The digits in order; letters are written small. */
  lemma OneDigit(v: nat, base: nat)
    requires v < base <= 16 && base >= 2
    ensures Print(v, base) == ["0123456789abcdef"[v]]
  {
    assert Digits(v, base) == [v] by { DigitsCanonical(v, base); }
  }
}
