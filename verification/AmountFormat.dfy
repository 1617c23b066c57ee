/** Placing the decimal point and the ticker in an amount, in its buffer. */
module AmountFormat {
  import opened Words
  import opened Numerals
  import opened CStrings

  const MAX_TICKER_LEN: nat := 10
  const PRETTY_SIZE: nat := 2 + MAX_TICKER_LEN

  function Zeros(n: nat): (z: string)
    ensures |z| == n && forall i :: 0 <= i < n ==> z[i] == '0'
  {
    seq(n, _ => '0')
  }

  /** The amount with enough leading zeros for one integer digit. */
  function Padded(s: string, decimals: nat): (p: string)
    ensures |p| == if |s| <= decimals then decimals + 1 else |s|
  {
    if |s| <= decimals then Zeros(decimals + 1 - |s|) + s else s
  }

  function IntPart(s: string, decimals: nat): (i: string)
    ensures |i| >= 1
  {
    Padded(s, decimals)[..|Padded(s, decimals)| - decimals]
  }

  function TrimZeros(s: string): (t: string)
    ensures |t| <= |s| && t == s[..|t|]
    ensures t != [] ==> t[|t| - 1] != '0'
  {
    if s != [] && s[|s| - 1] == '0' then TrimZeros(s[..|s| - 1]) else s
  }

  lemma TrimLast(s: string)
    ensures TrimZeros(s) == if s != [] && s[|s| - 1] == '0' then TrimZeros(s[..|s| - 1]) else s
  {
  }

  function FracPart(s: string, decimals: nat): (f: string)
    ensures |f| <= decimals
  {
    TrimZeros(Padded(s, decimals)[|Padded(s, decimals)| - decimals..])
  }

  /** Decimal notation: no point when there is no fraction. */
  function Render(i: string, f: string): string {
    if f == [] then i else i + "." + f
  }

  /** The displayed amount. */
  function Pretty(s: string, decimals: nat, ticker: string): string {
    Render(IntPart(s, decimals), FracPart(s, decimals)) + " " + ticker
  }

  /** Trailing zeros cut, then one trailing point. */
  function Cut(s: string): string {
    var t := TrimZeros(s);
    if t != [] && t[|t| - 1] == '.' then t[..|t| - 1] else t
  }

  /** What the buffer edits produce from any text. */
  function Edited(s: string, decimals: nat, ticker: string): string {
    var p := Padded(s, decimals);
    Cut(p[..|p| - decimals] + "." + p[|p| - decimals..]) + " " + ticker
  }

  /** On digits the edits produce the displayed amount. */
  lemma EditedDigits(s: string, decimals: nat, ticker: string)
    requires AllDigits(s)
    ensures Edited(s, decimals, ticker) == Pretty(s, decimals, ticker)
  {
    hide Cut, Render, TrimZeros, Padded;
    var p := Padded(s, decimals);
    PrettyDigits(s, decimals);
    CutPoint(p[..|p| - decimals], p[|p| - decimals..]);
  }

  lemma {:induction false} CutPoint(i: string, f: string)
    requires AllDigits(f)
    ensures Cut(i + "." + f) == Render(i, TrimZeros(f))
  {
    hide TrimZeros;
    var q := i + "." + f;
    TrimLast(q);
    TrimLast(f);
    if f != [] && f[|f| - 1] == '0' {
      assert q[..|q| - 1] == i + "." + f[..|f| - 1];
      CutPoint(i, f[..|f| - 1]);
    } else if f == [] {
      assert q == i + ".";
    } else {
      assert IsDigit(f[|f| - 1]) && q[|q| - 1] == f[|f| - 1];
    }
  }

  // ---- When the edits are possible ------------------------------------------------

  /** Done, refused without a change, or past the end of a buffer. */
  datatype Result = Done | Refused | Overrun

  /** The text once the point is placed and the tail cut. */
  function Pointed(s: string, decimals: nat): string {
    var p := Padded(s, decimals);
    Cut(p[..|p| - decimals] + "." + p[|p| - decimals..])
  }

  /** The outcome in a buffer of a given size: first the two checks, then the
      room for the point, for the suffix buffer and for the suffix. */
  function ResultOf(s: string, decimals: nat, ticker: string, size: nat): Result {
    if |s| + PRETTY_SIZE >= size then Refused
    else if |s| <= decimals && decimals + 2 > size then Refused
    else if |Padded(s, decimals)| + 2 > size then Overrun
    else if |ticker| > MAX_TICKER_LEN then Overrun
    else if |Pointed(s, decimals)| + |ticker| + 2 > size then Overrun
    else Done
  }

  /** The ticker does not fit, or the digits shown do not: those of an amount
      below one unit, unless it is zero. */
  predicate TooWide(s: string, decimals: nat, ticker: string, size: nat) {
    || |ticker| > 10
    || (|s| <= decimals && TrimZeros(s) != [] && decimals - (|s| - |TrimZeros(s)|) + |ticker| + 4 > size)
  }

  /** An amount that passes the first check is refused for too many decimals,
      and written past a buffer exactly for two less than the size or when what
      is shown is too wide. */
  lemma ResultExact(s: string, decimals: nat, ticker: string, size: nat)
    requires AllDigits(s) && |s| + 12 < size
    ensures ResultOf(s, decimals, ticker, size) == Refused <==> decimals + 2 > size
    ensures ResultOf(s, decimals, ticker, size) == Overrun
      <==> decimals + 2 == size || (decimals + 2 < size && TooWide(s, decimals, ticker, size))
  {
    hide Cut, Render, TrimZeros, Padded;
    var p := Padded(s, decimals);
    PrettyDigits(s, decimals);
    CutPoint(p[..|p| - decimals], p[|p| - decimals..]);
    ShownLength(s, decimals);
  }

  lemma ShownLength(s: string, decimals: nat)
    requires AllDigits(s)
    ensures var n := |Render(IntPart(s, decimals), FracPart(s, decimals))|;
      if |s| > decimals then n <= |s| + 1
      else if TrimZeros(s) == [] then n == 1
      else n == decimals - (|s| - |TrimZeros(s)|) + 2
  {
    hide TrimZeros;
    if |s| <= decimals {
      var z := decimals - |s|;
      var p := Padded(s, decimals);
      assert p[1..] == Zeros(z) + s;
      TrimAfterZeros(z, s);
    }
  }

  /** Trimming zeros and digits trims the digits, or everything. */
  lemma {:induction false} TrimAfterZeros(z: nat, s: string)
    ensures TrimZeros(Zeros(z) + s) == if TrimZeros(s) == [] then [] else Zeros(z) + TrimZeros(s)
    decreases z + |s|
  {
    hide TrimZeros;
    var all := Zeros(z) + s;
    TrimLast(s);
    TrimLast(all);
    if s != [] {
      assert all[..|all| - 1] == Zeros(z) + s[..|s| - 1];
      if s[|s| - 1] == '0' {
        TrimAfterZeros(z, s[..|s| - 1]);
      }
    } else if z > 0 {
      assert all[..|all| - 1] == Zeros(z - 1) + s;
      TrimAfterZeros(z - 1, s);
    }
  }

  /** With at most 14 less decimals than the buffer has room, and a ticker of at
      most 10 characters, no text is written past a buffer. */
  lemma NoOverrun(s: string, decimals: nat, ticker: string, size: nat)
    requires |ticker| <= MAX_TICKER_LEN && decimals + PRETTY_SIZE + 2 <= size
    ensures ResultOf(s, decimals, ticker, size) == if |s| + PRETTY_SIZE < size then Done else Refused
  {
    hide TrimZeros;
  }

  // ---- The buffer edits ---------------------------------------------------------

  /** make_amount_pretty: rewrites the buffer to decimal notation, refuses, or
      stops where a buffer would be exceeded. */
  method MakeAmountPretty(amount: array<char>, ghost s: string, ticker: string, decimals: nat) returns (r: Result)
    requires Holds(amount[..], s) && '\0' !in ticker
    modifies amount
    ensures r == ResultOf(s, decimals, ticker, amount.Length)
    ensures r == Done ==> Holds(amount[..], Edited(s, decimals, ticker))
    ensures r == Refused ==> amount[..] == old(amount[..])
  {
    hide Holds, Cut;
    var len := StrLen(amount, s);
    if len + PRETTY_SIZE >= amount.Length {
      return Refused;
    }
    var missing := decimals - len + 1;
    ghost var p := Padded(s, decimals);
    if missing > 0 {
      if missing + len + 1 > amount.Length {
        return Refused;
      }
      PadLeft(amount, s, missing);
    }
    len := StrLen(amount, p);
    if len + 2 > amount.Length {
      return Overrun;
    }
    PlacePoint(amount, p, decimals);
    if |ticker| > MAX_TICKER_LEN {
      return Overrun;
    }
    ghost var b := Pointed(s, decimals);
    len := StrLen(amount, b);
    if len + |ticker| + 2 > amount.Length {
      return Overrun;
    }
    AppendSuffix(amount, b, ticker);
    return Done;
  }

  /** Makes room at the front and fills it with zeros. */
  method PadLeft(amount: array<char>, ghost s: string, missing: nat)
    requires Holds(amount[..], s) && |s| + missing < amount.Length
    modifies amount
    ensures Holds(amount[..], Zeros(missing) + s)
  {
    var len := StrLen(amount, s);
    ghost var before := amount[..];
    Memmove(amount, missing, 0, len + 1);
    CopyBehind(amount, 0, Zeros(missing));
    HoldsInFront(before, amount[..], Zeros(missing), s);
  }

  /** Puts the decimal point in and cuts what then trails. */
  method PlacePoint(amount: array<char>, ghost p: string, decimals: nat)
    requires Holds(amount[..], p) && decimals < |p| && |p| + 1 < amount.Length
    modifies amount
    ensures Holds(amount[..], Cut(p[..|p| - decimals] + "." + p[|p| - decimals..]))
  {
    var len := StrLen(amount, p);
    InsertPoint(amount, p, len - decimals);
    TrimTail(amount, p[..len - decimals] + "." + p[len - decimals..], len - decimals);
  }

  /** Opens a gap and writes the decimal point into it. */
  method InsertPoint(amount: array<char>, ghost p: string, dotPos: nat)
    requires Holds(amount[..], p) && dotPos <= |p| && |p| + 1 < amount.Length
    modifies amount
    ensures Holds(amount[..], p[..dotPos] + "." + p[dotPos..])
  {
    var len := StrLen(amount, p);
    Memmove(amount, dotPos + 1, dotPos, len - dotPos + 1);
    assert amount[..dotPos] == p[..dotPos];
    assert amount[dotPos + 1..len + 1] == p[dotPos..];
    amount[dotPos] := '.';
    assert amount[..len + 1] == p[..dotPos] + "." + p[dotPos..];
  }

  /** Cuts trailing zeros, then a trailing point. */
  method TrimTail(amount: array<char>, ghost q: string, ghost dot: nat)
    requires Holds(amount[..], q) && dot < |q| && q[dot] == '.'
    modifies amount
    ensures Holds(amount[..], Cut(q))
  {
    ghost var g := q;
    var len := StrLen(amount, q);
    while amount[len - 1] == '0'
      invariant Holds(amount[..], g) && len == |g| && dot < |g| && g[dot] == '.'
      invariant TrimZeros(g) == TrimZeros(q)
      decreases len
    {
      assert amount[..][..len] == g;
      assert g[len - 1] == '0' && dot < len - 1;
      amount[len - 1] := '\0';
      g := g[..|g| - 1];
      assert amount[..len - 1] == g;
      len := StrLen(amount, g);
    }
    assert amount[..][..len] == g && amount[len - 1] == g[len - 1];
    if amount[len - 1] == '.' {
      amount[len - 1] := '\0';
      assert amount[..len - 1] == g[..len - 1];
    }
  }

  /** Appends a space and the ticker. */
  method AppendSuffix(amount: array<char>, ghost b: string, ticker: string)
    requires Holds(amount[..], b) && |b| + 1 + |ticker| < amount.Length && '\0' !in ticker
    modifies amount
    ensures Holds(amount[..], b + " " + ticker)
  {
    var len := StrLen(amount, b);
    var suffix := " " + ticker + "\0";
    CopyIn(amount, len, suffix);
    assert amount[..len + |suffix| - 1] == b + " " + ticker;
  }

  // ---- What the text means --------------------------------------------------------

  /** The number of units of 10^-decimals that i.f denotes. */
  ghost function UnitsOf(i: string, f: string, decimals: nat): int
    requires AllDigits(i) && AllDigits(f) && |f| <= decimals
  {
    Eval(Values(i + f), 10) * Pow(10, decimals - |f|)
  }

  /** No superfluous leading zero. */
  ghost predicate NoLeadingZero(s: string) {
    |s| <= 1 || s[0] != '0'
  }

  lemma PrettyDigits(s: string, decimals: nat)
    requires AllDigits(s)
    ensures AllDigits(Padded(s, decimals)) && AllDigits(IntPart(s, decimals)) && AllDigits(FracPart(s, decimals))
  {
  }

  /** The displayed number is exactly amount / 10^decimals, its fraction has no
      trailing zero, and its integer part keeps a leading zero only if the
      amount itself had a superfluous one. */
  lemma PrettyPreservesValue(s: string, decimals: nat)
    requires AllDigits(s)
    ensures AllDigits(IntPart(s, decimals)) && AllDigits(FracPart(s, decimals))
    ensures UnitsOf(IntPart(s, decimals), FracPart(s, decimals), decimals) == Eval(Values(s), 10)
    ensures FracPart(s, decimals) != [] ==> FracPart(s, decimals)[|FracPart(s, decimals)| - 1] != '0'
    ensures NoLeadingZero(IntPart(s, decimals)) <==> |s| <= decimals + 1 || s[0] != '0'
  {
    PrettyDigits(s, decimals);
    var p, i := Padded(s, decimals), IntPart(s, decimals);
    var f := p[|p| - decimals..];
    TrimKeepsUnits(i, f, decimals);
    assert i + f == p;
    PaddingKeepsValue(s, decimals);
  }

  lemma {:induction false} TrimKeepsUnits(i: string, f: string, decimals: nat)
    requires AllDigits(i) && AllDigits(f) && |f| <= decimals
    ensures AllDigits(TrimZeros(f))
    ensures UnitsOf(i, TrimZeros(f), decimals) == UnitsOf(i, f, decimals)
  {
    if f != [] && f[|f| - 1] == '0' {
      var g := f[..|f| - 1];
      TrimKeepsUnits(i, g, decimals);
      assert Values(i + f)[..|i + f| - 1] == Values(i + g);
      assert Eval(Values(i + f), 10) == Eval(Values(i + g), 10) * 10;
      assert Pow(10, decimals - |g|) == 10 * Pow(10, decimals - |f|);
      Associate(Eval(Values(i + g), 10), 10, Pow(10, decimals - |f|));
    }
  }

  lemma PaddingKeepsValue(s: string, decimals: nat)
    requires AllDigits(s)
    ensures AllDigits(Padded(s, decimals))
    ensures Eval(Values(Padded(s, decimals)), 10) == Eval(Values(s), 10)
  {
    if |s| <= decimals {
      var z := Zeros(decimals + 1 - |s|);
      assert Values(z + s) == Values(z) + Values(s);
      EvalConcat(Values(z), Values(s), 10);
      ZerosEval(|z|);
    }
  }

  lemma {:induction false} ZerosEval(n: nat)
    ensures AllDigits(Zeros(n)) && Eval(Values(Zeros(n)), 10) == 0
  {
    if n > 0 {
      ZerosEval(n - 1);
      assert Values(Zeros(n))[..n - 1] == Values(Zeros(n - 1));
    }
  }

  // ---- The text written out -------------------------------------------------------------

  lemma {:induction false} TrimKeeps(g: string, zeros: nat)
    requires g == "" || g[|g| - 1] != '0'
    ensures TrimZeros(g + Zeros(zeros)) == g
    decreases zeros
  {
    hide TrimZeros;
    TrimLast(g + Zeros(zeros));
    if zeros == 0 {
      assert g + Zeros(0) == g;
    } else {
      assert (g + Zeros(zeros))[..|g| + zeros - 1] == g + Zeros(zeros - 1);
      TrimKeeps(g, zeros - 1);
    }
  }

  /** What is shown for an amount of at least one unit: the integer part, then the
      fraction without its trailing zeros behind a point, if any is left, and the
      ticker behind a space. */
  lemma PrettyText(i: string, g: string, zeros: nat, ticker: string)
    requires i != "" && (g == "" || g[|g| - 1] != '0')
    ensures Pretty(i + g + Zeros(zeros), |g| + zeros, ticker) ==
      i + (if g == "" then "" else "." + g) + " " + ticker
  {
    hide TrimZeros, IntPart, FracPart;
    Parts(i, g + Zeros(zeros));
    TrimKeeps(g, zeros);
    assert i + (g + Zeros(zeros)) == i + g + Zeros(zeros);
  }

  lemma Parts(i: string, f: string)
    requires i != ""
    ensures IntPart(i + f, |f|) == i && FracPart(i + f, |f|) == TrimZeros(f)
  {
    hide TrimZeros;
    assert (i + f)[..|i|] == i && (i + f)[|i|..] == f;
  }

  /** Smaller amounts are shown with zeros in front. */
  lemma PrettySmall(s: string, decimals: nat, ticker: string)
    requires |s| <= decimals
    ensures Pretty(s, decimals, ticker) == Pretty("0" + Zeros(decimals - |s|) + s, decimals, ticker)
  {
    assert Zeros(decimals + 1 - |s|) == "0" + Zeros(decimals - |s|);
  }

  /** One and a half coins. */
  lemma CoinAndAHalf()
    ensures Pretty("1500000000000000000", 18, "EGLD") == "1.5 EGLD"
  {
    hide *;
    assert "1" + "5" + Zeros(17) == "1500000000000000000";
    PrettyText("1", "5", 17, "EGLD");
    assert "1" + ("." + "5") + " " + "EGLD" == "1.5 EGLD";
  }

  /** The amount of tests/test_multiversx.py:339. */
  lemma SmallAmount()
    ensures Pretty("5678", 18, "EGLD") == "0." + "000000000000005678" + " EGLD"
  {
    hide *;
    var f := "000000000000005678";
    FourteenZeros();
    assert "0" + f + Zeros(0) == "0" + f;
    PrettySmall("5678", 18, "EGLD");
    PrettyText("0", f, 0, "EGLD");
    assert "0" + ("." + f) + " " + "EGLD" == "0." + f + " EGLD";
  }

  lemma FourteenZeros()
    ensures "0" + Zeros(14) + "5678" == "0" + "000000000000005678"
  {
  }

  // ---- Shortest form -----------------------------------------------------------------

  lemma ValuesBelow10(t: string)
    requires AllDigits(t)
    ensures forall k :: 0 <= k < |t| ==> Values(t)[k] < 10
  {
  }

  lemma ScaleSum(a: int, b: int, p: int, q: int)
    ensures (a * p + b) * q == a * (p * q) + b * q
  {
    Distribute(a * p, b, q);
    Associate(a, p, q);
  }

  /** A decimal split at the point: integer value and a fraction padded to a
      fixed number of places. */
  lemma SplitUnits(i: string, f: string, decimals: nat)
    requires AllDigits(i) && AllDigits(f) && |f| <= decimals
    ensures AllDigits(f + Zeros(decimals - |f|))
    ensures UnitsOf(i, f, decimals)
      == Eval(Values(i), 10) * Pow(10, decimals) + Eval(Values(f + Zeros(decimals - |f|)), 10)
    ensures Eval(Values(f + Zeros(decimals - |f|)), 10) < Pow(10, decimals)
  {
    hide Eval, Pow, Values;
    var z := Zeros(decimals - |f|);
    JoinEval(i, f);
    JoinEval(f, z);
    ZerosEval(|z|);
    PowSplit(10, |f|, |z|);
    ScaleSum(Eval(Values(i), 10), Eval(Values(f), 10), Pow(10, |f|), Pow(10, |z|));
    ValuesBelow10(f + z);
    EvalBound(Values(f + z), 10);
  }

  lemma JoinEval(a: string, b: string)
    requires AllDigits(a) && AllDigits(b)
    ensures AllDigits(a + b)
    ensures Eval(Values(a + b), 10) == Eval(Values(a), 10) * Pow(10, |b|) + Eval(Values(b), 10)
  {
    ValuesConcat(a, b);
    EvalConcat(Values(a), Values(b), 10);
  }

  /** Equal values have equal integer values and equal padded fractions. */
  lemma SameUnits(i: string, f: string, i': string, f': string, decimals: nat)
    requires AllDigits(i) && AllDigits(f) && |f| <= decimals
    requires AllDigits(i') && AllDigits(f') && |f'| <= decimals
    requires UnitsOf(i, f, decimals) == UnitsOf(i', f', decimals)
    ensures Eval(Values(i), 10) == Eval(Values(i'), 10)
    ensures f + Zeros(decimals - |f|) == f' + Zeros(decimals - |f'|)
  {
    SplitUnits(i, f, decimals);
    SplitUnits(i', f', decimals);
    var g, g' := f + Zeros(decimals - |f|), f' + Zeros(decimals - |f'|);
    DivModUnique(UnitsOf(i, f, decimals), Pow(10, decimals), Eval(Values(i), 10), Eval(Values(g), 10));
    DivModUnique(UnitsOf(i, f, decimals), Pow(10, decimals), Eval(Values(i'), 10), Eval(Values(g'), 10));
    ValuesBelow10(g);
    ValuesBelow10(g');
    EvalInjective(Values(g), Values(g'), 10);
    forall k | 0 <= k < |g| ensures g[k] == g'[k] {
      assert Values(g)[k] == Values(g')[k];
    }
  }

  lemma {:induction false} ShortestInt(i: string, i': string)
    requires AllDigits(i) && AllDigits(i') && i' != [] && NoLeadingZero(i)
    requires Eval(Values(i), 10) == Eval(Values(i'), 10)
    ensures |i| <= |i'|
  {
    if |i| > 1 {
      var n := Eval(Values(i), 10);
      ValuesBelow10(i);
      ValuesBelow10(i');
      DigitsUnique(Values(i), 10);
      EvalBound(Values(i'), 10);
      DigitCount(n, 10, |i'|);
    }
  }

  /** Among all decimals of the same value with at most that many places, the
      displayed one is the shortest. */
  lemma PrettyShortest(s: string, decimals: nat, i': string, f': string)
    requires AllDigits(s) && (|s| <= decimals + 1 || s[0] != '0')
    requires AllDigits(i') && AllDigits(f') && i' != [] && |f'| <= decimals
    requires UnitsOf(i', f', decimals) == Eval(Values(s), 10)
    ensures |Render(IntPart(s, decimals), FracPart(s, decimals))| <= |Render(i', f')|
  {
    PrettyPreservesValue(s, decimals);
    var i, f := IntPart(s, decimals), FracPart(s, decimals);
    SameUnits(i, f, i', f', decimals);
    ShortestInt(i, i');
    if f != [] {
      var g, g' := f + Zeros(decimals - |f|), f' + Zeros(decimals - |f'|);
      assert g[|f| - 1] == f[|f| - 1] != '0';
      assert forall k :: |f'| <= k < decimals ==> g'[k] == '0';
    }
  }
}
