/** Integer fields and the fee shown for a transaction. */
module Fee {
  import opened Words
  import opened Wrappers
  import opened Numerals
  import opened Uint128
  import opened Uint128Text

  // ---- parse_int --------------------------------------------------------------

  function DecimalStep(n: uint64, c: char): uint64
    requires IsDigit(c)
  {
    (n * 10 + DigitValue(c)) % TWO64
  }

  /** The decimal reader with its decrease test, one character at a time. */
  function ReadDecimal(str: string): (r: Option<uint64>)
  {
    if str == [] then Some(0) else
      var last := |str| - 1;
      match ReadDecimal(str[..last])
      case None => None
      case Some(n) =>
        if !IsDigit(str[last]) || DecimalStep(n, str[last]) < n then None
        else Some(DecimalStep(n, str[last]))
  }

  method ParseInt(str: string) returns (ok: bool, result: uint64)
    ensures ok <==> ReadDecimal(str).Some?
    ensures ok ==> Some(result) == ReadDecimal(str)
  {
    var min: uint64, n: uint64 := 0, 0;
    assert str[..0] == [];
    for i := 0 to |str|
      invariant min == n && ReadDecimal(str[..i]) == Some(n)
    {
      assert str[..i + 1][..i] == str[..i];
      if !IsDigit(str[i]) {
        Rejected(str, i + 1);
        return false, 0;
      }
      n := DecimalStep(n, str[i]);
      if n < min {
        Rejected(str, i + 1);
        return false, 0;
      }
      min := n;
    }
    assert str[..|str|] == str;
    return true, n;
  }

  lemma {:induction false} Rejected(str: string, i: nat)
    requires i <= |str| && ReadDecimal(str[..i]).None?
    ensures ReadDecimal(str).None?
    decreases |str| - i
  {
    if i == |str| {
      assert str[..i] == str;
    } else {
      assert str[..i + 1][..i] == str[..i];
      Rejected(str, i + 1);
    }
  }

  /** Whatever is accepted is the decimal value reduced modulo 2^64. */
  lemma {:induction false} ReadDecimalModulo(str: string)
    ensures ReadDecimal(str).Some? ==> AllDigits(str) && ReadDecimal(str).value == Eval(Values(str), 10) % TWO64
  {
    if str != [] && ReadDecimal(str).Some? {
      var last := |str| - 1;
      ReadDecimalModulo(str[..last]);
      assert str == str[..last] + [str[last]];
      StepModulo(str);
    } else if str == [] {
      assert Values(str) == [];
    }
  }

  lemma StepModulo(str: string)
    requires str != [] && AllDigits(str)
    ensures AllDigits(str[..|str| - 1])
    ensures Eval(Values(str), 10) == Eval(Values(str[..|str| - 1]), 10) * 10 + DigitValue(str[|str| - 1])
    ensures DecimalStep(Eval(Values(str[..|str| - 1]), 10) % TWO64, str[|str| - 1]) == Eval(Values(str), 10) % TWO64
  {
    var last := |str| - 1;
    assert Values(str)[..last] == Values(str[..last]);
    var e := Eval(Values(str[..last]), 10);
    var d := DigitValue(str[last]);
    assert e == e / TWO64 * TWO64 + e % TWO64;
    ModAddMultiple(e % TWO64 * 10 + d, e / TWO64 * 10, TWO64);
  }

  lemma EvalNothing(d: seq<nat>)
    ensures d == [] ==> Eval(d, 10) == 0
  {
  }

  lemma AppendExact(e: nat, d: nat, n: nat)
    requires n == e * 10 + d < TWO64
    ensures e <= n && e % TWO64 == e && n % TWO64 == n
  {
  }

  /** Every decimal below 2^64 is accepted, exactly. */
  lemma {:induction false} ReadDecimalExact(str: string)
    requires AllDigits(str) && Eval(Values(str), 10) < TWO64
    ensures ReadDecimal(str) == Some(Eval(Values(str), 10))
  {
    hide Eval, Values, DecimalStep, DigitValue;
    if str == [] {
      EvalNothing(Values(str));
    } else {
      var head := str[..|str| - 1];
      StepModulo(str);
      AppendExact(Eval(Values(head), 10), DigitValue(str[|str| - 1]), Eval(Values(str), 10));
      ReadDecimalExact(head);
    }
  }

  /** The first k digits, as the reader holds them. */
  ghost function Reduced(str: string, k: nat): nat
    requires AllDigits(str) && k <= |str|
  {
    Eval(Values(str[..k]), 10) % TWO64
  }

  /** No digit makes the reduced value smaller. */
  ghost predicate NeverDecreases(str: string)
    requires AllDigits(str)
  {
    forall k :: 0 <= k < |str| ==> Reduced(str, k) <= Reduced(str, k + 1)
  }

  lemma NeverDecreasesStep(str: string)
    requires str != [] && AllDigits(str)
    ensures
      var last := |str| - 1;
      NeverDecreases(str) <==> NeverDecreases(str[..last]) && Reduced(str[..last], last) <= Reduced(str, |str|)
  {
    hide Eval, Values, IsDigit;
    var head := str[..|str| - 1];
    assert forall k :: 0 <= k <= |head| ==> head[..k] == str[..k];
    assert forall k :: 0 <= k <= |head| ==> Reduced(head, k) == Reduced(str, k);
    assert Reduced(str, |head|) <= Reduced(str, |head| + 1) <==> Reduced(head, |head|) <= Reduced(str, |str|);
  }

  /** A text is accepted if and only if it consists of digits and none of its
      prefixes is smaller than a shorter one, reduced modulo 2^64. */
  lemma {:induction false} ReadDecimalAccepts(str: string)
    ensures ReadDecimal(str).Some? <==> AllDigits(str) && NeverDecreases(str)
  {
    hide Eval, Values, IsDigit, Reduced, NeverDecreases, DecimalStep;
    if str == [] {
      NothingDecreases(str);
    } else {
      var head := str[..|str| - 1];
      ReadDecimalAccepts(head);
      assert AllDigits(str) <==> AllDigits(head) && IsDigit(str[|str| - 1]);
      if AllDigits(str) {
        NeverDecreasesStep(str);
        StepReduced(str);
        ReadDecimalModulo(head);
        WholeReduced(head);
      }
    }
  }

  lemma NothingDecreases(str: string)
    ensures str == [] ==> NeverDecreases(str)
  {
  }

  lemma WholeReduced(str: string)
    requires AllDigits(str)
    ensures Reduced(str, |str|) == Eval(Values(str), 10) % TWO64
  {
    assert str[..|str|] == str;
  }

  lemma StepReduced(str: string)
    requires str != [] && AllDigits(str)
    ensures
      var last := |str| - 1;
      DecimalStep(Reduced(str[..last], last), str[last]) == Reduced(str, |str|)
  {
    hide Eval, Values, DecimalStep;
    StepModulo(str);
    WholeReduced(str);
    WholeReduced(str[..|str| - 1]);
  }

  /** The first digit that leads past 2^64 is noticed if and only if the reduced
      value is below a tenth of the true one. */
  lemma OverflowNoticed(str: string)
    requires str != [] && AllDigits(str) && AllDigits(str[..|str| - 1])
    requires Eval(Values(str[..|str| - 1]), 10) < TWO64
    ensures ReadDecimal(str).None? <==> Eval(Values(str), 10) % TWO64 < Eval(Values(str), 10) / 10
  {
    hide Eval, Values, DecimalStep, DigitValue;
    var head := str[..|str| - 1];
    StepModulo(str);
    ReadDecimalExact(head);
    DecimalDigit(str[|str| - 1]);
    AppendQuotient(Eval(Values(head), 10), DigitValue(str[|str| - 1]));
  }

  lemma DecimalDigit(c: char)
    requires IsDigit(c)
    ensures DigitValue(c) < 10
  {
  }

  lemma AppendQuotient(e: nat, d: nat)
    requires d < 10
    ensures (e * 10 + d) / 10 == e && (e < TWO64 ==> e % TWO64 == e)
  {
  }

  /** A decimal is stored as itself if and only if it is below 2^64. */
  lemma ReadDecimalExactIff(str: string)
    requires AllDigits(str)
    ensures (ReadDecimal(str).Some? && ReadDecimal(str).value == Eval(Values(str), 10))
      <==> Eval(Values(str), 10) < TWO64
  {
    hide ReadDecimal, Eval, Values;
    if Eval(Values(str), 10) < TWO64 {
      ReadDecimalExact(str);
    }
  }

  /** The decrease test misses overflows: twenty digits above 2^64 are accepted
      and a smaller number is stored. */
  lemma ReadDecimalMissesOverflow()
    ensures var str := "30000000000000000000";
      && AllDigits(str)
      && Eval(Values(str), 10) == 30_000_000_000_000_000_000
      && ReadDecimal(str) == Some(30_000_000_000_000_000_000 - TWO64)
  {
    var str := "30000000000000000000";
    var head := str[..19];
    ThreeAndZeros(head, 18);
    TenToThe18();
    ReadDecimalExact(head);
    StepModulo(str);
  }

  lemma TenToThe18()
    ensures Pow(10, 18) == 1_000_000_000_000_000_000
  {
    assert Pow(10, 6) == 1_000_000;
    hide Pow;
    PowSplit(10, 6, 6);
    PowSplit(10, 6, 12);
  }

  lemma {:induction false} ThreeAndZeros(str: string, zeros: nat)
    requires |str| == zeros + 1 && str[0] == '3' && forall i :: 1 <= i <= zeros ==> str[i] == '0'
    ensures Eval(Values(str), 10) == 3 * Pow(10, zeros)
  {
    StepModulo(str);
    if zeros == 0 {
      assert Values(str[..0]) == [];
    } else {
      ThreeAndZeros(str[..zeros], zeros - 1);
    }
  }

  // ---- gas_to_fee ---------------------------------------------------------------

  const GAS_PER_DATA_BYTE: nat := 1500
  const GAS_PRICE_DIVIDER: nat := 100
  const MIN_GAS_LIMIT: nat := 50000

  /** Gas charged at full price: the base cost and the data bytes. */
  function MoveBalanceGas(dataSize: nat): nat {
    MIN_GAS_LIMIT + GAS_PER_DATA_BYTE * dataSize
  }

  /** The fee formula on plain integers. */
  function FeeFormula(gasLimit: nat, gasPrice: nat, dataSize: nat): int
  {
    (MoveBalanceGas(dataSize) + (gasLimit - MoveBalanceGas(dataSize)) / GAS_PRICE_DIVIDER) * gasPrice
  }

  /** Gas units as the 128-bit code computes them. */
  function ChargedGas(gasLimit: uint64, dataSize: uint32): nat {
    (MoveBalanceGas(dataSize) + (gasLimit - MoveBalanceGas(dataSize)) % TWO128 / GAS_PRICE_DIVIDER) % TWO128
  }

  /** The fee as the 128-bit code computes it. */
  function ChargedFee(gasLimit: uint64, gasPrice: uint64, dataSize: uint32): nat {
    gasPrice * ChargedGas(gasLimit, dataSize) % TWO128
  }

  /** Prints the fee; fails exactly when it needs more than size - 1 digits. */
  method GasToFee(gasLimit: uint64, gasPrice: uint64, dataSize: uint32, fee: array<char>, size: uint32)
    returns (ok: bool)
    requires 2 <= size <= fee.Length
    modifies fee
    ensures ok <==> |Print(ChargedFee(gasLimit, gasPrice, dataSize), 10)| <= size - 1
    ensures ok ==>
      var text := Print(ChargedFee(gasLimit, gasPrice, dataSize), 10);
      fee[..|text|] == text && fee[|text|] == '\0'
    ensures fee[size..] == old(fee[size..])
  {
    var x := new U128(0, GAS_PER_DATA_BYTE);
    var y := new U128(0, dataSize);
    var z := new U128(0, 0);
    ComputeUnits(gasLimit, dataSize, x, y, z);
    ghost var units := ChargedGas(gasLimit, dataSize);
    x.lower := gasPrice;
    Mul(x, y, z);
    assert z.Value() == ChargedFee(gasLimit, gasPrice, dataSize);
    ok := ToString(z, 10, fee, size - 1);
  }

  /** The unit count, left in y. */
  method ComputeUnits(gasLimit: uint64, dataSize: uint32, x: U128, y: U128, z: U128)
    requires x != y && y != z && x != z
    requires x.upper == 0 && x.lower == GAS_PER_DATA_BYTE && y.Value() == dataSize
    modifies x, y, z
    ensures y.Value() == ChargedGas(gasLimit, dataSize) && x.upper == 0
  {
    hide U128.Value, Sum128, Difference128;
    var gasUnitForMoveBalance := new U128(0, 0);
    LowerOnly(x);
    Mul(x, y, z);

    x.lower := MIN_GAS_LIMIT;
    LowerOnly(x);
    Add(x, z, gasUnitForMoveBalance);
    SmallGas(dataSize);

    x.lower := gasLimit;
    LowerOnly(x);
    Minus(x, gasUnitForMoveBalance, y);

    x.lower := GAS_PRICE_DIVIDER;
    LowerOnly(x);
    DivMod(y, x, z, y);

    Add(gasUnitForMoveBalance, z, y);
    UnitsWrap(gasLimit, dataSize);
  }

  lemma LowerOnly(x: U128)
    requires x.upper == 0
    ensures x.Value() == x.lower
  {
  }

  lemma SmallGas(dataSize: uint32)
    ensures Sum128(MIN_GAS_LIMIT, GAS_PER_DATA_BYTE * dataSize % TWO128) == MoveBalanceGas(dataSize)
  {
  }

  lemma UnitsWrap(gasLimit: uint64, dataSize: uint32)
    ensures
      var g := MoveBalanceGas(dataSize);
      Sum128(g, Difference128(gasLimit, g) / GAS_PRICE_DIVIDER) == ChargedGas(gasLimit, dataSize)
  {
  }

  /** The unit count is the documented one exactly when the gas limit covers
      the move-balance gas; below that the subtraction wraps. */
  lemma ChargedGasExact(gasLimit: uint64, dataSize: uint32)
    ensures
      var g := MoveBalanceGas(dataSize);
      ChargedGas(gasLimit, dataSize) == g + (gasLimit - g) / GAS_PRICE_DIVIDER <==> gasLimit >= g
  {
    var g := MoveBalanceGas(dataSize);
    if gasLimit >= g {
      DivModUnique(gasLimit - g, TWO128, 0, gasLimit - g);
    } else {
      DivModUnique(gasLimit - g, TWO128, -1, gasLimit - g + TWO128);
      DivModUnique(ChargedGas(gasLimit, dataSize), TWO128, 0, ChargedGas(gasLimit, dataSize));
    }
  }

  /** With enough gas nothing wraps and the printed number is the fee formula. */
  lemma ChargedFeeExact(gasLimit: uint64, gasPrice: uint64, dataSize: uint32)
    requires gasLimit >= MoveBalanceGas(dataSize)
    ensures ChargedFee(gasLimit, gasPrice, dataSize) == FeeFormula(gasLimit, gasPrice, dataSize)
  {
    ChargedGasExact(gasLimit, dataSize);
    var units := ChargedGas(gasLimit, dataSize);
    assert 0 <= units <= gasLimit;
    MulMono(units, TWO64, gasPrice);
    MulMono(gasPrice, TWO64, TWO64);
    MulMono(0, units, gasPrice);
    DivModUnique(gasPrice * units, TWO128, 0, gasPrice * units);
  }

  /** The fee in numbers: 50000 gas units and 1500 for each byte of data at full
      price, and a hundredth of the rest. */
  lemma FeeInNumbers(gasLimit: uint64, gasPrice: uint64, dataSize: uint32)
    requires gasLimit >= 50_000 + 1_500 * dataSize
    ensures ChargedFee(gasLimit, gasPrice, dataSize) ==
      (50_000 + 1_500 * dataSize + (gasLimit - 50_000 - 1_500 * dataSize) / 100) * gasPrice
  {
    hide ChargedFee;
    ChargedFeeExact(gasLimit, gasPrice, dataSize);
  }
}
