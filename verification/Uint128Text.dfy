/** Printing 128-bit numbers in base 2 to 16 and reading hexadecimal. */
module Uint128Text {
  import opened Words
  import opened Limbs
  import opened Numerals
  import opened Uint128

  function Reversed<T>(s: seq<T>): (r: seq<T>)
    ensures |r| == |s| && forall i :: 0 <= i < |s| ==> r[i] == s[|s| - 1 - i]
  {
    seq(|s|, i requires 0 <= i < |s| => s[|s| - 1 - i])
  }

  /** reverseString. The last index is computed modulo 2^32, so length 0 stands
      for 2^32 characters; it stops where the text would be exceeded. */
  method ReverseString(str: array<char>, length: uint32) returns (overrun: bool)
    modifies str
    ensures
      var n := Reach(length);
      && (overrun <==> n > str.Length)
      && (!overrun ==> str[..n] == Reversed(old(str[..n])) && str[n..] == old(str[n..]))
  {
    if (length - 1) % TWO32 >= str.Length {
      return true;
    }
    SwapEnds(str, Reach(length));
    return false;
  }

  /** The number of characters reversed. */
  function Reach(length: uint32): (n: nat)
    ensures length > 0 ==> n == length
  {
    (length - 1) % TWO32 + 1
  }

  method SwapEnds(str: array<char>, length: nat)
    requires 1 <= length <= str.Length
    modifies str
    ensures str[..length] == Reversed(old(str[..length]))
    ensures str[length..] == old(str[length..])
  {
    var i, j := 0, length - 1;
    while i < j
      invariant 0 <= i && j == length - 1 - i && i <= j + 1
      invariant forall k :: 0 <= k < i ==> str[k] == old(str[length - 1 - k]) && str[length - 1 - k] == old(str[k])
      invariant forall k :: i <= k <= j ==> str[k] == old(str[k])
      invariant forall k :: length <= k < str.Length ==> str[k] == old(str[k])
    {
      str[i], str[j] := str[j], str[i];
      i, j := i + 1, j - 1;
    }
    forall k | 0 <= k < length ensures str[k] == old(str[length - 1 - k]) {
      if k > j {
        assert str[length - 1 - (length - 1 - k)] == old(str[length - 1 - k]);
      }
    }
  }

  /** The digits still to come from the quotient, then those written so far. */
  ghost predicate Written(n: nat, base: nat, rest: nat, done: seq<char>)
    requires 2 <= base <= 16
  {
    if rest == 0 then
      Print(n, base) == Reversed(done)
    else
      Print(n, base) == Print(rest, base) + Reversed(done)
  }

  /** Writing one more digit. */
  lemma WriteDigit(n: nat, base: nat, rest: nat, done: seq<char>)
    requires 2 <= base <= 16
    requires if done == [] then rest == n else rest != 0 && Written(n, base, rest, done)
    ensures 0 <= rest / base && 0 <= rest % base < base
    ensures Written(n, base, rest / base, done + [HEXDIGITS[rest % base]])
    ensures |done| < |Print(n, base)|
  {
    var c := HEXDIGITS[rest % base];
    assert Reversed(done + [c]) == [c] + Reversed(done);
    DigitsCanonical(rest, base);
    if rest < base {
      DivModUnique(rest, base, 0, rest);
      assert Print(rest, base) == [c];
    } else {
      QuotientShrinks(rest, base);
      DigitsCanonical(rest / base, base);
      assert Print(rest, base) == Print(rest / base, base) + [c];
    }
    assert Print(n, base) == Print(rest, base) + Reversed(done);
  }

  /** Room for the digits: as many as allowed, or any number of 128 bits. */
  function Limit(outLength: uint32): nat {
    if outLength == 0 then 128 else outLength
  }

  lemma {:induction false} PowGrows(base: nat, n: nat)
    requires base >= 2
    ensures Pow2(n) <= Pow(base, n)
  {
    if n > 0 {
      PowGrows(base, n - 1);
      MulMono(2, base, Pow(base, n - 1));
    }
  }

  lemma BinaryDigits(n: nat, base: nat)
    requires n < TWO128 && 2 <= base <= 16
    ensures |Print(n, base)| <= 128
  {
    hide Digits, Pow;
    DigitsCanonical(n, base);
    PowGrows(base, 128);
    Pow2Word128();
    DigitCount(n, base, 128);
  }

  /** What the digits still to come and the buffer say together. */
  ghost predicate Printing(n: nat, base: nat, rest: nat, done: seq<char>)
    requires 2 <= base <= 16
  {
    && |done| <= |Print(n, base)|
    && if done == [] then rest == n else rest != 0 && Written(n, base, rest, done)
  }

  /** Prints a number; succeeds exactly when its digits fit in outLength, where 0
      is no limit. One more character may be written, for the terminator. */
  method ToString(number: U128, baseParam: uint32, out: array<char>, outLength: uint32) returns (ok: bool)
    requires Limit(outLength) < out.Length
    modifies out
    ensures ok <==>
      2 <= baseParam <= 16 && (outLength == 0 || |Print(number.Value(), baseParam)| <= outLength)
    ensures ok ==>
      var text := Print(number.Value(), baseParam);
      && |text| <= Limit(outLength)
      && out[..|text|] == text
      && out[|text|] == '\0'
      && out[|text| + 1..] == old(out[|text| + 1..])
    ensures out[Limit(outLength) + 1..] == old(out[Limit(outLength) + 1..])
  {
    if baseParam < 2 || baseParam > 16 {
      return false;
    }
    var offset;
    ok, offset := WriteDigits(number, baseParam, out, outLength);
    if ok {
      FinishText(out, offset, Print(number.Value(), baseParam));
    }
  }

  /** The digits, last one first. */
  method WriteDigits(number: U128, baseParam: uint32, out: array<char>, outLength: uint32)
    returns (ok: bool, offset: nat)
    requires Limit(outLength) < out.Length && 2 <= baseParam <= 16
    modifies out
    ensures offset <= Limit(outLength) && out[offset..] == old(out[offset..])
    ensures ok <==> outLength == 0 || |Print(number.Value(), baseParam)| <= outLength
    ensures ok ==> 1 <= offset && Reversed(out[..offset]) == Print(number.Value(), baseParam)
  {
    hide Written, U128.Value, Print, Reversed, Pow;
    var rDiv := new U128(0, 0);
    var rMod := new U128(0, 0);
    var base := new U128(0, baseParam);
    Copy(rDiv, number);
    ghost var n := number.Value();
    BinaryDigits(n, baseParam);
    offset := 0;
    while true
      invariant fresh(rDiv) && fresh(rMod) && fresh(base) && rDiv != rMod && base != rDiv && base != rMod
      invariant base.Value() == baseParam && number.Value() == n
      invariant offset <= Limit(outLength)
      invariant Printing(n, baseParam, rDiv.Value(), out[..offset])
      invariant out[offset..] == old(out[offset..])
      decreases |Print(n, baseParam)| - offset
    {
      ghost var rest, done := rDiv.Value(), out[..offset];
      WriteDigit(n, baseParam, rest, done);
      if offset > (outLength - 1) % TWO32 {
        return false, offset;
      }
      PutDigit(rDiv, base, rMod, baseParam, out, offset);
      offset := offset + 1;
      assert out[offset..] == old(out[offset - 1..])[1..];
      if Zero(rDiv) {
        break;
      }
      PrintingOn(n, baseParam, rDiv.Value(), out[..offset]);
    }
    PrintedAll(n, baseParam, out[..offset]);
    return true, offset;
  }

  /** Divides by the base; the remainder is the next digit. */
  method NextDigit(rDiv: U128, base: U128, rMod: U128, baseParam: uint32) returns (digit: nat)
    requires rDiv != rMod && base != rDiv && base != rMod && base.Value() == baseParam && 2 <= baseParam <= 16
    modifies rDiv, rMod
    ensures base.Value() == baseParam
    ensures digit == old(rDiv.Value()) % baseParam < 16 && rDiv.Value() == old(rDiv.Value()) / baseParam
  {
    hide U128.Value;
    DivMod(rDiv, base, rDiv, rMod);
    SmallValue(rMod, baseParam);
    digit := rMod.lower;
  }

  /** Writes the next digit behind those already there. */
  method PutDigit(rDiv: U128, base: U128, rMod: U128, baseParam: uint32, out: array<char>, offset: nat)
    requires rDiv != rMod && base != rDiv && base != rMod && base.Value() == baseParam && 2 <= baseParam <= 16
    requires offset < out.Length
    modifies rDiv, rMod, out
    ensures base.Value() == baseParam && rDiv.Value() == old(rDiv.Value()) / baseParam
    ensures out[..offset + 1] == old(out[..offset]) + [HEXDIGITS[old(rDiv.Value()) % baseParam]]
    ensures out[offset + 1..] == old(out[offset..])[1..]
  {
    hide U128.Value;
    var digit := NextDigit(rDiv, base, rMod, baseParam);
    out[offset] := HEXDIGITS[digit];
  }

  lemma SmallValue(u: U128, base: nat)
    ensures u.Value() < base <= 16 ==> u.upper == 0 && u.Value() == u.lower
  {
    if u.Value() < base <= 16 {
      RemainderFits(u.upper, u.lower, base);
    }
  }

  lemma PrintingOn(n: nat, base: nat, rest: nat, done: seq<char>)
    requires 2 <= base <= 16 && done != [] && rest != 0 && Written(n, base, rest, done)
    ensures Printing(n, base, rest, done) && |done| < |Print(n, base)|
  {
    PrintNonempty(rest, base);
  }

  lemma PrintedAll(n: nat, base: nat, done: seq<char>)
    requires 2 <= base <= 16 && Written(n, base, 0, done)
    ensures Reversed(done) == Print(n, base) && |done| == |Print(n, base)|
  {
  }

  /** Terminates the digits and brings them in order. */
  method FinishText(out: array<char>, offset: uint32, ghost text: string)
    requires 1 <= offset < out.Length && Reversed(out[..offset]) == text
    modifies out
    ensures out[..offset] == text && |text| == offset && out[offset] == '\0'
    ensures out[offset + 1..] == old(out[offset + 1..])
  {
    hide Reach;
    ghost var done, tail := out[..offset], out[offset + 1..];
    out[offset] := '\0';
    assert out[..offset] == done && out[offset + 1..] == tail;
    ghost var rest := out[offset..];
    var _ := ReverseString(out, offset);
    assert out[offset] == rest[0] && out[offset + 1..] == rest[1..];
  }

  lemma RemainderFits(u: uint64, l: uint64, base: nat)
    requires u * TWO64 + l < base <= 16
    ensures u == 0
  {
  }

  lemma PrintNonempty(n: nat, base: nat)
    requires 2 <= base <= 16
    ensures |Print(n, base)| >= 1
  {
  }

  // ---- Hexadecimal input -----------------------------------------------------

  ghost predicate AllHex(str: string) {
    forall i :: 0 <= i < |str| ==> IsHexDigit(str[i])
  }

  /** Reads hexadecimal digits of either case, modulo 2^128; on any other
      character nothing is stored. */
  method ParseHex(str: string, result: U128) returns (ok: bool)
    modifies result
    ensures ok <==> AllHex(str)
    ensures ok ==> result.Value() == Eval(Values(str), 16) % TWO128
    ensures !ok ==> result.Value() == old(result.Value())
  {
    hide U128.Value, Sum128, Shl128;
    var n := new U128(0, 0);
    var tmp := new U128(0, 0);
    assert Values(str[..0]) == [];
    for i := 0 to |str|
      invariant fresh(n) && fresh(tmp) && n != tmp
      invariant result.Value() == old(result.Value())
      invariant AllHex(str[..i])
      invariant n.Value() == Eval(Values(str[..i]), 16) % TWO128
    {
      if !IsHexDigit(str[i]) {
        return false;
      }
      var digit := new U128(0, DigitValue(str[i]));
      ghost var e: nat := Eval(Values(str[..i]), 16);
      AppendHex(str, i, n.Value());
      ShiftL(n, 4, tmp);
      Add(tmp, digit, n);
    }
    assert str[..|str|] == str;
    Copy(result, n);
    return true;
  }

  lemma AppendHex(str: string, i: nat, v: nat)
    requires i < |str| && AllHex(str[..i]) && IsHexDigit(str[i])
    requires v == Eval(Values(str[..i]), 16) % TWO128
    ensures AllHex(str[..i + 1])
    ensures Sum128(Shl128(v, 4), DigitValue(str[i])) == Eval(Values(str[..i + 1]), 16) % TWO128
  {
    var e: nat := Eval(Values(str[..i]), 16);
    var d := Values(str[..i + 1]);
    assert d[..|d| - 1] == Values(str[..i]);
    assert Eval(d, 16) == e * 16 + DigitValue(str[i]);
    assert Pow2(4) == 16;
    var k := e / TWO128;
    ModAddInner(v * 16, DigitValue(str[i]), TWO128);
    ModAddMultiple(v * 16 + DigitValue(str[i]), k * 16, TWO128);
  }

  /** Up to 32 hexadecimal digits are read exactly. */
  lemma ParseHexExact(str: string)
    requires AllHex(str) && |str| <= 32
    ensures Eval(Values(str), 16) % TWO128 == Eval(Values(str), 16)
  {
    EvalBound(Values(str), 16);
    HexDigits32();
    PowMono(16, |str|, 32);
    DivModUnique(Eval(Values(str), 16), TWO128, 0, Eval(Values(str), 16));
  }

  lemma HexDigits32()
    ensures Pow(16, 32) == TWO128
  {
    PowSplit(16, 4, 4);
    PowSplit(16, 8, 8);
    PowSplit(16, 16, 16);
  }

  /** The printed hexadecimal form of any 128-bit number reads back as itself. */
  lemma PrintParseHex(n: nat)
    requires n < TWO128
    ensures AllHex(Print(n, 16))
    ensures Eval(Values(Print(n, 16)), 16) % TWO128 == n
  {
    PrintRead(n, 16);
    DivModUnique(n, TWO128, 0, n);
  }
}
