/** Printing a 32-bit length in decimal. */
module DecimalText {
  import opened Words
  import opened Numerals
  import opened CStrings

  /** Digit i of a number of n digits is what its place value divides out. */
  lemma {:induction false} DigitAt(v: nat, i: nat)
    requires i < |Digits(v, 10)|
    ensures Pow(10, |Digits(v, 10)| - 1 - i) > 0
    ensures Digits(v, 10)[i] == v / Pow(10, |Digits(v, 10)| - 1 - i) % 10
    decreases v
  {
    var d := Digits(v, 10);
    PowPositive(|d| - 1 - i);
    if v >= 10 {
      QuotientShrinks(v, 10);
      if i < |d| - 1 {
        DigitAt(v / 10, i);
        DivideTwice(v, 10, Pow(10, |d| - 2 - i));
      } else {
        assert Pow(10, 0) == 1;
      }
    } else {
      assert Pow(10, 0) == 1;
    }
  }

  lemma {:induction false} PowPositive(n: nat)
    ensures Pow(10, n) > 0
  {
    if n > 0 {
      PowAtLeast(10, n);
    }
  }

  lemma DivideTwice(v: nat, a: nat, b: nat)
    requires a > 0 && b > 0
    ensures a * b > 0 && v / a / b == v / (a * b)
  {
    MulMono(1, a, b);
    var q, r := v / a, v % a;
    var q', r' := q / b, q % b;
    Distribute(q' * b, r', a);
    Associate(q', b, a);
    MulMono(r' + 1, b, a);
    Distribute(r', 1, a);
    assert v == q * a + r && q == q' * b + r';
    DivModUnique(v, a * b, q', r' * a + r);
  }

  /** The next power of ten, computed in 32 bits, is at most the number and
      divides back exactly when the true one is at most the number. */
  lemma NextPower(index: nat, v: uint32)
    requires 1 <= index <= v || index == 1
    requires IsTen(index)
    ensures
      var next := index * 10 % TWO32;
      (next <= v && next / 10 == index) <==> index * 10 <= v
    ensures index * 10 <= v ==> IsTen(index * 10)
  {
    if index == 1_000_000_000 {
      assert 10_000_000_000 % TWO32 == 1_410_065_408;
    } else {
      DivModUnique(index * 10, TWO32, 0, index * 10);
    }
  }

  /** The powers of ten below 2^32. */
  predicate IsTen(n: nat) {
    || n == 1 || n == 10 || n == 100 || n == 1_000 || n == 10_000 || n == 100_000 || n == 1_000_000
    || n == 10_000_000 || n == 100_000_000 || n == 1_000_000_000
  }

  /** The highest place value of a number's decimal form. */
  method HighestPlace(input: uint32) returns (index: uint32)
    ensures index == Pow(10, |Digits(input, 10)| - 1)
  {
    index := 1;
    ghost var k := 0;
    while index * 10 % TWO32 <= input && index * 10 % TWO32 / 10 == index
      invariant index == Pow(10, k) && IsTen(index) && (index == 1 || index <= input)
      decreases input - index
    {
      NextPower(index, input);
      index := index * 10 % TWO32;
      k := k + 1;
    }
    NextPower(index, input);
    assert Pow(10, k + 1) == 10 * Pow(10, k);
    DigitCount(input, 10, k + 1);
    if k > 0 {
      DigitCount(input, 10, k);
    }
  }

  /** uint32_t_to_char_array: the exact decimal form, at most ten digits and the
      terminator. */
  method UintToText(input: uint32, output: array<char>)
    requires output.Length >= 11
    modifies output
    ensures |Print(input, 10)| <= 10
    ensures Holds(output[..], Print(input, 10))
  {
    hide Digits;
    ghost var text := Print(input, 10);
    PrintedDigits(input);
    var index := HighestPlace(input);
    PowPositive(|text| - 1);
    var pos := 0;
    while index > 0
      invariant pos <= |text|
      invariant index == if pos == |text| then 0 else Pow(10, |text| - 1 - pos)
      invariant output[..pos] == text[..pos] && (pos < |text| ==> index > 0)
      decreases |text| - pos
    {
      PrintedDigit(input, pos);
      ghost var before := output[..pos];
      output[pos] := ('0' as int + input / index % 10) as char;
      assert output[..pos + 1] == before + [text[pos]];
      index := index / 10;
      pos := pos + 1;
    }
    output[pos] := '\0';
    assert output[..pos] == text;
  }

  lemma PrintedDigits(v: uint32)
    ensures 1 <= |Print(v, 10)| <= 10 && '\0' !in Print(v, 10)
    ensures |Digits(v, 10)| == |Print(v, 10)|
  {
    DigitsCanonical(v, 10);
    DigitCount(v, 10, 10);
    PowSplit(10, 5, 5);
  }

  /** A printed digit and the place value after it. */
  lemma PrintedDigit(v: uint32, i: nat)
    requires i < |Print(v, 10)|
    ensures Pow(10, |Print(v, 10)| - 1 - i) > 0
    ensures
      var p := Pow(10, |Print(v, 10)| - 1 - i);
      && v / p % 10 < 10
      && Print(v, 10)[i] == ('0' as int + v / p % 10) as char
      && p / 10 == (if i + 1 == |Print(v, 10)| then 0 else Pow(10, |Print(v, 10)| - 2 - i))
      && (i + 1 < |Print(v, 10)| ==> p / 10 > 0)
  {
    hide Digits;
    DigitsCanonical(v, 10);
    DigitAt(v, i);
    var n := |Print(v, 10)| - 1 - i;
    if n > 0 {
      PowPositive(n - 1);
      DivModUnique(Pow(10, n), 10, Pow(10, n - 1), 0);
    }
  }
}
