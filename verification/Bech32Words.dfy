/** The checksum step on 32-bit words, as the C code computes it. */
module Bech32Words {
  import opened Words
  import opened BitXor
  import opened Bech32Checksum

  type word = bv32

  // ---- The step ----------------------------------------------------------------------------------

  /** The generator, if the lowest bit is set. */
  function Masked(b: word, generator: word): word {
    if b & 1 == 1 then generator else 0
  }

  /** bech32_polymod_step. */
  function WordStep(pre: word): word {
    WXor(Shifted(pre), WordFeedback(pre >> 25))
  }

  function Shifted(pre: word): word { (pre & 0x1ff_ffff) << 5 }

  function WordFeedback(b: word): word {
    WXor(WXor(WXor(WXor(Masked(b, 0x3b6a57b2), Masked(b >> 1, 0x26508e6d)), Masked(b >> 2, 0x1ea119fa)),
              Masked(b >> 3, 0x3d4233dd)), Masked(b >> 4, 0x2a1462b3))
  }

  function WXor(a: word, b: word): word { a ^ b }

  // ---- Words as numbers --------------------------------------------------------------------------

  function Low(w: word): (b: nat)
    ensures b < 2
  {
    if w & 1 == 1 then 1 else 0
  }

  function Half(w: word): word { w >> 1 }

  /** The number that the lowest n bits stand for. */
  function Num(w: word, n: nat): nat {
    if n == 0 then 0 else 2 * Num(Half(w), n - 1) + Low(w)
  }

  /** The number a register of 30 bits stands for. */
  function Value(w: word): nat { Num(w, 30) }

  lemma NumUnfold(w: word, n: nat)
    ensures n > 0 ==> Num(w, n) == 2 * Num(Half(w), n - 1) + Low(w)
    ensures n == 0 ==> Num(w, n) == 0
  {
  }

  lemma LowXor(a: word, b: word)
    ensures Half(WXor(a, b)) == WXor(Half(a), Half(b))
    ensures Low(WXor(a, b)) == (Low(a) + Low(b)) % 2
  {
  }

  lemma Halves(x: nat, p: nat)
    requires p < 2
    ensures (2 * x + p) / 2 == x && (2 * x + p) % 2 == p % 2
  {
  }

  lemma XorDouble(x: nat, p: nat, y: nat, q: nat)
    requires p < 2 && q < 2
    ensures Xor(2 * x + p, 2 * y + q) == 2 * Xor(x, y) + (p + q) % 2
  {
    hide Xor;
    XorStep(2 * x + p, 2 * y + q);
    Halves(x, p);
    Halves(y, q);
    Parity(2 * x + p, p, 2 * y + q, q);
  }

  /** Exclusive or of words is that of their numbers. */
  lemma {:induction false} NumXor(a: word, b: word, n: nat)
    ensures Num(WXor(a, b), n) == Xor(Num(a, n), Num(b, n))
    decreases n
  {
    hide Xor, Num, Low, Half, WXor;
    NumUnfold(WXor(a, b), n);
    NumUnfold(a, n);
    NumUnfold(b, n);
    if n == 0 {
      XorZero(0);
    } else {
      NumXor(Half(a), Half(b), n - 1);
      LowXor(a, b);
      XorDouble(Num(Half(a), n - 1), Low(a), Num(Half(b), n - 1), Low(b));
    }
  }

  // ---- Five bits at a time -----------------------------------------------------------------------

  function Up(w: word): word { w >> 5 }

  /** The lowest five bits. */
  function Digit(w: word): (d: nat)
    ensures d < 32
  {
    Low(w) + 2 * Low(w >> 1) + 4 * Low(w >> 2) + 8 * Low(w >> 3) + 16 * Low(w >> 4)
  }

  lemma HalfHalf(w: word)
    ensures Half(w) == w >> 1 && Half(Half(w)) == w >> 2 && Half(Half(Half(w))) == w >> 3
    ensures Half(Half(Half(Half(w)))) == w >> 4 && Half(Half(Half(Half(Half(w))))) == Up(w)
  {
  }

  lemma OneDigit(w: word)
    ensures Digit(w) == Low(w) + 2 * Low(Half(w)) + 4 * Low(Half(Half(w))) + 8 * Low(Half(Half(Half(w))))
      + 16 * Low(Half(Half(Half(Half(w)))))
  {
    hide Low;
    HalfHalf(w);
  }

  lemma NextDigit(w: word, n: nat)
    requires n >= 5
    ensures Num(w, n) == 32 * Num(Up(w), n - 5) + Digit(w)
  {
    hide Num, Low, Half, Up, Digit;
    OneDigit(w);
    HalfHalf(w);
    NumUnfold(w, n);
    NumUnfold(Half(w), n - 1);
    NumUnfold(Half(Half(w)), n - 2);
    NumUnfold(Half(Half(Half(w))), n - 3);
    NumUnfold(Half(Half(Half(Half(w)))), n - 4);
  }

  function Up2(w: word): word { Up(Up(w)) }

  function Up4(w: word): word { Up2(Up2(w)) }

  /** The lowest 25 bits and the five above them. */
  lemma SixDigits(w: word)
    ensures Value(w) == Digit(Up4(Up(w))) * TWO25 + Lowest(w) && Lowest(w) < TWO25
  {
    hide Num, Up, Digit;
    NextDigit(w, 30);
    NextDigit(Up(w), 25);
    NextDigit(Up2(w), 20);
    NextDigit(Up(Up2(w)), 15);
    NextDigit(Up4(w), 10);
    NextDigit(Up4(Up(w)), 5);
    NumUnfold(Up(Up4(Up(w))), 0);
  }

  function Lowest(w: word): nat {
    (((Digit(Up4(w)) * 32 + Digit(Up(Up2(w)))) * 32 + Digit(Up2(w))) * 32 + Digit(Up(w))) * 32 + Digit(w)
  }

  lemma SplitValue(w: word)
    ensures Value(w) / TWO25 == Digit(Up4(Up(w))) && Value(w) % TWO25 == Lowest(w)
  {
    hide Value, Digit, Lowest;
    SixDigits(w);
    DivModUnique(Value(w), TWO25, Digit(Up4(Up(w))), Lowest(w));
  }

  // ---- The step refines the one on numbers -------------------------------------------------------

  lemma SameDigit(a: word, b: word)
    requires a & 31 == b & 31
    ensures Digit(a) == Digit(b)
  {
    LowFive(a, b);
  }

  lemma LowFive(a: word, b: word)
    requires a & 31 == b & 31
    ensures Low(a) == Low(b) && Low(a >> 1) == Low(b >> 1) && Low(a >> 2) == Low(b >> 2)
    ensures Low(a >> 3) == Low(b >> 3) && Low(a >> 4) == Low(b >> 4)
  {
  }

  lemma ShiftedDigits(w: word)
    ensures Shifted(w) & 31 == (0 as word) & 31 && Up(Shifted(w)) & 31 == w & 31
    ensures Up2(Shifted(w)) & 31 == Up(w) & 31 && Up(Up2(Shifted(w))) & 31 == Up2(w) & 31
    ensures Up4(Shifted(w)) & 31 == Up(Up2(w)) & 31 && Up4(Up(Shifted(w))) & 31 == Up4(w) & 31
  {
  }

  lemma ZeroDigit()
    ensures Digit(0) == 0
  {
  }

  lemma ShiftedSix(w: word)
    ensures Digit(Shifted(w)) == 0 && Digit(Up(Shifted(w))) == Digit(w) && Digit(Up2(Shifted(w))) == Digit(Up(w))
    ensures Digit(Up(Up2(Shifted(w)))) == Digit(Up2(w)) && Digit(Up4(Shifted(w))) == Digit(Up(Up2(w)))
    ensures Digit(Up4(Up(Shifted(w)))) == Digit(Up4(w))
  {
    hide Digit, Shifted, Up, Up2, Up4;
    ShiftedDigits(w);
    SameDigit(Shifted(w), 0);
    SameDigit(Up(Shifted(w)), w);
    SameDigit(Up2(Shifted(w)), Up(w));
    SameDigit(Up(Up2(Shifted(w))), Up2(w));
    SameDigit(Up4(Shifted(w)), Up(Up2(w)));
    SameDigit(Up4(Up(Shifted(w))), Up4(w));
    ZeroDigit();
  }

  /** The shift drops the five highest bits. */
  lemma ShiftedValue(w: word)
    ensures Value(Shifted(w)) == Value(w) % TWO25 * 32
  {
    hide Value, Digit, Shifted, Up, Up2, Up4;
    ShiftedSix(w);
    SixDigits(Shifted(w));
    SplitValue(w);
    RoomBelow(Digit(Up4(w)), Digit(Up(Up2(w))), Digit(Up2(w)), Digit(Up(w)), Digit(w));
  }

  lemma RoomBelow(d4: nat, d3: nat, d2: nat, d1: nat, d0: nat)
    ensures d4 * TWO25 + ((((d3 * 32 + d2) * 32 + d1) * 32 + d0) * 32 + 0)
      == ((((d4 * 32 + d3) * 32 + d2) * 32 + d1) * 32 + d0) * 32
  {
  }

  /** A word given by its digits, the highest first. */
  lemma Known(w: word, d5: nat, d4: nat, d3: nat, d2: nat, d1: nat, d0: nat)
    requires Digit(w >> 25) == d5 && Digit(w >> 20) == d4 && Digit(w >> 15) == d3 && Digit(w >> 10) == d2
    requires Digit(w >> 5) == d1 && Digit(w) == d0
    ensures Value(w) == ((((d5 * 32 + d4) * 32 + d3) * 32 + d2) * 32 + d1) * 32 + d0
  {
    hide Value, Digit;
    Ups(w);
    SixDigits(w);
  }

  lemma Ups(w: word)
    ensures Up(w) == w >> 5 && Up2(w) == w >> 10 && Up(Up2(w)) == w >> 15 && Up4(w) == w >> 20 && Up4(Up(w)) == w >> 25
  {
  }

  /** The five generators stand for themselves. */
  lemma Generators()
    ensures Value(0x3b6a57b2) == 0x3b6a57b2 && Value(0x26508e6d) == 0x26508e6d && Value(0x1ea119fa) == 0x1ea119fa
    ensures Value(0x3d4233dd) == 0x3d4233dd && Value(0x2a1462b3) == 0x2a1462b3 && Value(0) == 0
  {
    hide Value;
    Known(0x3b6a57b2, 29, 22, 20, 21, 29, 18);
    Known(0x26508e6d, 19, 5, 1, 3, 19, 13);
    Known(0x1ea119fa, 15, 10, 2, 6, 15, 26);
    Known(0x3d4233dd, 30, 20, 4, 12, 30, 29);
    Known(0x2a1462b3, 21, 1, 8, 24, 21, 19);
    Known(0, 0, 0, 0, 0, 0, 0);
  }

  lemma DigitBits(b: word)
    ensures Digit(b) % 2 == Low(b) && Digit(b) / 2 % 2 == Low(b >> 1) && Digit(b) / 4 % 2 == Low(b >> 2)
    ensures Digit(b) / 8 % 2 == Low(b >> 3) && Digit(b) / 16 % 2 == Low(b >> 4)
  {
    hide Low;
    FiveBits(Low(b), Low(b >> 1), Low(b >> 2), Low(b >> 3), Low(b >> 4));
  }

  lemma FiveBits(b0: nat, b1: nat, b2: nat, b3: nat, b4: nat)
    requires b0 < 2 && b1 < 2 && b2 < 2 && b3 < 2 && b4 < 2
    ensures
      var n := b0 + 2 * b1 + 4 * b2 + 8 * b3 + 16 * b4;
      n % 2 == b0 && n / 2 % 2 == b1 && n / 4 % 2 == b2 && n / 8 % 2 == b3 && n / 16 % 2 == b4
  {
    var n := b0 + 2 * b1 + 4 * b2 + 8 * b3 + 16 * b4;
    DivModUnique(n, 2, b1 + 2 * b2 + 4 * b3 + 8 * b4, b0);
    DivModUnique(n, 4, b2 + 2 * b3 + 4 * b4, b0 + 2 * b1);
    DivModUnique(n, 8, b3 + 2 * b4, b0 + 2 * b1 + 4 * b2);
    DivModUnique(n, 16, b4, b0 + 2 * b1 + 4 * b2 + 8 * b3);
    Halves(b2 + 2 * b3 + 4 * b4, b1);
    Halves(b3 + 2 * b4, b2);
    Halves(b4, b3);
  }

  lemma MaskedValue(b: word, generator: word)
    requires Value(0) == 0
    ensures Value(Masked(b, generator)) == Tap(Low(b), Value(generator))
  {
    hide Value;
  }

  lemma FeedbackValue(b: word)
    ensures Value(WordFeedback(b)) == Feedback(Digit(b))
  {
    hide Xor, Num, Digit, WXor, Low, Masked;
    Generators();
    DigitBits(b);
    var g0, g1, g2 := Masked(b, 0x3b6a57b2), Masked(b >> 1, 0x26508e6d), Masked(b >> 2, 0x1ea119fa);
    var g3, g4 := Masked(b >> 3, 0x3d4233dd), Masked(b >> 4, 0x2a1462b3);
    NumXor(g0, g1, 30);
    NumXor(WXor(g0, g1), g2, 30);
    NumXor(WXor(WXor(g0, g1), g2), g3, 30);
    NumXor(WXor(WXor(WXor(g0, g1), g2), g3), g4, 30);
    MaskedValue(b, 0x3b6a57b2);
    MaskedValue(b >> 1, 0x26508e6d);
    MaskedValue(b >> 2, 0x1ea119fa);
    MaskedValue(b >> 3, 0x3d4233dd);
    MaskedValue(b >> 4, 0x2a1462b3);
  }

  lemma TopFive(w: word)
    ensures Up4(Up(w)) == w >> 25
  {
  }

  /** On every register the word step computes the step of the checksum. */
  lemma WordStepExact(w: word)
    ensures Value(WordStep(w)) == PolymodStep(Value(w))
  {
    hide Xor, Num, Digit, WXor, Shifted, WordFeedback, Feedback, Lowest;
    ShiftedValue(w);
    SplitValue(w);
    TopFive(w);
    FeedbackValue(w >> 25);
    NumXor(Shifted(w), WordFeedback(w >> 25), 30);
  }
}
