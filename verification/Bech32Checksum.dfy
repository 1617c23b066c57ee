/** The Bech32 checksum of BIP-173: a linear map on 30-bit states over GF(2). */
module Bech32Checksum {
  import opened Words
  import opened BitXor
  import opened Numerals

  type symbol = v: int | 0 <= v < 32

  const TWO25: nat := 0x200_0000
  const TWO30: nat := 0x4000_0000

  /** Contents of the checksum register. */
  type state = s: int | 0 <= s < 0x4000_0000

  /** The generator, if the lowest bit is set. */
  function Tap(b: nat, generator: nat): nat {
    if b % 2 == 1 then generator else 0
  }

  /** What the five bits shifted out of the register feed back. */
  function Feedback(b: nat): nat {
    Xor(Xor(Xor(Xor(Tap(b, 0x3b6a57b2), Tap(b / 2, 0x26508e6d)), Tap(b / 4, 0x1ea119fa)),
            Tap(b / 8, 0x3d4233dd)), Tap(b / 16, 0x2a1462b3))
  }

  function PolymodStep(pre: nat): nat {
    Xor(pre % TWO25 * 32, Feedback(pre / TWO25))
  }

  // ---- Linearity -----------------------------------------------------------------

  lemma TapLinear(a: nat, b: nat, g: nat)
    ensures Tap(Xor(a, b), g) == Xor(Tap(a, g), Tap(b, g))
  {
    hide Xor;
    XorStep(a, b);
    OddSum(a, b);
    XorSelf(g);
    XorZero(g);
    XorZero(0);
  }

  lemma OddSum(a: nat, b: nat)
    ensures (a + b) % 2 == 1 <==> (a % 2 == 1) != (b % 2 == 1)
  {
  }

  lemma XorHalves(a: nat, b: nat)
    ensures Xor(a, b) / 2 == Xor(a / 2, b / 2)
    ensures Xor(a, b) / 4 == Xor(a / 4, b / 4)
    ensures Xor(a, b) / 8 == Xor(a / 8, b / 8)
    ensures Xor(a, b) / 16 == Xor(a / 16, b / 16)
  {
    hide Xor;
    assert Pow2(1) == 2 && Pow2(2) == 4 && Pow2(3) == 8 && Pow2(4) == 16;
    XorDivMod(a, b, 1);
    XorDivMod(a, b, 2);
    XorDivMod(a, b, 3);
    XorDivMod(a, b, 4);
  }

  lemma FeedbackLinear(a: nat, b: nat)
    ensures Feedback(Xor(a, b)) == Xor(Feedback(a), Feedback(b))
  {
    hide Xor, Tap;
    XorHalves(a, b);
    var a0, a1, a2, a3, a4 := Tap(a, 0x3b6a57b2), Tap(a / 2, 0x26508e6d), Tap(a / 4, 0x1ea119fa),
                              Tap(a / 8, 0x3d4233dd), Tap(a / 16, 0x2a1462b3);
    var b0, b1, b2, b3, b4 := Tap(b, 0x3b6a57b2), Tap(b / 2, 0x26508e6d), Tap(b / 4, 0x1ea119fa),
                              Tap(b / 8, 0x3d4233dd), Tap(b / 16, 0x2a1462b3);
    TapLinear(a, b, 0x3b6a57b2);
    TapLinear(a / 2, b / 2, 0x26508e6d);
    TapLinear(a / 4, b / 4, 0x1ea119fa);
    TapLinear(a / 8, b / 8, 0x3d4233dd);
    TapLinear(a / 16, b / 16, 0x2a1462b3);
    XorSwap(a0, b0, a1, b1);
    XorSwap(Xor(a0, a1), Xor(b0, b1), a2, b2);
    XorSwap(Xor(Xor(a0, a1), a2), Xor(Xor(b0, b1), b2), a3, b3);
    XorSwap(Xor(Xor(Xor(a0, a1), a2), a3), Xor(Xor(Xor(b0, b1), b2), b3), a4, b4);
  }

  lemma Pow2Bits()
    ensures Pow2(5) == 32 && Pow2(25) == TWO25 && Pow2(30) == TWO30
  {
    assert Pow2(5) == 32;
    Pow2Add(5, 5);
    Pow2Add(10, 10);
    Pow2Add(20, 5);
    Pow2Add(25, 5);
  }

  lemma XorParts25(a: nat, b: nat)
    ensures Xor(a, b) / TWO25 == Xor(a / TWO25, b / TWO25)
    ensures Xor(a, b) % TWO25 * 32 == Xor(a % TWO25 * 32, b % TWO25 * 32)
  {
    hide Xor;
    Pow2Bits();
    XorDivMod(a, b, 25);
    XorParts(a % TWO25, 0, b % TWO25, 0, 5);
    XorZero(0);
  }

  /** The step is linear over GF(2). */
  lemma StepLinear(a: nat, b: nat)
    ensures PolymodStep(Xor(a, b)) == Xor(PolymodStep(a), PolymodStep(b))
  {
    hide Xor, Feedback;
    XorParts25(a, b);
    FeedbackLinear(a / TWO25, b / TWO25);
    XorSwap(a % TWO25 * 32, b % TWO25 * 32, Feedback(a / TWO25), Feedback(b / TWO25));
  }

  // ---- Injectivity ----------------------------------------------------------------

  lemma Xor30(x: nat, y: nat)
    requires x < TWO30 && y < TWO30
    ensures Xor(x, y) < TWO30
  {
    Pow2Bits();
    XorBelow(x, y, 30);
  }

  lemma FeedbackState(b: nat)
    ensures Feedback(b) < TWO30
  {
    hide Xor;
    var t0, t1 := Tap(b, 0x3b6a57b2), Tap(b / 2, 0x26508e6d);
    var t2, t3, t4 := Tap(b / 4, 0x1ea119fa), Tap(b / 8, 0x3d4233dd), Tap(b / 16, 0x2a1462b3);
    Xor30(t0, t1);
    Xor30(Xor(t0, t1), t2);
    Xor30(Xor(Xor(t0, t1), t2), t3);
    Xor30(Xor(Xor(Xor(t0, t1), t2), t3), t4);
  }

  lemma StepState(s: nat)
    ensures PolymodStep(s) < TWO30
  {
    hide Xor, Feedback;
    FeedbackState(s / TWO25);
    Xor30(s % TWO25 * 32, Feedback(s / TWO25));
  }

  function Bit(x: nat, k: nat): (b: nat)
    ensures b < 2
  {
    DivIdentity(x, Pow2(k));
    x / Pow2(k) % 2
  }

  lemma XorBit(x: nat, y: nat, k: nat)
    ensures Bit(Xor(x, y), k) == (Bit(x, k) + Bit(y, k)) % 2
  {
    hide Xor, Pow2;
    XorDivMod(x, y, k);
    LowestBit(x / Pow2(k), y / Pow2(k));
  }

  lemma LowestBit(a: nat, b: nat)
    ensures Xor(a, b) % 2 == (a % 2 + b % 2) % 2
  {
    hide Xor;
    XorStep(a, b);
    Parity(a, a % 2, b, b % 2);
  }

  /** Each bit of a five-fold exclusive or is a parity. */
  lemma ChainBit(t0: nat, t1: nat, t2: nat, t3: nat, t4: nat, k: nat)
    ensures Bit(Xor(Xor(Xor(Xor(t0, t1), t2), t3), t4), k)
      == (Bit(t0, k) + Bit(t1, k) + Bit(t2, k) + Bit(t3, k) + Bit(t4, k)) % 2
  {
    hide Xor, Bit;
    XorBit(t0, t1, k);
    XorBit(Xor(t0, t1), t2, k);
    XorBit(Xor(Xor(t0, t1), t2), t3, k);
    XorBit(Xor(Xor(Xor(t0, t1), t2), t3), t4, k);
  }

  lemma GeneratorBits()
    ensures Bit(0x3b6a57b2, 0) == 0 && Bit(0x3b6a57b2, 1) == 1 && Bit(0x3b6a57b2, 2) == 0
    ensures Bit(0x3b6a57b2, 3) == 0 && Bit(0x3b6a57b2, 4) == 1
    ensures Bit(0x26508e6d, 0) == 1 && Bit(0x26508e6d, 1) == 0 && Bit(0x26508e6d, 2) == 1
    ensures Bit(0x26508e6d, 3) == 1 && Bit(0x26508e6d, 4) == 0
    ensures Bit(0x1ea119fa, 0) == 0 && Bit(0x1ea119fa, 1) == 1 && Bit(0x1ea119fa, 2) == 0
    ensures Bit(0x1ea119fa, 3) == 1 && Bit(0x1ea119fa, 4) == 1
    ensures Bit(0x3d4233dd, 0) == 1 && Bit(0x3d4233dd, 1) == 0 && Bit(0x3d4233dd, 2) == 1
    ensures Bit(0x3d4233dd, 3) == 1 && Bit(0x3d4233dd, 4) == 1
    ensures Bit(0x2a1462b3, 0) == 1 && Bit(0x2a1462b3, 1) == 1 && Bit(0x2a1462b3, 2) == 0
    ensures Bit(0x2a1462b3, 3) == 0 && Bit(0x2a1462b3, 4) == 1
  {
    assert Pow2(0) == 1 && Pow2(1) == 2 && Pow2(2) == 4 && Pow2(3) == 8 && Pow2(4) == 16;
  }

  lemma TapBit(b: nat, g: nat, k: nat)
    ensures Bit(Tap(b, g), k) == if b % 2 == 1 then Bit(g, k) else 0
  {
  }

  lemma FeedbackBit(b: nat, k: nat)
    ensures Bit(Feedback(b), k) ==
      ((if b % 2 == 1 then Bit(0x3b6a57b2, k) else 0)
       + (if b / 2 % 2 == 1 then Bit(0x26508e6d, k) else 0)
       + (if b / 4 % 2 == 1 then Bit(0x1ea119fa, k) else 0)
       + (if b / 8 % 2 == 1 then Bit(0x3d4233dd, k) else 0)
       + (if b / 16 % 2 == 1 then Bit(0x2a1462b3, k) else 0)) % 2
  {
    hide Xor, Tap, Bit;
    ChainBit(Tap(b, 0x3b6a57b2), Tap(b / 2, 0x26508e6d), Tap(b / 4, 0x1ea119fa),
             Tap(b / 8, 0x3d4233dd), Tap(b / 16, 0x2a1462b3), k);
    TapBit(b, 0x3b6a57b2, k);
    TapBit(b / 2, 0x26508e6d, k);
    TapBit(b / 4, 0x1ea119fa, k);
    TapBit(b / 8, 0x3d4233dd, k);
    TapBit(b / 16, 0x2a1462b3, k);
  }

  lemma LowBitsZero(x: nat, k: nat)
    requires x % 32 == 0 && k < 5
    ensures Bit(x, k) == 0
  {
    var q := x / 32;
    assert x == 32 * q;
    assert Pow2(0) == 1 && Pow2(1) == 2 && Pow2(2) == 4 && Pow2(3) == 8 && Pow2(4) == 16;
    Even(x, 1, 16 * q);
    Even(x, 2, 8 * q);
    Even(x, 4, 4 * q);
    Even(x, 8, 2 * q);
    Even(x, 16, q);
  }

  lemma Even(x: nat, d: nat, h: nat)
    requires d > 0 && x == 2 * h * d
    ensures x / d % 2 == 0
  {
    DivModUnique(x, d, 2 * h, 0);
  }

  /** The generators are independent in their low five bits. */
  lemma Independent(b: nat)
    requires b < 32 && Feedback(b) % 32 == 0
    ensures b == 0
  {
    hide Feedback, Bit;
    GeneratorBits();
    FeedbackBit(b, 0);
    FeedbackBit(b, 1);
    FeedbackBit(b, 2);
    FeedbackBit(b, 3);
    FeedbackBit(b, 4);
    LowBitsZero(Feedback(b), 0);
    LowBitsZero(Feedback(b), 1);
    LowBitsZero(Feedback(b), 2);
    LowBitsZero(Feedback(b), 3);
    LowBitsZero(Feedback(b), 4);
    NoBits(b);
  }

  lemma NoBits(b: nat)
    requires b < 32
    ensures b % 2 != 1 && b / 2 % 2 != 1 && b / 4 % 2 != 1 && b / 8 % 2 != 1 && b / 16 % 2 != 1 ==> b == 0
  {
  }

  lemma FeedbackZero()
    ensures Feedback(0) == 0
  {
    XorZero(0);
  }

  /** Only the zero state steps to zero. */
  lemma StepKernel(d: state)
    requires PolymodStep(d) == 0
    ensures d == 0
  {
    hide Xor, Feedback;
    XorCancel(d % TWO25 * 32, Feedback(d / TWO25));
    Independent(d / TWO25);
    FeedbackZero();
  }

  /** Different states step to different states. */
  lemma StepInjective(a: state, b: state)
    requires PolymodStep(a) == PolymodStep(b)
    ensures a == b
  {
    hide Xor, PolymodStep;
    StepLinear(a, b);
    XorCancel(PolymodStep(a), PolymodStep(b));
    XorCancel(a, b);
    Xor30(a, b);
    StepKernel(Xor(a, b));
  }

  // ---- Feeding symbols ---------------------------------------------------------------

  /** The register after absorbing symbols one by one. */
  function Feed(start: nat, syms: seq<symbol>): nat
    decreases |syms|
  {
    if syms == [] then start
    else Xor(PolymodStep(Feed(start, syms[..|syms| - 1])), syms[|syms| - 1])
  }

  lemma FeedMore(start: nat, syms: seq<symbol>, v: symbol)
    ensures Feed(start, syms + [v]) == Xor(PolymodStep(Feed(start, syms)), v)
  {
    assert (syms + [v])[..|syms|] == syms;
  }

  lemma {:induction false} FeedConcat(start: nat, a: seq<symbol>, b: seq<symbol>)
    ensures Feed(start, a + b) == Feed(Feed(start, a), b)
  {
    hide Xor, PolymodStep;
    if b == [] {
      assert a + b == a;
    } else {
      var last := |b| - 1;
      FeedConcat(start, a, b[..last]);
      FeedMore(start, a + b[..last], b[last]);
      assert a + b == a + b[..last] + [b[last]];
    }
  }

  lemma {:induction false} FeedState(start: nat, syms: seq<symbol>)
    requires start < TWO30
    ensures Feed(start, syms) < TWO30
  {
    hide Xor, PolymodStep;
    if syms != [] {
      var last := |syms| - 1;
      StepState(Feed(start, syms[..last]));
      Xor30(PolymodStep(Feed(start, syms[..last])), syms[last]);
    }
  }

  function ZeroSymbols(n: nat): (z: seq<symbol>)
    ensures |z| == n && forall i :: 0 <= i < n ==> z[i] == 0
  {
    seq(n, _ => 0)
  }

  /** Absorbing splits into what the start contributes and what the symbols do. */
  lemma {:induction false} FeedSplit(start: nat, syms: seq<symbol>)
    ensures Feed(start, syms) == Xor(Feed(start, ZeroSymbols(|syms|)), Feed(0, syms))
  {
    hide Xor, PolymodStep;
    if syms == [] {
      XorZero(start);
    } else {
      var last := |syms| - 1;
      FeedSplit(start, syms[..last]);
      var x, y := Feed(start, ZeroSymbols(last)), Feed(0, syms[..last]);
      StepLinear(x, y);
      FeedMore(start, ZeroSymbols(last), 0);
      assert ZeroSymbols(|syms|) == ZeroSymbols(last) + [0];
      XorZero(PolymodStep(x));
      XorAssoc(PolymodStep(x), PolymodStep(y), syms[last]);
    }
  }

  /** Starting from zero, up to six symbols just line up in the register. */
  lemma {:induction false} FeedPacks(syms: seq<symbol>)
    requires |syms| <= 6
    ensures Feed(0, syms) == Eval(syms, 32) < Pow(32, |syms|) <= TWO30
  {
    hide Xor, Feedback, PolymodStep;
    EvalBound(syms, 32);
    Pow32(|syms|);
    if syms != [] {
      var last := |syms| - 1;
      FeedPacks(syms[..last]);
      Pow32(last);
      StepSmall(Eval(syms[..last], 32), syms[last]);
    }
  }

  lemma Pow32(n: nat)
    requires n <= 6
    ensures Pow(32, n) <= TWO30 && (n <= 5 ==> Pow(32, n) <= TWO25)
  {
    assert Pow(32, 5) == TWO25 && Pow(32, 6) == TWO30;
    PowMono(32, n, 6);
    if n <= 5 {
      PowMono(32, n, 5);
    }
  }

  /** With nothing shifted out, a step just makes room for the next symbol. */
  lemma StepSmall(s: nat, v: symbol)
    requires s < TWO25
    ensures Xor(PolymodStep(s), v) == s * 32 + v
  {
    hide Xor, Feedback;
    FeedbackZero();
    DivModUnique(s, TWO25, 0, s);
    XorZero(s * 32);
    Pow2Bits();
    XorParts(s, 0, 0, v, 5);
    XorZero(s);
    XorZero(v);
  }

  // ---- Checksums -------------------------------------------------------------------------

  /** The six symbols of a 30-bit value, most significant first. */
  function SixSymbols(c: nat): (s: seq<symbol>)
    ensures |s| == 6
  {
    [c / 0x200_0000 % 32, c / 0x10_0000 % 32, c / 0x8000 % 32, c / 0x400 % 32, c / 0x20 % 32, c % 32]
  }

  lemma SixSymbolsEval(c: nat)
    requires c < TWO30
    ensures Eval(SixSymbols(c), 32) == c
  {
    hide Eval;
    var s: seq<nat> := SixSymbols(c);
    Regroup32(c, 0x10_0000, 0x200_0000);
    assert s[0] * 32 + s[1] == c / 0x10_0000;
    Regroup32(c, 0x8000, 0x10_0000);
    Regroup32(c, 0x400, 0x8000);
    Regroup32(c, 0x20, 0x400);
    Regroup32(c, 1, 0x20);
    EvalSix(s);
  }

  lemma Regroup32(c: nat, d: nat, e: nat)
    requires d > 0 && e == 32 * d
    ensures c / e * 32 + c / d % 32 == c / d
  {
    var q := c / d;
    DivIdentity(c, d);
    assert q == q / 32 * 32 + q % 32;
    Distribute(q / 32 * 32, q % 32, d);
    Associate(q / 32, 32, d);
    MulMono(q % 32, 31, d);
    MulMono(0, q % 32, d);
    DivModUnique(c, e, q / 32, q % 32 * d + c % d);
  }

  lemma EvalSix(s: seq<nat>)
    requires |s| == 6
    ensures Eval(s, 32) == ((((s[0] * 32 + s[1]) * 32 + s[2]) * 32 + s[3]) * 32 + s[4]) * 32 + s[5]
  {
    assert s[..5][..4] == s[..4] && s[..4][..3] == s[..3] && s[..3][..2] == s[..2] && s[..2][..1] == s[..1];
    assert s[..1][..0] == [];
    assert Eval(s[..1], 32) == s[0];
    assert Eval(s[..2], 32) == s[0] * 32 + s[1];
    assert Eval(s[..3], 32) == (s[0] * 32 + s[1]) * 32 + s[2];
    assert Eval(s[..4], 32) == ((s[0] * 32 + s[1]) * 32 + s[2]) * 32 + s[3];
  }

  /** The checksum appended after symbols that left the register at x. */
  function Checksum(x: nat): (s: seq<symbol>)
    ensures |s| == 6
  {
    SixSymbols(Xor(Feed(x, ZeroSymbols(6)), 1))
  }

  /** Six symbols complete a codeword exactly when they are the checksum. */
  lemma ChecksumIff(x: nat, s: seq<symbol>)
    requires x < TWO30 && |s| == 6
    ensures Feed(x, s) == 1 <==> s == Checksum(x)
  {
    hide Xor, SixSymbols, Feed, PolymodStep;
    var f := Feed(x, ZeroSymbols(6));
    FeedSplit(x, s);
    FeedPacks(s);
    FeedState(x, ZeroSymbols(6));
    Xor30(f, 1);
    SixSymbolsEval(Xor(f, 1));
    XorCancel(f, 1);
    XorCancel(f, Eval(s, 32));
    if Feed(x, s) == 1 {
      EvalInjective(s, Checksum(x), 32);
    }
  }

  // ---- Error detection -----------------------------------------------------------------------

  lemma {:induction false} FeedInjective(a: nat, b: nat, syms: seq<symbol>)
    requires a < TWO30 && b < TWO30 && Feed(a, syms) == Feed(b, syms)
    ensures a == b
  {
    hide Xor, PolymodStep;
    if syms != [] {
      var last := |syms| - 1;
      var x, y := Feed(a, syms[..last]), Feed(b, syms[..last]);
      FeedState(a, syms[..last]);
      FeedState(b, syms[..last]);
      XorCancel(PolymodStep(x), syms[last]);
      XorCancel(PolymodStep(y), syms[last]);
      StepInjective(x, y);
      FeedInjective(a, b, syms[..last]);
    }
  }

  lemma WindowInjective(x: nat, u: seq<symbol>, w: seq<symbol>)
    requires |u| == |w| <= 6 && Feed(x, u) == Feed(x, w)
    ensures u == w
  {
    hide Xor, PolymodStep;
    FeedSplit(x, u);
    FeedSplit(x, w);
    FeedPacks(u);
    FeedPacks(w);
    XorCancel(Feed(x, ZeroSymbols(|u|)), Eval(u, 32));
    XorCancel(Feed(x, ZeroSymbols(|u|)), Eval(w, 32));
    EvalInjective(u, w, 32);
  }

  /** Burst detection: two codewords that differ only inside a window of six
      symbols are the same codeword. */
  lemma BurstDetected(start: nat, s: seq<symbol>, t: seq<symbol>, i: nat)
    requires start < TWO30 && |s| == |t| && i <= |s|
    requires Feed(start, s) == Feed(start, t)
    requires forall k :: 0 <= k < |s| && !(i <= k < i + 6) ==> s[k] == t[k]
    ensures s == t
  {
    hide Feed;
    var j := if i + 6 <= |s| then i + 6 else |s|;
    var p, q := s[..i], s[j..];
    assert t[..i] == p && t[j..] == q;
    assert s == p + s[i..j] + q && t == p + t[i..j] + q;
    FeedConcat(start, p + s[i..j], q);
    FeedConcat(start, p + t[i..j], q);
    FeedConcat(start, p, s[i..j]);
    FeedConcat(start, p, t[i..j]);
    FeedState(start, p + s[i..j]);
    FeedState(start, p + t[i..j]);
    FeedInjective(Feed(start, p + s[i..j]), Feed(start, p + t[i..j]), q);
    WindowInjective(Feed(start, p), s[i..j], t[i..j]);
  }
}
