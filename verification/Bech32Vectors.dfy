/** What the checksum covers, position by position, and encodings written out. */
module Bech32Vectors {
  import opened Words
  import opened BitXor
  import opened Bech32Checksum
  import opened Bech32Words
  import opened Bech32
  import opened Regroup
  import opened Address
  import opened Segwit

  // ---- The symbols that are absorbed ---------------------------------------------------------------

  /** The register absorbs twice as many symbols as the prefix is long, one more,
      and the data: high bits, a zero, low bits, data. */
  lemma EncodingSymbols(hrp: string, data: seq<symbol>, syms: seq<symbol>)
    requires Printable(hrp) && |syms| == 2 * |hrp| + 1 + |data|
    requires forall i :: 0 <= i < |hrp| ==> syms[i] == hrp[i] as int / 32
    requires syms[|hrp|] == 0
    requires forall i :: 0 <= i < |hrp| ==> syms[|hrp| + 1 + i] == hrp[i] as int % 32
    requires forall i :: 0 <= i < |data| ==> syms[2 * |hrp| + 1 + i] == data[i]
    ensures Encoding(hrp, data) == hrp + "1" + Chars(data) + Chars(Checksum(Feed(1, syms)))
  {
    hide Printable, Checksum, Feed, Chars, Expand;
    Expanded(hrp, data, syms);
  }

  lemma Expanded(hrp: string, tail: seq<symbol>, syms: seq<symbol>)
    requires Printable(hrp) && |syms| == 2 * |hrp| + 1 + |tail|
    requires forall i :: 0 <= i < |hrp| ==> syms[i] == hrp[i] as int / 32
    requires syms[|hrp|] == 0
    requires forall i :: 0 <= i < |hrp| ==> syms[|hrp| + 1 + i] == hrp[i] as int % 32
    requires forall i :: 0 <= i < |tail| ==> syms[2 * |hrp| + 1 + i] == tail[i]
    ensures Expand(hrp) + tail == syms
  {
    hide Printable, HighBits, LowBits5;
    PrefixBits(hrp, syms);
    Joined(HighBits(hrp), LowBits5(hrp), tail, syms);
  }

  lemma PrefixBits(hrp: string, syms: seq<symbol>)
    requires Printable(hrp) && |syms| > 2 * |hrp|
    requires forall i :: 0 <= i < |hrp| ==> syms[i] == hrp[i] as int / 32
    requires forall i :: 0 <= i < |hrp| ==> syms[|hrp| + 1 + i] == hrp[i] as int % 32
    ensures |HighBits(hrp)| == |LowBits5(hrp)| == |hrp|
    ensures forall i :: 0 <= i < |hrp| ==> HighBits(hrp)[i] == syms[i]
    ensures forall i :: 0 <= i < |hrp| ==> LowBits5(hrp)[i] == syms[|hrp| + 1 + i]
  {
    hide Printable;
  }

  lemma Joined(high: seq<symbol>, low: seq<symbol>, tail: seq<symbol>, syms: seq<symbol>)
    requires |high| == |low| && |syms| == 2 * |high| + 1 + |tail|
    requires forall i :: 0 <= i < |high| ==> syms[i] == high[i]
    requires syms[|high|] == 0
    requires forall i :: 0 <= i < |low| ==> syms[|high| + 1 + i] == low[i]
    requires forall i :: 0 <= i < |tail| ==> syms[2 * |high| + 1 + i] == tail[i]
    ensures high + [0] + low + tail == syms
  {
    var n := |high|;
    forall k | 0 <= k < |syms| ensures syms[k] == (high + [0] + low + tail)[k] {
      if k > 2 * n {
        assert syms[2 * n + 1 + (k - 2 * n - 1)] == tail[k - 2 * n - 1];
      } else if k > n {
        assert syms[n + 1 + (k - n - 1)] == low[k - n - 1];
      }
    }
  }

  /** A text that decodes leaves the register at one after all of its symbols. */
  lemma DecodedSymbols(s: string, hrp: string, data: seq<symbol>, syms: seq<symbol>)
    requires Decodes(s, hrp, data) && |syms| == |s| + |hrp|
    requires InCharset(s[|hrp| + 1..])
    requires forall i :: 0 <= i < |hrp| ==> syms[i] == hrp[i] as int / 32
    requires syms[|hrp|] == 0
    requires forall i :: 0 <= i < |hrp| ==> syms[|hrp| + 1 + i] == hrp[i] as int % 32
    requires forall i :: |hrp| < i < |s| ==> syms[|hrp| + i] == SymbolOf(s[i])
    ensures Feed(1, syms) == 1
  {
    hide Feed, SymbolOf, ToLower, InCharset, Expand, Symbols;
    LowerPrintable(s[..|hrp|]);
    var tail := s[|hrp| + 1..];
    SymbolsKnown(tail);
    forall i | 0 <= i < |tail| ensures syms[2 * |hrp| + 1 + i] == Symbols(tail)[i] {
      assert syms[|hrp| + (|hrp| + 1 + i)] == SymbolOf(s[|hrp| + 1 + i]);
    }
    Expanded(hrp, Symbols(tail), syms);
  }

  lemma SymbolsKnown(s: string)
    requires InCharset(s)
    ensures |Symbols(s)| == |s| && forall i :: 0 <= i < |s| ==> Symbols(s)[i] == SymbolOf(s[i])
  {
  }

  // ---- Runs of the register ------------------------------------------------------------------------

  function Absorb(w: word, v: word): word { WXor(WordStep(w), v) }

  lemma FeedFour(start: nat, a: symbol, b: symbol, c: symbol, d: symbol)
    ensures Feed(start, [a, b, c, d]) == Feed(Feed(Feed(Feed(start, [a]), [b]), [c]), [d])
  {
    hide Feed;
    assert [a, b, c, d] == [a] + [b] + [c] + [d];
    FeedConcat(start, [a] + [b] + [c], [d]);
    FeedConcat(start, [a] + [b], [c]);
    FeedConcat(start, [a], [b]);
  }

  lemma FeedOne(start: nat, a: symbol)
    ensures Feed(start, [a]) == Xor(PolymodStep(start), a)
  {
    hide Xor, PolymodStep;
    FeedMore(start, [], a);
    assert [] + [a] == [a];
  }

  /** A word of five bits stands for its digit. */
  lemma SmallWord(v: word)
    requires v < 32
    ensures Value(v) == Digit(v)
  {
    hide Value, Digit;
    SmallShifts(v);
    NoDigit();
    Known(v, 0, 0, 0, 0, 0, Digit(v));
  }

  lemma SmallShifts(v: word)
    requires v < 32
    ensures v >> 25 == 0 && v >> 20 == 0 && v >> 15 == 0 && v >> 10 == 0 && v >> 5 == 0
  {
  }

  lemma NoDigit()
    ensures Digit(0) == 0
  {
  }

  lemma AbsorbOne(w: word, v: word)
    requires v < 32
    ensures Value(Absorb(w, v)) == Feed(Value(w), [Digit(v)])
  {
    hide Value, Digit, WordStep, WXor, Xor, PolymodStep, Feed, Bech32Words.Num;
    FeedOne(Value(w), Digit(v));
    WordStepExact(w);
    SmallWord(v);
    WordXor(WordStep(w), v);
  }

  lemma WordXor(a: word, b: word)
    ensures Value(WXor(a, b)) == Xor(Value(a), Value(b))
  {
    hide Xor, Bech32Words.Num, WXor;
    NumXor(a, b, 30);
  }

  /** Four more symbols, with the register after each. */
  lemma AbsorbFour(w0: word, a: word, w1: word, b: word, w2: word, c: word, w3: word, d: word, w4: word)
    requires a < 32 && b < 32 && c < 32 && d < 32
    requires Absorb(w0, a) == w1 && Absorb(w1, b) == w2 && Absorb(w2, c) == w3 && Absorb(w3, d) == w4
    ensures Feed(Value(w0), [Digit(a), Digit(b), Digit(c), Digit(d)]) == Value(w4)
  {
    hide Value, Digit, Absorb, Feed;
    FeedFour(Value(w0), Digit(a), Digit(b), Digit(c), Digit(d));
    AbsorbOne(w0, a);
    AbsorbOne(w1, b);
    AbsorbOne(w2, c);
    AbsorbOne(w3, d);
  }

  /** Four more zeros. */
  lemma FourZeros(w0: word, w1: word, w2: word, w3: word, w4: word)
    requires Absorb(w0, 0) == w1 && Absorb(w1, 0) == w2 && Absorb(w2, 0) == w3 && Absorb(w3, 0) == w4
    ensures Feed(Value(w0), ZeroSymbols(4)) == Value(w4)
  {
    hide Value, Digit, Absorb, Feed;
    NoDigit();
    AbsorbFour(w0, 0, w1, 0, w2, 0, w3, 0, w4);
    assert ZeroSymbols(4) == [0, 0, 0, 0];
  }

  // ---- Checksums -----------------------------------------------------------------------------------

  /** The six digits of a register, the highest first. */
  function Digits(u: word): seq<symbol> {
    [Digit(u >> 25), Digit(u >> 20), Digit(u >> 15), Digit(u >> 10), Digit(u >> 5), Digit(u)]
  }

  lemma SixOf(u: word)
    ensures SixSymbols(Value(u)) == Digits(u)
  {
    hide Value, Digit;
    Known(u, Digit(u >> 25), Digit(u >> 20), Digit(u >> 15), Digit(u >> 10), Digit(u >> 5), Digit(u));
    SixParts(Value(u), Digit(u >> 25), Digit(u >> 20), Digit(u >> 15), Digit(u >> 10), Digit(u >> 5), Digit(u));
  }

  lemma SixParts(n: nat, d5: symbol, d4: symbol, d3: symbol, d2: symbol, d1: symbol, d0: symbol)
    requires n == ((((d5 * 32 + d4) * 32 + d3) * 32 + d2) * 32 + d1) * 32 + d0
    ensures SixSymbols(n) == [d5, d4, d3, d2, d1, d0]
  {
    var n1 := (((d5 * 32 + d4) * 32 + d3) * 32 + d2) * 32 + d1;
    var n2 := ((d5 * 32 + d4) * 32 + d3) * 32 + d2;
    var n3 := (d5 * 32 + d4) * 32 + d3;
    DivModUnique(n, 0x20, n1, d0);
    DivModUnique(n, 0x400, n2, d1 * 32 + d0);
    DivModUnique(n, 0x8000, n3, (d2 * 32 + d1) * 32 + d0);
    DivModUnique(n, 0x10_0000, d5 * 32 + d4, ((d3 * 32 + d2) * 32 + d1) * 32 + d0);
    DivModUnique(n, 0x200_0000, d5, (((d4 * 32 + d3) * 32 + d2) * 32 + d1) * 32 + d0);
    LastSymbol(n1, d0);
    LastSymbol(n2, d1);
    LastSymbol(n3, d2);
    LastSymbol(d5 * 32 + d4, d3);
    LastSymbol(d5, d4);
    LastSymbol(0, d5);
  }

  lemma LastSymbol(q: nat, d: symbol)
    ensures (q * 32 + d) % 32 == d
  {
    DivModUnique(q * 32 + d, 32, q, d);
  }

  /** The checksum behind a register: six zeros, then the final constant. */
  lemma ChecksumOf(w0: word, w1: word, w2: word, w3: word, w4: word, w5: word, w6: word)
    requires Absorb(w0, 0) == w1 && Absorb(w1, 0) == w2 && Absorb(w2, 0) == w3 && Absorb(w3, 0) == w4
    requires Absorb(w4, 0) == w5 && Absorb(w5, 0) == w6
    ensures Checksum(Value(w0)) == Digits(WXor(w6, 1))
  {
    hide Value, Digit, Absorb, Feed, Digits, WXor, Xor, SixSymbols;
    FourZeros(w0, w1, w2, w3, w4);
    SmallDigits();
    AbsorbOne(w4, 0);
    AbsorbOne(w5, 0);
    FeedConcat(Value(w0), ZeroSymbols(4), [0]);
    FeedConcat(Value(w0), ZeroSymbols(4) + [0], [0]);
    assert ZeroSymbols(6) == ZeroSymbols(4) + [0] + [0];
    WordXor(w6, 1);
    SmallWord(1);
    SixOf(WXor(w6, 1));
  }

  lemma SmallDigits()
    ensures Digit(0) == 0 && Digit(1) == 1
  {
  }

  // ---- Encodings written out -----------------------------------------------------------------------

  lemma Start()
    ensures Value(1) == 1
  {
    hide Value, Digit;
    SmallDigits();
    SmallWord(1);
  }

  /** The prefix "a". */
  lemma RegisterA()
    ensures Absorbed("a", []) == Value(0x8c01)
  {
    hide Value, Digit, Feed;
    Start();
    DigitsA();
    AbsorbOne(1, 3);
    AbsorbOne(0x23, 0);
    AbsorbOne(0x460, 1);
    assert Expand("a") + [] == [3] + [0] + [1];
    FeedConcat(1, [3], [0]);
    FeedConcat(1, [3] + [0], [1]);
  }

  lemma DigitsA()
    ensures Digit(3) == 3 && Digit(0) == 0 && Digit(1) == 1
    ensures Absorb(1, 3) == 0x23 && Absorb(0x23, 0) == 0x460 && Absorb(0x460, 1) == 0x8c01
  {
  }

  lemma ChecksumA()
    ensures Checksum(Value(0x8c01)) == [10, 28, 25, 31, 20, 31]
  {
    hide Value, Checksum;
    ChecksumOf(0x8c01, 0x11_8020, 0x230_0400, 0x3d6a_d7b2, 0x2fd_30b9, 0x24cc_4092, 0x15cc_fe9e);
  }

  /** The first test vector of BIP-173: the shortest text, in either case. */
  lemma ShortVector()
    ensures Encoding("a", []) == "a12uel5l"
    ensures Decodes("a12uel5l", "a", []) && Decodes("A12UEL5L", "a", [])
  {
    hide Value, Absorbed, Decodes, Checksum, Encoding, Encodable;
    RegisterA();
    ChecksumA();
    TextA();
    EncodableA();
    LowerA();
    EncodeThenDecode("a12uel5l", "a", []);
    EncodeThenDecode("A12UEL5L", "a", []);
  }

  lemma TextA()
    requires Checksum(Absorbed("a", [])) == [10, 28, 25, 31, 20, 31]
    ensures Encoding("a", []) == "a12uel5l"
  {
    hide Checksum, Absorbed;
    assert Chars([10, 28, 25, 31, 20, 31]) == "2uel5l";
  }

  lemma EncodableA()
    ensures Encodable("a", [])
  {
  }

  lemma LowerA()
    ensures Lower("a12uel5l") == "a12uel5l" == Lower("A12UEL5L") && NoUpper("a12uel5l") && NoLower("A12UEL5L")
  {
  }

  // ---- All symbols ---------------------------------------------------------------------------------

  /** All symbols, in order. */
  function AllSymbols(): (s: seq<symbol>)
    ensures |s| == 32 && forall i :: 0 <= i < 32 ==> s[i] == i
  {
    seq(32, i requires 0 <= i < 32 => i)
  }

  lemma DigitsBelow8()
    ensures Digit(0) == 0 && Digit(1) == 1 && Digit(2) == 2 && Digit(3) == 3 && Digit(4) == 4 && Digit(5) == 5
    ensures Digit(6) == 6 && Digit(7) == 7
  {
  }

  /** The prefix "abcdef". */
  lemma RegisterAbcdef()
    ensures Feed(1, [3, 3, 3, 3, 3, 3, 0, 1, 2, 3, 4, 5, 6]) == Value(0x3be8_0e6a)
  {
    hide Value, Digit, Feed;
    Start();
    DigitsBelow8();
    AbsorbFour(0x1, 3, 0x23, 3, 0x463, 3, 0x8c63, 3, 0x11_8c63);
    AbsorbFour(0x11_8c63, 3, 0x231_8c63, 3, 0x3d5b_dbd1, 0, 0x4dc_bcd9, 1, 0x3dc7_154c);
    AbsorbFour(0x3dc7_154c, 2, 0x1745_6f7b, 3, 0x8d5_0561, 4, 0x401_b5de, 5, 0x2666_35a8);
    AbsorbLast();
    FeedConcat(1, [3, 3, 3, 3], [3, 3, 0, 1]);
    FeedConcat(1, [3, 3, 3, 3] + [3, 3, 0, 1], [2, 3, 4, 5]);
    FeedConcat(1, [3, 3, 3, 3] + [3, 3, 0, 1] + [2, 3, 4, 5], [6]);
    assert [3, 3, 3, 3, 3, 3, 0, 1, 2, 3, 4, 5, 6] == [3, 3, 3, 3] + [3, 3, 0, 1] + [2, 3, 4, 5] + [6];
  }

  lemma AbsorbLast()
    ensures Feed(Value(0x2666_35a8), [6]) == Value(0x3be8_0e6a)
  {
    hide Value, Digit, Feed;
    DigitsBelow8();
    AbsorbOne(0x2666_35a8, 6);
  }

  lemma FirstEight()
    ensures Feed(Value(0x3be8_0e6a), [0, 1, 2, 3, 4, 5, 6, 7]) == Value(0x11e8_8668)
  {
    hide Value, Digit, Feed;
    DigitsBelow8();
    AbsorbFour(0x3be8_0e6a, 0, 0xf9c_d266, 1, 0x3001_8ce4, 2, 0x1767_cdec, 3, 0xc81_5781);
    AbsorbFour(0xc81_5781, 4, 0x28db_67b3, 5, 0x2fd9_8d2c, 6, 0x12be_0710, 7, 0x11e8_8668);
    FeedConcat(Value(0x3be8_0e6a), [0, 1, 2, 3], [4, 5, 6, 7]);
    assert [0, 1, 2, 3, 4, 5, 6, 7] == [0, 1, 2, 3] + [4, 5, 6, 7];
  }

  lemma DigitsBelow16()
    ensures Digit(8) == 8 && Digit(9) == 9 && Digit(10) == 10 && Digit(11) == 11
    ensures Digit(12) == 12 && Digit(13) == 13 && Digit(14) == 14 && Digit(15) == 15
  {
  }

  lemma SecondEight()
    ensures Feed(Value(0x11e8_8668), [8, 9, 10, 11, 12, 13, 14, 15]) == Value(0x3122_3f8a)
  {
    hide Value, Digit, Feed;
    DigitsBelow16();
    AbsorbFour(0x11e8_8668, 8, 0x52_fed5, 9, 0xa5f_daa9, 10, 0x2e30_1b62, 11, 0x2f8c_cedd);
    AbsorbFour(0x2f8c_cedd, 12, 0x1816_793a, 13, 0x212c_0d6a, 14, 0xf95_cffd, 15, 0x3122_3f8a);
    FeedConcat(Value(0x11e8_8668), [8, 9, 10, 11], [12, 13, 14, 15]);
    assert [8, 9, 10, 11, 12, 13, 14, 15] == [8, 9, 10, 11] + [12, 13, 14, 15];
  }

  lemma DigitsBelow24()
    ensures Digit(16) == 16 && Digit(17) == 17 && Digit(18) == 18 && Digit(19) == 19
    ensures Digit(20) == 20 && Digit(21) == 21 && Digit(22) == 22 && Digit(23) == 23
  {
  }

  lemma ThirdEight()
    ensures Feed(Value(0x3122_3f8a), [16, 17, 18, 19, 20, 21, 22, 23]) == Value(0x297c_48e0)
  {
    hide Value, Digit, Feed;
    DigitsBelow24();
    AbsorbFour(0x3122_3f8a, 16, 0x3311_a03e, 17, 0xe08_010d, 18, 0x29b_e197, 19, 0x2816_6541);
    AbsorbFour(0x2816_6541, 20, 0x3679_d37d, 21, 0x556_e704, 22, 0xc8c_6efb, 23, 0x297c_48e0);
    FeedConcat(Value(0x3122_3f8a), [16, 17, 18, 19], [20, 21, 22, 23]);
    assert [16, 17, 18, 19, 20, 21, 22, 23] == [16, 17, 18, 19] + [20, 21, 22, 23];
  }

  lemma DigitsBelow32()
    ensures Digit(24) == 24 && Digit(25) == 25 && Digit(26) == 26 && Digit(27) == 27
    ensures Digit(28) == 28 && Digit(29) == 29 && Digit(30) == 30 && Digit(31) == 31
  {
  }

  lemma FourthEight()
    ensures Feed(Value(0x297c_48e0), [24, 25, 26, 27, 28, 29, 30, 31]) == Value(0x1a0d_3656)
  {
    hide Value, Digit, Feed;
    DigitsBelow32();
    AbsorbFour(0x297c_48e0, 24, 0x1b3c_6751, 25, 0x3f05_97ac, 26, 0x347f_64d1, 27, 0x3eea_4538);
    AbsorbFour(0x3eea_4538, 28, 0x985_3657, 29, 0x2e07_d307, 30, 0x2975_c268, 31, 0x1a0d_3656);
    FeedConcat(Value(0x297c_48e0), [24, 25, 26, 27], [28, 29, 30, 31]);
    assert [24, 25, 26, 27, 28, 29, 30, 31] == [24, 25, 26, 27] + [28, 29, 30, 31];
  }

  lemma DataRegister()
    ensures Feed(Value(0x3be8_0e6a), AllSymbols()) == Value(0x1a0d_3656)
  {
    hide Value, Feed;
    FirstEight();
    SecondEight();
    ThirdEight();
    FourthEight();
    var a, b, c, d: seq<symbol> := [0, 1, 2, 3, 4, 5, 6, 7], [8, 9, 10, 11, 12, 13, 14, 15],
      [16, 17, 18, 19, 20, 21, 22, 23], [24, 25, 26, 27, 28, 29, 30, 31];
    FeedConcat(Value(0x3be8_0e6a), a, b);
    FeedConcat(Value(0x3be8_0e6a), a + b, c);
    FeedConcat(Value(0x3be8_0e6a), a + b + c, d);
    assert AllSymbols() == a + b + c + d;
  }

  lemma ChecksumAbcdef()
    ensures Checksum(Value(0x1a0d_3656)) == [27, 0, 0, 0, 6, 14]
  {
    hide Value, Checksum;
    ChecksumOf(0x1a0d_3656, 0x192f_b755, 0x615_c087, 0x1f82_c93f, 0xe80_d418, 0x1381_4325, 0x3600_00cf);
  }

  lemma ExpandAbcdef(syms: seq<symbol>)
    requires syms == [3, 3, 3, 3, 3, 3, 0, 1, 2, 3, 4, 5, 6]
    ensures Expand("abcdef") == syms
  {
    Expanded("abcdef", [], syms);
    assert Expand("abcdef") + [] == Expand("abcdef");
  }

  lemma AbsorbedAbcdef()
    ensures Absorbed("abcdef", AllSymbols()) == Value(0x1a0d_3656)
  {
    hide Value, Feed, Expand, AllSymbols;
    RegisterAbcdef();
    DataRegister();
    ExpandAbcdef([3, 3, 3, 3, 3, 3, 0, 1, 2, 3, 4, 5, 6]);
    FeedConcat(1, Expand("abcdef"), AllSymbols());
  }

  lemma CharsetText()
    ensures Chars(AllSymbols()) == "qpzry9x8gf2tvdw0s3jn54khce6mua7l"
    ensures Chars([27, 0, 0, 0, 6, 14]) == "mqqqxw"
  {
  }

  /** The test vector of BIP-173 whose data are all symbols in order. */
  lemma AllSymbolsVector()
    ensures Encoding("abcdef", AllSymbols()) == "abcdef1qpzry9x8gf2tvdw0s3jn54khce6mua7lmqqqxw"
  {
    hide Value, Absorbed, Checksum, Chars, AllSymbols;
    AbsorbedAbcdef();
    ChecksumAbcdef();
    CharsetText();
    TextAbcdef(Chars(AllSymbols()), Chars([27, 0, 0, 0, 6, 14]));
    assert "abcdef" + "1" == "abcdef1";
  }

  lemma TextAbcdef(data: string, checksum: string)
    requires data == "qpzry9x8gf2tvdw0s3jn54khce6mua7l" && checksum == "mqqqxw"
    ensures "abcdef1" + data + checksum == "abcdef1qpzry9x8gf2tvdw0s3jn54khce6mua7lmqqqxw"
  {
  }

  // ---- The address of the key that is zero ---------------------------------------------------------

  lemma DigitsErd()
    ensures Digit(3) == 3 && Digit(0) == 0 && Digit(5) == 5 && Digit(18) == 18 && Digit(4) == 4
    ensures Absorb(0x11_8c60, 5) == 0x231_8c05 && Absorb(0x231_8c05, 18) == 0x3d5b_d700
    ensures Absorb(0x3d5b_d700, 4) == 0x4dd_26fd
  {
  }

  lemma RegisterErd()
    ensures Feed(1, [3, 3, 3, 0, 5, 18, 4]) == Value(0x4dd_26fd)
  {
    hide Value, Digit, Feed;
    Start();
    DigitsErd();
    AbsorbFour(0x1, 3, 0x23, 3, 0x463, 3, 0x8c63, 0, 0x11_8c60);
    AbsorbOne(0x11_8c60, 5);
    AbsorbOne(0x231_8c05, 18);
    AbsorbOne(0x3d5b_d700, 4);
    FeedConcat(1, [3, 3, 3, 0], [5]);
    FeedConcat(1, [3, 3, 3, 0] + [5], [18]);
    FeedConcat(1, [3, 3, 3, 0] + [5] + [18], [4]);
    assert [3, 3, 3, 0, 5, 18, 4] == [3, 3, 3, 0] + [5] + [18] + [4];
  }

  /** The register after n zeros. */
  ghost predicate Zeroed(from: word, n: nat, w: word) {
    Feed(Value(from), ZeroSymbols(n)) == Value(w)
  }

  lemma FourMore(from: word, n: nat, w0: word, w1: word, w2: word, w3: word, w4: word)
    requires Zeroed(from, n, w0)
    requires Absorb(w0, 0) == w1 && Absorb(w1, 0) == w2 && Absorb(w2, 0) == w3 && Absorb(w3, 0) == w4
    ensures Zeroed(from, n + 4, w4)
  {
    hide Value, Feed, Absorb;
    FourZeros(w0, w1, w2, w3, w4);
    FeedConcat(Value(from), ZeroSymbols(n), ZeroSymbols(4));
    assert ZeroSymbols(n + 4) == ZeroSymbols(n) + ZeroSymbols(4);
  }

  lemma NoneZeroed(w: word)
    ensures Zeroed(w, 0, w)
  {
    hide Value;
  }

  lemma KeyRegister()
    ensures Zeroed(0x4dd_26fd, 52, 0x105d_23cf)
  {
    hide Zeroed;
    NoneZeroed(0x4dd_26fd);
    FourMore(0x4dd_26fd, 0, 0x4dd_26fd, 0x3df4_51cd, 0x112d_ff59, 0x18fd_d8fd, 0x3c58_3587);
    FourMore(0x4dd_26fd, 4, 0x3c58_3587, 0x24a1_7619, 0x186a_2ffe, 0x2ea6_d5e7, 0x3d55_1e76);
    FourMore(0x4dd_26fd, 8, 0x3d55_1e76, 0x504_0839, 0x6d1_894d, 0x70b_f07f, 0x3c44_d63f);
    FourMore(0x4dd_26fd, 12, 0x3c44_d63f, 0x273d_0119, 0x108e_984c, 0x2c91_3a5d, 0xc2_be84);
    FourMore(0x4dd_26fd, 16, 0xc2_be84, 0x1857_d080, 0x2919_3a27, 0x1792_3fa9, 0x123f_1f22);
    FourMore(0x4dd_26fd, 20, 0x123f_1f22, 0x1cb_802f, 0x3970_05e0, 0x27f7_f494, 0x9d0_29ec);
    FourMore(0x4dd_26fd, 24, 0x9d0_29ec, 0x24a4_247a, 0x18c0_639e, 0x3bef_59e7, 0xf76_23c6);
    FourMore(0x4dd_26fd, 28, 0xf76_23c6, 0x2d5f_b8e5, 0x3912_e984, 0x2baa_7814, 0x3a90_2e7b);
    FourMore(0x4dd_26fd, 32, 0x3a90_2e7b, 0x2098_d046, 0x390e_6a73, 0x283a_06f4, 0x33f5_a5c9);
    FourMore(0x4dd_26fd, 36, 0x33f5_a5c9, 0x1288_bffc, 0x173f_9bef, 0x78b_97e2, 0x2c48_259f);
    FourMore(0x4dd_26fd, 40, 0x2c48_259f, 0x1be1_46c4, 0x24a1_a515, 0x1870_4e7e, 0x2dea_e5e7);
    FourMore(0x4dd_26fd, 44, 0x2dea_e5e7, 0x2fb9_49c4, 0x1ea6_9a16, 0x2a0a_b138, 0xe89_0bfb);
    FourMore(0x4dd_26fd, 48, 0xe89_0bfb, 0x12ba_bf45, 0x117f_8ccf, 0x12b3_aa3d, 0x105d_23cf);
  }

  lemma ChecksumKey()
    ensures Checksum(Value(0x105d_23cf)) == [26, 8, 0, 21, 23, 28]
  {
    hide Value, Checksum;
    ChecksumOf(0x105d_23cf, 0x36e6_4a3d, 0x16a5_cf11, 0x34c1_0822, 0x2927_db43, 0x104e_1329, 0x3480_56fd);
  }

  lemma ExpandErd(syms: seq<symbol>)
    requires syms == [3, 3, 3, 0, 5, 18, 4]
    ensures Expand("erd") == syms
  {
    Expanded("erd", [], syms);
    assert Expand("erd") + [] == Expand("erd");
  }

  lemma AbsorbedKey()
    ensures Absorbed("erd", ZeroSymbols(52)) == Value(0x105d_23cf)
  {
    hide Value, Feed, Expand;
    RegisterErd();
    KeyRegister();
    ExpandErd([3, 3, 3, 0, 5, 18, 4]);
    FeedConcat(1, Expand("erd"), ZeroSymbols(52));
  }

  lemma {:induction false} FlatZeros(n: nat, w: nat)
    ensures Flatten(seq(n, _ => 0), w) == Falses(n * w)
  {
    var zeros := seq(n, _ => 0);
    if n > 0 {
      assert zeros[..n - 1] == seq(n - 1, _ => 0);
      FlatZeros(n - 1, w);
      ZeroBits(w);
      Distribute(n - 1, 1, w);
    }
  }

  lemma {:induction false} ZeroBits(w: nat)
    ensures BitsOf(0, w) == Falses(w)
  {
    if w > 0 {
      ZeroBits(w - 1);
    }
  }

  lemma ZeroKeyPadded(key: Key)
    requires forall i :: 0 <= i < 32 ==> key[i] == 0
    ensures Padded(Flatten(key, 8), ZeroSymbols(52), 5)
  {
    hide Flatten, Pow2, BitsOf;
    Widths();
    FlatZeros(32, 8);
    FlatZeros(52, 5);
    assert key == seq(32, _ => 0);
    assert ZeroSymbols(52) == seq(52, _ => 0);
    assert Falses(256) + Falses(4) == Falses(260);
    assert Split(Flatten(key, 8) + Falses(4), ZeroSymbols(52), 5, []);
  }

  lemma ZeroKeyChars()
    ensures Chars(ZeroSymbols(52)) == seq(52, _ => 'q') && Chars([26, 8, 0, 21, 23, 28]) == "6gq4hu"
  {
  }

  lemma ZeroKeyText(data: string, checksum: string)
    requires data == seq(52, _ => 'q') && checksum == "6gq4hu"
    ensures "erd1" + data + checksum == "erd1qqqqqqqqqqqqqqqqqqqqqqqqqqq" + "qqqqqqqqqqqqqqqqqqqqqqqqq6gq4hu"
  {
  }

  /** The address of the key of 32 zero bytes. */
  lemma ZeroKeyAddress(key: Key)
    requires forall i :: 0 <= i < 32 ==> key[i] == 0
    ensures IsAddress(key, "erd1qqqqqqqqqqqqqqqqqqqqqqqqqqq" + "qqqqqqqqqqqqqqqqqqqqqqqqq6gq4hu")
  {
    hide Value, Absorbed, Checksum, Chars, Padded, Flatten;
    ZeroKeyPadded(key);
    AbsorbedKey();
    ChecksumKey();
    ZeroKeyChars();
    ZeroKeyText(Chars(ZeroSymbols(52)), Chars([26, 8, 0, 21, 23, 28]));
    assert HRP + "1" == "erd1";
    assert Encoding(HRP, ZeroSymbols(52)) == HRP + "1" + Chars(ZeroSymbols(52)) + Chars([26, 8, 0, 21, 23, 28]);
  }

  // ---- A SegWit address ----------------------------------------------------------------------------

  lemma DigitsBc()
    ensures Digit(3) == 3 && Digit(0) == 0 && Digit(2) == 2 && Digit(14) == 14 && Digit(15) == 15
    ensures Digit(16) == 16 && Digit(20) == 20
  {
  }

  lemma RegisterBc()
    ensures Feed(1, [3, 3, 0, 2, 3, 16, 14, 20, 15, 0]) == Value(0x1060_98da)
  {
    hide Value, Digit, Feed;
    Start();
    DigitsBc();
    AbsorbFour(0x1, 3, 0x23, 3, 0x463, 0, 0x8c60, 2, 0x11_8c02);
    AbsorbFour(0x11_8c02, 3, 0x231_8043, 16, 0x3d5a_5fc2, 14, 0x4ec_3eb7, 20, 0x3bd7_5899);
    LastBc();
    FeedConcat(1, [3, 3, 0, 2], [3, 16, 14, 20]);
    FeedConcat(1, [3, 3, 0, 2] + [3, 16, 14, 20], [15, 0]);
    assert [3, 3, 0, 2, 3, 16, 14, 20, 15, 0] == [3, 3, 0, 2] + [3, 16, 14, 20] + [15, 0];
  }

  lemma LastBc()
    ensures Feed(Value(0x3bd7_5899), [15, 0]) == Value(0x1060_98da)
  {
    hide Value, Digit, Feed;
    DigitsBc();
    AbsorbOne(0x3bd7_5899, 15);
    AbsorbOne(0x876_0c09, 0);
    FeedConcat(Value(0x3bd7_5899), [15], [0]);
    assert [15, 0] == [15] + [0];
  }

  lemma ChecksumBc()
    ensures Checksum(Value(0x1060_98da)) == [29, 17, 18, 6, 17, 16]
  {
    hide Value, Checksum;
    ChecksumOf(0x1060_98da, 0x3151_289d, 0x3d73_42ce, 0x1cf_9f39, 0x39f3_e720, 0x378b_ac94, 0x3b19_1a31);
  }

  lemma FirstByte()
    ensures BitsOf(0x75, 8) == [false, true, true, true, false, true, false, true]
  {
  }

  lemma SecondByte()
    ensures BitsOf(0x1e, 8) == [false, false, false, true, true, true, true, false]
  {
  }

  lemma BitsBc()
    ensures BitsOf(14, 5) == [false, true, true, true, false] && BitsOf(15, 5) == [false, true, true, true, true]
    ensures BitsOf(20, 5) == [true, false, true, false, false]
    ensures BitsOf(0, 5) == [false, false, false, false, false]
  {
    hide BitsOf;
    FiveBits(14);
    FiveBits(15);
    FiveBits(20);
    FiveBits(0);
  }

  lemma FiveBits(v: nat)
    ensures BitsOf(v, 5) == [v / 2 / 2 / 2 / 2 % 2 == 1, v / 2 / 2 / 2 % 2 == 1, v / 2 / 2 % 2 == 1, v / 2 % 2 == 1,
                             v % 2 == 1]
  {
    assert BitsOf(v / 2 / 2 / 2, 2) == [v / 2 / 2 / 2 / 2 % 2 == 1, v / 2 / 2 / 2 % 2 == 1];
  }

  lemma FlattenMore(xs: seq<nat>, x: nat, w: nat)
    ensures Flatten(xs + [x], w) == Flatten(xs, w) + BitsOf(x, w)
  {
    assert (xs + [x])[..|xs|] == xs;
  }

  lemma FlattenNothing(w: nat)
    ensures Flatten([], w) == []
  {
  }

  lemma ProgramPadded()
    ensures Padded(Flatten([0x75, 0x1e], 8), [14, 20, 15, 0], 5)
  {
    hide Flatten, BitsOf, Pow2;
    Widths();
    FirstByte();
    SecondByte();
    BitsBc();
    FlattenNothing(8);
    FlattenNothing(5);
    FlattenMore([], 0x75, 8);
    FlattenMore([0x75], 0x1e, 8);
    FlattenMore([], 14, 5);
    FlattenMore([14], 20, 5);
    FlattenMore([14, 20], 15, 5);
    FlattenMore([14, 20, 15], 0, 5);
    assert [0x75] + [0x1e] == [0x75, 0x1e] && [] + [0x75] == [0x75] && [] + [14] == [14];
    assert [14] + [20] == [14, 20] && [14, 20] + [15] == [14, 20, 15] && [14, 20, 15] + [0] == [14, 20, 15, 0];
    assert Split(Flatten([0x75, 0x1e], 8) + Falses(4), [14, 20, 15, 0], 5, []);
  }

  lemma CharsBc()
    ensures Chars([16, 14, 20, 15, 0]) == "sw50q" && Chars([29, 17, 18, 6, 17, 16]) == "a3jx3s"
  {
  }

  lemma TextBc(data: seq<symbol>)
    requires data == [16, 14, 20, 15, 0]
    ensures Encoding("bc", data) == "bc1sw50qa3jx3s" && Encodable("bc", data)
  {
    hide Value, Checksum, Feed, Chars;
    EncodingSymbols("bc", data, [3, 3, 0, 2, 3, 16, 14, 20, 15, 0]);
    RegisterBc();
    ChecksumBc();
    CharsBc();
    assert "bc" + "1" + "sw50q" + "a3jx3s" == "bc1sw50qa3jx3s";
  }

  /** The address of BIP-173 with version 16 and the shortest program. */
  lemma SegwitVector(data: seq<symbol>)
    requires data == [16, 14, 20, 15, 0]
    ensures AddressData(16, [0x75, 0x1e], "bc", data) && Encoding("bc", data) == "bc1sw50qa3jx3s"
    ensures Decodes("bc1sw50qa3jx3s", "bc", data) && ReadsAs("bc", data, 16, [0x75, 0x1e])
  {
    hide Encoding, Decodes, Padded, Flatten, ReadsAs, Encodable;
    TextBc(data);
    ProgramPadded();
    assert data[1..] == [14, 20, 15, 0];
    SegwitAccepted(16, [0x75, 0x1e], "bc", data);
    SegwitRoundTrip(16, [0x75, 0x1e], "bc", data, "bc", data, 16, [0x75, 0x1e]);
  }

  // ---- What is encodable ---------------------------------------------------------------------------

  /** Prefixes without capitals of characters from 33 to 126, symbols below 32, and
      at most 83 of both. */
  lemma EncodableExactly(hrp: string, data: seq<int>)
    ensures Encodable(hrp, data) <==>
      && (forall i :: 0 <= i < |hrp| ==> 33 <= hrp[i] as int <= 126 && !('A' <= hrp[i] <= 'Z'))
      && |hrp| + |data| <= 83 && (forall i :: 0 <= i < |data| ==> 0 <= data[i] < 32)
  {
  }
}
