/** The Bech32 encoder and decoder as loops over character buffers. */
module Bech32Codec {
  import opened Words
  import opened BitXor
  import opened Bech32Checksum
  import opened Bech32

  lemma StepZero(start: nat, syms: seq<symbol>)
    ensures Feed(start, syms + [0]) == PolymodStep(Feed(start, syms))
  {
    hide Xor, PolymodStep;
    FeedMore(start, syms, 0);
    XorZero(PolymodStep(Feed(start, syms)));
  }

  /** Symbol i of a checksum value, by shifting. */
  lemma SixAt(c: nat, i: nat)
    requires i < 6
    ensures c / Pow2((5 - i) * 5) % 32 == SixSymbols(c)[i]
  {
    assert Pow2(5) == 32;
    Pow2Add(5, 5);
    Pow2Add(10, 5);
    Pow2Add(15, 5);
    Pow2Add(20, 5);
  }

  // ---- One more character -------------------------------------------------------------

  lemma NextChar(s: string, i: nat)
    requires i < |s|
    ensures Printable(s[..i + 1]) <==> Printable(s[..i]) && 33 <= s[i] as int <= 126
    ensures NoUpper(s[..i + 1]) <==> NoUpper(s[..i]) && !IsUpper(s[i])
    ensures NoLower(s[..i + 1]) <==> NoLower(s[..i]) && !IsLower(s[i])
    ensures InCharset(s[..i + 1]) <==> InCharset(s[..i]) && SymbolOf(s[i]) != -1
  {
    hide IsUpper, IsLower, SymbolOf;
    var t := s[..i + 1];
    assert t == s[..i] + [s[i]];
    assert t[i] == s[i] && forall k :: 0 <= k < i ==> t[k] == s[..i][k];
  }

  lemma PrefixHolds(s: string, i: nat)
    requires i <= |s|
    ensures Printable(s) ==> Printable(s[..i])
    ensures NoUpper(s) ==> NoUpper(s[..i])
    ensures InCharset(s) ==> InCharset(s[..i])
  {
    hide IsUpper, SymbolOf;
    assert forall k :: 0 <= k < i ==> s[..i][k] == s[k];
  }

  lemma NextSymbol(prefix: seq<symbol>, syms: seq<symbol>, i: nat)
    requires i < |syms|
    ensures Xor(PolymodStep(Feed(1, prefix + syms[..i])), syms[i]) == Feed(1, prefix + syms[..i + 1])
  {
    hide Xor, PolymodStep, Feed;
    assert prefix + syms[..i + 1] == prefix + syms[..i] + [syms[i]];
    FeedMore(1, prefix + syms[..i], syms[i]);
  }

  lemma NextHigh(s: string, i: nat)
    requires i < |s| && Printable(s[..i + 1])
    ensures Printable(s[..i])
    ensures Xor(PolymodStep(Feed(1, HighBits(s[..i]))), s[i] as int / 32) == Feed(1, HighBits(s[..i + 1]))
  {
    hide Xor, PolymodStep, Feed;
    var syms := HighBits(s[..i + 1]);
    PrefixHolds(s[..i + 1], i);
    assert s[..i + 1][..i] == s[..i];
    assert [] + syms[..i] == HighBits(s[..i]) && [] + syms[..i + 1] == syms;
    NextSymbol([], syms, i);
  }

  lemma NextLow(prefix: seq<symbol>, s: string, i: nat)
    requires i < |s|
    ensures Xor(PolymodStep(Feed(1, prefix + LowBits5(s[..i]))), s[i] as int % 32)
      == Feed(1, prefix + LowBits5(s[..i + 1]))
  {
    hide Xor, PolymodStep, Feed;
    var syms := LowBits5(s);
    assert syms[..i] == LowBits5(s[..i]) && syms[..i + 1] == LowBits5(s[..i + 1]);
    NextSymbol(prefix, syms, i);
  }

  lemma NextData(prefix: seq<symbol>, s: string, i: nat)
    requires i < |s| && InCharset(s[..i + 1])
    ensures InCharset(s[..i])
    ensures Xor(PolymodStep(Feed(1, prefix + Symbols(s[..i]))), SymbolOf(s[i])) == Feed(1, prefix + Symbols(s[..i + 1]))
  {
    hide Xor, PolymodStep, Feed, SymbolOf;
    var syms := Symbols(s[..i + 1]);
    PrefixHolds(s[..i + 1], i);
    assert s[..i + 1][..i] == s[..i];
    assert syms[..i] == Symbols(s[..i]) && syms[..i + 1] == syms;
    NextSymbol(prefix, syms, i);
  }

  lemma Empty(s: string, prefix: seq<symbol>)
    ensures Printable(s[..0]) && NoUpper(s[..0]) && NoLower(s[..0]) && InCharset(s[..0])
    ensures HighBits(s[..0]) == [] && prefix + LowBits5(s[..0]) == prefix && prefix + Symbols(s[..0]) == prefix
    ensures Feed(1, []) == 1
  {
  }

  // ---- Encoder ---------------------------------------------------------------------------

  /** First pass over the prefix: checks it and absorbs its high bits. */
  method AbsorbHighBits(hrp: string) returns (ok: bool, chk: nat)
    ensures ok <==> Printable(hrp) && NoUpper(hrp)
    ensures ok ==> chk == Feed(1, HighBits(hrp))
  {
    hide Xor, PolymodStep, Feed, IsUpper, NoUpper, Printable, HighBits;
    chk := 1;
    Empty(hrp, []);
    for i := 0 to |hrp|
      invariant Printable(hrp[..i]) && NoUpper(hrp[..i])
      invariant chk == Feed(1, HighBits(hrp[..i]))
    {
      NextChar(hrp, i);
      PrefixHolds(hrp, i + 1);
      var ch := hrp[i] as int;
      if ch < 33 || ch > 126 {
        return false, chk;
      }
      if IsUpper(hrp[i]) {
        return false, chk;
      }
      NextHigh(hrp, i);
      chk := Xor(PolymodStep(chk), ch / 32);
    }
    assert hrp[..|hrp|] == hrp;
    ok := true;
  }

  /** The three parts of an encoding, side by side. */
  lemma EncodingParts(output: seq<char>, hrp: string, data: seq<symbol>)
    requires Printable(hrp) && |output| >= |hrp| + |data| + 7
    requires output[..|hrp| + 1] == hrp + "1"
    requires output[|hrp| + 1..|hrp| + 1 + |data|] == Chars(data)
    requires output[|hrp| + 1 + |data|..|hrp| + 7 + |data|] == Chars(Checksum(Absorbed(hrp, data)))
    ensures |Encoding(hrp, data)| == |hrp| + 7 + |data| && output[..|hrp| + 7 + |data|] == Encoding(hrp, data)
  {
    hide Checksum, Absorbed, CharOf, Printable;
    var at := |hrp| + 1 + |data|;
    assert output[..at] == output[..|hrp| + 1] + output[|hrp| + 1..at];
    assert output[..at + 6] == output[..at] + output[at..at + 6];
  }

  /** Writes the encoding and its terminator; fails exactly on input that is not
      encodable. */
  method Encode(output: array<char>, hrp: string, data: seq<uint8>) returns (ok: bool)
    requires output.Length >= |hrp| + |data| + 8
    modifies output
    ensures ok <==> Encodable(hrp, data)
    ensures ok ==>
      var text := Encoding(hrp, data);
      output[..|text|] == text && output[|text|] == '\0'
  {
    hide Xor, PolymodStep, Feed, Checksum, Printable, NoUpper, HighBits, LowBits5, Chars, Encoding;
    var valid, chk := AbsorbHighBits(hrp);
    if !valid {
      return false;
    }
    if |hrp| + 7 + |data| > 90 {
      return false;
    }
    StepZero(1, HighBits(hrp));
    chk := PolymodStep(chk);
    chk := WritePrefix(output, hrp, chk);
    output[|hrp|] := '1';
    assert output[..|hrp| + 1] == hrp + "1";
    var fits, chk' := WriteData(output, hrp, data, chk);
    if !fits {
      return false;
    }
    var at := |hrp| + 1 + |data|;
    ghost var before := output[..at];
    WriteChecksum(output, at, chk');
    assert output[..|hrp| + 1] == before[..|hrp| + 1] && output[|hrp| + 1..at] == before[|hrp| + 1..];
    EncodingParts(output[..], hrp, data);
    return true;
  }

  /** Second pass over the prefix: low bits into the register, text out. */
  method WritePrefix(output: array<char>, hrp: string, start: nat) returns (chk: nat)
    requires Printable(hrp) && output.Length >= |hrp| && start == Feed(1, HighBits(hrp) + [0])
    modifies output
    ensures chk == Feed(1, Expand(hrp))
    ensures output[..|hrp|] == hrp
  {
    hide Xor, PolymodStep, Feed, Printable, HighBits, LowBits5;
    ghost var prefix := HighBits(hrp) + [0];
    chk := start;
    Empty(hrp, prefix);
    for i := 0 to |hrp|
      invariant chk == Feed(1, prefix + LowBits5(hrp[..i]))
      invariant output[..i] == hrp[..i]
    {
      NextLow(prefix, hrp, i);
      chk := Xor(PolymodStep(chk), hrp[i] as int % 32);
      output[i] := hrp[i];
    }
    assert hrp[..|hrp|] == hrp;
  }

  /** The data symbols, up to the first value of more than five bits. */
  method WriteData(output: array<char>, hrp: string, data: seq<uint8>, start: nat) returns (ok: bool, chk: nat)
    requires Printable(hrp) && output.Length >= |hrp| + 1 + |data| && start == Feed(1, Expand(hrp))
    modifies output
    ensures ok <==> forall i :: 0 <= i < |data| ==> data[i] < 32
    ensures ok ==> chk == Absorbed(hrp, data)
    ensures output[..|hrp| + 1] == old(output[..|hrp| + 1])
    ensures ok ==> output[|hrp| + 1..|hrp| + 1 + |data|] == Chars(data)
  {
    hide Xor, PolymodStep, Feed, Printable, Expand, CharOf;
    chk := start;
    ghost var prefix := Expand(hrp);
    assert prefix + data[..0] == prefix;
    for i := 0 to |data|
      invariant forall k :: 0 <= k < i ==> data[k] < 32
      invariant chk == Feed(1, prefix + data[..i])
      invariant output[..|hrp| + 1] == old(output[..|hrp| + 1])
      invariant forall k :: 0 <= k < i ==> output[|hrp| + 1 + k] == CharOf(data[k])
    {
      if data[i] / 32 != 0 {
        return false, chk;
      }
      ghost var syms: seq<symbol> := data[..i + 1];
      assert syms[..i] == data[..i] && syms[..i + 1] == data[..i + 1];
      NextSymbol(prefix, syms, i);
      chk := Xor(PolymodStep(chk), data[i]);
      output[|hrp| + 1 + i] := CharOf(data[i]);
    }
    assert data[..|data|] == data;
    return true, chk;
  }

  /** Six more steps, the final constant, and the six checksum characters. */
  method WriteChecksum(output: array<char>, at: nat, start: nat)
    requires output.Length >= at + 7
    modifies output
    ensures output[..at] == old(output[..at])
    ensures output[at..at + 6] == Chars(Checksum(start)) && output[at + 6] == '\0'
  {
    hide Xor, PolymodStep, SixSymbols, CharOf;
    var chk := start;
    for i := 0 to 6
      invariant chk == Feed(start, ZeroSymbols(i))
      invariant output[..at] == old(output[..at])
    {
      StepZero(start, ZeroSymbols(i));
      assert ZeroSymbols(i + 1) == ZeroSymbols(i) + [0];
      chk := PolymodStep(chk);
    }
    chk := Xor(chk, 1);
    assert SixSymbols(chk) == Checksum(start);
    for i := 0 to 6
      invariant output[..at] == old(output[..at])
      invariant forall k :: 0 <= k < i ==> output[at + k] == CharOf(Checksum(start)[k])
    {
      SixAt(chk, i);
      output[at + i] := CharOf(chk / Pow2((5 - i) * 5) % 32);
    }
    output[at + 6] := '\0';
  }

  // ---- Decoder ------------------------------------------------------------------------------

  lemma OneCase(c: char)
    ensures !(IsLower(c) && IsUpper(c)) && (!IsUpper(c) ==> ToLower(c) == c)
  {
  }

  /** First pass over the prefix: checks and lower-cases it. */
  method ReadPrefix(hrp: array<char>, head: string)
    returns (ok: bool, chk: nat, haveLower: bool, haveUpper: bool)
    requires |head| < hrp.Length
    modifies hrp
    ensures ok <==> Printable(head)
    ensures ok ==> hrp[..|head|] == Lower(head) && hrp[|head|] == '\0'
    ensures ok ==> Printable(Lower(head)) && chk == Feed(1, HighBits(Lower(head)))
    ensures ok ==> (haveLower <==> !NoLower(head)) && (haveUpper <==> !NoUpper(head))
  {
    hide Xor, PolymodStep, Feed, ToLower, IsUpper, IsLower, NoUpper, NoLower, Printable, HighBits, Lower;
    ghost var low := Lower(head);
    LowerPrintable(head);
    chk, haveLower, haveUpper := 1, false, false;
    Empty(low, []);
    Empty(head, []);
    for i := 0 to |head|
      invariant Printable(head[..i]) && Printable(low[..i]) && hrp[..i] == low[..i]
      invariant chk == Feed(1, HighBits(low[..i]))
      invariant haveLower <==> !NoLower(head[..i])
      invariant haveUpper <==> !NoUpper(head[..i])
    {
      NextChar(head, i);
      NextChar(low, i);
      PrefixHolds(head, i + 1);
      var ch := head[i];
      LowerFacts(ch);
      LowerAt(head, i);
      if ch as int < 33 || ch as int > 126 {
        return false, chk, haveLower, haveUpper;
      }
      OneCase(ch);
      if IsLower(ch) {
        haveLower := true;
      } else if IsUpper(ch) {
        haveUpper := true;
        ch := ToLower(ch);
      }
      hrp[i] := ch;
      NextHigh(low, i);
      chk := Xor(PolymodStep(chk), ch as int / 32);
    }
    hrp[|head|] := '\0';
    assert low[..|head|] == low && head[..|head|] == head;
    ok := true;
  }

  lemma LowerAt(s: string, i: nat)
    requires i < |s|
    ensures |Lower(s)| == |s| && Lower(s)[i] == ToLower(s[i])
  {
  }

  /** Second pass over the prefix, as received: case does not matter any more. */
  method AbsorbLowBits(head: string, start: nat) returns (chk: nat)
    requires Printable(Lower(head)) && start == Feed(1, HighBits(Lower(head)) + [0])
    ensures chk == Feed(1, Expand(Lower(head)))
  {
    hide Xor, PolymodStep, Feed, ToLower, Printable, HighBits, LowBits5, Lower;
    ghost var low := Lower(head);
    ghost var prefix := HighBits(low) + [0];
    chk := start;
    Empty(low, prefix);
    for i := 0 to |head|
      invariant chk == Feed(1, prefix + LowBits5(low[..i]))
    {
      LowerFacts(head[i]);
      LowerAt(head, i);
      NextLow(prefix, low, i);
      chk := Xor(PolymodStep(chk), head[i] as int % 32);
    }
    assert low[..|head|] == low;
  }

  /** The data part: every character to a symbol, all but the last six stored. */
  method ReadData(data: array<uint8>, tail: string, ghost prefix: seq<symbol>, start: nat)
    returns (ok: bool, chk: nat, haveLower: bool, haveUpper: bool)
    requires |tail| >= 6 && |tail| - 6 <= data.Length && start == Feed(1, prefix)
    modifies data
    ensures ok <==> InCharset(tail)
    ensures ok ==> chk == Feed(1, prefix + Symbols(tail))
    ensures ok ==> data[..|tail| - 6] == Symbols(tail)[..|tail| - 6]
    ensures ok ==> (haveLower <==> !NoLower(tail)) && (haveUpper <==> !NoUpper(tail))
  {
    hide Xor, PolymodStep, Feed, SymbolOf, IsUpper, IsLower, NoUpper, NoLower, InCharset, Symbols;
    chk, haveLower, haveUpper := start, false, false;
    Empty(tail, prefix);
    for i := 0 to |tail|
      invariant InCharset(tail[..i])
      invariant chk == Feed(1, prefix + Symbols(tail[..i]))
      invariant haveLower <==> !NoLower(tail[..i])
      invariant haveUpper <==> !NoUpper(tail[..i])
      invariant forall k :: 0 <= k < i && k < |tail| - 6 ==> data[k] == SymbolOf(tail[k])
    {
      NextChar(tail, i);
      PrefixHolds(tail, i + 1);
      var c := tail[i];
      var v := SymbolOf(c);
      if IsLower(c) { haveLower := true; }
      if IsUpper(c) { haveUpper := true; }
      if v == -1 {
        return false, chk, haveLower, haveUpper;
      }
      NextData(prefix, tail, i);
      chk := Xor(PolymodStep(chk), v);
      if i + 6 < |tail| {
        data[i] := v;
      }
    }
    assert tail[..|tail|] == tail;
    SymbolsAt(tail);
    ok := true;
  }

  lemma SymbolsAt(s: string)
    requires InCharset(s)
    ensures |Symbols(s)| == |s| && forall k :: 0 <= k < |s| ==> Symbols(s)[k] == SymbolOf(s[k])
  {
  }

  /** Decodes a string; fails exactly when nothing decodes from it. */
  method Decode(hrp: array<char>, data: array<uint8>, input: string)
    returns (ok: bool, hrpLen: nat, dataLen: nat)
    requires |input| <= 90 ==> hrp.Length + 6 >= |input| && data.Length + 8 >= |input|
    modifies hrp, data
    ensures ok ==> hrpLen < hrp.Length && dataLen <= data.Length && hrp[hrpLen] == '\0'
    ensures ok ==> (forall i :: 0 <= i < dataLen ==> data[i] < 32) && Decodes(input, hrp[..hrpLen], data[..dataLen])
    ensures !ok ==> forall h, d :: !Decodes(input, h, d)
  {
    hide PartsDecode, Lower, Symbols, InCharset, NoUpper, NoLower, Printable, Feed, Expand;
    hrpLen, dataLen := 0, 0;
    if |input| < 8 || |input| > 90 {
      return false, hrpLen, dataLen;
    }
    while dataLen < |input| && input[|input| - 1 - dataLen] != '1'
      invariant 0 <= dataLen <= |input|
      invariant forall k :: |input| - dataLen <= k < |input| ==> input[k] != '1'
    {
      dataLen := dataLen + 1;
    }
    if 1 + dataLen >= |input| || dataLen < 6 {
      NoSplit(input, dataLen);
      return false, hrpLen, dataLen;
    }
    hrpLen := |input| - (1 + dataLen);
    dataLen := dataLen - 6;
    OnlySplit(input, hrpLen);
    ok := DecodeParts(hrp, data, input[..hrpLen], input[hrpLen + 1..]);
    JoinParts(input, hrpLen);
  }

  /** Prefix and data part on their own. */
  ghost predicate PartsDecode(head: string, tail: string) {
    && Printable(head) && Printable(Lower(head)) && InCharset(tail)
    && ((NoUpper(head) && NoUpper(tail)) || (NoLower(head) && NoLower(tail)))
    && Feed(1, Expand(Lower(head)) + Symbols(tail)) == 1
  }

  method DecodeParts(hrp: array<char>, data: array<uint8>, head: string, tail: string) returns (ok: bool)
    requires |head| < hrp.Length && |tail| >= 6 && |tail| - 6 <= data.Length
    modifies hrp, data
    ensures ok <==> PartsDecode(head, tail)
    ensures ok ==> hrp[..|head|] == Lower(head) && hrp[|head|] == '\0'
    ensures ok ==> data[..|tail| - 6] == Symbols(tail)[..|tail| - 6]
  {
    hide Feed, Printable, InCharset, NoUpper, NoLower, Expand, Symbols, Lower;
    var okHrp, chk, lower1, upper1 := ReadPrefix(hrp, head);
    if !okHrp {
      return false;
    }
    StepZero(1, HighBits(Lower(head)));
    chk := PolymodStep(chk);
    chk := AbsorbLowBits(head, chk);
    var okData, chk', lower2, upper2 := ReadData(data, tail, Expand(Lower(head)), chk);
    if !okData {
      return false;
    }
    if (lower1 || lower2) && (upper1 || upper2) {
      return false;
    }
    ok := chk' == 1;
  }

  lemma JoinParts(input: string, sep: nat)
    requires 8 <= |input| <= 90 && 0 < sep && sep + 7 <= |input| && SplitsAt(input, sep)
    ensures
      var head, tail := input[..sep], input[sep + 1..];
      if PartsDecode(head, tail) then Decodes(input, Lower(head), Symbols(tail)[..|tail| - 6])
      else forall h, d :: !Decodes(input, h, d)
  {
    hide IsUpper, IsLower, SymbolOf, Feed, ToLower;
    CasesJoin(input, sep);
    LowerPrintable(input[..sep]);
    OnlySplit(input, sep);
  }

  /** Without a last separator in the right range nothing decodes. */
  lemma NoSplit(input: string, dataLen: nat)
    requires dataLen <= |input| && forall k :: |input| - dataLen <= k < |input| ==> input[k] != '1'
    requires 1 + dataLen >= |input| || (dataLen < 6 && input[|input| - 1 - dataLen] == '1')
    ensures forall h, d :: !Decodes(input, h, d)
  {
    forall h, d ensures !Decodes(input, h, d) {
      assert SplitsAt(input, |h|) ==> |h| < |input| - dataLen;
    }
  }

  /** The last separator is the only place where a decodable string splits. */
  lemma OnlySplit(input: string, sep: nat)
    requires SplitsAt(input, sep)
    ensures forall h, d :: Decodes(input, h, d) ==> |h| == sep
  {
  }

  lemma CasesJoin(s: string, k: nat)
    requires SplitsAt(s, k)
    ensures NoUpper(s) <==> NoUpper(s[..k]) && NoUpper(s[k + 1..])
    ensures NoLower(s) <==> NoLower(s[..k]) && NoLower(s[k + 1..])
  {
    assert s == s[..k] + "1" + s[k + 1..];
  }
}
