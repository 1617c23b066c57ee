/** The Bech32 encoder and decoder of BIP-173. */
module Bech32 {
  import opened Bech32Checksum

  const CHARSET: string := "qpzry9x8gf2tvdw0s3jn54khce6mua7l"

  predicate IsLower(c: char) { 'a' <= c <= 'z' }

  predicate IsUpper(c: char) { 'A' <= c <= 'Z' }

  function ToLower(c: char): char {
    if IsUpper(c) then (c as int - 'A' as int + 'a' as int) as char else c
  }

  /** The symbol of a character of either case, or -1. */
  function SymbolOf(c: char): (v: int)
    ensures -1 <= v < 32
  {
    if IsUpper(c) then UpperSymbol(c) else if IsLower(c) then LowerSymbol(c) else DigitSymbol(c)
  }

  function DigitSymbol(c: char): (v: int)
    ensures -1 <= v < 32
  {
    match c
    case '0' => 15 case '2' => 10 case '3' => 17 case '4' => 21 case '5' => 20
    case '6' => 26 case '7' => 30 case '8' => 7 case '9' => 5
    case _ => -1
  }

  function UpperSymbol(c: char): (v: int)
    ensures -1 <= v < 32
  {
    match c
    case 'A' => 29 case 'C' => 24 case 'D' => 13 case 'E' => 25 case 'F' => 9
    case 'G' => 8 case 'H' => 23 case 'J' => 18 case 'K' => 22 case 'L' => 31
    case 'M' => 27 case 'N' => 19 case 'P' => 1 case 'Q' => 0 case 'R' => 3
    case 'S' => 16 case 'T' => 11 case 'U' => 28 case 'V' => 12 case 'W' => 14
    case 'X' => 6 case 'Y' => 4 case 'Z' => 2
    case _ => -1
  }

  function LowerSymbol(c: char): (v: int)
    ensures -1 <= v < 32
  {
    match c
    case 'a' => 29 case 'c' => 24 case 'd' => 13 case 'e' => 25 case 'f' => 9
    case 'g' => 8 case 'h' => 23 case 'j' => 18 case 'k' => 22 case 'l' => 31
    case 'm' => 27 case 'n' => 19 case 'p' => 1 case 'q' => 0 case 'r' => 3
    case 's' => 16 case 't' => 11 case 'u' => 28 case 'v' => 12 case 'w' => 14
    case 'x' => 6 case 'y' => 4 case 'z' => 2
    case _ => -1
  }

  function CharOf(v: symbol): char { CHARSET[v] }

  /** The two tables undo each other, up to case. */
  lemma CharSymbol(v: symbol)
    ensures SymbolOf(CharOf(v)) == v && !IsUpper(CharOf(v)) && CharOf(v) != '1' && CharOf(v) != '\0'
  {
    hide SymbolOf, CharOf;
    if v < 11 {
      EarlyChar(v);
    } else if v < 22 {
      MiddleChar(v);
    } else {
      LateChar(v);
    }
  }

  /** A character that stands for a symbol, and not for its upper-case form. */
  ghost predicate Stands(c: char, v: symbol) {
    SymbolOf(c) == v && !IsUpper(c) && c != '1' && c != '\0'
  }

  lemma EarlyChar(v: symbol)
    requires v < 11
    ensures Stands(CharOf(v), v)
  {
  }

  lemma MiddleChar(v: symbol)
    requires 11 <= v < 22
    ensures Stands(CharOf(v), v)
  {
  }

  lemma LateChar(v: symbol)
    requires 22 <= v
    ensures Stands(CharOf(v), v)
  {
  }

  /** Case does not matter for the symbol. */
  lemma SymbolCase(c: char)
    ensures SymbolOf(ToLower(c)) == SymbolOf(c)
  {
    hide UpperSymbol, LowerSymbol;
    if IsUpper(c) {
      LetterCase(c, ToLower(c));
    }
  }

  lemma LetterCase(c: char, l: char)
    requires IsUpper(c) && l as int == c as int + 32
    ensures UpperSymbol(c) == LowerSymbol(l)
  {
  }

  lemma SymbolChar(c: char)
    requires SymbolOf(c) != -1
    ensures CharOf(SymbolOf(c)) == ToLower(c)
  {
    hide SymbolOf, CharOf;
    SymbolCase(c);
    if ToLower(c) < 'h' {
      EarlyCharBack(ToLower(c));
    } else {
      LateCharBack(ToLower(c));
    }
  }

  lemma EarlyCharBack(c: char)
    requires SymbolOf(c) != -1 && !IsUpper(c) && c < 'h'
    ensures CharOf(SymbolOf(c)) == c
  {
  }

  lemma LateCharBack(c: char)
    requires SymbolOf(c) != -1 && 'h' <= c
    ensures CharOf(SymbolOf(c)) == c
  {
  }

  // ---- Specification ------------------------------------------------------------------

  /** Symbols the human-readable part contributes to the checksum. */
  function HighBits(hrp: string): (s: seq<symbol>)
    requires Printable(hrp)
    ensures |s| == |hrp| && forall i :: 0 <= i < |hrp| ==> s[i] == hrp[i] as int / 32
  {
    seq(|hrp|, i requires 0 <= i < |hrp| => hrp[i] as int / 32)
  }

  function LowBits5(hrp: string): (s: seq<symbol>)
    ensures |s| == |hrp| && forall i :: 0 <= i < |hrp| ==> s[i] == hrp[i] as int % 32
  {
    seq(|hrp|, i requires 0 <= i < |hrp| => hrp[i] as int % 32)
  }

  function Expand(hrp: string): seq<symbol>
    requires Printable(hrp)
  {
    HighBits(hrp) + [0] + LowBits5(hrp)
  }

  ghost predicate Printable(hrp: string) {
    forall i :: 0 <= i < |hrp| ==> 33 <= hrp[i] as int <= 126
  }

  ghost predicate NoUpper(s: string) { forall i :: 0 <= i < |s| ==> !IsUpper(s[i]) }

  ghost predicate NoLower(s: string) { forall i :: 0 <= i < |s| ==> !IsLower(s[i]) }

  function Lower(s: string): (l: string)
    ensures |l| == |s| && forall i :: 0 <= i < |s| ==> l[i] == ToLower(s[i])
  {
    seq(|s|, i requires 0 <= i < |s| => ToLower(s[i]))
  }

  function Chars(d: seq<symbol>): (s: string)
    ensures |s| == |d| && forall i :: 0 <= i < |d| ==> s[i] == CharOf(d[i])
  {
    seq(|d|, i requires 0 <= i < |d| => CharOf(d[i]))
  }

  ghost predicate InCharset(s: string) { forall i :: 0 <= i < |s| ==> SymbolOf(s[i]) != -1 }

  function Symbols(s: string): (d: seq<symbol>)
    requires InCharset(s)
    ensures |d| == |s| && forall i :: 0 <= i < |s| ==> d[i] == SymbolOf(s[i])
  {
    seq(|s|, i requires 0 <= i < |s| => SymbolOf(s[i]))
  }

  /** What the encoder accepts: a lower-case printable prefix, five-bit data and
      at most 90 characters in all. */
  ghost predicate Encodable(hrp: string, data: seq<int>) {
    && Printable(hrp) && NoUpper(hrp)
    && |hrp| + 7 + |data| <= 90
    && forall i :: 0 <= i < |data| ==> 0 <= data[i] < 32
  }

  /** The register after prefix and data. */
  ghost function Absorbed(hrp: string, data: seq<symbol>): nat
    requires Printable(hrp)
  {
    Feed(1, Expand(hrp) + data)
  }

  ghost function Encoding(hrp: string, data: seq<symbol>): string
    requires Printable(hrp)
  {
    hrp + "1" + Chars(data) + Chars(Checksum(Absorbed(hrp, data)))
  }

  /** s splits at its last separator into prefix and data part. */
  ghost predicate SplitsAt(s: string, sep: nat) {
    && sep < |s| && s[sep] == '1'
    && forall i :: sep < i < |s| ==> s[i] != '1'
  }

  /** What the decoder accepts, and what it returns for it. */
  ghost predicate Decodes(s: string, hrp: string, data: seq<symbol>) {
    && 8 <= |s| <= 90
    && (NoUpper(s) || NoLower(s))
    && |s| == |hrp| + 1 + |data| + 6 && hrp != []
    && SplitsAt(s, |hrp|)
    && Printable(s[..|hrp|]) && hrp == Lower(s[..|hrp|])
    && InCharset(s[|hrp| + 1..])
    && Symbols(s[|hrp| + 1..])[..|data|] == data
    && Feed(1, Expand(hrp) + Symbols(s[|hrp| + 1..])) == 1
  }

  // ---- Theorems --------------------------------------------------------------------------

  lemma LowerFacts(c: char)
    ensures !IsUpper(ToLower(c))
    ensures ToLower(c) == '1' <==> c == '1'
    ensures 33 <= ToLower(c) as int <= 126 <==> 33 <= c as int <= 126
    ensures ToLower(c) as int % 32 == c as int % 32
    ensures !IsUpper(c) ==> ToLower(c) == c
  {
  }

  lemma CharsSymbols(d: seq<symbol>)
    ensures InCharset(Chars(d)) && Symbols(Chars(d)) == d && NoUpper(Chars(d))
    ensures forall i :: 0 <= i < |d| ==> Chars(d)[i] != '1'
  {
    hide SymbolOf, CharOf, IsUpper;
    forall i | 0 <= i < |d| ensures SymbolOf(Chars(d)[i]) == d[i] && !IsUpper(Chars(d)[i]) && Chars(d)[i] != '1' {
      CharSymbol(d[i]);
    }
  }

  lemma SymbolsChars(s: string)
    requires InCharset(s)
    ensures Chars(Symbols(s)) == Lower(s)
  {
    hide SymbolOf, CharOf, ToLower;
    forall i | 0 <= i < |s| ensures CharOf(SymbolOf(s[i])) == ToLower(s[i]) {
      SymbolChar(s[i]);
    }
  }

  /** A codeword is its data followed by the checksum of its data. */
  lemma CodewordChecksum(hrp: string, syms: seq<symbol>, n: nat)
    requires Printable(hrp) && |syms| == n + 6
    ensures Feed(1, Expand(hrp) + syms) == 1 <==> syms == syms[..n] + Checksum(Absorbed(hrp, syms[..n]))
  {
    hide Checksum, Feed;
    var data, cs := syms[..n], syms[n..];
    assert syms == data + cs;
    assert Expand(hrp) + syms == Expand(hrp) + data + cs;
    FeedConcat(1, Expand(hrp) + data, cs);
    FeedState(1, Expand(hrp) + data);
    ChecksumIff(Absorbed(hrp, data), cs);
  }

  lemma LowerParts(s: string, k: nat)
    requires k < |s| && s[k] == '1'
    ensures Lower(s) == Lower(s[..k]) + "1" + Lower(s[k + 1..])
  {
    hide ToLower;
    LowerFacts('1');
  }

  lemma CharsConcat(a: seq<symbol>, b: seq<symbol>)
    ensures Chars(a + b) == Chars(a) + Chars(b)
  {
  }

  /** Re-encoding what was decoded gives the lower-case form back. */
  lemma DecodeThenEncode(s: string, hrp: string, data: seq<symbol>)
    requires Decodes(s, hrp, data)
    ensures hrp != [] && Encodable(hrp, data) && Lower(s) == Encoding(hrp, data) && (NoUpper(s) || NoLower(s))
  {
    hide Checksum, Feed, SymbolOf, CharOf, ToLower, IsUpper, IsLower;
    forall i | 0 <= i < |hrp| ensures !IsUpper(hrp[i]) && 33 <= hrp[i] as int <= 126 {
      LowerFacts(s[i]);
    }
    var tail := s[|hrp| + 1..];
    CodewordChecksum(hrp, Symbols(tail), |data|);
    SymbolsChars(tail);
    LowerParts(s, |hrp|);
    CharsConcat(data, Checksum(Absorbed(hrp, data)));
  }

  /** The data part of any-case text of symbols reads as those symbols. */
  lemma TailSymbols(tail: string, syms: seq<symbol>)
    requires Lower(tail) == Chars(syms)
    ensures InCharset(tail) && Symbols(tail) == syms
    ensures forall i :: 0 <= i < |tail| ==> tail[i] != '1'
  {
    hide SymbolOf, CharOf, ToLower, IsUpper;
    CharsSymbols(syms);
    forall i | 0 <= i < |tail| ensures SymbolOf(tail[i]) == syms[i] && tail[i] != '1' {
      assert ToLower(tail[i]) == Lower(tail)[i] == Chars(syms)[i];
      SymbolCase(tail[i]);
      LowerFacts(tail[i]);
    }
  }

  /** Text whose lower-case form is given in three parts has those parts. */
  lemma LowerSplits(s: string, hrp: string, rest: string)
    requires Lower(s) == hrp + "1" + rest
    ensures |s| == |hrp| + 1 + |rest| && s[|hrp|] == '1'
    ensures Lower(s[..|hrp|]) == hrp && Lower(s[|hrp| + 1..]) == rest
  {
    hide ToLower;
    LowerFacts(s[|hrp|]);
    assert ToLower(s[|hrp|]) == Lower(s)[|hrp|];
    assert Lower(s[..|hrp|]) == Lower(s)[..|hrp|] && Lower(s[|hrp| + 1..]) == Lower(s)[|hrp| + 1..];
  }

  lemma LowerPrintable(s: string)
    ensures Printable(Lower(s)) <==> Printable(s)
  {
    hide ToLower;
    forall i | 0 <= i < |s| ensures 33 <= ToLower(s[i]) as int <= 126 <==> 33 <= s[i] as int <= 126 {
      LowerFacts(s[i]);
    }
    assert forall i :: 0 <= i < |s| ==> Lower(s)[i] == ToLower(s[i]);
  }

  /** Any one-case form of an encoding decodes to what was encoded. */
  lemma EncodeThenDecode(s: string, hrp: string, data: seq<symbol>)
    requires hrp != [] && Encodable(hrp, data)
    requires Lower(s) == Encoding(hrp, data) && (NoUpper(s) || NoLower(s))
    ensures Decodes(s, hrp, data)
  {
    hide Checksum, Feed, Lower, Chars, Symbols, Printable, InCharset, NoUpper, NoLower, Expand, Absorbed;
    var cs := Checksum(Absorbed(hrp, data));
    var syms := data + cs;
    CharsConcat(data, cs);
    assert Encoding(hrp, data) == hrp + "1" + Chars(syms);
    LowerSplits(s, hrp, Chars(syms));
    LowerPrintable(s[..|hrp|]);
    TailSymbols(s[|hrp| + 1..], syms);
    assert forall i :: |hrp| < i < |s| ==> s[i] == s[|hrp| + 1..][i - |hrp| - 1];
    assert syms[..|data|] == data;
    CodewordChecksum(hrp, syms, |data|);
  }

  /** The decoder accepts exactly the one-case forms of encodings with a
      non-empty prefix, and returns what was encoded. */
  lemma DecodesIff(s: string, hrp: string, data: seq<symbol>)
    ensures Decodes(s, hrp, data) <==>
      && hrp != [] && Encodable(hrp, data)
      && Lower(s) == Encoding(hrp, data) && (NoUpper(s) || NoLower(s))
  {
    hide Decodes, Encoding, Lower, NoUpper, NoLower;
    if Decodes(s, hrp, data) {
      DecodeThenEncode(s, hrp, data);
    } else if hrp != [] && Encodable(hrp, data) && Lower(s) == Encoding(hrp, data) && (NoUpper(s) || NoLower(s)) {
      EncodeThenDecode(s, hrp, data);
    }
  }

  /** Encodings determine what was encoded. */
  lemma EncodingInjective(hrp: string, data: seq<symbol>, hrp': string, data': seq<symbol>)
    requires hrp != [] && Encodable(hrp, data) && hrp' != [] && Encodable(hrp', data')
    requires Encoding(hrp, data) == Encoding(hrp', data')
    ensures hrp == hrp' && data == data'
  {
    var s := Encoding(hrp, data);
    EncodingLower(hrp, data);
    EncodeThenDecode(s, hrp, data);
    EncodeThenDecode(s, hrp', data');
    DecodesOnce(s, hrp, data, hrp', data');
  }

  lemma EncodingLower(hrp: string, data: seq<symbol>)
    requires Encodable(hrp, data)
    ensures NoUpper(Encoding(hrp, data)) && Lower(Encoding(hrp, data)) == Encoding(hrp, data)
  {
    CharsSymbols(data);
    CharsSymbols(Checksum(Absorbed(hrp, data)));
  }

  lemma DecodesOnce(s: string, hrp: string, data: seq<symbol>, hrp': string, data': seq<symbol>)
    requires Decodes(s, hrp, data) && Decodes(s, hrp', data')
    ensures hrp == hrp' && data == data'
  {
    assert |hrp| == |hrp'|;
  }

  /** Burst detection on strings: two accepted strings with the same prefix and
      length whose data parts differ only inside a window of six characters
      carry the same symbols, so at most their case differs. */
  lemma BurstErrorDetected(s: string, t: string, hrp: string, d: seq<symbol>, e: seq<symbol>, i: nat)
    requires Decodes(s, hrp, d) && Decodes(t, hrp, e) && |s| == |t|
    requires forall k :: |hrp| + 1 <= k < |s| && !(i <= k < i + 6) ==> s[k] == t[k]
    ensures Lower(s) == Lower(t) && d == e
  {
    hide Feed;
    var x := Expand(hrp);
    var u, v := Symbols(s[|hrp| + 1..]), Symbols(t[|hrp| + 1..]);
    var j := if i <= |hrp| + 1 then 0 else if i > |s| then |u| else i - |hrp| - 1;
    forall k | 0 <= k < |u| && !(j <= k < j + 6) ensures u[k] == v[k] {
      assert s[|hrp| + 1 + k] == t[|hrp| + 1 + k];
    }
    FeedConcat(1, x, u);
    FeedConcat(1, x, v);
    FeedState(1, x);
    BurstDetected(Feed(1, x), u, v, j);
    DecodeThenEncode(s, hrp, d);
    DecodeThenEncode(t, hrp, e);
  }
}
