/** Base64 decoding (RFC 4648, section 4) into printable text. */
module Base64 {
  import opened Words
  import opened Wrappers
  import opened CStrings

  predicate IsBase64Char(c: char) {
    'A' <= c <= 'Z' || 'a' <= c <= 'z' || c == '+' || c == '/' || c == '=' || '0' <= c <= '9'
  }

  /** Value of a character; padding and anything else count as zero. */
  function DecodeByte(c: char): (v: nat)
    ensures v < 64
  {
    if 'A' <= c <= 'Z' then c as int - 'A' as int
    else if 'a' <= c <= 'z' then c as int - 'a' as int + 26
    else if '0' <= c <= '9' then c as int - '0' as int + 52
    else if c == '+' then 62
    else if c == '/' then 63
    else 0
  }

  /** The character of a six-bit value. */
  function EncodeChar(v: nat): char
    requires v < 64
  {
    if v < 26 then ('A' as int + v) as char
    else if v < 52 then ('a' as int + v - 26) as char
    else if v < 62 then ('0' as int + v - 52) as char
    else if v == 62 then '+'
    else '/'
  }

  lemma EncodeDecodeChar(v: nat)
    requires v < 64
    ensures IsBase64Char(EncodeChar(v)) && DecodeByte(EncodeChar(v)) == v
    ensures EncodeChar(v) != '=' && EncodeChar(v) != '"' && EncodeChar(v) != '\0'
  {
  }

  /** Bytes outside the printable range are shown as question marks. */
  function Shown(b: nat): char {
    if b < 32 || b > 126 then '?' else b as char
  }

  // ---- Specification --------------------------------------------------------------

  /** Four characters as one 24-bit value. */
  function Quad(s: string): (n: nat)
    requires |s| == 4
    ensures n < 0x100_0000
  {
    ((DecodeByte(s[0]) * 64 + DecodeByte(s[1])) * 64 + DecodeByte(s[2])) * 64 + DecodeByte(s[3])
  }

  function Triple(n: nat): (b: seq<nat>)
    requires n < 0x100_0000
    ensures |b| == 3 && forall i :: 0 <= i < 3 ==> b[i] < 256
  {
    [n / 0x1_0000, n / 0x100 % 0x100, n % 0x100]
  }

  /** The bytes of all complete groups of four characters. */
  function Decoded(s: string): (b: seq<nat>)
    ensures |b| == |s| / 4 * 3 && forall i :: 0 <= i < |b| ==> b[i] < 256
  {
    if |s| < 4 then [] else Triple(Quad(s[..4])) + Decoded(s[4..])
  }

  function ShownText(b: seq<nat>): (t: string)
    ensures |t| == |b| && forall i :: 0 <= i < |b| ==> t[i] == Shown(b[i])
  {
    seq(|b|, i requires 0 <= i < |b| => Shown(b[i]))
  }

  ghost predicate AllBase64(s: string) {
    forall i :: 0 <= i < |s| ==> IsBase64Char(s[i])
  }

  /** The text the decoder produces, if every character it reads is valid. */
  ghost function DecodeText(s: string): Option<string> {
    if AllBase64(s[..|s| / 4 * 4]) then Some(ShownText(Decoded(s))) else None
  }

  // ---- The decoder -------------------------------------------------------------------

  lemma {:induction false} DecodedMore(s: string, k: nat)
    requires k % 4 == 0 && k + 4 <= |s|
    ensures Decoded(s[..k + 4]) == Decoded(s[..k]) + Triple(Quad(s[k..k + 4]))
  {
    hide Decoded, Quad, Triple;
    DecodedFirst(s[..k + 4]);
    if k == 0 {
      assert s[..4][..4] == s[0..4] && s[..4][4..] == [];
      DecodedNothing();
    } else {
      DecodedMore(s[4..], k - 4);
      DecodedFirst(s[..k]);
      assert s[..k + 4][..4] == s[..4] && s[..k + 4][4..] == s[4..][..k];
      assert s[..k][..4] == s[..4] && s[..k][4..] == s[4..][..k - 4];
      assert s[4..][k - 4..k] == s[k..k + 4];
    }
  }

  lemma DecodedFirst(s: string)
    requires |s| >= 4
    ensures Decoded(s) == Triple(Quad(s[..4])) + Decoded(s[4..])
  {
    hide Quad, Triple;
  }

  lemma DecodedNothing()
    ensures Decoded("") == []
  {
  }

  /** Four characters into the accumulator, most significant first; reading stops
      at the first that is invalid. */
  method ReadQuad(source: string, at: nat) returns (ok: bool, data: uint32)
    requires at <= |source| && (at + 4 <= |source| || !AllBase64(source[at..]))
    ensures ok <==> at + 4 <= |source| && AllBase64(source[at..at + 4])
    ensures ok ==> data == Quad(source[at..at + 4])
  {
    data := 0;
    var j := 0;
    ghost var q := source[at..];
    while j < 4
      invariant 0 <= j <= 4 && j <= |q| && forall i :: 0 <= i < j ==> IsBase64Char(q[i])
      invariant j == 0 ==> data == 0
      invariant j == 1 ==> data == DecodeByte(q[0])
      invariant j == 2 ==> data == DecodeByte(q[0]) * 64 + DecodeByte(q[1])
      invariant j == 3 ==> data == (DecodeByte(q[0]) * 64 + DecodeByte(q[1])) * 64 + DecodeByte(q[2])
      invariant j == 4 ==> data == Quad(q[..4])
    {
      var c := source[at + j];
      assert c == q[j];
      if !IsBase64Char(c) {
        assert at + 4 <= |source| ==> source[at..at + 4][j] == c;
        return false, data;
      }
      data := data * 64 + DecodeByte(c);
      j := j + 1;
    }
    assert source[at..at + 4] == q[..4];
    ok := true;
  }

  /** How many whole groups can be read. */
  function Readable(source: string, groups: nat): (n: nat)
    ensures 4 * n <= |source| && n <= groups
    ensures 4 * groups <= |source| ==> n == groups
    ensures forall k :: k < groups && 4 * k + 4 <= |source| ==> k < n
  {
    if 4 * groups <= |source| then groups else |source| / 4
  }

  /** base64decode of len characters: writes the decoded text and a terminator.
      What is behind the source is not read if the source has an invalid
      character, since decoding stops at the first one. */
  method Base64Decode(decoded: array<char>, source: string, len: nat) returns (ok: bool)
    requires len / 4 * 4 <= |source| || !AllBase64(source)
    requires decoded.Length > 3 * Readable(source, len / 4)
    modifies decoded
    ensures ok <==> len / 4 * 4 <= |source| && DecodeText(source[..len / 4 * 4]).Some?
    ensures ok ==>
      var n := len / 4 * 3;
      decoded[..n] == DecodeText(source[..len / 4 * 4]).value && decoded[n] == '\0'
  {
    hide DecodeText, Decoded, ShownText, AllBase64;
    var bytes;
    ok, bytes := DecodeBytes(source, len / 4);
    WholeGroups(source, len / 4 * 4);
    if ok {
      MakePrintable(decoded, bytes);
    }
  }

  /** The decoded bytes, with those that are no text. */
  method DecodeBytes(source: string, groups: nat) returns (ok: bool, bytes: array<uint8>)
    requires 4 * groups <= |source| || !AllBase64(source)
    ensures fresh(bytes) && bytes.Length == 3 * Readable(source, groups)
    ensures ok <==> 4 * groups <= |source| && AllBase64(source[..4 * groups])
    ensures ok ==> bytes[..] == Decoded(source[..4 * groups])
  {
    hide Quad, Triple, DecodeByte, IsBase64Char, Decoded, AllBase64, Readable;
    bytes := new uint8[3 * Readable(source, groups)];
    NothingRead(source[..0]);
    for i := 0 to groups
      invariant 4 * i <= |source| && AllBase64(source[..4 * i])
      invariant i <= Readable(source, groups) && bytes[..3 * i] == Decoded(source[..4 * i])
    {
      RestInvalid(source, 4 * i);
      var valid, data := ReadQuad(source, 4 * i);
      if !valid {
        InvalidGroup(source, 4 * i, 4 * groups);
        return false, bytes;
      }
      MoreValid(source, 4 * i);
      DecodedMore(source, 4 * i);
      PutTriple(bytes, 3 * i, data);
    }
    assert bytes[..] == bytes[..3 * groups];
    return true, bytes;
  }

  lemma NothingRead(s: string)
    requires s == []
    ensures AllBase64(s) && Decoded(s) == []
  {
  }

  lemma WholeGroups(s: string, n: nat)
    requires n % 4 == 0
    ensures n <= |s| ==>
      DecodeText(s[..n]) == if AllBase64(s[..n]) then Some(ShownText(Decoded(s[..n]))) else None
  {
    hide Decoded, ShownText, AllBase64;
    if n <= |s| {
      assert s[..n][..|s[..n]| / 4 * 4] == s[..n];
    }
  }

  lemma RestInvalid(s: string, k: nat)
    requires k <= |s| && AllBase64(s[..k])
    ensures AllBase64(s) <==> AllBase64(s[k..])
  {
    hide IsBase64Char;
    assert s == s[..k] + s[k..];
    assert forall i :: 0 <= i < |s| ==> s[i] == if i < k then s[..k][i] else s[k..][i - k];
    assert forall i :: 0 <= i < |s[k..]| ==> s[k..][i] == s[k + i];
  }

  /** Three bytes out of the accumulator. */
  method PutTriple(bytes: array<uint8>, at: nat, data: uint32)
    requires at + 3 <= bytes.Length && data < 0x100_0000
    modifies bytes
    ensures bytes[..at + 3] == old(bytes[..at]) + Triple(data)
  {
    hide Triple;
    SplitTriple(data);
    bytes[at] := data / 0x1_0000;
    bytes[at + 1] := data / 0x100 % 0x100;
    bytes[at + 2] := data % 0x100;
  }

  lemma MoreValid(s: string, k: nat)
    requires k + 4 <= |s| && AllBase64(s[..k]) && AllBase64(s[k..k + 4])
    ensures AllBase64(s[..k + 4])
  {
    hide IsBase64Char;
    assert s[..k + 4] == s[..k] + s[k..k + 4];
  }

  lemma InvalidGroup(s: string, k: nat, n: nat)
    requires k + 4 <= n && n % 4 == 0 && !(k + 4 <= |s| && AllBase64(s[k..k + 4]))
    ensures n <= |s| ==> !AllBase64(s[..n])
  {
    hide IsBase64Char;
    if n <= |s| {
      var i :| 0 <= i < 4 && !IsBase64Char(s[k..k + 4][i]);
      assert s[..n][k + i] == s[k..k + 4][i];
    }
  }

  lemma SplitTriple(n: nat)
    requires n < 0x100_0000
    ensures n / 0x1_0000 < 256
    ensures Triple(n) == [n / 0x1_0000, n / 0x100 % 0x100, n % 0x100]
  {
  }

  /** Copies the bytes out, replacing unprintable ones, and terminates. */
  method MakePrintable(decoded: array<char>, bytes: array<uint8>)
    requires decoded.Length > bytes.Length
    modifies decoded
    ensures decoded[..bytes.Length] == ShownText(bytes[..]) && decoded[bytes.Length] == '\0'
  {
    for i := 0 to bytes.Length
      invariant forall k :: 0 <= k < i ==> decoded[k] == Shown(bytes[k])
    {
      decoded[i] := Shown(bytes[i]);
    }
    decoded[bytes.Length] := '\0';
  }

  lemma ShownNoNul(b: seq<nat>)
    ensures '\0' !in ShownText(b)
  {
  }

  /** The decoder's buffer holds the decoded text. */
  lemma DecodedHolds(a: seq<char>, encoded: string)
    requires DecodeText(encoded).Some? && |encoded| % 4 == 0
    requires |a| > |encoded| / 4 * 3
    requires a[..|encoded| / 4 * 3] == DecodeText(encoded).value && a[|encoded| / 4 * 3] == '\0'
    ensures Holds(a, DecodeText(encoded).value) && |DecodeText(encoded).value| == |encoded| / 4 * 3
  {
    hide Decoded, AllBase64;
    ShownNoNul(Decoded(encoded));
  }

  // ---- Encoding, for the round trip ---------------------------------------------------------

  /** The four characters of three bytes. */
  function EncodeTriple(b0: uint8, b1: uint8, b2: uint8): (s: string)
    ensures |s| == 4
  {
    [EncodeChar(b0 / 4), EncodeChar(b0 % 4 * 16 + b1 / 16), EncodeChar(b1 % 16 * 4 + b2 / 64), EncodeChar(b2 % 64)]
  }

  /** Unpadded Base64, as authentication tokens carry it. */
  function Encode(b: seq<uint8>): (s: string)
  {
    if |b| >= 3 then EncodeTriple(b[0], b[1], b[2]) + Encode(b[3..])
    else if |b| == 2 then EncodeTriple(b[0], b[1], 0)[..3]
    else if |b| == 1 then EncodeTriple(b[0], 0, 0)[..2]
    else []
  }

  function Equals(n: nat): (s: string)
    ensures |s| == n && forall i :: 0 <= i < n ==> s[i] == '='
  {
    seq(n, _ => '=')
  }

  function Zeros(n: nat): (s: seq<uint8>)
    ensures |s| == n && forall i :: 0 <= i < n ==> s[i] == 0
  {
    seq(n, _ => 0)
  }

  /** How many characters, and how many bytes, complete the last group. */
  function Missing(n: nat): (m: nat)
    ensures m < 3 && (n + m) % 3 == 0
  {
    (3 - n % 3) % 3
  }

  lemma TripleBack(b0: uint8, b1: uint8, b2: uint8, s: string)
    requires |s| == 4
    requires DecodeByte(s[0]) == b0 / 4 && DecodeByte(s[1]) == b0 % 4 * 16 + b1 / 16
    requires DecodeByte(s[2]) == b1 % 16 * 4 + b2 / 64 && DecodeByte(s[3]) == b2 % 64
    ensures Triple(Quad(s)) == [b0, b1, b2]
  {
    hide DecodeByte;
    var n := Quad(s);
    assert n == b0 * 0x1_0000 + b1 * 0x100 + b2 by {
      assert b0 == b0 / 4 * 4 + b0 % 4 && b1 == b1 / 16 * 16 + b1 % 16 && b2 == b2 / 64 * 64 + b2 % 64;
    }
    DivModUnique(n, 0x1_0000, b0, b1 * 0x100 + b2);
    DivModUnique(n, 0x100, b0 * 0x100 + b1, b2);
    DivModUnique(b0 * 0x100 + b1, 0x100, b0, b1);
  }

  lemma PaddingCharacter()
    ensures IsBase64Char('=') && DecodeByte('=') == 0
  {
  }

  lemma PaddedGroup(t: string, k: nat)
    requires |t| == 4 && k <= 2 && forall i :: 0 <= i < 4 ==> IsBase64Char(t[i])
    ensures
      var s := t[..4 - k] + Equals(k);
      && |s| == 4 && AllBase64(s)
      && forall i :: 0 <= i < 4 ==> DecodeByte(s[i]) == if i < 4 - k then DecodeByte(t[i]) else 0
  {
    hide IsBase64Char, DecodeByte;
    PaddingCharacter();
  }

  /** One group, with k of its characters replaced by padding. */
  lemma GroupBack(b0: uint8, b1: uint8, b2: uint8, k: nat)
    requires k <= 2 && (k >= 1 ==> b2 == 0) && (k == 2 ==> b1 == 0)
    ensures
      var s := EncodeTriple(b0, b1, b2)[..4 - k] + Equals(k);
      |s| == 4 && AllBase64(s) && Triple(Quad(s)) == [b0, b1, b2]
  {
    hide Quad, Triple, EncodeTriple, DecodeByte, IsBase64Char, AllBase64;
    var t := EncodeTriple(b0, b1, b2);
    var s := t[..4 - k] + Equals(k);
    TripleChars(b0, b1, b2);
    NoBits(b1, b2, k);
    PaddedGroup(t, k);
    TripleBack(b0, b1, b2, s);
  }

  lemma TripleChars(b0: uint8, b1: uint8, b2: uint8)
    ensures
      var t := EncodeTriple(b0, b1, b2);
      && (forall i :: 0 <= i < 4 ==> IsBase64Char(t[i]))
      && DecodeByte(t[0]) == b0 / 4 && DecodeByte(t[1]) == b0 % 4 * 16 + b1 / 16
      && DecodeByte(t[2]) == b1 % 16 * 4 + b2 / 64 && DecodeByte(t[3]) == b2 % 64
  {
    hide EncodeChar, DecodeByte, IsBase64Char;
    EncodeDecodeChar(b0 / 4);
    EncodeDecodeChar(b0 % 4 * 16 + b1 / 16);
    EncodeDecodeChar(b1 % 16 * 4 + b2 / 64);
    EncodeDecodeChar(b2 % 64);
  }

  lemma NoBits(b1: uint8, b2: uint8, k: nat)
    requires k <= 2 && (k >= 1 ==> b2 == 0) && (k == 2 ==> b1 == 0)
    ensures (k >= 1 ==> b2 % 64 == 0) && (k == 2 ==> b1 % 16 * 4 + b2 / 64 == 0)
  {
  }

  /** The encoding with its padding restored. */
  function Complete(b: seq<uint8>): string {
    Encode(b) + Equals(Missing(|b|))
  }

  lemma DecodedCons(q: string, rest: string)
    requires |q| == 4
    ensures Decoded(q + rest) == Triple(Quad(q)) + Decoded(rest)
  {
    hide Quad, Triple;
    assert (q + rest)[..4] == q && (q + rest)[4..] == rest;
  }

  lemma AllBase64Join(a: string, b: string)
    requires AllBase64(a) && AllBase64(b)
    ensures AllBase64(a + b)
  {
  }

  lemma LastGroup(b: seq<uint8>)
    requires 1 <= |b| <= 2
    ensures |Complete(b)| == 4 && AllBase64(Complete(b)) && Decoded(Complete(b)) == b + Zeros(3 - |b|)
  {
    hide Quad, Triple, IsBase64Char, EncodeTriple;
    var k := 3 - |b|;
    var b1 := if |b| == 2 then b[1] else 0;
    GroupBack(b[0], b1, 0, k);
    var s := Complete(b);
    assert s == EncodeTriple(b[0], b1, 0)[..4 - k] + Equals(k);
    DecodedCons(s, []);
    assert s + [] == s;
    assert b + Zeros(k) == [b[0], b1, 0];
  }

  /** Restoring the padding and decoding gives the bytes back, followed by the
      zero bytes of the padding. */
  lemma {:induction false} DecodeEncode(b: seq<uint8>)
    ensures |Complete(b)| % 4 == 0 && AllBase64(Complete(b))
    ensures Decoded(Complete(b)) == b + Zeros(Missing(|b|))
  {
    hide Quad, Triple, IsBase64Char, EncodeTriple, Encode, Decoded, AllBase64, Complete, Missing, Zeros, Equals;
    if |b| >= 3 {
      var q, rest := EncodeTriple(b[0], b[1], b[2]), Complete(b[3..]);
      DecodeEncode(b[3..]);
      GroupBack(b[0], b[1], b[2], 0);
      assert q[..4 - 0] + Equals(0) == q;
      CompleteCons(b);
      MissingThree(b);
      DecodedCons(q, rest);
      AllBase64Join(q, rest);
    } else if |b| > 0 {
      LastGroup(b);
    } else {
      EmptyGroup(b);
    }
  }

  lemma MissingThree(b: seq<uint8>)
    requires |b| >= 3
    ensures b + Zeros(Missing(|b|)) == [b[0], b[1], b[2]] + (b[3..] + Zeros(Missing(|b[3..]|)))
  {
  }

  lemma CompleteCons(b: seq<uint8>)
    requires |b| >= 3
    ensures Complete(b) == EncodeTriple(b[0], b[1], b[2]) + Complete(b[3..])
  {
    hide EncodeTriple;
  }

  lemma EmptyGroup(b: seq<uint8>)
    requires b == []
    ensures Complete(b) == [] && AllBase64(Complete(b)) && Decoded(Complete(b)) == [] == b + Zeros(Missing(|b|))
  {
  }

  /** Length of an unpadded encoding. */
  lemma {:induction false} EncodeLength(b: seq<uint8>)
    ensures |Encode(b)| == |b| / 3 * 4 + (if |b| % 3 == 0 then 0 else |b| % 3 + 1)
  {
    hide EncodeTriple;
    if |b| >= 3 {
      EncodeLength(b[3..]);
    }
  }

  // ---- Encodings written out ------------------------------------------------------------------

  const EARLY: string := "ABCDEFGHIJKLMNOPQRSTUVWXYZabcdef"
  const LATE: string := "ghijklmnopqrstuvwxyz0123456789+/"

  lemma EarlyLetter(v: nat)
    requires v < 32
    ensures |EARLY| == 32 && EncodeChar(v) == EARLY[v]
  {
  }

  lemma LateLetter(v: nat)
    requires 32 <= v < 64
    ensures |LATE| == 32 && EncodeChar(v) == LATE[v - 32]
  {
  }

  /** The alphabet of RFC 4648, table 1, in which a character stands for its
      position. */
  lemma Alphabet(v: nat)
    requires v < 64
    ensures EncodeChar(v) ==
      if v < 32 then "ABCDEFGHIJKLMNOPQRSTUVWXYZabcdef"[v] else "ghijklmnopqrstuvwxyz0123456789+/"[v - 32]
    ensures IsBase64Char(EncodeChar(v)) && DecodeByte(EncodeChar(v)) == v
  {
    hide EncodeChar, DecodeByte, IsBase64Char;
    EncodeDecodeChar(v);
    if v < 32 {
      EarlyLetter(v);
    } else {
      LateLetter(v);
    }
  }

  /** Nothing else is decoded but padding. */
  lemma OnlyAlphabet(c: char)
    requires IsBase64Char(c) && c != '='
    ensures c == EncodeChar(DecodeByte(c))
  {
  }

  lemma TripleText(b0: uint8, b1: uint8, b2: uint8, v0: nat, v1: nat, v2: nat, v3: nat)
    requires v0 < 64 && v1 < 64 && v2 < 64 && v3 < 64
    requires b0 == v0 * 4 + v1 / 16 && b1 == v1 % 16 * 16 + v2 / 4 && b2 == v2 % 4 * 64 + v3
    ensures EncodeTriple(b0, b1, b2) == [EncodeChar(v0), EncodeChar(v1), EncodeChar(v2), EncodeChar(v3)]
  {
    hide EncodeChar;
    Sextets(v0, v1 / 16, v1 % 16, v2 / 4, v2 % 4, v3);
  }

  lemma Sextets(v0: nat, q1: nat, r1: nat, q2: nat, r2: nat, v3: nat)
    requires q1 < 4 && r1 < 16 && q2 < 16 && r2 < 4 && v3 < 64
    ensures (v0 * 4 + q1) / 4 == v0 && (v0 * 4 + q1) % 4 == q1
    ensures (r1 * 16 + q2) / 16 == r1 && (r1 * 16 + q2) % 16 == q2
    ensures (r2 * 64 + v3) / 64 == r2 && (r2 * 64 + v3) % 64 == v3
  {
  }

  lemma EncodeThree(b0: uint8, b1: uint8, b2: uint8, rest: seq<uint8>)
    ensures Encode([b0, b1, b2] + rest) == EncodeTriple(b0, b1, b2) + Encode(rest)
  {
    hide EncodeTriple;
    assert ([b0, b1, b2] + rest)[3..] == rest;
  }

  /** The test vectors of RFC 4648, section 10, for whole and for broken groups. */
  lemma Vectors()
    ensures Complete([102, 111, 111]) == "Zm9v"
    ensures Complete([102]) == "Zg=="
    ensures Complete([102, 111]) == "Zm8="
  {
    hide EncodeTriple, EncodeChar;
    TripleText(102, 0, 0, 25, 32, 0, 0);
    TripleText(102, 111, 0, 25, 38, 60, 0);
    TripleText(102, 111, 111, 25, 38, 61, 47);
    EncodeThree(102, 111, 111, []);
    Letters();
  }

  lemma Letters()
    ensures EncodeChar(25) == 'Z' && EncodeChar(32) == 'g' && EncodeChar(38) == 'm' && EncodeChar(60) == '8'
    ensures EncodeChar(61) == '9' && EncodeChar(47) == 'v' && EncodeChar(0) == 'A'
  {
  }

  /** Only the bytes from space to tilde are shown as they are. */
  lemma ShownEdges()
    ensures ShownText([0, 31, 32, 65, 126, 127, 255]) == "?? A~??"
  {
  }
}
