/** SegWit addresses: a version and a program as Bech32 text. */
module Segwit {
  import opened Words
  import opened Regroup
  import opened Bech32Checksum
  import opened Bech32
  import opened Bech32Codec

  /** What the encoder checks; negative versions pass. */
  predicate Admitted(version: int, length: nat) {
    && version <= 16 && 2 <= length <= 40
    && (version == 0 ==> length == 20 || length == 32)
  }

  predicate Legal(version: int, length: nat) {
    version >= 0 && Admitted(version, length)
  }

  /** Versions 0 to 16, programs of 2 to 40 bytes, and 20 or 32 for version 0. */
  lemma Limits(version: int, length: nat)
    ensures Legal(version, length) <==>
      0 <= version <= 16 && 2 <= length <= 40 && (version == 0 ==> length in {20, 32})
    ensures version < 0 ==> (Admitted(version, length) <==> 2 <= length <= 40)
  {
  }

  /** The data part: the version as a byte, then the regrouped program. */
  ghost predicate DataOf(version: int, program: seq<uint8>, data: seq<symbol>) {
    && data != [] && data[0] == version % 256
    && Padded(Flatten(program, 8), data[1..], 5)
  }

  /** The data part of the address of an admitted version and program. */
  ghost predicate AddressData(version: int, program: seq<uint8>, hrp: string, data: seq<symbol>) {
    Admitted(version, |program|) && DataOf(version, program, data) && Encodable(hrp, data)
  }

  /** Writes the address; fails exactly when there is none. */
  method SegwitEncode(output: array<char>, hrp: string, witver: int, witprog: seq<uint8>)
    returns (ok: bool, ghost d: seq<symbol>)
    requires output.Length >= |hrp| + 73
    modifies output
    ensures ok ==> AddressData(witver, witprog, hrp, d) && Written(output[..], Encoding(hrp, d))
    ensures !ok ==> forall data :: !AddressData(witver, witprog, hrp, data)
  {
    hide Flatten, Padded, Printable, NoUpper, Chars, Checksum, Absorbed, AddressData, Pow2;
    if witver > 16 || (witver == 0 && |witprog| != 20 && |witprog| != 32) || |witprog| < 2 || |witprog| > 40 {
      NotAdmitted(witver, witprog, hrp);
      return false, [];
    }
    var data := new uint8[65];
    data[0] := witver % 256;
    Widths();
    var _, datalen := ConvertBits(data, 1, 5, witprog, 8, true);
    PaddedCount(witprog, data[1..1 + datalen]);
    ok := Encode(output, hrp, data[..1 + datalen]);
    ghost var s := data[..1 + datalen];
    assert s[0] == witver % 256 && s[1..] == data[1..1 + datalen];
    d := if ok then s else [];
    AddressIff(witver, witprog, hrp, s);
    if ok {
      assert output[..][..|Encoding(hrp, d)|] == Encoding(hrp, d);
    }
  }

  lemma NotAdmitted(version: int, program: seq<uint8>, hrp: string)
    requires !Admitted(version, |program|)
    ensures forall data :: !AddressData(version, program, hrp, data)
  {
    hide DataOf, Encodable;
  }

  /** The only candidate is the data part built from version and program. */
  lemma AddressIff(version: int, program: seq<uint8>, hrp: string, s: seq<int>)
    requires Admitted(version, |program|)
    requires s != [] && s[0] == version % 256 && (forall i :: 0 <= i < |s| ==> s[i] >= 0)
    requires Padded(Flatten(program, 8), s[1..], 5)
    ensures Encodable(hrp, s) ==> AddressData(version, program, hrp, s)
    ensures !Encodable(hrp, s) ==> forall data :: !AddressData(version, program, hrp, data)
  {
    hide Flatten, Padded;
    if !Encodable(hrp, s) {
      forall data: seq<symbol> ensures !AddressData(version, program, hrp, data) {
        OneData(version, program, s, data);
      }
    }
  }

  ghost predicate Written(output: seq<char>, text: string) {
    |text| < |output| && output[..|text|] == text && output[|text|] == '\0'
  }

  lemma OneData(version: int, program: seq<uint8>, s: seq<int>, e: seq<symbol>)
    requires s != [] && s[0] == version % 256 && (forall i :: 0 <= i < |s| ==> s[i] >= 0)
    requires Padded(Flatten(program, 8), s[1..], 5)
    ensures DataOf(version, program, e) ==> s == e
  {
    hide Flatten, Padded;
    if DataOf(version, program, e) {
      PaddedUnique(program, s[1..], e[1..]);
      assert s == [s[0]] + s[1..] && e == [e[0]] + e[1..];
    }
  }

  lemma PaddedCount(bytes: seq<nat>, syms: seq<nat>)
    requires Padded(Flatten(bytes, 8), syms, 5)
    ensures |bytes| * 8 <= |syms| * 5 < |bytes| * 8 + 5
    ensures forall i :: 0 <= i < |syms| ==> syms[i] < 32
  {
    hide Flatten, Pow2;
    Widths();
    var k :| 0 <= k < 5 && Split(Flatten(bytes, 8) + Falses(k), syms, 5, []);
    FlattenLength(bytes, 8);
    FlattenLength(syms, 5);
  }

  /** What the decoder checks once the text has been split. */
  ghost predicate ReadsAs(hrp: string, data: seq<symbol>, version: int, program: seq<uint8>) {
    && data != [] && |data| <= 65 && data[0] == version
    && Unpadded(Flatten(data[1..], 5), program, 8, 5, true)
    && Legal(version, |program|)
  }

  /** Decodes an address for the expected prefix. */
  method SegwitDecode(witdata: array<uint8>, hrp: string, addr: string)
    returns (ok: bool, witver: int, witdataLen: nat, ghost d: seq<symbol>)
    requires witdata.Length >= 40
    modifies witdata
    ensures ok ==> witdataLen <= 40 && Decodes(addr, hrp, d) && ReadsAs(hrp, d, witver, witdata[..witdataLen])
    ensures !ok ==> forall data, v, p :: Decodes(addr, hrp, data) ==> !ReadsAs(hrp, data, v, p)
  {
    hide Flatten, Unpadded, Decodes, ReadsAs, Pow2;
    var data := new uint8[84];
    var hrpActual := new char[84];
    witver, witdataLen, d := 0, 0, [];
    var decoded, hrpLen, dataLen := Decode(hrpActual, data, addr);
    if !decoded {
      return false, witver, witdataLen, d;
    }
    d := data[..dataLen];
    if dataLen == 0 || dataLen > 65 || hrp != hrpActual[..hrpLen] || data[0] > 16 {
      OnlyReading(addr, hrpActual[..hrpLen], hrp, d);
      NoReading(hrp, d);
      return false, witver, witdataLen, d;
    }
    OnlyReading(addr, hrp, hrp, d);
    Widths();
    var fits;
    fits, witdataLen := ConvertBits(witdata, 0, 8, data[1..dataLen], 5, false);
    assert data[1..dataLen] == d[1..] && witdata[0..0 + witdataLen] == witdata[..witdataLen];
    OneReading(hrp, d, witdata[..witdataLen], fits);
    if !fits || witdataLen < 2 || witdataLen > 40 || (data[0] == 0 && witdataLen != 20 && witdataLen != 32) {
      return false, witver, witdataLen, d;
    }
    witver := data[0];
    ok := true;
  }

  /** Data that is empty or too long, or starts with no version, reads as nothing. */
  lemma NoReading(hrp: string, d: seq<symbol>)
    ensures d == [] || |d| > 65 || d[0] > 16 ==> forall v, p :: !ReadsAs(hrp, d, v, p)
  {
    hide Unpadded;
  }

  /** What was regrouped is the only candidate for the program. */
  lemma OneReading(hrp: string, d: seq<symbol>, p: seq<uint8>, fits: bool)
    requires d != [] && |d| <= 65 && Unpadded(Flatten(d[1..], 5), p, 8, 5, fits)
    ensures fits && Legal(d[0], |p|) ==> ReadsAs(hrp, d, d[0], p)
    ensures !(fits && Legal(d[0], |p|)) ==> forall v, q :: !ReadsAs(hrp, d, v, q)
  {
    hide Flatten, Unpadded, Legal;
    if !(fits && Legal(d[0], |p|)) {
      forall v: int, q: seq<uint8> ensures !ReadsAs(hrp, d, v, q) {
        if ReadsAs(hrp, d, v, q) {
          UnpaddedUnique(d[1..], p, fits, q, true);
        }
      }
    }
  }

  /** Only one data part, under one prefix, can be read from an accepted text. */
  lemma OnlyReading(addr: string, actual: string, hrp: string, d: seq<symbol>)
    requires Decodes(addr, actual, d)
    ensures forall data :: Decodes(addr, hrp, data) ==> actual == hrp && data == d
  {
    hide Decodes;
    forall data | Decodes(addr, hrp, data) ensures actual == hrp && data == d {
      DecodesOnce(addr, actual, d, hrp, data);
    }
  }

  /** Decoding undoes encoding for every admitted version, program and prefix; a
      version reads back as its low byte, so exactly the legal ones as they are. */
  lemma SegwitRoundTrip(version: int, program: seq<uint8>, hrp: string, data: seq<symbol>,
                        hrp': string, data': seq<symbol>, version': int, program': seq<uint8>)
    requires hrp != [] && AddressData(version, program, hrp, data)
    ensures Decodes(Encoding(hrp, data), hrp, data)
    ensures Decodes(Encoding(hrp, data), hrp', data') && ReadsAs(hrp', data', version', program')
      ==> hrp' == hrp && version' == version % 256 && program' == program
          && (version' == version <==> Legal(version, |program|))
  {
    hide Decodes, ReadsAs, DataOf, Encoding;
    var text := Encoding(hrp, data);
    EncodingLower(hrp, data);
    EncodeThenDecode(text, hrp, data);
    if Decodes(text, hrp', data') && ReadsAs(hrp', data', version', program') {
      DecodesOnce(text, hrp, data, hrp', data');
      ReadBack(version, program, data, hrp, version', program');
    }
  }

  /** The program of a data part reads back as nothing else. */
  lemma ReadBack(version: int, program: seq<uint8>, data: seq<symbol>, hrp: string, version': int, program': seq<uint8>)
    requires DataOf(version, program, data) && ReadsAs(hrp, data, version', program')
    ensures version' == version % 256 && program' == program
  {
    hide Flatten, Padded, Unpadded, Legal;
    RegroupRoundTrip(program, data[1..], program', true);
  }

  /** The decoder accepts the text of an address exactly when its low byte is a
      legal version for the program, as every legal version is. */
  lemma SegwitAccepted(version: int, program: seq<uint8>, hrp: string, data: seq<symbol>)
    requires AddressData(version, program, hrp, data)
    ensures ReadsAs(hrp, data, version % 256, program) <==> Legal(version % 256, |program|)
    ensures Legal(version, |program|) ==> ReadsAs(hrp, data, version, program)
  {
    hide Flatten, Encodable, Encoding, Pow2;
    PaddedCount(program, data[1..]);
    var k :| 0 <= k < 5 && Split(Flatten(program, 8) + Falses(k), data[1..], 5, []);
    assert Flatten(data[1..], 5) + [] == Flatten(data[1..], 5);
    Widths();
    assert Split(Flatten(data[1..], 5), program, 8, Falses(k));
  }
}
