/** Account addresses: the Bech32 text of a public key. */
module Address {
  import opened Words
  import opened Regroup
  import opened Bech32Checksum
  import opened Bech32
  import opened Bech32Codec

  const HRP: string := "erd"

  type Key = k: seq<uint8> | |k| == 32 witness seq(32, _ => 0)

  const TMP_SIZE: nat := 128
  const BECH32_ADDRESS_LEN: nat := 62

  /** bech32EncodeFromBytes: regroup without padding, then encode; both results
      are ignored. It stops where the temporary symbols would be exceeded. */
  method EncodeFromBytes(output: array<char>, hrp: string, data: seq<uint8>) returns (overrun: bool)
    requires output.Length >= 1
    requires |data| <= 80 ==> output.Length >= |hrp| + |data| * 8 / 5 + 8
    modifies output
    ensures overrun <==> 81 <= |data| <= TMP_SIZE
    ensures |data| <= 80 ==> exists syms: seq<symbol>, ok :: Encodes(output[..], hrp, data, syms, ok)
    ensures |data| > TMP_SIZE ==> output[0] == '\0' && output[1..] == old(output[1..])
  {
    hide Flatten, Unpadded, Checksum, Feed, Pow2;
    output[0] := '\0';
    if |data| > TMP_SIZE {
      return false;
    }
    if |data| * 8 / 5 > TMP_SIZE {
      return true;
    }
    var tmp := new uint8[TMP_SIZE];
    Widths();
    var ok, size := ConvertBits(tmp, 0, 5, data, 8, false);
    SymbolCount(data, tmp[..size], ok);
    var ok' := Encode(output, hrp, tmp[..size]);
    assert tmp[0..0 + size] == tmp[..size];
    ghost var syms: seq<symbol> := tmp[..size];
    if ok' {
      var text := Encoding(hrp, syms);
      assert output[..][..|text|] == text;
    }
    assert Encodes(output[..], hrp, data, syms, ok);
    return false;
  }

  /** The buffer holds the encoding of the regrouped data, if that is encodable. */
  ghost predicate Encodes(output: seq<char>, hrp: string, data: seq<uint8>, syms: seq<symbol>, ok: bool) {
    && Unpadded(Flatten(data, 8), syms, 5, 8, ok)
    && (Encodable(hrp, syms) ==>
          var text := Encoding(hrp, syms);
          |text| < |output| && output[..|text|] == text && output[|text|] == '\0')
  }

  /** The number of symbols of a byte string; it exceeds the temporary buffer
      from 81 bytes on. */
  lemma SymbolCount(data: seq<nat>, syms: seq<nat>, ok: bool)
    requires Unpadded(Flatten(data, 8), syms, 5, 8, ok)
    ensures |syms| == |data| * 8 / 5 && forall i :: 0 <= i < |syms| ==> syms[i] < 32
    ensures |syms| > TMP_SIZE <==> |data| >= 81
  {
    hide Flatten, Pow2;
    Widths();
    var rest :| |rest| < 5 && Split(Flatten(data, 8), syms, 5, rest);
    FlattenLength(data, 8);
    FlattenLength(syms, 5);
  }

  /** text is the address of a key: its padded symbols under the account prefix. */
  ghost predicate IsAddress(key: Key, text: string) {
    exists s: seq<symbol> :: Padded(Flatten(key, 8), s, 5) && |s| == 52 && text == Encoding(HRP, s)
  }

  /** The 33-byte buffer with a trailing zero produces the key's address. With
      its terminator that is one byte more than an address has characters. */
  method GetAddressBech32(publicKey: Key, address: array<char>) returns (overrun: bool)
    modifies address
    ensures overrun <==> address.Length <= BECH32_ADDRESS_LEN
    ensures !overrun ==>
      IsAddress(publicKey, address[..BECH32_ADDRESS_LEN]) && address[BECH32_ADDRESS_LEN] == '\0'
  {
    hide Flatten, Padded, Encoding, Feed;
    var buffer := publicKey + [0];
    if address.Length <= BECH32_ADDRESS_LEN {
      return true;
    }
    overrun := EncodeFromBytes(address, HRP, buffer);
    ghost var syms: seq<symbol>, ok :| Encodes(address[..], HRP, buffer, syms, ok);
    ZeroByteShortcut(publicKey, syms, ok);
    KeyEncodable(publicKey, syms);
    assert address[..62] == address[..][..62];
  }

  lemma KeyEncodable(key: Key, syms: seq<nat>)
    requires Padded(Flatten(key, 8), syms, 5) && |syms| == 52
    ensures Encodable(HRP, syms) && |Encoding(HRP, syms)| == 62
  {
    hide Flatten, Pow2;
    Widths();
  }

  /** Every address is 62 characters and decodes back to the key's symbols; from
      those, regrouping recovers the key itself. */
  lemma AddressDecodes(key: Key, text: string, hrp: string, syms: seq<symbol>, back: seq<nat>, ok: bool)
    requires IsAddress(key, text) && Decodes(text, hrp, syms) && Unpadded(Flatten(syms, 5), back, 8, 5, ok)
    ensures |text| == 62 && hrp == HRP && ok && back == key
  {
    hide Flatten, Padded, Unpadded, Encoding, Encodable, Decodes;
    var s: seq<symbol> :| Padded(Flatten(key, 8), s, 5) && |s| == 52 && text == Encoding(HRP, s);
    KeyEncodable(key, s);
    AddressAccepted(key, text, s);
    DecodesOnce(text, hrp, syms, HRP, s);
    RegroupRoundTrip(key, s, back, ok);
  }

  /** The decoder accepts every address. */
  lemma AddressAccepted(key: Key, text: string, s: seq<symbol>)
    requires Padded(Flatten(key, 8), s, 5) && |s| == 52 && text == Encoding(HRP, s)
    ensures Decodes(text, HRP, s)
  {
    hide Flatten, Padded, Decodes;
    KeyEncodable(key, s);
    EncodingLower(HRP, s);
    EncodeThenDecode(text, HRP, s);
  }

  /** Different keys have different addresses, and a key has one address. */
  lemma AddressInjective(key: Key, key': Key, text: string, text': string)
    requires IsAddress(key, text) && IsAddress(key', text')
    ensures key == key' <==> text == text'
  {
    hide Flatten, Encoding;
    var s: seq<symbol> :| Padded(Flatten(key, 8), s, 5) && |s| == 52 && text == Encoding(HRP, s);
    var s': seq<symbol> :| Padded(Flatten(key', 8), s', 5) && |s'| == 52 && text' == Encoding(HRP, s');
    if key == key' {
      PaddedUnique(key, s, s');
    } else if text == text' {
      KeyEncodable(key, s);
      KeyEncodable(key', s');
      EncodingInjective(HRP, s, HRP, s');
      SameBytes(key, key', s);
    }
  }

  lemma SameBytes(a: Key, b: Key, s: seq<nat>)
    requires Padded(Flatten(a, 8), s, 5) && Padded(Flatten(b, 8), s, 5)
    ensures a == b
  {
    hide Flatten, Pow2;
    var k :| 0 <= k < 5 && Split(Flatten(a, 8) + Falses(k), s, 5, []);
    var l :| 0 <= l < 5 && Split(Flatten(b, 8) + Falses(l), s, 5, []);
    FlattenLength(a, 8);
    FlattenLength(b, 8);
    SameSplit(Flatten(a, 8), Falses(k), Flatten(b, 8), Falses(l));
    Widths();
    FlattenInjective(a, b, 8);
  }
}
