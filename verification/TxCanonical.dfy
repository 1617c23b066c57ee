/** The transactions a client sends: printed, cut into APDUs and shown. */
module TxCanonical {
  import opened Words
  import opened Wrappers
  import opened Numerals
  import opened Base64
  import opened AmountFormat
  import opened Fee
  import opened Esdt
  import opened TxState
  import opened TxFields
  import opened TxMachine
  import opened TxJson
  import opened TxChunks
  import opened TxLookBack

  type payload = s: seq<uint8> | |s| < TWO32 witness []

  datatype Transaction = Transaction(
    nonce: uint64,
    value: string,
    receiver: string,
    sender: string,
    senderUsername: payload,
    receiverUsername: payload,
    gasPrice: uint64,
    gasLimit: uint64,
    data: payload,
    chainId: string,
    version: uint32,
    options: uint32)

  // ---- Printing ------------------------------------------------------------------------

  function Num(name: string, n: nat): Item {
    Item(name, Number(Numerals.Print(n, 10)))
  }

  /** A character inside a JSON string as Go's encoding/json writes it: quotes,
      backslashes, control characters and the three characters special to HTML
      are escaped. */
  function Escape(c: char): (s: string)
    ensures s != [] && '\0' !in s && (c != '"' ==> '"' !in s)
    ensures s == [c] <==> Plain(c)
    ensures |s| == 1 ==> Plain(c)
  {
    if c == '"' || c == '\\' then ['\\', c]
    else if c == '\n' then "\\n"
    else if c == '\r' then "\\r"
    else if c == '\t' then "\\t"
    else if c < ' ' || c == '<' || c == '>' || c == '&' then
      "\\u00" + [HEXDIGITS[c as int / 16], HEXDIGITS[c as int % 16]]
    else [c]
  }

  /** Written as it is. */
  predicate Plain(c: char) {
    c >= ' ' && c != '"' && c != '\\' && c != '<' && c != '>' && c != '&'
  }

  function Marshal(s: string): (t: string)
    ensures |t| >= |s| && '\0' !in t && ('"' !in s ==> '"' !in t)
  {
    if s == [] then [] else Escape(s[0]) + Marshal(s[1..])
  }

  /** Exactly the texts of plain characters are printed as they are. */
  lemma {:induction false} MarshalPlain(s: string)
    ensures Marshal(s) == s <==> forall c <- s :: Plain(c)
    decreases |s|
  {
    hide Plain, Escape;
    if s != [] {
      MarshalPlain(s[1..]);
      assert s == [s[0]] + s[1..];
      var e, m := Escape(s[0]), Marshal(s[1..]);
      if e == [s[0]] {
        assert Marshal(s)[1..] == m;
        assert (forall c <- s[1..] :: Plain(c)) && Plain(s[0]) ==> forall c <- s :: Plain(c);
      } else {
        assert |Marshal(s)| > |s|;
        assert s[0] in s;
      }
      assert forall c <- s[1..] :: c in s;
    }
  }

  lemma DigitsPlain(s: string)
    requires AllDigits(s)
    ensures Marshal(s) == s && '"' !in s && '\0' !in s
  {
    MarshalPlain(s);
  }

  function Text(name: string, t: string): Item {
    Item(name, Quoted(Marshal(t)))
  }

  /** Bytes are printed in Base64. */
  function Bytes(name: string, b: payload): Item {
    Item(name, Quoted(Complete(b)))
  }

  /** A field that is left out when it is empty. */
  function Opt(present: bool, i: Item): seq<Item> {
    if present then [i] else []
  }

  function Head(t: Transaction): seq<Item> {
    [Num(NONCE_FIELD, t.nonce), Text(VALUE_FIELD, t.value), Text(RECEIVER_FIELD, t.receiver),
     Text(SENDER_FIELD, t.sender)]
  }

  function Usernames(t: Transaction): seq<Item> {
    Opt(t.senderUsername != [], Bytes(SENDER_USERNAME_FIELD, t.senderUsername))
    + Opt(t.receiverUsername != [], Bytes(RECEIVER_USERNAME_FIELD, t.receiverUsername))
  }

  function Gas(t: Transaction): seq<Item> {
    Opt(t.gasPrice != 0, Num(GASPRICE_FIELD, t.gasPrice)) + Opt(t.gasLimit != 0, Num(GASLIMIT_FIELD, t.gasLimit))
  }

  function Data(t: Transaction): seq<Item> {
    Opt(t.data != [], Bytes(DATA_FIELD, t.data))
  }

  function Tail(t: Transaction): (items: seq<Item>)
    ensures items != []
  {
    [Text(CHAINID_FIELD, t.chainId), Num(VERSION_FIELD, t.version)] + Opt(t.options != 0, Num(OPTIONS_FIELD, t.options))
  }

  /** The fields in the order in which the client prints them. */
  function Items(t: Transaction): (items: seq<Item>)
    ensures items != []
  {
    Head(t) + (Usernames(t) + (Gas(t) + (Data(t) + Tail(t))))
  }

  // ---- Expectations ----------------------------------------------------------------------

  /** Without a quote, which would end the value early. */
  predicate Clean(s: string) {
    '"' !in s
  }

  /** The data shows as a transfer. */
  predicate ShowsTransfer(data: seq<uint8>) {
    IsTransfer(ShownText(data))
  }

  function FeeText(t: Transaction): string {
    Numerals.Print(ChargedFee(t.gasLimit, t.gasPrice, |t.data|), 10)
  }

  /** A transaction whose fields fit the buffers of the device. */
  ghost predicate InBounds(cfg: Config, t: Transaction) {
    && 0 < |t.value| && FitsPretty(t.value) && AllDigits(t.value)
    && 0 < |Marshal(t.receiver)| < FULL_ADDRESS_LENGTH - 1 && Clean(t.receiver)
    && 0 < |Marshal(t.sender)| <= MAX_VALUE_LEN && Clean(t.sender)
    && |Complete(t.senderUsername)| <= MAX_VALUE_LEN
    && |Complete(t.receiverUsername)| <= MAX_VALUE_LEN
    && (t.data != [] ==> cfg.contractData)
    && |Complete(t.data)| < TWO32
    && 0 < |Marshal(t.chainId)| < MAX_CHAINID_LEN && Clean(t.chainId)
    && t.version >= TX_HASH_VERSION
    && FitsPretty(FeeText(t))
  }

  /** The data as displayed: its size, then all of it or its beginning and an
      ellipsis. */
  function ShownData(cfg: Config, data: payload): string {
    if data == [] then "" else
      EncodedSize(data);
      var head := cfg.MaxDisplay() / 4 * 3 - 3;
      SizeText(|data|)
      + (if |Complete(data)| <= cfg.MaxDisplay() then ShownText(data) else ShownText(data[..head]) + "...")
  }

  /** How much of n decoded bytes is searched for the value of a transfer: the
      length of the encoding counts modulo 256, and more than 128 characters of
      it do not decode. */
  function Window(n: nat): (w: nat)
    ensures w <= n && w <= 96
  {
    if n % 192 <= 96 then n % 192 else 0
  }

  /** The text that is searched. */
  function Searched(data: seq<uint8>): string {
    ShownText(data + Base64.Zeros(Missing(|data|)))[..Window(|data| + Missing(|data|))]
  }

  /** The value extracted from the data of a transaction. */
  function EsdtText(data: payload): string {
    if ShowsTransfer(data) then ExtractFrom(Searched(data), "") else ""
  }

  /** What the device then holds and shows. */
  function Expected(cfg: Config, t: Transaction): Tx {
    Tx(
      Marshal(t.receiver),
      Pretty(t.value, DECIMAL_PLACES, TickerOf(Marshal(t.chainId))),
      t.gasLimit,
      t.gasPrice,
      Pretty(FeeText(t), DECIMAL_PLACES, TickerOf(Marshal(t.chainId))),
      ShownData(cfg, t.data),
      |t.data|,
      Marshal(t.chainId),
      EsdtText(t.data),
      NetworkOf(Marshal(t.chainId)),
      "",
      "")
  }

  // ---- Numbers ---------------------------------------------------------------------------

  lemma NumberText(n: nat)
    requires n < TWO64
    ensures
      var t := Numerals.Print(n, 10);
      0 < |t| <= 20 && AllDigits(t) && '"' !in t && '\0' !in t && ReadDecimal(t) == Some(n)
  {
    hide Digits, ReadDecimal, Eval;
    var t := Numerals.Print(n, 10);
    PrintDecimal(n);
    PrintRead(n, 10);
    ReadDecimalExact(t);
    TwentyDigits(n);
  }

  lemma TwentyDigits(n: nat)
    requires n < TWO64
    ensures |Digits(n, 10)| <= 20
  {
    PowSplit(10, 5, 5);
    PowSplit(10, 10, 10);
    DigitCount(n, 10, 20);
  }

  // ---- The data field ---------------------------------------------------------------------

  /** The padding of a complete encoding tells how much it encodes. */
  lemma EncodedSize(b: seq<uint8>)
    requires b != []
    ensures |Complete(b)| % 4 == 0 && |Complete(b)| >= 4
    ensures |Complete(b)| / 4 * 3 == |b| + Missing(|b|)
    ensures
      var e := Complete(b);
      Pads(e[|e| - 1], e[|e| - 2]) == Missing(|b|)
  {
    hide Encode;
    EncodeLength(b);
    EncodeNoPadding(b);
    var e := Complete(b);
    var n := |Encode(b)|;
    assert forall k :: 0 <= k < n ==> e[k] == Encode(b)[k];
  }

  lemma {:induction false} EncodeNoPadding(b: seq<uint8>)
    ensures forall k :: 0 <= k < |Encode(b)| ==> Encode(b)[k] != '=' && Encode(b)[k] != '"' && Encode(b)[k] != '\0'
    decreases |b|
  {
    hide EncodeTriple;
    if |b| >= 3 {
      EncodeNoPadding(b[3..]);
      TripleNoPadding(b[0], b[1], b[2]);
    } else if |b| > 0 {
      TripleNoPadding(b[0], if |b| == 2 then b[1] else 0, 0);
    }
  }

  lemma TripleNoPadding(b0: uint8, b1: uint8, b2: uint8)
    ensures forall k :: 0 <= k < 4 ==>
      var c := EncodeTriple(b0, b1, b2)[k];
      c != '=' && c != '"' && c != '\0'
  {
    hide EncodeChar;
    EncodeDecodeChar(b0 / 4);
    EncodeDecodeChar(b0 % 4 * 16 + b1 / 16);
    EncodeDecodeChar(b1 % 16 * 4 + b2 / 64);
    EncodeDecodeChar(b2 % 64);
  }

  /** Decoding fewer groups decodes a prefix. */
  lemma {:induction false} DecodedPrefix(s: string, k: nat)
    requires k % 4 == 0 && k <= |s|
    ensures Decoded(s[..k]) == Decoded(s)[..k / 4 * 3]
    decreases |s|
  {
    hide Quad, Triple;
    if k > 0 {
      DecodedPrefix(s[4..], k - 4);
      assert s[..k][..4] == s[..4] && s[..k][4..] == s[4..][..k - 4];
    }
  }

  lemma DecodedEllipsis()
    ensures AllBase64(ELLIPSIS_BASE64) && Decoded(ELLIPSIS_BASE64) == [46, 46, 46]
  {
    assert ELLIPSIS_BASE64[..4] == ELLIPSIS_BASE64 && ELLIPSIS_BASE64[4..] == [];
    assert Quad(ELLIPSIS_BASE64) == 0x2e2e2e;
  }

  lemma ShownConcat(a: seq<nat>, b: seq<nat>)
    ensures ShownText(a + b) == ShownText(a) + ShownText(b)
  {
  }

  /** What is decoded for display from a complete encoding. */
  function DisplayedBytes(cfg: Config, data: payload): seq<nat>
    requires data != []
  {
    EncodedSize(data);
    if |Complete(data)| <= cfg.MaxDisplay() then data + Base64.Zeros(Missing(|data|))
    else data[..cfg.MaxDisplay() / 4 * 3 - 3] + [46, 46, 46]
  }

  lemma DisplayDecodes(cfg: Config, data: payload)
    requires data != []
    ensures |Complete(data)| % 4 == 0
    ensures DecodeText(ShownCode(cfg, Complete(data))) == Some(ShownText(DisplayedBytes(cfg, data)))
  {
    hide Decoded, IsBase64Char, Encode, Missing, ShownText;
    EncodedSize(data);
    DecodeEncode(data);
    var e, code := Complete(data), ShownCode(cfg, Complete(data));
    assert code[..|code| / 4 * 4] == code;
    if |e| > cfg.MaxDisplay() {
      var k := cfg.MaxDisplay() - 4;
      DecodedPrefix(e, k);
      DecodedEllipsis();
      AppendDecoded(e[..k], ELLIPSIS_BASE64);
      assert Decoded(e)[..k / 4 * 3] == data[..k / 4 * 3];
    }
  }

  lemma {:induction false} AppendDecoded(s: string, t: string)
    requires |s| % 4 == 0
    ensures Decoded(s + t) == Decoded(s) + Decoded(t)
    decreases |s|
  {
    hide Quad, Triple;
    if s == [] {
      assert s + t == t;
    } else {
      AppendDecoded(s[4..], t);
      assert (s + t)[..4] == s[..4] && (s + t)[4..] == s[4..] + t;
    }
  }

  /** The displayed text shows a transfer exactly when the data does. */
  lemma TransferShows(cfg: Config, data: payload)
    requires data != []
    ensures IsTransfer(ShownText(DisplayedBytes(cfg, data))) <==> ShowsTransfer(data)
  {
    hide Complete, Missing;
    EncodedSize(data);
    var shown := DisplayedBytes(cfg, data);
    var n := if |data| < |shown| then |data| else |shown|;
    if |Complete(data)| <= cfg.MaxDisplay() {
      PrefixShows(data, shown);
    } else {
      var head := data[..cfg.MaxDisplay() / 4 * 3 - 3];
      ShownConcat(head, [46, 46, 46]);
      ShownConcat(head, data[|head|..]);
      assert head + data[|head|..] == data;
    }
  }

  lemma PrefixShows(data: seq<nat>, shown: seq<nat>)
    requires data <= shown && forall k :: |data| <= k < |shown| ==> shown[k] == 0
    ensures IsTransfer(ShownText(shown)) <==> IsTransfer(ShownText(data))
  {
    var p := ESDT_TRANSFER_PREFIX;
    assert forall k :: 0 <= k < |p| ==> p[k] != '?';
    if |data| < |p| <= |shown| {
      assert ShownText(shown)[|data|] == '?';
    }
  }

  /** The data page: everything that was decoded, cut to the data. */
  lemma PageShows(cfg: Config, data: payload)
    requires data != []
    ensures DataText(cfg, ShownText(DisplayedBytes(cfg, data)), |data|) == ShownData(cfg, data)
  {
    hide Complete, SizeText;
    EncodedSize(data);
    var shown := DisplayedBytes(cfg, data);
    if |Complete(data)| <= cfg.MaxDisplay() {
      assert ShownText(shown)[..|data|] == ShownText(data);
    } else {
      ShownConcat(data[..cfg.MaxDisplay() / 4 * 3 - 3], [46, 46, 46]);
      assert ShownText([46, 46, 46]) == "...";
    }
  }

  /** Storing a complete encoding stores the size of what it encodes, shows it,
      and extracts the value of a transfer. */
  lemma DataStored(cfg: Config, data: payload, tx: Tx)
    requires data != [] && cfg.contractData && |Complete(data)| < TWO32
    ensures |Complete(data)| % 4 == 0 && |Complete(data)| > 0
    ensures StoreData(cfg, Complete(data), tx) == Accepted(tx.(
      esdtValue := if ShowsTransfer(data) then ExtractFrom(Searched(data), tx.esdtValue) else tx.esdtValue,
      dataSize := |data|,
      data := ShownData(cfg, data)))
  {
    hide Complete, Missing, ShownText, DisplayedBytes, ExtractFrom, DecodeText, ShowsTransfer;
    hide DataText, ShownData, ShownCode, TransferValue, Searched;
    EncodedSize(data);
    DisplayDecodes(cfg, data);
    TransferShows(cfg, data);
    PageShows(cfg, data);
    WindowSearched(data, tx.esdtValue);
  }

  /** What is extracted is found in the window. */
  lemma WindowSearched(data: payload, was: string)
    requires data != []
    ensures |Complete(data)| % 4 == 0 && TransferValue(Complete(data), was) == ExtractFrom(Searched(data), was)
  {
    hide Complete, Missing, ShownText, ExtractFrom, DecodeText;
    EncodedSize(data);
    var n := |Complete(data)|;
    Modulo(n / 4, n, |data| + Missing(|data|));
    if n % 256 <= MAX_VALUE_LEN {
      WindowDecodes(data, n % 256);
    } else {
      NothingFound(Searched(data), was);
    }
  }

  lemma Modulo(q: nat, n: nat, t: nat)
    requires n == 4 * q && t == 3 * q
    ensures n % 256 % 4 == 0 && n % 256 / 4 * 3 == t % 192
  {
    var k, r := q / 64, q % 64;
    assert n == k * 256 + 4 * r && t == k * 192 + 3 * r;
  }

  lemma NothingFound(text: string, was: string)
    requires text == ""
    ensures ExtractFrom(text, was) == was
  {
  }

  lemma WindowDecodes(data: payload, n: nat)
    requires n % 4 == 0 && n <= |Complete(data)| && n / 4 * 3 <= |data| + Missing(|data|)
    ensures DecodeText(Complete(data)[..n]) ==
      Some(ShownText(data + Base64.Zeros(Missing(|data|)))[..n / 4 * 3])
  {
    hide Decoded, IsBase64Char, Encode, Missing;
    var e, all := Complete(data), data + Base64.Zeros(Missing(|data|));
    DecodeEncode(data);
    DecodedPrefix(e, n);
    assert e[..n][..|e[..n]| / 4 * 4] == e[..n];
    assert ShownText(all[..n / 4 * 3]) == ShownText(all)[..n / 4 * 3];
  }

  // ---- All fields ---------------------------------------------------------------------------

  lemma {:induction false} EffectsConcat(cfg: Config, a: seq<Item>, b: seq<Item>, tx: Tx)
    requires AllPrintable(a) && AllPrintable(b) && Effects(cfg, a, tx).Accepted?
    ensures AllPrintable(a + b) && Effects(cfg, a + b, tx) == Effects(cfg, b, Effects(cfg, a, tx).tx)
    decreases |a|
  {
    hide Effect, Printable;
    if a == [] {
      assert a + b == b;
    } else {
      assert (a + b)[0] == a[0] && (a + b)[1..] == a[1..] + b;
      EffectsConcat(cfg, a[1..], b, Effect(cfg, a[0], tx).tx);
    }
  }

  lemma OneEffect(cfg: Config, i: Item, tx: Tx)
    requires Printable(i) && Effect(cfg, i, tx).Accepted?
    ensures AllPrintable([i]) && Effects(cfg, [i], tx) == Effect(cfg, i, tx)
  {
    hide Effect, Printable;
    assert [i][1..] == [];
    NoEffects(cfg, [i][1..], Effect(cfg, i, tx).tx);
  }

  lemma NoEffects(cfg: Config, items: seq<Item>, tx: Tx)
    requires items == []
    ensures AllPrintable(items) && Effects(cfg, items, tx) == Accepted(tx)
  {
  }

  lemma NumPrintable(name: string, n: nat)
    requires KnownName(name) && name != DATA_FIELD && n < TWO64
    ensures Printable(Num(name, n)) && Num(name, n).name == name && ReadDecimal(Num(name, n).value.text) == Some(n)
  {
    NumberText(n);
  }

  lemma HeadStored(cfg: Config, t: Transaction)
    requires InBounds(cfg, t)
    ensures AllPrintable(Head(t))
    ensures Effects(cfg, Head(t), EMPTY) == Accepted(EMPTY.(amount := t.value, receiver := Marshal(t.receiver)))
  {
    hide Effects, Printable, ShowsTransfer, FeeText, Complete, AllDigits, AllPrintable, Num, Marshal;
    DigitsPlain(t.value);
    var nonce := Num(NONCE_FIELD, t.nonce);
    var value, receiver := Text(VALUE_FIELD, t.value), Text(RECEIVER_FIELD, t.receiver);
    var sender := Text(SENDER_FIELD, t.sender);
    NumPrintable(NONCE_FIELD, t.nonce);
    TextPrintable(value);
    TextPrintable(receiver);
    TextPrintable(sender);
    var tx1 := EMPTY.(amount := t.value);
    OneEffect(cfg, nonce, EMPTY);
    OneEffect(cfg, value, EMPTY);
    EffectsConcat(cfg, [nonce], [value], EMPTY);
    OneEffect(cfg, receiver, tx1);
    EffectsConcat(cfg, [nonce] + [value], [receiver], EMPTY);
    OneEffect(cfg, sender, tx1.(receiver := Marshal(t.receiver)));
    EffectsConcat(cfg, [nonce] + [value] + [receiver], [sender], EMPTY);
    assert Head(t) == [nonce] + [value] + [receiver] + [sender];
  }

  lemma TextPrintable(i: Item)
    requires i.value.Quoted? && KnownName(i.name) && i.name != DATA_FIELD
    requires 0 < |i.value.text| <= MAX_VALUE_LEN && '"' !in i.value.text && '\0' !in i.value.text
    ensures Printable(i)
  {
  }

  lemma OptEffect(cfg: Config, present: bool, i: Item, tx: Tx)
    requires present ==> Printable(i) && Effect(cfg, i, tx).Accepted?
    ensures AllPrintable(Opt(present, i))
    ensures Effects(cfg, Opt(present, i), tx) == if present then Effect(cfg, i, tx) else Accepted(tx)
  {
    hide Effect, Printable, Effects, AllPrintable;
    if present {
      OneEffect(cfg, i, tx);
    } else {
      NoEffects(cfg, Opt(present, i), tx);
    }
  }

  lemma CompleteClean(b: payload)
    requires b != []
    ensures |Complete(b)| >= 4 && '"' !in Complete(b) && '\0' !in Complete(b)
  {
    hide Encode, Missing;
    EncodedSize(b);
    EncodeNoPadding(b);
  }

  lemma UsernamesStored(cfg: Config, t: Transaction, tx: Tx)
    requires InBounds(cfg, t)
    ensures AllPrintable(Usernames(t)) && Effects(cfg, Usernames(t), tx) == Accepted(tx)
  {
    hide Effects, Printable, ShowsTransfer, FeeText, Complete, AllDigits, AllPrintable, Opt;
    var s, r := Bytes(SENDER_USERNAME_FIELD, t.senderUsername), Bytes(RECEIVER_USERNAME_FIELD, t.receiverUsername);
    if t.senderUsername != [] { CompleteClean(t.senderUsername); TextPrintable(s); }
    if t.receiverUsername != [] { CompleteClean(t.receiverUsername); TextPrintable(r); }
    OptEffect(cfg, t.senderUsername != [], s, tx);
    OptEffect(cfg, t.receiverUsername != [], r, tx);
    EffectsConcat(cfg, Opt(t.senderUsername != [], s), Opt(t.receiverUsername != [], r), tx);
  }

  lemma GasStored(cfg: Config, t: Transaction, tx: Tx)
    requires tx.gasPrice == 0 && tx.gasLimit == 0
    ensures AllPrintable(Gas(t))
    ensures Effects(cfg, Gas(t), tx) == Accepted(tx.(gasPrice := t.gasPrice, gasLimit := t.gasLimit))
  {
    hide Effects, Printable, AllPrintable, Opt, Num, ReadDecimal;
    var price, limit := Num(GASPRICE_FIELD, t.gasPrice), Num(GASLIMIT_FIELD, t.gasLimit);
    NumPrintable(GASPRICE_FIELD, t.gasPrice);
    NumPrintable(GASLIMIT_FIELD, t.gasLimit);
    OptEffect(cfg, t.gasPrice != 0, price, tx);
    OptEffect(cfg, t.gasLimit != 0, limit, tx.(gasPrice := t.gasPrice));
    EffectsConcat(cfg, Opt(t.gasPrice != 0, price), Opt(t.gasLimit != 0, limit), tx);
  }

  lemma DataItemStored(cfg: Config, t: Transaction, tx: Tx)
    requires InBounds(cfg, t) && tx.esdtValue == "" && tx.dataSize == 0 && tx.data == ""
    ensures AllPrintable(Data(t))
    ensures Effects(cfg, Data(t), tx) == Accepted(tx.(
      esdtValue := EsdtText(t.data), dataSize := |t.data|, data := ShownData(cfg, t.data)))
  {
    hide Effects, Printable, AllPrintable, Opt, Complete, ShowsTransfer, FeeText, AllDigits;
    hide StoreData, Missing, ExtractFrom;
    var i := Bytes(DATA_FIELD, t.data);
    if t.data != [] {
      DataStored(cfg, t.data, tx);
      DataPrintable(t.data);
    } else {
      NoTransfer(t.data);
    }
    OptEffect(cfg, t.data != [], i, tx);
  }

  lemma DataPrintable(data: payload)
    requires data != [] && |Complete(data)| < TWO32
    ensures Printable(Bytes(DATA_FIELD, data))
  {
    hide Complete;
    EncodedSize(data);
    CompleteClean(data);
  }

  lemma NoTransfer(data: payload)
    ensures data == [] ==> !ShowsTransfer(data)
  {
  }

  lemma TailStored(cfg: Config, t: Transaction, tx: Tx)
    requires InBounds(cfg, t)
    requires tx.gasLimit == t.gasLimit && tx.gasPrice == t.gasPrice && tx.dataSize == |t.data| && tx.amount == t.value
    ensures AllPrintable(Tail(t))
    ensures Effects(cfg, Tail(t), tx) == Accepted(tx.(
      chainId := Marshal(t.chainId),
      network := NetworkOf(Marshal(t.chainId)),
      amount := Pretty(t.value, DECIMAL_PLACES, TickerOf(Marshal(t.chainId))),
      fee := Pretty(FeeText(t), DECIMAL_PLACES, TickerOf(Marshal(t.chainId)))))
  {
    hide Effects, Printable, ShowsTransfer, Complete, AllDigits, AllPrintable, Num, Opt;
    hide Edited, Pretty, ChargedFee, Numerals.Print, NetworkOf, TickerOf, ReadDecimal;
    var chain, version := Text(CHAINID_FIELD, t.chainId), Num(VERSION_FIELD, t.version);
    var options := Num(OPTIONS_FIELD, t.options);
    TextPrintable(chain);
    NumPrintable(VERSION_FIELD, t.version);
    NumPrintable(OPTIONS_FIELD, t.options);
    PrintDecimal(ChargedFee(t.gasLimit, t.gasPrice, |t.data|));
    EditedDigits(t.value, DECIMAL_PLACES, TickerOf(Marshal(t.chainId)));
    EditedDigits(FeeText(t), DECIMAL_PLACES, TickerOf(Marshal(t.chainId)));
    OneEffect(cfg, chain, tx);
    var tx1 := Effect(cfg, chain, tx).tx;
    OneEffect(cfg, version, tx1);
    EffectsConcat(cfg, [chain], [version], tx);
    OptEffect(cfg, t.options != 0, options, tx1);
    EffectsConcat(cfg, [chain] + [version], Opt(t.options != 0, options), tx);
    assert [Text(CHAINID_FIELD, t.chainId), Num(VERSION_FIELD, t.version)] == [chain] + [version];
  }

  /** The fields of a client's transaction are all accepted, and mean what the
      transaction says. */
  lemma ItemsStored(cfg: Config, t: Transaction)
    requires InBounds(cfg, t)
    ensures AllPrintable(Items(t)) && Effects(cfg, Items(t), EMPTY) == Accepted(Expected(cfg, t))
  {
    hide Effects, AllPrintable, InBounds, Pretty, FeeText, NetworkOf, TickerOf;
    hide ShownData, ShowsTransfer, ExtractFrom, Missing, Marshal;
    HeadStored(cfg, t);
    var tx1 := EMPTY.(amount := t.value, receiver := Marshal(t.receiver));
    UsernamesStored(cfg, t, tx1);
    GasStored(cfg, t, tx1);
    var tx2 := tx1.(gasPrice := t.gasPrice, gasLimit := t.gasLimit);
    DataItemStored(cfg, t, tx2);
    var tx3 := tx2.(esdtValue := EsdtText(t.data), dataSize := |t.data|, data := ShownData(cfg, t.data));
    TailStored(cfg, t, tx3);
    EffectsConcat(cfg, Data(t), Tail(t), tx2);
    EffectsConcat(cfg, Gas(t), Data(t) + Tail(t), tx1);
    EffectsConcat(cfg, Usernames(t), Gas(t) + (Data(t) + Tail(t)), tx1);
    EffectsConcat(cfg, Head(t), Usernames(t) + (Gas(t) + (Data(t) + Tail(t))), EMPTY);
  }

  /** The fields before the data. */
  function Before(t: Transaction): (items: seq<Item>)
    ensures items != []
  {
    Head(t) + (Usernames(t) + Gas(t))
  }

  lemma ItemsAround(t: Transaction)
    ensures Items(t) == Before(t) + (Data(t) + Tail(t))
  {
    hide Head, Usernames, Gas, Data, Tail;
  }

  lemma {:induction false} EffectsPrefix(cfg: Config, a: seq<Item>, b: seq<Item>, tx: Tx)
    requires AllPrintable(a) && AllPrintable(b)
    ensures AllPrintable(a + b)
    ensures Effects(cfg, a + b, tx).Accepted? ==> Effects(cfg, a, tx).Accepted?
    decreases |a|
  {
    hide Effect, Printable;
    if a != [] {
      assert (a + b)[0] == a[0] && (a + b)[1..] == a[1..] + b;
      if Effect(cfg, a[0], tx).Accepted? {
        EffectsPrefix(cfg, a[1..], b, Effect(cfg, a[0], tx).tx);
      }
    }
  }

  /** The fields around the data. */
  lemma PartsKnown(cfg: Config, t: Transaction)
    requires InBounds(cfg, t)
    ensures NoData(Before(t)) && NoData(Tail(t)) && Effects(cfg, Before(t), EMPTY).Accepted?
    ensures t.data != [] ==> DataItem(Bytes(DATA_FIELD, t.data))
  {
    hide Effects, Printable, InBounds, Num, Text, Marshal, Complete, Expected;
    hide Before, Tail, Data;
    ItemsStored(cfg, t);
    ItemsAround(t);
    PrintableParts(Before(t), Data(t) + Tail(t));
    PrintableParts(Data(t), Tail(t));
    EffectsPrefix(cfg, Before(t), Data(t) + Tail(t), EMPTY);
    PartNames(t);
    DataPart(t);
  }

  lemma PrintableParts(a: seq<Item>, b: seq<Item>)
    requires AllPrintable(a + b)
    ensures AllPrintable(a) && AllPrintable(b)
  {
    hide Printable;
    assert forall i <- a :: i in a + b;
    assert forall i <- b :: i in a + b;
  }

  lemma DataPart(t: Transaction)
    requires AllPrintable(Data(t))
    ensures t.data != [] ==> DataItem(Bytes(DATA_FIELD, t.data)) && Data(t) == [Bytes(DATA_FIELD, t.data)]
    ensures t.data == [] ==> Data(t) == []
  {
    hide Printable, Complete;
  }

  lemma PartNames(t: Transaction)
    ensures forall i <- Before(t) :: i.name != DATA_FIELD
    ensures forall i <- Tail(t) :: i.name != DATA_FIELD
  {
    hide Marshal, Complete, Numerals.Print;
    assert forall i <- Head(t) :: i.name != DATA_FIELD;
    assert forall i <- Usernames(t) :: i.name != DATA_FIELD;
    assert forall i <- Gas(t) :: i.name != DATA_FIELD;
  }

  /** At its closing quote the data is seen with the padding it has. */
  ghost predicate PaddingSeen(t: Transaction, chunks: seq<Chunk>) {
    t.data != [] ==>
      var q := DataEnd(Before(t), Bytes(DATA_FIELD, t.data));
      q < |Join(chunks)| && Padding(SeenAt(chunks, q)) == Missing(|t.data|)
  }

  /** A client's transaction in chunks that are not empty. */
  ghost predicate SplitInto(t: Transaction, chunks: seq<Chunk>) {
    Follow(Json(Items(t)), 0, chunks)
  }

  /** That is the only place where the padding is looked at. */
  lemma PaddingSame(cfg: Config, t: Transaction, chunks: seq<Chunk>)
    requires InBounds(cfg, t) && SplitInto(t, chunks)
    ensures PaddingSeen(t, chunks) <==> SamePadding(Items(t), chunks)
  {
    hide InBounds, Items, Json, Join, DataQuote, Effects, NoData, DataItem, Before, Tail, Complete, Missing;
    hide SeenAt, DataEnd, Printable, Padding;
    PartsKnown(cfg, t);
    ItemsAround(t);
    if t.data == [] {
      assert Items(t) == Before(t) + Tail(t) by { EmptyPart(Data(t), Tail(t)); }
      JoinedNoData(Before(t), Tail(t));
      forall p: nat ensures !DataQuote(Items(t), p) {
        NoDataQuotes(Items(t), p);
      }
    } else {
      var d := Bytes(DATA_FIELD, t.data);
      var text, q := Json(Items(t)), DataEnd(Before(t), d);
      forall p: nat ensures DataQuote(Items(t), p) <==> p + 1 == q {
        OneDataQuote(Before(t), d, Tail(t), p);
      }
      JsonAround(Before(t), d, Tail(t));
      QuoteInside(Before(t), d, Tail(t));
      RealPadding(Before(t), t.data, chunks[0].header);
      assert text[..q] == UpTo(Before(t), d);
      assert DataQuote(Items(t), q - 1);
      assert Join(chunks) == text[0..] == text;
    }
  }

  lemma QuoteInside(before: seq<Item>, d: Item, after: seq<Item>)
    requires before != [] && after != [] && d.value.Quoted?
    ensures 0 < DataEnd(before, d) < |UpTo(before, d) + Behind(after)|
  {
    hide Fields;
    JsonAround(before, d, after);
  }

  lemma EmptyPart(a: seq<Item>, b: seq<Item>)
    ensures a == [] ==> a + b == b
  {
  }

  lemma JoinedNoData(a: seq<Item>, b: seq<Item>)
    requires NoData(a) && NoData(b)
    ensures NoData(a + b)
  {
    hide Printable;
  }

  lemma RealPadding(before: seq<Item>, data: payload, header: back)
    requires before != [] && data != []
    ensures Padding(After(header, UpTo(before, Bytes(DATA_FIELD, data)))) == Missing(|data|)
  {
    hide Complete, Fields;
    EncodedSize(data);
    var e, s := Complete(data), UpTo(before, Bytes(DATA_FIELD, data));
    assert s[|s| - 1] == e[|e| - 1] && s[|s| - 2] == e[|e| - 2];
  }

  /** Every transaction that fits the device, printed and sent in any chunks, is
      accepted and held as what it is if and only if the parser sees the padding
      of its data at the closing quote. */
  lemma TransactionParsed(cfg: Config, t: Transaction, h: Hash, chunks: seq<Chunk>)
    requires InBounds(cfg, t) && h.status == Idle && SplitInto(t, chunks)
    ensures
      var o := Feed(cfg, State(h, EMPTY), chunks);
      o.code == MSG_OK && o.state.hash.status == Idle && o.state.tx == Expected(cfg, t) <==> PaddingSeen(t, chunks)
  {
    hide Effects, InBounds, Expected, Items, Json, Join, Feed, SamePadding, PaddingSeen, Printable;
    PaddingSame(cfg, t, chunks);
    if PaddingSeen(t, chunks) {
      ItemsStored(cfg, t);
      SplitParsed(cfg, State(h, EMPTY), Items(t), chunks);
    } else {
      OtherPadding(cfg, t, h, chunks);
      SizeExpected(cfg, t);
    }
  }

  lemma MarshalFirst(s: string)
    ensures s == "" <==> Marshal(s) == ""
    ensures s != "" ==> Marshal(s)[0] == if Plain(s[0]) then s[0] else '\\'
  {
    if s != "" {
      assert Escape(s[0])[0] == if Plain(s[0]) then s[0] else '\\';
    }
  }

  /** The coin and the network that are shown for an accepted transaction, by the
      first character of its chain identifier. */
  lemma CoinShown(cfg: Config, t: Transaction, h: Hash, chunks: seq<Chunk>)
    requires InBounds(cfg, t) && h.status == Idle && SplitInto(t, chunks) && PaddingSeen(t, chunks)
    ensures
      var tx := Feed(cfg, State(h, EMPTY), chunks).state.tx;
      && t.chainId != ""
      && (t.chainId[0] == '1' ==>
          && tx.amount == Pretty(t.value, 18, "EGLD") && tx.fee == Pretty(FeeText(t), 18, "EGLD")
          && tx.network == "Mainnet")
      && (t.chainId[0] != '1' ==>
          && tx.amount == Pretty(t.value, 18, "xEGLD") && tx.fee == Pretty(FeeText(t), 18, "xEGLD")
          && tx.network ==
               if t.chainId[0] == 'T' then "Testnet" else if t.chainId[0] == 'D' then "Devnet" else "Unknown")
  {
    hide Feed, SplitInto, PaddingSeen, Marshal, Pretty, FeeText, TickerOf, NetworkOf, ShownData, EsdtText, Complete;
    TransactionParsed(cfg, t, h, chunks);
    MarshalFirst(t.chainId);
    TickerAndNetwork(Marshal(t.chainId));
  }

  lemma SizeExpected(cfg: Config, t: Transaction)
    ensures Expected(cfg, t).dataSize == |t.data|
  {
  }

  /** Any other padding leads to another size of the data, if anything is accepted. */
  lemma OtherPadding(cfg: Config, t: Transaction, h: Hash, chunks: seq<Chunk>)
    requires InBounds(cfg, t) && h.status == Idle && SplitInto(t, chunks) && !PaddingSeen(t, chunks)
    ensures
      var o := Feed(cfg, State(h, EMPTY), chunks);
      o.code == MSG_OK ==> o.state.tx.dataSize != |t.data|
  {
    hide Effects, InBounds, Items, Json, Join, Feed, NoData, Before, Tail, Complete, Missing;
    hide SeenAt, DataEnd, Printable;
    PartsKnown(cfg, t);
    ItemsAround(t);
    EncodedSize(t.data);
    var d := Bytes(DATA_FIELD, t.data);
    SizeSeen(cfg, State(h, EMPTY), Before(t), d, Tail(t), chunks);
    var seen := SeenAt(chunks, DataEnd(Before(t), d));
    SizesDiffer(|Complete(t.data)| / 4 * 3, Padding(seen), Missing(|t.data|));
  }

  /** Without that condition the result can be wrong: this value encodes one byte,
      but when its closing quote starts a chunk the padding before it is not
      seen, unless the header bytes show as much. */
  lemma CutLosesPadding(cfg: Config, h: Hash, b: back, header: back)
    requires h.status == Idle
    ensures
      var st, s := State(h, EMPTY), "{" + ("\"data\":" + "\"YQ==");
      ParseData(cfg, ParseData(cfg, st, b, s).state, header, ['"']) == ParseData(cfg, st, b, s + ['"'])
      <==> header == ['=', '=']
  {
    hide Steps, Step, Printable;
    var i, st := Item(DATA_FIELD, Quoted("YQ==")), State(h, EMPTY);
    var name := "\"data\":";
    var s := "{" + (name + "\"YQ==");
    SamplePrintable();
    OneStep(cfg, st, b, '{');
    BraceStep(cfg, st, b);
    var begun := State(h.(status := ExpectingField), EMPTY);
    StepsThen(cfg, st, b, "{", name + "\"YQ==");
    NameRun(cfg, begun, After(b, "{"), DATA_FIELD);
    assert "\"" + DATA_FIELD + "\":" == name;
    StepsThen(cfg, begun, After(b, "{"), name, "\"YQ==");
    QuotedRun(cfg, begun, After(After(b, "{"), name), i);
    assert "\"" + i.value.text == "\"YQ==";
    FieldStored(h.field, DATA_FIELD);
    assert Steps(cfg, st, b, s) == Continue(TextRead(NameRead(begun, DATA_FIELD), i.value.text, ProcessingString));
    assert After(b, s) == ['=', '='];
    CutBeforeQuote(cfg, st, b, s, header);
  }

  lemma BraceStep(cfg: Config, st: State, b: back)
    requires st.hash.status == Idle
    ensures Step(cfg, st, '{', b[1], b[0]) == Continue(State(st.hash.(status := ExpectingField), st.tx))
  {
  }

  lemma SamplePrintable()
    ensures Printable(Item(DATA_FIELD, Quoted("YQ==")))
  {
  }
}
