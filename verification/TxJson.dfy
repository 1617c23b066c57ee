/** Transactions printed as JSON and parsed back. */
module TxJson {
  import opened Words
  import opened Numerals
  import opened CStrings
  import opened Base64
  import opened AmountFormat
  import opened Fee
  import opened Esdt
  import opened TxState
  import opened TxFields
  import opened TxMachine

  // ---- Printed transactions --------------------------------------------------------

  datatype Value = Quoted(text: string) | Number(text: string)

  datatype Item = Item(name: string, value: Value) {
    function Print(): string {
      "\"" + name + "\":" + match value case Quoted(t) => "\"" + t + "\"" case Number(t) => t
    }
  }

  predicate KnownName(name: string) {
    || name == VALUE_FIELD || name == RECEIVER_FIELD || name == GASPRICE_FIELD || name == GASLIMIT_FIELD
    || name == DATA_FIELD || name == CHAINID_FIELD || name == VERSION_FIELD || name == OPTIONS_FIELD
    || name == GUARDIAN_ADDR_FIELD || name == RELAYER_FIELD || name == NONCE_FIELD || name == SENDER_FIELD
    || name == SENDER_USERNAME_FIELD || name == RECEIVER_USERNAME_FIELD
  }

  /** A known name with a value that fits; only data may be longer than the
      value buffer, and it comes in whole groups of four characters. */
  ghost predicate Printable(i: Item) {
    var t := i.value.text;
    && KnownName(i.name)
    && 0 < |t|
    && '"' !in t && '\0' !in t
    && (i.name == DATA_FIELD ==> |t| % 4 == 0 && |t| < TWO32)
    && (i.name != DATA_FIELD ==> |t| <= MAX_VALUE_LEN)
    && (i.value.Number? ==> i.name != DATA_FIELD && AllDigits(t))
  }

  /** The fields separated by commas. */
  function Fields(items: seq<Item>): string
    requires items != []
  {
    if |items| == 1 then items[0].Print() else items[0].Print() + [','] + Fields(items[1..])
  }

  function Json(items: seq<Item>): string
    requires items != []
  {
    "{" + Fields(items) + "}"
  }

  // ---- What the fields mean ----------------------------------------------------------

  datatype Stored = Accepted(tx: Tx) | Rejected(code: nat)

  function DecodedLen(t: string): uint32
    requires 0 < |t| && |t| % 4 == 0 && |t| < TWO32
  {
    |t| / 4 * 3 - Pads(t[|t| - 1], t[|t| - 2])
  }

  /** The characters of a data value that are decoded for display. */
  function ShownCode(cfg: Config, t: string): (s: string)
    requires |t| % 4 == 0
    ensures |s| % 4 == 0
  {
    if |t| > cfg.MaxDisplay() then t[..cfg.MaxDisplay() - 4] + ELLIPSIS_BASE64 else t
  }

  /** The extracted value after a data field that displays as a transfer. */
  ghost function TransferValue(t: string, was: string): string
    requires |t| % 4 == 0
  {
    if |t| % 256 > MAX_VALUE_LEN then was
    else match DecodeText(t[..|t| % 256])
      case Some(text) => ExtractFrom(text, was)
      case None => was
  }

  ghost function StoreData(cfg: Config, t: string, tx: Tx): Stored
    requires 0 < |t| && |t| % 4 == 0 && |t| < TWO32
  {
    if !cfg.contractData then Rejected(ERR_CONTRACT_DATA_DISABLED)
    else match DecodeText(ShownCode(cfg, t))
      case None => Rejected(ERR_INVALID_MESSAGE)
      case Some(text) =>
        Accepted(tx.(
          esdtValue := if IsTransfer(text) then TransferValue(t, tx.esdtValue) else tx.esdtValue,
          dataSize := DecodedLen(t),
          data := DataText(cfg, text, DecodedLen(t))))
  }

  ghost function StoreChainId(t: string, tx: Tx): Stored {
    var fee := Numerals.Print(ChargedFee(tx.gasLimit, tx.gasPrice, tx.dataSize), 10);
    if |t| >= MAX_CHAINID_LEN then Rejected(OVERRUN)
    else if |fee| > AMOUNT_SIZE - PRETTY_SIZE - 1 then Rejected(ERR_INVALID_FEE)
    else if !FitsPretty(tx.amount) || !FitsPretty(fee) then Rejected(ERR_PRETTY_FAILED)
    else Accepted(tx.(
      chainId := t,
      network := NetworkOf(t),
      amount := Edited(tx.amount, DECIMAL_PLACES, TickerOf(t)),
      fee := Edited(fee, DECIMAL_PLACES, TickerOf(t))))
  }

  ghost function StoreNumber(t: string, tx: Tx, f: uint64 -> Stored, err: nat): Stored {
    match ReadDecimal(t)
    case Some(n) => f(n)
    case None => Rejected(err)
  }

  /** The meaning of a field, in terms of its text alone. */
  ghost function Effect(cfg: Config, i: Item, tx: Tx): Stored
    requires Printable(i)
  {
    var t := i.value.text;
    if i.name == VALUE_FIELD then
      if |t| + 1 >= AMOUNT_SIZE then Rejected(ERR_AMOUNT_TOO_LONG)
      else if !AllDigits(t) then Rejected(ERR_INVALID_AMOUNT)
      else Accepted(tx.(amount := t))
    else if i.name == RECEIVER_FIELD then
      if |t| + 1 >= FULL_ADDRESS_LENGTH then Rejected(ERR_RECEIVER_TOO_LONG) else Accepted(tx.(receiver := t))
    else if i.name == GASPRICE_FIELD then
      StoreNumber(t, tx, (n: uint64) => Accepted(tx.(gasPrice := n)), ERR_INVALID_FEE)
    else if i.name == GASLIMIT_FIELD then
      StoreNumber(t, tx, (n: uint64) => Accepted(tx.(gasLimit := n)), ERR_INVALID_FEE)
    else if i.name == DATA_FIELD then StoreData(cfg, t, tx)
    else if i.name == CHAINID_FIELD then StoreChainId(t, tx)
    else if i.name == VERSION_FIELD then
      StoreNumber(t, tx, (n: uint64) => if n < TX_HASH_VERSION then Rejected(ERR_WRONG_TX_VERSION) else Accepted(tx),
        ERR_INVALID_MESSAGE)
    else if i.name == OPTIONS_FIELD then
      StoreNumber(t, tx, (n: uint64) => if n < TX_HASH_OPTIONS then Rejected(ERR_WRONG_TX_OPTIONS) else Accepted(tx),
        ERR_INVALID_MESSAGE)
    else if i.name == GUARDIAN_ADDR_FIELD then
      if |t| + 1 >= FULL_ADDRESS_LENGTH then Rejected(ERR_INVALID_MESSAGE) else Accepted(tx.(guardian := t))
    else if i.name == RELAYER_FIELD then
      if |t| + 1 >= FULL_ADDRESS_LENGTH then Rejected(ERR_INVALID_MESSAGE) else Accepted(tx.(relayer := t))
    else Accepted(tx)
  }

  /** All fields in order; the first rejected one decides. */
  ghost function Effects(cfg: Config, items: seq<Item>, tx: Tx): Stored
    requires forall i <- items :: Printable(i)
  {
    if items == [] then Accepted(tx) else
      match Effect(cfg, items[0], tx)
      case Rejected(code) => Rejected(code)
      case Accepted(tx') => Effects(cfg, items[1..], tx')
  }

  // ---- Closing a field ----------------------------------------------------------------

  /** The contexts right before a field is stored. */
  ghost predicate Ready(h: Hash, i: Item)
    requires Printable(i)
  {
    var t := i.value.text;
    && h.fieldLen == |i.name| <= MAX_FIELD_LEN
    && h.field[..|i.name|] == i.name
    && h.valueLen == |t|
    && h.value[..if |t| < MAX_VALUE_LEN then |t| else MAX_VALUE_LEN]
         == t[..if |t| < MAX_VALUE_LEN then |t| else MAX_VALUE_LEN]
    && (i.name == DATA_FIELD ==> h.dataFieldSize == DecodedLen(t))
  }

  ghost predicate Matches(v: Verdict, e: Stored) {
    match e
    case Accepted(tx) => v.code == MSG_OK && v.tx == tx
    case Rejected(code) => v.code == code && code != MSG_OK
  }

  lemma TerminatedText(h: Hash, i: Item)
    requires Printable(i) && Ready(h, i) && i.name != DATA_FIELD
    ensures CStr(Terminated(h).value) == i.value.text
  {
    hide CStr;
    var t := i.value.text;
    CStrOf(Terminated(h).value, t);
  }

  /** Which branch a known name takes. */
  lemma DispatchKnown(cfg: Config, h: Hash, tx: Tx, i: Item)
    requires KnownName(i.name) && h.fieldLen == |i.name| <= MAX_FIELD_LEN && h.field[..|i.name|] == i.name
    ensures Dispatch(cfg, h, tx) ==
      if i.name == VALUE_FIELD then VerifyValue(h, tx)
      else if i.name == RECEIVER_FIELD then VerifyReceiver(h, tx)
      else if i.name == GASPRICE_FIELD then VerifyGasPrice(h, tx)
      else if i.name == GASLIMIT_FIELD then VerifyGasLimit(h, tx)
      else if i.name == DATA_FIELD then VerifyData(cfg, h, tx)
      else if i.name == CHAINID_FIELD then VerifyChainId(h, tx)
      else if i.name == VERSION_FIELD then VerifyVersion(h, tx)
      else if i.name == OPTIONS_FIELD then VerifyOptions(h, tx)
      else if i.name == GUARDIAN_ADDR_FIELD then VerifyGuardian(h, tx)
      else if i.name == RELAYER_FIELD then VerifyRelayer(h, tx)
      else Verdict(MSG_OK, h, tx)
  {
    hide Named, VerifyValue, VerifyReceiver, VerifyGasPrice, VerifyGasLimit, VerifyData;
    hide VerifyChainId, VerifyVersion, VerifyOptions, VerifyGuardian, VerifyRelayer;
    Initials(h.field);
    assert forall k :: 0 <= k < 4 ==> h.field[k] == h.field[..|i.name|][k] == i.name[k];
    NamedItself(h.field, i.name);
  }

  lemma NamedItself(field: fieldBuffer, name: string)
    requires |name| <= |field| && field[..|name|] == name
    ensures Named(field, name)
  {
  }

  lemma FieldMeaning(cfg: Config, h: Hash, tx: Tx, i: Item)
    requires Printable(i) && Ready(h, i)
    ensures Matches(ProcessField(cfg, h, tx), Effect(cfg, i, tx))
  {
    hide CStr, ReadDecimal, DecodeText, Edited, ChargedFee, Numerals.Print, DataText, IsTransfer;
    hide EsdtValue, TransferValue, TickerOf, NetworkOf, AllDigits, Dispatch;
    DispatchKnown(cfg, Terminated(h), tx, i);
    if i.name == DATA_FIELD {
      DataMeaning(cfg, h, tx, i);
    } else {
      TerminatedText(h, i);
    }
  }

  lemma DataMeaning(cfg: Config, h: Hash, tx: Tx, i: Item)
    requires Printable(i) && Ready(h, i) && i.name == DATA_FIELD
    ensures Matches(VerifyData(cfg, Terminated(h), tx), StoreData(cfg, i.value.text, tx))
  {
    hide DecodeText, DataText, IsTransfer, EsdtValue, TransferValue, Terminated, DisplayedCode, ShownCode, DecodedLen;
    var t, h' := i.value.text, Terminated(h);
    DataBuffer(cfg, h, i);
    TransferMeaning(h', t, tx.esdtValue);
  }

  /** Its characters in the buffer. */
  lemma DataBuffer(cfg: Config, h: Hash, i: Item)
    requires Printable(i) && Ready(h, i) && i.name == DATA_FIELD
    ensures
      var t, h' := i.value.text, Terminated(h);
      && h'.valueLen / 4 * 4 == |t| && h'.dataFieldSize == DecodedLen(t)
      && DisplayedCode(cfg, h'.value, |t|) == ShownCode(cfg, t)
      && (|t| % 256 <= MAX_VALUE_LEN ==> h'.value[..|t| % 256] == t[..|t| % 256])
  {
    hide DecodedLen;
    var t, h' := i.value.text, Terminated(h);
    assert h'.valueLen / 4 * 4 == |t|;
    var n := if |t| < MAX_VALUE_LEN then |t| else MAX_VALUE_LEN;
    assert h'.value[..n] == t[..n];
    forall k | 0 <= k <= n ensures h'.value[..k] == t[..k] {
      assert h'.value[..k] == h'.value[..n][..k] && t[..k] == t[..n][..k];
    }
  }

  lemma TransferMeaning(h: Hash, t: string, was: string)
    requires |t| % 4 == 0
    requires |t| % 256 <= MAX_VALUE_LEN ==> h.value[..|t| % 256] == t[..|t| % 256]
    ensures EsdtValue(h.value, |t| % 256, was) == TransferValue(t, was)
  {
    hide DecodeText, ExtractFrom;
  }

  // ---- Runs over the parts of a field ---------------------------------------------------

  /** A run that continues is prolonged by what follows. */
  lemma StepsThen(cfg: Config, st: State, b: back, s: seq<char>, t: seq<char>)
    requires Steps(cfg, st, b, s).Continue?
    ensures Steps(cfg, st, b, s + t) == Steps(cfg, Steps(cfg, st, b, s).state, After(b, s), t)
  {
    hide Steps;
    StepsConcat(cfg, st, b, s, t);
  }

  /** Writing characters over part of a buffer. */
  function Overlay(a: seq<char>, at: nat, s: seq<char>): (r: seq<char>)
    requires at + |s| <= |a|
    ensures |r| == |a|
  {
    a[..at] + s + a[at + |s|..]
  }

  lemma OverlayMore(a: seq<char>, at: nat, s: seq<char>)
    requires 0 < |s| && at + |s| <= |a|
    ensures Overlay(a[at := s[0]], at + 1, s[1..]) == Overlay(a, at, s)
  {
  }

  lemma {:induction false} NameChars(cfg: Config, st: State, b: back, s: string)
    requires st.hash.status == ProcessingField && '"' !in s && st.hash.fieldLen + |s| <= MAX_FIELD_LEN
    ensures Steps(cfg, st, b, s) == Continue(State(
      st.hash.(field := Overlay(st.hash.field, st.hash.fieldLen, s), fieldLen := st.hash.fieldLen + |s|), st.tx))
    decreases |s|
  {
    hide Overlay;
    if s == [] {
      OverlayNothing(st.hash.field, st.hash.fieldLen, s);
    } else {
      var st' := Step(cfg, st, s[0], b[1], b[0]).state;
      assert s[0] in s && forall c <- s[1..] :: c in s;
      NameChars(cfg, st', Shift(b, s[0]), s[1..]);
      OverlayMore(st.hash.field, st.hash.fieldLen, s);
    }
  }

  lemma OverlayNothing(a: seq<char>, at: nat, s: seq<char>)
    requires s == [] && at <= |a|
    ensures Overlay(a, at, s) == a
  {
  }

  /** Whether a character is stored as part of the current value. */
  predicate Plain(status: Status, c: char) {
    if status == ProcessingString then c != '"' else status == ProcessingNumber && IsDigit(c)
  }

  lemma PlainStep(cfg: Config, st: State, b: back, c: char)
    requires Plain(st.hash.status, c) && st.hash.valueLen < MAX_VALUE_LEN
    ensures Step(cfg, st, c, b[1], b[0]) == Continue(State(Append(st.hash, c), st.tx))
  {
    hide CloseField, ProcessField;
  }

  lemma {:induction false} ValueChars(cfg: Config, st: State, b: back, s: string)
    requires (forall c <- s :: Plain(st.hash.status, c)) && st.hash.valueLen + |s| <= MAX_VALUE_LEN
    ensures Steps(cfg, st, b, s) == Continue(State(
      st.hash.(value := Overlay(st.hash.value, st.hash.valueLen, s), valueLen := st.hash.valueLen + |s|), st.tx))
    decreases |s|
  {
    hide Overlay, Step, Plain;
    if s == [] {
      OverlayNothing(st.hash.value, st.hash.valueLen, s);
    } else {
      PlainStep(cfg, st, b, s[0]);
      var st' := State(Append(st.hash, s[0]), st.tx);
      assert s[0] in s && forall c <- s[1..] :: c in s;
      ValueChars(cfg, st', Shift(b, s[0]), s[1..]);
      OverlayMore(st.hash.value, st.hash.valueLen, s);
    }
  }

  /** Data beyond the value buffer is only counted. */
  lemma {:induction false} LongData(cfg: Config, st: State, b: back, s: string)
    requires st.hash.status == ProcessingString && '"' !in s
    requires Named(st.hash.field, DATA_FIELD) && st.hash.fieldLen == |DATA_FIELD|
    requires MAX_VALUE_LEN <= st.hash.valueLen && st.hash.valueLen + |s| < TWO32
    ensures Steps(cfg, st, b, s) == Continue(State(st.hash.(valueLen := st.hash.valueLen + |s|), st.tx))
    decreases |s|
  {
    hide Step;
    if s != [] {
      var st' := State(st.hash.(valueLen := st.hash.valueLen + 1), st.tx);
      assert s[0] in s && forall c <- s[1..] :: c in s;
      CountStep(cfg, st, b, s[0]);
      LongData(cfg, st', Shift(b, s[0]), s[1..]);
    }
  }

  lemma CountStep(cfg: Config, st: State, b: back, c: char)
    requires st.hash.status == ProcessingString && c != '"'
    requires Named(st.hash.field, DATA_FIELD) && st.hash.fieldLen == |DATA_FIELD|
    requires MAX_VALUE_LEN <= st.hash.valueLen < TWO32 - 1
    ensures Step(cfg, st, c, b[1], b[0]) == Continue(State(st.hash.(valueLen := st.hash.valueLen + 1), st.tx))
  {
    hide CloseField, ProcessField;
  }

  // ---- Runs over whole fields -----------------------------------------------------------

  /** The contexts after a field's name and colon. */
  function NameRead(st: State, name: string): State
    requires |name| <= MAX_FIELD_LEN
  {
    State(st.hash.(
      status := ExpectingValue,
      field := Overlay(st.hash.field, 0, name),
      fieldLen := |name|,
      valueLen := 0), st.tx)
  }

  lemma NameOpen(cfg: Config, st: State, b: back, name: string)
    requires st.hash.status == ExpectingField && '"' !in name && |name| <= MAX_FIELD_LEN
    ensures Steps(cfg, st, b, "\"" + name) == Continue(State(NameRead(st, name).hash.(
      status := ProcessingField, valueLen := st.hash.valueLen), st.tx))
  {
    hide Steps, Overlay;
    OneStep(cfg, st, b, '"');
    StepsThen(cfg, st, b, "\"", name);
    NameChars(cfg, State(st.hash.(status := ProcessingField, fieldLen := 0), st.tx), After(b, "\""), name);
  }

  lemma NameRun(cfg: Config, st: State, b: back, name: string)
    requires st.hash.status == ExpectingField && '"' !in name && |name| <= MAX_FIELD_LEN
    ensures Steps(cfg, st, b, "\"" + name + "\":") == Continue(NameRead(st, name))
  {
    hide Steps, Overlay;
    NameOpen(cfg, st, b, name);
    var named := Steps(cfg, st, b, "\"" + name).state;
    StepsThen(cfg, st, b, "\"" + name, "\"");
    OneStep(cfg, named, After(b, "\"" + name), '"');
    StepsThen(cfg, st, b, "\"" + name + "\"", ":");
    OneStep(cfg, named.(hash := named.hash.(status := ExpectingColon)), After(b, "\"" + name + "\""), ':');
    assert "\"" + name + "\":" == "\"" + name + "\"" + ":";
  }

  /** The contexts when a value's text has been read. */
  function TextRead(st: State, t: string, status: Status): State
    requires |t| < TWO32
  {
    State(st.hash.(
      status := status,
      value := Overlay(st.hash.value, 0, if |t| < MAX_VALUE_LEN then t else t[..MAX_VALUE_LEN]),
      valueLen := |t|), st.tx)
  }

  lemma QuotedRun(cfg: Config, st: State, b: back, i: Item)
    requires Printable(i) && i.value.Quoted?
    ensures Steps(cfg, NameRead(st, i.name), b, "\"" + i.value.text) ==
      Continue(TextRead(NameRead(st, i.name), i.value.text, ProcessingString))
  {
    hide Steps, Overlay, Plain;
    var t, s := i.value.text, NameRead(st, i.name);
    var n := if |t| < MAX_VALUE_LEN then |t| else MAX_VALUE_LEN;
    var begun := State(s.hash.(status := ProcessingString), s.tx);
    OneStep(cfg, s, b, '"');
    forall c | c in t ensures Plain(ProcessingString, c) { PlainString(c); }
    assert forall c <- t[..n] :: c in t;
    StepsThen(cfg, s, b, "\"", t[..n]);
    ValueChars(cfg, begun, After(b, "\""), t[..n]);
    if n < |t| {
      var full := Steps(cfg, begun, After(b, "\""), t[..n]).state;
      assert forall c <- t[n..] :: c in t;
      FieldStored(st.hash.field, i.name);
      StepsThen(cfg, s, b, "\"" + t[..n], t[n..]);
      LongData(cfg, full, After(b, "\"" + t[..n]), t[n..]);
      assert "\"" + t[..n] + t[n..] == "\"" + t;
    } else {
      assert t[..n] == t;
    }
  }

  lemma PlainString(c: char)
    requires c != '"'
    ensures Plain(ProcessingString, c)
  {
  }

  lemma FieldStored(field: fieldBuffer, name: string)
    requires |name| <= MAX_FIELD_LEN
    ensures Overlay(field, 0, name)[..|name|] == name && Named(Overlay(field, 0, name), name)
  {
  }

  lemma NumberRun(cfg: Config, st: State, b: back, i: Item)
    requires Printable(i) && i.value.Number?
    ensures Steps(cfg, NameRead(st, i.name), b, i.value.text) ==
      Continue(TextRead(NameRead(st, i.name), i.value.text, ProcessingNumber))
  {
    hide Steps, Overlay, Plain;
    var t, s := i.value.text, NameRead(st, i.name);
    var first := State(Append(s.hash, t[0]).(status := ProcessingNumber), s.tx);
    OneStep(cfg, s, b, t[0]);
    forall c | c in t ensures Plain(ProcessingNumber, c) { PlainNumber(t, c); }
    assert forall c <- t[1..] :: c in t;
    StepsThen(cfg, s, b, [t[0]], t[1..]);
    ValueChars(cfg, first, After(b, [t[0]]), t[1..]);
    OverlayMore(s.hash.value, 0, t);
    assert [t[0]] + t[1..] == t && t[..|t|] == t;
  }

  lemma PlainNumber(t: string, c: char)
    requires AllDigits(t) && c in t
    ensures Plain(ProcessingNumber, c)
  {
  }

  /** A value's text read into the buffers makes the field ready. */
  lemma TextReady(st: State, i: Item, status: Status, size: uint32)
    requires Printable(i) && (i.name == DATA_FIELD ==> size == DecodedLen(i.value.text))
    ensures Ready(TextRead(NameRead(st, i.name), i.value.text, status).hash.(dataFieldSize := size), i)
  {
    FieldStored(st.hash.field, i.name);
  }

  // ---- A field and the separator after it -------------------------------------------------

  /** The end of a field, given what the field means. */
  ghost predicate Closes(o: Outcome, e: Stored, next: Status) {
    match e
    case Rejected(code) => o.Return? && o.code == code
    case Accepted(tx) =>
      && o.state.tx == tx && o.state.hash.status == next
      && if next == Idle then o.Return? && o.code == MSG_OK else o.Continue?
  }

  lemma CloseQuoted(cfg: Config, st: State, b: back, i: Item)
    requires Printable(i) && i.value.Quoted?
    requires i.name == DATA_FIELD ==> b == i.value.text[|i.value.text| - 2..]
    ensures Closes(
      Step(cfg, TextRead(NameRead(st, i.name), i.value.text, ProcessingString), '"', b[1], b[0]),
      Effect(cfg, i, st.tx), ExpectingComma)
  {
    hide ProcessField, Effect, Overlay;
    var s := TextRead(NameRead(st, i.name), i.value.text, ProcessingString);
    var size := FieldSize(s.hash, b[1], b[0]);
    FieldStored(st.hash.field, i.name);
    TextReady(st, i, ProcessingString, size);
    FieldMeaning(cfg, s.hash.(dataFieldSize := size), st.tx, i);
  }

  lemma CloseNumber(cfg: Config, st: State, b: back, i: Item, c: char)
    requires Printable(i) && i.value.Number? && (c == ',' || c == '}')
    ensures Closes(
      Step(cfg, TextRead(NameRead(st, i.name), i.value.text, ProcessingNumber), c, b[1], b[0]),
      Effect(cfg, i, st.tx), if c == ',' then ExpectingField else Idle)
  {
    hide ProcessField, Effect, Overlay;
    var s := TextRead(NameRead(st, i.name), i.value.text, if c == ',' then ProcessingNumber else Idle);
    TextReady(st, i, s.hash.status, s.hash.dataFieldSize);
    assert s.hash.(dataFieldSize := s.hash.dataFieldSize) == s.hash;
    FieldMeaning(cfg, s.hash, st.tx, i);
    CloseKeepsStatus(cfg, s.hash, st.tx);
  }

  /** One printed field with its separator does what the field means. */
  lemma ItemRun(cfg: Config, st: State, b: back, i: Item, c: char)
    requires Printable(i) && st.hash.status == ExpectingField && (c == ',' || c == '}')
    ensures Closes(Steps(cfg, st, b, i.Print() + [c]), Effect(cfg, i, st.tx), if c == ',' then ExpectingField else Idle)
  {
    hide Steps, Effect, NameRead, TextRead;
    var name, t := "\"" + i.name + "\":", i.value.text;
    var named := NameRead(st, i.name);
    NoQuoteInNames(i.name);
    NameRun(cfg, st, b, i.name);
    if i.value.Number? {
      var read := TextRead(named, t, ProcessingNumber);
      NumberRun(cfg, st, After(b, name), i);
      StepsThen(cfg, st, b, name, t);
      StepsThen(cfg, st, b, name + t, [c]);
      OneStep(cfg, read, After(b, name + t), c);
      CloseNumber(cfg, st, After(b, name + t), i, c);
      assert i.Print() + [c] == name + t + [c];
    } else {
      QuotedRun(cfg, st, After(b, name), i);
      StepsThen(cfg, st, b, name, "\"" + t);
      QuotedEnd(cfg, st, b, i, c);
      assert i.Print() + [c] == name + ("\"" + t) + ['"', c];
    }
  }

  lemma NoQuoteInNames(name: string)
    requires KnownName(name)
    ensures '"' !in name
  {
  }

  lemma QuotedEnd(cfg: Config, st: State, b: back, i: Item, c: char)
    requires Printable(i) && i.value.Quoted? && (c == ',' || c == '}')
    requires
      Steps(cfg, st, b, "\"" + i.name + "\":" + ("\"" + i.value.text))
      == Continue(TextRead(NameRead(st, i.name), i.value.text, ProcessingString))
    ensures Closes(Steps(cfg, st, b, "\"" + i.name + "\":" + ("\"" + i.value.text) + ['"', c]),
      Effect(cfg, i, st.tx), if c == ',' then ExpectingField else Idle)
  {
    hide Steps, Effect, NameRead, TextRead;
    var s := "\"" + i.name + "\":" + ("\"" + i.value.text);
    var read := TextRead(NameRead(st, i.name), i.value.text, ProcessingString);
    var b' := After(b, s);
    if i.name == DATA_FIELD {
      assert b' == i.value.text[|i.value.text| - 2..];
    }
    CloseQuoted(cfg, st, b', i);
    StepsThen(cfg, st, b, s, ['"', c]);
    StepsConcat(cfg, read, b', ['"'], [c]);
    assert ['"'] + [c] == ['"', c];
    OneStep(cfg, read, b', '"');
    var o := Step(cfg, read, '"', b'[1], b'[0]);
    OneStep(cfg, o.state, After(b', ['"']), c);
    if o.Continue? {
      SeparatorStep(cfg, o.state, After(b', ['"']), c);
    }
  }

  lemma SeparatorStep(cfg: Config, st: State, b: back, c: char)
    requires st.hash.status == ExpectingComma && (c == ',' || c == '}')
    ensures Step(cfg, st, c, b[1], b[0]) ==
      if c == ',' then Continue(State(st.hash.(status := ExpectingField), st.tx))
      else Return(MSG_OK, State(st.hash.(status := Idle), st.tx))
  {
  }

  // ---- Whole transactions ----------------------------------------------------------------

  /** A field that is accepted leaves the parser waiting for the separator. */
  lemma ItemContinues(cfg: Config, st: State, b: back, i: Item)
    requires Printable(i) && st.hash.status == ExpectingField && Effect(cfg, i, st.tx).Accepted?
    ensures Steps(cfg, st, b, i.Print()).Continue?
  {
    hide Steps, Step, Effect, Printable;
    ItemRun(cfg, st, b, i, ',');
    StepsConcat(cfg, st, b, i.Print(), [',']);
  }

  /** The fields of a transaction do what they mean, one after the other. */
  lemma {:induction false} FieldsRun(cfg: Config, st: State, b: back, items: seq<Item>)
    requires items != [] && (forall i <- items :: Printable(i)) && st.hash.status == ExpectingField
    ensures Closes(Steps(cfg, st, b, Fields(items) + "}"), Effects(cfg, items, st.tx), Idle)
    ensures Effects(cfg, items, st.tx).Accepted? ==> Steps(cfg, st, b, Fields(items)).Continue?
    decreases |items|
  {
    hide Steps, Effect, Printable, Item.Print;
    if |items| == 1 {
      ItemRun(cfg, st, b, items[0], '}');
      if Effect(cfg, items[0], st.tx).Accepted? {
        ItemContinues(cfg, st, b, items[0]);
      }
    } else {
      var first, rest := items[0].Print() + [','], Fields(items[1..]);
      ItemRun(cfg, st, b, items[0], ',');
      StepsConcat(cfg, st, b, first, rest + "}");
      StepsConcat(cfg, st, b, first, rest);
      assert Fields(items) + "}" == first + (rest + "}");
      if Effect(cfg, items[0], st.tx).Accepted? {
        FieldsRun(cfg, Steps(cfg, st, b, first).state, After(b, first), items[1..]);
      }
    }
  }

  /** The fields before another one. */
  lemma {:induction false} FieldsThen(cfg: Config, st: State, b: back, items: seq<Item>)
    requires items != [] && (forall i <- items :: Printable(i)) && st.hash.status == ExpectingField
    ensures Closes(Steps(cfg, st, b, Fields(items) + ","), Effects(cfg, items, st.tx), ExpectingField)
    decreases |items|
  {
    hide Steps, Effect, Printable, Item.Print;
    if |items| == 1 {
      ItemRun(cfg, st, b, items[0], ',');
    } else {
      var first, rest := items[0].Print() + [','], Fields(items[1..]);
      ItemRun(cfg, st, b, items[0], ',');
      StepsConcat(cfg, st, b, first, rest + ",");
      assert Fields(items) + "," == first + (rest + ",");
      if Effect(cfg, items[0], st.tx).Accepted? {
        FieldsThen(cfg, Steps(cfg, st, b, first).state, After(b, first), items[1..]);
      }
    }
  }

  /** Parsing a printed transaction in one chunk: it is accepted exactly when
      every field is, and then holds what the fields mean; otherwise the code is
      that of the first field rejected. */
  lemma JsonParsed(cfg: Config, st: State, b: back, items: seq<Item>)
    requires items != [] && (forall i <- items :: Printable(i)) && st.hash.status == Idle
    ensures Closes(ParseData(cfg, st, b, Json(items)), Effects(cfg, items, st.tx), Idle)
    ensures Effects(cfg, items, st.tx).Accepted? ==> Steps(cfg, st, b, "{" + Fields(items)).Continue?
  {
    hide Steps, Effects, Printable, Fields;
    var begun := State(st.hash.(status := ExpectingField), st.tx);
    OneStep(cfg, st, b, '{');
    StepsThen(cfg, st, b, "{", Fields(items) + "}");
    StepsThen(cfg, st, b, "{", Fields(items));
    FieldsRun(cfg, begun, After(b, "{"), items);
    assert Json(items) == "{" + (Fields(items) + "}");
    RejectedIsError(cfg, items, st.tx);
  }

  lemma {:induction false} RejectedIsError(cfg: Config, items: seq<Item>, tx: Tx)
    requires forall i <- items :: Printable(i)
    ensures Effects(cfg, items, tx).Rejected? ==> Effects(cfg, items, tx).code != MSG_OK
    decreases |items|
  {
    if items != [] && Effect(cfg, items[0], tx).Accepted? {
      RejectedIsError(cfg, items[1..], Effect(cfg, items[0], tx).tx);
    }
  }
}
