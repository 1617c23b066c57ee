/** Fields of a transaction by their names, as texts: which are stored, which are
    accepted, and which are refused. */
module TxNames {
  import opened Words
  import opened Numerals
  import opened TxState
  import opened TxFields
  import opened TxMachine
  import opened TxJson

  // ---- Fields of any name --------------------------------------------------------------------------

  /** A value that fits its buffer. */
  ghost predicate ShortValue(v: Value) {
    && 0 < |v.text| <= MAX_VALUE_LEN && '"' !in v.text
    && (v.Number? ==> AllDigits(v.text))
  }

  /** A name that fits its buffer. */
  predicate ShortName(name: string) {
    0 < |name| <= MAX_FIELD_LEN && '"' !in name
  }

  /** The status while a value is read. */
  function Reading(v: Value): Status {
    if v.Quoted? then ProcessingString else ProcessingNumber
  }

  lemma QuotedText(cfg: Config, s: State, b: back, t: string)
    requires s.hash.status == ExpectingValue && s.hash.valueLen == 0 && |t| <= MAX_VALUE_LEN && '"' !in t
    ensures Steps(cfg, s, b, "\"" + t) == Continue(TextRead(s, t, ProcessingString))
  {
    hide Steps, Overlay, Plain;
    var begun := State(s.hash.(status := ProcessingString), s.tx);
    OneStep(cfg, s, b, '"');
    forall c | c in t ensures Plain(ProcessingString, c) { PlainString(c); }
    StepsThen(cfg, s, b, "\"", t);
    ValueChars(cfg, begun, After(b, "\""), t);
    assert t[..|t|] == t;
  }

  lemma NumberText(cfg: Config, s: State, b: back, t: string)
    requires s.hash.status == ExpectingValue && s.hash.valueLen == 0 && 0 < |t| <= MAX_VALUE_LEN && AllDigits(t)
    ensures Steps(cfg, s, b, t) == Continue(TextRead(s, t, ProcessingNumber))
  {
    hide Steps, Overlay, Plain;
    var first := State(Append(s.hash, t[0]).(status := ProcessingNumber), s.tx);
    OneStep(cfg, s, b, t[0]);
    forall c | c in t ensures Plain(ProcessingNumber, c) { PlainNumber(t, c); }
    assert forall c <- t[1..] :: c in t;
    StepsThen(cfg, s, b, [t[0]], t[1..]);
    ValueChars(cfg, first, After(b, [t[0]]), t[1..]);
    OverlayMore(s.hash.value, 0, t);
    assert [t[0]] + t[1..] == t && t[..|t|] == t;
  }

  /** A printed field up to the end of its value's text. */
  function Started(i: Item): string {
    "\"" + i.name + "\":" + (if i.value.Quoted? then "\"" + i.value.text else i.value.text)
  }

  /** The contexts there. */
  function Read(st: State, i: Item): State
    requires |i.name| <= MAX_FIELD_LEN && |i.value.text| <= MAX_VALUE_LEN
  {
    TextRead(NameRead(st, i.name), i.value.text, Reading(i.value))
  }

  lemma StartedRead(cfg: Config, st: State, b: back, i: Item)
    requires st.hash.status == ExpectingField && ShortName(i.name) && ShortValue(i.value)
    ensures Steps(cfg, st, b, Started(i)) == Continue(Read(st, i))
  {
    hide Steps, TextRead, Overlay;
    var name, t := "\"" + i.name + "\":", i.value.text;
    NameRun(cfg, st, b, i.name);
    if i.value.Quoted? {
      StepsThen(cfg, st, b, name, "\"" + t);
      QuotedText(cfg, NameRead(st, i.name), After(b, name), t);
    } else {
      StepsThen(cfg, st, b, name, t);
      NumberText(cfg, NameRead(st, i.name), After(b, name), t);
    }
  }

  /** The buffer after a name: what an earlier, longer name left stays behind it. */
  function NameBuffer(st: State, name: string): fieldBuffer
    requires |name| <= MAX_FIELD_LEN
  {
    name + st.hash.field[|name|..]
  }

  lemma BufferRead(st: State, i: Item)
    requires ShortName(i.name) && ShortValue(i.value)
    ensures
      var h := Read(st, i).hash;
      h.field == NameBuffer(st, i.name) && h.fieldLen == |i.name| && h.valueLen == |i.value.text|
  {
  }

  /** The outcome of a byte that ends a value, when nothing is stored. */
  ghost predicate Unstored(o: Outcome, tx: Tx, ignored: bool, next: Status) {
    && o.state.tx == tx
    && if !ignored then o.Return? && o.code == 0x6E02
       else if next == Idle then o.Return? && o.code == 0x9000 && o.state.hash.status == Idle
       else o.Continue? && o.state.hash.status == next
  }

  lemma ValueEnd(cfg: Config, st: State, i: Item, c: char, p1: char, p2: char)
    requires ShortName(i.name) && ShortValue(i.value) && !StoredName(Read(st, i).hash)
    requires if i.value.Quoted? then c == '"' else c == ',' || c == '}'
    ensures Unstored(Step(cfg, Read(st, i), c, p1, p2), st.tx, IgnoredName(Read(st, i).hash),
      if c == '"' then ExpectingComma else if c == ',' then ExpectingField else Idle)
  {
    hide ProcessField, StoredName, IgnoredName, Overlay;
    var h := Read(st, i).hash;
    BufferRead(st, i);
    EndsSame(h, h.(dataFieldSize := FieldSize(h, p1, p2)));
    EndsSame(h, h.(status := Idle));
    if c == '"' {
      OtherNames(cfg, h.(dataFieldSize := FieldSize(h, p1, p2)), st.tx);
    } else if c == ',' {
      OtherNames(cfg, h, st.tx);
    } else {
      OtherNames(cfg, h.(status := Idle), st.tx);
    }
  }

  lemma EndsSame(h: Hash, h': Hash)
    requires h'.field == h.field && h'.fieldLen == h.fieldLen
    ensures StoredName(h') == StoredName(h) && IgnoredName(h') == IgnoredName(h)
  {
  }

  /** A printed field whose buffer starts with no stored name is accepted exactly
      when it starts with one of four others, and is refused otherwise, whatever
      its value and the fields before it were; nothing that is shown changes. */
  lemma OtherField(cfg: Config, st: State, b: back, i: Item, c: char)
    requires st.hash.status == ExpectingField && ShortName(i.name) && ShortValue(i.value) && (c == ',' || c == '}')
    requires !StoredName(Read(st, i).hash)
    ensures Unstored(Steps(cfg, st, b, i.Print() + [c]), st.tx, IgnoredName(Read(st, i).hash),
      if c == ',' then ExpectingField else Idle)
  {
    hide Steps, Step, Read, StoredName, IgnoredName;
    var s, read := Started(i), Read(st, i);
    StartedRead(cfg, st, b, i);
    if i.value.Quoted? {
      assert i.Print() + [c] == s + ("\"" + [c]);
      StepsThen(cfg, st, b, s, "\"" + [c]);
      StepsConcat(cfg, read, After(b, s), "\"", [c]);
      OneStep(cfg, read, After(b, s), '"');
      ValueEnd(cfg, st, i, '"', After(b, s)[1], After(b, s)[0]);
      var o := Step(cfg, read, '"', After(b, s)[1], After(b, s)[0]);
      if o.Continue? {
        OneStep(cfg, o.state, After(After(b, s), "\""), c);
        SeparatorStep(cfg, o.state, After(After(b, s), "\""), c);
      }
    } else {
      assert i.Print() + [c] == s + [c];
      StepsThen(cfg, st, b, s, [c]);
      OneStep(cfg, read, After(b, s), c);
      ValueEnd(cfg, st, i, c, After(b, s)[1], After(b, s)[0]);
    }
  }

  // ---- Names the device does not know --------------------------------------------------------------

  /** Neither a text starts with the other. */
  predicate Apart(a: string, b: string) {
    !(a <= b) && !(b <= a)
  }

  /** A name that no known name starts with, and that starts with none. */
  predicate Unknown(name: string) {
    && Apart(name, "value") && Apart(name, "receiver") && Apart(name, "gasPrice") && Apart(name, "gasLimit")
    && Apart(name, "data") && Apart(name, "chainID") && Apart(name, "version") && Apart(name, "options")
    && Apart(name, "guardian") && Apart(name, "relayer") && Apart(name, "nonce") && Apart(name, "sender")
    && Apart(name, "senderUsername") && Apart(name, "receiverUsername")
  }

  lemma OneOfTwo(a: string, b: string, c: string)
    requires a <= c && b <= c
    ensures a <= b || b <= a
  {
    if |a| <= |b| {
      assert a == c[..|a|] == b[..|a|];
    } else {
      assert b == c[..|b|] == a[..|b|];
    }
  }

  lemma ApartStays(name: string, known: string, rest: string)
    requires Apart(name, known)
    ensures !(known <= name + rest)
  {
    if known <= name + rest {
      OneOfTwo(known, name, name + rest);
    }
  }

  lemma UnknownStays(st: State, i: Item)
    requires ShortName(i.name) && ShortValue(i.value) && Unknown(i.name)
    ensures !StoredName(Read(st, i).hash) && !IgnoredName(Read(st, i).hash)
  {
    hide Read, Apart;
    BufferRead(st, i);
    var rest := st.hash.field[|i.name|..];
    ApartStays(i.name, "value", rest);
    ApartStays(i.name, "receiver", rest);
    ApartStays(i.name, "gasPrice", rest);
    ApartStays(i.name, "gasLimit", rest);
    ApartStays(i.name, "data", rest);
    ApartStays(i.name, "chainID", rest);
    ApartStays(i.name, "version", rest);
    ApartStays(i.name, "options", rest);
    ApartStays(i.name, "guardian", rest);
    ApartStays(i.name, "relayer", rest);
    ApartStays(i.name, "nonce", rest);
    ApartStays(i.name, "sender", rest);
    ApartStays(i.name, "senderUsername", rest);
    ApartStays(i.name, "receiverUsername", rest);
  }

  /** The text before a field: nothing but the brace, or accepted fields. */
  function Opening(items: seq<Item>): string {
    if items == [] then "{" else "{" + (Fields(items) + ",")
  }

  lemma OpeningRead(cfg: Config, st: State, b: back, items: seq<Item>)
    requires (forall i <- items :: Printable(i)) && st.hash.status == Idle && Effects(cfg, items, st.tx).Accepted?
    ensures
      var o := Steps(cfg, st, b, Opening(items));
      o.Continue? && o.state.hash.status == ExpectingField && o.state.tx == Effects(cfg, items, st.tx).tx
  {
    hide Steps, Effects, Printable, Fields;
    var begun := State(st.hash.(status := ExpectingField), st.tx);
    OneStep(cfg, st, b, '{');
    if items == [] {
      NoneStored(cfg, items, st.tx);
    } else {
      StepsThen(cfg, st, b, "{", Fields(items) + ",");
      FieldsThen(cfg, begun, After(b, "{"), items);
    }
  }

  lemma NoneStored(cfg: Config, items: seq<Item>, tx: Tx)
    requires items == []
    ensures Effects(cfg, items, tx) == Accepted(tx)
  {
  }

  /** A field of an unknown name after accepted ones is refused: the text is an
      invalid message whatever follows, and shows nothing of that field. */
  lemma UnknownRefused(cfg: Config, st: State, b: back, items: seq<Item>, i: Item, c: char, rest: string)
    requires (forall i <- items :: Printable(i)) && st.hash.status == Idle && Effects(cfg, items, st.tx).Accepted?
    requires ShortName(i.name) && ShortValue(i.value) && Unknown(i.name) && (c == ',' || c == '}')
    ensures
      var o := ParseData(cfg, st, b, Opening(items) + (i.Print() + [c] + rest));
      o.code == 0x6E02 && o.state.tx == Effects(cfg, items, st.tx).tx
  {
    hide Steps, Effects, Printable, Unknown, StoredName, IgnoredName, Read, Item.Print, Opening;
    var open, field := Opening(items), i.Print() + [c];
    OpeningRead(cfg, st, b, items);
    var s := Steps(cfg, st, b, open).state;
    StepsThen(cfg, st, b, open, field + rest);
    StepsConcat(cfg, s, After(b, open), field, rest);
    UnknownStays(s, i);
    OtherField(cfg, s, After(b, open), i, c);
  }

  lemma FirstDiffers(a: string, b: string)
    requires a != "" && b != "" && a[0] != b[0]
    ensures Apart(a, b)
  {
  }

  /** A field named foo, as an example. */
  lemma FooUnknown()
    ensures Unknown("foo") && ShortName("foo") && Item("foo", Number("1")).Print() == "\"foo\":1"
  {
    hide Apart;
    FirstDiffers("foo", "value");
    FirstDiffers("foo", "receiver");
    FirstDiffers("foo", "gasPrice");
    FirstDiffers("foo", "gasLimit");
    FirstDiffers("foo", "data");
    FirstDiffers("foo", "chainID");
    FirstDiffers("foo", "version");
    FirstDiffers("foo", "options");
    FirstDiffers("foo", "guardian");
    FirstDiffers("foo", "relayer");
    FirstDiffers("foo", "nonce");
    FirstDiffers("foo", "sender");
    FirstDiffers("foo", "senderUsername");
    FirstDiffers("foo", "receiverUsername");
  }

  /** Names of more than 16 characters are refused, whatever they start with. */
  lemma LongNameRefused(cfg: Config, st: State, b: back, name: string, rest: string)
    requires st.hash.status == ExpectingField && |name| > 16 && '"' !in name
    ensures
      var o := Steps(cfg, st, b, "\"" + name + rest);
      o.Return? && o.code == 0x6E02 && o.state.tx == st.tx
  {
    hide Steps, Overlay;
    var head, more := name[..16], name[17..] + rest;
    assert forall c <- head :: c in name;
    NameOpen(cfg, st, b, head);
    assert "\"" + name + rest == "\"" + head + ([name[16]] + more);
    assert name[16] in name;
    StepsThen(cfg, st, b, "\"" + head, [name[16]] + more);
    var s := Steps(cfg, st, b, "\"" + head).state;
    OneStep(cfg, s, After(b, "\"" + head), name[16]);
    StepsConcat(cfg, s, After(b, "\"" + head), [name[16]], more);
  }

  /** A quoted value of more than 128 characters is refused under every name but
      data. */
  lemma LongValueRefused(cfg: Config, st: State, b: back, name: string, t: string, rest: string)
    requires st.hash.status == ExpectingField && ShortName(name) && name != "data" && |t| > 128 && '"' !in t
    ensures
      var o := Steps(cfg, st, b, "\"" + name + "\":\"" + t + rest);
      o.Return? && o.code == 0x6E02 && o.state.tx == st.tx
  {
    hide Steps, TextRead, Overlay;
    var open, head, more := "\"" + name + "\":", t[..128], t[129..] + rest;
    assert forall c <- head :: c in t;
    assert "\"" + name + "\":\"" + t + rest == open + ("\"" + head + ([t[128]] + more));
    NameRun(cfg, st, b, name);
    StepsThen(cfg, st, b, open, "\"" + head + ([t[128]] + more));
    var named, b' := NameRead(st, name), After(b, open);
    QuotedText(cfg, named, b', head);
    StepsThen(cfg, named, b', "\"" + head, [t[128]] + more);
    var s := TextRead(named, head, ProcessingString);
    assert t[128] in t;
    FullValue(cfg, st, name, head, t[128], After(b', "\"" + head));
    OneStep(cfg, s, After(b', "\"" + head), t[128]);
    StepsConcat(cfg, s, After(b', "\"" + head), [t[128]], more);
  }

  lemma FullValue(cfg: Config, st: State, name: string, head: string, c: char, b: back)
    requires ShortName(name) && name != "data" && |head| == 128 && c != '"'
    ensures
      var s := TextRead(NameRead(st, name), head, ProcessingString);
      Step(cfg, s, c, b[1], b[0]) == Return(0x6E02, s) && s.tx == st.tx
  {
    var h := TextRead(NameRead(st, name), head, ProcessingString).hash;
    if |name| == 4 {
      assert h.field[..4] == name;
    }
  }

  // ---- What the known names mean -------------------------------------------------------------------

  /** Texts: where they are stored and from which length they are refused. */
  lemma TextFields(cfg: Config, t: string, tx: Tx)
    requires 0 < |t| <= 128 && '"' !in t && '\0' !in t
    ensures Printable(Item("value", Quoted(t))) && Effect(cfg, Item("value", Quoted(t)), tx) ==
      if |t| >= 43 then Rejected(0x6E06)
      else if !AllDigits(t) then Rejected(0x6E0B)
      else Accepted(tx.(amount := t))
    ensures Printable(Item("receiver", Quoted(t))) && Effect(cfg, Item("receiver", Quoted(t)), tx) ==
      if |t| >= 64 then Rejected(0x6E05) else Accepted(tx.(receiver := t))
    ensures Printable(Item("guardian", Quoted(t))) && Effect(cfg, Item("guardian", Quoted(t)), tx) ==
      if |t| >= 64 then Rejected(0x6E02) else Accepted(tx.(guardian := t))
    ensures Printable(Item("relayer", Quoted(t))) && Effect(cfg, Item("relayer", Quoted(t)), tx) ==
      if |t| >= 64 then Rejected(0x6E02) else Accepted(tx.(relayer := t))
  {
    hide AllDigits;
  }

  /** The branch a number takes, by its name. */
  lemma NumberEffect(cfg: Config, i: Item, tx: Tx)
    requires Printable(i) && i.value.Number?
    requires i.name == "gasPrice" || i.name == "gasLimit" || i.name == "version" || i.name == "options"
    ensures
      match Fee.ReadDecimal(i.value.text)
      case Some(n) =>
        && (i.name == "gasPrice" ==> Effect(cfg, i, tx) == Accepted(tx.(gasPrice := n)))
        && (i.name == "gasLimit" ==> Effect(cfg, i, tx) == Accepted(tx.(gasLimit := n)))
        && (i.name == "version" ==> Effect(cfg, i, tx) == if n >= 2 then Accepted(tx) else Rejected(0x6E09))
        && (i.name == "options" ==> Effect(cfg, i, tx) == if n >= 1 then Accepted(tx) else Rejected(0x6E0F))
      case None =>
        && (i.name == "gasPrice" || i.name == "gasLimit" ==> Effect(cfg, i, tx) == Rejected(0x6E0C))
        && (i.name == "version" || i.name == "options" ==> Effect(cfg, i, tx) == Rejected(0x6E02))
  {
    hide Fee.ReadDecimal, Printable;
  }

  lemma NumberPrintable(name: string, t: string)
    requires name == "gasPrice" || name == "gasLimit" || name == "version" || name == "options"
    requires 0 < |t| <= 128 && AllDigits(t)
    ensures Printable(Item(name, Number(t)))
  {
    NoQuoteInDigits(t);
  }

  /** Gas: the number that is read, and the code when none is. */
  lemma GasFields(cfg: Config, t: string, tx: Tx)
    requires 0 < |t| <= 128 && AllDigits(t)
    ensures Printable(Item("gasPrice", Number(t))) && Effect(cfg, Item("gasPrice", Number(t)), tx) ==
      match Fee.ReadDecimal(t)
      case Some(n) => Accepted(tx.(gasPrice := n))
      case None => Rejected(0x6E0C)
    ensures Printable(Item("gasLimit", Number(t))) && Effect(cfg, Item("gasLimit", Number(t)), tx) ==
      match Fee.ReadDecimal(t)
      case Some(n) => Accepted(tx.(gasLimit := n))
      case None => Rejected(0x6E0C)
  {
    hide *;
    NumberPrintable("gasPrice", t);
    NumberPrintable("gasLimit", t);
    NumberEffect(cfg, Item("gasPrice", Number(t)), tx);
    NumberEffect(cfg, Item("gasLimit", Number(t)), tx);
  }

  /** From which version and which options on a transaction is accepted. */
  lemma VersionFields(cfg: Config, t: string, tx: Tx)
    requires 0 < |t| <= 128 && AllDigits(t)
    ensures Printable(Item("version", Number(t))) && Effect(cfg, Item("version", Number(t)), tx) ==
      match Fee.ReadDecimal(t)
      case Some(n) => if n >= 2 then Accepted(tx) else Rejected(0x6E09)
      case None => Rejected(0x6E02)
    ensures Printable(Item("options", Number(t))) && Effect(cfg, Item("options", Number(t)), tx) ==
      match Fee.ReadDecimal(t)
      case Some(n) => if n >= 1 then Accepted(tx) else Rejected(0x6E0F)
      case None => Rejected(0x6E02)
  {
    hide *;
    NumberPrintable("version", t);
    NumberPrintable("options", t);
    NumberEffect(cfg, Item("version", Number(t)), tx);
    NumberEffect(cfg, Item("options", Number(t)), tx);
  }

  /** The chain identifier decides the coin and the network that are shown; it is
      refused when the fee or the amount has more than 31 digits, and written past
      its buffer from four characters on. */
  lemma ChainField(cfg: Config, t: string, tx: Tx)
    requires 0 < |t| <= 128 && '"' !in t && '\0' !in t
    ensures Printable(Item("chainID", Quoted(t)))
    ensures
      var fee := Numerals.Print(Fee.ChargedFee(tx.gasLimit, tx.gasPrice, tx.dataSize), 10);
      var coin := if t[0] == '1' then "EGLD" else "xEGLD";
      Effect(cfg, Item("chainID", Quoted(t)), tx) ==
        if |t| >= 4 then Rejected(OVERRUN)
        else if |fee| > 31 then Rejected(0x6E0C)
        else if |tx.amount| > 31 then Rejected(0x6E0D)
        else Accepted(tx.(
          chainId := t,
          network := if t[0] == '1' then "Mainnet" else if t[0] == 'T' then "Testnet"
            else if t[0] == 'D' then "Devnet" else "Unknown",
          amount := AmountFormat.Edited(tx.amount, 18, coin),
          fee := AmountFormat.Edited(fee, 18, coin)))
  {
    hide AmountFormat.Edited, Fee.ChargedFee, Numerals.Print, TickerOf, NetworkOf;
    TickerAndNetwork(t);
  }

  /** Data: refused when the settings disable it or nothing is decoded. */
  lemma DataField(cfg: Config, t: string, tx: Tx)
    requires 0 < |t| < TWO32 && |t| % 4 == 0 && '"' !in t && '\0' !in t
    ensures Printable(Item("data", Quoted(t)))
    ensures !cfg.contractData ==> Effect(cfg, Item("data", Quoted(t)), tx) == Rejected(0x6E07)
    ensures cfg.contractData && Base64.DecodeText(ShownCode(cfg, t)).None? ==>
      Effect(cfg, Item("data", Quoted(t)), tx) == Rejected(0x6E02)
  {
    hide Base64.DecodeText, ShownCode, DataText;
  }

  // ---- What longer names leave behind --------------------------------------------------------------

  lemma KeepsName(cfg: Config, h: Hash, tx: Tx)
    ensures ProcessField(cfg, h, tx).hash.field == h.field
  {
    hide AmountFormat.Edited, Fee.ReadDecimal, Base64.DecodeText, Esdt.EsdtValue, Named, CStrings.CStr, DataText;
  }

  /** A buffer that starts with "value" holds an amount, however long the name is. */
  lemma AmountField(cfg: Config, h: Hash, tx: Tx, t: string)
    requires "value" <= h.field && h.fieldLen > 0 && 0 < |t| <= 42 && AllDigits(t)
    requires h.valueLen == |t| && h.value[..|t|] == t
    ensures
      var v := ProcessField(cfg, h, tx);
      v.code == 0x9000 && v.tx == tx.(amount := t)
  {
    hide Named, CStrings.CStr;
    NamedPrefix(h.field, "value");
    CStrings.CStrOf(Terminated(h).value, t);
  }

  /** A quoted amount under any name that is completed to "value" by what the
      buffer holds behind it. */
  lemma AmountStored(cfg: Config, st: State, b: back, name: string, t: string)
    requires st.hash.status == ExpectingField && ShortName(name) && "value" <= NameBuffer(st, name)
    requires 0 < |t| <= 42 && AllDigits(t)
    ensures
      var o := Steps(cfg, st, b, Item(name, Quoted(t)).Print());
      && o.Continue? && o.state.hash.status == ExpectingComma && o.state.tx == st.tx.(amount := t)
      && "value" <= o.state.hash.field
  {
    hide Steps, ProcessField, Read;
    var i := Item(name, Quoted(t));
    var s, read := Started(i), Read(st, i);
    NoQuoteInDigits(t);
    StartedRead(cfg, st, b, i);
    BufferRead(st, i);
    ValueRead(st, i);
    assert i.Print() == s + "\"";
    StepsThen(cfg, st, b, s, "\"");
    OneStep(cfg, read, After(b, s), '"');
    var h := read.hash.(dataFieldSize := FieldSize(read.hash, After(b, s)[1], After(b, s)[0]));
    AmountField(cfg, h, st.tx, t);
    KeepsName(cfg, h, st.tx);
  }

  lemma NoQuoteInDigits(t: string)
    requires AllDigits(t)
    ensures '"' !in t && '\0' !in t
  {
  }

  lemma ValueRead(st: State, i: Item)
    requires ShortName(i.name) && ShortValue(i.value)
    ensures
      var s, t := Read(st, i), i.value.text;
      && s.hash.valueLen == |t| && s.hash.value[..|t|] == t && s.hash.status == Reading(i.value) && s.tx == st.tx
  {
  }

  /** The name is not cleared between fields: behind a value, a field named with
      any beginning of "value" is another value, and the last one is kept. */
  lemma ShorterName(cfg: Config, st: State, b: back, first: string, name: string, second: string)
    requires st.hash.status == Idle && name != "" && name <= "value"
    requires 0 < |first| <= 42 && AllDigits(first) && 0 < |second| <= 42 && AllDigits(second)
    ensures
      var o := ParseData(cfg, st, b,
        "{" + (Item("value", Quoted(first)).Print() + (",") + (Item(name, Quoted(second)).Print() + "}")));
      o.code == 0x9000 && o.state.hash.status == Idle && o.state.tx == st.tx.(amount := second)
  {
    hide Steps, Step, Item.Print;
    var one, two := Item("value", Quoted(first)).Print(), Item(name, Quoted(second)).Print();
    var begun := State(st.hash.(status := ExpectingField), st.tx);
    NoQuoteInValue(name);
    OneStep(cfg, st, b, '{');
    BraceOpens(cfg, st, b);
    StepsThen(cfg, st, b, "{", one + "," + (two + "}"));
    AmountStored(cfg, begun, After(b, "{"), "value", first);
    var s1 := Steps(cfg, begun, After(b, "{"), one).state;
    var b1 := After(After(b, "{"), one);
    assert one + "," + (two + "}") == one + ("," + (two + "}"));
    StepsThen(cfg, begun, After(b, "{"), one, "," + (two + "}"));
    OneStep(cfg, s1, b1, ',');
    SeparatorStep(cfg, s1, b1, ',');
    StepsThen(cfg, s1, b1, ",", two + "}");
    var s2, b2 := State(s1.hash.(status := ExpectingField), s1.tx), After(b1, ",");
    NameCompleted(s2, name);
    AmountStored(cfg, s2, b2, name, second);
    var s3 := Steps(cfg, s2, b2, two).state;
    StepsThen(cfg, s2, b2, two, "}");
    OneStep(cfg, s3, After(b2, two), '}');
    SeparatorStep(cfg, s3, After(b2, two), '}');
  }

  lemma BraceOpens(cfg: Config, st: State, b: back)
    requires st.hash.status == Idle
    ensures Step(cfg, st, '{', b[1], b[0]) == Continue(State(st.hash.(status := ExpectingField), st.tx))
  {
  }

  lemma NoQuoteInValue(name: string)
    requires name != "" && name <= "value"
    ensures ShortName(name) && ShortName("value")
  {
    assert name == "value"[..|name|];
  }

  lemma NameCompleted(st: State, name: string)
    requires name <= "value" && "value" <= st.hash.field
    ensures "value" <= NameBuffer(st, name)
  {
    assert name == "value"[..|name|] == st.hash.field[..5][..|name|];
    assert name + st.hash.field[|name|..] == st.hash.field;
  }
}
