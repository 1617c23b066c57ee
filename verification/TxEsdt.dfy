/** The amount shown for an ESDT transfer. */
module TxEsdt {
  import opened Words
  import opened Numerals
  import opened CStrings
  import opened Base64
  import opened AmountFormat
  import opened Uint128
  import opened Uint128Text
  import opened Esdt
  import opened TxState
  import opened TxFields
  import opened TxContexts
  import opened TxCanonical

  /** Ticker and identifier as they were sent; bytes behind a NUL are kept. */
  type ShortText = s: string | |s| < 32 witness ""

  type ChainText = s: string | |s| < MAX_CHAINID_LEN witness ""

  /** What the device knows about one token. */
  datatype Info = Info(
    valid: bool,
    ticker: ShortText,
    identifier: ShortText,
    decimals: uint8,
    chainId: ChainText)
  {
    /** Ticker and chain are read as C strings. */
    function Ticker(): (t: string)
      ensures |t| < 32 && '\0' !in t
    {
      CStr(ticker)
    }

    function Chain(): string { CStr(chainId) }
  }

  /** is_esdt_transfer: the shown data is a transfer of the known token on the
      transaction's chain. */
  predicate IsEsdtTransfer(tx: Tx, info: Info) {
    var at := DATA_SIZE_LEN - 1;
    var end := at + |ESDT_TRANSFER_PREFIX| + |info.identifier|;
    && info.valid
    && |info.identifier| > 0
    && |tx.data| > end
    && tx.data[at..end + 1] == ESDT_TRANSFER_PREFIX + info.identifier + "@"
    && tx.chainId == info.Chain()
  }

  const ESDT_VALUE_N_A: string := "N/A"
  const ESDT_VALUE_TOO_LONG: string := "<value too big to display>"
  const ESDT_VALUE_HEX_PARSE_ERR: string := "<value cannot be parsed to hex>"
  const ESDT_VALUE_MAX_LENGTH: nat := 40

  /** The number a stored value stands for, once it is hexadecimal. */
  ghost function ValueOf(v: string): (n: nat)
    requires v != "" && AllHex(v[1..])
    ensures n < TWO128
  {
    Eval(Values(v[1..]), 16) % TWO128
  }

  /** The stored value is a number. */
  ghost predicate IsNumber(v: string) {
    v != "" && v != [ESDT_CODE_VALUE_TOO_HIGH] && AllHex(v[1..])
  }

  /** The code of parse_esdt_data and the amount it leaves, which has no meaning
      after an overrun. */
  ghost function EsdtAmount(v: string, info: Info): (r: (nat, string)) {
    if v == "" then (MSG_OK, ESDT_VALUE_N_A)
    else if v == [ESDT_CODE_VALUE_TOO_HIGH] then (MSG_OK, ESDT_VALUE_TOO_LONG)
    else if !AllHex(v[1..]) then (MSG_OK, ESDT_VALUE_HEX_PARSE_ERR)
    else
      var amount := Print(ValueOf(v), 10);
      if !info.valid then (ERR_INVALID_ESDT, amount)
      else match ResultOf(amount, info.decimals, info.Ticker(), AMOUNT_SIZE)
        case Done => (MSG_OK, Pretty(amount, info.decimals, info.Ticker()))
        case Refused => (ERR_PRETTY_FAILED, amount)
        case Overrun => (OVERRUN, amount)
  }

  /** A number is refused when it has 32 or more digits, or the token 43 or more
      decimals. */
  ghost predicate AmountRefused(v: string, info: Info) {
    IsNumber(v) && (ValueOf(v) >= Pow(10, 31) || info.decimals > AMOUNT_SIZE - 2)
  }

  /** A number is written past a buffer when it is not refused and the token has
      42 decimals, or what would be shown is too wide. */
  ghost predicate AmountOverruns(v: string, info: Info) {
    && IsNumber(v) && ValueOf(v) < Pow(10, 31)
    && (info.decimals == AMOUNT_SIZE - 2
        || (info.decimals < AMOUNT_SIZE - 2
            && TooWide(Print(ValueOf(v), 10), info.decimals, info.Ticker(), AMOUNT_SIZE)))
  }

  /** A complete transaction can be shown: it is no transfer of the known token,
      or its amount is neither refused nor written past a buffer. */
  ghost predicate AmountShown(tx: Tx, info: Info) {
    IsEsdtTransfer(tx, info) ==> !AmountRefused(tx.esdtValue, info) && !AmountOverruns(tx.esdtValue, info)
  }

  /** What the screen then shows. */
  ghost function ShownTx(tx: Tx, info: Info): Tx {
    if IsEsdtTransfer(tx, info) then tx.(amount := EsdtAmount(tx.esdtValue, info).1) else tx
  }

  /** When the amount of a known token is refused, when it is written past a
      buffer, and that it is shown otherwise. */
  lemma EsdtAmountExact(v: string, info: Info)
    requires info.valid
    ensures EsdtAmount(v, info).0 == ERR_PRETTY_FAILED <==> AmountRefused(v, info)
    ensures EsdtAmount(v, info).0 == OVERRUN <==> AmountOverruns(v, info)
    ensures EsdtAmount(v, info).0 == MSG_OK <==> !AmountRefused(v, info) && !AmountOverruns(v, info)
  {
    hide Pretty, Print, Pow, TooWide, AllHex, ValueOf, ResultOf;
    if IsNumber(v) {
      var amount := Print(ValueOf(v), 10);
      PrintDecimal(ValueOf(v));
      DigitsFit(ValueOf(v));
      if FitsPretty(amount) {
        ResultExact(amount, info.decimals, info.Ticker(), AMOUNT_SIZE);
      } else {
        TooManyDigits(amount, info);
      }
    }
  }

  lemma TooManyDigits(amount: string, info: Info)
    requires !FitsPretty(amount)
    ensures ResultOf(amount, info.decimals, info.Ticker(), AMOUNT_SIZE) == Refused
  {
    hide Padded, Pointed;
  }

  lemma TenIsNumber()
    ensures IsNumber("2A") && ValueOf("2A") == 10
  {
    var v := "2A";
    var d := Values(v[1..]);
    assert v[1..] == "A" && d == [10];
    assert d[..0] == [] && Eval(d, 16) == Eval(d[..0], 16) * 16 + 10 == 10;
    DivModUnique(10, TWO128, 0, 10);
  }

  lemma TenText()
    ensures Print(10, 10) == "10" && TrimZeros("10") == "1"
  {
    assert Digits(10, 10) == Digits(1, 10) + [0] == [1, 0];
    assert "10"[..1] == "1";
  }

  lemma TenBelow()
    ensures 10 < Pow(10, 31)
  {
    PowSplit(10, 2, 29);
    PowAtLeast(10, 29);
    assert Pow(10, 2) == 10 * Pow(10, 1) == 10 * (10 * Pow(10, 0)) == 100;
    MulMono(10, Pow(10, 29), 100);
  }

  lemma TenShown()
    ensures Pretty("10", 1, "T") == "1 T"
  {
    assert "10"[..1] == "1" && "10"[1..] == "0" && "0"[..0] == "";
    assert TrimZeros("0") == "";
  }

  /** Values that are no number: none was found, it was too long, or it is no
      hexadecimal. */
  lemma NoNumberShown(hex: string, info: Info)
    requires !AllHex(hex)
    ensures EsdtAmount("", info) == (0x9000, "N/A")
    ensures EsdtAmount("1", info) == (0x9000, "<value too big to display>")
    ensures EsdtAmount("2" + hex, info) == (0x9000, "<value cannot be parsed to hex>")
  {
    hide AllHex;
    assert ("2" + hex)[1..] == hex && ("2" + hex)[0] != "1"[0];
  }

  /** Ten units of a token the device does not know are not shown. */
  lemma UnknownToken(info: Info)
    requires !info.valid
    ensures EsdtAmount("2A", info).0 == 0x6E14
  {
    hide IsNumber, ValueOf, Print;
    TenIsNumber();
  }

  /** The code for ten units of any token. */
  lemma TenCode(info: Info)
    requires info.valid
    ensures EsdtAmount("2A", info).0 ==
      if info.decimals > 42 then 0x6E0D
      else if info.decimals == 42 || |info.Ticker()| > 10 || info.decimals + |info.Ticker()| > 41 then OVERRUN
      else MSG_OK
  {
    hide EsdtAmount, IsNumber, ValueOf, Print, Pow, TrimZeros;
    TenIsNumber();
    TenText();
    TenBelow();
    EsdtAmountExact("2A", info);
  }

  const ONE_LETTER: ShortText := "T"
  const TWO_LETTERS: ShortText := "TT"
  const ELEVEN_LETTERS: ShortText := "ABCDEFGHIJK"

  /** Ten units of a token are refused with 200 decimals, and written past a
      buffer with 42, with 40 and a ticker of two characters, or with a ticker of
      eleven. */
  lemma TenUnits(id: ShortText, chainId: ChainText)
    ensures EsdtAmount("2A", Info(true, ONE_LETTER, id, 200, chainId)).0 == ERR_PRETTY_FAILED
    ensures EsdtAmount("2A", Info(true, ONE_LETTER, id, 42, chainId)).0 == OVERRUN
    ensures EsdtAmount("2A", Info(true, TWO_LETTERS, id, 40, chainId)).0 == OVERRUN
    ensures EsdtAmount("2A", Info(true, ELEVEN_LETTERS, id, 0, chainId)).0 == OVERRUN
  {
    hide EsdtAmount, CStr;
    CStrOf(ONE_LETTER, ONE_LETTER);
    CStrOf(TWO_LETTERS, TWO_LETTERS);
    CStrOf(ELEVEN_LETTERS, ELEVEN_LETTERS);
    TenCode(Info(true, ONE_LETTER, id, 200, chainId));
    TenCode(Info(true, ONE_LETTER, id, 42, chainId));
    TenCode(Info(true, TWO_LETTERS, id, 40, chainId));
    TenCode(Info(true, ELEVEN_LETTERS, id, 0, chainId));
  }

  /** With one decimal they are shown. */
  lemma TenUnitsShown(id: ShortText, chainId: ChainText)
    ensures EsdtAmount("2A", Info(true, "T", id, 1, chainId)) == (MSG_OK, "1 T")
  {
    hide ResultOf, Pretty, IsNumber, ValueOf, Print, CStr;
    CStrOf("T", "T");
    TenCode(Info(true, "T", id, 1, chainId));
    TenIsNumber();
    TenText();
    TenShown();
  }

  /** set_message_in_amount. */
  method SetMessageInAmount(amount: array<char>, message: string)
    requires |message| < amount.Length && '\0' !in message
    modifies amount
    ensures CStr(amount[..]) == message
  {
    hide CStr;
    CopyIn(amount, 0, message);
    amount[|message|] := '\0';
    assert amount[..|message|] == message;
    CStrOf(amount[..], message);
  }

  lemma Uint128Digits(n: nat)
    requires n < TWO128
    ensures |Print(n, 10)| <= 39
  {
    TenToThe39();
    DigitCount(n, 10, 39);
  }

  lemma TenToThe39()
    ensures Pow(10, 39) > TWO128
  {
    PowSplit(10, 3, 10);
    PowSplit(10, 13, 13);
    PowSplit(10, 26, 13);
    PowSplit(10, 5, 5);
  }

  /** parse_esdt_data. */
  method ParseEsdtData(t: TxContext, info: Info) returns (err: nat)
    requires t.Valid()
    modifies t.amount
    ensures err == EsdtAmount(t.esdtValue, info).0
    ensures err != OVERRUN ==>
      t.Valid() && t.View() == old(t.View()).(amount := EsdtAmount(t.esdtValue, info).1)
  {
    hide CStr, Print, Eval, Edited, Pretty, AllHex, ResultOf;
    var v := t.esdtValue;
    var message := if |v| == 0 then ESDT_VALUE_N_A else ESDT_VALUE_TOO_LONG;
    if |v| == 0 || (|v| == 1 && v[0] == ESDT_CODE_VALUE_TOO_HIGH) {
      SetMessageInAmount(t.amount, message);
      return MSG_OK;
    }
    err := ParseEsdtNumber(t.amount, v, info);
  }

  /** The value of a transfer as a number, and on the screen. */
  method ParseEsdtNumber(amount: array<char>, v: string, info: Info) returns (err: nat)
    requires amount.Length == AMOUNT_SIZE && v != "" && v != [ESDT_CODE_VALUE_TOO_HIGH]
    modifies amount
    ensures err == EsdtAmount(v, info).0
    ensures err != OVERRUN ==> CStr(amount[..]) == EsdtAmount(v, info).1 && |CStr(amount[..])| < AMOUNT_SIZE
  {
    hide CStr, Print, Eval, Edited, Pretty, AllHex, ResultOf, U128.Value;
    var value := new U128(0, 0);
    var ok := ParseHex(v[1..], value);
    if !ok {
      SetMessageInAmount(amount, ESDT_VALUE_HEX_PARSE_ERR);
      return MSG_OK;
    }
    err := ShowEsdtAmount(amount, value, info);
    HoldsCStr(amount[..], EsdtAmount(v, info).1);
  }

  /** Prints the value and puts it in display form. */
  method ShowEsdtAmount(amount: array<char>, value: U128, info: Info) returns (err: nat)
    requires amount.Length == AMOUNT_SIZE
    modifies amount
    ensures
      var text := Print(value.Value(), 10);
      if !info.valid then err == ERR_INVALID_ESDT && Holds(amount[..], text)
      else match ResultOf(text, info.decimals, info.Ticker(), AMOUNT_SIZE)
        case Done => err == MSG_OK && Holds(amount[..], Pretty(text, info.decimals, info.Ticker()))
        case Refused => err == ERR_PRETTY_FAILED && Holds(amount[..], text)
        case Overrun => err == OVERRUN
  {
    hide Print, Edited, Pretty, ResultOf;
    ghost var text := Print(value.Value(), 10);
    Uint128Digits(value.Value());
    PrintDecimal(value.Value());
    var ok := ToString(value, 10, amount, ESDT_VALUE_MAX_LENGTH);
    if !ok {
      return ERR_INVALID_AMOUNT;
    }
    assert Holds(amount[..], text);
    if !info.valid {
      return ERR_INVALID_ESDT;
    }
    var r := MakeAmountPretty(amount, text, info.Ticker(), info.decimals);
    EditedDigits(text, info.decimals, info.Ticker());
    match r {
      case Done => return MSG_OK;
      case Refused => return ERR_PRETTY_FAILED;
      case Overrun => return OVERRUN;
    }
  }

  // ---- From the data to the amount ---------------------------------------------------------

  /** Nothing of the searched characters before a position finds that position. */
  lemma {:induction false} FindAt(text: string, from: nat, at: nat, c: char, d: char)
    requires from <= at <= |text| && (forall k :: from <= k < at ==> text[k] != c && text[k] != d)
    requires at < |text| ==> text[at] == c || text[at] == d
    ensures Find(text, from, c, d) == at
    decreases at - from
  {
    if from < at {
      FindAt(text, from + 1, at, c, d);
    }
  }

  /** The text of a transfer: the token identifier, the value and what follows. */
  function TransferText(id: string, hex: string, rest: string): string {
    ESDT_TRANSFER_PREFIX + id + "@" + hex + rest
  }

  /** The value argument is found exactly; one that ends the text may only have
      31 characters, one that something follows 32. */
  lemma ValueExtracted(id: string, hex: string, rest: string, was: string)
    requires '@' !in id && '@' !in hex && '?' !in hex
    requires rest == "" || rest[0] == '@' || rest[0] == '?'
    ensures TransferText(id, hex, rest) == "ESDTTransfer@" + id + "@" + hex + rest
    ensures ExtractFrom(TransferText(id, hex, rest), was) ==
      if |hex| > (if rest == "" then 31 else 32) then "1" else "2" + hex
  {
    hide Find;
    ValueEnds(id, hex, rest);
  }

  /** Where the identifier and the value end. */
  lemma ValueEnds(id: string, hex: string, rest: string)
    requires '@' !in id && '@' !in hex && '?' !in hex
    requires rest == "" || rest[0] == '@' || rest[0] == '?'
    ensures
      var text, n := TransferText(id, hex, rest), |ESDT_TRANSFER_PREFIX|;
      var at, end := n + |id|, n + |id| + 1 + |hex|;
      && |text| == end + |rest| && ESDT_TRANSFER_PREFIX <= text && text[at + 1..end] == hex
      && Find(text, n, '@', '@') == at && Find(text, at + 1, '@', '?') == end
  {
    hide Find;
    var text := TransferText(id, hex, rest);
    var n := |ESDT_TRANSFER_PREFIX|;
    var at, end := n + |id|, n + |id| + 1 + |hex|;
    assert forall k :: n <= k < at ==> text[k] == id[k - n];
    assert text[at] == '@';
    FindAt(text, n, at, '@', '@');
    assert forall k :: at + 1 <= k < end ==> text[k] == hex[k - at - 1] && hex[k - at - 1] in hex;
    assert end < |text| ==> text[end] == rest[0];
    FindAt(text, at + 1, end, '@', '?');
    assert text[at + 1..end] == hex;
  }

  lemma TransferIsTransfer(id: string, hex: string, rest: string)
    ensures IsTransfer(TransferText(id, hex, rest))
  {
  }

  /** Where the value starts in the text of a transfer. */
  function ValueAt(id: string): nat { |ESDT_TRANSFER_PREFIX| + |id| + 1 }

  /** As much of the value as a window shows. */
  function Seen(id: string, hex: string, w: nat): (seen: string)
    ensures seen <= hex
  {
    if w < ValueAt(id) then "" else if w < ValueAt(id) + |hex| then hex[..w - ValueAt(id)] else hex
  }

  /** How long a value may be: one that ends the window counts its terminator. */
  function LongestValue(id: string, hex: string, w: nat): nat {
    if w > ValueAt(id) + |hex| then 32 else 31
  }

  /** A value that starts in the window is found as far as the window goes. */
  lemma WindowExtracted(id: string, hex: string, rest: string, w: nat)
    requires '@' !in id && '@' !in hex && '?' !in hex
    requires rest == "" || rest[0] == '@' || rest[0] == '?'
    requires w <= |TransferText(id, hex, rest)|
    ensures ExtractFrom(TransferText(id, hex, rest)[..w], "") ==
      if w < ValueAt(id) then ""
      else if |Seen(id, hex, w)| > LongestValue(id, hex, w) then [ESDT_CODE_VALUE_TOO_HIGH]
      else [ESDT_CODE_VALUE_OK] + Seen(id, hex, w)
  {
    hide ExtractFrom;
    var text, start := TransferText(id, hex, rest), ValueAt(id);
    var seen := Seen(id, hex, w);
    if w < start {
      NoValue(id, hex + rest, w);
      assert text == ESDT_TRANSFER_PREFIX + id + "@" + (hex + rest);
    } else if w <= start + |hex| {
      assert text[..w] == TransferText(id, seen, "");
      ValueExtracted(id, seen, "", "");
    } else {
      var more := rest[..w - start - |hex|];
      assert text[..w] == TransferText(id, hex, more);
      assert more[0] == rest[0];
      ValueExtracted(id, hex, more, "");
    }
  }

  lemma NoValue(id: string, rest: string, w: nat)
    requires '@' !in id && w < ValueAt(id)
    ensures w <= |ESDT_TRANSFER_PREFIX + id + "@" + rest|
    ensures ExtractFrom((ESDT_TRANSFER_PREFIX + id + "@" + rest)[..w], "") == ""
  {
    hide Find;
    var text, n := (ESDT_TRANSFER_PREFIX + id + "@" + rest)[..w], |ESDT_TRANSFER_PREFIX|;
    if w >= n {
      assert forall k :: n <= k < w ==> text[k] == id[k - n];
      FindAt(text, n, w, '@', '@');
    }
  }

  /** What is extracted from the data of a transfer of any length. */
  lemma TransferExtracted(data: payload, id: string, hex: string, rest: string)
    requires ShownText(data) == TransferText(id, hex, rest)
    requires '@' !in id && '@' !in hex && '?' !in hex
    requires rest == "" || rest[0] == '@' || rest[0] == '?'
    ensures
      var w := Window(|data| + Missing(|data|));
      EsdtText(data) ==
        if w < ValueAt(id) then ""
        else if |Seen(id, hex, w)| > LongestValue(id, hex, w) then [ESDT_CODE_VALUE_TOO_HIGH]
        else [ESDT_CODE_VALUE_OK] + Seen(id, hex, w)
  {
    hide ExtractFrom, Window, Seen, LongestValue;
    var zeros := Base64.Zeros(Missing(|data|));
    ShownConcat(data, zeros);
    TransferIsTransfer(id, hex, rest);
    assert ShownText(data + zeros) == TransferText(id, hex, rest + ShownText(zeros));
    assert |zeros| > 0 ==> ShownText(zeros)[0] == '?';
    WindowExtracted(id, hex, rest + ShownText(zeros), Window(|data| + Missing(|data|)));
  }

  /** The value of a transfer lies in the window, with room for its terminator. */
  predicate InWindow(data: payload, id: string, hex: string) {
    var w := Window(|data| + Missing(|data|));
    ValueAt(id) + |hex| <= w && |hex| <= LongestValue(id, hex, w)
  }

  /** The extracted value is that of the transfer if and only if it lies in the
      window. */
  lemma TransferFound(data: payload, id: string, hex: string, rest: string)
    requires ShownText(data) == TransferText(id, hex, rest)
    requires '@' !in id && '@' !in hex && '?' !in hex
    requires rest == "" || rest[0] == '@' || rest[0] == '?'
    ensures EsdtText(data) == [ESDT_CODE_VALUE_OK] + hex <==> InWindow(data, id, hex)
  {
    hide EsdtText, Window;
    TransferExtracted(data, id, hex, rest);
  }

  /** What is shown for a transfer is the number that is seen of its value, in the
      units of the token, unless that is refused or past a buffer. It is the
      transfer's number if and only if all of it is seen, or it is zero. */
  lemma TransferShown(data: payload, id: string, hex: string, rest: string, info: Info)
    requires ShownText(data) == TransferText(id, hex, rest)
    requires '@' !in id && AllHex(hex) && info.valid
    requires rest == "" || rest[0] == '@' || rest[0] == '?'
    requires
      var w := Window(|data| + Missing(|data|));
      ValueAt(id) <= w && |Seen(id, hex, w)| <= LongestValue(id, hex, w)
    ensures
      var seen := Seen(id, hex, Window(|data| + Missing(|data|)));
      var n := Eval(Values(seen), 16);
      && IsNumber(EsdtText(data)) && ValueOf(EsdtText(data)) == n
      && (n == Eval(Values(hex), 16) <==> seen == hex || Eval(Values(hex), 16) == 0)
      && (!AmountRefused(EsdtText(data), info) && !AmountOverruns(EsdtText(data), info) ==>
          EsdtAmount(EsdtText(data), info) == (MSG_OK, Pretty(Print(n, 10), info.decimals, info.Ticker())))
  {
    hide Pretty, Print, Eval, Pow, EsdtText, FitsPretty, TransferText, AmountRefused, AmountOverruns, AllHex, ResultOf;
    hide Window, Seen;
    var w := Window(|data| + Missing(|data|));
    var seen := Seen(id, hex, w);
    HexClean(hex);
    HexPrefix(hex, seen);
    TransferExtracted(data, id, hex, rest);
    var v := [ESDT_CODE_VALUE_OK] + seen;
    assert v[0] == ESDT_CODE_VALUE_OK && v[1..] == seen;
    ParseHexExact(seen);
    CutValue(hex, |seen|);
    assert hex[..|seen|] == seen;
    EsdtAmountExact(v, info);
  }

  lemma HexPrefix(hex: string, seen: string)
    requires AllHex(hex) && seen <= hex
    ensures AllHex(seen)
  {
    assert forall i :: 0 <= i < |seen| ==> seen[i] == hex[i];
  }

  /** Cutting digits off changes the number, unless it is zero. */
  lemma CutValue(hex: string, k: nat)
    requires AllHex(hex) && k <= |hex|
    ensures Eval(Values(hex[..k]), 16) == Eval(Values(hex), 16) <==> k == |hex| || Eval(Values(hex), 16) == 0
  {
    hide Eval, Pow, Values;
    var head, tail := hex[..k], hex[k..];
    HexPrefix(hex, head);
    assert hex == head + tail;
    ValuesConcat(head, tail);
    EvalConcat(Values(head), Values(tail), 16);
    if k == |hex| {
      assert head == hex;
    } else {
      PowAtLeast(16, |tail|);
      CutSum(Eval(Values(head), 16), Pow(16, |tail|), Eval(Values(tail), 16));
    }
  }

  lemma CutSum(h: nat, p: nat, t: nat)
    requires p >= 2
    ensures h == h * p + t <==> h * p + t == 0
  {
    MulMono(2, p, h);
  }

  lemma DigitsFit(n: nat)
    ensures FitsPretty(Print(n, 10)) <==> n < Pow(10, 31)
  {
    hide Pow;
    DigitCount(n, 10, 31);
  }

  lemma HexClean(hex: string)
    requires AllHex(hex)
    ensures '@' !in hex && '?' !in hex
  {
  }

  /** How much of the data is on the screen. */
  function ShownLength(cfg: Config, data: payload): nat {
    if |Complete(data)| <= cfg.MaxDisplay() then |data| else cfg.MaxDisplay() / 4 * 3 - 3
  }

  /** A transfer is recognised exactly when the device knows its token on its chain
      and the identifier is on the screen with the separator behind it. */
  lemma TransferRecognized(cfg: Config, t: Transaction, id: string, hex: string, rest: string, info: Info)
    requires ShownText(t.data) == TransferText(id, hex, rest) && '@' !in id
    requires info.identifier != "" && '@' !in info.identifier
    ensures IsEsdtTransfer(Expected(cfg, t), info)
      <==> info.valid && info.identifier == id && info.Chain() == Marshal(t.chainId)
           && ValueAt(id) <= ShownLength(cfg, t.data)
  {
    hide Complete, SizeText, EsdtText, AmountFormat.Pretty, FeeText, Marshal, TransferText, ShownText, ShownData;
    hide ShownLength, ValueAt, CStr;
    var shown, n := TransferText(id, hex, rest), ShownLength(cfg, t.data);
    var word := ESDT_TRANSFER_PREFIX + info.identifier + "@";
    TransferLength(id, hex, rest);
    DataOnScreen(cfg, t.data, shown, word);
    if |word| <= n {
      assert shown[..n][..|word|] == shown[..|word|];
      SameIdentifier(id, hex, rest, info.identifier);
    }
  }

  /** A word that ends in a separator is on the screen behind the size page exactly
      when the data starts with it and all of it is shown. */
  lemma DataOnScreen(cfg: Config, data: payload, shown: string, word: string)
    requires data != [] && ShownText(data) == shown && word != "" && word[|word| - 1] == '@'
    ensures ShownLength(cfg, data) <= |shown|
    ensures
      var all, at := ShownData(cfg, data), DATA_SIZE_LEN - 1;
      |all| >= at + |word| && all[at..at + |word|] == word
      <==> |word| <= ShownLength(cfg, data) && shown[..|word|] == word
  {
    hide ShownData, SizeText, ShownText, ShownLength;
    var n := ShownLength(cfg, data);
    SizePageReads(|data|);
    ShownParts(cfg, data);
    WordOnScreen(SizeText(|data|), shown[..n], Ending(cfg, data), word);
    assert |word| <= n ==> shown[..n][..|word|] == shown[..|word|];
  }

  /** What stands behind the data that is shown. */
  function Ending(cfg: Config, data: payload): (end: string)
    ensures '@' !in end
  {
    if |Complete(data)| <= cfg.MaxDisplay() then "" else "..."
  }

  lemma ShownParts(cfg: Config, data: payload)
    requires data != []
    ensures ShownLength(cfg, data) <= |data|
    ensures ShownData(cfg, data)
      == SizeText(|data|) + (ShownText(data)[..ShownLength(cfg, data)] + Ending(cfg, data))
  {
    hide Complete, SizeText, ShownText;
    var n := ShownLength(cfg, data);
    EncodedSize(data);
    ShownConcat(data[..n], data[n..]);
    assert data == data[..n] + data[n..];
    assert ShownText(data)[..n] == ShownText(data[..n]);
    assert ShownText(data) + "" == ShownText(data);
  }

  lemma TransferLength(id: string, hex: string, rest: string)
    ensures |TransferText(id, hex, rest)| == ValueAt(id) + |hex| + |rest|
    ensures ValueAt(id) == |ESDT_TRANSFER_PREFIX| + |id| + 1
  {
  }

  /** A word that ends in a separator is not completed by an ellipsis. */
  lemma WordOnScreen(page: string, shown: string, end: string, word: string)
    requires word != "" && word[|word| - 1] == '@' && '@' !in end
    ensures |page + (shown + end)| >= |page| + |word| && (page + (shown + end))[|page|..|page| + |word|] == word
      <==> |word| <= |shown| && shown[..|word|] == word
  {
    var all := page + (shown + end);
    if |word| <= |shown| {
      assert all[|page|..|page| + |word|] == shown[..|word|];
    } else if |all| >= |page| + |word| {
      assert all[|page|..|page| + |word|][|word| - 1] == end[|word| - 1 - |shown|];
    }
  }

  /** Two identifiers without separator that are followed by one are equal. */
  lemma SameIdentifier(id: string, hex: string, rest: string, known: string)
    requires '@' !in id && '@' !in known
    requires |TransferText(id, hex, rest)| > |ESDT_TRANSFER_PREFIX| + |known|
    ensures TransferText(id, hex, rest)[..|ESDT_TRANSFER_PREFIX| + |known| + 1] == ESDT_TRANSFER_PREFIX + known + "@"
      <==> known == id
  {
    var text, word := TransferText(id, hex, rest), ESDT_TRANSFER_PREFIX + known + "@";
    var n := |ESDT_TRANSFER_PREFIX|;
    assert text[n..n + |id|] == id && text[n + |id|] == '@';
    assert word[n..n + |known|] == known && word[n + |known|] == '@';
    var start := text[..n + |known| + 1];
    if |id| < |known| {
      assert start[n + |id|] == text[n + |id|] && word[n + |id|] == known[|id|] && known[|id|] in known;
    } else if |known| < |id| {
      assert start[n + |known|] == id[|known|] && id[|known|] in id;
    } else {
      assert start[n..n + |known|] == id;
      assert start == ESDT_TRANSFER_PREFIX + id + "@";
    }
  }
}
