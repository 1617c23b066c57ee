/** What storing one field of a transaction does, by field name. */
module TxFields {
  import opened Words
  import opened Numerals
  import opened CStrings
  import opened Base64
  import opened AmountFormat
  import opened Fee
  import opened Esdt
  import opened TxState

  const VALUE_FIELD: string := "value"
  const RECEIVER_FIELD: string := "receiver"
  const GASPRICE_FIELD: string := "gasPrice"
  const GASLIMIT_FIELD: string := "gasLimit"
  const DATA_FIELD: string := "data"
  const CHAINID_FIELD: string := "chainID"
  const VERSION_FIELD: string := "version"
  const OPTIONS_FIELD: string := "options"
  const GUARDIAN_ADDR_FIELD: string := "guardian"
  const RELAYER_FIELD: string := "relayer"
  const NONCE_FIELD: string := "nonce"
  const SENDER_FIELD: string := "sender"
  const SENDER_USERNAME_FIELD: string := "senderUsername"
  const RECEIVER_USERNAME_FIELD: string := "receiverUsername"

  const TX_HASH_VERSION: nat := 2
  const TX_HASH_OPTIONS: nat := 1

  const ELLIPSIS_BASE64: string := "Li4u"
  const SIZE_TEMPLATE: string := "[Size:       0] "

  datatype Verdict = Verdict(code: nat, hash: Hash, tx: Tx)

  // ---- Reading the current field and value ----------------------------------------

  /** strncmp over the length of a known name: the buffer starts with it. */
  predicate Named(field: fieldBuffer, name: string) {
    |name| <= |field| && field[..|name|] == name
  }

  /** strncmp with "data" over the length of the current name. */
  predicate IsData(h: Hash) {
    if h.fieldLen <= |DATA_FIELD| then h.field[..h.fieldLen] == DATA_FIELD[..h.fieldLen]
    else h.field[..|DATA_FIELD| + 1] == DATA_FIELD + "\0"
  }

  /** The value with its terminator, counted in its length when it fits. */
  function Terminated(h: Hash): Hash {
    if h.valueLen < MAX_VALUE_LEN then
      h.(value := h.value[h.valueLen := '\0'], valueLen := h.valueLen + 1)
    else h
  }

  // ---- One field at a time --------------------------------------------------------

  ghost function VerifyValue(h: Hash, tx: Tx): Verdict {
    if h.valueLen >= AMOUNT_SIZE then Verdict(ERR_AMOUNT_TOO_LONG, h, tx)
    else if !AllDigits(CStr(h.value)) then Verdict(ERR_INVALID_AMOUNT, h, tx)
    else Verdict(MSG_OK, h, tx.(amount := CStr(h.value)))
  }

  ghost function VerifyReceiver(h: Hash, tx: Tx): Verdict {
    if h.valueLen >= FULL_ADDRESS_LENGTH then Verdict(ERR_RECEIVER_TOO_LONG, h, tx)
    else Verdict(MSG_OK, h, tx.(receiver := CStr(h.value)))
  }

  ghost function VerifyGasPrice(h: Hash, tx: Tx): Verdict {
    match ReadDecimal(CStr(h.value))
    case Some(n) => Verdict(MSG_OK, h, tx.(gasPrice := n))
    case None => Verdict(ERR_INVALID_FEE, h, tx)
  }

  ghost function VerifyGasLimit(h: Hash, tx: Tx): Verdict {
    match ReadDecimal(CStr(h.value))
    case Some(n) => Verdict(MSG_OK, h, tx.(gasLimit := n))
    case None => Verdict(ERR_INVALID_FEE, h, tx)
  }

  /** The encoded characters that are decoded for display. */
  function DisplayedCode(cfg: Config, value: valueBuffer, n: nat): (s: string)
    requires n % 4 == 0
    ensures |s| % 4 == 0 && |s| <= cfg.MaxDisplay()
  {
    if n > cfg.MaxDisplay() then value[..cfg.MaxDisplay() - 4] + ELLIPSIS_BASE64
    else value[..n]
  }

  /** The first display page: the data size, right-aligned. */
  function SizeText(n: uint32): (s: string) {
    if n == 0 then SIZE_TEMPLATE else
      var d := Print(n, 10);
      if |d| > 14 then SIZE_TEMPLATE else SIZE_TEMPLATE[..14 - |d|] + d + SIZE_TEMPLATE[14..]
  }

  function Spaces(n: nat): (s: string)
    ensures |s| == n && forall i :: 0 <= i < n ==> s[i] == ' '
  {
    seq(n, _ => ' ')
  }

  /** The page reads as label and right-aligned size exactly below 10^8; from
      there on the digits run over the label's colon. */
  lemma SizePageReads(n: uint32)
    ensures |SizeText(n)| == DATA_SIZE_LEN - 1
    ensures n < 100_000_000 ==>
      |Print(n, 10)| <= 8 && SizeText(n) == "[Size:" + Spaces(8 - |Print(n, 10)|) + Print(n, 10) + "] "
    ensures n >= 100_000_000 ==> IsDigit(SizeText(n)[5])
  {
    hide Digits, Pow, Print;
    SizeDigits(n);
    var d := Print(n, 10);
    if n == 0 {
      ZeroText();
      Template("0");
      assert SIZE_TEMPLATE[..13] + "0" + SIZE_TEMPLATE[14..] == SIZE_TEMPLATE;
    } else {
      Template(d);
    }
  }

  /** A number of up to 14 digits in the page. */
  lemma Template(d: string)
    requires 1 <= |d| <= 14
    ensures
      var page := SIZE_TEMPLATE[..14 - |d|] + d + SIZE_TEMPLATE[14..];
      && |page| == 16 && (|d| <= 8 ==> page == "[Size:" + Spaces(8 - |d|) + d + "] ")
      && (|d| > 8 ==> page[5] == d[|d| - 9])
  {
    var page := SIZE_TEMPLATE[..14 - |d|] + d + SIZE_TEMPLATE[14..];
    if |d| <= 8 {
      assert SIZE_TEMPLATE[..14 - |d|] == "[Size:" + Spaces(8 - |d|);
    }
  }

  lemma SizeDigits(n: uint32)
    ensures 1 <= |Print(n, 10)| <= 10 && (|Print(n, 10)| <= 8 <==> n < 100_000_000)
    ensures AllDigits(Print(n, 10))
  {
    hide Digits, Pow;
    DigitCount(n, 10, 8);
    DigitCount(n, 10, 10);
    PowersOfTen();
    PrintDecimal(n);
  }

  lemma PowersOfTen()
    ensures Pow(10, 8) == 100_000_000 && Pow(10, 10) == 10_000_000_000
  {
    assert Pow(10, 4) == 10_000 && Pow(10, 5) == 100_000;
    hide Pow;
    PowSplit(10, 4, 4);
    PowSplit(10, 5, 5);
  }

  lemma ZeroText()
    ensures Print(0, 10) == "0"
  {
  }

  /** The shown data: its size, then as much of the text as it has. */
  function DataText(cfg: Config, text: string, dataSize: uint32): string {
    var n := if dataSize > cfg.MaxDisplay() then cfg.MaxDisplay() else dataSize;
    SizeText(dataSize) + (if |text| <= n then text else text[..n])
  }

  ghost function VerifyData(cfg: Config, h0: Hash, tx: Tx): Verdict {
    if !cfg.contractData then Verdict(ERR_CONTRACT_DATA_DISABLED, h0, tx) else
      var h := h0.(valueLen := h0.valueLen / 4 * 4);
      match DecodeText(DisplayedCode(cfg, h.value, h.valueLen))
      case None => Verdict(ERR_INVALID_MESSAGE, h, tx)
      case Some(text) =>
        Verdict(MSG_OK, h, tx.(
          esdtValue := if IsTransfer(text) then EsdtValue(h.value, h.valueLen % 256, tx.esdtValue) else tx.esdtValue,
          dataSize := h.dataFieldSize,
          data := DataText(cfg, text, h.dataFieldSize)))
  }

  function TickerOf(chainId: string): string {
    if "1" <= chainId then "EGLD" else "xEGLD"
  }

  function NetworkOf(chainId: string): string {
    if "1" <= chainId then "Mainnet"
    else if "T" <= chainId then "Testnet"
    else if "D" <= chainId then "Devnet"
    else "Unknown"
  }

  /** Both are decided by the first character. */
  lemma TickerAndNetwork(chainId: string)
    requires chainId != ""
    ensures TickerOf(chainId) == if chainId[0] == '1' then "EGLD" else "xEGLD"
    ensures NetworkOf(chainId) ==
      if chainId[0] == '1' then "Mainnet" else if chainId[0] == 'T' then "Testnet"
      else if chainId[0] == 'D' then "Devnet" else "Unknown"
  {
  }

  /** The amount as far as it fits beside the ticker. */
  predicate FitsPretty(s: string) {
    |s| + PRETTY_SIZE < AMOUNT_SIZE
  }

  ghost function VerifyChainId(h: Hash, tx: Tx): Verdict {
    if h.valueLen > MAX_CHAINID_LEN then Verdict(OVERRUN, h, tx) else
      var chainId := CStr(h.value);
      var ticker := TickerOf(chainId);
      var fee := Print(ChargedFee(tx.gasLimit, tx.gasPrice, tx.dataSize), 10);
      var named := tx.(chainId := chainId, network := NetworkOf(chainId));
      if |fee| > AMOUNT_SIZE - PRETTY_SIZE - 1 then Verdict(ERR_INVALID_FEE, h, named)
      else if !FitsPretty(tx.amount) || !FitsPretty(fee) then Verdict(ERR_PRETTY_FAILED, h, named.(fee := fee))
      else Verdict(MSG_OK, h, named.(
        amount := Edited(tx.amount, DECIMAL_PLACES, ticker),
        fee := Edited(fee, DECIMAL_PLACES, ticker)))
  }

  ghost function VerifyVersion(h: Hash, tx: Tx): Verdict {
    match ReadDecimal(CStr(h.value))
    case Some(n) => Verdict(if n < TX_HASH_VERSION then ERR_WRONG_TX_VERSION else MSG_OK, h, tx)
    case None => Verdict(ERR_INVALID_MESSAGE, h, tx)
  }

  ghost function VerifyOptions(h: Hash, tx: Tx): Verdict {
    match ReadDecimal(CStr(h.value))
    case Some(n) => Verdict(if n < TX_HASH_OPTIONS then ERR_WRONG_TX_OPTIONS else MSG_OK, h, tx)
    case None => Verdict(ERR_INVALID_MESSAGE, h, tx)
  }

  ghost function VerifyGuardian(h: Hash, tx: Tx): Verdict {
    if h.valueLen >= FULL_ADDRESS_LENGTH then Verdict(ERR_INVALID_MESSAGE, h, tx)
    else Verdict(MSG_OK, h, tx.(guardian := CStr(h.value)))
  }

  ghost function VerifyRelayer(h: Hash, tx: Tx): Verdict {
    if h.valueLen >= FULL_ADDRESS_LENGTH then Verdict(ERR_INVALID_MESSAGE, h, tx)
    else Verdict(MSG_OK, h, tx.(relayer := CStr(h.value)))
  }

  /** Fields that are accepted and not shown. */
  predicate Undisplayed(field: fieldBuffer) {
    Named(field, NONCE_FIELD) || Named(field, SENDER_FIELD) || Named(field, SENDER_USERNAME_FIELD)
    || Named(field, RECEIVER_USERNAME_FIELD)
  }

  /** No buffer starts with two of the handled names. */
  lemma Initials(field: fieldBuffer)
    ensures Named(field, VALUE_FIELD) ==> field[0] == 'v' && field[1] == 'a'
    ensures Named(field, RECEIVER_FIELD) ==> field[0] == 'r' && field[2] == 'c'
    ensures Named(field, GASPRICE_FIELD) ==> field[0] == 'g' && field[1] == 'a' && field[3] == 'P'
    ensures Named(field, GASLIMIT_FIELD) ==> field[0] == 'g' && field[1] == 'a' && field[3] == 'L'
    ensures Named(field, DATA_FIELD) ==> field[0] == 'd'
    ensures Named(field, CHAINID_FIELD) ==> field[0] == 'c'
    ensures Named(field, VERSION_FIELD) ==> field[0] == 'v' && field[1] == 'e'
    ensures Named(field, OPTIONS_FIELD) ==> field[0] == 'o'
    ensures Named(field, GUARDIAN_ADDR_FIELD) ==> field[0] == 'g' && field[1] == 'u'
    ensures Named(field, RELAYER_FIELD) ==> field[0] == 'r' && field[2] == 'l'
  {
    assert forall i | 0 <= i < 4 :: field[i] == field[..4][i];
    Initial(field, VALUE_FIELD);
    Initial(field, RECEIVER_FIELD);
    Initial(field, GASPRICE_FIELD);
    Initial(field, GASLIMIT_FIELD);
    Initial(field, CHAINID_FIELD);
    Initial(field, VERSION_FIELD);
    Initial(field, OPTIONS_FIELD);
    Initial(field, GUARDIAN_ADDR_FIELD);
    Initial(field, RELAYER_FIELD);
  }

  lemma Initial(field: fieldBuffer, name: string)
    requires 4 <= |name| <= |field|
    ensures Named(field, name) ==> forall i :: 0 <= i < 4 ==> field[i] == name[i]
  {
    assert forall i :: 0 <= i < 4 ==> field[i] == field[..|name|][i];
  }

  ghost function Dispatch(cfg: Config, h: Hash, tx: Tx): Verdict {
    if Named(h.field, VALUE_FIELD) then VerifyValue(h, tx)
    else if Named(h.field, RECEIVER_FIELD) && h.fieldLen == |RECEIVER_FIELD| then VerifyReceiver(h, tx)
    else if Named(h.field, GASPRICE_FIELD) then VerifyGasPrice(h, tx)
    else if Named(h.field, GASLIMIT_FIELD) then VerifyGasLimit(h, tx)
    else if Named(h.field, DATA_FIELD) then VerifyData(cfg, h, tx)
    else if Named(h.field, CHAINID_FIELD) then VerifyChainId(h, tx)
    else if Named(h.field, VERSION_FIELD) then VerifyVersion(h, tx)
    else if Named(h.field, OPTIONS_FIELD) then VerifyOptions(h, tx)
    else if Named(h.field, GUARDIAN_ADDR_FIELD) then VerifyGuardian(h, tx)
    else if Named(h.field, RELAYER_FIELD) then VerifyRelayer(h, tx)
    else Verdict(if Undisplayed(h.field) then MSG_OK else ERR_INVALID_MESSAGE, h, tx)
  }

  /** The outcome of a complete field. */
  ghost function ProcessField(cfg: Config, h: Hash, tx: Tx): Verdict {
    if h.fieldLen == 0 || h.valueLen == 0 then Verdict(ERR_INVALID_MESSAGE, h, tx)
    else Dispatch(cfg, Terminated(h), tx)
  }

  // ---- Names that nothing is stored for --------------------------------------------------------

  /** The buffer starts with a name whose value is stored. */
  predicate StoredName(h: Hash) {
    || "value" <= h.field || ("receiver" <= h.field && h.fieldLen == 8)
    || "gasPrice" <= h.field || "gasLimit" <= h.field || "data" <= h.field
    || "chainID" <= h.field || "version" <= h.field || "options" <= h.field
    || "guardian" <= h.field || "relayer" <= h.field
  }

  /** The buffer starts with a name that is accepted and not stored. */
  predicate IgnoredName(h: Hash) {
    "nonce" <= h.field || "sender" <= h.field || "senderUsername" <= h.field || "receiverUsername" <= h.field
  }

  lemma NamedPrefix(field: fieldBuffer, name: string)
    ensures Named(field, name) <==> name <= field
  {
  }

  lemma NamedPrefixes(field: fieldBuffer)
    ensures Named(field, VALUE_FIELD) <==> "value" <= field
    ensures Named(field, RECEIVER_FIELD) <==> "receiver" <= field
    ensures Named(field, GASPRICE_FIELD) <==> "gasPrice" <= field
    ensures Named(field, GASLIMIT_FIELD) <==> "gasLimit" <= field
    ensures Named(field, DATA_FIELD) <==> "data" <= field
    ensures Named(field, CHAINID_FIELD) <==> "chainID" <= field
    ensures Named(field, VERSION_FIELD) <==> "version" <= field
    ensures Named(field, OPTIONS_FIELD) <==> "options" <= field
    ensures Named(field, GUARDIAN_ADDR_FIELD) <==> "guardian" <= field
    ensures Named(field, RELAYER_FIELD) <==> "relayer" <= field
    ensures Named(field, NONCE_FIELD) <==> "nonce" <= field
    ensures Named(field, SENDER_FIELD) <==> "sender" <= field
    ensures Named(field, SENDER_USERNAME_FIELD) <==> "senderUsername" <= field
    ensures Named(field, RECEIVER_USERNAME_FIELD) <==> "receiverUsername" <= field
  {
    hide Named;
    NamedPrefix(field, "value");
    NamedPrefix(field, "receiver");
    NamedPrefix(field, "gasPrice");
    NamedPrefix(field, "gasLimit");
    NamedPrefix(field, "data");
    NamedPrefix(field, "chainID");
    NamedPrefix(field, "version");
    NamedPrefix(field, "options");
    NamedPrefix(field, "guardian");
    NamedPrefix(field, "relayer");
    NamedPrefix(field, "nonce");
    NamedPrefix(field, "sender");
    NamedPrefix(field, "senderUsername");
    NamedPrefix(field, "receiverUsername");
  }

  /** A complete field whose name nothing is stored for changes nothing that is
      shown; it is accepted exactly for four names, and otherwise an invalid
      message. */
  lemma OtherNames(cfg: Config, h: Hash, tx: Tx)
    requires h.fieldLen > 0 && h.valueLen > 0 && !StoredName(h)
    ensures
      var v := ProcessField(cfg, h, tx);
      && v.tx == tx && v.hash == Terminated(h)
      && v.code == if IgnoredName(h) then 0x9000 else 0x6E02
  {
    hide Named, VerifyValue, VerifyReceiver, VerifyGasPrice, VerifyGasLimit, VerifyData;
    hide VerifyChainId, VerifyVersion, VerifyOptions, VerifyGuardian, VerifyRelayer;
    NamedPrefixes(h.field);
    assert Terminated(h).field == h.field && Terminated(h).fieldLen == h.fieldLen;
  }

  // ---- Bounds ------------------------------------------------------------------------------

  /** A field is copied past a buffer exactly when it is a chain identifier of
      more than three characters. */
  lemma OverrunExactly(cfg: Config, h: Hash, tx: Tx)
    ensures Dispatch(cfg, h, tx).code == OVERRUN <==> Named(h.field, CHAINID_FIELD) && h.valueLen > MAX_CHAINID_LEN
  {
    hide Named, Undisplayed, CStr, ReadDecimal, DecodeText, DisplayedCode, DataText, IsTransfer;
    hide Edited, ChargedFee, Print;
    Initials(h.field);
  }

  /** A chain identifier of four characters is one such field. */
  lemma LongChainId(cfg: Config, h: Hash, tx: Tx)
    requires Named(h.field, CHAINID_FIELD) && h.fieldLen == |CHAINID_FIELD|
    requires h.value[..4] == "1234" && h.valueLen == 4
    ensures ProcessField(cfg, h, tx).code == OVERRUN
  {
    hide Named, Dispatch, CStr;
    OverrunExactly(cfg, Terminated(h), tx);
  }

  /** A printed fee always fits its buffer in display form: only the amount can
      make the display step fail. */
  lemma OnlyAmountTooLong(h: Hash, tx: Tx)
    ensures VerifyChainId(h, tx).code == ERR_PRETTY_FAILED ==> !FitsPretty(tx.amount)
  {
    hide CStr, Edited, ChargedFee, Print;
  }
}
