/** The transaction parser's procedures on its contexts. */
module TxParser {
  import opened Words
  import opened Wrappers
  import opened Numerals
  import opened CStrings
  import opened Base64
  import opened AmountFormat
  import opened Fee
  import opened Esdt
  import opened TxState
  import opened TxFields
  import opened TxMachine
  import opened TxContexts

  // ---- Texts in buffers ------------------------------------------------------------

  /** The value after process_field has terminated it. */
  predicate Closed(h: Hash) {
    h.valueLen >= 1 && (h.valueLen < MAX_VALUE_LEN ==> h.value[h.valueLen - 1] == '\0')
  }

  /** Copying a terminated text copies what its C string is. */
  lemma CStrShared(a: seq<char>, s: seq<char>, n: nat)
    requires 1 <= n <= |a| && n <= |s| && a[..n] == s[..n] && s[n - 1] == '\0'
    ensures CStr(a) == CStr(s) && |CStr(s)| < n
  {
    hide CStr;
    var t := CStr(s);
    ShortText(s, n);
    assert a[..n][..|t|] == s[..n][..|t|];
    assert a[..n][|t|] == s[..n][|t|];
    CStrOf(a, t);
  }

  lemma ShortText(s: seq<char>, n: nat)
    requires 1 <= n <= |s| && s[n - 1] == '\0'
    ensures |CStr(s)| < n
  {
    hide CStr;
    var t := CStr(s);
    assert forall k :: 0 <= k < |t| ==> s[k] == t[k] && t[k] in t;
  }

  method CopyText(dst: array<char>, value: valueBuffer, n: nat)
    requires 1 <= n <= dst.Length && n < |value| && value[n - 1] == '\0'
    modifies dst
    ensures CStr(dst[..]) == CStr(value) && |CStr(value)| < n
  {
    hide CStr;
    CopyIn(dst, 0, value[..n]);
    assert dst[..n] == value[..n];
    CStrShared(dst[..], value, n);
  }

  /** valid_amount. */
  method ValidAmount(text: string) returns (ok: bool)
    ensures ok <==> AllDigits(text)
  {
    for i := 0 to |text|
      invariant AllDigits(text[..i])
    {
      if !IsDigit(text[i]) {
        return false;
      }
    }
    return true;
  }

  // ---- The verify procedures ---------------------------------------------------------

  /** Nothing happens to a field of another name. */
  ghost predicate Skipped(err: nat, valid: bool, t: TxContext, before: Tx)
    reads t, t.amount, t.fee, t.data
  {
    err == MSG_OK && !valid && t.Valid() && t.View() == before
  }

  /** The outcome the field's meaning gives. */
  ghost predicate Agrees(v: Verdict, err: nat, valid: bool, h: HashContext, t: TxContext)
    reads h, t, t.amount, t.fee, t.data
  {
    && err == v.code
    && h.View() == v.hash
    && t.Valid() && t.View() == v.tx
    && (err == MSG_OK ==> valid)
  }

  /** The texts that a failed step may leave half written. */
  function Scratched(tx: Tx): Tx {
    tx.(fee := "", data := "")
  }

  /** The outcome the field's meaning gives; after an error the fee and data
      texts are not determined. */
  ghost predicate Settles(v: Verdict, err: nat, valid: bool, h: HashContext, t: TxContext)
    reads h, t, t.amount, t.fee, t.data
  {
    && err == v.code
    && h.View() == v.hash
    && (err == MSG_OK ==> valid && t.Valid() && t.View() == v.tx)
    && (err != MSG_OK ==> Scratched(t.View()) == Scratched(v.tx))
  }

  method VerifyValueField(h: HashContext, t: TxContext) returns (err: nat, valid: bool)
    requires t.Valid() && Closed(h.View())
    modifies t.amount
    ensures
      if Named(h.field, VALUE_FIELD) then Agrees(VerifyValue(h.View(), old(t.View())), err, valid, h, t)
      else Skipped(err, valid, t, old(t.View()))
  {
    hide CStr, AllDigits;
    if h.field[..|VALUE_FIELD|] == VALUE_FIELD {
      if h.valueLen >= t.amount.Length {
        return ERR_AMOUNT_TOO_LONG, false;
      }
      var amount := ValidAmount(CStr(h.value));
      if !amount {
        return ERR_INVALID_AMOUNT, false;
      }
      CopyText(t.amount, h.value, h.valueLen);
      return MSG_OK, true;
    }
    return MSG_OK, false;
  }

  method VerifyReceiverField(h: HashContext, t: TxContext) returns (err: nat, valid: bool)
    requires t.Valid() && Closed(h.View())
    modifies t`receiver
    ensures
      if Named(h.field, RECEIVER_FIELD) && h.fieldLen == |RECEIVER_FIELD| then
        Agrees(VerifyReceiver(h.View(), old(t.View())), err, valid, h, t)
      else Skipped(err, valid, t, old(t.View()))
  {
    hide CStr;
    if h.field[..|RECEIVER_FIELD|] == RECEIVER_FIELD && h.fieldLen == |RECEIVER_FIELD| {
      if h.valueLen >= FULL_ADDRESS_LENGTH {
        return ERR_RECEIVER_TOO_LONG, false;
      }
      ShortText(h.value, h.valueLen);
      t.receiver := CStr(h.value);
      return MSG_OK, true;
    }
    return MSG_OK, false;
  }

  method VerifyGasPriceField(h: HashContext, t: TxContext) returns (err: nat, valid: bool)
    requires t.Valid()
    modifies t`gasPrice
    ensures
      if Named(h.field, GASPRICE_FIELD) then Agrees(VerifyGasPrice(h.View(), old(t.View())), err, valid, h, t)
      else Skipped(err, valid, t, old(t.View()))
  {
    hide CStr, ReadDecimal;
    if h.field[..|GASPRICE_FIELD|] == GASPRICE_FIELD {
      var ok, n := ParseInt(CStr(h.value));
      if !ok {
        return ERR_INVALID_FEE, false;
      }
      t.gasPrice := n;
      return MSG_OK, true;
    }
    return MSG_OK, false;
  }

  method VerifyGasLimitField(h: HashContext, t: TxContext) returns (err: nat, valid: bool)
    requires t.Valid()
    modifies t`gasLimit
    ensures
      if Named(h.field, GASLIMIT_FIELD) then Agrees(VerifyGasLimit(h.View(), old(t.View())), err, valid, h, t)
      else Skipped(err, valid, t, old(t.View()))
  {
    hide CStr, ReadDecimal;
    if h.field[..|GASLIMIT_FIELD|] == GASLIMIT_FIELD {
      var ok, n := ParseInt(CStr(h.value));
      if !ok {
        return ERR_INVALID_FEE, false;
      }
      t.gasLimit := n;
      return MSG_OK, true;
    }
    return MSG_OK, false;
  }

  method VerifyVersionField(h: HashContext, t: TxContext) returns (err: nat, valid: bool)
    requires t.Valid()
    ensures
      if Named(h.field, VERSION_FIELD) then Agrees(VerifyVersion(h.View(), old(t.View())), err, valid, h, t)
      else Skipped(err, valid, t, old(t.View()))
  {
    hide CStr, ReadDecimal;
    if h.field[..|VERSION_FIELD|] == VERSION_FIELD {
      var ok, version := ParseInt(CStr(h.value));
      if !ok {
        return ERR_INVALID_MESSAGE, false;
      }
      if version < TX_HASH_VERSION {
        return ERR_WRONG_TX_VERSION, false;
      }
      return MSG_OK, true;
    }
    return MSG_OK, false;
  }

  method VerifyOptionsField(h: HashContext, t: TxContext) returns (err: nat, valid: bool)
    requires t.Valid()
    ensures
      if Named(h.field, OPTIONS_FIELD) then Agrees(VerifyOptions(h.View(), old(t.View())), err, valid, h, t)
      else Skipped(err, valid, t, old(t.View()))
  {
    hide CStr, ReadDecimal;
    if h.field[..|OPTIONS_FIELD|] == OPTIONS_FIELD {
      var ok, options := ParseInt(CStr(h.value));
      if !ok {
        return ERR_INVALID_MESSAGE, false;
      }
      if options < TX_HASH_OPTIONS {
        return ERR_WRONG_TX_OPTIONS, false;
      }
      return MSG_OK, true;
    }
    return MSG_OK, false;
  }

  method VerifyGuardianField(h: HashContext, t: TxContext) returns (err: nat, valid: bool)
    requires t.Valid() && (Named(h.field, GUARDIAN_ADDR_FIELD) ==> Closed(h.View()))
    modifies t`guardian
    ensures
      if Named(h.field, GUARDIAN_ADDR_FIELD) then Agrees(VerifyGuardian(h.View(), old(t.View())), err, valid, h, t)
      else Skipped(err, valid, t, old(t.View()))
  {
    hide CStr;
    if h.field[..|GUARDIAN_ADDR_FIELD|] == GUARDIAN_ADDR_FIELD {
      if h.valueLen >= FULL_ADDRESS_LENGTH {
        return ERR_INVALID_MESSAGE, false;
      }
      ShortText(h.value, h.valueLen);
      t.guardian := CStr(h.value);
      return MSG_OK, true;
    }
    return MSG_OK, false;
  }

  method VerifyRelayerField(h: HashContext, t: TxContext) returns (err: nat, valid: bool)
    requires t.Valid() && (Named(h.field, RELAYER_FIELD) ==> Closed(h.View()))
    modifies t`relayer
    ensures
      if Named(h.field, RELAYER_FIELD) then Agrees(VerifyRelayer(h.View(), old(t.View())), err, valid, h, t)
      else Skipped(err, valid, t, old(t.View()))
  {
    hide CStr;
    if h.field[..|RELAYER_FIELD|] == RELAYER_FIELD {
      if h.valueLen >= FULL_ADDRESS_LENGTH {
        return ERR_INVALID_MESSAGE, false;
      }
      ShortText(h.value, h.valueLen);
      t.relayer := CStr(h.value);
      return MSG_OK, true;
    }
    return MSG_OK, false;
  }

  // ---- The chain identifier, and with it the fee -------------------------------------

  /** set_network. */
  method SetNetwork(t: TxContext, chainId: string)
    requires t.Valid()
    modifies t`network
    ensures t.Valid() && t.View() == old(t.View()).(network := NetworkOf(chainId))
  {
    hide CStr;
    if "1" <= chainId {
      t.network := "Mainnet";
      return;
    }
    if "T" <= chainId {
      t.network := "Testnet";
      return;
    }
    if "D" <= chainId {
      t.network := "Devnet";
      return;
    }
    t.network := "Unknown";
  }

  method VerifyChainIdField(h: HashContext, t: TxContext) returns (err: nat, valid: bool)
    requires t.Valid() && (Named(h.field, CHAINID_FIELD) ==> Closed(h.View()))
    modifies t`chainId, t`network, t.amount, t.fee
    ensures
      if Named(h.field, CHAINID_FIELD) then Settles(VerifyChainId(h.View(), old(t.View())), err, valid, h, t)
      else Skipped(err, valid, t, old(t.View()))
  {
    hide CStr, ChargedFee, Print, Edited, NetworkOf;
    if h.field[..|CHAINID_FIELD|] == CHAINID_FIELD {
      if h.valueLen > MAX_CHAINID_LEN {
        return OVERRUN, false;
      }
      var ticker := "xEGLD";
      var value := CStr(h.value);
      ShortText(h.value, h.valueLen);
      if "1" <= value {
        ticker := "EGLD";
      }
      t.chainId := value;
      SetNetwork(t, value);
      err := ShowFee(t, ticker);
      return err, err == MSG_OK;
    }
    return MSG_OK, false;
  }

  /** The fee is computed and printed, then both amounts are put in display form. */
  method ShowFee(t: TxContext, ticker: string) returns (err: nat)
    requires t.Valid() && |ticker| <= MAX_TICKER_LEN && '\0' !in ticker
    modifies t.amount, t.fee
    ensures
      var tx := old(t.View());
      var fee := Print(ChargedFee(tx.gasLimit, tx.gasPrice, tx.dataSize), 10);
      if |fee| > AMOUNT_SIZE - PRETTY_SIZE - 1 then
        err == ERR_INVALID_FEE && Scratched(t.View()) == Scratched(tx)
      else if !FitsPretty(tx.amount) || !FitsPretty(fee) then
        err == ERR_PRETTY_FAILED && t.View() == tx.(fee := fee)
      else
        && err == MSG_OK && t.Valid()
        && t.View() == tx.(
             amount := Edited(tx.amount, DECIMAL_PLACES, ticker),
             fee := Edited(fee, DECIMAL_PLACES, ticker))
  {
    hide CStr, ChargedFee, Print, Edited;
    ghost var amount, fee := CStr(t.amount[..]), Print(ChargedFee(t.gasLimit, t.gasPrice, t.dataSize), 10);
    HoldsCStr(t.amount[..], amount);
    var ok := GasToFee(t.gasLimit, t.gasPrice, t.dataSize, t.fee, t.fee.Length - PRETTY_SIZE);
    if !ok {
      return ERR_INVALID_FEE;
    }
    PrintDecimal(ChargedFee(t.gasLimit, t.gasPrice, t.dataSize));
    assert Holds(t.fee[..], fee);
    HoldsCStr(t.fee[..], fee);
    NoOverrun(amount, DECIMAL_PLACES, ticker, AMOUNT_SIZE);
    NoOverrun(fee, DECIMAL_PLACES, ticker, AMOUNT_SIZE);
    var r := MakeAmountPretty(t.amount, amount, ticker, DECIMAL_PLACES);
    if r == Done {
      r := MakeAmountPretty(t.fee, fee, ticker, DECIMAL_PLACES);
    }
    if r != Done {
      return ERR_PRETTY_FAILED;
    }
    HoldsCStr(t.amount[..], Edited(amount, DECIMAL_PLACES, ticker));
    HoldsCStr(t.fee[..], Edited(fee, DECIMAL_PLACES, ticker));
    return MSG_OK;
  }

  // ---- The data field ----------------------------------------------------------------

  /** strlen(text) positions are searched, from a given one. */
  method FindFirst(a: array<char>, ghost text: string, from: nat, c: char, d: char) returns (pos: int)
    requires Holds(a[..], text)
    ensures pos == if from > |text| || Find(text, from, c, d) == |text| then -1 else Find(text, from, c, d)
  {
    var idx := from;
    var len := StrLen(a, text);
    assert forall k :: 0 <= k < |text| ==> a[k] == a[..][..|text|][k] == text[k];
    while idx < len
      invariant from <= |text| ==> from <= idx <= |text| && Find(text, from, c, d) == Find(text, idx, c, d)
    {
      if a[idx] == c || a[idx] == d {
        return idx;
      }
      idx := idx + 1;
    }
    return -1;
  }

  /** extract_esdt_value. */
  method ExtractEsdtValue(t: TxContext, value: valueBuffer, n: uint8)
    requires t.Valid() && n % 4 == 0
    modifies t`esdtValue
    ensures t.Valid() && t.esdtValue == EsdtValue(value, n, old(t.esdtValue))
    ensures t.View() == old(t.View()).(esdtValue := t.esdtValue)
  {
    hide CStr, DecodeText, ExtractFrom, AllBase64;
    if n == 0 {
      NothingToDecode(value[..n], t.esdtValue);
      return;
    }
    var dataField := new char[100];
    NotAllValid(value);
    var ok := Base64Decode(dataField, value, n);
    if !ok {
      return;
    }
    assert n / 4 * 4 == n;
    DecodedHolds(dataField[..], value[..n]);
    t.esdtValue := ExtractFromBuffer(dataField, DecodeText(value[..n]).value, t.esdtValue);
  }

  lemma NotAllValid(value: valueBuffer)
    ensures !AllBase64(value)
  {
    assert !IsBase64Char(value[MAX_VALUE_LEN]);
  }

  /** The search for the value in the decoded text. */
  method ExtractFromBuffer(dataField: array<char>, ghost text: string, was: string) returns (v: string)
    requires Holds(dataField[..], text) && |was| <= MAX_ESDT_TEXT
    ensures v == ExtractFrom(text, was) && |v| <= MAX_ESDT_TEXT
  {
    hide CStr, Find, Holds, ValueText;
    var at := FindFirst(dataField, text, |ESDT_TRANSFER_PREFIX|, SC_ARGS_SEPARATOR, SC_ARGS_SEPARATOR);
    if at == -1 {
      return was;
    }
    v := CopyValue(dataField, text, at + 1);
  }

  method CopyValue(dataField: array<char>, ghost text: string, start: nat) returns (v: string)
    requires Holds(dataField[..], text) && start <= |text|
    ensures v == ValueText(text, start)
  {
    hide CStr, Find, Holds;
    HeldText(dataField[..], text);
    var end := FindFirst(dataField, text, start, SC_ARGS_SEPARATOR, BASE_64_INVALID_CHAR);
    if end == -1 {
      end := StrLen(dataField, text);
    } else {
      end := end - 1;
    }
    if end - start + 1 > MAX_ESDT_VALUE_HEX_COUNT {
      return [ESDT_CODE_VALUE_TOO_HIGH];
    }
    CopiedValue(dataField[..], text, start, end + 1);
    v := CStr([ESDT_CODE_VALUE_OK] + dataField[start..end + 1]);
  }

  lemma NothingToDecode(s: string, was: string)
    requires s == []
    ensures DecodeText(s) == Some([]) && ExtractFrom([], was) == was
  {
  }

  /** The copied characters up to their terminator. */
  lemma CopiedValue(a: seq<char>, text: string, start: nat, end: nat)
    requires Holds(a, text) && start <= |text| && start <= end <= |text| + 1 <= |a|
    ensures CStr([ESDT_CODE_VALUE_OK] + a[start..end])
      == [ESDT_CODE_VALUE_OK] + text[start..if end > |text| then |text| else end]
  {
    hide CStr;
    var stop := if end > |text| then |text| else end;
    var v := [ESDT_CODE_VALUE_OK] + text[start..stop];
    var s := [ESDT_CODE_VALUE_OK] + a[start..end];
    forall k | 0 <= k < stop - start ensures a[start..end][k] == text[start..stop][k] {
      assert a[start + k] == a[..|text|][start + k];
    }
    assert forall k :: 0 <= k < |v| ==> v[k] == s[k];
    assert v == s[..|v|];
    assert |v| < |s| ==> s[|v|] == a[|text|];
    CStrOf(s, v);
  }

  /** compute_data_size: puts the size in front of the decoded text. */
  method ComputeDataSize(t: TxContext, decodedLen: uint32, ghost text: string)
    requires t.Sized() && |text| <= t.cfg.MaxDisplay() && Holds(t.data[..], text)
    modifies t`dataSize, t.data
    ensures t.dataSize == decodedLen
    ensures |CStr(t.data[..])| < t.data.Length && CStr(t.data[..]) == DataText(t.cfg, text, decodedLen)
  {
    hide CStr, SizeText;
    t.dataSize := decodedLen;
    var strSize := SizePage(decodedLen);
    InsertInFront(t.data, strSize, text);
    var dataEnd := |strSize| + (if decodedLen > t.cfg.MaxDisplay() then t.cfg.MaxDisplay() else decodedLen);
    CutAt(t.data, strSize + text, dataEnd);
    HoldsCStr(t.data[..], DataText(t.cfg, text, decodedLen));
  }

  /** Shifts the text right and writes the page before it. */
  method InsertInFront(data: array<char>, page: string, ghost text: string)
    requires Holds(data[..], text) && |page| + |text| < data.Length && '\0' !in page
    modifies data
    ensures Holds(data[..], page + text)
  {
    hide Holds;
    var n := |page|;
    ghost var before := data[..];
    Memmove(data, n, 0, data.Length - n);
    assert before[..|text| + 1] <= before[0..data.Length - n];
    CopyBehind(data, 0, page);
    HoldsInFront(before, data[..], page, text);
  }

  /** Terminates a text no later than at a given position. */
  method CutAt(data: array<char>, ghost text: string, end: nat)
    requires Holds(data[..], text) && end < data.Length
    modifies data
    ensures Holds(data[..], if |text| <= end then text else text[..end])
  {
    data[end] := '\0';
    ghost var shown := if |text| <= end then text else text[..end];
    assert data[..|shown|] == shown;
  }

  /** The template with the digits written over it from the right. */
  method SizePage(n: uint32) returns (page: string)
    ensures page == SizeText(n) && |page| == DATA_SIZE_LEN - 1 && '\0' !in page
  {
    hide Print;
    var strSize := new char[DATA_SIZE_LEN - 1](i requires 0 <= i < DATA_SIZE_LEN - 1 => SIZE_TEMPLATE[i]);
    assert strSize[..] == SIZE_TEMPLATE;
    UintDigits(n);
    PrintDecimal(n);
    PutDigits(strSize, 13, n);
    page := strSize[..];
    PageText(n);
  }

  /** The page, with no digits for zero. */
  lemma PageText(n: uint32)
    requires |Print(n, 10)| <= 14 && '\0' !in Print(n, 10)
    ensures
      var d := if n == 0 then "" else Print(n, 10);
      SizeText(n) == SIZE_TEMPLATE[..14 - |d|] + d + SIZE_TEMPLATE[14..]
    ensures |SizeText(n)| == DATA_SIZE_LEN - 1 && '\0' !in SizeText(n)
  {
    hide Print;
    assert SIZE_TEMPLATE[..14] + "" + SIZE_TEMPLATE[14..] == SIZE_TEMPLATE;
    assert forall k :: 0 <= k < |SIZE_TEMPLATE| ==> SIZE_TEMPLATE[k] != '\0';
  }

  /** Writes the digits of a number so that they end at a given position; a
      zero writes nothing. */
  method PutDigits(a: array<char>, last: nat, n: nat)
    requires |Print(n, 10)| <= last + 1 <= a.Length
    modifies a
    ensures
      var digits := if n == 0 then "" else Print(n, 10);
      a[..] == old(a[..last + 1 - |digits|]) + digits + old(a[last + 1..])
  {
    hide Print;
    var ds, idx := n, last;
    ghost var digits := if n == 0 then "" else Print(n, 10);
    while ds > 0
      invariant last - |digits| <= idx <= last
      invariant forall k :: 0 <= k <= idx || last < k < a.Length ==> a[k] == old(a[k])
      invariant forall k :: idx < k <= last ==> a[k] == digits[|digits| - 1 - (last - k)]
      invariant digits[..|digits| - (last - idx)] == if ds == 0 then "" else Print(ds, 10)
    {
      ghost var front := digits[..|digits| - (last - idx)];
      LastDigit(ds);
      a[idx] := ('0' as int + ds % 10) as char;
      assert front[|front| - 1] == digits[|front| - 1];
      assert front[..|front| - 1] == if ds / 10 == 0 then "" else Print(ds / 10, 10);
      assert front[..|front| - 1] == digits[..|front| - 1];
      ds := ds / 10;
      idx := idx - 1;
    }
  }

  lemma UintDigits(n: uint32)
    ensures |Print(n, 10)| <= 10
  {
    DigitCount(n, 10, 10);
    PowSplit(10, 5, 5);
  }

  /** The digits of a number are those of its tenth, then its last one. */
  lemma LastDigit(n: nat)
    requires n > 0
    ensures n % 10 < 10 && ('0' as int + n % 10) as char == HEXDIGITS[n % 10]
    ensures Print(n, 10) == (if n / 10 == 0 then "" else Print(n / 10, 10)) + [HEXDIGITS[n % 10]]
  {
    DigitsCanonical(n, 10);
    if n >= 10 {
      QuotientShrinks(n, 10);
      DigitsCanonical(n / 10, 10);
    }
  }

  method VerifyDataField(h: HashContext, t: TxContext) returns (err: nat, valid: bool)
    requires t.Valid()
    modifies h`valueLen, t`esdtValue, t`dataSize, t.data
    ensures
      if Named(old(h.field), DATA_FIELD) then
        Settles(VerifyData(t.cfg, old(h.View()), old(t.View())), err, valid, h, t)
      else Skipped(err, valid, t, old(t.View())) && h.View() == old(h.View())
  {
    hide CStr, VerifyData;
    if h.field[..|DATA_FIELD|] == DATA_FIELD {
      err := StoreData(h, t);
      return err, err == MSG_OK;
    }
    return MSG_OK, false;
  }

  /** Decodes the value, looks for a transfer in it, and shows it. */
  method StoreData(h: HashContext, t: TxContext) returns (err: nat)
    requires t.Valid()
    modifies h`valueLen, t`esdtValue, t`dataSize, t.data
    ensures Settles(VerifyData(t.cfg, old(h.View()), old(t.View())), err, err == MSG_OK, h, t)
  {
    hide CStr, DecodeText, DataText, EsdtValue, Holds, IsTransfer;
    if !t.cfg.contractData {
      return ERR_CONTRACT_DATA_DISABLED;
    }
    h.valueLen := h.valueLen / 4 * 4;
    var encoded := EncodedForDisplay(t.cfg, h.value, h.valueLen);
    assert encoded[..|encoded| / 4 * 4] == encoded;
    var ok := Base64Decode(t.data, encoded, |encoded|);
    if !ok {
      return ERR_INVALID_MESSAGE;
    }
    DecodedHolds(t.data[..], encoded);
    StoreText(h, t, DecodeText(encoded).value);
    return MSG_OK;
  }

  /** The second half: the decoded text is in the buffer. */
  method StoreText(h: HashContext, t: TxContext, ghost text: string)
    requires t.Valid() && Holds(t.data[..], text) && |text| <= t.cfg.MaxDisplay() && h.valueLen % 4 == 0
    modifies t`esdtValue, t`dataSize, t.data
    ensures t.Valid()
    ensures
      var was := old(t.View());
      t.View() == was.(
        esdtValue := if IsTransfer(text) then EsdtValue(h.value, h.valueLen % 256, was.esdtValue) else was.esdtValue,
        dataSize := h.dataFieldSize,
        data := DataText(t.cfg, text, h.dataFieldSize))
  {
    hide CStr, DataText, EsdtValue, Holds, IsTransfer;
    TransferPrefix(t.data[..], text);
    if IsTransfer(t.data[..]) {
      ExtractEsdtValue(t, h.value, h.valueLen % 256);
    }
    ComputeDataSize(t, h.dataFieldSize, text);
  }

  lemma TransferPrefix(data: seq<char>, text: string)
    requires Holds(data, text) && |data| >= |ESDT_TRANSFER_PREFIX|
    ensures IsTransfer(data) <==> IsTransfer(text)
  {
    SamePrefix(data, text, ESDT_TRANSFER_PREFIX);
  }

  /** The characters to decode, the last four replaced when there are more. */
  method EncodedForDisplay(cfg: Config, value: valueBuffer, n: nat) returns (s: string)
    requires n % 4 == 0
    ensures s == DisplayedCode(cfg, value, n)
  {
    var max := cfg.MaxDisplay();
    var len := if n > max then max else n;
    var encoded := new char[max];
    CopyIn(encoded, 0, value[..len]);
    if n > max {
      CopyIn(encoded, max - |ELLIPSIS_BASE64|, ELLIPSIS_BASE64);
    }
    s := encoded[..len];
  }

  // ---- Dispatch ----------------------------------------------------------------------

  /** Fields handled before the chain identifier. */
  predicate Early(h: Hash) {
    || Named(h.field, VALUE_FIELD)
    || (Named(h.field, RECEIVER_FIELD) && h.fieldLen == |RECEIVER_FIELD|)
    || Named(h.field, GASPRICE_FIELD)
    || Named(h.field, GASLIMIT_FIELD)
    || Named(h.field, DATA_FIELD)
  }

  /** The chain identifier and the fields handled after it. */
  predicate Late(h: Hash) {
    || Named(h.field, CHAINID_FIELD)
    || Named(h.field, VERSION_FIELD)
    || Named(h.field, OPTIONS_FIELD)
    || Named(h.field, GUARDIAN_ADDR_FIELD)
    || Named(h.field, RELAYER_FIELD)
  }

  method VerifyEarly(h: HashContext, t: TxContext) returns (err: nat, valid: bool)
    requires t.Valid() && Closed(h.View())
    modifies h`valueLen, t, t.amount, t.data
    ensures
      if Early(old(h.View())) then Settles(Dispatch(t.cfg, old(h.View()), old(t.View())), err, valid, h, t)
      else Skipped(err, valid, t, old(t.View())) && h.View() == old(h.View())
  {
    hide CStr, Named, VerifyValue, VerifyReceiver, VerifyGasPrice, VerifyGasLimit, VerifyData;
    hide VerifyChainId, VerifyVersion, VerifyOptions, VerifyGuardian, VerifyRelayer;
    Initials(h.field);
    var v;
    err, valid := VerifyValueField(h, t);
    if err != MSG_OK { return; }
    err, v := VerifyReceiverField(h, t);
    if err != MSG_OK { return; }
    valid := valid || v;
    err, v := VerifyGasPriceField(h, t);
    if err != MSG_OK { return; }
    valid := valid || v;
    err, v := VerifyGasLimitField(h, t);
    if err != MSG_OK { return; }
    valid := valid || v;
    err, v := VerifyDataField(h, t);
    valid := valid || v;
  }

  method VerifyLate(h: HashContext, t: TxContext) returns (err: nat, valid: bool)
    requires t.Valid() && (Late(h.View()) ==> Closed(h.View()))
    modifies t, t.amount, t.fee
    ensures
      if Late(h.View()) then Settles(Dispatch(t.cfg, h.View(), old(t.View())), err, valid, h, t)
      else Skipped(err, valid, t, old(t.View()))
  {
    hide CStr, Named, VerifyValue, VerifyReceiver, VerifyGasPrice, VerifyGasLimit, VerifyData;
    hide VerifyChainId, VerifyVersion, VerifyOptions, VerifyGuardian, VerifyRelayer;
    Initials(h.field);
    var v;
    err, valid := VerifyChainIdField(h, t);
    if err != MSG_OK { return; }
    err, v := VerifyVersionField(h, t);
    if err != MSG_OK { return; }
    valid := valid || v;
    err, v := VerifyOptionsField(h, t);
    if err != MSG_OK { return; }
    valid := valid || v;
    err, v := VerifyGuardianField(h, t);
    if err != MSG_OK { return; }
    valid := valid || v;
    err, v := VerifyRelayerField(h, t);
    valid := valid || v;
  }

  lemma EarlyNotLate(h: Hash)
    ensures !(Early(h) && Late(h))
  {
    hide Named;
    Initials(h.field);
  }

  lemma NeitherGroup(cfg: Config, h: Hash, tx: Tx)
    ensures !Early(h) && !Late(h) ==>
      Dispatch(cfg, h, tx) == Verdict(if Undisplayed(h.field) then MSG_OK else ERR_INVALID_MESSAGE, h, tx)
  {
    hide Named, Undisplayed;
  }

  /** process_field. */
  method ProcessFieldAt(h: HashContext, t: TxContext) returns (err: nat)
    requires t.Valid()
    modifies h`value, h`valueLen, t, t.amount, t.fee, t.data
    ensures
      var v := ProcessField(t.cfg, old(h.View()), old(t.View()));
      && err == v.code && h.View() == v.hash
      && (err == MSG_OK ==> t.Valid() && t.View() == v.tx)
      && (err != MSG_OK ==> Scratched(t.View()) == Scratched(v.tx))
  {
    hide CStr, Early, Late, Dispatch, Undisplayed;
    if h.fieldLen == 0 || h.valueLen == 0 {
      return ERR_INVALID_MESSAGE;
    }
    if h.valueLen < MAX_VALUE_LEN {
      h.value := h.value[h.valueLen := '\0'];
      h.valueLen := h.valueLen + 1;
    }
    ghost var closed := h.View();
    EarlyNotLate(closed);
    NeitherGroup(t.cfg, closed, t.View());
    var validField, v;
    err, validField := VerifyEarly(h, t);
    if err != MSG_OK { return; }
    SameGroup(closed, h.View());
    err, v := VerifyLate(h, t);
    if err != MSG_OK { return; }
    validField := validField || v || Undisplayed(h.field);
    return if validField then MSG_OK else ERR_INVALID_MESSAGE;
  }

  lemma SameGroup(h: Hash, h': Hash)
    requires h.field == h'.field
    ensures Late(h) == Late(h')
  {
  }

  // ---- Bytes and chunks --------------------------------------------------------------

  /** The contexts hold what an outcome says, except for the fee and data texts
      after an error. */
  ghost predicate Holding(o: Outcome, stop: bool, err: nat, h: HashContext, t: TxContext)
    reads h, t, t.amount, t.fee, t.data
  {
    && h.Valid()
    && stop == o.Return?
    && (stop ==> err == o.code)
    && h.View() == o.state.hash
    && (!stop || err == MSG_OK ==> t.Valid() && t.View() == o.state.tx)
    && (stop && err != MSG_OK ==> Scratched(t.View()) == Scratched(o.state.tx))
  }

  /** The decoded length of an encoded value, less its padding. */
  method DataValueLen(valueLen: uint32, p1: char, p2: char) returns (n: uint32)
    ensures n == if valueLen > 2 then (valueLen / 4 * 3 - Pads(p1, p2)) % TWO32 else valueLen / 4 * 3
  {
    n := valueLen / 4 * 3;
    if valueLen > 2 {
      if p1 == '=' {
        n := (n - 1) % TWO32;
      }
      if p2 == '=' {
        n := (n - 1) % TWO32;
      }
    }
  }

  /** The closing quote of a value. */
  method EndString(h: HashContext, t: TxContext, p1: char, p2: char) returns (stop: bool, err: nat)
    requires h.Valid() && t.Valid() && h.status == ProcessingString
    modifies h, t, t.amount, t.fee, t.data
    ensures Holding(InString(t.cfg, old(State(h.View(), t.View())), '"', p1, p2), stop, err, h, t)
  {
    hide ProcessField, CStr, IsData, TxContext.View, TxContext.Valid;
    if IsData(h.View()) {
      h.dataFieldSize := DataValueLen(h.valueLen, p1, p2);
    }
    ghost var ended, tx := h.View(), t.View();
    assert ended == old(h.View()).(dataFieldSize := FieldSize(old(h.View()), p1, p2));
    err := ProcessFieldAt(h, t);
    if err != MSG_OK {
      CloseKeepsStatus(t.cfg, ended, tx);
      return true, err;
    }
    h.status := ExpectingComma;
    return false, MSG_OK;
  }

  /** A character inside a quoted value; the two before it are in the buffer. */
  method StringByte(h: HashContext, t: TxContext, c: char, p1: char, p2: char) returns (stop: bool, err: nat)
    requires h.Valid() && t.Valid() && h.status == ProcessingString
    modifies h, t, t.amount, t.fee, t.data
    ensures Holding(InString(t.cfg, old(State(h.View(), t.View())), c, p1, p2), stop, err, h, t)
  {
    hide ProcessField, CStr, IsData, CloseField, FieldSize;
    if c == '"' {
      stop, err := EndString(h, t, p1, p2);
      return;
    }
    if h.valueLen >= MAX_VALUE_LEN {
      if IsData(h.View()) && h.fieldLen == |DATA_FIELD| {
        h.valueLen := (h.valueLen + 1) % TWO32;
        return false, MSG_OK;
      }
      return true, ERR_INVALID_MESSAGE;
    }
    h.value := h.value[h.valueLen := c];
    h.valueLen := h.valueLen + 1;
    return false, MSG_OK;
  }

  /** A character inside a number. */
  method NumberByte(h: HashContext, t: TxContext, c: char) returns (stop: bool, err: nat)
    requires h.Valid() && t.Valid() && h.status == ProcessingNumber
    modifies h, t, t.amount, t.fee, t.data
    ensures Holding(InNumber(t.cfg, old(State(h.View(), t.View())), c), stop, err, h, t)
  {
    hide ProcessField, CStr;
    if c == '}' {
      h.status := Idle;
      err := ProcessFieldAt(h, t);
      CloseKeepsStatus(t.cfg, old(h.View()).(status := Idle), old(t.View()));
      return true, err;
    }
    if c == ',' {
      err := ProcessFieldAt(h, t);
      if err != MSG_OK {
        CloseKeepsStatus(t.cfg, old(h.View()), old(t.View()));
        return true, err;
      }
      h.status := ExpectingField;
      return false, MSG_OK;
    }
    if h.valueLen >= MAX_VALUE_LEN || !IsDigit(c) {
      return true, ERR_INVALID_MESSAGE;
    }
    h.value := h.value[h.valueLen := c];
    h.valueLen := h.valueLen + 1;
    return false, MSG_OK;
  }

  /** A byte up to the colon behind a field's name. */
  method FieldByte(h: HashContext, t: TxContext, c: char, ghost p1: char, ghost p2: char)
    returns (stop: bool, err: nat)
    requires h.Valid() && t.Valid() && h.status in {Idle, ExpectingField, ProcessingField, ExpectingColon}
    modifies h
    ensures Holding(Step(t.cfg, old(State(h.View(), t.View())), c, p1, p2), stop, err, h, t)
  {
    hide CStr;
    if h.status == Idle {
      if c != '{' {
        return true, ERR_INVALID_MESSAGE;
      }
      h.status := ExpectingField;
    } else if h.status == ExpectingField {
      if c != '"' {
        return true, ERR_INVALID_MESSAGE;
      }
      h.status := ProcessingField;
      h.fieldLen := 0;
    } else if h.status == ProcessingField {
      if c == '"' {
        h.status := ExpectingColon;
        return false, MSG_OK;
      }
      if h.fieldLen >= MAX_FIELD_LEN {
        return true, ERR_INVALID_MESSAGE;
      }
      h.field := h.field[h.fieldLen := c];
      h.fieldLen := h.fieldLen + 1;
    } else {
      if c != ':' {
        return true, ERR_INVALID_MESSAGE;
      }
      h.status := ExpectingValue;
      h.valueLen := 0;
    }
    return false, MSG_OK;
  }

  /** One byte of the transaction. */
  method Byte(h: HashContext, t: TxContext, c: char, p1: char, p2: char) returns (stop: bool, err: nat)
    requires h.Valid() && t.Valid()
    modifies h, t, t.amount, t.fee, t.data
    ensures Holding(Step(t.cfg, old(State(h.View(), t.View())), c, p1, p2), stop, err, h, t)
  {
    hide InString, InNumber, CStr;
    match h.status {
      case Idle | ExpectingField | ProcessingField | ExpectingColon =>
        stop, err := FieldByte(h, t, c, p1, p2);
        return;
      case ExpectingValue =>
        if c == '"' {
          h.status := ProcessingString;
          return false, MSG_OK;
        }
        if !IsDigit(c) {
          return true, ERR_INVALID_MESSAGE;
        }
        h.status := ProcessingNumber;
        h.value := h.value[h.valueLen := c];
        h.valueLen := h.valueLen + 1;
      case ProcessingString =>
        stop, err := StringByte(h, t, c, p1, p2);
        return;
      case ProcessingNumber =>
        stop, err := NumberByte(h, t, c);
        return;
      case ExpectingComma =>
        if c == '}' {
          h.status := Idle;
          return true, MSG_OK;
        }
        if c != ',' {
          return true, ERR_INVALID_MESSAGE;
        }
        h.status := ExpectingField;
    }
    return false, MSG_OK;
  }

  const OFFSET_CDATA: nat := 5

  /** parse_data on the data bytes of an APDU. */
  method ParseChunk(h: HashContext, t: TxContext, apdu: seq<char>, length: uint8) returns (err: nat)
    requires h.Valid() && t.Valid() && OFFSET_CDATA + length <= |apdu|
    modifies h, t, t.amount, t.fee, t.data
    ensures Holding(
      ParseData(t.cfg, old(State(h.View(), t.View())), apdu[OFFSET_CDATA - 2..OFFSET_CDATA],
        apdu[OFFSET_CDATA..][..length]),
      true, err, h, t)
  {
    hide Step, CStr, TxContext.Valid, HashContext.View, TxContext.View;
    ghost var s := apdu[OFFSET_CDATA..][..length];
    if length == 0 && h.status == Idle {
      IdleView(h);
      return ERR_INVALID_MESSAGE;
    }
    IdleView(h);
    ghost var all := Steps(t.cfg, State(h.View(), t.View()), apdu[OFFSET_CDATA - 2..OFFSET_CDATA], s);
    var idx: uint8 := 0;
    assert s[0..] == s;
    while idx < length
      invariant idx <= length && h.Valid() && t.Valid()
      invariant all == Steps(t.cfg, State(h.View(), t.View()),
        apdu[OFFSET_CDATA + idx - 2..OFFSET_CDATA + idx], s[idx..])
    {
      ghost var st, b := State(h.View(), t.View()), apdu[OFFSET_CDATA + idx - 2..OFFSET_CDATA + idx];
      var at := OFFSET_CDATA + idx;
      var c := apdu[at];
      idx := idx + 1;
      var stop;
      stop, err := Byte(h, t, c, apdu[at - 1], apdu[at - 2]);
      assert s[idx - 1..][0] == c && s[idx - 1..][1..] == s[idx..];
      assert Shift(b, c) == apdu[at - 1..at + 1];
      if stop {
        return;
      }
    }
    return MSG_OK;
  }

  lemma IdleView(h: HashContext)
    ensures h.View().status == h.status
  {
  }
}
