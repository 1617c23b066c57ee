/** The three signing handlers on the device's shared state. */
module SessionHandlers {
  import opened Words
  import opened Wrappers
  import opened Numerals
  import opened CStrings
  import opened DecimalText
  import opened TxState
  import opened TxMachine
  import opened TxContexts
  import opened TxParser
  import opened TxEsdt
  import opened TokenScanner
  import opened TokenDisplay
  import opened Session

  class Firmware {
    var app: AppState
    var hasher: Hasher
    var msgLen: uint32
    var tokenLen: uint32
    var address: string
    var shown: string
    var info: Info
    const token: TokenContext
    ghost var scan: Scan
    const h: HashContext
    const t: TxContext

    ghost predicate Valid()
      reads this, h, t, t.amount, t.fee, t.data, token, token.buffer, token.origin, token.ttl
    {
      && h.Valid() && t.Valid() && token.Holding(scan)
      && Separate()
    }

    /** The transaction's buffers are none of the token's. */
    ghost predicate Separate() {
      && t.amount != token.buffer && t.amount != token.origin && t.amount != token.ttl
      && t.fee != token.buffer && t.fee != token.origin && t.fee != token.ttl
      && t.data != token.buffer && t.data != token.origin && t.data != token.ttl
    }

    ghost function View(): Device
      reads this, h, t, t.amount, t.fee, t.data
    {
      Device(app, hasher, msgLen, tokenLen, scan, address, shown, h.View(), t.View(), info)
    }

    /** The state after power-up: main initialises both contexts. */
    constructor (cfg: Config)
      ensures Valid() && app == Waiting && t.cfg == cfg
    {
      hide CStr, TokenContext.Holding, TxContext.Valid, HashContext.View, TxContext.View;
      app, hasher, msgLen, tokenLen, address, shown := Waiting, Absorbing(""), 0, 0, "", "";
      info := Info(false, "", "", 0, "");
      scan := CLEAN;
      h := new HashContext();
      t := new TxContext(cfg);
      token := new TokenContext();
      new;
      InitTxContext(h, t);
      token.Clean();
    }

    lemma HasSizes()
      requires Valid()
      ensures t.Sized()
    {
      hide CStr, TokenContext.Holding;
    }

    /** init_tx_context. */
    method ResetTx()
      requires h.Valid() && t.Sized() && token.Holding(scan)
      requires Separate()
      modifies this`app, this`hasher, h, t, t.amount, t.fee, t.data
      ensures Valid()
      ensures View() == Device(Waiting, Absorbing(""), msgLen, tokenLen, scan, address, shown,
        old(h.View()).(status := Idle), EMPTY, info)
    {
      hide CStr;
      InitTxContext(h, t);
      hasher := Absorbing("");
      app := Waiting;
    }

    /** A buffer would be exceeded: nothing more is said about the device. */
    method Stop()
      requires h.Valid() && t.Sized() && token.Holding(scan)
      requires Separate()
      modifies this`app, this`hasher, h, t, t.amount, t.fee, t.data
      ensures Valid()
      ensures View() == Device(Halted, Undefined, msgLen, tokenLen, scan, address, shown,
        old(h.View()).(status := Idle), EMPTY, info)
    {
      hide CStr, TokenContext.Holding;
      ResetTx();
      app, hasher := Halted, Undefined;
    }

    /** sign_tx_hash and what follows it in handle_sign_tx_hash. */
    method FinishTransaction(env: Env) returns (code: nat, signature: Option<Signature>, reviewed: bool)
      requires Valid()
      modifies this`app, this`hasher, h, t, t.amount, t.fee, t.data
      ensures Valid()
      ensures FinishTx(old(View()), env) == Reply(View(), code, signature, reviewed)
    {
      hide CStr, Session.ShowTransfer, IsEsdtTransfer, TokenContext.Holding, TxContext.Valid;
      hide HashContext.View, TxContext.View;
      HasSizes();
      hasher := hasher.Finish();
      if !env.signs {
        ResetTx();
        return ERR_SIGNATURE_FAILED, None, false;
      }
      signature := Some(OfTx(hasher));
      var transfer := ShowsTransfer();
      if transfer {
        code, reviewed := ShowTransferAmount(signature);
        return;
      }
      app := Waiting;
      return MSG_OK, signature, true;
    }

    /** The token amount of a transfer, in place of the amount. */
    method ShowTransferAmount(ghost signature: Option<Signature>) returns (code: nat, reviewed: bool)
      requires Valid()
      modifies this`app, this`hasher, h, t, t.amount, t.fee, t.data
      ensures Valid()
      ensures Session.ShowTransfer(old(View()), signature) == Reply(View(), code, signature, reviewed)
    {
      hide CStr, EsdtAmount, TokenContext.Holding;
      code := ParseEsdtData(t, info);
      if code == OVERRUN {
        Stop();
        return OVERRUN, false;
      }
      if code != MSG_OK {
        return code, false;
      }
      app := Waiting;
      return MSG_OK, true;
    }

    /** is_esdt_transfer. */
    method ShowsTransfer() returns (b: bool)
      requires Valid()
      ensures b == IsEsdtTransfer(View().tx, info)
    {
      ghost var text := CStr(t.data[..]);
      HoldsCStr(t.data[..], text);
      var n := StrLen(t.data, text);
      assert t.data[..n] == text;
      b := IsEsdtTransfer(EMPTY.(data := t.data[..n], chainId := t.chainId), info);
    }

    /** One chunk of a transaction: hash it, parse it, finish when complete. */
    method HashTransaction(apdu: seq<char>, length: uint8, env: Env)
      returns (code: nat, signature: Option<Signature>, reviewed: bool)
      requires Valid() && OFFSET_CDATA + length <= |apdu|
      modifies this`app, this`hasher, h, t, t.amount, t.fee, t.data
      ensures Valid()
      ensures
        HashTx(t.cfg, old(View()), apdu[OFFSET_CDATA - 2..OFFSET_CDATA], apdu[OFFSET_CDATA..][..length], env)
        == Reply(View(), code, signature, reviewed)
    {
      hide CStr, ParseData, FinishTx, TokenContext.Holding, TxContext.Valid, TxContext.View;
      HasSizes();
      var data := apdu[OFFSET_CDATA..][..length];
      hasher := hasher.Absorb(data);
      code := ParseChunk(h, t, apdu, length);
      if code == OVERRUN {
        Stop();
        return OVERRUN, None, false;
      }
      if code != MSG_OK {
        ResetTx();
        return code, None, false;
      }
      if h.status != Idle {
        return MSG_OK, None, false;
      }
      code, signature, reviewed := FinishTransaction(env);
    }

    /** handle_sign_tx_hash. */
    method HandleSignTx(p1: nat, apdu: seq<char>, length: uint8, env: Env)
      returns (code: nat, signature: Option<Signature>, reviewed: bool)
      requires Valid() && OFFSET_CDATA + length <= |apdu|
      modifies this`app, this`hasher, h, t, t.amount, t.fee, t.data
      ensures Valid()
      ensures
        StepTx(t.cfg, old(View()), p1, apdu[OFFSET_CDATA - 2..OFFSET_CDATA], apdu[OFFSET_CDATA..][..length], env)
        == Reply(View(), code, signature, reviewed)
    {
      hide CStr, HashTx, TokenContext.Holding, TxContext.Valid, HashContext.View, TxContext.View;
      HasSizes();
      if app == Halted {
        return OVERRUN, None, false;
      }
      if p1 == P1_FIRST {
        ResetTx();
        app := SigningTx;
      } else {
        if p1 != P1_MORE {
          return ERR_INVALID_P1, None, false;
        }
        if app != SigningTx {
          return ERR_INVALID_MESSAGE, None, false;
        }
      }
      code, signature, reviewed := HashTransaction(apdu, length, env);
    }

    // ---- Messages ---------------------------------------------------------------------------

    /** Starts the shared hash with the prefix and a decimal length. */
    method StartHash(n: uint32)
      requires Valid()
      modifies this`hasher
      ensures Valid() && View() == old(View()).(hasher := Absorbing(MessagePrefix(n)))
    {
      hide CStr, Print, TokenContext.Holding, TxContext.Valid;
      hasher := Absorbing("");
      hasher := hasher.Absorb(PREPEND);
      var lengthStr := new char[11];
      UintToText(n, lengthStr);
      var len := StrLen(lengthStr, Print(n, 10));
      hasher := hasher.Absorb(lengthStr[..len]);
      assert "" + PREPEND == PREPEND && lengthStr[..len] == Print(n, 10);
    }

    /** A chunk of a message. */
    method HashMessage(data: seq<char>, env: Env) returns (code: nat, signature: Option<Signature>, reviewed: bool)
      requires Valid()
      modifies this`app, this`hasher, this`msgLen
      ensures Valid()
      ensures HashMsg(old(View()), data, env) == Reply(View(), code, signature, reviewed)
    {
      hide CStr, TokenContext.Holding, TxContext.Valid;
      if |data| > msgLen {
        return ERR_MESSAGE_TOO_LONG, None, false;
      }
      hasher := hasher.Absorb(data);
      msgLen := msgLen - |data|;
      if msgLen != 0 {
        return MSG_OK, None, false;
      }
      hasher := hasher.Finish();
      app := Waiting;
      if !env.signs {
        return ERR_SIGNATURE_FAILED, None, false;
      }
      return MSG_OK, Some(OfMessage(hasher)), true;
    }

    /** handle_sign_msg. */
    method HandleSignMsg(p1: nat, data: seq<char>, env: Env)
      returns (code: nat, signature: Option<Signature>, reviewed: bool)
      requires Valid()
      modifies this`app, this`hasher, this`msgLen
      ensures Valid()
      ensures StepMsg(old(View()), p1, data, env) == Reply(View(), code, signature, reviewed)
    {
      hide CStr, HashMsg, MessagePrefix, U4BE, TokenContext.Holding, TxContext.Valid, HashContext.View, TxContext.View;
      if app == Halted {
        return OVERRUN, None, false;
      }
      if p1 == P1_FIRST {
        if |data| < 4 {
          return ERR_INVALID_MESSAGE, None, false;
        }
        app := SigningMessage;
        msgLen := U4BE(data);
        StartHash(msgLen);
        code, signature, reviewed := HashMessage(data[4..], env);
        return;
      }
      if p1 != P1_MORE {
        return ERR_INVALID_P1, None, false;
      }
      if app != SigningMessage {
        return ERR_INVALID_MESSAGE, None, false;
      }
      code, signature, reviewed := HashMessage(data, env);
    }

    // ---- Authentication tokens ----------------------------------------------------------------

    /** clean_token_fields. */
    method CleanToken()
      requires Valid()
      modifies this`tokenLen, this`address, this`shown, this`scan, token, token.buffer, token.origin, token.ttl
      ensures Valid() && View() == Cleaned(old(View()))
    {
      hide CStr, TxContext.Valid;
      token.Clean();
      scan := CLEAN;
      tokenLen := 0;
      address, shown := "", "";
    }

    /** Prepares what is shown, with the code of that step. */
    method ShowToken() returns (r: int)
      requires Valid()
      modifies this`shown
      ensures Valid()
      ensures match TokenDisplayText(scan.origin, scan.ttl)
        case Shown(text) => r == 0 && View() == old(View()).(shown := text)
        case Invalid => r == INVALID_RET_CODE && View() == old(View())
        case BadRequest => r == BAD_REQUEST_RET_CODE && View() == old(View())
        case Overrun(_) => r == OVERRUN_RET_CODE && View() == old(View())
        case TooLong => r == TOO_LONG_RET_CODE && View() == old(View())
    {
      hide CStr, TokenDisplayText, TxContext.Valid, Holds;
      HeldText(token.origin[..], scan.origin);
      var len := StrLen(token.origin, scan.origin);
      assert token.origin[..len] == scan.origin;
      HeldText(token.ttl[..], scan.ttl);
      var ttlLen := StrLen(token.ttl, scan.ttl);
      assert token.ttl[..ttlLen] == scan.ttl;
      var display := new char[DISPLAY_MAX_SIZE];
      ghost var originDisplay;
      r, originDisplay := ComputeTokenDisplay(token.origin[..len], token.ttl[..ttlLen], display);
      if r == 0 {
        ghost var text := TokenDisplayText(scan.origin, scan.ttl).text;
        HeldText(display[..], text);
        len := StrLen(display, text);
        assert display[..len] == text;
        shown := display[..len];
      }
    }

    /** The end of a token session. */
    method FinishTokenSession(env: Env) returns (code: nat, signature: Option<Signature>, reviewed: bool)
      requires Valid()
      modifies this, h, t, t.amount, t.fee, t.data, token, token.buffer, token.origin, token.ttl
      ensures Valid()
      ensures FinishToken(old(View()), env) == Reply(View(), code, signature, reviewed)
    {
      hide CStr, TokenDisplayText, TxContext.Valid, TokenContext.Holding, HashContext.View, TxContext.View;
      hasher := hasher.Finish();
      if !env.signs {
        CleanToken();
        app := Waiting;
        return ERR_SIGNATURE_FAILED, None, false;
      }
      signature := Some(OfToken(hasher));
      var r := ShowToken();
      if r == OVERRUN_RET_CODE || r == TOO_LONG_RET_CODE {
        StopToken();
        return OVERRUN, signature, false;
      }
      if r == BAD_REQUEST_RET_CODE {
        return ERR_INVALID_MESSAGE, signature, false;
      }
      app := Waiting;
      return MSG_OK, signature, true;
    }

    method StopToken()
      requires Valid()
      modifies this`app, this`hasher, h, t, t.amount, t.fee, t.data
      ensures Valid() && View() == Halt(old(View()))
    {
      hide CStr, TokenContext.Holding;
      Stop();
    }

    /** A chunk of a token. */
    method HashTokenChunk(data: seq<char>, env: Env) returns (code: nat, signature: Option<Signature>, reviewed: bool)
      requires Valid()
      modifies this, h, t, t.amount, t.fee, t.data, token, token.buffer, token.origin, token.ttl
      ensures Valid()
      ensures HashToken(old(View()), data, env) == Reply(View(), code, signature, reviewed)
    {
      hide CStr, FinishToken, TxContext.Valid, TokenContext.Holding;
      if |data| > tokenLen {
        return ERR_MESSAGE_TOO_LONG, None, false;
      }
      hasher := hasher.Absorb(data);
      tokenLen := tokenLen - |data|;
      if tokenLen != 0 {
        return MSG_OK, None, false;
      }
      code, signature, reviewed := FinishTokenSession(env);
    }

    /** The first chunk of a token. */
    method FirstToken(data: seq<char>, env: Env) returns (code: nat, signature: Option<Signature>, reviewed: bool)
      requires Valid() && app != Halted
      modifies this, h, t, t.amount, t.fee, t.data, token, token.buffer, token.origin, token.ttl
      ensures Valid()
      ensures StepToken(old(View()), P1_FIRST, data, env) == Reply(View(), code, signature, reviewed)
    {
      hide CStr, HashToken, Opened, TokenContext.Holding, TxContext.Valid;
      CleanToken();
      if |data| < 12 {
        return ERR_INVALID_MESSAGE, None, false;
      }
      if env.address.None? {
        return ERR_INVALID_ARGUMENTS, None, false;
      }
      OpenToken(data, env.address.value);
      code, signature, reviewed := HashTokenChunk(data[12..], env);
    }

    /** Opens a token session: the indexes and the length have been read. */
    method OpenToken(data: seq<char>, a: string)
      requires Valid() && scan == CLEAN && |data| >= 12
      modifies this, token, token.buffer, token.origin, token.ttl
      ensures Valid() && View() == Opened(old(View()), data, a)
    {
      hide CStr, ScanAll, MessagePrefix, U4BE, TokenContext.Holding, TxContext.Valid, Preview;
      hide HashContext.View, TxContext.View;
      ScanFirst(data[12..]);
      StartSession(data, a);
    }

    method StartSession(data: seq<char>, a: string)
      requires Valid() && |data| >= 12
      modifies this`app, this`tokenLen, this`address, this`shown, this`hasher
      ensures Valid() && View() == Opened(old(View()), data, a).(scan := scan)
    {
      hide CStr, ScanAll, MessagePrefix, U4BE, TokenContext.Holding, TxContext.Valid, Preview;
      hide HashContext.View, TxContext.View;
      var n := U4BE(data[8..]);
      StartHash((n + BECH32_ADDRESS_LEN) % TWO32);
      hasher := hasher.Absorb(a);
      app, tokenLen, address, shown := SigningMessage, n, a, Preview(data[12..]);
    }

    /** The first chunk, and no other, is scanned for origin and lifetime. */
    method ScanFirst(data: seq<char>)
      requires Valid()
      modifies this`scan, token, token.buffer, token.origin, token.ttl
      ensures Valid() && View() == old(View()).(scan := ScanAll(old(scan), data))
    {
      hide CStr, ScanAll, TokenContext.Holding, TxContext.Valid, HashContext.View, TxContext.View;
      token.HandleData(data, scan);
      scan := ScanAll(scan, data);
    }

    /** handle_auth_token. */
    method HandleAuthToken(p1: nat, data: seq<char>, env: Env)
      returns (code: nat, signature: Option<Signature>, reviewed: bool)
      requires Valid()
      modifies this, h, t, t.amount, t.fee, t.data, token, token.buffer, token.origin, token.ttl
      ensures Valid()
      ensures StepToken(old(View()), p1, data, env) == Reply(View(), code, signature, reviewed)
    {
      hide CStr, HashToken, ScanAll, Print, U4BE, TokenContext.Holding, TxContext.Valid;
      if app == Halted {
        return OVERRUN, None, false;
      }
      if p1 == P1_FIRST {
        code, signature, reviewed := FirstToken(data, env);
        return;
      }
      if p1 != P1_MORE {
        return ERR_INVALID_P1, None, false;
      }
      if app != SigningMessage {
        return ERR_INVALID_MESSAGE, None, false;
      }
      code, signature, reviewed := HashTokenChunk(data, env);
    }
  }
}
