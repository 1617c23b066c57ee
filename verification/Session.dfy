/** The signing sessions of the device: one application state and one hash
    shared by transactions, messages and authentication tokens. */
module Session {
  import opened Words
  import opened Wrappers
  import opened Numerals
  import opened CStrings
  import opened TxState
  import opened TxMachine
  import opened TxChunks
  import opened TxEsdt
  import opened TokenScanner
  import opened TokenDisplay

  const P1_FIRST: nat := 0x00
  const P1_MORE: nat := 0x80

  const ERR_INVALID_ARGUMENTS: nat := 0x6E01
  const ERR_INVALID_P1: nat := 0x6E03
  const ERR_MESSAGE_TOO_LONG: nat := 0x6E04
  const ERR_SIGNATURE_FAILED: nat := 0x6E10

  const PREPEND: string := "\U{17}Elrond Signed Message:\n"
  const BECH32_ADDRESS_LEN: nat := 62

  // ---- State ---------------------------------------------------------------------------------

  /** The firmware's states, and one that is not its own: a buffer has been
      exceeded, or a number, and nothing more is said about the device. */
  datatype AppState = Waiting | SigningMessage | SigningTx | Halted

  /** The shared Keccak context, as what it has absorbed. Absorbing after the
      digest was taken has no defined meaning. */
  datatype Hasher = Absorbing(bytes: string) | Finished(bytes: string) | Undefined {
    function Absorb(s: string): Hasher {
      if Absorbing? then Absorbing(bytes + s) else Undefined
    }

    function Finish(): Hasher {
      if Absorbing? then Finished(bytes) else Undefined
    }
  }

  datatype Device = Device(
    app: AppState,
    hasher: Hasher,
    msgLen: uint32,
    tokenLen: uint32,
    scan: Scan,
    address: string,
    shown: string,
    hash: Hash,
    tx: Tx,
    info: Info)

  // ---- Commands and replies --------------------------------------------------------------------

  datatype Command =
    | SignTx(p1: nat, header: back, data: string)
    | SignMsg(p1: nat, data: string)
    | SignToken(p1: nat, data: string)
    | ProvideInfo(info: Info)
    | OtherCommand

  /** What a step depends on besides the command: whether key derivation and
      signing succeed, and the address of the requested key. */
  datatype Env = Env(signs: bool, address: Option<string>)

  datatype Signature = OfTx(hash: Hasher) | OfMessage(hash: Hasher) | OfToken(hash: Hasher)

  /** The state after a command, its status word, the signature computed by it
      and whether that signature was put up for approval. */
  datatype Reply = Reply(device: Device, code: nat, signature: Option<Signature>, reviewed: bool)

  function Answer(d: Device, code: nat): Reply {
    Reply(d, code, None, false)
  }

  // ---- Transactions -----------------------------------------------------------------------------

  /** init_tx_context. */
  function Reset(d: Device): Device {
    d.(app := Waiting, hasher := Absorbing(""), hash := d.hash.(status := Idle), tx := EMPTY)
  }

  /** The device once a buffer or a number has been exceeded. */
  function Halt(d: Device): Device {
    Reset(d).(app := Halted, hasher := Undefined)
  }

  /** The signed transaction is a transfer: put its token amount on the screen. */
  ghost function ShowTransfer(d: Device, signature: Option<Signature>): Reply {
    var esdt := EsdtAmount(d.tx.esdtValue, d.info);
    var shown := d.(tx := d.tx.(amount := esdt.1));
    if esdt.0 == OVERRUN then Reply(Halt(d), OVERRUN, signature, false)
    else if esdt.0 != MSG_OK then Reply(shown, esdt.0, signature, false)
    else Reply(shown.(app := Waiting), MSG_OK, signature, true)
  }

  /** The transaction is complete: sign it and prepare what is shown. */
  ghost function FinishTx(d0: Device, env: Env): Reply {
    var d := d0.(hasher := d0.hasher.Finish());
    if !env.signs then Answer(Reset(d), ERR_SIGNATURE_FAILED) else
      var signature := Some(OfTx(d.hasher));
      if !IsEsdtTransfer(d.tx, d.info) then Reply(d.(app := Waiting), MSG_OK, signature, true)
      else ShowTransfer(d, signature)
  }

  ghost function HashTx(cfg: Config, d: Device, b: back, data: string, env: Env): Reply {
    var o := ParseData(cfg, State(d.hash, d.tx), b, data);
    var d' := d.(hasher := d.hasher.Absorb(data), hash := o.state.hash, tx := o.state.tx);
    if o.code == OVERRUN then Answer(Halt(d'), OVERRUN)
    else if o.code != MSG_OK then Answer(Reset(d'), o.code)
    else if d'.hash.status != Idle then Answer(d', MSG_OK)
    else FinishTx(d', env)
  }

  /** handle_sign_tx_hash. */
  ghost function StepTx(cfg: Config, d: Device, p1: nat, b: back, data: string, env: Env): Reply {
    if d.app == Halted then Answer(d, OVERRUN)
    else if p1 == P1_FIRST then HashTx(cfg, Reset(d).(app := SigningTx), b, data, env)
    else if p1 != P1_MORE then Answer(d, ERR_INVALID_P1)
    else if d.app != SigningTx then Answer(d, ERR_INVALID_MESSAGE)
    else HashTx(cfg, d, b, data, env)
  }

  // ---- Messages ---------------------------------------------------------------------------------

  /** A big-endian 32-bit number. */
  function U4BE(s: string): uint32
    requires |s| >= 4
  {
    (((s[0] as int * 256 + s[1] as int) * 256 + s[2] as int) * 256 + s[3] as int) % TWO32
  }

  function HashMsg(d: Device, data: string, env: Env): Reply {
    if |data| > d.msgLen then Answer(d, ERR_MESSAGE_TOO_LONG) else
      var d' := d.(hasher := d.hasher.Absorb(data), msgLen := d.msgLen - |data|);
      if d'.msgLen != 0 then Answer(d', MSG_OK) else
        var done := d'.(hasher := d'.hasher.Finish(), app := Waiting);
        if !env.signs then Answer(done, ERR_SIGNATURE_FAILED)
        else Reply(done, MSG_OK, Some(OfMessage(done.hasher)), true)
  }

  /** The start of what is hashed for a message of n bytes. */
  function MessagePrefix(n: uint32): string {
    PREPEND + Print(n, 10)
  }

  /** handle_sign_msg. */
  function StepMsg(d: Device, p1: nat, data: string, env: Env): Reply {
    if d.app == Halted then Answer(d, OVERRUN)
    else if p1 == P1_FIRST then
      if |data| < 4 then Answer(d, ERR_INVALID_MESSAGE) else
        var n := U4BE(data);
        HashMsg(d.(app := SigningMessage, msgLen := n, hasher := Absorbing(MessagePrefix(n))), data[4..], env)
    else if p1 != P1_MORE then Answer(d, ERR_INVALID_P1)
    else if d.app != SigningMessage then Answer(d, ERR_INVALID_MESSAGE)
    else HashMsg(d, data, env)
  }

  // ---- Authentication tokens --------------------------------------------------------------------

  /** The token is complete: sign it and prepare what is shown. */
  ghost function FinishToken(d: Device, env: Env): Reply {
    var done := d.(hasher := d.hasher.Finish());
    if !env.signs then Answer(Cleaned(done).(app := Waiting), ERR_SIGNATURE_FAILED) else
      var signature := Some(OfToken(done.hasher));
      match TokenDisplayText(done.scan.origin, done.scan.ttl)
      case Shown(text) => Reply(done.(app := Waiting, shown := text), MSG_OK, signature, true)
      case Invalid => Reply(done.(app := Waiting), MSG_OK, signature, true)
      case BadRequest => Reply(done, ERR_INVALID_MESSAGE, signature, false)
      case Overrun(_) => Reply(Halt(done), OVERRUN, signature, false)
      case TooLong => Reply(Halt(done), OVERRUN, signature, false)
  }

  ghost function HashToken(d: Device, data: string, env: Env): Reply {
    if |data| > d.tokenLen then Answer(d, ERR_MESSAGE_TOO_LONG) else
      var d' := d.(hasher := d.hasher.Absorb(data), tokenLen := d.tokenLen - |data|);
      if d'.tokenLen != 0 then Answer(d', MSG_OK) else FinishToken(d', env)
  }

  /** clean_token_fields. */
  function Cleaned(d: Device): Device {
    d.(tokenLen := 0, scan := CLEAN, address := "", shown := "")
  }

  /** update_token_display_data: what would be shown if no origin were found, the
      first chunk or its beginning. */
  function Preview(data: string): string {
    CStr(if |data| < DISPLAY_MAX_SIZE then data else data[..DISPLAY_MAX_SIZE - 3] + "...")
  }

  /** The start of what is hashed for a token of n bytes: the length covers the
      address that precedes it. */
  function TokenPrefix(n: uint32, address: string): string {
    MessagePrefix((n + BECH32_ADDRESS_LEN) % TWO32) + address
  }

  /** The device once a first chunk has opened a token session. */
  function Opened(d: Device, data: string, address: string): Device
    requires |data| >= 12
  {
    var n := U4BE(data[8..]);
    d.(
      app := SigningMessage,
      tokenLen := n,
      scan := ScanAll(CLEAN, data[12..]),
      address := address,
      shown := Preview(data[12..]),
      hasher := Absorbing(TokenPrefix(n, address)))
  }

  /** handle_auth_token. */
  ghost function StepToken(d: Device, p1: nat, data: string, env: Env): Reply {
    if d.app == Halted then Answer(d, OVERRUN)
    else if p1 == P1_FIRST then
      if |data| < 12 then Answer(Cleaned(d), ERR_INVALID_MESSAGE)
      else if env.address.None? then Answer(Cleaned(d), ERR_INVALID_ARGUMENTS)
      else HashToken(Opened(Cleaned(d), data, env.address.value), data[12..], env)
    else if p1 != P1_MORE then Answer(d, ERR_INVALID_P1)
    else if d.app != SigningMessage then Answer(d, ERR_INVALID_MESSAGE)
    else HashToken(d, data, env)
  }

  // ---- Runs ---------------------------------------------------------------------------------------

  ghost function Handle(cfg: Config, d: Device, c: Command, env: Env): Reply {
    match c
    case SignTx(p1, b, data) => StepTx(cfg, d, p1, b, data, env)
    case SignMsg(p1, data) => StepMsg(d, p1, data, env)
    case SignToken(p1, data) => StepToken(d, p1, data, env)
    case ProvideInfo(info) => Answer(d.(info := info), MSG_OK)
    case OtherCommand => Answer(d, MSG_OK)
  }

  datatype Event = Event(command: Command, env: Env)

  function Front(events: seq<Event>): seq<Event>
    requires events != []
  {
    events[..|events| - 1]
  }

  function Last(events: seq<Event>): Event
    requires events != []
  {
    events[|events| - 1]
  }

  /** The device after a run of arbitrarily interleaved commands. */
  ghost function DeviceAfter(cfg: Config, d: Device, events: seq<Event>): Device
    decreases |events|, 1
  {
    if events == [] then d else LastReply(cfg, d, events).device
  }

  /** The reply to the last command of a run. */
  ghost function LastReply(cfg: Config, d: Device, events: seq<Event>): Reply
    requires events != []
    decreases |events|, 0
  {
    Handle(cfg, DeviceAfter(cfg, d, Front(events)), Last(events).command, Last(events).env)
  }

  predicate StartsTx(c: Command) {
    c.SignTx? && c.p1 == P1_FIRST
  }

  /** The transaction chunks since the last first one. */
  function Chunks(events: seq<Event>): seq<Chunk> {
    if events == [] then [] else
      var c := Last(events).command;
      if !c.SignTx? then Chunks(Front(events))
      else if c.p1 == P1_FIRST then [Chunk(c.header, c.data)]
      else if c.p1 == P1_MORE then Chunks(Front(events)) + [Chunk(c.header, c.data)]
      else Chunks(Front(events))
  }

  /** The parser's field context at the last first chunk. */
  ghost function StartHash(cfg: Config, d: Device, events: seq<Event>): Hash {
    if events == [] then d.hash.(status := Idle)
    else if StartsTx(Last(events).command) then DeviceAfter(cfg, d, Front(events)).hash.(status := Idle)
    else StartHash(cfg, d, Front(events))
  }

  /** The token information given last. */
  function InfoAt(d: Device, events: seq<Event>): Info {
    if events == [] then d.info
    else if Last(events).command.ProvideInfo? then Last(events).command.info
    else InfoAt(d, Front(events))
  }

  /** The chunks are a complete transaction whose token amount is not shown. */
  ghost predicate Unshown(cfg: Config, start: Hash, chunks: seq<Chunk>, info: Info) {
    && chunks != []
    && var o := Feed(cfg, State(start, EMPTY), chunks);
    && o.code == MSG_OK && o.state.hash.status == Idle && !AmountShown(o.state.tx, info)
  }

  /** Since the last first chunk, the chunks sent so far were at some point a
      complete transaction whose token amount is not shown. */
  ghost predicate UnshownAmount(cfg: Config, d: Device, events: seq<Event>) {
    events != [] &&
    var e := Last(events);
    || (e.command.SignTx? && (e.command.p1 == P1_FIRST || e.command.p1 == P1_MORE) && e.env.signs
        && Unshown(cfg, StartHash(cfg, d, events), Chunks(events), InfoAt(d, events)))
    || (!StartsTx(e.command) && UnshownAmount(cfg, d, Front(events)))
  }
}
