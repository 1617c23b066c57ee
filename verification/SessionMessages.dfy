/** What every run keeps of the messages and authentication tokens it signs. */
module SessionMessages {
  import opened Words
  import opened Wrappers
  import opened TxState
  import opened TxMachine
  import opened TxEsdt
  import opened TokenScanner
  import opened TokenDisplay
  import opened Session
  import opened SessionSafety

  // ---- Messages -----------------------------------------------------------------------------------

  /** A command that starts a message session. */
  predicate StartsMsg(c: Command) {
    c.SignMsg? && c.p1 == P1_FIRST && |c.data| >= 4
  }

  /** A command that starts a token session. */
  predicate StartsToken(e: Event) {
    e.command.SignToken? && e.command.p1 == P1_FIRST && |e.command.data| >= 12 && e.env.address.Some?
  }

  /** A token command that takes effect on the shared hash: it starts a session, or
      its bytes fit into an open one. */
  predicate Touches(d: Device, e: Event) {
    || StartsToken(e)
    || (e.command.SignToken? && e.command.p1 == P1_MORE && d.app == SigningMessage
        && |e.command.data| <= d.tokenLen && (e.command.data != "" || d.tokenLen == 0))
  }

  /** Token commands never change the length a message has left. Those that start
      no session leave the hash of an open session as it is exactly when they
      take no effect, and then change nothing but the token's own fields. */
  lemma TokenTouches(cfg: Config, d: Device, e: Event)
    requires e.command.SignToken? && d.app != Halted && d.hasher.Absorbing?
    ensures
      var d' := Handle(cfg, d, e.command, e.env).device;
      && d'.msgLen == d.msgLen
      && (!Touches(d, e) ==> d'.hasher == d.hasher && d'.app == d.app)
      && (!StartsToken(e) && Touches(d, e) ==> d'.hasher != d.hasher)
  {
    hide TokenPrefix, TokenDisplayText, U4BE, ScanAll, Preview;
  }

  lemma TokenUntouched(cfg: Config, d: Device, e: Event)
    requires e.command.SignToken? && !Touches(d, e)
    ensures
      var d' := Handle(cfg, d, e.command, e.env).device;
      d'.app == d.app && d'.msgLen == d.msgLen && (d.hasher.Absorbing? ==> d'.hasher == d.hasher)
  {
    hide TokenPrefix, TokenDisplayText, U4BE, ScanAll, Preview;
  }

  /** Since the last start of a message session no token command took effect. */
  ghost predicate Undisturbed(cfg: Config, d: Device, events: seq<Event>) {
    events != [] ==>
      || StartsMsg(Last(events).command)
      || (!Touches(DeviceAfter(cfg, d, Front(events)), Last(events)) && Undisturbed(cfg, d, Front(events)))
  }

  /** The length the last message session declared. */
  function DeclaredMsg(events: seq<Event>): uint32 {
    if events == [] then 0
    else if StartsMsg(Last(events).command) then U4BE(Last(events).command.data)
    else DeclaredMsg(Front(events))
  }

  /** Its chunks that were accepted: those that did not exceed what was left. */
  ghost function AcceptedMsg(cfg: Config, d: Device, events: seq<Event>): string {
    if events == [] then "" else
      var c, n := Last(events).command, DeclaredMsg(events);
      if StartsMsg(c) then (if |c.data| - 4 <= n then c.data[4..] else "")
      else
        var sofar := AcceptedMsg(cfg, d, Front(events));
        if c.SignMsg? && c.p1 == P1_MORE && DeviceAfter(cfg, d, Front(events)).app == SigningMessage
          && |sofar| + |c.data| <= n
        then sofar + c.data else sofar
  }

  ghost predicate MsgPending(d: Device, n: uint32, accepted: string) {
    && |accepted| + d.msgLen == n
    && d.hasher == Absorbing(MessagePrefix(n) + accepted)
  }

  /** One chunk of a message: rejected if it is too long, otherwise hashed; the
      last one is signed. */
  lemma HashMsgOutcome(d: Device, data: string, env: Env, n: uint32, accepted: string)
    requires d.app == SigningMessage && MsgPending(d, n, accepted)
    ensures
      var r := HashMsg(d, data, env);
      var now := if |accepted| + |data| <= n then accepted + data else accepted;
      && (r.device.app == SigningMessage ==> MsgPending(r.device, n, now))
      && (r.signature.Some? <==> |accepted| + |data| == n && env.signs)
      && (r.signature.Some? ==> r.signature == Some(OfMessage(Finished(MessagePrefix(n) + now))) && |now| == n)
      && (r.code == ERR_MESSAGE_TOO_LONG <==> |accepted| + |data| > n)
  {
    hide MessagePrefix;
    assert MessagePrefix(n) + accepted + data == MessagePrefix(n) + (accepted + data);
  }

  /** In every run without interleaved token commands: accepted bytes and the
      remaining length make up the declared length, and the hash holds the
      prefix, the exact decimal length and the accepted bytes. */
  lemma {:induction false} MsgPendingAlways(cfg: Config, d: Device, events: seq<Event>)
    requires d.app == Waiting
    ensures DeviceAfter(cfg, d, events).app == SigningMessage && Undisturbed(cfg, d, events) ==>
      MsgPending(DeviceAfter(cfg, d, events), DeclaredMsg(events), AcceptedMsg(cfg, d, events))
    decreases |events|
  {
    hide StepTx, StepToken, MsgPending, HashMsg, MessagePrefix;
    if events != [] {
      var before, c, env := Front(events), Last(events).command, Last(events).env;
      var d' := DeviceAfter(cfg, d, before);
      MsgPendingAlways(cfg, d, before);
      if d'.app == Halted {
        StaysHalted(cfg, d', c, env);
      } else if StartsMsg(c) {
        MsgStart(d', c.data, env);
      } else if c.SignToken? && Undisturbed(cfg, d, events) {
        TokenUntouched(cfg, d', Last(events));
        assert LastReply(cfg, d, events) == Handle(cfg, d', c, env);
        if d'.app == SigningMessage {
          PendingAbsorbs(d', DeclaredMsg(before), AcceptedMsg(cfg, d, before));
          SameMsg(d', DeviceAfter(cfg, d, events), DeclaredMsg(before), AcceptedMsg(cfg, d, before));
        }
      } else if c.SignMsg? && c.p1 == P1_MORE && d'.app == SigningMessage && Undisturbed(cfg, d, events) {
        HashMsgOutcome(d', c.data, env, DeclaredMsg(before), AcceptedMsg(cfg, d, before));
      } else if c.SignTx? {
        TxLeavesMessages(cfg, d', c.p1, c.header, c.data, env);
      } else if c.ProvideInfo? {
        SameMsg(d', d'.(info := c.info), DeclaredMsg(before), AcceptedMsg(cfg, d, before));
      }
    }
  }

  lemma SameMsg(d: Device, d': Device, n: uint32, accepted: string)
    requires d'.hasher == d.hasher && d'.msgLen == d.msgLen
    ensures MsgPending(d, n, accepted) == MsgPending(d', n, accepted)
  {
  }

  lemma PendingAbsorbs(d: Device, n: uint32, accepted: string)
    requires MsgPending(d, n, accepted)
    ensures d.hasher.Absorbing?
  {
  }

  lemma MsgStart(d: Device, data: string, env: Env)
    requires |data| >= 4 && d.app != Halted
    ensures
      var r := StepMsg(d, P1_FIRST, data, env);
      var n := U4BE(data);
      var now := if |data| - 4 <= n then data[4..] else "";
      && (r.device.app == SigningMessage ==> MsgPending(r.device, n, now))
      && (r.signature.Some? <==> |data| - 4 == n && env.signs)
      && (r.signature.Some? ==> r.signature == Some(OfMessage(Finished(MessagePrefix(n) + now))) && |now| == n)
  {
    hide MessagePrefix, U4BE, HashMsg;
    var n := U4BE(data);
    assert MessagePrefix(n) + "" == MessagePrefix(n);
    HashMsgOutcome(d.(app := SigningMessage, msgLen := n, hasher := Absorbing(MessagePrefix(n))),
      data[4..], env, n, "");
    assert "" + data[4..] == data[4..];
  }

  /** A transaction command leaves no message session open that it changed. */
  lemma TxLeavesMessages(cfg: Config, d: Device, p1: nat, b: back, data: string, env: Env)
    ensures
      var r := StepTx(cfg, d, p1, b, data, env);
      r.device.app == SigningMessage ==> r.device == d
  {
    hide ParseData, IsEsdtTransfer, EsdtAmount;
  }

  /** In every such run, a message command signs exactly when its chunk is
      accepted and completes the declared length, and then signs the prefix, the
      exact decimal length and all accepted bytes. */
  lemma MessageSigned(cfg: Config, d: Device, events: seq<Event>)
    requires d.app == Waiting && events != [] && Undisturbed(cfg, d, events) && Last(events).command.SignMsg?
    ensures
      var r, c := LastReply(cfg, d, events), Last(events).command;
      var before := Front(events);
      var now := AcceptedMsg(cfg, d, events);
      var app := DeviceAfter(cfg, d, before).app;
      var taken := app != Halted && (StartsMsg(c) || (c.p1 == P1_MORE && app == SigningMessage));
      var fits := if StartsMsg(c) then |c.data| - 4 <= DeclaredMsg(events)
        else |AcceptedMsg(cfg, d, before)| + |c.data| <= DeclaredMsg(events);
      && (r.signature.Some? <==> taken && fits && |now| == DeclaredMsg(events) && Last(events).env.signs)
      && (r.signature.Some? ==> r.signature == Some(OfMessage(Finished(MessagePrefix(DeclaredMsg(events)) + now))))
  {
    hide StepTx, StepToken, HashMsg, MessagePrefix, MsgPending;
    var before, c, env := Front(events), Last(events).command, Last(events).env;
    var d' := DeviceAfter(cfg, d, before);
    MsgPendingAlways(cfg, d, before);
    if d'.app == Halted {
      StaysHalted(cfg, d', c, env);
    } else if StartsMsg(c) {
      MsgStart(d', c.data, env);
    } else if c.p1 == P1_MORE && d'.app == SigningMessage {
      HashMsgOutcome(d', c.data, env, DeclaredMsg(before), AcceptedMsg(cfg, d, before));
    }
  }

  // ---- Tokens -------------------------------------------------------------------------------------

  /** Since the last start of a token session no message command came and no
      first token command that failed. */
  predicate TokenUndisturbed(events: seq<Event>) {
    events != [] ==>
      var c := Last(events).command;
      || StartsToken(Last(events))
      || (!c.SignMsg? && !(c.SignToken? && c.p1 == P1_FIRST) && TokenUndisturbed(Front(events)))
  }

  function DeclaredToken(events: seq<Event>): uint32 {
    if events == [] then 0
    else if StartsToken(Last(events)) then U4BE(Last(events).command.data[8..])
    else DeclaredToken(Front(events))
  }

  function TokenAddress(events: seq<Event>): string {
    if events == [] then ""
    else if StartsToken(Last(events)) then Last(events).env.address.value
    else TokenAddress(Front(events))
  }

  /** What the first chunk of the last token session holds of the token. */
  function FirstPart(events: seq<Event>): string {
    if events == [] then ""
    else if StartsToken(Last(events)) then Last(events).command.data[12..]
    else FirstPart(Front(events))
  }

  ghost function AcceptedToken(cfg: Config, d: Device, events: seq<Event>): string {
    if events == [] then "" else
      var c, n := Last(events).command, DeclaredToken(events);
      if StartsToken(Last(events)) then (if |c.data| - 12 <= n then c.data[12..] else "")
      else
        var sofar := AcceptedToken(cfg, d, Front(events));
        if c.SignToken? && c.p1 == P1_MORE && DeviceAfter(cfg, d, Front(events)).app == SigningMessage
          && |sofar| + |c.data| <= n
        then sofar + c.data else sofar
  }

  /** The outcome for a token whose first part has been scanned. */
  ghost function DisplayFor(first: string): Display {
    TokenDisplayText(ScanAll(CLEAN, first).origin, ScanAll(CLEAN, first).ttl)
  }

  /** What is shown for it. */
  ghost function ShownFor(first: string): string {
    match DisplayFor(first)
    case Shown(text) => text
    case _ => Preview(first)
  }

  /** The origin is refused or written past its buffer, or the lifetime overflows. */
  ghost predicate KeptBack(first: string) {
    DisplayFor(first).BadRequest? || DisplayFor(first).Overrun? || DisplayFor(first).TooLong?
  }

  ghost predicate TokenPending(d: Device, n: uint32, address: string, accepted: string, first: string) {
    && |accepted| + d.tokenLen == n
    && d.hasher == Absorbing(TokenPrefix(n, address) + accepted)
    && d.scan == ScanAll(CLEAN, first)
    && d.shown == Preview(first)
  }

  /** The whole token has been hashed and its origin refused; the session is
      still open. */
  ghost predicate Stuck(d: Device, n: uint32, accepted: string, first: string) {
    && |accepted| == n && d.tokenLen == 0
    && !d.hasher.Absorbing?
    && d.scan == ScanAll(CLEAN, first)
    && DisplayFor(first).BadRequest?
  }

  ghost predicate TokenOpen(d: Device, n: uint32, address: string, accepted: string, first: string) {
    TokenPending(d, n, address, accepted, first) || Stuck(d, n, accepted, first)
  }

  /** A signature over the whole token, put up for approval unless the origin is
      kept back. */
  ghost predicate WholeSigned(r: Reply, n: uint32, address: string, accepted: string, first: string) {
    && r.signature == Some(OfToken(Finished(TokenPrefix(n, address) + accepted))) && |accepted| == n
    && (r.reviewed <==> !KeptBack(first))
    && (r.reviewed ==> r.device.app == Waiting && r.device.shown == ShownFor(first))
  }

  /** A signature of a hash that has been used up; it is not put up for approval. */
  ghost predicate NothingSigned(r: Reply, n: uint32, accepted: string, first: string) {
    && r.signature == Some(OfToken(Undefined)) && |accepted| == n
    && !r.reviewed && KeptBack(first)
  }

  /** One chunk of a token. */
  lemma HashTokenOutcome(d: Device, data: string, env: Env, n: uint32, address: string, accepted: string,
                         first: string)
    requires d.app == SigningMessage && TokenPending(d, n, address, accepted, first)
    ensures
      var r := HashToken(d, data, env);
      var now := if |accepted| + |data| <= n then accepted + data else accepted;
      && (r.device.app == SigningMessage ==> TokenOpen(r.device, n, address, now, first))
      && (r.signature.Some? ==> WholeSigned(r, n, address, now, first))
      && (r.signature.Some? <==> |accepted| + |data| == n && env.signs)
  {
    hide TokenPrefix, TokenDisplayText, ScanAll, Preview;
    assert TokenPrefix(n, address) + accepted + data == TokenPrefix(n, address) + (accepted + data);
  }

  /** After a refused origin nothing but an empty chunk is accepted, and that is
      refused again. */
  lemma StuckOutcome(d: Device, data: string, env: Env, n: uint32, accepted: string, first: string)
    requires d.app == SigningMessage && Stuck(d, n, accepted, first)
    ensures
      var r := HashToken(d, data, env);
      && (r.device.app == SigningMessage ==> Stuck(r.device, n, accepted, first))
      && (r.signature.Some? ==> NothingSigned(r, n, accepted, first))
      && (r.signature.Some? <==> data == "" && env.signs)
  {
    hide TokenDisplayText, ScanAll;
  }

  lemma TokenStart(d: Device, data: string, env: Env)
    requires |data| >= 12 && env.address.Some? && d.app != Halted
    ensures
      var r := StepToken(d, P1_FIRST, data, env);
      var n, a := U4BE(data[8..]), env.address.value;
      var now := if |data| - 12 <= n then data[12..] else "";
      && (r.device.app == SigningMessage ==> TokenOpen(r.device, n, a, now, data[12..]))
      && (r.signature.Some? ==> WholeSigned(r, n, a, now, data[12..]))
      && (r.signature.Some? <==> |data| - 12 == n && env.signs)
  {
    hide TokenPrefix, TokenDisplayText, U4BE, HashToken, ScanAll, Preview, TokenOpen, WholeSigned;
    var n, a, first := U4BE(data[8..]), env.address.value, data[12..];
    assert TokenPrefix(n, a) + "" == TokenPrefix(n, a);
    HashTokenOutcome(Opened(Cleaned(d), data, a), first, env, n, a, "", first);
    assert "" + first == first;
  }

  lemma SameToken(d: Device, d': Device, n: uint32, address: string, accepted: string, first: string)
    requires d'.hasher == d.hasher && d'.tokenLen == d.tokenLen && d'.scan == d.scan && d'.shown == d.shown
    ensures TokenOpen(d, n, address, accepted, first) == TokenOpen(d', n, address, accepted, first)
  {
    hide TokenDisplayText, ScanAll, TokenPrefix;
  }

  /** A further chunk of an open token session. */
  lemma NextTokenChunk(d: Device, data: string, env: Env, n: uint32, address: string, accepted: string, first: string)
    requires d.app == SigningMessage && TokenOpen(d, n, address, accepted, first)
    ensures
      var r := HashToken(d, data, env);
      var now := if |accepted| + |data| <= n then accepted + data else accepted;
      && (r.device.app == SigningMessage ==> TokenOpen(r.device, n, address, now, first))
      && (r.signature.Some? ==>
          if d.hasher.Absorbing? then WholeSigned(r, n, address, now, first)
          else NothingSigned(r, n, now, first))
  {
    hide HashToken, WholeSigned, NothingSigned, TokenPrefix, TokenDisplayText, ScanAll;
    if d.hasher.Absorbing? {
      HashTokenOutcome(d, data, env, n, address, accepted, first);
    } else {
      StuckOutcome(d, data, env, n, accepted, first);
      if data == "" {
        assert accepted + data == accepted;
      } else {
        StuckFull(d, data, env);
      }
    }
  }

  lemma StuckFull(d: Device, data: string, env: Env)
    requires d.tokenLen == 0 && data != ""
    ensures HashToken(d, data, env) == Answer(d, ERR_MESSAGE_TOO_LONG)
  {
  }

  /** The invariant of token sessions: accepted bytes and the remaining length make
      up the declared length and the hash holds prefix, address and accepted
      bytes, or the whole token has been hashed and its origin refused. */
  lemma {:induction false} TokenPendingAlways(cfg: Config, d: Device, events: seq<Event>)
    requires d.app == Waiting
    ensures DeviceAfter(cfg, d, events).app == SigningMessage && TokenUndisturbed(events) ==>
      TokenOpen(DeviceAfter(cfg, d, events), DeclaredToken(events), TokenAddress(events),
        AcceptedToken(cfg, d, events), FirstPart(events))
    decreases |events|
  {
    hide StepTx, StepMsg, TokenOpen, WholeSigned, NothingSigned, HashToken, U4BE;
    if events != [] {
      var before, c, env := Front(events), Last(events).command, Last(events).env;
      var d' := DeviceAfter(cfg, d, before);
      TokenPendingAlways(cfg, d, before);
      var n, a := DeclaredToken(before), TokenAddress(before);
      var s, first := AcceptedToken(cfg, d, before), FirstPart(before);
      if d'.app == Halted {
        StaysHalted(cfg, d', c, env);
      } else if StartsToken(Last(events)) {
        TokenStart(d', c.data, env);
      } else if c.SignToken? && c.p1 == P1_MORE && d'.app == SigningMessage && TokenUndisturbed(events) {
        NextTokenChunk(d', c.data, env, n, a, s, first);
      } else if c.SignTx? {
        TxLeavesMessages(cfg, d', c.p1, c.header, c.data, env);
      } else if c.ProvideInfo? {
        SameToken(d', d'.(info := c.info), n, a, s, first);
      }
    }
  }

  /** An accepted first part is the beginning of what is signed. */
  lemma {:induction false} FirstPartSigned(cfg: Config, d: Device, events: seq<Event>)
    ensures |FirstPart(events)| <= DeclaredToken(events) ==> FirstPart(events) <= AcceptedToken(cfg, d, events)
    decreases |events|
  {
    hide DeviceAfter, U4BE;
    if events != [] {
      FirstPartSigned(cfg, d, Front(events));
    }
  }

  /** An origin or a lifetime found in the first part is the one of the whole
      token, its first or third segment. */
  ghost predicate OriginOfToken(first: string, accepted: string) {
    '\0' !in accepted ==>
      var s, whole := ScanAll(CLEAN, first), ScanAll(CLEAN, accepted);
      && (s.origin != "" ==> s.origin == whole.origin == Split(accepted)[0])
      && (s.ttl != "" ==> |Split(accepted)| > 2 && s.ttl == whole.ttl == Split(accepted)[2])
  }

  lemma OriginSigned(first: string, accepted: string)
    requires first <= accepted
    ensures OriginOfToken(first, accepted)
  {
    hide ScanAll, Split;
    if '\0' !in accepted {
      assert accepted == first + accepted[|first|..];
      OriginKept(first, accepted[|first|..]);
    }
  }

  /** A token signed in an undisturbed session covers the prefix, the decimal
      length of address and token, the address and all declared bytes, and is put
      up for approval unless its origin is refused or written past its buffer, or
      its lifetime overflows; or its hash had been used up by a refused origin, and it is not put up for
      approval. What is shown comes from the first part alone. That is the
      beginning of what is signed if and only if it was not rejected for its
      length, and then an origin on the screen is the first segment of what is
      signed, and a lifetime the third. */
  lemma TokenSigned(cfg: Config, d: Device, events: seq<Event>)
    requires d.app == Waiting && events != []
    requires
      var r := LastReply(cfg, d, events);
      r.signature.Some? && r.signature.value.OfToken?
    requires TokenUndisturbed(events)
    ensures
      var n, accepted, first := DeclaredToken(events), AcceptedToken(cfg, d, events), FirstPart(events);
      var r := LastReply(cfg, d, events);
      && (if StartsToken(Last(events)) || DeviceAfter(cfg, d, Front(events)).hasher.Absorbing?
          then WholeSigned(r, n, TokenAddress(events), accepted, first)
          else NothingSigned(r, n, accepted, first))
      && (first <= accepted <==> |first| <= n)
      && (|first| <= n ==> OriginOfToken(first, accepted))
  {
    hide StepTx, StepMsg, TokenOpen, HashToken, TokenPrefix, KeptBack, ShownFor, U4BE, OriginOfToken;
    var before, c, env := Front(events), Last(events).command, Last(events).env;
    var d' := DeviceAfter(cfg, d, before);
    OnlyTokens(cfg, d', c, env);
    TokenPendingAlways(cfg, d, before);
    FirstPartSigned(cfg, d, events);
    StaysHalted(cfg, d', c, env);
    if StartsToken(Last(events)) {
      TokenStart(d', c.data, env);
    } else {
      NextTokenChunk(d', c.data, env, DeclaredToken(before), TokenAddress(before),
        AcceptedToken(cfg, d, before), FirstPart(before));
    }
    if |FirstPart(events)| <= DeclaredToken(events) {
      OriginSigned(FirstPart(events), AcceptedToken(cfg, d, events));
    }
  }

  lemma OnlyTokens(cfg: Config, d: Device, c: Command, env: Env)
    ensures
      var r := Handle(cfg, d, c, env);
      r.signature.Some? && r.signature.value.OfToken? ==>
        && c.SignToken?
        && (c.p1 == P1_FIRST ==> |c.data| >= 12 && env.address.Some?)
        && (c.p1 != P1_FIRST ==> c.p1 == P1_MORE && d.app == SigningMessage)
  {
    hide ParseData, TokenDisplayText, ScanAll, MessagePrefix, TokenPrefix, U4BE, Preview, IsEsdtTransfer, EsdtAmount;
  }
}
