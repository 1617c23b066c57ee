/** Messages and authentication tokens share one hash: what runs that mix their
    sessions sign, and what a token that is refused or rejected leaves behind. */
module SessionInterleaving {
  import opened Words
  import opened Wrappers
  import opened Base64
  import opened Lifetime
  import opened TxState
  import opened TxMachine
  import opened TxEsdt
  import opened TokenScanner
  import opened TokenDisplay
  import opened Session
  import opened SessionSafety
  import opened SessionMessages

  /** What the last start of a message or token session has hashed first. */
  function HashStart(events: seq<Event>): string {
    if events == [] then ""
    else if StartsMsg(Last(events).command) then MessagePrefix(U4BE(Last(events).command.data))
    else if StartsToken(Last(events)) then
      TokenPrefix(U4BE(Last(events).command.data[8..]), Last(events).env.address.value)
    else HashStart(Front(events))
  }

  /** The shared hash goes on from a given start, or has been used up. */
  predicate GoesOn(h: Hasher, start: string) {
    match h
    case Absorbing(bytes) => start <= bytes
    case Finished(bytes) => start <= bytes
    case Undefined => true
  }

  /** The reply continues the hash as far as it concerns messages and tokens. */
  ghost predicate Continuing(r: Reply, start: string) {
    && (r.device.app == SigningMessage ==> GoesOn(r.device.hasher, start))
    && (r.signature.Some? && !r.signature.value.OfTx? ==> GoesOn(r.signature.value.hash, start))
  }

  /** Commands that start no message or token session continue the hash. */
  lemma Continues(cfg: Config, d: Device, e: Event, start: string)
    requires d.app == SigningMessage && GoesOn(d.hasher, start)
    requires !StartsMsg(e.command) && !StartsToken(e)
    ensures Continuing(Handle(cfg, d, e.command, e.env), start)
  {
    hide StepTx, StepMsg, StepToken;
    match e.command
    case SignTx(p1, header, data) => TxContinues(cfg, d, p1, header, data, e.env, start);
    case SignMsg(p1, data) => MessageContinues(d, p1, data, e.env, start);
    case SignToken(p1, data) => TokenContinues(d, p1, data, e.env, start);
    case _ => {}
  }

  lemma TxContinues(cfg: Config, d: Device, p1: nat, header: back, data: string, env: Env, start: string)
    requires d.app == SigningMessage && GoesOn(d.hasher, start)
    ensures Continuing(StepTx(cfg, d, p1, header, data, env), start)
  {
    hide ParseData, IsEsdtTransfer, EsdtAmount;
  }

  lemma MessageContinues(d: Device, p1: nat, data: string, env: Env, start: string)
    requires d.app == SigningMessage && GoesOn(d.hasher, start) && !StartsMsg(SignMsg(p1, data))
    ensures Continuing(StepMsg(d, p1, data, env), start)
  {
    hide MessagePrefix, U4BE;
  }

  lemma TokenContinues(d: Device, p1: nat, data: string, env: Env, start: string)
    requires d.app == SigningMessage && GoesOn(d.hasher, start)
    requires !StartsToken(Event(SignToken(p1, data), env))
    ensures Continuing(StepToken(d, p1, data, env), start)
  {
    hide TokenDisplayText, Opened, GoesOn;
    Lengthens(d.hasher, data, start);
  }

  /** Absorbing and finishing go on from the same start. */
  lemma Lengthens(h: Hasher, data: string, start: string)
    requires GoesOn(h, start)
    ensures GoesOn(h.Absorb(data), start) && GoesOn(h.Finish(), start) && GoesOn(h.Absorb(data).Finish(), start)
  {
  }

  lemma Starts(cfg: Config, d: Device, e: Event)
    requires d.app != Halted && (StartsMsg(e.command) || StartsToken(e))
    ensures
      var r := Handle(cfg, d, e.command, e.env);
      Continuing(r, HashStart([e])) && (r.signature.Some? ==> !r.signature.value.OfTx?)
  {
    hide TokenDisplayText, ScanAll, MessagePrefix, TokenPrefix, U4BE, Preview, GoesOn;
    FromStart(HashStart([e]), if StartsMsg(e.command) then e.command.data[4..] else e.command.data[12..]);
  }

  lemma FromStart(start: string, data: string)
    ensures
      var h := Absorbing(start);
      GoesOn(h, start) && GoesOn(h.Absorb(data), start) && GoesOn(h.Absorb(data).Finish(), start)
  {
  }

  /** Commands that start nothing are answered without a signature when no
      message or token session is open. */
  lemma NotOpen(cfg: Config, d: Device, e: Event)
    requires d.app != SigningMessage && !StartsMsg(e.command) && !StartsToken(e)
    ensures
      var r := Handle(cfg, d, e.command, e.env);
      r.device.app != SigningMessage && (r.signature.Some? ==> r.signature.value.OfTx?)
  {
    hide StepTx, HashMsg, HashToken, Opened;
    if e.command.SignTx? {
      TxNotOpen(cfg, d, e.command.p1, e.command.header, e.command.data, e.env);
    }
  }

  lemma TxNotOpen(cfg: Config, d: Device, p1: nat, header: back, data: string, env: Env)
    requires d.app != SigningMessage
    ensures
      var r := StepTx(cfg, d, p1, header, data, env);
      r.device.app != SigningMessage && (r.signature.Some? ==> r.signature.value.OfTx?)
  {
    hide ParseData, IsEsdtTransfer, EsdtAmount;
  }

  /** In every run, however messages and tokens are interleaved: the shared hash
      goes on from the last session start, whichever kind it was. */
  lemma {:induction false} HashGoesOn(cfg: Config, d: Device, events: seq<Event>)
    requires d.app == Waiting
    ensures DeviceAfter(cfg, d, events).app == SigningMessage ==>
      GoesOn(DeviceAfter(cfg, d, events).hasher, HashStart(events))
    decreases |events|
  {
    hide Handle, GoesOn, MessagePrefix, TokenPrefix, U4BE;
    if events != [] {
      HashGoesOn(cfg, d, Front(events));
      var d', e := DeviceAfter(cfg, d, Front(events)), Last(events);
      StaysHalted(cfg, d', e.command, e.env);
      if d'.app != Halted && (StartsMsg(e.command) || StartsToken(e)) {
        Starts(cfg, d', e);
      } else if d'.app == SigningMessage {
        Continues(cfg, d', e, HashStart(events));
      } else if d'.app != Halted {
        NotOpen(cfg, d', e);
      }
    }
  }

  /** Whatever is signed as a message or a token goes on from the last session
      start: a message that a token session follows has signed a text that starts
      like the token, and the other way round. */
  lemma SignedGoesOn(cfg: Config, d: Device, events: seq<Event>)
    requires d.app == Waiting && events != []
    requires
      var r := LastReply(cfg, d, events);
      r.signature.Some? && !r.signature.value.OfTx?
    ensures GoesOn(LastReply(cfg, d, events).signature.value.hash, HashStart(events))
  {
    hide Handle, GoesOn, MessagePrefix, TokenPrefix, U4BE;
    HashGoesOn(cfg, d, Front(events));
    var d', e := DeviceAfter(cfg, d, Front(events)), Last(events);
    StaysHalted(cfg, d', e.command, e.env);
    if StartsMsg(e.command) || StartsToken(e) {
      Starts(cfg, d', e);
    } else if d'.app == SigningMessage {
      Continues(cfg, d', e, HashStart(events));
    } else {
      NotOpen(cfg, d', e);
    }
  }

  // ---- A digest that was taken ---------------------------------------------------------------------

  /** No message or token can be signed any more, unless a session starts: none is
      open, or its digest has been taken. */
  predicate Taken(d: Device) {
    d.app == Waiting || d.app == Halted || (d.app == SigningMessage && !d.hasher.Absorbing?)
  }

  predicate StartsAny(e: Event) {
    StartsMsg(e.command) || StartsToken(e) || StartsTx(e.command)
  }

  lemma TakenStep(cfg: Config, d: Device, e: Event)
    requires Taken(d) && !StartsAny(e)
    ensures
      var r := Handle(cfg, d, e.command, e.env);
      Taken(r.device) && (r.signature.Some? ==> r.signature.value.hash == Undefined)
  {
    hide ParseData, TokenDisplayText, ScanAll, MessagePrefix, TokenPrefix, U4BE, Preview, IsEsdtTransfer, EsdtAmount;
  }

  /** In every run that starts no session: a digest that was taken is not taken
      again, whatever is signed then is no bytes at all. */
  lemma {:induction false} TakenAlways(cfg: Config, d: Device, events: seq<Event>)
    requires Taken(d) && forall e <- events :: !StartsAny(e)
    ensures Taken(DeviceAfter(cfg, d, events))
    ensures events != [] && LastReply(cfg, d, events).signature.Some? ==>
      LastReply(cfg, d, events).signature.value.hash == Undefined
    decreases |events|
  {
    hide Handle, Taken, StartsAny;
    if events != [] {
      TakenAlways(cfg, d, Front(events));
      TakenStep(cfg, DeviceAfter(cfg, d, Front(events)), Last(events));
    }
  }

  // ---- Runs ------------------------------------------------------------------------------------------

  lemma TwoEvents(cfg: Config, d: Device, e1: Event, e2: Event)
    ensures
      var d1 := Handle(cfg, d, e1.command, e1.env).device;
      && LastReply(cfg, d, [e1]) == Handle(cfg, d, e1.command, e1.env)
      && DeviceAfter(cfg, d, [e1]) == d1
      && LastReply(cfg, d, [e1, e2]) == Handle(cfg, d1, e2.command, e2.env)
  {
    hide Handle;
    assert Front([e1, e2]) == [e1] && Front([e1]) == [];
  }

  lemma ThreeEvents(cfg: Config, d: Device, e1: Event, e2: Event, e3: Event)
    ensures
      var d2 := Handle(cfg, Handle(cfg, d, e1.command, e1.env).device, e2.command, e2.env).device;
      && DeviceAfter(cfg, d, [e1, e2]) == d2
      && LastReply(cfg, d, [e1, e2, e3]) == Handle(cfg, d2, e3.command, e3.env)
  {
    hide Handle;
    TwoEvents(cfg, d, e1, e2);
    assert Front([e1, e2, e3]) == [e1, e2];
  }

  /** An unfinished message that a token session follows goes on with the hash of
      that token. */
  lemma InterleavedSessions(cfg: Config, d: Device, env: Env, message: string, token: string, rest: string)
    requires d.app == Waiting
    requires |message| >= 4 && |message| - 4 < U4BE(message)
    requires |token| >= 12 && |token| - 12 < U4BE(token[8..]) && env.address.Some? && env.signs
    requires |rest| == U4BE(message) - (|message| - 4)
    ensures
      var events := [Event(SignMsg(P1_FIRST, message), env), Event(SignToken(P1_FIRST, token), env),
                     Event(SignMsg(P1_MORE, rest), env)];
      var start := TokenPrefix(U4BE(token[8..]), env.address.value);
      && DeclaredMsg(events) == U4BE(message)
      && AcceptedMsg(cfg, d, events) == message[4..] + rest
      && LastReply(cfg, d, events).signature == Some(OfMessage(Finished(start + token[12..] + rest)))
  {
    hide TokenPrefix, MessagePrefix, TokenDisplayText, U4BE, ScanAll, Preview;
    var e1 := Event(SignMsg(P1_FIRST, message), env);
    var e2 := Event(SignToken(P1_FIRST, token), env);
    var e3 := Event(SignMsg(P1_MORE, rest), env);
    assert Front([e1, e2, e3]) == [e1, e2] && Front([e1, e2]) == [e1] && Front([e1]) == [];
    TwoEvents(cfg, d, e1, e2);
    ThreeEvents(cfg, d, e1, e2, e3);
    var d1 := Handle(cfg, d, e1.command, env).device;
    assert d1.app == SigningMessage && d1.msgLen == |rest|;
    var d2 := Handle(cfg, d1, e2.command, env).device;
    assert d2.app == SigningMessage && d2.msgLen == |rest|;
    assert DeclaredMsg([e1]) == U4BE(message) && AcceptedMsg(cfg, d, [e1]) == message[4..];
    assert DeclaredMsg([e1, e2]) == U4BE(message) && AcceptedMsg(cfg, d, [e1, e2]) == message[4..];
  }

  /** A whole token whose origin is refused leaves the session open with its digest
      taken: an unfinished message then goes on, and is put up for approval with a
      signature of no bytes at all. */
  lemma RefusedTokenRun(cfg: Config, d: Device, env: Env, message: string, token: string, rest: string)
    requires d.app == Waiting
    requires |message| >= 4 && |message| - 4 < U4BE(message)
    requires |token| >= 12 && |token| - 12 == U4BE(token[8..]) && env.address.Some? && env.signs
    requires DisplayFor(token[12..]).BadRequest?
    requires |rest| == U4BE(message) - (|message| - 4)
    ensures
      var start := [Event(SignMsg(P1_FIRST, message), env), Event(SignToken(P1_FIRST, token), env)];
      var refused, done := LastReply(cfg, d, start), LastReply(cfg, d, start + [Event(SignMsg(P1_MORE, rest), env)]);
      && refused.code == ERR_INVALID_MESSAGE && !refused.reviewed && refused.device.app == SigningMessage
      && done.signature == Some(OfMessage(Undefined)) && done.reviewed && done.code == MSG_OK
  {
    hide TokenPrefix, MessagePrefix, TokenDisplayText, U4BE, ScanAll, Preview;
    var e1 := Event(SignMsg(P1_FIRST, message), env);
    var e2 := Event(SignToken(P1_FIRST, token), env);
    var e3 := Event(SignMsg(P1_MORE, rest), env);
    TwoEvents(cfg, d, e1, e2);
    ThreeEvents(cfg, d, e1, e2, e3);
    assert [e1, e2] + [e3] == [e1, e2, e3];
    var d1 := Handle(cfg, d, e1.command, env).device;
    assert d1.app == SigningMessage && d1.msgLen == |rest|;
    var d2 := Handle(cfg, d1, e2.command, env).device;
    assert d2.app == SigningMessage && d2.msgLen == |rest| && !d2.hasher.Absorbing?;
  }

  /** A first chunk longer than the declared length is rejected, but what it holds
      is shown: the next chunk alone is the token that is signed. */
  lemma RejectedTokenRun(cfg: Config, d: Device, env: Env, token: string, rest: string)
    requires d.app == Waiting && env.address.Some? && env.signs
    requires |token| >= 12 && |token| - 12 > U4BE(token[8..]) == |rest|
    ensures
      var e := Event(SignToken(P1_FIRST, token), env);
      var rejected, done := LastReply(cfg, d, [e]), LastReply(cfg, d, [e, Event(SignToken(P1_MORE, rest), env)]);
      && rejected.code == ERR_MESSAGE_TOO_LONG
      && WholeSigned(done, |rest|, env.address.value, rest, token[12..])
  {
    hide TokenPrefix, MessagePrefix, TokenDisplayText, U4BE, ScanAll, Preview, WholeSigned;
    var e1 := Event(SignToken(P1_FIRST, token), env);
    TwoEvents(cfg, d, e1, Event(SignToken(P1_MORE, rest), env));
    var first, a := token[12..], env.address.value;
    var d1 := Handle(cfg, d, e1.command, env).device;
    assert TokenPrefix(|rest|, a) + "" == TokenPrefix(|rest|, a);
    assert TokenPending(d1, |rest|, a, "", first);
    HashTokenOutcome(d1, rest, env, |rest|, a, "", first);
    assert "" + rest == rest;
  }

  // ---- Tokens that name an origin --------------------------------------------------------------------

  lemma EncodeClean(b: seq<uint8>)
    ensures '.' !in Encode(b) && '\0' !in Encode(b)
  {
    hide Encode, Decoded;
    DecodeEncode(b);
    assert forall i :: 0 <= i < |Encode(b)| ==> Encode(b)[i] == Complete(b)[i] && IsBase64Char(Complete(b)[i]);
  }

  lemma ClosedSegment(s: string)
    requires '.' !in s
    ensures Split(s + ".") == [s, ""]
  {
    OneSegment(s);
    assert (s + ".")[..|s|] == s && (s + ".")[|s|] == '.';
  }

  /** The origin a token starts with is found. */
  lemma OriginScanned(b: seq<uint8>, tail: string)
    requires b != [] && |Encode(b)| <= 99 && '\0' !in tail
    ensures ScanAll(CLEAN, Encode(b) + "." + tail).origin == Encode(b)
  {
    hide Encode, ScanAll, Split, Stops, Collected;
    EncodeLength(b);
    EncodeClean(b);
    ClosedSegment(Encode(b));
    ScanFinds(Encode(b) + ".");
    OriginKept(Encode(b) + ".", tail);
  }

  /** A token is refused for the reserved prefix of the origin it starts with. */
  lemma ReservedOriginRefused(b: seq<uint8>, tail: string)
    requires b != [] && |Encode(b)| <= 99 && '\0' !in tail
    ensures DisplayFor(Encode(b) + "." + tail).BadRequest? <==> "multiversx://" <= ShownText(b)
  {
    hide Encode, ScanAll, TokenDisplayText, Strip, Shorten, Authorizing, LifetimeText;
    OriginScanned(b, tail);
    OriginShown(b, ScanAll(CLEAN, Encode(b) + "." + tail).ttl);
  }

  /** The screen names a printable origin of fewer than 37 characters that only the
      rejected first chunk held; the signature covers any other bytes of the
      declared length. */
  lemma RejectedOriginShown(cfg: Config, d: Device, env: Env, head: string, origin: string, tail: string, rest: string)
    requires d.app == Waiting && env.address.Some? && env.signs
    requires Printable(origin) && 0 < |origin| < 37 && |Encode(Bytes(origin))| <= 99
    requires origin[|origin| - 1] != '?' && !("multiversx://" <= origin) && '\0' !in tail
    requires |head| == 12 && |Encode(Bytes(origin))| + 1 + |tail| > U4BE(head[8..]) == |rest|
    requires LifetimeText(ScanAll(CLEAN, Encode(Bytes(origin)) + "." + tail).ttl).Some?
    ensures
      var first := Encode(Bytes(origin)) + "." + tail;
      var token := head + first;
      var done := LastReply(cfg, d, [Event(SignToken(P1_FIRST, token), env), Event(SignToken(P1_MORE, rest), env)]);
      && done.signature == Some(OfToken(Finished(TokenPrefix(|rest|, env.address.value) + rest)))
      && done.reviewed && done.device.shown == "Authorizing " + origin + " for "
         + LifetimeText(ScanAll(CLEAN, first).ttl).value
  {
    hide Encode, Bytes, ScanAll, TokenDisplayText, TokenPrefix, Authorizing, Handle, Preview, LifetimeText;
    var first := Encode(Bytes(origin)) + "." + tail;
    OriginScanned(Bytes(origin), tail);
    PrintableOriginShown(origin, ScanAll(CLEAN, first).ttl);
    assert (head + first)[12..] == first && (head + first)[8..][..4] == head[8..];
    RejectedTokenRun(cfg, d, env, head + first, rest);
  }
}
