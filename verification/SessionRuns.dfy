/** Whole messages and tokens, sent in chunks: the bytes that are signed, written
    out. */
module SessionRuns {
  import opened Words
  import opened Wrappers
  import opened Numerals
  import CStrings
  import opened TxState
  import opened TxMachine
  import opened TxChunks
  import opened TxJson
  import opened TxNames
  import opened TokenScanner
  import opened TokenDisplay
  import opened Session
  import opened SessionMessages

  /** Four bytes that give a number, the most significant first. */
  predicate Length(header: string, n: nat) {
    && |header| == 4
    && header[0] as int == n / 0x100_0000 && header[1] as int == n / 0x1_0000 % 0x100
    && header[2] as int == n / 0x100 % 0x100 && header[3] as int == n % 0x100
  }

  /** They are read as that number. */
  lemma LengthRead(header: string, n: nat, rest: string)
    requires n < 0x1_0000_0000 && Length(header, n)
    ensures U4BE(header + rest) == n
  {
    var s := header + rest;
    assert s[0] == header[0] && s[1] == header[1] && s[2] == header[2] && s[3] == header[3];
    FourBytes(n);
  }

  lemma FourBytes(n: nat)
    requires n < 0x1_0000_0000
    ensures ((n / 0x100_0000 * 256 + n / 0x1_0000 % 256) * 256 + n / 0x100 % 256) * 256 + n % 256 == n
  {
  }

  /** What is hashed before a message of n bytes. */
  lemma MessageStart(n: uint32)
    ensures MessagePrefix(n) == "\U{17}Elrond Signed Message:\n" + Print(n, 10)
  {
  }

  lemma {:induction false} ConcatMore(chunks: seq<string>, k: nat)
    requires k < |chunks|
    ensures Concat(chunks[..k + 1]) == Concat(chunks[..k]) + chunks[k]
  {
    assert chunks[..k + 1][..k] == chunks[..k] && chunks[..k + 1][k] == chunks[k];
  }

  lemma {:induction false} ConcatPrefix(chunks: seq<string>, k: nat)
    requires k <= |chunks|
    ensures |Concat(chunks[..k])| <= |Concat(chunks)|
    ensures k < |chunks| && chunks[|chunks| - 1] != "" ==> |Concat(chunks[..k])| < |Concat(chunks)|
    decreases |chunks| - k
  {
    if k == |chunks| {
      assert chunks[..k] == chunks;
    } else {
      ConcatMore(chunks, k);
      if k + 1 < |chunks| {
        ConcatPrefix(chunks, k + 1);
      } else {
        assert chunks[..k + 1] == chunks;
      }
    }
  }

  /** The chunks are not empty, and the last of several is needed. */
  predicate Chunked(chunks: seq<string>) {
    chunks != [] && (|chunks| > 1 ==> chunks[|chunks| - 1] != "") && |Concat(chunks)| < 0x1_0000_0000
  }

  // ---- Messages ------------------------------------------------------------------------------------

  /** The commands that send a message: its length and the first chunk with P1 0,
      the others with P1 128. */
  function MessageSent(header: string, chunks: seq<string>, env: Env): (events: seq<Event>)
    ensures |events| == |chunks|
  {
    seq(|chunks|, i requires 0 <= i < |chunks| =>
      Event(if i == 0 then SignMsg(0x00, header + chunks[0]) else SignMsg(0x80, chunks[i]), env))
  }

  /** One chunk of a message that does not exceed it. */
  lemma MessageChunk(d: Device, data: string, env: Env, n: uint32, accepted: string)
    requires d.app == SigningMessage && MsgPending(d, n, accepted) && |accepted| + |data| <= n && env.signs
    ensures
      var r := HashMsg(d, data, env);
      && r.code == 0x9000
      && if |accepted| + |data| < n then
           r.signature == None && r.device.app == SigningMessage && MsgPending(r.device, n, accepted + data)
         else r.reviewed && r.signature == Some(OfMessage(Finished(MessagePrefix(n) + (accepted + data))))
  {
    hide MessagePrefix;
    assert MessagePrefix(n) + accepted + data == MessagePrefix(n) + (accepted + data);
  }

  /** The reply to a message's chunk when so many bytes have been sent. */
  ghost predicate MessageReply(r: Reply, n: uint32, sofar: string) {
    && r.code == 0x9000
    && if |sofar| < n then r.signature == None && r.device.app == SigningMessage && MsgPending(r.device, n, sofar)
       else r.reviewed && r.signature == Some(OfMessage(Finished(MessagePrefix(n) + sofar)))
  }

  lemma FirstMessageChunk(d: Device, header: string, data: string, env: Env, n: uint32)
    requires d.app != Halted && env.signs && Length(header, n) && |data| <= n
    ensures MessageReply(StepMsg(d, 0x00, header + data, env), n, data)
  {
    hide MessagePrefix, U4BE, HashMsg;
    LengthRead(header, n, data);
    assert (header + data)[4..] == data && MessagePrefix(n) + "" == MessagePrefix(n);
    MessageChunk(d.(app := SigningMessage, msgLen := n, hasher := Absorbing(MessagePrefix(n))), data, env, n, "");
    assert "" + data == data;
  }

  lemma {:induction false} MessageSending(cfg: Config, d: Device, before: seq<Event>, header: string,
                                          chunks: seq<string>, env: Env, k: nat)
    requires DeviceAfter(cfg, d, before).app != Halted && env.signs && Chunked(chunks)
    requires Length(header, |Concat(chunks)|) && 0 < k <= |chunks|
    ensures
      var events := before + MessageSent(header, chunks[..k], env);
      events != [] && MessageReply(LastReply(cfg, d, events), |Concat(chunks)|, Concat(chunks[..k]))
    decreases k
  {
    hide Handle, StepMsg, MessageReply, Length, HashMsg;
    var n, last := |Concat(chunks)|, k - 1;
    var sent, front := MessageSent(header, chunks[..k], env), MessageSent(header, chunks[..last], env);
    ConcatMore(chunks, last);
    ConcatPrefix(chunks, k);
    ConcatPrefix(chunks, last);
    assert chunks[..k][0] == chunks[0] && chunks[..k][last] == chunks[last];
    assert Front(before + sent) == before + front;
    var d' := DeviceAfter(cfg, d, before + front);
    if last == 0 {
      assert before + front == before;
      FirstMessageChunk(d', header, chunks[0], env, n);
      assert Concat(chunks[..0]) == "" && "" + chunks[0] == chunks[0];
      HandleMessage(cfg, d', 0x00, header + chunks[0], env);
    } else {
      MessageSending(cfg, d, before, header, chunks, env, last);
      NextMessageChunk(cfg, d', LastReply(cfg, d, before + front), chunks[last], env, n, Concat(chunks[..last]));
    }
  }

  lemma HandleMessage(cfg: Config, d: Device, p1: nat, data: string, env: Env)
    ensures Handle(cfg, d, SignMsg(p1, data), env) == StepMsg(d, p1, data, env)
  {
    hide StepMsg;
  }

  lemma NextMessageChunk(cfg: Config, d: Device, r: Reply, data: string, env: Env, n: uint32, sofar: string)
    requires r.device == d && MessageReply(r, n, sofar) && |sofar| < n && |sofar| + |data| <= n && env.signs
    ensures MessageReply(Handle(cfg, d, SignMsg(0x80, data), env), n, sofar + data)
  {
    hide MessagePrefix, HashMsg, MsgPending;
    MessageChunk(d, data, env, n, sofar);
  }

  /** After any run, a message sent behind its length in any chunks is signed with
      its last one and not before: the signature covers the constant, the decimal
      length and the message. */
  lemma MessageRun(cfg: Config, d: Device, before: seq<Event>, header: string, chunks: seq<string>, env: Env)
    requires DeviceAfter(cfg, d, before).app != Halted && env.signs && Chunked(chunks)
    requires Length(header, |Concat(chunks)|)
    ensures before + MessageSent(header, chunks, env) != []
    ensures
      var m, r := Concat(chunks), LastReply(cfg, d, before + MessageSent(header, chunks, env));
      && r.signature == Some(OfMessage(Finished("\U{17}Elrond Signed Message:\n" + Print(|m|, 10) + m)))
      && r.reviewed && r.code == 0x9000
    ensures forall k :: 0 < k < |chunks| ==>
      LastReply(cfg, d, before + MessageSent(header, chunks[..k], env)).signature == None
  {
    hide LastReply, MessageSent, Concat;
    forall k | 0 < k < |chunks|
      ensures LastReply(cfg, d, before + MessageSent(header, chunks[..k], env)).signature == None
    {
      MessageSending(cfg, d, before, header, chunks, env, k);
      ConcatPrefix(chunks, k);
    }
    assert chunks[..|chunks|] == chunks;
    MessageSending(cfg, d, before, header, chunks, env, |chunks|);
    MessageStart(|Concat(chunks)|);
  }

  // ---- Tokens --------------------------------------------------------------------------------------

  /** The commands that send a token: indexes, length and first chunk, then the
      others. */
  function TokenSent(indexes: string, header: string, chunks: seq<string>, env: Env): (events: seq<Event>)
    ensures |events| == |chunks|
  {
    seq(|chunks|, i requires 0 <= i < |chunks| =>
      Event(if i == 0 then SignToken(0x00, indexes + header + chunks[0]) else SignToken(0x80, chunks[i]), env))
  }

  /** The reply to a token's chunk when so many bytes have been sent. */
  ghost predicate TokenReply(r: Reply, n: uint32, address: string, sofar: string, first: string) {
    if |sofar| < n then
      && r.code == 0x9000 && r.signature == None && r.device.app == SigningMessage
      && TokenPending(r.device, n, address, sofar, first)
    else WholeSigned(r, n, address, sofar, first)
  }

  lemma TokenChunk(d: Device, data: string, env: Env, n: uint32, address: string, accepted: string, first: string)
    requires d.app == SigningMessage && TokenPending(d, n, address, accepted, first)
    requires |accepted| + |data| <= n && env.signs
    ensures TokenReply(HashToken(d, data, env), n, address, accepted + data, first)
  {
    hide TokenPrefix, TokenDisplayText, ScanAll, Preview, WholeSigned, TokenOpen;
    assert TokenPrefix(n, address) + accepted + data == TokenPrefix(n, address) + (accepted + data);
    HashTokenOutcome(d, data, env, n, address, accepted, first);
  }

  lemma FirstTokenChunk(d: Device, indexes: string, header: string, data: string, env: Env, n: uint32)
    requires d.app != Halted && env.signs && env.address.Some?
    requires |indexes| == 8 && Length(header, n) && |data| <= n
    ensures TokenReply(StepToken(d, 0x00, indexes + header + data, env), n, env.address.value, data, data)
  {
    hide TokenPrefix, TokenDisplayText, U4BE, ScanAll, Preview, HashToken, TokenReply;
    var all, a := indexes + header + data, env.address.value;
    LengthRead(header, n, data);
    assert all[8..] == header + data && all[12..] == data && TokenPrefix(n, a) + "" == TokenPrefix(n, a);
    TokenChunk(Opened(Cleaned(d), all, a), data, env, n, a, "", data);
    assert "" + data == data;
  }

  lemma HandleToken(cfg: Config, d: Device, p1: nat, data: string, env: Env)
    ensures Handle(cfg, d, SignToken(p1, data), env) == StepToken(d, p1, data, env)
  {
    hide StepToken;
  }

  lemma NextTokenSent(cfg: Config, d: Device, r: Reply, data: string, env: Env, n: uint32, address: string,
                      sofar: string, first: string)
    requires r.device == d && TokenReply(r, n, address, sofar, first)
    requires |sofar| < n && |sofar| + |data| <= n && env.signs
    ensures TokenReply(Handle(cfg, d, SignToken(0x80, data), env), n, address, sofar + data, first)
  {
    hide TokenPrefix, HashToken, TokenPending, WholeSigned;
    TokenChunk(d, data, env, n, address, sofar, first);
  }

  lemma {:induction false} TokenSending(cfg: Config, d: Device, before: seq<Event>, indexes: string, header: string,
                                        chunks: seq<string>, env: Env, k: nat)
    requires DeviceAfter(cfg, d, before).app != Halted && env.signs && env.address.Some? && Chunked(chunks)
    requires |indexes| == 8 && Length(header, |Concat(chunks)|) && 0 < k <= |chunks|
    ensures
      var events := before + TokenSent(indexes, header, chunks[..k], env);
      events != [] && TokenReply(LastReply(cfg, d, events), |Concat(chunks)|, env.address.value, Concat(chunks[..k]),
        chunks[0])
    decreases k
  {
    hide Handle, StepToken, TokenReply, Length, HashToken;
    var n, a, last := |Concat(chunks)|, env.address.value, k - 1;
    var sent, front := TokenSent(indexes, header, chunks[..k], env), TokenSent(indexes, header, chunks[..last], env);
    ConcatMore(chunks, last);
    ConcatPrefix(chunks, k);
    ConcatPrefix(chunks, last);
    assert chunks[..k][0] == chunks[0] && chunks[..k][last] == chunks[last];
    assert Front(before + sent) == before + front;
    var d' := DeviceAfter(cfg, d, before + front);
    if last == 0 {
      assert before + front == before;
      FirstTokenChunk(d', indexes, header, chunks[0], env, n);
      assert Concat(chunks[..0]) == "" && "" + chunks[0] == chunks[0];
      HandleToken(cfg, d', 0x00, indexes + header + chunks[0], env);
    } else {
      TokenSending(cfg, d, before, indexes, header, chunks, env, last);
      NextTokenSent(cfg, d', LastReply(cfg, d, before + front), chunks[last], env, n, a, Concat(chunks[..last]),
        chunks[0]);
    }
  }

  /** What is hashed before a token of n bytes: the length counts the address, whose
      characters are 62. */
  lemma TokenStartText(n: uint32, address: string)
    ensures TokenPrefix(n, address)
      == "\U{17}Elrond Signed Message:\n" + Print((n + 62) % 0x1_0000_0000, 10) + address
  {
    MessageStart((n + 62) % 0x1_0000_0000);
  }

  /** After any run, a token sent behind indexes and its length in any chunks is
      signed with its last one and not before: the signature covers the constant,
      the decimal length of address and token, the address and the token. */
  lemma TokenRun(cfg: Config, d: Device, before: seq<Event>, indexes: string, header: string, chunks: seq<string>,
                 env: Env)
    requires DeviceAfter(cfg, d, before).app != Halted && env.signs && env.address.Some? && Chunked(chunks)
    requires |indexes| == 8 && Length(header, |Concat(chunks)|)
    ensures before + TokenSent(indexes, header, chunks, env) != []
    ensures
      var t, a, r := Concat(chunks), env.address.value,
        LastReply(cfg, d, before + TokenSent(indexes, header, chunks, env));
      && r.signature == Some(OfToken(Finished(
           "\U{17}Elrond Signed Message:\n" + Print((|t| + 62) % 0x1_0000_0000, 10) + a + t)))
      && (r.reviewed <==> !KeptBack(chunks[0]))
      && (r.reviewed ==> r.device.shown == ShownFor(chunks[0]))
    ensures forall k :: 0 < k < |chunks| ==>
      LastReply(cfg, d, before + TokenSent(indexes, header, chunks[..k], env)).signature == None
  {
    hide LastReply, TokenSent, Concat, KeptBack, ShownFor;
    forall k | 0 < k < |chunks|
      ensures LastReply(cfg, d, before + TokenSent(indexes, header, chunks[..k], env)).signature == None
    {
      TokenSending(cfg, d, before, indexes, header, chunks, env, k);
      ConcatPrefix(chunks, k);
    }
    assert chunks[..|chunks|] == chunks;
    TokenSending(cfg, d, before, indexes, header, chunks, env, |chunks|);
    TokenStartText(|Concat(chunks)|, env.address.value);
  }

  /** The short message of tests/test_multiversx.py:266-268. */
  lemma ShortMessage(cfg: Config, d: Device, env: Env)
    requires d.app != Halted && env.signs
    ensures
      var r := LastReply(cfg, d, [Event(SignMsg(0x00, "\0\0\0\U{4}abcd"), env)]);
      r.signature == Some(OfMessage(Finished("\U{17}Elrond Signed Message:\n4abcd"))) && r.reviewed
  {
    hide LastReply;
    var chunks := ["abcd"];
    assert chunks[..0] == [] && Concat(chunks) == "" + "abcd" == "abcd";
    MessageRun(cfg, d, [], "\0\0\0\U{4}", chunks, env);
    assert "\0\0\0\U{4}" + "abcd" == "\0\0\0\U{4}abcd";
    assert [] + MessageSent("\0\0\0\U{4}", chunks, env) == [Event(SignMsg(0x00, "\0\0\0\U{4}abcd"), env)];
    FourText();
    assert "\U{17}Elrond Signed Message:\n" + "4" + "abcd" == "\U{17}Elrond Signed Message:\n4abcd";
  }

  lemma FourText()
    ensures Print(4, 10) == "4"
  {
  }

  // ---- What a token shows --------------------------------------------------------------------------

  /** A token of four segments, as an example. */
  lemma LocalhostToken()
    ensures ShownFor("bG9jYWxob3N0.e1c0.300.e30") == "Authorizing localhost for 5min "
    ensures !KeptBack("bG9jYWxob3N0.e1c0.300.e30")
  {
    hide ScanAll, TokenDisplayText;
    LocalhostShown();
    assert "bG9jYWxob3N0" + "." + "e1c0" + "." + "300" + "." + "e30" == "bG9jYWxob3N0.e1c0.300.e30";
    TokenParts("bG9jYWxob3N0", "e1c0", "300", "e30");
  }

  /** A first chunk without a closed segment is shown itself when it has fewer than
      100 characters, and otherwise its first 97 and an ellipsis. */
  lemma NoOriginShown(first: string)
    requires '.' !in first && '\0' !in first
    ensures !KeptBack(first)
    ensures ShownFor(first) == if |first| < 100 then first else first[..97] + "..."
  {
    hide ScanAll, Split, CStrings.CStr;
    OneSegment(first);
    OriginAndLifetime(first);
    PreviewClean(first);
  }

  lemma PreviewClean(first: string)
    requires '\0' !in first
    ensures Preview(first) == if |first| < 100 then first else first[..97] + "..."
  {
  }

  // ---- Refusals ------------------------------------------------------------------------------------

  /** Commands that are refused without any effect: another P1, a later chunk
      without a session, more bytes than were declared. */
  lemma Refused(cfg: Config, d: Device, p1: nat, data: string, env: Env)
    requires d.app != Halted
    ensures p1 != 0x00 && p1 != 0x80 ==>
      && Handle(cfg, d, SignMsg(p1, data), env) == Reply(d, 0x6E03, None, false)
      && Handle(cfg, d, SignToken(p1, data), env) == Reply(d, 0x6E03, None, false)
    ensures d.app != SigningMessage ==>
      && Handle(cfg, d, SignMsg(0x80, data), env) == Reply(d, 0x6E02, None, false)
      && Handle(cfg, d, SignToken(0x80, data), env) == Reply(d, 0x6E02, None, false)
    ensures d.app == SigningMessage && |data| > d.msgLen ==>
      Handle(cfg, d, SignMsg(0x80, data), env) == Reply(d, 0x6E04, None, false)
    ensures d.app == SigningMessage && |data| > d.tokenLen ==>
      Handle(cfg, d, SignToken(0x80, data), env) == Reply(d, 0x6E04, None, false)
  {
    hide FinishToken, MessagePrefix, TokenPrefix, U4BE, Preview, ScanAll;
  }

  /** First chunks that declare no length, or for which there is no address. */
  lemma NothingDeclared(cfg: Config, d: Device, data: string, env: Env)
    requires d.app != Halted
    ensures |data| < 4 ==> Handle(cfg, d, SignMsg(0x00, data), env) == Reply(d, 0x6E02, None, false)
    ensures
      var r := Handle(cfg, d, SignToken(0x00, data), env);
      |data| < 12 || env.address == None ==>
        && r.code == (if |data| < 12 then 0x6E02 else 0x6E01) && r.signature == None && !r.reviewed
        && r.device == d.(tokenLen := 0, scan := r.device.scan, address := "", shown := "")
        && r.device.scan.origin == "" && r.device.scan.ttl == ""
  {
    hide HashMsg, HashToken, MessagePrefix, TokenPrefix, U4BE, Preview, ScanAll;
  }

  /** A message or a token whose last byte arrives and that cannot be signed. */
  lemma SigningFails(cfg: Config, d: Device, data: string, env: Env)
    requires d.app == SigningMessage && !env.signs
    ensures |data| == d.msgLen ==>
      var r := Handle(cfg, d, SignMsg(0x80, data), env);
      r.code == 0x6E10 && r.signature == None && r.device.app == Waiting
    ensures |data| == d.tokenLen ==>
      var r := Handle(cfg, d, SignToken(0x80, data), env);
      r.code == 0x6E10 && r.signature == None && r.device.app == Waiting
  {
    hide MessagePrefix, TokenPrefix, U4BE, Preview, ScanAll, TokenDisplayText;
  }

  // ---- Transactions with an unknown field ----------------------------------------------------------

  /** After any run, a transaction with a field of an unknown name is refused and
      nothing is signed; neither is anything that is sent behind it. */
  lemma UnknownFieldRun(cfg: Config, d: Device, before: seq<Event>, header: back, items: seq<Item>, i: Item, c: char,
                        rest: string, more: Chunk, env: Env)
    requires DeviceAfter(cfg, d, before).app != Halted
    requires (forall i <- items :: TxJson.Printable(i)) && Effects(cfg, items, EMPTY).Accepted?
    requires ShortName(i.name) && ShortValue(i.value) && Unknown(i.name) && (c == ',' || c == '}')
    ensures
      var e := Event(SignTx(0x00, header, Opening(items) + (i.Print() + [c] + rest)), env);
      var next := Event(SignTx(0x80, more.header, more.data), env);
      var r, r' := LastReply(cfg, d, before + [e]), LastReply(cfg, d, before + [e] + [next]);
      && r.code == 0x6E02 && r.signature == None && r.device.app == Waiting
      && r' == Reply(r.device, 0x6E02, None, false)
  {
    hide DeviceAfter, ParseData, Effects, Unknown, TxJson.Printable, Opening, Item.Print;
    var text := Opening(items) + (i.Print() + [c] + rest);
    var e := Event(SignTx(0x00, header, text), env);
    var next := Event(SignTx(0x80, more.header, more.data), env);
    var d' := DeviceAfter(cfg, d, before);
    OneMore(cfg, d, before, e);
    OneMore(cfg, d, before + [e], next);
    UnknownRefused(cfg, State(Reset(d').hash, EMPTY), header, items, i, c, rest);
  }

  lemma OneMore(cfg: Config, d: Device, before: seq<Event>, e: Event)
    ensures before + [e] != []
    ensures LastReply(cfg, d, before + [e]) == Handle(cfg, DeviceAfter(cfg, d, before), e.command, e.env)
    ensures DeviceAfter(cfg, d, before + [e]) == LastReply(cfg, d, before + [e]).device
  {
    hide Handle;
    assert Front(before + [e]) == before;
  }
}
