/** What every run keeps of the transactions it signs. */
module SessionSafety {
  import opened Wrappers
  import opened Numerals
  import opened TxState
  import opened TxMachine
  import opened TxJson
  import opened TxChunks
  import opened TxCanonical
  import opened TxEsdt
  import opened TokenScanner
  import opened TokenDisplay
  import opened Session

  // ---- Feeding one more chunk ------------------------------------------------------------------

  lemma {:induction false} FeedOneMore(cfg: Config, st: State, chunks: seq<Chunk>, c: Chunk)
    requires chunks != []
    ensures Feed(cfg, st, chunks + [c]) ==
      if Feed(cfg, st, chunks).code != MSG_OK then Feed(cfg, st, chunks)
      else ParseData(cfg, Feed(cfg, st, chunks).state, c.header, c.data)
    decreases |chunks|
  {
    hide ParseData;
    var all := chunks + [c];
    var o := ParseData(cfg, st, chunks[0].header, chunks[0].data);
    assert all[1..] == chunks[1..] + [c];
    if |chunks| == 1 {
      assert all[1..] == [c];
    } else if o.code == MSG_OK {
      FeedOneMore(cfg, o.state, chunks[1..], c);
    }
  }

  lemma FeedFirst(cfg: Config, st: State, c: Chunk)
    ensures Feed(cfg, st, [c]) == ParseData(cfg, st, c.header, c.data)
  {
  }

  lemma {:induction false} JoinOneMore(chunks: seq<Chunk>, c: Chunk)
    ensures Join(chunks + [c]) == Join(chunks) + c.data
    decreases |chunks|
  {
    if chunks == [] {
      assert [c][1..] == [];
    } else {
      assert (chunks + [c])[1..] == chunks[1..] + [c];
      JoinOneMore(chunks[1..], c);
    }
  }

  // ---- Transactions -------------------------------------------------------------------------------

  /** Since the last first chunk a transaction was signed that could not be put
      up for approval. */
  ghost predicate AmountFailed(cfg: Config, d: Device, events: seq<Event>) {
    events != [] &&
    var r := LastReply(cfg, d, events);
    || (r.signature.Some? && r.signature.value.OfTx? && !r.reviewed)
    || (!StartsTx(Last(events).command) && AmountFailed(cfg, d, Front(events)))
  }

  /** The device is in the middle of a transaction: it has hashed and parsed
      exactly the given chunks. */
  ghost predicate Pending(cfg: Config, d: Device, start: Hash, chunks: seq<Chunk>) {
    && chunks != []
    && d.hasher == Absorbing(Join(chunks))
    && Feed(cfg, State(start, EMPTY), chunks) == Return(MSG_OK, State(d.hash, d.tx))
    && d.hash.status != Idle
  }

  /** The transaction is complete: what is signed is the hash of the given chunks
      and what is shown was parsed from them; it is put up for approval unless
      its token amount cannot be shown. */
  ghost predicate Completed(cfg: Config, r: Reply, start: Hash, chunks: seq<Chunk>) {
    && chunks != []
    && r.signature == Some(OfTx(Finished(Join(chunks))))
    && var o := Feed(cfg, State(start, EMPTY), chunks);
    && o.code == MSG_OK && o.state.hash.status == Idle
    && (r.reviewed ==> r.device.tx == ShownTx(o.state.tx, r.device.info))
    && (r.reviewed <==> AmountShown(o.state.tx, r.device.info))
    && (r.device.app == Halted <==> AmountHalts(o.state.tx, r.device.info))
  }

  /** The amount of a known token is written past a buffer. */
  ghost predicate AmountHalts(tx: Tx, info: Info) {
    IsEsdtTransfer(tx, info) && AmountOverruns(tx.esdtValue, info)
  }

  /** After a signature the session is over, or the device halted, or its hash
      has been used up. */
  ghost predicate Over(r: Reply) {
    && (r.reviewed ==> r.device.app == Waiting)
    && (!r.reviewed ==> r.device.app == Halted || (r.device.app == SigningTx && !r.device.hasher.Absorbing?))
  }

  /** Whether the amount is shown is whether its step succeeds. */
  lemma AmountSteps(tx: Tx, info: Info)
    ensures AmountShown(tx, info) <==> !IsEsdtTransfer(tx, info) || EsdtAmount(tx.esdtValue, info).0 == MSG_OK
    ensures AmountHalts(tx, info) <==> IsEsdtTransfer(tx, info) && EsdtAmount(tx.esdtValue, info).0 == OVERRUN
    ensures IsEsdtTransfer(tx, info) ==> info.valid
  {
    hide EsdtAmount, AmountRefused, AmountOverruns;
    if IsEsdtTransfer(tx, info) {
      EsdtAmountExact(tx.esdtValue, info);
    }
  }

  lemma FinishOutcome(d: Device, env: Env)
    requires d.app == SigningTx && d.hasher.Absorbing?
    ensures
      var r := FinishTx(d, env);
      && (r.signature.Some? <==> env.signs)
      && (r.signature.None? ==> r.device.app == Waiting && r.code == 0x6E10)
      && (r.signature.Some? ==>
          && r.signature == Some(OfTx(Finished(d.hasher.bytes)))
          && (r.reviewed ==> r.device.tx == ShownTx(d.tx, d.info))
          && (r.reviewed <==> AmountShown(d.tx, d.info))
          && (r.device.app == Halted <==> AmountHalts(d.tx, d.info))
          && r.device.info == d.info
          && Over(r))
  {
    hide IsEsdtTransfer, EsdtAmount, AmountShown, AmountHalts;
    AmountSteps(d.tx, d.info);
  }

  /** One chunk of a transaction, whichever it is: it is signed exactly when it
      completes the transaction and signing succeeds. */
  lemma HashTxOutcome(cfg: Config, d: Device, b: back, data: string, env: Env, start: Hash, chunks: seq<Chunk>)
    requires d.app == SigningTx && d.hasher.Absorbing?
    requires chunks != [] && Join(chunks) == d.hasher.bytes + data
    requires Feed(cfg, State(start, EMPTY), chunks) == ParseData(cfg, State(d.hash, d.tx), b, data)
    ensures ChunkOutcome(cfg, HashTx(cfg, d, b, data, env), env, start, chunks)
    ensures HashTx(cfg, d, b, data, env).device.info == d.info
  {
    hide ParseData, Join, Feed, FinishTx, ShownTx, AmountShown, AmountHalts, Over;
    var o := ParseData(cfg, State(d.hash, d.tx), b, data);
    if o.code == MSG_OK && o.state.hash.status == Idle {
      var d' := d.(hasher := d.hasher.Absorb(data), hash := o.state.hash, tx := o.state.tx);
      FinishOutcome(d', env);
      FinishInfo(d', env);
    }
  }

  lemma FinishInfo(d: Device, env: Env)
    ensures FinishTx(d, env).device.info == d.info
  {
    hide IsEsdtTransfer, EsdtAmount;
  }

  /** The reply without a signature: the code of a rejected chunk, of an accepted
      one, or of a failed signature; the session stays open only for more chunks. */
  ghost predicate Answered(r: Reply, env: Env, code: nat, status: Status) {
    if code != 0x9000 then r.code == code && r.device.app == if code == OVERRUN then Halted else Waiting
    else if status != Idle then r.code == 0x9000 && r.device.app == SigningTx
    else r.code == 0x6E10 && r.device.app == Waiting && !env.signs
  }

  /** What a chunk leads to, given the chunks so far. */
  ghost predicate ChunkOutcome(cfg: Config, r: Reply, env: Env, start: Hash, chunks: seq<Chunk>)
    requires chunks != []
  {
    var o := Feed(cfg, State(start, EMPTY), chunks);
    && (r.signature.Some? <==> o.code == MSG_OK && o.state.hash.status == Idle && env.signs)
    && (r.signature.Some? ==> Completed(cfg, r, start, chunks) && Over(r))
    && (r.signature.None? ==>
        && Answered(r, env, o.code, o.state.hash.status)
        && r.device.app != SigningMessage
        && (r.device.app == SigningTx ==> Pending(cfg, r.device, start, chunks))
        && (o.code == MSG_OK && o.state.hash.status != Idle ==> r.device.app == SigningTx))
  }

  lemma FirstChunk(cfg: Config, d: Device, b: back, data: string, env: Env)
    requires d.app != Halted
    ensures ChunkOutcome(cfg, StepTx(cfg, d, P1_FIRST, b, data, env), env, d.hash.(status := Idle), [Chunk(b, data)])
    ensures StepTx(cfg, d, P1_FIRST, b, data, env).device.info == d.info
  {
    hide ParseData, Join, Feed, HashTx, ChunkOutcome;
    var c := Chunk(b, data);
    FeedFirst(cfg, State(d.hash.(status := Idle), EMPTY), c);
    JoinOneMore([], c);
    assert [] + [c] == [c];
    JoinNothing();
    HashTxOutcome(cfg, Reset(d).(app := SigningTx), b, data, env, d.hash.(status := Idle), [c]);
  }

  lemma JoinNothing()
    ensures Join([]) == []
  {
  }

  lemma NextChunk(cfg: Config, d: Device, b: back, data: string, env: Env, start: Hash, chunks: seq<Chunk>)
    requires d.app == SigningTx && Pending(cfg, d, start, chunks)
    ensures chunks + [Chunk(b, data)] != []
    ensures ChunkOutcome(cfg, StepTx(cfg, d, P1_MORE, b, data, env), env, start, chunks + [Chunk(b, data)])
    ensures StepTx(cfg, d, P1_MORE, b, data, env).device.info == d.info
  {
    hide ParseData, Join, Feed, HashTx, ChunkOutcome;
    var c := Chunk(b, data);
    FeedOneMore(cfg, State(start, EMPTY), chunks, c);
    JoinOneMore(chunks, c);
    HashTxOutcome(cfg, d, b, data, env, start, chunks + [c]);
  }

  /** The reply signs no transaction and leaves one that is open as it is. */
  ghost predicate Spares(d: Device, r: Reply) {
    && (r.signature.Some? ==> !r.signature.value.OfTx?)
    && (r.device.app == SigningTx ==>
        d.app == SigningTx && r.device.hasher == d.hasher && r.device.hash == d.hash && r.device.tx == d.tx)
  }

  /** Commands of the other kinds neither sign transactions nor continue one. */
  lemma OtherKinds(cfg: Config, d: Device, c: Command, env: Env)
    requires !c.SignTx?
    ensures Spares(d, Handle(cfg, d, c, env))
  {
    hide StepMsg, StepToken;
    match c
    case SignMsg(p1, data) => MessageSpares(d, p1, data, env);
    case SignToken(p1, data) => TokenSpares(d, p1, data, env);
    case _ => {}
  }

  lemma MessageSpares(d: Device, p1: nat, data: string, env: Env)
    ensures Spares(d, StepMsg(d, p1, data, env))
  {
    hide MessagePrefix, U4BE;
  }

  lemma TokenSpares(d: Device, p1: nat, data: string, env: Env)
    ensures Spares(d, StepToken(d, p1, data, env))
  {
    hide TokenDisplayText, ScanAll, TokenPrefix, U4BE, Preview;
  }

  /** In every run, whatever is interleaved: while a transaction is being signed
      the device has hashed and parsed exactly its chunks so far, unless a token
      amount failed; then its hash has been used up. */
  lemma {:induction false} PendingAlways(cfg: Config, d: Device, events: seq<Event>)
    requires d.app == Waiting
    ensures DeviceAfter(cfg, d, events).app == SigningTx ==>
      if AmountFailed(cfg, d, events) then !DeviceAfter(cfg, d, events).hasher.Absorbing?
      else Pending(cfg, DeviceAfter(cfg, d, events), StartHash(cfg, d, events), Chunks(events))
    decreases |events|
  {
    hide StepTx, StepMsg, StepToken, Pending;
    if events != [] {
      var before, last := Front(events), Last(events);
      var d' := DeviceAfter(cfg, d, before);
      PendingAlways(cfg, d, before);
      if last.command.SignTx? {
        TxPending(cfg, d, events);
      } else {
        OtherKinds(cfg, d', last.command, last.env);
        if DeviceAfter(cfg, d, events).app == SigningTx && !AmountFailed(cfg, d, events) {
          SamePending(cfg, d', DeviceAfter(cfg, d, events), StartHash(cfg, d, before), Chunks(before));
        }
      }
    }
  }

  lemma SamePending(cfg: Config, d: Device, d': Device, start: Hash, chunks: seq<Chunk>)
    requires Pending(cfg, d, start, chunks)
    requires d'.hasher == d.hasher && d'.hash == d.hash && d'.tx == d.tx
    ensures Pending(cfg, d', start, chunks)
  {
    hide Feed, Join;
  }

  /** A hash that has been used up stays so, and what is signed then is no
      chunks at all. */
  lemma UsedUp(cfg: Config, d: Device, p1: nat, b: back, data: string, env: Env)
    requires d.app == SigningTx && !d.hasher.Absorbing? && p1 != P1_FIRST
    ensures
      var r := StepTx(cfg, d, p1, b, data, env);
      && (r.device.app == SigningTx ==> !r.device.hasher.Absorbing?)
      && (r.signature.Some? ==> r.signature == Some(OfTx(Undefined)))
  {
    hide ParseData, IsEsdtTransfer, EsdtAmount;
  }

  /** The step of the invariant for transaction commands. */
  lemma TxPending(cfg: Config, d: Device, events: seq<Event>)
    requires events != [] && Last(events).command.SignTx?
    requires
      var before := Front(events);
      DeviceAfter(cfg, d, before).app == SigningTx ==>
        if AmountFailed(cfg, d, before) then !DeviceAfter(cfg, d, before).hasher.Absorbing?
        else Pending(cfg, DeviceAfter(cfg, d, before), StartHash(cfg, d, before), Chunks(before))
    ensures DeviceAfter(cfg, d, events).app == SigningTx ==>
      if AmountFailed(cfg, d, events) then !DeviceAfter(cfg, d, events).hasher.Absorbing?
      else Pending(cfg, DeviceAfter(cfg, d, events), StartHash(cfg, d, events), Chunks(events))
  {
    hide HashTx, Pending, Completed;
    var before, c, env := Front(events), Last(events).command, Last(events).env;
    var d' := DeviceAfter(cfg, d, before);
    if d'.app == Halted {
    } else if c.p1 == P1_FIRST {
      FirstChunk(cfg, d', c.header, c.data, env);
      CompletedSigned(cfg, LastReply(cfg, d, events), d'.hash.(status := Idle), Chunks(events));
    } else if c.p1 == P1_MORE && d'.app == SigningTx {
      if AmountFailed(cfg, d, before) {
        UsedUp(cfg, d', c.p1, c.header, c.data, env);
      } else {
        NextChunk(cfg, d', c.header, c.data, env, StartHash(cfg, d, before), Chunks(before));
        CompletedSigned(cfg, LastReply(cfg, d, events), StartHash(cfg, d, before), Chunks(events));
      }
    }
  }

  lemma CompletedSigned(cfg: Config, r: Reply, start: Hash, chunks: seq<Chunk>)
    ensures Completed(cfg, r, start, chunks) ==>
      r.signature.Some? && r.signature.value.OfTx? && r.signature.value.hash != Undefined
  {
    hide Feed, Join, IsEsdtTransfer, EsdtAmount;
  }

  // ---- Failed amounts ----------------------------------------------------------------------------

  lemma {:induction false} InfoKnown(cfg: Config, d: Device, events: seq<Event>)
    ensures DeviceAfter(cfg, d, events).info == InfoAt(d, events)
    decreases |events|
  {
    hide Handle;
    if events != [] {
      InfoKnown(cfg, d, Front(events));
      InfoKept(cfg, DeviceAfter(cfg, d, Front(events)), Last(events).command, Last(events).env);
    }
  }

  lemma InfoKept(cfg: Config, d: Device, c: Command, env: Env)
    ensures Handle(cfg, d, c, env).device.info == if c.ProvideInfo? then c.info else d.info
  {
    hide ParseData, TokenDisplayText, ScanAll, MessagePrefix, TokenPrefix, U4BE, Preview, IsEsdtTransfer, EsdtAmount;
  }

  lemma StaysHalted(cfg: Config, d: Device, c: Command, env: Env)
    ensures d.app == Halted ==>
      Handle(cfg, d, c, env).device.app == Halted && Handle(cfg, d, c, env).signature == None
  {
    hide StepTx, StepMsg, StepToken;
    if d.app == Halted {
      HaltedTx(cfg, d, c, env);
    }
  }

  lemma HaltedTx(cfg: Config, d: Device, c: Command, env: Env)
    requires d.app == Halted
    ensures c.SignTx? ==> StepTx(cfg, d, c.p1, c.header, c.data, env) == Answer(d, OVERRUN)
    ensures c.SignMsg? ==> StepMsg(d, c.p1, c.data, env) == Answer(d, OVERRUN)
    ensures c.SignToken? ==> StepToken(d, c.p1, c.data, env) == Answer(d, OVERRUN)
  {
  }

  /** A later chunk continues an open session or is answered without effect. */
  lemma NotStarted(cfg: Config, d: Device, p1: nat, b: back, data: string, env: Env)
    requires p1 != P1_FIRST
    ensures
      var r := StepTx(cfg, d, p1, b, data, env);
      && (d.app != SigningTx || p1 != P1_MORE ==> r.device == d && r.signature == None)
      && (r.device.app == SigningTx || r.signature.Some? ==> d.app == SigningTx)
  {
    hide HashTx;
  }

  /** A failed amount is one that is not shown. */
  lemma UnshownReply(cfg: Config, r: Reply, env: Env, start: Hash, chunks: seq<Chunk>)
    requires chunks != [] && ChunkOutcome(cfg, r, env, start, chunks)
    ensures r.signature.Some? && r.signature.value.OfTx? && !r.reviewed
      <==> env.signs && Unshown(cfg, start, chunks, r.device.info)
  {
    hide Feed, Join, AmountShown, ShownTx, Pending, Over;
  }

  /** While a transaction session is open, whether an amount failed can be told
      from what was sent. */
  lemma {:induction false} FailedIffUnshown(cfg: Config, d: Device, events: seq<Event>)
    requires d.app == Waiting && DeviceAfter(cfg, d, events).app == SigningTx
    ensures AmountFailed(cfg, d, events) <==> UnshownAmount(cfg, d, events)
    decreases |events|
  {
    hide Unshown, StepTx, StepMsg, StepToken, ChunkOutcome, Pending;
    var before, e := Front(events), Last(events);
    var c, env, d' := e.command, e.env, DeviceAfter(cfg, d, before);
    var r := LastReply(cfg, d, events);
    InfoKnown(cfg, d, events);
    if !c.SignTx? {
      OtherKinds(cfg, d', c, env);
      FailedIffUnshown(cfg, d, before);
    } else if StartsTx(c) {
      StaysHalted(cfg, d', c, env);
      FirstChunk(cfg, d', c.header, c.data, env);
      UnshownReply(cfg, r, env, StartHash(cfg, d, events), Chunks(events));
    } else {
      NotStarted(cfg, d', c.p1, c.header, c.data, env);
      FailedIffUnshown(cfg, d, before);
      if !AmountFailed(cfg, d, before) && c.p1 == P1_MORE {
        PendingAlways(cfg, d, before);
        NextChunk(cfg, d', c.header, c.data, env, StartHash(cfg, d, before), Chunks(before));
        UnshownReply(cfg, r, env, StartHash(cfg, d, events), Chunks(events));
      }
    }
  }

  /** In every run: a transaction is signed only in the step in which its parse
      is complete. What is signed is the concatenation of its chunks since the
      first one, and what is shown was parsed from those same chunks, if and only
      if no earlier chunks since the first one were a complete transaction whose
      token amount is not shown. Otherwise the signature covers no chunks. */
  lemma TransactionSigned(cfg: Config, d: Device, events: seq<Event>)
    requires d.app == Waiting && events != []
    requires
      var r := LastReply(cfg, d, events);
      r.signature.Some? && r.signature.value.OfTx?
    ensures Last(events).command.SignTx?
    ensures
      var r := LastReply(cfg, d, events);
      Completed(cfg, r, StartHash(cfg, d, events), Chunks(events))
      <==> StartsTx(Last(events).command) || !UnshownAmount(cfg, d, Front(events))
    ensures
      var r := LastReply(cfg, d, events);
      !StartsTx(Last(events).command) && UnshownAmount(cfg, d, Front(events)) ==> r.signature == Some(OfTx(Undefined))
  {
    hide StepTx, StepMsg, StepToken, ChunkOutcome, Completed, Pending, UnshownAmount;
    var before, c, env := Front(events), Last(events).command, Last(events).env;
    var d', r := DeviceAfter(cfg, d, before), LastReply(cfg, d, events);
    StaysHalted(cfg, d', c, env);
    if !c.SignTx? {
      OtherKinds(cfg, d', c, env);
    } else if c.p1 == P1_FIRST {
      FirstChunk(cfg, d', c.header, c.data, env);
      OutcomeCompleted(cfg, r, env, StartHash(cfg, d, events), Chunks(events));
    } else {
      NotStarted(cfg, d', c.p1, c.header, c.data, env);
      PendingAlways(cfg, d, before);
      FailedIffUnshown(cfg, d, before);
      CompletedSigned(cfg, r, StartHash(cfg, d, events), Chunks(events));
      if AmountFailed(cfg, d, before) {
        UsedUp(cfg, d', c.p1, c.header, c.data, env);
      } else {
        NextChunk(cfg, d', c.header, c.data, env, StartHash(cfg, d, before), Chunks(before));
        OutcomeCompleted(cfg, r, env, StartHash(cfg, d, events), Chunks(events));
      }
    }
  }

  /** In every run: the reply to a transaction command that is not signed. A chunk
      that the parser rejects is answered with its code and ends the session, one
      that it accepts waits for more; a later chunk is refused when no session is
      open, and any other P1 always. */
  lemma TransactionAnswered(cfg: Config, d: Device, events: seq<Event>)
    requires d.app == Waiting && events != [] && Last(events).command.SignTx?
    requires DeviceAfter(cfg, d, Front(events)).app != Halted && LastReply(cfg, d, events).signature == None
    ensures
      var r, c, d' := LastReply(cfg, d, events), Last(events).command, DeviceAfter(cfg, d, Front(events));
      if c.p1 != 0x00 && c.p1 != 0x80 then r == Reply(d', 0x6E03, None, false)
      else if c.p1 == 0x80 && d'.app != SigningTx then r == Reply(d', 0x6E02, None, false)
      else c.p1 == 0x00 || !UnshownAmount(cfg, d, Front(events)) ==>
        Chunks(events) != [] &&
        var o := Feed(cfg, State(StartHash(cfg, d, events), EMPTY), Chunks(events));
        Answered(r, Last(events).env, o.code, o.state.hash.status)
  {
    hide StepMsg, StepToken, Pending, UnshownAmount, HashTx, Feed, Answered, Completed, Over;
    var before, c, env := Front(events), Last(events).command, Last(events).env;
    var d' := DeviceAfter(cfg, d, before);
    if c.p1 == 0x00 {
      FirstChunk(cfg, d', c.header, c.data, env);
    } else if c.p1 == 0x80 && d'.app == SigningTx {
      PendingAlways(cfg, d, before);
      FailedIffUnshown(cfg, d, before);
      if !AmountFailed(cfg, d, before) {
        NextChunk(cfg, d', c.header, c.data, env, StartHash(cfg, d, before), Chunks(before));
      }
    }
  }

  lemma OutcomeCompleted(cfg: Config, r: Reply, env: Env, start: Hash, chunks: seq<Chunk>)
    requires chunks != [] && ChunkOutcome(cfg, r, env, start, chunks) && r.signature.Some?
    ensures Completed(cfg, r, start, chunks)
  {
    hide Completed, Pending, Over;
  }

  lemma {:induction false} StartIdle(cfg: Config, d: Device, events: seq<Event>)
    ensures StartHash(cfg, d, events).status == Idle
    decreases |events|
  {
    hide DeviceAfter;
    if events != [] {
      StartIdle(cfg, d, Front(events));
    }
  }

  /** The chunks are a client's transaction, in an admissible split. */
  ghost predicate SplitOf(cfg: Config, t: Transaction, chunks: seq<Chunk>) {
    InBounds(cfg, t) && SplitInto(t, chunks) && PaddingSeen(t, chunks)
  }

  /** A signed client's transaction: what the signature covers and what is put up
      for approval. */
  ghost predicate SignedAs(cfg: Config, t: Transaction, r: Reply) {
    var tx := Expected(cfg, t);
    && r.signature == Some(OfTx(Finished(Json(Items(t)))))
    && (r.reviewed <==> AmountShown(tx, r.device.info))
    && (r.reviewed ==> r.device.tx == ShownTx(tx, r.device.info))
    && (r.device.app == Halted <==> AmountHalts(tx, r.device.info))
  }

  /** Together with the parser: when the chunks are a client's transaction, the
      signature covers its printed form and the screen shows its contents. */
  lemma SignedTransactionShown(cfg: Config, d: Device, events: seq<Event>, t: Transaction)
    requires d.app == Waiting && events != []
    requires
      var r := LastReply(cfg, d, events);
      r.signature.Some? && r.signature.value.OfTx?
    requires StartsTx(Last(events).command) || !UnshownAmount(cfg, d, Front(events))
    requires SplitOf(cfg, t, Chunks(events))
    ensures SignedAs(cfg, t, LastReply(cfg, d, events))
  {
    hide LastReply, InBounds, Join, Json, Items, PaddingSeen, Feed, AmountShown, ShownTx, Chunks, Expected;
    hide StartHash, UnshownAmount;
    TransactionSigned(cfg, d, events);
    var start, chunks := StartHash(cfg, d, events), Chunks(events);
    StartIdle(cfg, d, events);
    TransactionParsed(cfg, t, start, chunks);
  }

  // ---- Whole transactions --------------------------------------------------------------------------

  /** The commands that send some chunks, the first one first. */
  function Sent(chunks: seq<Chunk>, env: Env): (events: seq<Event>)
    ensures |events| == |chunks|
    ensures forall i :: 0 <= i < |chunks| ==>
      events[i] == Event(SignTx(if i == 0 then P1_FIRST else P1_MORE, chunks[i].header, chunks[i].data), env)
  {
    seq(|chunks|, i requires 0 <= i < |chunks| =>
      Event(SignTx(if i == 0 then P1_FIRST else P1_MORE, chunks[i].header, chunks[i].data), env))
  }

  lemma SentMore(before: seq<Event>, chunks: seq<Chunk>, env: Env)
    requires chunks != []
    ensures
      var events := before + Sent(chunks, env);
      && events != []
      && Front(events) == before + Sent(chunks[..|chunks| - 1], env)
      && Last(events) == Sent(chunks, env)[|chunks| - 1]
  {
  }

  /** The device while chunks are sent without interruption, after any run. */
  lemma {:induction false} SendingChunks(cfg: Config, d: Device, before: seq<Event>, chunks: seq<Chunk>, env: Env)
    requires DeviceAfter(cfg, d, before).app != Halted && chunks != []
    requires forall k :: 0 < k < |chunks| ==>
      var o := Feed(cfg, State(DeviceAfter(cfg, d, before).hash.(status := Idle), EMPTY), chunks[..k]);
      o.code == MSG_OK && o.state.hash.status != Idle
    ensures
      var start, events := DeviceAfter(cfg, d, before).hash.(status := Idle), before + Sent(chunks, env);
      && ChunkOutcome(cfg, LastReply(cfg, d, events), env, start, chunks)
      && LastReply(cfg, d, events).device.info == DeviceAfter(cfg, d, before).info
    decreases |chunks|
  {
    hide Handle, StepTx, ChunkOutcome, Feed, Pending;
    var start, n := DeviceAfter(cfg, d, before).hash.(status := Idle), |chunks|;
    var c := chunks[n - 1];
    SentMore(before, chunks, env);
    if n == 1 {
      assert Sent(chunks[..0], env) == [] && before + [] == before;
      FirstChunk(cfg, DeviceAfter(cfg, d, before), c.header, c.data, env);
      HandleTx(cfg, DeviceAfter(cfg, d, before), P1_FIRST, c, env);
      assert chunks == [Chunk(c.header, c.data)];
    } else {
      var front := chunks[..n - 1];
      forall k | 0 < k < n - 1 ensures front[..k] == chunks[..k] {
      }
      SendingChunks(cfg, d, before, front, env);
      var d' := DeviceAfter(cfg, d, before + Sent(front, env));
      SentMore(before, front, env);
      OutcomePending(cfg, LastReply(cfg, d, before + Sent(front, env)), env, start, front);
      NextChunk(cfg, d', c.header, c.data, env, start, front);
      HandleTx(cfg, d', P1_MORE, c, env);
      assert chunks == front + [Chunk(c.header, c.data)];
    }
  }

  lemma HandleTx(cfg: Config, d: Device, p1: nat, c: Chunk, env: Env)
    ensures Handle(cfg, d, SignTx(p1, c.header, c.data), env) == StepTx(cfg, d, p1, c.header, c.data, env)
  {
    hide StepTx;
  }

  lemma OutcomePending(cfg: Config, r: Reply, env: Env, start: Hash, chunks: seq<Chunk>)
    requires chunks != [] && ChunkOutcome(cfg, r, env, start, chunks)
    requires
      var o := Feed(cfg, State(start, EMPTY), chunks);
      o.code == MSG_OK && o.state.hash.status != Idle
    ensures r.device.app == SigningTx && Pending(cfg, r.device, start, chunks)
  {
    hide Feed, Pending, Completed, Over;
  }

  /** A client's transaction sent without interruption, after any run and in any
      admissible split, is signed with its last chunk; it is put up for approval
      unless its token amount cannot be shown. */
  lemma ClientSigned(cfg: Config, d: Device, before: seq<Event>, t: Transaction, chunks: seq<Chunk>, env: Env)
    requires DeviceAfter(cfg, d, before).app != Halted && env.signs && SplitOf(cfg, t, chunks)
    ensures
      var r := LastReply(cfg, d, before + Sent(chunks, env));
      SignedAs(cfg, t, r) && r.device.info == DeviceAfter(cfg, d, before).info
  {
    hide LastReply, InBounds, Join, Json, Items, PaddingSeen, SamePadding, Feed, AmountShown, ShownTx, Expected, Over;
    hide Effects;
    var start := DeviceAfter(cfg, d, before).hash.(status := Idle);
    ItemsStored(cfg, t);
    TransactionParsed(cfg, t, start, chunks);
    PaddingSame(cfg, t, chunks);
    forall k | 0 < k < |chunks| ensures
      var o := Feed(cfg, State(start, EMPTY), chunks[..k]);
      o.code == MSG_OK && o.state.hash.status != Idle
    {
      SplitWaits(cfg, State(start, EMPTY), Items(t), chunks, k);
    }
    SendingChunks(cfg, d, before, chunks, env);
  }

  lemma OneEvent(cfg: Config, d: Device, e: Event)
    ensures DeviceAfter(cfg, d, [e]) == Handle(cfg, d, e.command, e.env).device
  {
    hide Handle;
    assert Front([e]) == [];
    assert DeviceAfter(cfg, d, Front([e])) == d;
  }

  /** A run in which an amount fails: the token is announced, then a transfer of
      it is sent whose amount is refused. */
  lemma FailingRun(cfg: Config, d: Device, info: Info, t: Transaction, chunk: Chunk, env: Env)
    requires d.app == Waiting && env.signs && SplitOf(cfg, t, [chunk])
    requires IsEsdtTransfer(Expected(cfg, t), info) && AmountRefused(Expected(cfg, t).esdtValue, info)
    ensures
      var events := [Event(ProvideInfo(info), env)] + Sent([chunk], env);
      && AmountFailed(cfg, d, events) && UnshownAmount(cfg, d, events)
      && DeviceAfter(cfg, d, events).app == SigningTx
  {
    hide IsEsdtTransfer, IsNumber, ValueOf, Pow, Expected, SplitOf, StepTx, UnshownAmount, Feed;
    var first := [Event(ProvideInfo(info), env)];
    var events := first + Sent([chunk], env);
    OneEvent(cfg, d, first[0]);
    SentMore(first, [chunk], env);
    ClientSigned(cfg, d, first, t, [chunk], env);
    var r := LastReply(cfg, d, events);
    assert AmountFailed(cfg, d, events);
    SignedOver(cfg, DeviceAfter(cfg, d, Front(events)), Last(events).command, Last(events).env);
    FailedIffUnshown(cfg, d, events);
  }

  lemma SignedOver(cfg: Config, d: Device, c: Command, env: Env)
    ensures
      var r := Handle(cfg, d, c, env);
      r.signature.Some? && r.signature.value.OfTx? && !r.reviewed
      ==> r.device.app == Halted || r.device.app == SigningTx
  {
    hide ParseData, TokenDisplayText, ScanAll, MessagePrefix, TokenPrefix, U4BE, Preview, IsEsdtTransfer, EsdtAmount;
  }
}
