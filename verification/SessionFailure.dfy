/** Two token transfers: one whose amount cannot be shown, and one that is signed
    although its amount is shown cut. */
module SessionFailure {
  import opened Words
  import opened Wrappers
  import opened Numerals
  import opened AmountFormat
  import opened Base64
  import opened CStrings
  import opened Uint128Text
  import opened Fee
  import opened Esdt
  import opened TxState
  import opened TxFields
  import opened TxMachine
  import opened TxJson
  import opened TxChunks
  import opened TxCanonical
  import opened TxEsdt
  import opened TokenDisplay
  import opened Session
  import opened SessionSafety

  const TOKEN: Info := Info(true, "T", "T", 0, "1")

  /** 26 hexadecimal digits, a number of more than 31 decimal ones. */
  function LargeValue(): (hex: string)
    ensures |hex| == 26
  {
    seq(26, _ => 'f')
  }

  function LargeData(): (s: string)
    ensures s == TransferText("T", LargeValue(), "")
    ensures |s| == 41 && forall i :: 0 <= i < |s| ==> 32 <= s[i] as int <= 126
  {
    "ESDTTransfer@T@" + LargeValue()
  }

  function LargeTransfer(): Transaction {
    Transaction(0, "0", "r", "s", [], [], 0, 0, TokenDisplay.Bytes(LargeData()), "1", 2, 0)
  }

  lemma {:induction false} AllF(n: nat)
    ensures AllHex(seq(n, _ => 'f'))
    ensures Eval(Values(seq(n, _ => 'f')), 16) + 1 == Pow(16, n)
  {
    var hex := seq(n, _ => 'f');
    if n > 0 {
      AllF(n - 1);
      assert Values(hex)[..n - 1] == Values(seq(n - 1, _ => 'f'));
    }
  }

  lemma LargePowers()
    ensures Pow(16, 26) > Pow(10, 31)
  {
    assert Pow(16, 6) == 0x100_0000 && Pow(16, 7) == 0x1000_0000;
    assert Pow(10, 7) == 10_000_000 && Pow(10, 8) == 100_000_000;
    hide Pow;
    PowSplit(16, 13, 13);
    PowSplit(10, 15, 16);
    PowSplit(10, 8, 8);
    PowSplit(10, 7, 8);
    PowSplit(16, 6, 7);
  }

  lemma LargeAmount()
    ensures
      var t := LargeTransfer();
      && EsdtText(t.data) == [ESDT_CODE_VALUE_OK] + LargeValue()
      && AmountRefused(EsdtText(t.data), TOKEN)
  {
    hide Pow, Eval, ExtractFrom, Encode, EsdtText, IsNumber, ValueOf, LargeTransfer;
    var t := LargeTransfer();
    LargeShown();
    AllF(26);
    LargePowers();
    HexClean(LargeValue());
    TransferFound(t.data, "T", LargeValue(), "");
    TransferShown(t.data, "T", LargeValue(), "", TOKEN);
  }

  lemma LargeShown()
    ensures |LargeTransfer().data| == 41 && |Complete(LargeTransfer().data)| == 56
    ensures ShownText(LargeTransfer().data) == TransferText("T", LargeValue(), "")
  {
    hide Encode, LargeData;
    ShownPlain(LargeData());
    EncodeLength(LargeTransfer().data);
  }

  lemma LargeInBounds(cfg: Config)
    requires cfg.contractData
    ensures InBounds(cfg, LargeTransfer())
  {
    hide Complete, ShowsTransfer, ChargedFee;
    var t := LargeTransfer();
    LargeShown();
    MarshalPlain(t.receiver);
    MarshalPlain(t.sender);
    MarshalPlain(t.chainId);
    NoFee(|t.data|);
    ZeroText();
    NothingEncoded();
  }

  lemma NothingEncoded()
    ensures Complete([]) == []
  {
  }

  lemma NoFee(n: uint32)
    ensures ChargedFee(0, 0, n) == 0
  {
  }

  /** After this token is announced, sending this transfer fails and leaves the
      session open. */
  lemma LargeTransferFails(cfg: Config, d: Device, header: back, env: Env)
    requires cfg.contractData && d.app == Waiting && env.signs
    ensures
      var chunk := Chunk(header, Json(Items(LargeTransfer())));
      var events := [Event(ProvideInfo(TOKEN), env)] + Sent([chunk], env);
      && AmountFailed(cfg, d, events) && UnshownAmount(cfg, d, events)
      && DeviceAfter(cfg, d, events).app == SigningTx
  {
    hide AmountFailed, UnshownAmount, DeviceAfter, InBounds, Json, Items, IsEsdtTransfer, Complete, AmountRefused;
    hide EsdtText, ShownText, DataQuote, CStr;
    CStrOf("1", "1");
    var t := LargeTransfer();
    var chunk := Chunk(header, Json(Items(t)));
    LargeShown();
    LargeAmount();
    LargeInBounds(cfg);
    MarshalPlain("1");
    TransferRecognized(cfg, t, "T", LargeValue(), "", TOKEN);
    OneChunk(cfg, t, header);
    FailingRun(cfg, d, TOKEN, t, chunk, env);
  }

  lemma OneChunk(cfg: Config, t: Transaction, header: back)
    requires InBounds(cfg, t)
    ensures SplitOf(cfg, t, [Chunk(header, Json(Items(t)))])
  {
    hide Items, Fields, DataQuote, InBounds, PaddingSeen, Padding;
    var chunks := [Chunk(header, Json(Items(t)))];
    assert chunks[1..] == [];
    assert Join(chunks) == Json(Items(t)) == Json(Items(t))[0..];
    PaddingSame(cfg, t, chunks);
  }

  // ---- A value that is cut -----------------------------------------------------------------------

  const USDC_ID: ShortText := "425553442d663263343664"
  const USDC: Info := Info(true, "USDC", USDC_ID, 6, "1")

  /** The digits of the value that are searched, and the rest. */
  const SEEN_VALUE: string := "02069ce90158"
  const UNSEEN_VALUE: string := "590000"

  function SentValue(): string { SEEN_VALUE + UNSEEN_VALUE }

  function Arguments(): (s: string)
    ensures |s| == 186 && s[0] == '@' && TokenDisplay.Printable(s)
  {
    "@" + seq(185, _ => '0')
  }

  lemma JoinPrintable(a: string, b: string)
    requires TokenDisplay.Printable(a) && TokenDisplay.Printable(b)
    ensures TokenDisplay.Printable(a + b)
  {
  }

  /** A contract call with 240 bytes of data. */
  function CutData(): (s: string)
    ensures |s| == 240 && TokenDisplay.Printable(s)
  {
    JoinPrintable(ESDT_TRANSFER_PREFIX, USDC_ID);
    JoinPrintable(ESDT_TRANSFER_PREFIX + USDC_ID, "@");
    JoinPrintable(SEEN_VALUE, UNSEEN_VALUE);
    JoinPrintable(ESDT_TRANSFER_PREFIX + USDC_ID + "@", SentValue());
    JoinPrintable(ESDT_TRANSFER_PREFIX + USDC_ID + "@" + SentValue(), Arguments());
    TransferText(USDC_ID, SentValue(), Arguments())
  }

  function CutTransfer(): Transaction {
    Transaction(0, "0", "r", "s", [], [], 0, 0, TokenDisplay.Bytes(CutData()), "1", 2, 0)
  }

  lemma NextDigit(t: string)
    requires t != "" && AllHex(t)
    ensures AllHex(t[..|t| - 1])
    ensures Eval(Values(t), 16) == Eval(Values(t[..|t| - 1]), 16) * 16 + DigitValue(t[|t| - 1])
  {
    assert Values(t)[..|t| - 1] == Values(t[..|t| - 1]);
  }

  /** Six more digits. */
  lemma SixDigits(head: string, tail: string)
    requires AllHex(head) && AllHex(tail) && |tail| == 6
    ensures AllHex(head + tail)
    ensures Eval(Values(head + tail), 16)
      == (((((Eval(Values(head), 16) * 16 + DigitValue(tail[0])) * 16 + DigitValue(tail[1])) * 16
           + DigitValue(tail[2])) * 16 + DigitValue(tail[3])) * 16 + DigitValue(tail[4])) * 16 + DigitValue(tail[5])
  {
    hide Eval, Values, DigitValue, AllHex;
    var t := head + tail;
    JoinHex(head, tail);
    NextDigit(t);
    NextDigit(t[..|head| + 5]);
    NextDigit(t[..|head| + 4]);
    NextDigit(t[..|head| + 3]);
    NextDigit(t[..|head| + 2]);
    NextDigit(t[..|head| + 1]);
    assert t[..|head| + 5][..|head| + 4] == t[..|head| + 4] && t[..|head| + 4][..|head| + 3] == t[..|head| + 3];
    assert t[..|head| + 3][..|head| + 2] == t[..|head| + 2] && t[..|head| + 2][..|head| + 1] == t[..|head| + 1];
    assert t[..|head| + 1][..|head|] == head;
  }

  lemma SeenDigits()
    ensures AllHex(SEEN_VALUE) && Eval(Values(SEEN_VALUE), 16) == 0x2069_ce90_158
  {
    hide Eval, Values;
    NoDigits();
    assert "" + "02069c" == "02069c";
    SixDigits("", "02069c");
    assert "02069c" + "e90158" == SEEN_VALUE;
    SixDigits("02069c", "e90158");
  }

  lemma SentDigits()
    ensures AllHex(SentValue()) && Eval(Values(SentValue()), 16) == 0x2_069c_e901_5859_0000
  {
    hide Eval, Values;
    SeenDigits();
    JoinHex(SEEN_VALUE, UNSEEN_VALUE);
    SixDigits(SEEN_VALUE, UNSEEN_VALUE);
  }

  lemma JoinHex(a: string, b: string)
    requires AllHex(a) && AllHex(b)
    ensures AllHex(a + b)
  {
  }

  lemma NoDigits()
    ensures Eval(Values(""), 16) == 0
  {
    assert Values("") == [];
  }

  lemma CutDataShown()
    ensures ShownText(CutTransfer().data) == CutData() && |CutTransfer().data| == 240
    ensures |Complete(CutTransfer().data)| == 320
  {
    hide Encode, CutData;
    ShownPlain(CutData());
    EncodeLength(CutTransfer().data);
  }

  /** Twelve of eighteen digits are found and shown. */
  lemma CutAmount()
    ensures
      var v := EsdtText(CutTransfer().data);
      && v == [ESDT_CODE_VALUE_OK] + SEEN_VALUE
      && !AmountRefused(v, USDC) && !AmountOverruns(v, USDC)
      && EsdtAmount(v, USDC) == (MSG_OK, Pretty(Numerals.Print(0x2069_ce90_158, 10), 6, "USDC"))
  {
    hide Eval, Encode, EsdtText, Numerals.Print, Pow, CStr, ValueOf, TooWide, Pretty, EsdtAmount, Values, AllHex;
    hide SentValue, TransferText, Window, ValueAt, Seen, LongestValue, CutTransfer, ShownText, Info.Ticker;
    var data := CutTransfer().data;
    CutDataShown();
    SeenDigits();
    SentDigits();
    HexClean(SentValue());
    UsdcTicker();
    SeenTwelve();
    TransferExtracted(data, USDC_ID, SentValue(), Arguments());
    TransferShown(data, USDC_ID, SentValue(), Arguments(), USDC);
    ManyDigits(0x2069_ce90_158);
  }

  lemma UsdcTicker()
    ensures USDC.Ticker() == "USDC" && USDC.Chain() == "1" && '@' !in USDC_ID
  {
    hide CStr;
    CStrOf("USDC", "USDC");
    CStrOf("1", "1");
  }

  lemma SeenTwelve()
    ensures Window(240) == 48 && Missing(240) == 0 && ValueAt(USDC_ID) == 36
    ensures Seen(USDC_ID, SentValue(), 48) == SEEN_VALUE && LongestValue(USDC_ID, SentValue(), 48) == 31
  {
    assert SentValue()[..12] == SEEN_VALUE;
  }

  /** Numbers of seven to 31 digits fit with six decimals. */
  lemma ManyDigits(n: nat)
    requires 10_000_000 <= n < 1_000_000_000_000_000
    ensures n < Pow(10, 31) && !TooWide(Numerals.Print(n, 10), 6, "USDC", AMOUNT_SIZE)
  {
    hide Pow, Digits, TrimZeros;
    DigitCount(n, 10, 6);
    PowersBetween();
    PrintDecimal(n);
  }

  lemma PowersBetween()
    ensures Pow(10, 6) == 1_000_000 && Pow(10, 31) > 1_000_000_000_000_000
  {
    assert Pow(10, 6) == 1_000_000 && Pow(10, 7) == 10_000_000;
    hide Pow;
    PowSplit(10, 7, 6);
    PowSplit(10, 13, 7);
    PowSplit(10, 20, 7);
    PowAtLeast(10, 4);
    PowSplit(10, 27, 4);
  }

  lemma CutInBounds(cfg: Config)
    requires cfg.contractData
    ensures InBounds(cfg, CutTransfer())
  {
    hide Complete, ChargedFee, CutData;
    var t := CutTransfer();
    CutDataShown();
    MarshalPlain(t.receiver);
    MarshalPlain(t.sender);
    MarshalPlain(t.chainId);
    NoFee(|t.data|);
    ZeroText();
    NothingEncoded();
  }

  /** The chunks are a transaction in a split that the parser reads. */
  ghost predicate Admissible(t: Transaction, chunks: seq<Chunk>) {
    SplitInto(t, chunks) && PaddingSeen(t, chunks)
  }

  /** The transaction is signed and put up for approval with an amount of USDC. */
  ghost predicate SignedWith(r: Reply, t: Transaction, n: nat) {
    && r.signature == Some(OfTx(Finished(Json(Items(t)))))
    && r.reviewed && r.device.tx.amount == Pretty(Numerals.Print(n, 10), 6, "USDC")
  }

  /** A token is announced, then some chunks are sent. */
  function Announcing(info: Info, chunks: seq<Chunk>, env: Env): (events: seq<Event>)
    ensures events != []
  {
    [Event(ProvideInfo(info), env)] + Sent(chunks, env)
  }

  /** Sent in any admissible split, this transfer of 02069ce90158590000 units is
      signed and put up for approval with the amount 02069ce90158. */
  lemma CutTransferSigned(cfg: Config, d: Device, chunks: seq<Chunk>, env: Env)
    requires cfg.contractData && d.app == Waiting && env.signs && Admissible(CutTransfer(), chunks)
    ensures SignedWith(LastReply(cfg, d, Announcing(USDC, chunks, env)), CutTransfer(), 0x2069_ce90_158)
  {
    hide InBounds, Json, Items, SplitInto, PaddingSeen, Sent, LastReply, CutTransfer, Expected, IsEsdtTransfer;
    hide EsdtAmount, AmountRefused, AmountOverruns, Pretty, Numerals.Print, CutData, Info.Chain, ShownText, SentValue;
    var t, before := CutTransfer(), [Event(ProvideInfo(USDC), env)];
    CutInBounds(cfg);
    CutAmount();
    CutRecognized(cfg);
    ExpectedValue(cfg, t);
    Announced(cfg, d, USDC, env);
    ClientSigned(cfg, d, before, t, chunks, env);
  }

  lemma ExpectedValue(cfg: Config, t: Transaction)
    ensures Expected(cfg, t).esdtValue == EsdtText(t.data)
  {
  }

  lemma CutRecognized(cfg: Config)
    ensures IsEsdtTransfer(Expected(cfg, CutTransfer()), USDC)
  {
    hide Complete, Expected, IsEsdtTransfer, CutData, TransferText, ShownText, CStr, SentValue;
    CutDataShown();
    UsdcTicker();
    MarshalPlain("1");
    SameText();
    TransferRecognized(cfg, CutTransfer(), USDC_ID, SentValue(), Arguments(), USDC);
  }

  lemma SameText()
    ensures CutData() == TransferText(USDC_ID, SentValue(), Arguments()) && CutTransfer().chainId == "1"
  {
  }

  lemma Announced(cfg: Config, d: Device, info: Info, env: Env)
    ensures
      var d' := DeviceAfter(cfg, d, [Event(ProvideInfo(info), env)]);
      d'.app == d.app && d'.info == info
  {
    OneEvent(cfg, d, Event(ProvideInfo(info), env));
  }
}
