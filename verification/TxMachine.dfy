/** The byte-at-a-time parser of a transaction, and its independence of how
    the transaction is cut into APDU chunks. */
module TxMachine {
  import opened Words
  import opened Numerals
  import opened TxState
  import opened TxFields

  /** One byte either leaves the parser waiting for more or ends the call. */
  datatype Outcome = Continue(state: State) | Return(code: nat, state: State)

  // ---- One byte --------------------------------------------------------------------

  function Pads(p1: char, p2: char): nat {
    (if p1 == '=' then 1 else 0) + (if p2 == '=' then 1 else 0)
  }

  /** At this byte the parser inspects the two bytes before it. */
  predicate LooksBack(h: Hash, c: char) {
    h.status == ProcessingString && c == '"' && IsData(h) && h.valueLen > 2
  }

  /** Decoded size recorded when a string ends; p1 and p2 are the bytes before
      the closing quote, the nearest first. */
  function FieldSize(h: Hash, p1: char, p2: char): uint32 {
    if !IsData(h) then h.dataFieldSize
    else if h.valueLen > 2 then (h.valueLen / 4 * 3 - Pads(p1, p2)) % TWO32
    else h.valueLen / 4 * 3
  }

  function Append(h: Hash, c: char): Hash
    requires h.valueLen < MAX_VALUE_LEN
  {
    h.(value := h.value[h.valueLen := c], valueLen := h.valueLen + 1)
  }

  /** Stores the field just read and goes on in a given status. */
  ghost function CloseField(cfg: Config, st: State, next: Status): Outcome {
    var v := ProcessField(cfg, st.hash, st.tx);
    if v.code != MSG_OK then Return(v.code, State(v.hash, v.tx))
    else Continue(State(v.hash.(status := next), v.tx))
  }

  ghost function InString(cfg: Config, st: State, c: char, p1: char, p2: char): Outcome {
    var h := st.hash;
    if c == '"' then CloseField(cfg, State(h.(dataFieldSize := FieldSize(h, p1, p2)), st.tx), ExpectingComma)
    else if h.valueLen < MAX_VALUE_LEN then Continue(State(Append(h, c), st.tx))
    else if IsData(h) && h.fieldLen == |DATA_FIELD| then
      Continue(State(h.(valueLen := (h.valueLen + 1) % TWO32), st.tx))
    else Return(ERR_INVALID_MESSAGE, st)
  }

  ghost function InNumber(cfg: Config, st: State, c: char): Outcome {
    var h := st.hash;
    if c == '}' then
      var v := ProcessField(cfg, h.(status := Idle), st.tx);
      Return(v.code, State(v.hash, v.tx))
    else if c == ',' then CloseField(cfg, st, ExpectingField)
    else if h.valueLen >= MAX_VALUE_LEN || !IsDigit(c) then Return(ERR_INVALID_MESSAGE, st)
    else Continue(State(Append(h, c), st.tx))
  }

  ghost function Step(cfg: Config, st: State, c: char, p1: char, p2: char): Outcome {
    var h := st.hash;
    match h.status
    case Idle =>
      if c != '{' then Return(ERR_INVALID_MESSAGE, st)
      else Continue(State(h.(status := ExpectingField), st.tx))
    case ExpectingField =>
      if c != '"' then Return(ERR_INVALID_MESSAGE, st)
      else Continue(State(h.(status := ProcessingField, fieldLen := 0), st.tx))
    case ProcessingField =>
      if c == '"' then Continue(State(h.(status := ExpectingColon), st.tx))
      else if h.fieldLen >= MAX_FIELD_LEN then Return(ERR_INVALID_MESSAGE, st)
      else Continue(State(h.(field := h.field[h.fieldLen := c], fieldLen := h.fieldLen + 1), st.tx))
    case ExpectingColon =>
      if c != ':' then Return(ERR_INVALID_MESSAGE, st)
      else Continue(State(h.(status := ExpectingValue, valueLen := 0), st.tx))
    case ExpectingValue =>
      if c == '"' then Continue(State(h.(status := ProcessingString), st.tx))
      else if !IsDigit(c) then Return(ERR_INVALID_MESSAGE, st)
      else if h.valueLen >= MAX_VALUE_LEN then Return(OVERRUN, st)
      else Continue(State(Append(h, c).(status := ProcessingNumber), st.tx))
    case ProcessingString => InString(cfg, st, c, p1, p2)
    case ProcessingNumber => InNumber(cfg, st, c)
    case ExpectingComma =>
      if c == '}' then Return(MSG_OK, State(h.(status := Idle), st.tx))
      else if c != ',' then Return(ERR_INVALID_MESSAGE, st)
      else Continue(State(h.(status := ExpectingField), st.tx))
  }

  // ---- Whole chunks ----------------------------------------------------------------

  /** The two bytes a chunk finds before it. */
  type back = b: seq<char> | |b| == 2 witness ['\0', '\0']

  function Shift(b: back, c: char): back { [b[1], c] }

  /** The last two bytes once s has been read. */
  function After(b: back, s: seq<char>): back {
    (b + s)[|s|..]
  }

  ghost function Steps(cfg: Config, st: State, b: back, s: seq<char>): Outcome
    decreases |s|
  {
    if s == [] then Continue(st) else
      match Step(cfg, st, s[0], b[1], b[0])
      case Return(code, st') => Return(code, st')
      case Continue(st') => Steps(cfg, st', Shift(b, s[0]), s[1..])
  }

  /** parse_data: the return code and the contexts it leaves. The chunk is
      preceded in memory by the bytes P2 and LC of its APDU. */
  ghost function ParseData(cfg: Config, st: State, b: back, s: seq<char>): (o: Outcome)
    ensures o.Return?
  {
    if s == [] && st.hash.status == Idle then Return(ERR_INVALID_MESSAGE, st) else
      match Steps(cfg, st, b, s)
      case Return(code, st') => Return(code, st')
      case Continue(st') => Return(MSG_OK, st')
  }

  // ---- Chunk independence ------------------------------------------------------------

  lemma {:induction false} StepsConcat(cfg: Config, st: State, b: back, s: seq<char>, t: seq<char>)
    ensures Steps(cfg, st, b, s + t) ==
      match Steps(cfg, st, b, s)
      case Return(code, st') => Return(code, st')
      case Continue(st') => Steps(cfg, st', After(b, s), t)
    decreases |s|
  {
    hide Step;
    if s == [] {
      assert s + t == t && After(b, s) == b;
    } else {
      var o := Step(cfg, st, s[0], b[1], b[0]);
      assert (s + t)[1..] == s[1..] + t;
      if o.Continue? {
        StepsConcat(cfg, o.state, Shift(b, s[0]), s[1..], t);
        assert After(Shift(b, s[0]), s[1..]) == After(b, s);
      }
    }
  }

  lemma CloseKeepsStatus(cfg: Config, h: Hash, tx: Tx)
    ensures ProcessField(cfg, h, tx).hash.status == h.status
  {
    hide AmountFormat.Edited, Fee.ReadDecimal, Base64.DecodeText, Esdt.EsdtValue, Named, CStrings.CStr, DataText;
  }

  /** A call that succeeds without reaching the idle state read its whole chunk. */
  lemma OnlyIdleReturns(cfg: Config, st: State, c: char, p1: char, p2: char)
    ensures
      var o := Step(cfg, st, c, p1, p2);
      if o.Return? then o.code == MSG_OK ==> o.state.hash.status == Idle
      else o.state.hash.status != Idle
  {
    hide ProcessField;
    CloseKeepsStatus(cfg, st.hash.(status := Idle), st.tx);
  }

  lemma {:induction false} SuccessReadsAll(cfg: Config, st: State, b: back, s: seq<char>)
    ensures
      var o := Steps(cfg, st, b, s);
      if o.Return? then o.code == MSG_OK ==> o.state.hash.status == Idle
      else s != [] ==> o.state.hash.status != Idle
    decreases |s|
  {
    hide Step;
    if s != [] {
      OnlyIdleReturns(cfg, st, s[0], b[1], b[0]);
      var o := Step(cfg, st, s[0], b[1], b[0]);
      if o.Continue? {
        SuccessReadsAll(cfg, o.state, Shift(b, s[0]), s[1..]);
      }
    }
  }

  /** Two bytes before a chunk give the same result as two others as long as
      the inspections that reach before the chunk see the same padding. */
  ghost predicate SameLookBack(cfg: Config, st: State, b: back, b': back, s: seq<char>) {
    && (s != [] && LooksBack(st.hash, s[0]) ==> Pads(b[1], b[0]) == Pads(b'[1], b'[0]))
    && (|s| > 1 ==>
      var o := Step(cfg, st, s[0], b[1], b[0]);
      o.Continue? && LooksBack(o.state.hash, s[1]) ==> (b[1] == '=' <==> b'[1] == '='))
  }

  /** The exact influence of the two bytes before the current one. */
  lemma LookBackDecides(cfg: Config, st: State, c: char, p1: char, p2: char, q1: char, q2: char)
    ensures Step(cfg, st, c, p1, p2) == Step(cfg, st, c, q1, q2)
      <==> (LooksBack(st.hash, c) ==> Pads(p1, p2) == Pads(q1, q2))
  {
    hide ProcessField;
    var h := st.hash;
    if h.status == ProcessingString && c == '"' {
      CloseKeepsSize(cfg, h.(dataFieldSize := FieldSize(h, p1, p2)), st.tx);
      CloseKeepsSize(cfg, h.(dataFieldSize := FieldSize(h, q1, q2)), st.tx);
      SizesDiffer(h.valueLen / 4 * 3, Pads(p1, p2), Pads(q1, q2));
    }
  }

  lemma CloseKeepsSize(cfg: Config, h: Hash, tx: Tx)
    ensures ProcessField(cfg, h, tx).hash.dataFieldSize == h.dataFieldSize
  {
    hide AmountFormat.Edited, Fee.ReadDecimal, Base64.DecodeText, Esdt.EsdtValue, Named, CStrings.CStr, DataText;
  }

  lemma SizesDiffer(n: int, p: nat, q: nat)
    requires p <= 2 && q <= 2
    ensures (n - p) % TWO32 == (n - q) % TWO32 <==> p == q
  {
  }

  lemma StepsLookBack(cfg: Config, st: State, b: back, b': back, s: seq<char>)
    requires SameLookBack(cfg, st, b, b', s)
    ensures Steps(cfg, st, b, s) == Steps(cfg, st, b', s)
  {
    hide Step, LooksBack;
    if s != [] {
      LookBackDecides(cfg, st, s[0], b[1], b[0], b'[1], b'[0]);
      var o := Step(cfg, st, s[0], b[1], b[0]);
      if o.Continue? && |s| > 1 {
        LookBackDecides(cfg, o.state, s[1], s[0], b[1], s[0], b'[1]);
        assert s[1..][0] == s[1] && s[1..][1..] == s[2..];
        assert Shift(Shift(b, s[0]), s[1]) == Shift(Shift(b', s[0]), s[1]);
      }
    }
  }

  /** Two chunks are parsed as their concatenation would be: same code, same
      contexts, whatever bytes they hold. */
  lemma ChunkIndependence(cfg: Config, st: State, b: back, s: seq<char>, b': back, t: seq<char>)
    requires
      var o := ParseData(cfg, st, b, s);
      o.code == MSG_OK && o.state.hash.status != Idle
    requires SameLookBack(cfg, ParseData(cfg, st, b, s).state, After(b, s), b', t)
    ensures ParseData(cfg, ParseData(cfg, st, b, s).state, b', t) == ParseData(cfg, st, b, s + t)
  {
    hide Step, SameLookBack;
    SuccessReadsAll(cfg, st, b, s);
    StepsConcat(cfg, st, b, s, t);
    StepsLookBack(cfg, Steps(cfg, st, b, s).state, After(b, s), b', t);
  }

  /** When a chunk is cut right before the closing quote of a data value, the
      cut is harmless exactly when the header bytes happen to show as much
      padding as the value has. */
  lemma CutBeforeQuote(cfg: Config, st: State, b: back, s: seq<char>, b': back)
    requires
      var o := ParseData(cfg, st, b, s);
      o.code == MSG_OK && LooksBack(o.state.hash, '"')
    ensures
      var a := After(b, s);
      ParseData(cfg, ParseData(cfg, st, b, s).state, b', ['"']) == ParseData(cfg, st, b, s + ['"'])
      <==> Pads(a[1], a[0]) == Pads(b'[1], b'[0])
  {
    hide Step;
    SuccessReadsAll(cfg, st, b, s);
    StepsConcat(cfg, st, b, s, ['"']);
    var st' := Steps(cfg, st, b, s).state;
    OneStep(cfg, st', After(b, s), '"');
    OneStep(cfg, st', b', '"');
    LookBackDecides(cfg, st', '"', After(b, s)[1], After(b, s)[0], b'[1], b'[0]);
    QuoteOutcome(cfg, st', After(b, s)[1], After(b, s)[0], b'[1], b'[0]);
  }

  lemma OneStep(cfg: Config, st: State, b: back, c: char)
    ensures Steps(cfg, st, b, [c]) == Step(cfg, st, c, b[1], b[0])
  {
    hide Step;
    assert [c][1..] == [];
  }

  /** Whether the call ends at a closing quote shows in the state it leaves. */
  lemma QuoteOutcome(cfg: Config, st: State, p1: char, p2: char, q1: char, q2: char)
    requires LooksBack(st.hash, '"')
    ensures
      var o, o' := Step(cfg, st, '"', p1, p2), Step(cfg, st, '"', q1, q2);
      o.state == o'.state ==> o == o'
  {
    hide ProcessField;
    var h := st.hash;
    CloseKeepsSize(cfg, h.(dataFieldSize := FieldSize(h, p1, p2)), st.tx);
    CloseKeepsSize(cfg, h.(dataFieldSize := FieldSize(h, q1, q2)), st.tx);
  }
}
