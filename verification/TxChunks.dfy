/** A printed transaction sent in several APDUs. */
module TxChunks {
  import opened TxState
  import opened TxFields
  import opened TxMachine
  import opened TxJson

  /** The data of one APDU and the two header bytes before it. */
  datatype Chunk = Chunk(header: back, data: seq<char>)

  function Join(chunks: seq<Chunk>): seq<char> {
    if chunks == [] then [] else chunks[0].data + Join(chunks[1..])
  }

  /** Parsing chunk after chunk until one fails. */
  ghost function Feed(cfg: Config, st: State, chunks: seq<Chunk>): (o: Outcome)
    requires chunks != []
    ensures o.Return?
    decreases |chunks|
  {
    var o := ParseData(cfg, st, chunks[0].header, chunks[0].data);
    if |chunks| == 1 || o.code != MSG_OK then o else Feed(cfg, o.state, chunks[1..])
  }

  // ---- Where the parser looks back -------------------------------------------------------

  /** Reading the text, the parser looks back at position p. */
  ghost predicate LookBackAt(cfg: Config, st: State, b: back, s: seq<char>, p: nat) {
    && p < |s|
    && Steps(cfg, st, b, s[..p]).Continue?
    && LooksBack(Steps(cfg, st, b, s[..p]).state.hash, s[p])
  }

  /** Position p of the printed fields is the closing quote of a data value. */
  predicate DataQuote(items: seq<Item>, p: int)
    requires items != []
    decreases |items|
  {
    || (items[0].name == DATA_FIELD && items[0].value.Quoted? && p == |items[0].Print()| - 1)
    || (|items| > 1 && DataQuote(items[1..], p - |items[0].Print()| - 1))
  }

  lemma LookBackQuote(cfg: Config, st: State, b: back, s: seq<char>, p: nat)
    requires LookBackAt(cfg, st, b, s, p)
    ensures p < |s| && s[p] == '"' && Steps(cfg, st, b, s[..p]).state.hash.status == ProcessingString
    ensures IsData(Steps(cfg, st, b, s[..p]).state.hash)
  {
    hide Steps;
  }

  /** Where a printed field has quotes. */
  lemma QuotePositions(i: Item, p: nat)
    requires '"' !in i.name && '"' !in i.value.text
    requires p < |i.Print()| && i.Print()[p] == '"'
    ensures
      || p == 0
      || p == |i.name| + 1
      || (i.value.Quoted? && p == |i.name| + 3)
      || (i.value.Quoted? && p == |i.Print()| - 1)
  {
    var t := i.value.text;
    var s, start := i.Print(), |i.name| + (if i.value.Quoted? then 4 else 3);
    assert forall q :: 1 <= q <= |i.name| ==> s[q] == i.name[q - 1] && i.name[q - 1] in i.name;
    assert forall q :: start <= q < start + |t| ==> s[q] == t[q - start] && t[q - start] in t;
  }

  lemma NotData(field: fieldBuffer, name: string, h: Hash)
    requires KnownName(name) && |name| <= MAX_FIELD_LEN && name != DATA_FIELD
    requires h.field == Overlay(field, 0, name) && h.fieldLen == |name|
    ensures !IsData(h)
  {
    assert h.field[..5][0] == name[0] && |name| > 4;
  }

  /** Inside one printed field only the closing quote of data looks back. */
  lemma ItemLookBack(cfg: Config, st: State, b: back, i: Item, p: nat)
    requires Printable(i) && st.hash.status == ExpectingField
    requires LookBackAt(cfg, st, b, i.Print(), p)
    ensures i.name == DATA_FIELD && i.value.Quoted? && p == |i.Print()| - 1
  {
    hide Steps, LookBackAt, IsData, Overlay;
    var s, name, t := i.Print(), "\"" + i.name + "\":", i.value.text;
    LookBackQuote(cfg, st, b, s, p);
    NoQuoteInNames(i.name);
    QuotePositions(i, p);
    StepsNothing(cfg, st, b, s[..0]);
    NameOpen(cfg, st, b, i.name);
    assert s[..|i.name| + 1] == "\"" + i.name;
    NameRun(cfg, st, b, i.name);
    assert s[..|i.name| + 3] == name;
    if i.value.Quoted? && p == |s| - 1 {
      StepsThen(cfg, st, b, name, "\"" + t);
      QuotedRun(cfg, st, After(b, name), i);
      assert s[..p] == name + ("\"" + t);
      if i.name != DATA_FIELD {
        NotData(st.hash.field, i.name, TextRead(NameRead(st, i.name), t, ProcessingString).hash);
      }
    }
  }

  lemma StepsNothing(cfg: Config, st: State, b: back, s: seq<char>)
    requires s == []
    ensures Steps(cfg, st, b, s) == Continue(st)
  {
  }

  /** A look-back after a part that was read is one of the rest. */
  lemma LookBackLater(cfg: Config, st: State, b: back, s: seq<char>, t: seq<char>, p: nat)
    requires Steps(cfg, st, b, s).Continue? && p >= |s|
    ensures LookBackAt(cfg, st, b, s + t, p) <==> LookBackAt(cfg, Steps(cfg, st, b, s).state, After(b, s), t, p - |s|)
  {
    hide Steps, LooksBack;
    if p < |s + t| {
      assert (s + t)[..p] == s + t[..p - |s|] && (s + t)[p] == t[p - |s|];
      StepsThen(cfg, st, b, s, t[..p - |s|]);
    }
  }

  lemma LookBackEarlier(cfg: Config, st: State, b: back, s: seq<char>, t: seq<char>, p: nat)
    requires p < |s|
    ensures LookBackAt(cfg, st, b, s + t, p) <==> LookBackAt(cfg, st, b, s, p)
  {
    hide Steps, LooksBack;
    assert (s + t)[..p] == s[..p] && (s + t)[p] == s[p];
  }

  lemma LookBackOver(cfg: Config, st: State, b: back, s: seq<char>, t: seq<char>, p: nat)
    requires Steps(cfg, st, b, s).Return? && p >= |s|
    ensures !LookBackAt(cfg, st, b, s + t, p)
  {
    hide Steps, LooksBack;
    if p < |s + t| {
      assert (s + t)[..p] == s + t[..p - |s|];
      StepsConcat(cfg, st, b, s, t[..p - |s|]);
    }
  }

  /** The parser looks back only at the closing quotes of data values. */
  lemma {:induction false} FieldsLookBack(cfg: Config, st: State, b: back, items: seq<Item>, p: nat)
    requires items != [] && (forall i <- items :: Printable(i)) && st.hash.status == ExpectingField
    requires LookBackAt(cfg, st, b, Fields(items) + "}", p)
    ensures DataQuote(items, p)
    decreases |items|
  {
    hide Steps, Effect, Printable, Item.Print, LookBackAt;
    var first := items[0].Print();
    LookBackQuote(cfg, st, b, Fields(items) + "}", p);
    if |items| == 1 {
      LookBackEarlier(cfg, st, b, first, "}", p);
      ItemLookBack(cfg, st, b, items[0], p);
    } else {
      var rest := Fields(items[1..]) + "}";
      var s := first + [','];
      assert Fields(items) + "}" == s + rest;
      ItemRun(cfg, st, b, items[0], ',');
      if p < |first| {
        LookBackEarlier(cfg, st, b, s, rest, p);
        LookBackEarlier(cfg, st, b, first, [','], p);
        ItemLookBack(cfg, st, b, items[0], p);
      } else if p == |first| {
        assert false;
      } else if Steps(cfg, st, b, s).Return? {
        LookBackOver(cfg, st, b, s, rest, p);
      } else {
        LookBackLater(cfg, st, b, s, rest, p);
        FieldsLookBack(cfg, Steps(cfg, st, b, s).state, After(b, s), items[1..], p - |s|);
      }
    }
  }

  /** The same for the whole text. */
  lemma JsonLookBack(cfg: Config, st: State, b: back, items: seq<Item>, p: nat)
    requires items != [] && (forall i <- items :: Printable(i)) && st.hash.status == Idle
    requires LookBackAt(cfg, st, b, Json(items), p)
    ensures p >= 1 && DataQuote(items, p - 1)
  {
    hide Steps, Effects, Printable, Fields, LookBackAt, DataQuote;
    LookBackQuote(cfg, st, b, Json(items), p);
    var begun := State(st.hash.(status := ExpectingField), st.tx);
    OneStep(cfg, st, b, '{');
    var fields := Fields(items) + "}";
    assert Json(items) == "{" + fields;
    LookBackLater(cfg, st, b, "{", fields, p);
    FieldsLookBack(cfg, begun, After(b, "{"), items, p - 1);
  }

  // ---- Chunks ----------------------------------------------------------------------------

  /** The two bytes before a position as the parser finds them: in its chunk, or in
      the header of that chunk. */
  function SeenAt(chunks: seq<Chunk>, p: nat): back
    requires p < |Join(chunks)|
    decreases |chunks|
  {
    var first := chunks[0];
    if p < |first.data| then After(first.header, first.data[..p]) else SeenAt(chunks[1..], p - |first.data|)
  }

  /** How much padding two bytes show. */
  function Padding(b: back): nat { Pads(b[1], b[0]) }

  /** From some position of the text on, the chunks are what remains of it. */
  predicate Follow(text: seq<char>, at: nat, chunks: seq<Chunk>) {
    && at <= |text| && text[at..] == Join(chunks)
    && chunks != [] && forall c <- chunks :: c.data != []
  }

  /** Wherever the parser looks back it sees the padding that the text has. */
  ghost predicate Sees(cfg: Config, st: State, b: back, text: seq<char>, at: nat, chunks: seq<Chunk>)
    requires Follow(text, at, chunks)
  {
    forall p :: at <= p < |text| && LookBackAt(cfg, st, b, text, p) ==>
      Padding(SeenAt(chunks, p - at)) == Padding(After(b, text[..p]))
  }

  /** Before its last byte the text is still being read, or has been rejected. */
  ghost predicate EndsLate(cfg: Config, st: State, b: back, text: seq<char>) {
    text != [] && var o := Steps(cfg, st, b, text[..|text| - 1]); o.Return? ==> o.code != MSG_OK
  }

  lemma FollowNext(text: seq<char>, at: nat, chunks: seq<Chunk>)
    requires Follow(text, at, chunks)
    ensures
      var data := chunks[0].data;
      var end := at + |data|;
      && data != [] && end <= |text| && text[at..end] == data && text[..at] + data == text[..end]
      && (|chunks| == 1 ==> end == |text|)
      && (|chunks| > 1 ==> end < |text| && Follow(text, end, chunks[1..]))
  {
    var data := chunks[0].data;
    assert Join(chunks)[..|data|] == data && Join(chunks)[|data|..] == Join(chunks[1..]);
    if |chunks| > 1 {
      JoinNonempty(chunks[1..]);
    }
  }

  lemma JoinNonempty(chunks: seq<Chunk>)
    requires chunks != [] && chunks[0].data != []
    ensures Join(chunks) != []
  {
  }

  lemma SeesNext(cfg: Config, st: State, b: back, text: seq<char>, at: nat, chunks: seq<Chunk>)
    requires Follow(text, at, chunks) && |chunks| > 1 && Sees(cfg, st, b, text, at, chunks)
    ensures Follow(text, at + |chunks[0].data|, chunks[1..])
    ensures Sees(cfg, st, b, text, at + |chunks[0].data|, chunks[1..])
  {
    hide LookBackAt, Join, Padding, Pads;
    FollowNext(text, at, chunks);
    var end := at + |chunks[0].data|;
    forall p | end <= p < |text| && LookBackAt(cfg, st, b, text, p)
      ensures Padding(SeenAt(chunks[1..], p - end)) == Padding(After(b, text[..p]))
    {
      assert p - at - |chunks[0].data| == p - end;
      assert SeenAt(chunks, p - at) == SeenAt(chunks[1..], p - end);
    }
  }

  /** The header bytes before a chunk show the parser the same padding. */
  lemma HeaderSeen(cfg: Config, st: State, b: back, text: seq<char>, at: nat, chunks: seq<Chunk>)
    requires Follow(text, at, chunks) && Sees(cfg, st, b, text, at, chunks)
    requires Steps(cfg, st, b, text[..at]).Continue?
    ensures
      var s, data := Steps(cfg, st, b, text[..at]).state, chunks[0].data;
      SameLookBack(cfg, s, After(b, text[..at]), chunks[0].header, data)
  {
    hide Steps, LooksBack, Step, Join;
    var s, header, data := Steps(cfg, st, b, text[..at]).state, chunks[0].header, chunks[0].data;
    var b' := After(b, text[..at]);
    FollowNext(text, at, chunks);
    assert data[0] == text[at];
    if LooksBack(s.hash, data[0]) {
      assert LookBackAt(cfg, st, b, text, at);
      assert SeenAt(chunks, 0) == After(header, data[..0]) == header;
    }
    if |data| > 1 {
      assert data[1] == text[at + 1] && data[..1] == [data[0]];
      OneStep(cfg, s, b', data[0]);
      StepsThen(cfg, st, b, text[..at], [data[0]]);
      assert text[..at] + [data[0]] == text[..at + 1];
      var o := Step(cfg, s, data[0], b'[1], b'[0]);
      if o.Continue? && LooksBack(o.state.hash, data[1]) {
        assert LookBackAt(cfg, st, b, text, at + 1);
        assert SeenAt(chunks, 1) == After(header, data[..1]) == [header[1], data[0]];
        assert After(b, text[..at + 1]) == [b'[1], data[0]];
      }
    }
  }

  /** The next chunk is read as the text continues. */
  lemma ChunkRead(cfg: Config, st: State, b: back, text: seq<char>, at: nat, chunks: seq<Chunk>)
    requires Follow(text, at, chunks) && Sees(cfg, st, b, text, at, chunks)
    requires Steps(cfg, st, b, text[..at]).Continue?
    ensures
      var end := at + |chunks[0].data|;
      end <= |text| && Steps(cfg, Steps(cfg, st, b, text[..at]).state, chunks[0].header, chunks[0].data)
        == Steps(cfg, st, b, text[..end])
  {
    hide Steps, Sees, SameLookBack, Join;
    FollowNext(text, at, chunks);
    HeaderSeen(cfg, st, b, text, at, chunks);
    StepsLookBack(cfg, Steps(cfg, st, b, text[..at]).state, After(b, text[..at]), chunks[0].header, chunks[0].data);
    StepsThen(cfg, st, b, text[..at], chunks[0].data);
  }

  lemma EndsLatePrefix(cfg: Config, st: State, b: back, text: seq<char>, n: nat)
    requires EndsLate(cfg, st, b, text) && n < |text|
    ensures
      var o := Steps(cfg, st, b, text[..n]);
      if o.Return? then o.code != MSG_OK && Steps(cfg, st, b, text) == o
      else n > 0 ==> o.state.hash.status != Idle
  {
    hide Steps;
    var most := text[..|text| - 1];
    assert most == text[..n] + most[n..] && text == text[..n] + text[n..];
    StepsConcat(cfg, st, b, text[..n], most[n..]);
    StepsConcat(cfg, st, b, text[..n], text[n..]);
    SuccessReadsAll(cfg, st, b, text[..n]);
  }

  /** Feeding the chunks that remain gives the outcome of the whole text. */
  lemma {:induction false} FeedRest(cfg: Config, st: State, b: back, text: seq<char>, at: nat, chunks: seq<Chunk>)
    requires Follow(text, at, chunks) && Sees(cfg, st, b, text, at, chunks) && EndsLate(cfg, st, b, text)
    requires Steps(cfg, st, b, text[..at]).Continue?
    ensures Feed(cfg, Steps(cfg, st, b, text[..at]).state, chunks) == ParseData(cfg, st, b, text)
    decreases |chunks|
  {
    hide Steps, Sees, EndsLate, Join;
    var s, end := Steps(cfg, st, b, text[..at]).state, at + |chunks[0].data|;
    ChunkRead(cfg, st, b, text, at, chunks);
    FollowNext(text, at, chunks);
    assert Feed(cfg, s, chunks) ==
      var o := ParseData(cfg, s, chunks[0].header, chunks[0].data);
      if |chunks| == 1 || o.code != MSG_OK then o else Feed(cfg, o.state, chunks[1..]);
    if |chunks| == 1 {
      assert text[..end] == text;
    } else {
      EndsLatePrefix(cfg, st, b, text, end);
      if Steps(cfg, st, b, text[..end]).Continue? {
        SeesNext(cfg, st, b, text, at, chunks);
        FeedRest(cfg, st, b, text, end, chunks[1..]);
      }
    }
  }

  /** Feeding all but some last chunks leaves the parser waiting for more. */
  lemma {:induction false} FeedFront(cfg: Config, st: State, b: back, text: seq<char>, at: nat, chunks: seq<Chunk>,
                                     k: nat)
    requires Follow(text, at, chunks) && Sees(cfg, st, b, text, at, chunks)
    requires Steps(cfg, st, b, text[..at]).Continue? && 0 < k < |chunks|
    requires text != [] && Steps(cfg, st, b, text[..|text| - 1]).Continue?
    ensures
      var o := Feed(cfg, Steps(cfg, st, b, text[..at]).state, chunks[..k]);
      o.code == MSG_OK && o.state.hash.status != Idle
    decreases k
  {
    hide Steps, Sees, Join;
    var end := at + |chunks[0].data|;
    ChunkRead(cfg, st, b, text, at, chunks);
    FollowNext(text, at, chunks);
    EndsLatePrefix(cfg, st, b, text, end);
    SeesNext(cfg, st, b, text, at, chunks);
    var most := text[..|text| - 1];
    assert most == text[..end] + most[end..];
    StepsConcat(cfg, st, b, text[..end], most[end..]);
    if k > 1 {
      FeedFront(cfg, st, b, text, end, chunks[1..], k - 1);
      assert chunks[..k][1..] == chunks[1..][..k - 1];
    }
  }

  // ---- Splits of a printed transaction -----------------------------------------------------------

  /** At the closing quotes of data values the parser sees the padding they have. */
  ghost predicate SamePadding(items: seq<Item>, chunks: seq<Chunk>)
    requires items != [] && Follow(Json(items), 0, chunks)
  {
    forall p: nat :: DataQuote(items, p) && p + 1 < |Json(items)| ==>
      Padding(SeenAt(chunks, p + 1)) == Padding(After(chunks[0].header, Json(items)[..p + 1]))
  }

  lemma SplitSees(cfg: Config, st: State, items: seq<Item>, chunks: seq<Chunk>)
    requires items != [] && (forall i <- items :: Printable(i)) && st.hash.status == Idle
    requires Follow(Json(items), 0, chunks) && SamePadding(items, chunks)
    ensures Sees(cfg, st, chunks[0].header, Json(items), 0, chunks)
    ensures Steps(cfg, st, chunks[0].header, Json(items)[..0]) == Continue(st)
  {
    hide Steps, Printable, Json, DataQuote, LookBackAt, Join, SeenAt, Padding;
    var b, text := chunks[0].header, Json(items);
    StepsNothing(cfg, st, b, text[..0]);
    forall p | 0 <= p < |text| && LookBackAt(cfg, st, b, text, p)
      ensures Padding(SeenAt(chunks, p - 0)) == Padding(After(b, text[..p]))
    {
      JsonLookBack(cfg, st, b, items, p);
      assert DataQuote(items, p - 1) && p - 1 + 1 == p;
    }
  }

  lemma JsonEndsLate(cfg: Config, st: State, b: back, items: seq<Item>)
    requires items != [] && (forall i <- items :: Printable(i)) && st.hash.status == Idle
    ensures EndsLate(cfg, st, b, Json(items))
    ensures Effects(cfg, items, st.tx).Accepted? ==>
      Steps(cfg, st, b, Json(items)[..|Json(items)| - 1]).Continue?
  {
    hide Steps, Effects, Printable, Fields;
    JsonParsed(cfg, st, b, items);
    RejectedIsError(cfg, items, st.tx);
    var text := Json(items);
    var most := text[..|text| - 1];
    assert most == "{" + Fields(items) && text == most + "}";
    StepsConcat(cfg, st, b, most, "}");
  }

  /** A printed transaction in any split into nonempty chunks that shows the parser
      the padding of its data is accepted exactly when its fields are, and then
      ends in the idle state with what they mean. */
  lemma SplitParsed(cfg: Config, st: State, items: seq<Item>, chunks: seq<Chunk>)
    requires items != [] && (forall i <- items :: Printable(i)) && st.hash.status == Idle
    requires Follow(Json(items), 0, chunks) && SamePadding(items, chunks)
    ensures Closes(Feed(cfg, st, chunks), Effects(cfg, items, st.tx), Idle)
  {
    hide Steps, Effects, Printable, Json, Join, Feed, Sees, EndsLate, SamePadding, Closes;
    SplitSees(cfg, st, items, chunks);
    JsonEndsLate(cfg, st, chunks[0].header, items);
    FeedRest(cfg, st, chunks[0].header, Json(items), 0, chunks);
    JsonParsed(cfg, st, chunks[0].header, items);
  }

  /** Before its last chunk the parser waits for more. */
  lemma SplitWaits(cfg: Config, st: State, items: seq<Item>, chunks: seq<Chunk>, k: nat)
    requires items != [] && (forall i <- items :: Printable(i)) && st.hash.status == Idle
    requires Effects(cfg, items, st.tx).Accepted?
    requires Follow(Json(items), 0, chunks) && SamePadding(items, chunks) && 0 < k < |chunks|
    ensures
      var o := Feed(cfg, st, chunks[..k]);
      o.code == MSG_OK && o.state.hash.status != Idle
  {
    hide Steps, Effects, Printable, Join, Feed, Sees, EndsLate, SamePadding, Fields;
    SplitSees(cfg, st, items, chunks);
    JsonEndsLate(cfg, st, chunks[0].header, items);
    FeedFront(cfg, st, chunks[0].header, Json(items), 0, chunks, k);
  }

  /** No chunk but the first starts with the closing quote of a data value or one
      byte before it; at is the position of the first chunk in the text. */
  ghost predicate CutsAvoidQuotes(items: seq<Item>, at: nat, chunks: seq<Chunk>)
    requires items != []
    decreases |chunks|
  {
    chunks != [] ==>
      && (at > 0 ==> !DataQuote(items, at - 1) && !DataQuote(items, at))
      && CutsAvoidQuotes(items, at + |chunks[0].data|, chunks[1..])
  }

  lemma {:induction false} SeenInText(items: seq<Item>, b: back, text: seq<char>, at: nat, chunks: seq<Chunk>, p: nat)
    requires items != [] && Follow(text, at, chunks) && CutsAvoidQuotes(items, at, chunks)
    requires at <= p + 1 < |text| && DataQuote(items, p) && (at == 0 ==> chunks[0].header == b)
    ensures SeenAt(chunks, p + 1 - at) == After(b, text[..p + 1])
    decreases |chunks|
  {
    hide DataQuote, Join;
    FollowNext(text, at, chunks);
    var data := chunks[0].data;
    if p + 1 < at + |data| {
      assert data[..p + 1 - at] == text[at..p + 1];
      if at > 0 {
        assert p >= at + 1;
        assert After(b, text[..p + 1]) == text[p - 1..p + 1] == After(chunks[0].header, data[..p + 1 - at]);
      }
    } else {
      assert p + 1 - at - |data| == p + 1 - (at + |data|);
      SeenInText(items, b, text, at + |data|, chunks[1..], p);
    }
  }

  /** Cuts at other places show the padding, whatever the headers are. */
  lemma AvoidingCuts(items: seq<Item>, chunks: seq<Chunk>)
    requires items != [] && Follow(Json(items), 0, chunks) && CutsAvoidQuotes(items, 0, chunks)
    ensures SamePadding(items, chunks)
  {
    hide DataQuote, Join, Json, CutsAvoidQuotes, Padding, SeenAt;
    forall p: nat | DataQuote(items, p) && p + 1 < |Json(items)|
      ensures Padding(SeenAt(chunks, p + 1)) == Padding(After(chunks[0].header, Json(items)[..p + 1]))
    {
      SeenInText(items, chunks[0].header, Json(items), 0, chunks, p);
    }
  }
}
