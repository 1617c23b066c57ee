/** What the one look-back of the parser decides: in every split of a printed
    transaction the recorded data size is what the bytes seen there say. */
module TxLookBack {
  import opened Words
  import opened TxState
  import opened TxFields
  import opened TxMachine
  import opened TxJson
  import opened TxChunks

  // ---- What the closing quote of a data value sees -------------------------------------------------

  /** Nothing after the first byte looks back, and only the last byte ends it. */
  ghost predicate LooksBackOnce(cfg: Config, st: State, b: back, text: seq<char>) {
    EndsLate(cfg, st, b, text) && forall p :: 0 < p < |text| ==> !LookBackAt(cfg, st, b, text, p)
  }

  /** A run up to a position q without look-backs, seen through the chunks. */
  ghost predicate NoLookBack(cfg: Config, st: State, b: back, text: seq<char>, at: nat, q: nat) {
    && at <= q < |text|
    && Steps(cfg, st, b, text[..at]).Continue? && Steps(cfg, st, b, text[..q]).Continue?
    && forall p :: at <= p < q ==> !LookBackAt(cfg, st, b, text, p)
  }

  /** The beginning of a chunk, up to the position that looks back. */
  lemma ChunkToQuote(cfg: Config, st: State, b: back, text: seq<char>, at: nat, chunks: seq<Chunk>, q: nat)
    requires Follow(text, at, chunks) && NoLookBack(cfg, st, b, text, at, q) && q < at + |chunks[0].data|
    ensures
      var s, a := Steps(cfg, st, b, text[..at]).state, chunks[0].data[..q - at];
      Steps(cfg, s, chunks[0].header, a) == Steps(cfg, st, b, text[..q])
  {
    hide Steps, LookBackAt, Sees;
    FollowNext(text, at, chunks);
    var header, a, read := chunks[0].header, chunks[0].data[..q - at], text[..q];
    assert read[..at] == text[..at] && a == text[at..q];
    if q == at {
      StepsNothing(cfg, Steps(cfg, st, b, text[..at]).state, header, a);
    } else {
      var part := [Chunk(header, a)];
      assert part[1..] == [] && Join(part) == a;
      assert text == read + text[q..];
      forall p | at <= p < |read| ensures !LookBackAt(cfg, st, b, read, p) {
        LookBackEarlier(cfg, st, b, read, text[q..], p);
      }
      NothingSeen(cfg, st, b, read, at, part);
      ChunkRead(cfg, st, b, read, at, part);
      assert read[..q] == read;
    }
  }

  lemma NothingSeen(cfg: Config, st: State, b: back, text: seq<char>, at: nat, chunks: seq<Chunk>)
    requires Follow(text, at, chunks) && forall p :: at <= p < |text| ==> !LookBackAt(cfg, st, b, text, p)
    ensures Sees(cfg, st, b, text, at, chunks)
  {
    hide LookBackAt, Join, Padding, SeenAt;
  }

  /** When a chunk is read to its first look-back, what follows depends on the
      chunks only through the two bytes seen there. */
  lemma FirstLookBack(cfg: Config, s: State, chunks: seq<Chunk>, k: nat, seen: back)
    requires chunks != [] && (forall c <- chunks :: c.data != []) && k < |chunks[0].data|
    requires seen == After(chunks[0].header, chunks[0].data[..k])
    requires Steps(cfg, s, chunks[0].header, chunks[0].data[..k]).Continue?
    requires Join(chunks)[k..] != []
    requires LooksBackOnce(cfg, Steps(cfg, s, chunks[0].header, chunks[0].data[..k]).state, seen, Join(chunks)[k..])
    ensures
      var s1 := Steps(cfg, s, chunks[0].header, chunks[0].data[..k]).state;
      Feed(cfg, s, chunks) == ParseData(cfg, s1, seen, Join(chunks)[k..])
  {
    hide Steps, LookBackAt, Sees, EndsLate;
    var header, data, text := chunks[0].header, chunks[0].data, Join(chunks);
    var a, rest := data[..k], text[k..];
    assert text == data + Join(chunks[1..]);
    assert text == a + rest && text[0..] == text && text[..k] == a;
    StepsNothing(cfg, s, header, text[..0]);
    forall p | 0 <= p < |text| && LookBackAt(cfg, s, header, text, p)
      ensures Padding(SeenAt(chunks, p - 0)) == Padding(After(header, text[..p]))
    {
      if p >= |data| {
        LookBackLater(cfg, s, header, a, rest, p);
        assert false;
      } else {
        assert data[..p] == text[..p];
      }
    }
    assert Sees(cfg, s, header, text, 0, chunks) by { SeesAll(cfg, s, header, text, chunks); }
    RestEndsLate(cfg, s, header, a, rest);
    FeedRest(cfg, s, header, text, 0, chunks);
    StepsThen(cfg, s, header, a, rest);
  }

  lemma SeesAll(cfg: Config, s: State, b: back, text: seq<char>, chunks: seq<Chunk>)
    requires Follow(text, 0, chunks)
    requires forall p :: 0 <= p < |text| && LookBackAt(cfg, s, b, text, p) ==>
      Padding(SeenAt(chunks, p - 0)) == Padding(After(b, text[..p]))
    ensures Sees(cfg, s, b, text, 0, chunks)
  {
    hide LookBackAt, Join, Padding, SeenAt;
  }

  lemma RestEndsLate(cfg: Config, s: State, b: back, a: seq<char>, rest: seq<char>)
    requires Steps(cfg, s, b, a).Continue? && EndsLate(cfg, Steps(cfg, s, b, a).state, After(b, a), rest)
    ensures EndsLate(cfg, s, b, a + rest)
  {
    hide Steps;
    var text := a + rest;
    assert text[..|text| - 1] == a + rest[..|rest| - 1];
    StepsThen(cfg, s, b, a, rest[..|rest| - 1]);
  }

  /** In every split the outcome depends on the chunks only through the two bytes
      seen at the one position that looks back. */
  lemma {:induction false} SeenDecides(cfg: Config, st: State, b: back, text: seq<char>, at: nat, chunks: seq<Chunk>,
                                       q: nat, seen: back)
    requires Follow(text, at, chunks) && NoLookBack(cfg, st, b, text, at, q) && seen == SeenAt(chunks, q - at)
    requires LooksBackOnce(cfg, Steps(cfg, st, b, text[..q]).state, seen, text[q..])
    ensures Feed(cfg, Steps(cfg, st, b, text[..at]).state, chunks)
      == ParseData(cfg, Steps(cfg, st, b, text[..q]).state, seen, text[q..])
    decreases |chunks|
  {
    hide Steps, LookBackAt, LooksBackOnce, ParseData, Join;
    FollowNext(text, at, chunks);
    var s, data, end := Steps(cfg, st, b, text[..at]).state, chunks[0].data, at + |chunks[0].data|;
    if q < end {
      ChunkToQuote(cfg, st, b, text, at, chunks, q);
      assert Join(chunks)[q - at..] == text[q..];
      FirstLookBack(cfg, s, chunks, q - at, seen);
    } else {
      assert q - at - |data| == q - end;
      WholeChunk(cfg, st, b, text, at, chunks, q);
      SeenDecides(cfg, st, b, text, end, chunks[1..], q, seen);
    }
  }

  /** A chunk before the position that looks back. */
  lemma WholeChunk(cfg: Config, st: State, b: back, text: seq<char>, at: nat, chunks: seq<Chunk>, q: nat)
    requires Follow(text, at, chunks) && NoLookBack(cfg, st, b, text, at, q) && at + |chunks[0].data| <= q
    ensures
      var s, end := Steps(cfg, st, b, text[..at]).state, at + |chunks[0].data|;
      && |chunks| > 1 && NoLookBack(cfg, st, b, text, end, q)
      && Feed(cfg, s, chunks) == Feed(cfg, Steps(cfg, st, b, text[..end]).state, chunks[1..])
  {
    hide Steps, LookBackAt, Sees, Join;
    FollowNext(text, at, chunks);
    var s, header, data, end := Steps(cfg, st, b, text[..at]).state, chunks[0].header, chunks[0].data,
      at + |chunks[0].data|;
    var read := text[..end];
    var part := [Chunk(header, data)];
    OneJoined(part);
    assert read[..at] == text[..at] && read[at..] == data && text == read + text[end..];
    forall p | at <= p < |read| ensures !LookBackAt(cfg, st, b, read, p) {
      LookBackEarlier(cfg, st, b, read, text[end..], p);
    }
    NothingSeen(cfg, st, b, read, at, part);
    ChunkRead(cfg, st, b, read, at, part);
    assert read[..end] == read;
    assert text[..q] == read + text[end..q];
    StepsConcat(cfg, st, b, read, text[end..q]);
  }

  lemma OneJoined(chunks: seq<Chunk>)
    requires |chunks| == 1
    ensures Join(chunks) == chunks[0].data
  {
    assert chunks[1..] == [];
  }

  // ---- One data value among other fields ------------------------------------------------------------

  ghost predicate AllPrintable(items: seq<Item>) {
    forall i <- items :: Printable(i)
  }

  ghost predicate NoData(items: seq<Item>) {
    items != [] && AllPrintable(items) && forall i <- items :: i.name != DATA_FIELD
  }

  ghost predicate DataItem(d: Item) {
    Printable(d) && d.name == DATA_FIELD
  }

  /** Where the closing quote of a data value is, after other fields. */
  function DataEnd(before: seq<Item>, d: Item): nat
    requires before != []
  {
    1 + |Fields(before)| + |d.Print()|
  }

  /** What follows the data value's text. */
  function Behind(after: seq<Item>): string
    requires after != []
  {
    "\"" + ("," + (Fields(after) + "}"))
  }

  /** What precedes its closing quote. */
  function UpTo(before: seq<Item>, d: Item): string
    requires before != [] && d.value.Quoted?
  {
    "{" + (Fields(before) + ",") + ("\"" + d.name + "\":" + ("\"" + d.value.text))
  }

  lemma {:induction false} FieldsConcat(a: seq<Item>, b: seq<Item>)
    requires a != [] && b != []
    ensures Fields(a + b) == Fields(a) + "," + Fields(b)
    decreases |a|
  {
    hide Item.Print;
    if |a| == 1 {
      assert (a + b)[0] == a[0] && (a + b)[1..] == b;
    } else {
      assert (a + b)[0] == a[0] && (a + b)[1..] == a[1..] + b;
      FieldsConcat(a[1..], b);
    }
  }

  lemma JsonAround(before: seq<Item>, d: Item, after: seq<Item>)
    requires before != [] && after != [] && d.value.Quoted?
    ensures Json(before + ([d] + after)) == UpTo(before, d) + Behind(after)
    ensures |UpTo(before, d)| == DataEnd(before, d)
  {
    hide Fields, Item.Print;
    FieldsConcat(before, [d] + after);
    FieldsConcat([d], after);
    OnlyField(d);
    PrintedParts(d);
    Regrouped(Fields(before), "\"" + d.name + "\":" + ("\"" + d.value.text), Fields(after));
  }

  lemma Regrouped(f: string, v: string, g: string)
    ensures "{" + (f + "," + (v + "\"" + "," + g)) + "}" == ("{" + (f + ",") + v) + ("\"" + ("," + (g + "}")))
  {
  }

  lemma OnlyField(d: Item)
    ensures Fields([d]) == d.Print()
  {
  }

  lemma PrintedParts(d: Item)
    requires d.value.Quoted?
    ensures d.Print() == "\"" + d.name + "\":" + ("\"" + d.value.text) + "\""
  {
  }

  lemma {:induction false} QuotesConcat(a: seq<Item>, b: seq<Item>, p: int)
    requires a != [] && b != []
    ensures DataQuote(a + b, p) <==> DataQuote(a, p) || DataQuote(b, p - |Fields(a)| - 1)
    decreases |a|
  {
    hide Item.Print;
    assert (a + b)[0] == a[0];
    if |a| == 1 {
      assert (a + b)[1..] == b;
    } else {
      assert (a + b)[1..] == a[1..] + b;
      QuotesConcat(a[1..], b, p - |a[0].Print()| - 1);
    }
  }

  lemma {:induction false} NoDataQuotes(items: seq<Item>, p: int)
    requires NoData(items)
    ensures !DataQuote(items, p)
    decreases |items|
  {
    hide Printable, Item.Print;
    if |items| > 1 {
      NoDataQuotes(items[1..], p - |items[0].Print()| - 1);
    }
  }

  /** The one closing quote of data. */
  lemma OneDataQuote(before: seq<Item>, d: Item, after: seq<Item>, p: int)
    requires NoData(before) && DataItem(d) && d.value.Quoted? && NoData(after)
    ensures DataQuote(before + ([d] + after), p) <==> p + 1 == DataEnd(before, d)
  {
    hide Printable;
    QuotesConcat(before, [d] + after, p);
    QuotesConcat([d], after, p - |Fields(before)| - 1);
    NoDataQuotes(before, p);
    NoDataQuotes(after, p - |Fields(before)| - 1 - |Fields([d])| - 1);
    assert DataQuote([d], p - |Fields(before)| - 1) <==> p - |Fields(before)| - 1 == |d.Print()| - 1;
  }

  /** The parser at the closing quote of the data value. */
  ghost predicate AtQuote(st: State, s0: State, d: Item)
    requires DataItem(d)
  {
    st == TextRead(NameRead(s0, d.name), d.value.text, ProcessingString)
  }

  lemma ToQuote(cfg: Config, st: State, b: back, before: seq<Item>, d: Item) returns (s0: State)
    requires before != [] && AllPrintable(before) && DataItem(d) && d.value.Quoted?
    requires st.hash.status == Idle && Effects(cfg, before, st.tx).Accepted?
    ensures Steps(cfg, st, b, UpTo(before, d)).Continue?
    ensures AtQuote(Steps(cfg, st, b, UpTo(before, d)).state, s0, d)
  {
    hide Steps, Effects, Printable, Fields, NameRead, TextRead;
    var fields, name := Fields(before) + ",", "\"" + d.name + "\":";
    var begun := State(st.hash.(status := ExpectingField), st.tx);
    OneStep(cfg, st, b, '{');
    StepsThen(cfg, st, b, "{", fields);
    FieldsThen(cfg, begun, After(b, "{"), before);
    s0 := Steps(cfg, st, b, "{" + fields).state;
    var b' := After(b, "{" + fields);
    NoQuoteInNames(d.name);
    StepsThen(cfg, st, b, "{" + fields, name + ("\"" + d.value.text));
    NameRun(cfg, s0, b', d.name);
    StepsThen(cfg, s0, b', name, "\"" + d.value.text);
    QuotedRun(cfg, s0, After(b', name), d);
  }

  lemma {:induction false} SizeKept(cfg: Config, items: seq<Item>, tx: Tx)
    requires AllPrintable(items) && forall i <- items :: i.name != DATA_FIELD
    ensures Effects(cfg, items, tx).Accepted? ==> Effects(cfg, items, tx).tx.dataSize == tx.dataSize
    decreases |items|
  {
    hide Effect, Printable;
    if items != [] {
      OneSizeKept(cfg, items[0], tx);
      if Effect(cfg, items[0], tx).Accepted? {
        SizeKept(cfg, items[1..], Effect(cfg, items[0], tx).tx);
      }
    }
  }

  lemma OneSizeKept(cfg: Config, i: Item, tx: Tx)
    requires Printable(i) && i.name != DATA_FIELD
    ensures Effect(cfg, i, tx).Accepted? ==> Effect(cfg, i, tx).tx.dataSize == tx.dataSize
  {
    hide Fee.ReadDecimal, AmountFormat.Edited, TickerOf, NetworkOf, Fee.ChargedFee, Numerals.Print, Numerals.AllDigits;
  }

  /** The size that is recorded is what the two bytes before the quote say. */
  lemma QuoteSize(cfg: Config, st: State, s0: State, d: Item, seen: back)
    requires DataItem(d) && AtQuote(st, s0, d)
    ensures
      var o := Step(cfg, st, '"', seen[1], seen[0]);
      && (o.Return? ==> o.code != MSG_OK)
      && (o.Continue? ==>
          && o.state.hash.status == ExpectingComma
          && o.state.tx.dataSize == (|d.value.text| / 4 * 3 - Padding(seen)) % TWO32)
  {
    hide ProcessField, Overlay;
    var h := st.hash.(dataFieldSize := FieldSize(st.hash, seen[1], seen[0]));
    FieldStored(s0.hash.field, d.name);
    CloseKeepsStatus(cfg, h, st.tx);
    DataSizeStored(cfg, h, st.tx, d);
  }

  lemma DataSizeStored(cfg: Config, h: Hash, tx: Tx, d: Item)
    requires DataItem(d) && h.fieldLen == |d.name| <= MAX_FIELD_LEN && h.field[..|d.name|] == d.name
    ensures
      var v := ProcessField(cfg, h, tx);
      v.code == MSG_OK ==> v.tx.dataSize == h.dataFieldSize
  {
    hide Dispatch, Base64.DecodeText, DataText, Esdt.IsTransfer, Esdt.EsdtValue, DisplayedCode;
    DispatchKnown(cfg, Terminated(h), tx, d);
  }

  /** From the data value's closing quote on. */
  lemma AfterQuote(cfg: Config, st: State, s0: State, d: Item, seen: back, after: seq<Item>)
    requires DataItem(d) && AtQuote(st, s0, d) && NoData(after)
    ensures LooksBackOnce(cfg, st, seen, Behind(after))
    ensures
      var o := ParseData(cfg, st, seen, Behind(after));
      o.code == MSG_OK ==> o.state.tx.dataSize == (|d.value.text| / 4 * 3 - Padding(seen)) % TWO32
  {
    hide Steps, Step, Printable, Fields, LookBackAt, AtQuote, EndsLate, Effects;
    var rest := "," + (Fields(after) + "}");
    var b' := After(seen, "\"");
    QuoteSize(cfg, st, s0, d, seen);
    OneStep(cfg, st, seen, '"');
    StepsConcat(cfg, st, seen, "\"", rest);
    var o := Step(cfg, st, '"', seen[1], seen[0]);
    if o.Return? {
      RejectedEarly(cfg, st, seen, "\"", rest);
    } else {
      FieldsAfter(cfg, o.state, b', after);
      RestEndsLate(cfg, st, seen, "\"", rest);
      forall p | 0 < p < |"\"" + rest| ensures !LookBackAt(cfg, st, seen, "\"" + rest, p) {
        LookBackLater(cfg, st, seen, "\"", rest, p);
      }
    }
  }

  /** Once a text is rejected nothing of it is read. */
  lemma RejectedEarly(cfg: Config, st: State, b: back, s: seq<char>, rest: seq<char>)
    requires Steps(cfg, st, b, s).Return? && Steps(cfg, st, b, s).code != MSG_OK && rest != [] && |s| == 1
    ensures LooksBackOnce(cfg, st, b, s + rest)
  {
    hide Steps, LookBackAt;
    var text := s + rest;
    assert text[..|text| - 1] == s + rest[..|rest| - 1];
    StepsConcat(cfg, st, b, s, rest[..|rest| - 1]);
    forall p | 0 < p < |text| ensures !LookBackAt(cfg, st, b, text, p) {
      LookBackOver(cfg, st, b, s, rest, p);
    }
  }

  /** The fields behind the data value change its size no more. */
  lemma FieldsAfter(cfg: Config, st: State, b: back, after: seq<Item>)
    requires st.hash.status == ExpectingComma && NoData(after)
    ensures
      var rest := "," + (Fields(after) + "}");
      && EndsLate(cfg, st, b, rest)
      && (forall p :: 0 <= p < |rest| ==> !LookBackAt(cfg, st, b, rest, p))
      && var o := Steps(cfg, st, b, rest);
         o.Return? && (o.code == MSG_OK ==> o.state.tx.dataSize == st.tx.dataSize)
  {
    hide Steps, Step, Printable, Fields, LookBackAt, DataQuote, Effects;
    var fields := Fields(after) + "}";
    var begun := State(st.hash.(status := ExpectingField), st.tx);
    SeparatorStep(cfg, st, b, ',');
    OneStep(cfg, st, b, ',');
    StepsThen(cfg, st, b, ",", fields);
    FieldsRun(cfg, begun, After(b, ","), after);
    SizeKept(cfg, after, st.tx);
    RejectedIsError(cfg, after, st.tx);
    FieldsEndLate(cfg, begun, After(b, ","), after);
    RestEndsLate(cfg, st, b, ",", fields);
    forall p | 0 <= p < |"," + fields| ensures !LookBackAt(cfg, st, b, "," + fields, p) {
      if LookBackAt(cfg, st, b, "," + fields, p) {
        LookBackQuote(cfg, st, b, "," + fields, p);
        LookBackLater(cfg, st, b, ",", fields, p);
        FieldsLookBack(cfg, begun, After(b, ","), after, p - 1);
        NoDataQuotes(after, p - 1);
      }
    }
  }

  lemma FieldsEndLate(cfg: Config, st: State, b: back, items: seq<Item>)
    requires items != [] && AllPrintable(items) && st.hash.status == ExpectingField
    ensures EndsLate(cfg, st, b, Fields(items) + "}")
  {
    hide Steps, Printable, Fields, Effects;
    FieldsRun(cfg, st, b, items);
    RejectedIsError(cfg, items, st.tx);
    var text := Fields(items) + "}";
    assert text[..|text| - 1] == Fields(items);
    StepsConcat(cfg, st, b, Fields(items), "}");
  }

  /** In every split of a printed transaction with one data value: if it is
      accepted, the size recorded for the data is what the two bytes seen at its
      closing quote say. */
  lemma SizeSeen(cfg: Config, st: State, before: seq<Item>, d: Item, after: seq<Item>, chunks: seq<Chunk>)
    requires NoData(before) && DataItem(d) && d.value.Quoted? && NoData(after) && st.hash.status == Idle
    requires Effects(cfg, before, st.tx).Accepted?
    requires Follow(Json(before + ([d] + after)), 0, chunks)
    ensures DataEnd(before, d) < |Join(chunks)|
    ensures
      var o := Feed(cfg, st, chunks);
      o.code == MSG_OK ==>
        o.state.tx.dataSize == (|d.value.text| / 4 * 3 - Padding(SeenAt(chunks, DataEnd(before, d)))) % TWO32
  {
    hide Steps, Effects, Printable, Json, DataQuote, LookBackAt, Join, Feed, LooksBackOnce, SeenAt, Fields, Padding;
    hide AtQuote, DataItem, Behind;
    var items, text, b := before + ([d] + after), Json(before + ([d] + after)), chunks[0].header;
    var q := DataEnd(before, d);
    JsonAround(before, d, after);
    BehindLonger(after);
    assert text[..q] == UpTo(before, d) && text[q..] == Behind(after) && Join(chunks) == text[0..] == text;
    var s0 := ToQuote(cfg, st, b, before, d);
    StepsNothing(cfg, st, b, text[..0]);
    AroundPrintable(before, d, after);
    forall p | 0 <= p < q ensures !LookBackAt(cfg, st, b, text, p) {
      if LookBackAt(cfg, st, b, text, p) {
        JsonLookBack(cfg, st, b, items, p);
        OneDataQuote(before, d, after, p - 1);
      }
    }
    AfterQuote(cfg, Steps(cfg, st, b, text[..q]).state, s0, d, SeenAt(chunks, q), after);
    SeenDecides(cfg, st, b, text, 0, chunks, q, SeenAt(chunks, q));
  }

  lemma AroundPrintable(before: seq<Item>, d: Item, after: seq<Item>)
    requires AllPrintable(before) && DataItem(d) && AllPrintable(after)
    ensures AllPrintable(before + ([d] + after))
  {
    hide Printable;
  }

  lemma BehindLonger(after: seq<Item>)
    requires after != []
    ensures |Behind(after)| > 0
  {
  }
}
