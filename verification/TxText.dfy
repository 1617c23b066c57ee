/** The text of a client's transaction, written out. */
module TxText {
  import opened Numerals
  import opened Base64
  import opened TxState
  import opened TxFields
  import opened TxJson
  import opened TxCanonical

  // ---- Escapes -------------------------------------------------------------------------------------

  /** Texts are escaped character by character. */
  lemma {:induction false} MarshalConcat(s: string, t: string)
    ensures Marshal(s + t) == Marshal(s) + Marshal(t)
    decreases |s|
  {
    hide Marshal;
    if s == "" {
      assert s + t == t;
      MarshalNothing();
    } else {
      MarshalConcat(s[1..], t);
      assert (s + t)[0] == s[0] && (s + t)[1..] == s[1..] + t;
      FirstMarshal(s);
      FirstMarshal(s + t);
    }
  }

  lemma MarshalNothing()
    ensures Marshal("") == ""
  {
  }

  lemma FirstMarshal(s: string)
    requires s != ""
    ensures Marshal(s) == Escape(s[0]) + Marshal(s[1..])
  {
    hide Escape;
  }

  lemma OneEscape(c: char)
    ensures Marshal([c]) == Escape(c)
  {
    hide Escape, Marshal;
    assert [c][1..] == "";
    FirstMarshal([c]);
    MarshalNothing();
  }

  /** The escapes of encoding/json, and two control characters without one of
      their own. */
  lemma Escapes()
    ensures Marshal("\"") == "\\\"" && Marshal("\\") == "\\\\"
    ensures Marshal("\n") == "\\n" && Marshal("\r") == "\\r" && Marshal("\t") == "\\t"
    ensures Marshal("<") == "\\u003c" && Marshal(">") == "\\u003e" && Marshal("&") == "\\u0026"
    ensures Marshal("\U{1}") == "\\u0001" && Marshal("\U{1f}") == "\\u001f"
  {
    hide Marshal;
    OneEscape('\"');
    OneEscape('\\');
    OneEscape('\n');
    OneEscape('\r');
    OneEscape('\t');
    OneEscape('<');
    OneEscape('>');
    OneEscape('&');
    OneEscape('\U{1}');
    OneEscape('\U{1f}');
  }

  // ---- The whole text ------------------------------------------------------------------------------

  /** Fields behind another one. */
  function More(items: seq<Item>): string {
    if items == [] then "" else "," + items[0].Print() + More(items[1..])
  }

  lemma {:induction false} MoreConcat(a: seq<Item>, b: seq<Item>)
    ensures More(a + b) == More(a) + More(b)
    decreases |a|
  {
    hide Item.Print;
    if a == [] {
      assert a + b == b;
    } else {
      MoreConcat(a[1..], b);
      assert (a + b)[0] == a[0] && (a + b)[1..] == a[1..] + b;
    }
  }

  lemma {:induction false} FieldsMore(items: seq<Item>)
    requires items != []
    ensures "," + Fields(items) == More(items)
    decreases |items|
  {
    hide Item.Print;
    if |items| == 1 {
      assert items[1..] == [] && More([]) == "";
    } else {
      FieldsMore(items[1..]);
      assert items[0].Print() + [','] + Fields(items[1..]) == items[0].Print() + ("," + Fields(items[1..]));
    }
  }

  lemma MoreOne(i: Item)
    ensures More([i]) == "," + i.Print()
  {
    hide Item.Print;
    assert [i][1..] == [] && More([]) == "";
  }

  /** A number behind another field. */
  function NumberText(name: string, n: nat): string {
    ",\"" + name + "\":" + Numerals.Print(n, 10)
  }

  /** A text behind another field. */
  function QuotedText(name: string, text: string): string {
    ",\"" + name + "\":\"" + text + "\""
  }

  lemma NumText(name: string, n: nat)
    ensures More([Num(name, n)]) == NumberText(name, n)
  {
    hide More, Numerals.Print;
    MoreOne(Num(name, n));
  }

  lemma QuotedItem(name: string, text: string)
    ensures More([Item(name, Quoted(text))]) == QuotedText(name, text)
  {
    hide More;
    MoreOne(Item(name, Quoted(text)));
  }

  lemma OptText(present: bool, i: Item)
    ensures More(Opt(present, i)) == if present then More([i]) else ""
  {
    hide Item.Print;
  }

  /** Amount and accounts. */
  function AmountText(t: Transaction): string {
    QuotedText("value", Marshal(t.value)) + QuotedText("receiver", Marshal(t.receiver))
    + QuotedText("sender", Marshal(t.sender))
  }

  /** User names, if there are any. */
  function NamesText(t: Transaction): string {
    (if t.senderUsername == [] then "" else QuotedText("senderUsername", Complete(t.senderUsername)))
    + (if t.receiverUsername == [] then "" else QuotedText("receiverUsername", Complete(t.receiverUsername)))
  }

  /** Gas and data, as far as they are not zero or empty. */
  function GasText(t: Transaction): string {
    (if t.gasPrice == 0 then "" else NumberText("gasPrice", t.gasPrice))
    + (if t.gasLimit == 0 then "" else NumberText("gasLimit", t.gasLimit))
  }

  function PayloadText(t: Transaction): string {
    if t.data == [] then "" else QuotedText("data", Complete(t.data))
  }

  /** Chain, version and options. */
  function ChainText(t: Transaction): string {
    QuotedText("chainID", Marshal(t.chainId)) + NumberText("version", t.version)
    + (if t.options == 0 then "" else NumberText("options", t.options))
  }

  lemma HeadText(t: Transaction)
    ensures More(Head(t)) == NumberText("nonce", t.nonce) + AmountText(t)
  {
    hide More, Num, Marshal, NumberText, QuotedText;
    var nonce, value := Num("nonce", t.nonce), Item("value", Quoted(Marshal(t.value)));
    var receiver, sender := Item("receiver", Quoted(Marshal(t.receiver))), Item("sender", Quoted(Marshal(t.sender)));
    NumText("nonce", t.nonce);
    QuotedItem("value", Marshal(t.value));
    QuotedItem("receiver", Marshal(t.receiver));
    QuotedItem("sender", Marshal(t.sender));
    MoreConcat([nonce], [value]);
    MoreConcat([nonce] + [value], [receiver]);
    MoreConcat([nonce] + [value] + [receiver], [sender]);
    assert Head(t) == [nonce] + [value] + [receiver] + [sender];
  }

  lemma MiddleText(t: Transaction)
    ensures More(Usernames(t)) == NamesText(t) && More(Gas(t)) == GasText(t) && More(Data(t)) == PayloadText(t)
  {
    hide More, Num, Complete, Opt, NumberText, QuotedText;
    var s, r := t.senderUsername, t.receiverUsername;
    BytesText("senderUsername", s);
    BytesText("receiverUsername", r);
    MoreConcat(Opt(s != [], Bytes("senderUsername", s)), Opt(r != [], Bytes("receiverUsername", r)));
    NumText("gasPrice", t.gasPrice);
    NumText("gasLimit", t.gasLimit);
    OptText(t.gasPrice != 0, Num("gasPrice", t.gasPrice));
    OptText(t.gasLimit != 0, Num("gasLimit", t.gasLimit));
    MoreConcat(Opt(t.gasPrice != 0, Num("gasPrice", t.gasPrice)), Opt(t.gasLimit != 0, Num("gasLimit", t.gasLimit)));
    BytesText("data", t.data);
  }

  lemma BytesText(name: string, b: payload)
    ensures More(Opt(b != [], Bytes(name, b))) == if b == [] then "" else QuotedText(name, Complete(b))
  {
    hide More, Complete, Opt, QuotedText;
    OptText(b != [], Bytes(name, b));
    QuotedItem(name, Complete(b));
  }

  lemma TailText(t: Transaction)
    ensures More(Tail(t)) == ChainText(t)
  {
    hide More, Num, Marshal, Opt, NumberText, QuotedText;
    var chain, version := Item("chainID", Quoted(Marshal(t.chainId))), Num("version", t.version);
    var options := Opt(t.options != 0, Num("options", t.options));
    QuotedItem("chainID", Marshal(t.chainId));
    NumText("version", t.version);
    NumText("options", t.options);
    OptText(t.options != 0, Num("options", t.options));
    MoreConcat([chain], [version]);
    MoreConcat([chain] + [version], options);
    assert Tail(t) == [chain] + [version] + options;
  }

  lemma AllText(t: Transaction)
    ensures "," + Fields(Items(t)) ==
      More(Head(t)) + (More(Usernames(t)) + (More(Gas(t)) + (More(Data(t)) + More(Tail(t)))))
  {
    hide More, Head, Usernames, Gas, Data, Tail, Fields;
    FieldsMore(Items(t));
    MoreConcat(Data(t), Tail(t));
    MoreConcat(Gas(t), Data(t) + Tail(t));
    MoreConcat(Usernames(t), Gas(t) + (Data(t) + Tail(t)));
    MoreConcat(Head(t), Usernames(t) + (Gas(t) + (Data(t) + Tail(t))));
  }

  /** What a client sends for a transaction: the fields in this order, the optional
      ones only when they are not empty or zero. */
  lemma ClientText(t: Transaction)
    ensures Json(Items(t)) ==
      "{\"nonce\":" + Numerals.Print(t.nonce, 10) + (AmountText(t) + (NamesText(t) + (GasText(t) + (PayloadText(t)
      + (ChainText(t) + "}")))))
  {
    hide More, Head, Usernames, Gas, Data, Tail, Fields, Items, Numerals.Print;
    hide AmountText, NamesText, GasText, DataText, ChainText, NumberText;
    AllText(t);
    HeadText(t);
    MiddleText(t);
    TailText(t);
    FirstText(Fields(Items(t)), t.nonce,
      AmountText(t) + (NamesText(t) + (GasText(t) + (PayloadText(t) + ChainText(t)))));
    Closing(AmountText(t), NamesText(t), GasText(t), PayloadText(t), ChainText(t));
  }

  lemma FirstText(fields: string, n: nat, rest: string)
    requires "," + fields == NumberText("nonce", n) + rest
    ensures "{" + fields + "}" == "{\"nonce\":" + Numerals.Print(n, 10) + (rest + "}")
  {
    hide Numerals.Print;
    assert fields == ("," + fields)[1..];
    assert NumberText("nonce", n)[1..] == "\"nonce\":" + Numerals.Print(n, 10);
  }

  lemma Closing(a: string, b: string, c: string, d: string, e: string)
    ensures a + (b + (c + (d + e))) + "}" == a + (b + (c + (d + (e + "}"))))
  {
  }

  // ---- What is shown of the data -------------------------------------------------------------------

  /** The larger screen shows up to 96 bytes, or the first 93 and an ellipsis, the
      smaller one up to 48, or the first 45; the size is in front. */
  lemma ScreenData(contractData: bool, data: payload)
    requires data != []
    ensures ShownData(Config(false, contractData), data) == SizeText(|data|)
      + (if |data| <= 96 then ShownText(data) else ShownText(data[..93]) + "...")
    ensures ShownData(Config(true, contractData), data) == SizeText(|data|)
      + (if |data| <= 48 then ShownText(data) else ShownText(data[..45]) + "...")
  {
    hide Complete, SizeText, ShownText, Missing;
    EncodedSize(data);
  }

  // ---- Which transactions fit ----------------------------------------------------------------------

  /** The transactions the theorems are about: up to 31 digits of amount and of fee,
      addresses of up to 63 characters, a sender and user names of up to 128, a
      chain identifier of up to three, and version 2 or more. */
  lemma Fits(cfg: Config, t: Transaction)
    ensures InBounds(cfg, t) <==>
      && 0 < |t.value| <= 31 && (forall i :: 0 <= i < |t.value| ==> '0' <= t.value[i] <= '9')
      && 0 < |Marshal(t.receiver)| <= 63 && '"' !in t.receiver
      && 0 < |Marshal(t.sender)| <= 128 && '"' !in t.sender
      && |Complete(t.senderUsername)| <= 128 && |Complete(t.receiverUsername)| <= 128
      && (t.data != [] ==> cfg.contractData) && |Complete(t.data)| < 0x1_0000_0000
      && 0 < |Marshal(t.chainId)| <= 3 && '"' !in t.chainId
      && t.version >= 2
      && |FeeText(t)| <= 31
  {
    hide Marshal, Complete, FeeText;
  }
}
