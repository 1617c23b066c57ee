/** What is shown before an authentication token is signed. */
module TokenDisplay {
  import opened Wrappers
  import opened Words
  import opened CStrings
  import opened Base64
  import opened Lifetime

  const ENCODED_ORIGIN_MAX_SIZE: nat := 101
  const MAX_ORIGIN_SIZE: nat := 37
  const DISPLAY_MAX_SIZE: nat := 100
  const INVALID_ORIGIN_PREFIX: string := "multiversx://"
  const ELLIPSIS: string := "..."

  /** The message, no message, a refusal, an origin whose terminator is written
      past the end of its buffer, or a lifetime that overflows. */
  datatype Display = Shown(text: string) | Invalid | BadRequest | Overrun(origin: string) | TooLong

  // ---- Shortening --------------------------------------------------------------------------

  /** A text of at most n characters: the text itself, its two ends, or nothing
      when the ellipsis does not fit. */
  function Shorten(s: string, n: nat): (t: string)
    ensures |t| == if |s| <= n then |s| else if n >= |ELLIPSIS| then n else 0
    ensures |s| <= n ==> t == s
    ensures |s| > n >= |ELLIPSIS| ==>
      var k := (n - |ELLIPSIS|) / 2;
      && t[..k] == s[..k] && t[k..k + 3] == ELLIPSIS
      && t[k + 3..] == s[|s| - (n - k - 3)..]
  {
    if |s| <= n then s else if n < |ELLIPSIS| then "" else
      var k := (n - |ELLIPSIS|) / 2;
      s[..k] + ELLIPSIS + s[|s| - (n - k - |ELLIPSIS|)..]
  }

  /** The part of the source that is considered. */
  function Limited(source: string, maxSrcLen: nat): (src: string)
    ensures |src| <= |source| && src == source[..|src|]
  {
    if maxSrcLen < |source| then source[..maxSrcLen] else source
  }

  /** How many characters are written, with the terminator; none when the
      ellipsis does not fit. */
  function Written(length: nat, n: nat): nat {
    if length <= n then length + 1 else if n >= |ELLIPSIS| then n + 1 else 0
  }

  /** truncate_if_needed; it stops where the destination would be exceeded. A
      text that only lacks room for its terminator is there. */
  method TruncateIfNeeded(source: string, maxSrcLen: nat, dest: array<char>, n: nat) returns (overrun: bool)
    requires '\0' !in source
    modifies dest
    ensures
      var src := Limited(source, maxSrcLen);
      && (overrun <==> Written(|src|, n) > dest.Length)
      && (overrun && |Shorten(src, n)| == dest.Length ==> dest[..] == Shorten(src, n))
      && (!overrun ==>
          if |src| <= n || n >= |ELLIPSIS| then Holds(dest[..], Shorten(src, n)) else dest[..] == old(dest[..]))
  {
    hide Holds, Shorten, Limited;
    var src := Limited(source, maxSrcLen);
    if |src| <= n {
      if |src| >= dest.Length {
        if |src| == dest.Length {
          CopyBehind(dest, 0, src);
        }
        return true;
      }
      CopyWhole(dest, src);
      return false;
    }
    var truncateIndex := ReplacementIndex(n, |ELLIPSIS|);
    var remaining := n - truncateIndex - |ELLIPSIS|;
    if remaining < 0 {
      return false;
    }
    if n > dest.Length {
      return true;
    }
    WriteEnds(dest, src, n, truncateIndex, remaining);
    if n == dest.Length {
      return true;
    }
    Terminate(dest, Shorten(src, n), n);
    return false;
  }

  method CopyWhole(dest: array<char>, src: string)
    requires |src| < dest.Length && '\0' !in src
    modifies dest
    ensures Holds(dest[..], src)
  {
    CopyBehind(dest, 0, src);
    Terminate(dest, src, |src|);
  }

  /** The first k characters, the ellipsis and the last m. */
  method WriteEnds(dest: array<char>, src: string, n: nat, k: nat, m: nat)
    requires |ELLIPSIS| <= n < |src| && n <= dest.Length && '\0' !in src
    requires k == (n - |ELLIPSIS|) / 2 && m == n - k - |ELLIPSIS|
    modifies dest
    ensures dest[..n] == Shorten(src, n) && '\0' !in Shorten(src, n)
  {
    hide Shorten;
    ShortenParts(src, n, k, m);
    CopyBehind(dest, 0, src[..k]);
    assert dest[..k] == src[..k];
    CopyBehind(dest, k, ELLIPSIS);
    CopyBehind(dest, k + |ELLIPSIS|, src[|src| - m..]);
  }

  lemma ShortenParts(s: string, n: nat, k: nat, m: nat)
    requires |s| > n >= |ELLIPSIS| && '\0' !in s
    requires k == (n - |ELLIPSIS|) / 2 && m == n - k - |ELLIPSIS|
    ensures '\0' !in Shorten(s, n) && |Shorten(s, n)| == n && k + m + |ELLIPSIS| == n
    ensures Shorten(s, n) == s[..k] + ELLIPSIS + s[|s| - m..]
  {
    ThreeDots();
    NoNulParts(s, k, |s| - m, ELLIPSIS);
  }

  lemma ThreeDots()
    ensures '\0' !in ELLIPSIS
  {
  }

  lemma NoNulParts(s: string, i: nat, j: nat, middle: string)
    requires i <= |s| && j <= |s| && '\0' !in s && '\0' !in middle
    ensures '\0' !in s[..i] + middle + s[j..]
  {
  }

  /** replacement_index; C division truncates towards zero. */
  function ReplacementIndex(allowed: nat, length: nat): (i: nat)
    ensures allowed >= length ==> i == (allowed - length) / 2
    ensures allowed < length ==> i == 0
  {
    if allowed >= length then (allowed - length) / 2 else 0
  }

  // ---- The message ---------------------------------------------------------------------------

  function Authorizing(origin: string, ttl: string): string {
    "Authorizing " + origin + " for " + ttl
  }

  function Total(parts: seq<string>): string {
    if parts == [] then "" else Total(parts[..|parts| - 1]) + parts[|parts| - 1]
  }

  lemma {:induction false} TotalLonger(parts: seq<string>, i: nat)
    requires i <= |parts|
    ensures |Total(parts[..i])| <= |Total(parts)|
    decreases |parts|
  {
    if i < |parts| {
      TotalLonger(parts[..|parts| - 1], i);
      assert parts[..|parts| - 1][..i] == parts[..i];
    } else {
      assert parts[..i] == parts;
    }
  }

  lemma {:induction false} TotalClean(parts: seq<string>)
    requires forall p <- parts :: '\0' !in p
    ensures '\0' !in Total(parts)
    decreases |parts|
  {
    if parts != [] {
      TotalClean(parts[..|parts| - 1]);
    }
  }

  /** Appends the parts one by one; fails when they leave no room for the
      terminator. */
  method AppendParts(display: array<char>, parts: seq<string>, maxSize: nat) returns (ok: bool)
    requires 0 < maxSize <= display.Length && forall p <- parts :: '\0' !in p
    modifies display
    ensures ok <==> |Total(parts)| < maxSize
    ensures ok ==> Holds(display[..], Total(parts))
  {
    var at := 0;
    for i := 0 to |parts|
      invariant at == |Total(parts[..i])| < maxSize && display[..at] == Total(parts[..i])
    {
      assert parts[..i + 1][..i] == parts[..i];
      if at + |parts[i]| >= maxSize {
        TotalLonger(parts, i + 1);
        return false;
      }
      CopyBehind(display, at, parts[i]);
      at := at + |parts[i]|;
    }
    assert parts[..|parts|] == parts;
    TotalClean(parts);
    Terminate(display, Total(parts), at);
    return true;
  }

  /** build_authorizing_message. */
  method BuildAuthorizingMessage(display: array<char>, origin: string, ttl: string, maxSize: nat) returns (ok: bool)
    requires 0 < maxSize <= display.Length && '\0' !in origin && '\0' !in ttl
    modifies display
    ensures ok <==> |origin| + |ttl| + 17 < maxSize
    ensures ok ==> Holds(display[..], "Authorizing " + origin + " for " + ttl)
  {
    var parts := ["Authorizing ", origin, " for ", ttl];
    FourParts(parts);
    ok := AppendParts(display, parts, maxSize);
  }

  lemma FourParts(p: seq<string>)
    requires |p| == 4
    ensures Total(p) == p[0] + p[1] + p[2] + p[3]
  {
    assert p[..3][..2] == p[..2] && p[..2][..1] == p[..1] && p[..1][..0] == [];
    assert Total(p[..1]) == p[0];
    assert Total(p[..2]) == p[0] + p[1];
    assert Total(p[..3]) == p[0] + p[1] + p[2];
  }

  // ---- Decoding the origin ---------------------------------------------------------------------

  /** Base64 padding up to a multiple of four. */
  function PadTo4(s: string): (t: string)
    ensures |t| % 4 == 0 && |s| <= |t| < |s| + 4
  {
    s + Equals((4 - |s| % 4) % 4)
  }

  /** Trailing question marks removed, except from the first position. */
  function Strip(s: string): (t: string)
    ensures t <= s && (s != "" ==> t != "")
  {
    if |s| > 1 && s[|s| - 1] == '?' then Strip(s[..|s| - 1]) else s
  }

  /** The part of the received origin that is decoded. */
  function Received(received: string): string {
    if |received| < ENCODED_ORIGIN_MAX_SIZE then received else received[..ENCODED_ORIGIN_MAX_SIZE - 1]
  }

  /** What is shown for a received origin and lifetime. */
  ghost function TokenDisplayText(received: string, ttl: string): Display {
    if received == "" then Invalid else
      match DecodeText(PadTo4(Received(received)))
      case None => Invalid
      case Some(text) =>
        if INVALID_ORIGIN_PREFIX <= text then BadRequest
        else if Written(|Strip(text)|, MAX_ORIGIN_SIZE) > MAX_ORIGIN_SIZE then
          Overrun(Shorten(Strip(text), MAX_ORIGIN_SIZE))
        else match LifetimeText(ttl)
          case None => TooLong
          case Some(time) =>
            var message := Authorizing(Strip(text), time);
            if |message| < DISPLAY_MAX_SIZE then Display.Shown(message) else Invalid
  }

  /** The trailing question marks of a decoded text, counted from the right. */
  method StrippedLength(decoded: array<char>, ghost text: string) returns (n: nat)
    requires Holds(decoded[..], text)
    ensures n == |Strip(text)|
  {
    n := StrLen(decoded, text);
    assert forall k :: 0 <= k < |text| ==> decoded[k] == decoded[..][..|text|][k] == text[k];
    assert text[..n] == text;
    while n > 1
      invariant n <= |text| && Strip(text) == Strip(text[..n])
    {
      if decoded[n - 1] != '?' {
        break;
      }
      assert text[..n][..n - 1] == text[..n - 1];
      n := n - 1;
    }
  }

  const INVALID_RET_CODE: int := -1
  const BAD_REQUEST_RET_CODE: int := -2

  /** No codes of the firmware: it would write past a buffer, or overflow. */
  const OVERRUN_RET_CODE: int := 1
  const TOO_LONG_RET_CODE: int := 2

  /** The received origin with the padding it lacks. */
  method PadReceived(received: string) returns (padded: string)
    requires '\0' !in received
    ensures padded == PadTo4(Received(received)) && |padded| < ENCODED_ORIGIN_MAX_SIZE + 3
    ensures padded[..|padded| / 4 * 4] == padded
  {
    padded := Received(received);
    var modifier := |padded| % 4;
    if modifier != 0 {
      padded := padded + Equals(4 - modifier);
    }
    assert padded == PadTo4(Received(received));
  }

  /** compute_token_display; also what an origin that is written past its buffer
      leaves there. */
  method ComputeTokenDisplay(received: string, ttl: string, display: array<char>)
    returns (r: int, ghost originDisplay: seq<char>)
    requires '\0' !in received && display.Length == DISPLAY_MAX_SIZE
    modifies display
    ensures r ==
      match TokenDisplayText(received, ttl)
      case Shown(_) => 0
      case Invalid => INVALID_RET_CODE
      case BadRequest => BAD_REQUEST_RET_CODE
      case Overrun(_) => OVERRUN_RET_CODE
      case TooLong => TOO_LONG_RET_CODE
    ensures r == 0 ==> Holds(display[..], TokenDisplayText(received, ttl).text)
    ensures r == OVERRUN_RET_CODE ==> originDisplay == TokenDisplayText(received, ttl).origin
  {
    hide DecodeText, Strip, Authorizing, Holds, Written, Shorten, Received, PadTo4, LifetimeText;
    originDisplay := [];
    if |received| == 0 {
      r := INVALID_RET_CODE;
      return;
    }
    var padded := PadReceived(received);
    var decoded := new char[ENCODED_ORIGIN_MAX_SIZE];
    var ok := Base64Decode(decoded, padded, |padded|);
    if !ok {
      r := INVALID_RET_CODE;
      return;
    }
    ghost var text := DecodeText(padded).value;
    DecodedHolds(decoded[..], padded);
    var reserved := IsReserved(decoded, text);
    if reserved {
      r := BAD_REQUEST_RET_CODE;
      return;
    }
    r, originDisplay := ShowOrigin(decoded, text, ttl, display);
  }

  /** The comparison of the decoded origin with the reserved prefix. */
  method IsReserved(decoded: array<char>, ghost text: string) returns (reserved: bool)
    requires Holds(decoded[..], text) && decoded.Length >= |INVALID_ORIGIN_PREFIX|
    ensures reserved <==> INVALID_ORIGIN_PREFIX <= text
  {
    hide Holds;
    SamePrefix(decoded[..], text, INVALID_ORIGIN_PREFIX);
    reserved := decoded[..|INVALID_ORIGIN_PREFIX|] == INVALID_ORIGIN_PREFIX;
  }

  /** Strips and shortens the decoded origin and builds the message with it. */
  method ShowOrigin(decoded: array<char>, ghost text: string, ttl: string, display: array<char>)
    returns (r: int, ghost shown: seq<char>)
    requires Holds(decoded[..], text) && display.Length == DISPLAY_MAX_SIZE && decoded != display
    modifies decoded, display
    ensures
      if Written(|Strip(text)|, MAX_ORIGIN_SIZE) > MAX_ORIGIN_SIZE then
        r == OVERRUN_RET_CODE && shown == Shorten(Strip(text), MAX_ORIGIN_SIZE)
      else match LifetimeText(ttl)
        case None => r == TOO_LONG_RET_CODE
        case Some(time) =>
          var message := Authorizing(Strip(text), time);
          if |message| < DISPLAY_MAX_SIZE then r == 0 && Holds(display[..], message) else r == INVALID_RET_CODE
  {
    hide Shorten, Strip, Authorizing, Holds, LifetimeText;
    var n := StrippedLength(decoded, text);
    StripHeld(decoded[..], text);
    decoded[n] := '\0';
    var origin := decoded[..n];
    assert origin == Strip(text);
    AllConsidered(origin);
    var originDisplay := new char[MAX_ORIGIN_SIZE];
    var overrun := TruncateIfNeeded(origin, |origin|, originDisplay, MAX_ORIGIN_SIZE);
    shown := originDisplay[..];
    if overrun {
      r := OVERRUN_RET_CODE;
      return;
    }
    var len := StrLen(originDisplay, Strip(text));
    HeldText(originDisplay[..], Strip(text));
    r := ShowWithTime(originDisplay[..len], ttl, display);
  }

  /** Converts the lifetime and builds the message. */
  method ShowWithTime(origin: string, ttl: string, display: array<char>) returns (r: int)
    requires '\0' !in origin && display.Length == DISPLAY_MAX_SIZE
    modifies display
    ensures
      match LifetimeText(ttl)
      case None => r == TOO_LONG_RET_CODE
      case Some(time) =>
        var message := Authorizing(origin, time);
        if |message| < DISPLAY_MAX_SIZE then r == 0 && Holds(display[..], message) else r == INVALID_RET_CODE
  {
    hide Holds, LifetimeText;
    var ttlDisplay := new char[MAX_AUTH_TOKEN_TTL_SIZE];
    var overflow := TimeForDisplay(ttl, ttlDisplay);
    if overflow {
      return TOO_LONG_RET_CODE;
    }
    var time := LifetimeText(ttl).value;
    HeldText(ttlDisplay[..], time);
    var len := StrLen(ttlDisplay, time);
    assert ttlDisplay[..len] == time;
    var ok := BuildAuthorizingMessage(display, origin, ttlDisplay[..len], DISPLAY_MAX_SIZE);
    return if ok then 0 else INVALID_RET_CODE;
  }

  /** The lifetime's text; none was received if it is empty. */
  method TimeForDisplay(ttl: string, ttlDisplay: array<char>) returns (overflow: bool)
    requires ttlDisplay.Length == MAX_AUTH_TOKEN_TTL_SIZE
    modifies ttlDisplay
    ensures overflow <==> LifetimeText(ttl).None?
    ensures !overflow ==> Holds(ttlDisplay[..], LifetimeText(ttl).value)
  {
    hide Holds;
    if |ttl| == 0 {
      CopyBehind(ttlDisplay, 0, NO_TIME);
      Terminate(ttlDisplay, NO_TIME, |NO_TIME|);
      return false;
    }
    overflow := SecondsToTime(ttl, ttlDisplay);
  }

  lemma AllConsidered(s: string)
    ensures Limited(s, |s|) == s
  {
  }

  lemma StripHeld(a: seq<char>, text: string)
    requires Holds(a, text)
    ensures |Strip(text)| < |a| && a[..|Strip(text)|] == Strip(text) && '\0' !in Strip(text)
  {
    hide Strip;
    assert a[..|text|][..|Strip(text)|] == a[..|Strip(text)|];
  }

  // ---- Origins shown as they are -----------------------------------------------------------------

  lemma {:induction false} StripMarks(s: string, k: nat)
    requires s != ""
    ensures Strip(s + seq(k, _ => '?')) == Strip(s)
    decreases k
  {
    var marks := seq(k, _ => '?');
    if k == 0 {
      assert s + marks == s;
    } else {
      assert (s + marks)[..|s| + k - 1] == s + seq(k - 1, _ => '?');
      StripMarks(s, k - 1);
    }
  }

  /** Stripping leaves exactly the texts that do not end in a question mark. */
  lemma StripExact(s: string)
    ensures Strip(s) == s <==> |s| <= 1 || s[|s| - 1] != '?'
  {
  }

  /** The padding the client left out is put back. */
  lemma PaddingRestored(b: seq<uint8>)
    ensures PadTo4(Encode(b)) == Complete(b)
  {
    hide Encode;
    EncodeLength(b);
  }

  lemma OriginDecodes(b: seq<uint8>)
    requires b != []
    ensures DecodeText(PadTo4(Encode(b))) == Some(ShownText(b) + seq(Missing(|b|), _ => '?'))
  {
    hide Encode, Decoded, IsBase64Char, Missing;
    PaddingRestored(b);
    DecodeEncode(b);
    assert Complete(b)[..|Complete(b)| / 4 * 4] == Complete(b);
    assert ShownText(b + Zeros(Missing(|b|))) == ShownText(b) + seq(Missing(|b|), _ => '?');
  }

  lemma PrefixWithMarks(s: string, k: nat)
    ensures INVALID_ORIGIN_PREFIX <= s + seq(k, _ => '?') <==> INVALID_ORIGIN_PREFIX <= s
  {
    var p := INVALID_ORIGIN_PREFIX;
    assert forall i :: 0 <= i < |p| ==> p[i] != '?';
    if |s| < |p| <= |s| + k {
      assert (s + seq(k, _ => '?'))[|s|] == '?';
    }
  }

  /** For every origin whose encoding fits, the message names the origin without
      trailing question marks; an origin with the reserved prefix is refused, and
      one of 37 or more characters is put into its buffer, shortened to 37, with
      its terminator behind it. */
  lemma OriginShown(b: seq<uint8>, ttl: string)
    requires b != [] && |Encode(b)| < ENCODED_ORIGIN_MAX_SIZE
    ensures TokenDisplayText(Encode(b), ttl) ==
      if INVALID_ORIGIN_PREFIX <= ShownText(b) then BadRequest
      else if |Strip(ShownText(b))| >= MAX_ORIGIN_SIZE then
        Overrun(Shorten(Strip(ShownText(b)), MAX_ORIGIN_SIZE))
      else match LifetimeText(ttl)
        case None => TooLong
        case Some(time) => Display.Shown("Authorizing " + Strip(ShownText(b)) + " for " + time)
  {
    hide Encode, DecodeText, Strip, Missing, LifetimeText;
    TextFits(ttl);
    EncodeLength(b);
    OriginDecodes(b);
    PrefixWithMarks(ShownText(b), Missing(|b|));
    StripMarks(ShownText(b), Missing(|b|));
  }

  predicate Printable(origin: string) {
    forall i :: 0 <= i < |origin| ==> 32 <= origin[i] as int <= 126
  }

  /** Printable text is decoded as it is. */
  lemma ShownPlain(s: string)
    requires Printable(s)
    ensures ShownText(Bytes(s)) == s
  {
  }

  /** A printable origin that does not end in a question mark is shown itself if
      and only if it has fewer than 37 characters; otherwise it, or its two ends,
      fill the buffer and the terminator is written behind it. */
  lemma PrintableOriginShown(origin: string, ttl: string)
    requires origin != "" && Printable(origin)
    requires origin[|origin| - 1] != '?' && !("multiversx://" <= origin)
    requires |Encode(Bytes(origin))| <= 99 && LifetimeText(ttl).Some?
    ensures TokenDisplayText(Encode(Bytes(origin)), ttl) ==
      if |origin| < 37 then Display.Shown("Authorizing " + origin + " for " + LifetimeText(ttl).value)
      else Overrun(Shorten(origin, 37))
  {
    hide Encode, Strip, TokenDisplayText, Shorten, LifetimeText;
    ShownPlain(origin);
    StripExact(origin);
    OriginShown(Bytes(origin), ttl);
  }

  /** An origin and a lifetime of 300 seconds, as an example. */
  lemma LocalhostShown()
    ensures TokenDisplayText("bG9jYWxob3N0", "300") == Display.Shown("Authorizing localhost for 5min ")
  {
    hide TokenDisplayText, Encode, LifetimeText;
    LocalhostEncoded();
    FiveMinutes();
    assert "localhost"[0] != "multiversx://"[0];
    PrintableOriginShown("localhost", "300");
    assert "Authorizing " + "localhost" + " for " + "5min " == "Authorizing localhost for 5min ";
  }

  lemma LocalhostTriples()
    ensures Encode([108, 111, 99, 97, 108, 104, 111, 115, 116]) == "bG9jYWxob3N0"
  {
    hide *;
    TripleText(108, 111, 99, 27, 6, 61, 35);
    TripleText(97, 108, 104, 24, 22, 49, 40);
    TripleText(111, 115, 116, 27, 55, 13, 52);
    LocalhostLetters();
    EncodeThree(111, 115, 116, []);
    EncodeThree(97, 108, 104, [111, 115, 116]);
    EncodeThree(108, 111, 99, [97, 108, 104, 111, 115, 116]);
    assert [111, 115, 116] == [111, 115, 116] + [];
    assert [97, 108, 104, 111, 115, 116] == [97, 108, 104] + [111, 115, 116];
    assert [108, 111, 99, 97, 108, 104, 111, 115, 116] == [108, 111, 99] + [97, 108, 104, 111, 115, 116];
  }

  lemma LocalhostLetters()
    ensures EncodeChar(27) == 'b' && EncodeChar(6) == 'G' && EncodeChar(61) == '9' && EncodeChar(35) == 'j'
    ensures EncodeChar(24) == 'Y' && EncodeChar(22) == 'W' && EncodeChar(49) == 'x' && EncodeChar(40) == 'o'
    ensures EncodeChar(55) == '3' && EncodeChar(13) == 'N' && EncodeChar(52) == '0' && Encode([]) == ""
  {
  }

  lemma LocalhostEncoded()
    ensures Printable("localhost") && Encode(Bytes("localhost")) == "bG9jYWxob3N0"
  {
    hide Encode, EncodeTriple;
    assert Bytes("localhost") == [108, 111, 99, 97, 108, 104, 111, 115, 116];
    LocalhostTriples();
  }

  /** An origin of 37 characters. */
  lemma LongOrigin(ttl: string)
    requires LifetimeText(ttl).Some?
    ensures
      var origin := seq(37, _ => 'a');
      Printable(origin) && TokenDisplayText(Encode(Bytes(origin)), ttl) == Overrun(origin)
  {
    hide Encode, TokenDisplayText, LifetimeText;
    var origin := seq(37, _ => 'a');
    EncodeLength(Bytes(origin));
    assert INVALID_ORIGIN_PREFIX[0] != origin[0];
    PrintableOriginShown(origin, ttl);
  }

  function Bytes(s: string): (b: seq<uint8>)
    requires forall i :: 0 <= i < |s| ==> s[i] as int < 256
    ensures |b| == |s| && forall i :: 0 <= i < |s| ==> b[i] == s[i] as int
  {
    seq(|s|, i requires 0 <= i < |s| => s[i] as int)
  }
}
