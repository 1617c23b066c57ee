/** The lifetime of an authentication token, as it is shown. */
module Lifetime {
  import opened Wrappers
  import opened Numerals
  import opened CStrings
  import opened Uint128Text

  const MAX_INT: nat := 0x7FFF_FFFF
  const MAX_INT_NUM_DIGITS: nat := 10
  const MAX_AUTH_TOKEN_TTL_SIZE: nat := 41
  const NO_TIME: string := "N/A time"
  const MORE_THAN_A_DAY: string := "more than one day"

  // ---- Reading seconds ---------------------------------------------------------------------------

  /** A signed sum that leaves its 32 bits has no defined meaning. */
  datatype Reading = Seconds(n: nat) | NotANumber | Overflow

  /** atoi, one character at a time; the character is added before the zero is
      taken off. */
  function Read(str: string): (r: Reading)
    ensures r.Seconds? ==> r.n <= MAX_INT
  {
    if str == "" then Seconds(0) else
      var last := |str| - 1;
      match Read(str[..last])
      case Seconds(n) =>
        if !IsDigit(str[last]) then NotANumber
        else if n * 10 + str[last] as int > MAX_INT then Overflow
        else Seconds(n * 10 + DigitValue(str[last]))
      case NotANumber => NotANumber
      case Overflow => Overflow
  }

  /** Digits are read exactly if and only if their number is 48 below the largest
      integer, and overflow otherwise. */
  lemma {:induction false} ReadExact(str: string)
    requires str != "" && AllDigits(str)
    ensures Read(str) ==
      if Eval(Values(str), 10) + 48 <= 2_147_483_647 then Seconds(Eval(Values(str), 10)) else Overflow
    decreases |str|
  {
    hide Eval, Values;
    var head := str[..|str| - 1];
    EvalLast(str);
    if head == "" {
      EvalNone(head);
    } else {
      ReadExact(head);
    }
  }

  lemma EvalLast(str: string)
    requires str != "" && AllDigits(str)
    ensures Eval(Values(str), 10) == Eval(Values(str[..|str| - 1]), 10) * 10 + DigitValue(str[|str| - 1])
  {
    assert Values(str)[..|str| - 1] == Values(str[..|str| - 1]);
  }

  lemma EvalNone(str: string)
    requires str == ""
    ensures Eval(Values(str), 10) == 0
  {
  }

  lemma {:induction false} ReadEnds(str: string, i: nat)
    requires i <= |str| && !Read(str[..i]).Seconds?
    ensures Read(str) == Read(str[..i])
    decreases |str| - i
  {
    if i == |str| {
      assert str[..i] == str;
    } else {
      assert str[..i + 1][..i] == str[..i];
      ReadEnds(str, i + 1);
    }
  }

  /** atoi. */
  method Atoi(str: string) returns (res: nat, overflow: bool)
    ensures overflow <==> Read(str).Overflow?
    ensures !overflow ==> res == if Read(str).Seconds? then Read(str).n else 0
  {
    res := 0;
    assert str[..0] == "";
    for i := 0 to |str|
      invariant Read(str[..i]) == Seconds(res)
    {
      assert str[..i + 1][..i] == str[..i];
      if !IsDigit(str[i]) {
        ReadEnds(str, i + 1);
        return 0, false;
      }
      if res * 10 + str[i] as int > MAX_INT {
        ReadEnds(str, i + 1);
        return 0, true;
      }
      res := res * 10 + str[i] as int - '0' as int;
    }
    assert str[..|str|] == str;
    return res, false;
  }

  // ---- The text ------------------------------------------------------------------------------------

  /** append_to_str: a part is left out when it and a terminator do not fit. */
  function Appended(t: string, s: string, maxSize: nat): string {
    if |s| + |t| >= maxSize then t else t + s
  }

  /** append_time: a number and its unit, each as far as it fits eleven bytes. */
  function WithTime(t: string, v: nat, tag: string): string {
    if v == 0 then t else
      Appended(Appended(t, Print(v, 10), MAX_INT_NUM_DIGITS + 1), tag, MAX_INT_NUM_DIGITS + 1)
  }

  function Hours(n: nat): nat { n / 3600 }

  function Minutes(n: nat): nat { (n - 3600 * Hours(n)) / 60 }

  function SecondsLeft(n: nat): nat { n - 3600 * Hours(n) - Minutes(n) * 60 }

  /** What seconds_to_time writes for a number of seconds. */
  function TimeText(n: nat): string {
    if n == 0 then NO_TIME
    else if Hours(n) > 24 then MORE_THAN_A_DAY
    else WithTime(WithTime(WithTime("", Hours(n), "h "), Minutes(n), "min "), SecondsLeft(n), "sec.")
  }

  /** The same for a text; nothing when it has no defined meaning. */
  function LifetimeText(ttl: string): Option<string> {
    match Read(ttl)
    case Seconds(n) => Some(TimeText(n))
    case NotANumber => Some(NO_TIME)
    case Overflow => None
  }

  /** A number and its unit, unless the number is zero. */
  function Part(v: nat, tag: string): string {
    if v == 0 then "" else Print(v, 10) + tag
  }

  /** Hours, minutes and seconds, each with its unit. */
  function WholeTime(n: nat): string {
    Part(Hours(n), "h ") + Part(Minutes(n), "min ") + Part(SecondsLeft(n), "sec.")
  }

  lemma Clock(n: nat)
    ensures n == 3600 * Hours(n) + 60 * Minutes(n) + SecondsLeft(n)
    ensures Minutes(n) < 60 && SecondsLeft(n) < 60
    ensures Hours(n) > 24 <==> n >= 90_000
  {
  }

  lemma TwoDigits(v: nat)
    requires v < 100
    ensures |Print(v, 10)| == if v < 10 then 1 else 2
  {
    assert Pow(10, 1) == 10 && Pow(10, 2) == 100;
    DigitsCanonical(v, 10);
    DigitCount(v, 10, 1);
    DigitCount(v, 10, 2);
  }

  /** Two parts that always fit. */
  lemma HoursAndMinutes(h: nat, m: nat)
    requires h <= 24 && m < 60
    ensures WithTime(WithTime("", h, "h "), m, "min ") == Part(h, "h ") + Part(m, "min ")
    ensures |Part(h, "h ")| == if h == 0 then 0 else if h < 10 then 3 else 4
    ensures |Part(m, "min ")| == if m == 0 then 0 else if m < 10 then 5 else 6
  {
    hide Print;
    TwoDigits(h);
    TwoDigits(m);
    assert "" + Print(h, 10) == Print(h, 10);
  }

  /** Seconds, or as much of them as fits. */
  lemma SecondsShown(t: string, s: nat)
    requires |t| <= 10 && s < 60
    ensures
      var shown := WithTime(t, s, "sec.");
      && t <= shown <= t + Part(s, "sec.")
      && (shown == t + Part(s, "sec.") <==> s == 0 || |t| <= (if s < 10 then 5 else 4))
      && (s > 0 ==> (shown == t <==> |t| > (if s < 10 then 9 else 8)))
  {
    hide Print;
    TwoDigits(s);
    assert t + (Print(s, 10) + "sec.") == t + Print(s, 10) + "sec.";
  }

  /** For less than 25 hours: hours and minutes are always shown in full; the text
      shown is the beginning of the whole one, and is the whole one if and only if
      there are no seconds, or no minutes, or fewer than ten of each without hours. */
  lemma TimeShown(n: nat)
    requires 0 < n < 90_000
    ensures Part(Hours(n), "h ") + Part(Minutes(n), "min ") <= TimeText(n) <= WholeTime(n)
    ensures TimeText(n) == WholeTime(n) <==>
      SecondsLeft(n) == 0 || Minutes(n) == 0 || (Hours(n) == 0 && Minutes(n) < 10 && SecondsLeft(n) < 10)
  {
    hide Part, WithTime, Hours, Minutes, SecondsLeft;
    Clock(n);
    HoursAndMinutes(Hours(n), Minutes(n));
    SecondsShown(Part(Hours(n), "h ") + Part(Minutes(n), "min "), SecondsLeft(n));
  }

  /** 25 hours and more are shown as more than one day, and nothing else is. */
  lemma LongTimes(n: nat)
    ensures TimeText(n) == "more than one day" <==> n >= 90_000
  {
    hide Part, Hours, Minutes, SecondsLeft;
    Clock(n);
    if 0 < n < 90_000 {
      HoursAndMinutes(Hours(n), Minutes(n));
      ShortText(Part(Hours(n), "h ") + Part(Minutes(n), "min "), SecondsLeft(n), "sec.");
    }
  }

  lemma ShortText(t: string, v: nat, tag: string)
    requires |t| <= 10
    ensures |WithTime(t, v, tag)| <= 10
  {
    hide Print;
  }

  /** The lifetimes of the comment at src/utils.c:148-149, and two more: 12345
      seconds are shown as 12300, and a day and a second with its hours. */
  lemma DocumentedTimes()
    ensures TimeText(123) == "2min 3sec."
    ensures TimeText(1234) == "20min 34"
    ensures TimeText(12345) == "3h 25min " == TimeText(12300)
    ensures TimeText(86401) == "24h 1sec."
  {
    hide TimeText;
    MinutesAndSeconds();
    TwentyMinutes();
    ThreeHours(45, 12345);
    ThreeHours(0, 12300);
    DayAndSecond();
  }

  lemma MinutesAndSeconds()
    ensures TimeText(123) == "2min 3sec."
  {
    hide Print;
    PrintSmall(2);
    PrintSmall(3);
  }

  lemma TwentyMinutes()
    ensures TimeText(1234) == "20min 34"
  {
    hide Print;
    PrintSmall(20);
    PrintSmall(34);
  }

  lemma ThreeHours(s: nat, n: nat)
    requires (s == 0 || 10 <= s < 60) && n == 12300 + s
    ensures TimeText(n) == "3h 25min "
  {
    hide Print, WithTime;
    assert Hours(n) == 3 && Minutes(n) == 25 && SecondsLeft(n) == s;
    HoursAndMinutes(3, 25);
    PrintSmall(3);
    PrintSmall(25);
    assert Part(3, "h ") + Part(25, "min ") == "3h 25min ";
    SecondsShown("3h 25min ", s);
    assert "3h 25min " + "" == "3h 25min ";
  }

  lemma DayAndSecond()
    ensures TimeText(86401) == "24h 1sec."
  {
    hide Print;
    PrintSmall(24);
    PrintSmall(1);
  }

  /** What is received is read: five minutes, no lifetime, and a text that is no
      number. */
  lemma FiveMinutes()
    ensures LifetimeText("300") == Some("5min ")
    ensures LifetimeText("") == Some("N/A time")
    ensures LifetimeText("5m") == Some("N/A time")
  {
    hide TimeText;
    assert Read("") == Seconds(0);
    assert "300"[..2] == "30" && "30"[..1] == "3" && "3"[..0] == "";
    assert Read("3") == Seconds(3);
    assert Read("30") == Seconds(30);
    assert "5m"[..1] == "5" && "5"[..0] == "";
    FiveMinutesText();
  }

  lemma FiveMinutesText()
    ensures TimeText(300) == "5min " && TimeText(0) == "N/A time"
  {
    hide Print;
    PrintSmall(5);
  }

  lemma PrintSmall(v: nat)
    requires 0 < v < 100
    ensures Print(v, 10) == if v < 10 then [HEXDIGITS[v]] else [HEXDIGITS[v / 10], HEXDIGITS[v % 10]]
  {
    DigitsCanonical(v, 10);
    if v >= 10 {
      assert Digits(v, 10) == Digits(v / 10, 10) + [v % 10] == [v / 10, v % 10];
    }
  }

  /** Every lifetime's text fits its buffer. */
  lemma TextFits(ttl: string)
    ensures LifetimeText(ttl).Some? ==> |LifetimeText(ttl).value| <= 17 && '\0' !in LifetimeText(ttl).value
  {
    hide WithTime, Hours, Minutes, SecondsLeft;
    if Read(ttl).Seconds? {
      var n := Read(ttl).n;
      var h, m := WithTime("", Hours(n), "h "), WithTime(WithTime("", Hours(n), "h "), Minutes(n), "min ");
      ShortText("", Hours(n), "h ");
      ShortText(h, Minutes(n), "min ");
      ShortText(m, SecondsLeft(n), "sec.");
      CleanText("", Hours(n), "h ");
      CleanText(h, Minutes(n), "min ");
      CleanText(m, SecondsLeft(n), "sec.");
    }
  }

  lemma CleanText(t: string, v: nat, tag: string)
    requires '\0' !in t && '\0' !in tag
    ensures '\0' !in WithTime(t, v, tag)
  {
    hide Print;
    PrintDecimal(v);
  }

  // ---- The conversion ------------------------------------------------------------------------------

  lemma TenDigits(n: nat)
    requires n <= MAX_INT
    ensures 1 <= |Print(n, 10)| <= MAX_INT_NUM_DIGITS
  {
    DigitsCanonical(n, 10);
    DigitCount(n, 10, 10);
    PowSplit(10, 5, 5);
  }

  /** int_to_char_array, for numbers that are not negative. */
  method IntToCharArray(input: nat, result: array<char>)
    requires input <= MAX_INT && result.Length == MAX_INT_NUM_DIGITS + 1
    modifies result
    ensures Holds(result[..], Print(input, 10))
  {
    hide Print, Holds, Reversed, Written;
    PrintDecimal(input);
    if input == 0 {
      PrintZero();
      CopyBehind(result, 0, "0");
      Terminate(result, "0", 1);
      return;
    }
    var digits := new char[MAX_INT_NUM_DIGITS];
    var n := DigitsBackwards(input, digits);
    ghost var text, read := Print(input, 10), digits[..n];
    for i := n downto 0
      invariant digits[..n] == read && result[..n - i] == text[..n - i]
    {
      ReversedAt(read, n - 1 - i);
      assert digits[i] == read[i];
      ghost var done := result[..n - 1 - i];
      result[n - 1 - i] := digits[i];
      assert result[..n - i] == done + [text[n - 1 - i]];
    }
    assert result[..n] == text;
    Terminate(result, text, n);
  }

  lemma PrintZero()
    ensures Print(0, 10) == "0"
  {
  }

  lemma ReversedAt(s: seq<char>, k: nat)
    requires k < |s|
    ensures |Reversed(s)| == |s| && Reversed(s)[k] == s[|s| - 1 - k]
  {
  }

  /** The digits, the last one first. */
  method DigitsBackwards(input: nat, digits: array<char>) returns (n: nat)
    requires 0 < input <= MAX_INT && digits.Length == MAX_INT_NUM_DIGITS
    modifies digits
    ensures n <= digits.Length && Reversed(digits[..n]) == Print(input, 10)
  {
    hide Print, Reversed, Written;
    TenDigits(input);
    n := 0;
    var rest: nat := input;
    while rest > 0
      invariant n <= digits.Length && (n == 0 ==> rest == input)
      invariant n > 0 ==> Written(input, 10, rest, digits[..n])
      decreases rest
    {
      ghost var done := digits[..n];
      WriteDigit(input, 10, rest, done);
      DigitChar(rest % 10);
      digits[n] := (rest % 10 + '0' as int) as char;
      n := n + 1;
      assert digits[..n] == done + [HEXDIGITS[rest % 10]];
      rest := rest / 10;
    }
    AllWritten(input, digits[..n]);
  }

  lemma DigitChar(v: nat)
    requires v < 10
    ensures HEXDIGITS[v] == (v + '0' as int) as char
  {
  }

  lemma AllWritten(n: nat, done: seq<char>)
    requires Written(n, 10, 0, done)
    ensures Print(n, 10) == Reversed(done)
  {
  }

  /** append_to_str. */
  method AppendToStr(source: string, destination: array<char>, index: nat, maxSize: nat) returns (next: nat)
    requires index <= maxSize <= destination.Length
    modifies destination
    ensures next <= maxSize && destination[..next] == Appended(old(destination[..index]), source, maxSize)
  {
    if |source| + index >= maxSize {
      return index;
    }
    CopyBehind(destination, index, source);
    return index + |source|;
  }

  /** append_time. */
  method AppendTime(output: array<char>, index: nat, value: nat, tag: string) returns (next: nat)
    requires index <= MAX_INT_NUM_DIGITS + 1 <= output.Length && value <= MAX_INT
    modifies output
    ensures next <= MAX_INT_NUM_DIGITS + 1 && output[..next] == WithTime(old(output[..index]), value, tag)
  {
    hide Print, Holds;
    if value == 0 {
      return index;
    }
    var buffer := new char[MAX_INT_NUM_DIGITS + 1];
    IntToCharArray(value, buffer);
    var text := Print(value, 10);
    HeldText(buffer[..], text);
    var len := StrLen(buffer, text);
    assert buffer[..len] == text;
    next := AppendToStr(buffer[..len], output, index, MAX_INT_NUM_DIGITS + 1);
    next := AppendToStr(tag, output, next, MAX_INT_NUM_DIGITS + 1);
  }

  /** seconds_to_time. */
  method SecondsToTime(input: string, output: array<char>) returns (overflow: bool)
    requires output.Length == MAX_AUTH_TOKEN_TTL_SIZE
    modifies output
    ensures overflow <==> LifetimeText(input).None?
    ensures !overflow ==> Holds(output[..], LifetimeText(input).value)
  {
    hide Holds, WithTime;
    var numSeconds;
    numSeconds, overflow := Atoi(input);
    if overflow {
      return;
    }
    TextFits(input);
    if numSeconds == 0 {
      CopyBehind(output, 0, NO_TIME);
      Terminate(output, NO_TIME, |NO_TIME|);
      return;
    }
    var h := numSeconds / 3600;
    var m := (numSeconds - 3600 * h) / 60;
    var s := numSeconds - 3600 * h - m * 60;
    if h > 24 {
      CopyBehind(output, 0, MORE_THAN_A_DAY);
      Terminate(output, MORE_THAN_A_DAY, |MORE_THAN_A_DAY|);
      return;
    }
    WriteClock(output, h, m, s, LifetimeText(input).value);
  }

  /** The parts, collected in a second buffer. */
  method WriteClock(output: array<char>, h: nat, m: nat, s: nat, ghost text: string)
    requires output.Length == MAX_AUTH_TOKEN_TTL_SIZE && h <= MAX_INT && m <= MAX_INT && s <= MAX_INT
    requires text == WithTime(WithTime(WithTime("", h, "h "), m, "min "), s, "sec.") && '\0' !in text
    modifies output
    ensures Holds(output[..], text)
  {
    hide Holds, WithTime;
    var temp := new char[MAX_AUTH_TOKEN_TTL_SIZE];
    assert temp[..0] == "";
    var at := AppendTime(temp, 0, h, "h ");
    at := AppendTime(temp, at, m, "min ");
    at := AppendTime(temp, at, s, "sec.");
    CopyBehind(output, 0, temp[..at]);
    Terminate(output, text, at);
  }
}
