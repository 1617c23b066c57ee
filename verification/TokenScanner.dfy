/** Extracting the origin and the lifetime from an authentication token. */
module TokenScanner {
  import opened CStrings

  const ENCODED_ORIGIN_MAX_SIZE: nat := 101
  const ENCODED_TTL_MAX_SIZE: nat := 11
  const BUFFER_FULL: nat := ENCODED_ORIGIN_MAX_SIZE - 2

  /** The scanner between two characters; buffers are given by their C strings. */
  datatype Scan = Scan(buffer: string, origin: string, ttl: string, dots: nat, stop: bool)

  const CLEAN: Scan := Scan("", "", "", 0, false)

  /** A segment that has been closed, moved out of the buffer if it fits. */
  function Close(s: Scan): Scan {
    if s.dots == 0 then s.(buffer := "", origin := s.buffer, dots := 1)
    else if s.dots == 2 then
      if |s.buffer| >= ENCODED_TTL_MAX_SIZE then s.(buffer := "", ttl := "", dots := 3, stop := true)
      else s.(buffer := "", ttl := s.buffer, dots := 3)
    else s.(dots := s.dots + 1)
  }

  function ScanChar(s: Scan, c: char): Scan {
    if s.stop then s
    else if c == '.' then Close(s)
    else if s.dots == 1 then s
    else if |s.buffer| >= BUFFER_FULL then s.(stop := true)
    else if c == '\0' then s
    else s.(buffer := s.buffer + [c])
  }

  /** All characters of a chunk, in order. */
  function ScanAll(s: Scan, t: string): Scan {
    if t == [] then s else ScanChar(ScanAll(s, t[..|t| - 1]), t[|t| - 1])
  }

  // ---- Chunks ---------------------------------------------------------------------------

  /** Two chunks scan as their concatenation. */
  lemma {:induction false} ScanConcat(s: Scan, t: string, u: string)
    ensures ScanAll(ScanAll(s, t), u) == ScanAll(s, t + u)
    decreases |u|
  {
    hide ScanChar;
    if u == [] {
      assert t + u == t;
    } else {
      var last := |u| - 1;
      ScanConcat(s, t, u[..last]);
      assert (t + u)[..|t + u| - 1] == t + u[..last];
    }
  }

  /** Once the stop flag is set nothing changes. */
  lemma {:induction false} StoppedStays(s: Scan, t: string)
    requires s.stop
    ensures ScanAll(s, t) == s
    decreases |t|
  {
    if t != [] {
      StoppedStays(s, t[..|t| - 1]);
    }
  }

  // ---- What the scanner finds ---------------------------------------------------------------

  /** The segments between dots; the last one is still open. */
  function Split(t: string): (segments: seq<string>)
    ensures segments != []
  {
    if t == [] then [""] else
      var s := Split(t[..|t| - 1]);
      var c := t[|t| - 1];
      if c == '.' then s + [""] else s[|s| - 1 := s[|s| - 1] + [c]]
  }

  function Concat(s: seq<string>): string {
    if s == [] then "" else Concat(s[..|s| - 1]) + s[|s| - 1]
  }

  /** The origin is the first segment, once closed and at most 99 long. */
  function OriginOf(segments: seq<string>): string {
    if |segments| >= 2 && |segments[0]| <= BUFFER_FULL then segments[0] else ""
  }

  /** The lifetime is the third segment, once closed and at most 10 long. */
  function TtlOf(segments: seq<string>): string {
    if |segments| >= 4 && |segments[0]| <= BUFFER_FULL && |segments[2]| < ENCODED_TTL_MAX_SIZE then segments[2] else ""
  }

  /** What the buffer collects: the open first or third segment, or everything
      after the third. */
  function Collected(segments: seq<string>): string
    requires segments != []
  {
    if |segments| == 1 then segments[0]
    else if |segments| == 2 then ""
    else if |segments| == 3 then segments[2]
    else Concat(segments[3..])
  }

  predicate Stops(segments: seq<string>)
    requires segments != []
  {
    || |segments[0]| > BUFFER_FULL
    || |Collected(segments)| > BUFFER_FULL
    || (|segments| >= 3 && |segments[2]| > BUFFER_FULL)
    || (|segments| >= 4 && |segments[2]| >= ENCODED_TTL_MAX_SIZE)
  }

  ghost predicate Found(s: Scan, segments: seq<string>)
    requires segments != []
  {
    && s.origin == OriginOf(segments)
    && s.ttl == TtlOf(segments)
    && (s.stop <==> Stops(segments))
    && (!s.stop ==> s.dots == |segments| - 1 && s.buffer == Collected(segments))
  }

  lemma ConcatLast(s: seq<string>, c: char)
    requires s != []
    ensures Concat(s[|s| - 1 := s[|s| - 1] + [c]]) == Concat(s) + [c]
    ensures Concat(s + [""]) == Concat(s)
  {
    var t := s[|s| - 1 := s[|s| - 1] + [c]];
    assert t[..|t| - 1] == s[..|s| - 1];
    assert (s + [""])[..|s|] == s;
  }

  lemma FoundDot(s: Scan, segments: seq<string>)
    requires segments != [] && Found(s, segments)
    ensures Found(ScanChar(s, '.'), segments + [""])
  {
    hide Concat;
    var next := segments + [""];
    if |segments| >= 4 {
      ConcatLast(segments[3..], '.');
      assert next[3..] == segments[3..] + [""];
    } else if |segments| == 3 {
      assert next[3..] == [""];
      OnlyEmpty();
    }
  }

  lemma OnlyEmpty()
    ensures Concat([""]) == ""
  {
    assert [""][..0] == [];
  }

  lemma FoundChar(s: Scan, segments: seq<string>, c: char)
    requires segments != [] && Found(s, segments) && c != '.' && c != '\0'
    ensures Found(ScanChar(s, c), segments[|segments| - 1 := segments[|segments| - 1] + [c]])
  {
    hide Concat;
    var last := |segments| - 1;
    var next := segments[last := segments[last] + [c]];
    if |segments| >= 4 {
      ConcatLast(segments[3..], c);
      assert next[3..] == segments[3..][last - 3 := segments[last] + [c]];
    }
  }

  /** For every token prefix without NUL the scanner has found exactly the first
      and third segments that are closed and short enough. */
  lemma {:induction false} ScanFinds(t: string)
    requires '\0' !in t
    ensures Found(ScanAll(CLEAN, t), Split(t))
    decreases |t|
  {
    hide Found, ScanChar;
    if t == [] {
      FoundNothing();
    } else {
      var last := |t| - 1;
      assert t[last] in t && forall c <- t[..last] :: c in t;
      ScanFinds(t[..last]);
      if t[last] == '.' {
        FoundDot(ScanAll(CLEAN, t[..last]), Split(t[..last]));
      } else {
        FoundChar(ScanAll(CLEAN, t[..last]), Split(t[..last]), t[last]);
      }
    }
  }

  /** The origin is the first segment, once closed and of at most 99 characters;
      the lifetime the third, once closed and of at most ten. */
  lemma OriginAndLifetime(t: string)
    requires '\0' !in t
    ensures
      var scan, s := ScanAll(CLEAN, t), Split(t);
      && scan.origin == (if |s| >= 2 && |s[0]| <= 99 then s[0] else "")
      && scan.ttl == if |s| >= 4 && |s[0]| <= 99 && |s[2]| <= 10 then s[2] else ""
  {
    hide ScanAll, Split, Collected, Stops;
    ScanFinds(t);
  }

  lemma SplitMore(t: string, c: char)
    ensures
      var s := Split(t);
      Split(t + [c]) == if c == '.' then s + [""] else s[|s| - 1 := s[|s| - 1] + [c]]
  {
    assert (t + [c])[..|t|] == t;
  }

  lemma {:induction false} NewSegment(t: string, s: string)
    requires '.' !in s
    ensures Split(t + "." + s) == Split(t) + [s]
    decreases |s|
  {
    hide Split;
    if s == "" {
      SplitMore(t, '.');
      assert t + "." + s == t + ['.'];
    } else {
      var head, c := s[..|s| - 1], s[|s| - 1];
      assert c in s && forall d <- head :: d in s;
      NewSegment(t, head);
      SplitMore(t + "." + head, c);
      assert t + "." + s == t + "." + head + [c] && s == head + [c];
    }
  }

  lemma {:induction false} OneSegment(s: string)
    requires '.' !in s
    ensures Split(s) == [s]
    decreases |s|
  {
    if s != "" {
      var last := |s| - 1;
      assert s[last] in s && forall c <- s[..last] :: c in s;
      OneSegment(s[..last]);
      assert s == s[..last] + [s[last]];
    }
  }

  /** A token of four segments: origin, block hash, lifetime and extra data. */
  lemma TokenParts(origin: string, hash: string, ttl: string, extra: string)
    requires '.' !in origin && '.' !in hash && '.' !in ttl && '.' !in extra && |origin| <= 99 && |ttl| <= 10
    requires '\0' !in origin && '\0' !in hash && '\0' !in ttl && '\0' !in extra
    ensures
      var scan := ScanAll(CLEAN, origin + "." + hash + "." + ttl + "." + extra);
      scan.origin == origin && scan.ttl == ttl
  {
    hide ScanAll, Split;
    OneSegment(origin);
    NewSegment(origin, hash);
    NewSegment(origin + "." + hash, ttl);
    NewSegment(origin + "." + hash + "." + ttl, extra);
    OriginAndLifetime(origin + "." + hash + "." + ttl + "." + extra);
  }

  /** What follows a token's beginning leaves its closed segments as they are. */
  lemma {:induction false} SplitPrefix(t: string, u: string)
    ensures |Split(t)| <= |Split(t + u)|
    ensures forall k :: 0 <= k < |Split(t)| - 1 ==> Split(t + u)[k] == Split(t)[k]
    decreases |u|
  {
    if u == [] {
      assert t + u == t;
    } else {
      var last := |u| - 1;
      SplitPrefix(t, u[..last]);
      assert (t + u)[..|t + u| - 1] == t + u[..last];
    }
  }

  /** An origin or a lifetime found in the beginning of a token is the one of the
      whole token, its first or third segment. */
  lemma OriginKept(t: string, u: string)
    requires '\0' !in t + u
    ensures ScanAll(CLEAN, t).origin != "" ==>
      ScanAll(CLEAN, t).origin == ScanAll(CLEAN, t + u).origin == Split(t + u)[0]
    ensures ScanAll(CLEAN, t).ttl != "" ==>
      |Split(t + u)| > 2 && ScanAll(CLEAN, t).ttl == ScanAll(CLEAN, t + u).ttl == Split(t + u)[2]
  {
    hide ScanAll, Split, Stops, Collected;
    assert forall c <- t :: c in t + u;
    ScanFinds(t);
    ScanFinds(t + u);
    SplitPrefix(t, u);
  }

  lemma FoundNothing()
    ensures Found(CLEAN, [""])
  {
  }

  // ---- The scanner's buffers -----------------------------------------------------------------

  /** explicit_bzero. */
  method Zero(a: array<char>)
    modifies a
    ensures forall k :: 0 <= k < a.Length ==> a[k] == '\0'
  {
    forall k | 0 <= k < a.Length {
      a[k] := '\0';
    }
  }

  lemma ZeroHolds(a: seq<char>)
    requires |a| > 0 && forall k :: 0 <= k < |a| ==> a[k] == '\0'
    ensures Holds(a, "")
  {
  }

  /** move_value_from_buffer. The terminator is not copied, so what the
      destination held beyond the value stays. */
  method MoveValue(buffer: array<char>, ghost s: string, destination: array<char>) returns (stop: bool)
    requires buffer != destination && Holds(buffer[..], s)
    modifies buffer, destination
    ensures stop <==> |s| >= destination.Length
    ensures stop ==> forall k :: 0 <= k < destination.Length ==> destination[k] == '\0'
    ensures !stop ==> destination[..] == s + old(destination[|s|..])
    ensures Holds(buffer[..], "")
  {
    var n := StrLen(buffer, s);
    if n >= destination.Length {
      Zero(destination);
      Zero(buffer);
      ZeroHolds(buffer[..]);
      return true;
    }
    assert buffer[..n] == s;
    CopyIn(destination, 0, buffer[..n]);
    Zero(buffer);
    ZeroHolds(buffer[..]);
    return false;
  }

  /** A value moved into a blank destination is all it holds. */
  lemma MovedIntoBlank(s: string, rest: seq<char>)
    requires '\0' !in s && rest != [] && forall k :: 0 <= k < |rest| ==> rest[k] == '\0'
    ensures Holds(s + rest, s)
  {
  }

  class TokenContext {
    const buffer: array<char>
    const origin: array<char>
    const ttl: array<char>
    var dotCount: nat
    var stopFetch: bool

    constructor ()
      ensures Sized() && fresh(buffer) && fresh(origin) && fresh(ttl)
    {
      buffer := new char[ENCODED_ORIGIN_MAX_SIZE];
      origin := new char[ENCODED_ORIGIN_MAX_SIZE];
      ttl := new char[ENCODED_TTL_MAX_SIZE];
    }

    ghost predicate Sized() {
      && buffer != origin && buffer != ttl && origin != ttl
      && buffer.Length == origin.Length == ENCODED_ORIGIN_MAX_SIZE
      && ttl.Length == ENCODED_TTL_MAX_SIZE
    }

    /** The buffers hold the scanner's texts; a destination stays blank until its
        segment is closed. */
    ghost predicate Holding(s: Scan)
      reads this, buffer, origin, ttl
    {
      && Sized()
      && Holds(buffer[..], s.buffer) && |s.buffer| <= BUFFER_FULL
      && Holds(origin[..], s.origin)
      && Holds(ttl[..], s.ttl)
      && dotCount == s.dots && stopFetch == s.stop
      && (dotCount == 0 ==> forall k :: 0 <= k < origin.Length ==> origin[k] == '\0')
      && (dotCount <= 2 ==> forall k :: 0 <= k < ttl.Length ==> ttl[k] == '\0')
    }

    /** clean_token_fields, as far as the scanner's fields go. */
    method Clean()
      requires Sized()
      modifies this, buffer, origin, ttl
      ensures Holding(CLEAN)
    {
      dotCount := 0;
      Zero(buffer);
      Zero(origin);
      Zero(ttl);
      stopFetch := false;
      ZeroHolds(buffer[..]);
      ZeroHolds(origin[..]);
      ZeroHolds(ttl[..]);
    }

    /** A character other than a dot. */
    method AddChar(c: char, ghost s: Scan)
      requires Holding(s) && !stopFetch && c != '.'
      modifies this, buffer
      ensures Holding(ScanChar(s, c))
    {
      if dotCount == 1 {
        return;
      }
      var n := StrLen(buffer, s.buffer);
      if n >= BUFFER_FULL {
        stopFetch := true;
        return;
      }
      assert buffer[..n] == s.buffer;
      buffer[n] := c;
      buffer[n + 1] := '\0';
      assert buffer[..n] == s.buffer;
      assert buffer[..n + 1] == s.buffer + [c];
    }

    /** A dot. */
    method AddDot(ghost s: Scan)
      requires Holding(s) && !stopFetch
      modifies this, buffer, origin, ttl
      ensures Holding(ScanChar(s, '.'))
    {
      hide Holds;
      HeldText(buffer[..], s.buffer);
      dotCount := dotCount + 1;
      if dotCount == 1 {
        ghost var blank := origin[|s.buffer|..];
        stopFetch := MoveValue(buffer, s.buffer, origin);
        MovedIntoBlank(s.buffer, blank);
        return;
      }
      if dotCount == 3 {
        ghost var blank := ttl[..];
        stopFetch := MoveValue(buffer, s.buffer, ttl);
        if stopFetch {
          ZeroHolds(ttl[..]);
        } else {
          MovedIntoBlank(s.buffer, blank[|s.buffer|..]);
          assert blank[|s.buffer|..] == old(ttl[|s.buffer|..]);
        }
      }
    }

    /** handle_auth_token_data. */
    method HandleData(data: seq<char>, ghost s: Scan)
      requires Holding(s)
      modifies this, buffer, origin, ttl
      ensures Holding(ScanAll(s, data))
    {
      hide ScanChar, Holds;
      if stopFetch {
        StoppedStays(s, data);
        return;
      }
      assert data[..0] == [];
      for i := 0 to |data|
        invariant Holding(ScanAll(s, data[..i])) && !stopFetch
      {
        ghost var scan := ScanAll(s, data[..i]);
        assert data[..i + 1][..i] == data[..i] && data[..i + 1][i] == data[i];
        if data[i] != '.' {
          AddChar(data[i], scan);
        } else {
          AddDot(scan);
        }
        if stopFetch {
          StoppedStays(ScanAll(s, data[..i + 1]), data[i + 1..]);
          ScanConcat(s, data[..i + 1], data[i + 1..]);
          assert data[..i + 1] + data[i + 1..] == data;
          return;
        }
      }
      assert data[..|data|] == data;
    }
  }
}
