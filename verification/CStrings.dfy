/** NUL-terminated text inside a fixed-size buffer. */
module CStrings {

  /** Buffer a holds the C string s. */
  ghost predicate Holds(a: seq<char>, s: string) {
    && |s| < |a|
    && a[..|s|] == s
    && a[|s|] == '\0'
    && '\0' !in s
  }

  /** The text before the first NUL. */
  function CStr(s: seq<char>): (t: string)
    ensures |t| <= |s| && t == s[..|t|] && '\0' !in t
    ensures |t| < |s| ==> s[|t|] == '\0'
  {
    if s == [] || s[0] == '\0' then [] else [s[0]] + CStr(s[1..])
  }

  lemma {:induction false} CStrOf(s: seq<char>, t: string)
    requires |t| <= |s| && t == s[..|t|] && '\0' !in t
    requires |t| < |s| ==> s[|t|] == '\0'
    ensures CStr(s) == t
  {
    if |t| > 0 {
      assert s[0] == t[0] && t[0] in t;
      assert t[1..] == s[1..][..|t| - 1];
      CStrOf(s[1..], t[1..]);
    }
  }

  lemma HoldsCStr(a: seq<char>, s: string)
    ensures Holds(a, s) <==> CStr(a) == s && |s| < |a|
  {
    if Holds(a, s) {
      CStrOf(a, s);
    }
  }

  lemma HeldText(a: seq<char>, s: string)
    requires Holds(a, s)
    ensures |s| < |a| && a[..|s|] == s && '\0' !in s
  {
  }

  /** Comparing a buffer with a word compares the text it holds. */
  lemma SamePrefix(a: seq<char>, text: string, word: string)
    requires Holds(a, text) && |word| <= |a| && '\0' !in word
    ensures a[..|word|] == word <==> word <= text
  {
    if |word| <= |text| {
      assert a[..|text|][..|word|] == a[..|word|];
    } else {
      assert a[..|word|][|text|] == '\0' && word[|text|] in word;
    }
  }

  /** strlen. */
  method StrLen(a: array<char>, ghost s: string) returns (n: nat)
    requires Holds(a[..], s)
    ensures n == |s|
  {
    assert forall k :: 0 <= k < |s| ==> a[k] == a[..][..|s|][k] == s[k] && s[k] in s;
    n := 0;
    while a[n] != '\0'
      invariant n <= |s|
      decreases |s| - n
    {
      n := n + 1;
    }
  }

  /** memmove between two places of one buffer; the ranges may overlap. */
  method Memmove(a: array<char>, dst: nat, src: nat, n: nat)
    requires dst + n <= a.Length && src + n <= a.Length
    modifies a
    ensures a[..] == old(a[..dst]) + old(a[src..src + n]) + old(a[dst + n..])
    ensures old(a[src..src + n]) <= a[dst..]
  {
    forall i | 0 <= i < n {
      a[dst + i] := a[src + i];
    }
  }

  /** memmove from other storage. */
  method CopyIn(a: array<char>, dst: nat, s: seq<char>)
    requires dst + |s| <= a.Length
    modifies a
    ensures a[..] == old(a[..dst]) + s + old(a[dst + |s|..])
  {
    forall i | 0 <= i < |s| {
      a[dst + i] := s[i];
    }
  }

  /** Copies a text behind the first characters of a buffer. */
  method CopyBehind(a: array<char>, at: nat, s: seq<char>)
    requires at + |s| <= a.Length
    modifies a
    ensures a[..at + |s|] == old(a[..at]) + s
    ensures a[at + |s|..] == old(a[at + |s|..])
  {
    ghost var tail := a[at + |s|..];
    CopyIn(a, at, s);
    assert a[at + |s|..] == tail;
  }

  /** Ends the text that was written. */
  method Terminate(a: array<char>, ghost s: string, at: nat)
    requires at < a.Length && a[..at] == s && '\0' !in s
    modifies a
    ensures Holds(a[..], s)
  {
    a[at] := '\0';
    assert a[..at] == s;
  }

  /** A page in front of a held text and its terminator. */
  lemma HoldsInFront(before: seq<char>, after: seq<char>, page: string, text: string)
    requires Holds(before, text) && |page| + |text| < |after| && '\0' !in page
    requires after[..|page|] == page && before[..|text| + 1] <= after[|page|..]
    ensures Holds(after, page + text)
  {
    var n, m := |page|, |text|;
    assert before[..m + 1] == text + ['\0'];
    assert after[n..][..m + 1] == text + ['\0'];
    assert after == page + after[n..];
  }
}
