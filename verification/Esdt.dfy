/** Finding the transferred value in the text of an ESDT transfer. */
module Esdt {
  import opened Wrappers
  import opened Base64
  import opened TxState

  const ESDT_TRANSFER_PREFIX: string := "ESDTTransfer@"
  const SC_ARGS_SEPARATOR: char := '@'
  const BASE_64_INVALID_CHAR: char := '?'
  const ESDT_CODE_VALUE_TOO_HIGH: char := '1'
  const ESDT_CODE_VALUE_OK: char := '2'

  predicate IsTransfer(text: string) {
    ESDT_TRANSFER_PREFIX <= text
  }

  /** First position from a given one that holds one of two characters, or the
      length of the text. */
  function Find(text: string, from: nat, c: char, d: char): (i: nat)
    requires from <= |text|
    ensures from <= i <= |text| && forall k :: from <= k < i ==> text[k] != c && text[k] != d
    ensures i < |text| ==> text[i] == c || text[i] == d
    decreases |text| - from
  {
    if from == |text| || text[from] == c || text[from] == d then from else Find(text, from + 1, c, d)
  }

  /** The value that starts at a given position, with its code in front. A value
      that runs to the end of the text is counted with the terminator. */
  function ValueText(text: string, start: nat): (v: string)
    requires start <= |text|
    ensures |v| <= MAX_ESDT_VALUE_HEX_COUNT + 1
  {
    var end := Find(text, start, SC_ARGS_SEPARATOR, BASE_64_INVALID_CHAR);
    var count := if end == |text| then end - start + 1 else end - start;
    if count > MAX_ESDT_VALUE_HEX_COUNT then [ESDT_CODE_VALUE_TOO_HIGH]
    else [ESDT_CODE_VALUE_OK] + text[start..end]
  }

  /** The value after the token identifier, if there is one. */
  function ExtractFrom(text: string, was: string): string {
    if |text| < |ESDT_TRANSFER_PREFIX| then was else
      var at := Find(text, |ESDT_TRANSFER_PREFIX|, SC_ARGS_SEPARATOR, SC_ARGS_SEPARATOR);
      if at == |text| then was else ValueText(text, at + 1)
  }

  /** The stored value after extraction from n characters, starting with the value
      buffer. Decoding stops at the buffer's last byte, if not before. */
  ghost function EsdtValue(value: valueBuffer, n: nat, was: string): string
  {
    if n > MAX_VALUE_LEN then was
    else match DecodeText(value[..n])
      case Some(text) => ExtractFrom(text, was)
      case None => was
  }

  /** Whatever lies behind the value buffer, nothing decodes that reaches there. */
  lemma PastTerminator(value: valueBuffer, behind: seq<char>, n: nat)
    requires MAX_VALUE_LEN < n <= |value + behind| && n % 4 == 0
    ensures DecodeText((value + behind)[..n]) == None
  {
    hide IsBase64Char;
    Terminator();
    assert (value + behind)[..n][..n / 4 * 4][MAX_VALUE_LEN] == value[MAX_VALUE_LEN];
  }

  lemma Terminator()
    ensures !IsBase64Char('\0')
  {
  }
}
