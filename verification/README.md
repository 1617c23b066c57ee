# MultiversX Ledger application: verified model

This project models the computing cores of the MultiversX (Elrond) application for Ledger
devices and of its Go test client, and proves what they compute, what every run of them keeps,
and where they do not do what they promise. Only the Dafny verifier is needed:
`dafny verify dfyconfig.toml`.

The parts, with the main results:

- **Wide integers** (`Words`, `Limbs`, `SchoolBook`, `Division`, `Uint128`, `Uint256`): two-limb
  and nested 256-bit numbers as objects whose fields are written in place, so operands may be the
  same objects as results. Shift-and-subtract division ends with the Euclidean quotient and
  remainder. The 256-bit product is exact if and only if one column of the multiplication does not
  carry; the carry that is misplaced is stated exactly, with an input.
- **Numbers as text** (`Numerals`, `Uint128Text`, `DecimalText`, `Fee`): printing succeeds exactly
  when the unique digit string fits; parsing hexadecimal and decimal, with the exact condition
  under which an overflow is noticed; the fee formula.
- **Bech32** (`BitXor`, `Bech32Checksum`, `Bech32Words`, `Bech32`, `Bech32Codec`, `Regroup`,
  `Segwit`, `Address`, `Bech32Vectors`):
  BIP-173. Encoder and decoder loops undo each other in both directions, the checksum step is
  linear and injective, no error burst within six symbols goes unnoticed, and distinct public keys
  have distinct addresses. What the checksum covers is stated position by position; test vectors of
  BIP-173 and the address of the zero key are written out.
- **Amounts** (`CStrings`, `AmountFormat`): the decimal point is put in place in the buffer; the
  text shown has the value of the amount and is the shortest such text. When the edit is refused
  and when it would leave its buffers is stated exactly.
- **Transaction parser** (`TxState`, `TxFields`, `TxMachine`, `TxContexts`, `TxParser`, `Esdt`):
  the byte-at-a-time JSON machine. `TxMachine` and `TxFields` say what each byte does to values;
  `TxParser` has the procedures on the mutable contexts, proved equal to that.
- **Printed transactions** (`TxJson`, `TxNames`, `TxChunks`, `TxLookBack`, `TxCanonical`, `TxText`):
  any list of printable fields is parsed as what the fields mean, and one with an unknown name is
  refused. A client's transaction, printed with the escapes of Go's `encoding/json` and cut into
  chunks anywhere, is held and shown as what was printed if and only if the parser sees the padding
  of its data at the closing quote; every cut that leaves two bytes before that quote in its chunk
  shows it.
- **Token amounts** (`TxEsdt`): for every value, number of decimals and ticker the device accepts,
  whether the amount is shown, refused, or written past a buffer, with inputs for each case. For
  data of any length, when the value that is shown is that of the transfer, as an equivalence.
- **Sessions** (`Session`, `SessionSafety`, `SessionMessages`, `SessionRuns`,
  `SessionInterleaving`, `SessionFailure`, `SessionHandlers`):
  the three signing handlers share one state and one hash. In every interleaving a transaction
  signature covers exactly the chunks sent since the first one, and the screen shows what was
  parsed from those same chunks, if and only if no token amount failed in between; what was sent
  decides that, and a concrete run in which it fails is given. Conversely a client's transaction
  sent without interruption is signed, after any run. Messages and tokens are signed as declared
  while nothing of the other kind touches their hash; in every run, what is signed goes on from
  the session that was opened last. An origin on the screen belongs to the token that is signed
  unless its first chunk was rejected; runs with a rejected chunk and a refused origin are given.
- **Text** (`Base64`, `TokenScanner`, `TokenDisplay`, `Lifetime`) and **HID framing** (`HidFraming`):
  decoding with restored padding, the dot-separated token scanner, what is shown before a token is
  signed, the lifetimes that are shown in full, and packets read back with any buffer sizes.

Conventions. A C string is the text before the first NUL (`CStrings.CStr`, `CStrings.Holds`).
Bytes of text are Dafny characters. Unsigned integers are bounded subset types with every
wrap-around written out. `THROW` is a returned code. The exclusive or of the checksum is defined
on naturals in `BitXor`. The hash is what it has absorbed; signing is a success flag.

An outcome named overrun is not one of the firmware: it marks exactly the inputs on which the
firmware would copy past a buffer of the declared size (`TxState.OVERRUN`,
`AmountFormat.Result.Overrun`, `TokenDisplay.Display.Overrun`, the results of
`TokenDisplay.TruncateIfNeeded`, `Address.EncodeFromBytes` and `Address.GetAddressBech32`). A
session that reaches one ends in the state `Session.AppState.Halted`, of which nothing more is
said. The inputs are stated by `TxFields.OverrunExactly`, `AmountFormat.ResultExact`,
`TxEsdt.EsdtAmountExact` and `TokenDisplay.OriginShown`. A lifetime whose number leaves a signed
32-bit integer, which C does not define, is treated in the same way (`Lifetime.Reading.Overflow`,
`TokenDisplay.Display.TooLong`; for digits the condition is that of `Lifetime.ReadExact`).

Where the code and its documentation differ the model follows the code:

- `src/parse_tx.c:67` announces that integer overflow is detected; the test misses some overflows
  (`Fee.ReadDecimalMissesOverflow`). A decimal is accepted if and only if none of its prefixes is
  smaller than a shorter one modulo 2^64 (`Fee.ReadDecimalAccepts`), and the first digit past 2^64
  is noticed if and only if the reduced value is below a tenth of the true one
  (`Fee.OverflowNoticed`).
- `src/parse_tx.c:262` takes the length of the encoded data as one byte. Only as many characters as
  the length modulo 256 are searched for the value of a transfer, and none when that exceeds 128,
  because decoding then stops at the terminator behind the value. A value that the search cuts is
  shown cut: a transfer of 02069ce90158590000 units in 240 bytes of data is signed with the amount
  02069ce90158 on the screen (`SessionFailure.CutTransferSigned`, `TxEsdt.TransferFound`).
- `src/parse_tx.c:130` notes that printing writes one byte more than its length argument;
  `Uint128Text.ToString` asks for that byte.
- `mul256` does not always return the low 256 bits of the product (`Uint256.Mul256ExactIff`).
- The comment at `src/sign_msg_auth_token.c:290-298` lets a token come in several chunks; only the
  first chunk reaches the scanner (`Session.StepToken`), so origin and lifetime are those of its
  prefix. That first chunk is scanned before it is checked against the declared length, so a
  first chunk that is rejected still decides what is shown (`SessionMessages.TokenSigned`,
  `SessionInterleaving.RejectedTokenRun`, `SessionInterleaving.RejectedOriginShown`).
- `src/sign_msg_auth_token.c:423-425` refuses an origin after the digest was taken and leaves the
  session open: the same token is refused again with a signature of nothing
  (`SessionMessages.TokenSigned`), and an unfinished message then goes on and is put up for approval
  with such a signature (`SessionInterleaving.RefusedTokenRun`).
- `src/utils.c:147-150` gives "20min 34 sec." for 1234 seconds and "3h 25min 45 sec." for 12345, and
  promises "more than one day" above 24 hours. `append_time` stops at ten characters: "20min 34" and
  "3h 25min " are shown, and hours up to 25 (`Lifetime.DocumentedTimes`, `Lifetime.TimeShown`,
  `Lifetime.LongTimes`).
- `src/utils.c:281` declares 37 bytes for the origin on the screen and lines 332-335 allow 37
  characters beside the terminator: origins of 37 or more characters fill that buffer and their
  terminator is written behind it (`TokenDisplay.PrintableOriginShown`, `TokenDisplay.LongOrigin`).
- `src/sign_msg_auth_token.c:16` declares 62 bytes for an address of 62 characters and its
  terminator (`Address.GetAddressBech32`). The byte behind it lies in the padding before `len`,
  so the session goes on; its address is a parameter of the step.
- `src/parse_tx.c:22-53` checks the amount against the buffer before the decimals and the ticker
  are added. Tokens with many decimals or a long ticker are refused or written past `amount[44]`
  or `suffix[12]` (`AmountFormat.ResultExact`, `TxEsdt.TenUnits`).
- `src/sign_tx_hash.c:410-416` leaves the session open with its digest taken when a token amount
  is refused; what is signed after that covers no chunks (`SessionSafety.TransactionSigned`,
  `SessionSafety.UsedUp`, `SessionFailure.LargeTransferFails`).
- `src/parse_tx.c:514-524` starts a field name without clearing the buffer, and names are compared
  over the length of the known one only. A name that is cut short counts as the longer one that was
  there before: behind "value", a field named "v" is another amount (`TxNames.ShorterName`). A name
  that goes on counts as well, except for the receiver (`TxNames.AmountStored`).
- An ESDT value of 32 digits is accepted or refused depending on whether anything follows it
  (`TxEsdt.ValueExtracted`).

## Model

| member | source | states |
|---|---|---|
| Uint128.Zero | deps/uint256/uint256.c:44-46 | true exactly for the number zero |
| Uint128.Equal | deps/uint256/uint256.c:202-204 | true exactly when the values are equal |
| Uint128.Gt | deps/uint256/uint256.c:211-216 | true exactly when the first number is greater |
| Uint128.Gte | deps/uint256/uint256.c:225-227 | true exactly when the first number is not smaller |
| Uint128.Copy | deps/uint256/uint256.c:52-55 | the target takes the value, the source keeps it unless they are the same |
| Uint128.Clear | deps/uint256/uint256.c:62-65 | the value becomes zero |
| Uint128.Add | deps/uint256/uint256.c:233-237 | the sum modulo 2^128, also when the target is an operand |
| Uint128.Minus | deps/uint256/uint256.c:252-256 | the difference modulo 2^128, also when the target is an operand |
| Uint128.Or | deps/uint256/uint256.c:271-274 | the bitwise or of the two values |
| Uint128.ShiftL | deps/uint256/uint256.c:72-89 | multiplication by 2^value modulo 2^128 for every shift count |
| Uint128.ShiftR | deps/uint256/uint256.c:116-135 | division by 2^value, except in place for a shift of exactly 64 |
| Uint128.Bits | deps/uint256/uint256.c:162-179 | the number of significant bits |
| Uint128.Mul | deps/uint256/uint256.c:281-324 | the product modulo 2^128 for all operands; no column sum leaves 64 bits |
| Uint128.DivMod | deps/uint256/uint256.c:420-449 | for every dividend and nonzero divisor: the Euclidean quotient and remainder, whichever operands the results alias |
| Uint128.DivideLoop | deps/uint256/uint256.c:438-445 | from the aligned divisor the loop ends with quotient and remainder |
| Division.Align | deps/uint256/uint256.c:425-437 | aligning the highest bits brings the shifted divisor within a factor of two of the dividend |
| Division.Take | deps/uint256/uint256.c:438-445 | subtracting keeps dividend = quotient * divisor + rest, with the next quotient bit set |
| Division.Skip | deps/uint256/uint256.c:438-445 | not subtracting keeps the same relation, with the next quotient bit clear |
| Division.Finish | deps/uint256/uint256.c:438-448 | after the last position the relation is that of quotient and remainder |
| Uint256.Zero256 | deps/uint256/uint256.c:48-50 | true exactly for the number zero |
| Uint256.Equal256 | deps/uint256/uint256.c:206-209 | true exactly when the values are equal |
| Uint256.Gt256 | deps/uint256/uint256.c:218-223 | true exactly when the first number is greater |
| Uint256.Gte256 | deps/uint256/uint256.c:229-231 | true exactly when the first number is not smaller |
| Uint256.Copy256 | deps/uint256/uint256.c:57-60 | the target takes the value of the other number |
| Uint256.Clear256 | deps/uint256/uint256.c:67-70 | the value becomes zero |
| Uint256.Add256 | deps/uint256/uint256.c:239-250 | the sum modulo 2^256 |
| Uint256.Minus256 | deps/uint256/uint256.c:258-269 | the difference modulo 2^256 |
| Uint256.Or256 | deps/uint256/uint256.c:276-279 | the bitwise or of the two values |
| Uint256.ShiftL256 | deps/uint256/uint256.c:91-114 | multiplication by 2^value modulo 2^256 for every shift count |
| Uint256.ShiftR256 | deps/uint256/uint256.c:137-160 | division by 2^value, also in place |
| Uint256.Bits256 | deps/uint256/uint256.c:181-200 | the number of significant bits |
| Uint256.AlignDivisor | deps/uint256/uint256.c:457-469 | after the shift the divisor is aligned with the dividend, the adder with its position |
| Uint256.DivideLoop256 | deps/uint256/uint256.c:470-477 | from the aligned divisor the loop ends with quotient and remainder |
| Uint256.DivMod256 | deps/uint256/uint256.c:451-481 | for every dividend and nonzero divisor: the Euclidean quotient and remainder, whichever operands the results alias |
| Uint256.Mul256 | deps/uint256/uint256.c:326-418 | the product plus the carry of the third column times 2^192 - 2^128, modulo 2^256 |
| Uint256.Mul256ExactIff | deps/uint256/uint256.c:326-418 | the result is the product modulo 2^256 if and only if the third column does not carry |
| Uint256.Mul256Counterexample | deps/uint256/uint256.c:326-418 | the square of 2^128 - 1: the third column carries and the computed product differs from the true one |
| Uint256.MisplacedCarry | deps/uint256/uint256.c:390-417 | a misplaced carry of 1 or 2 always changes the result modulo 2^256 |
| Uint256.ThirdCarrySmall | deps/uint256/uint256.c:326-418 | the third column carries at most 2 |
| SchoolBook.Columns | deps/uint256/uint256.c:300-323 | the column sums of the word products stand for the product modulo the fourth power of the word size |
| Uint128Text.ReverseString | deps/uint256/uint256.c:483-491 | the first length characters reversed in place, the rest untouched; length 0 stands for 2^32 and exceeds any shorter text |
| Uint128Text.ToString | deps/uint256/uint256.c:493-515 | succeeds exactly when base is 2 to 16 and the number has at most outLength digits, where 0 is no limit; then the buffer holds its digit string, and at most outLength + 1 bytes are touched, or 129 without a limit |
| Numerals.OneDigit | deps/uint256/uint256.c:25 | a one-digit number is printed as its character in 0123456789abcdef |
| Numerals.DigitsUnique | deps/uint256/uint256.c:493-515 | the printed digits are the only digit string of the number without leading zeros |
| Numerals.DigitCount | deps/uint256/uint256.c:493-515 | a number has at most k digits exactly when it is below base^k |
| Numerals.EvalDigits | deps/uint256/uint256.c:493-515 | the digits of a number stand for that number |
| Uint128Text.ParseHex | src/parse_tx.c:77-96 | accepts exactly hexadecimal digits of either case and gives their value modulo 2^128 |
| Uint128Text.ParseHexExact | src/parse_tx.c:77-96 | up to 32 digits are read exactly |
| Uint128Text.PrintParseHex | src/parse_tx.c:77-96 | the base-16 text of any 128-bit number reads back as that number |
| DecimalText.UintToText | src/utils.c:41-52 | the exact decimal of every 32-bit number, at most ten digits and the terminator |
| DecimalText.HighestPlace | src/utils.c:45-47 | the search for the highest place stops at it although the product wraps at 2^32 |
| Fee.ParseInt | src/parse_tx.c:59-75 | succeeds exactly on the inputs the wrapping reader with its decrease test accepts |
| Fee.ReadDecimalExact | src/parse_tx.c:59-75 | every decimal below 2^64 is accepted with its value |
| Fee.ReadDecimalModulo | src/parse_tx.c:59-75 | whatever is accepted consists of digits and is right modulo 2^64 |
| Fee.ReadDecimalAccepts | src/parse_tx.c:59-75 | a text is accepted if and only if it consists of digits and no digit makes its value modulo 2^64 smaller |
| Fee.OverflowNoticed | src/parse_tx.c:67-70 | the first digit that leads past 2^64 is noticed if and only if the value modulo 2^64 is below a tenth of the true one |
| Fee.ReadDecimalExactIff | src/parse_tx.c:59-75 | a decimal is stored as itself if and only if it is below 2^64 |
| Fee.ReadDecimalMissesOverflow | src/parse_tx.c:67-70 | a number above 2^64 that passes the overflow test |
| Fee.GasToFee | src/parse_tx.c:98-135 | prints the charged fee; fails exactly when it has more than size - 1 digits |
| Fee.ChargedGasExact | src/parse_tx.c:108-126 | the charged gas follows the documented formula if and only if the gas limit covers the move-balance gas |
| Fee.ChargedFeeExact | src/parse_tx.c:108-129 | then no 128-bit step wraps and the fee is the documented one |
| Fee.FeeInNumbers | src/constants.h:83-85 | the same fee in numbers: gas price times 50000 units, 1500 for each byte of data, and a hundredth of the rest of the gas limit |
| BitXor.XorAssoc | deps/ledger-zxlib/src/segwit_addr.c:27-32 | exclusive or on naturals is associative |
| Bech32Checksum.StepLinear | deps/ledger-zxlib/src/segwit_addr.c:27-32 | the checksum step distributes over exclusive or |
| Bech32Checksum.StepInjective | deps/ledger-zxlib/src/segwit_addr.c:27-32 | two 30-bit states with the same successor are equal |
| Bech32Words.WordStepExact | deps/ledger-zxlib/src/segwit_addr.c:27-32 | the step on naturals is the step on 32-bit words with its five masks and generators, digit by digit |
| Bech32Checksum.ChecksumIff | deps/ledger-zxlib/src/segwit_addr.c:69-75 | six symbols close a state to 1 exactly when they are its checksum |
| Bech32Checksum.BurstDetected | deps/ledger-zxlib/src/segwit_addr.c:109-134 | symbol sequences that both close to 1 and differ only within six consecutive symbols are equal |
| Bech32Codec.Encode | deps/ledger-zxlib/src/segwit_addr.c:44-78 | succeeds exactly on encodable prefix and data and then writes their encoding |
| Bech32Codec.Decode | deps/ledger-zxlib/src/segwit_addr.c:80-135 | on success the text decodes to the prefix and data written; on failure it decodes to nothing |
| Bech32.CharSymbol | deps/ledger-zxlib/src/segwit_addr.c:34-42 | the reverse table undoes the character table |
| Bech32.EncodeThenDecode | deps/ledger-zxlib/src/segwit_addr.c:44-135 | decoding an encoding gives its prefix and data |
| Bech32.DecodeThenEncode | deps/ledger-zxlib/src/segwit_addr.c:44-135 | encoding what a text decodes to gives the lower-case form of the text |
| Bech32.DecodesIff | deps/ledger-zxlib/src/segwit_addr.c:80-135 | a text decodes to a prefix and data if and only if it is their encoding in one case |
| Bech32.DecodesOnce | deps/ledger-zxlib/src/segwit_addr.c:80-135 | a text decodes to one prefix and data only |
| Bech32.EncodingInjective | deps/ledger-zxlib/src/segwit_addr.c:44-78 | different prefixes or data have different encodings |
| Bech32.BurstErrorDetected | deps/ledger-zxlib/src/segwit_addr.c:80-135 | two accepted texts of equal length, prefix and separator that differ only within six symbols are the same up to case |
| Bech32Vectors.EncodingSymbols | deps/ledger-zxlib/src/segwit_addr.c:44-78 | the checksum of an encoding is that of the register after 2n + 1 symbols and the data, for a prefix of n characters: at each position the high bits of a character, a zero, the low bits of a character, the data |
| Bech32Vectors.DecodedSymbols | deps/ledger-zxlib/src/segwit_addr.c:109-134 | a text that decodes leaves the register at one after those symbols and the rest of the text, position by position |
| Bech32Vectors.ShortVector | deps/ledger-zxlib/src/segwit_addr.c:44-135 | the first test vector of BIP-173, "a12uel5l", is the encoding of prefix "a" and no data, and decodes in either case |
| Bech32Vectors.AllSymbolsVector | deps/ledger-zxlib/src/segwit_addr.c:44-78 | the test vector of BIP-173 whose data are all 32 symbols in order |
| Bech32Vectors.EncodableExactly | deps/ledger-zxlib/src/segwit_addr.c:44-63 | encodable are exactly prefixes without capitals of characters 33 to 126 and symbols below 32, together at most 83 |
| Regroup.ConvertBits | deps/ledger-zxlib/src/segwit_addr.c:137-163 | the output regroups the input's bits, for any length, although the accumulator wraps at 32 bits |
| Regroup.RegroupRoundTrip | deps/ledger-zxlib/src/segwit_addr.c:137-163 | bytes to symbols with padding and back without succeeds and is the identity |
| Regroup.PaddedUnique | deps/ledger-zxlib/src/segwit_addr.c:155-158 | padded regrouping has one result |
| Regroup.UnpaddedUnique | deps/ledger-zxlib/src/segwit_addr.c:159-162 | unpadded regrouping has one result and one verdict |
| Regroup.PaddedValue | deps/ledger-zxlib/src/segwit_addr.c:137-163 | symbols regroup bytes with padding exactly when they are the base-32 digits of the base-256 number of the bytes, shifted by the padding |
| Regroup.ZeroByteShortcut | src/address_helpers.c:56-62 | 32 bytes and a zero byte without padding give the same 52 symbols as 32 bytes with padding |
| Segwit.SegwitEncode | deps/ledger-zxlib/src/segwit_addr.c:165-179 | succeeds exactly when version, program and prefix have an address, and writes it; a negative version passes and goes in as its low byte |
| Segwit.SegwitDecode | deps/ledger-zxlib/src/segwit_addr.c:181-199 | succeeds exactly when the text is readable as a legal version and program under the prefix |
| Segwit.SegwitRoundTrip | deps/ledger-zxlib/src/segwit_addr.c:165-199 | an address reads back as its program and the low byte of its version and as nothing else; exactly the legal versions read back as they were |
| Segwit.SegwitAccepted | deps/ledger-zxlib/src/segwit_addr.c:181-199 | the decoder's checks accept an address exactly when the low byte of its version is legal, as it is for every legal version |
| Bech32Vectors.SegwitVector | deps/ledger-zxlib/src/segwit_addr.c:165-199 | the address of BIP-173 for version 16 and the program 751e, "bc1sw50qa3jx3s", written and read |
| Address.EncodeFromBytes | deps/ledger-zxlib/src/bech32.c:23-34 | the buffer holds the encoding of the regrouped bytes when there is one; the temporary symbols are exceeded exactly by 81 to 128 bytes, and more are ignored |
| Address.GetAddressBech32 | src/address_helpers.c:56-62 | the 33-byte buffer gives the address of the 32-byte key, 62 characters and a terminator; a buffer of 62 bytes or less is exceeded |
| Address.AddressDecodes | src/address_helpers.c:56-62 | an address decodes to the account prefix and to the key |
| Address.AddressAccepted | src/address_helpers.c:56-62 | the decoder accepts every address |
| Address.AddressInjective | src/address_helpers.c:56-62 | keys are equal if and only if their addresses are |
| Bech32Vectors.ZeroKeyAddress | src/address_helpers.c:56-62 | the address of the key of 32 zero bytes, all 62 characters |
| Base64.Base64Decode | src/base64.h:44-67 | succeeds exactly when every character of the complete groups is valid, and writes their bytes with unprintable ones as question marks; a source with an invalid character is read no further than that |
| Base64.ReadQuad | src/base64.h:46-54 | four valid characters give their 24-bit value, most significant first |
| Base64.MakePrintable | src/base64.h:59-65 | the bytes with those outside 32 to 126 replaced, and a terminator |
| Base64.DecodeEncode | src/base64.h:44-67 | an RFC 4648 section 4 encoding with its padding put back decodes to the bytes, then zeros for the padding |
| Base64.Alphabet | src/base64.h:24-41 | the 64 characters of RFC 4648 stand for their positions in its table |
| Base64.OnlyAlphabet | src/base64.h:18-21 | no other character but the padding is decoded |
| Base64.Vectors | src/base64.h:44-67 | the test vectors of RFC 4648 for whole and broken groups |
| Base64.ShownEdges | src/base64.h:59-65 | the bytes at the edges of the printable range |
| Esdt.PastTerminator | src/base64.h:44-53 | whatever lies behind the value buffer, nothing decodes that reaches past its terminator |
| AmountFormat.MakeAmountPretty | src/parse_tx.c:22-53 | for any text, decimals and ticker: refused and unchanged, past the end of a buffer, or done with the edited text |
| AmountFormat.ResultExact | src/parse_tx.c:22-53 | on digits: refused exactly for more than size - 2 decimals, and past a buffer exactly for size - 2 decimals or when the ticker or what is shown is too wide |
| AmountFormat.EditedDigits | src/parse_tx.c:22-53 | on digits the buffer edits give integer part, point, trimmed fraction and ticker |
| AmountFormat.PrettyPreservesValue | src/parse_tx.c:22-53 | what is shown is exactly amount / 10^decimals, without trailing fractional zeros or dangling point |
| AmountFormat.PrettyShortest | src/parse_tx.c:22-53 | no decimal of the same value and at most as many places is shorter |
| AmountFormat.PrettyText | src/parse_tx.c:22-53 | an amount of integer part, fraction and trailing zeros is shown as integer part, point and fraction if there is one, a space and the ticker |
| AmountFormat.PrettySmall | src/parse_tx.c:28-37 | an amount below one unit is shown like the one with zeros in front |
| AmountFormat.CoinAndAHalf | src/parse_tx.c:22-53 | 1500000000000000000 is shown as "1.5 EGLD" |
| AmountFormat.SmallAmount | tests/test_multiversx.py:339 | 5678 is shown as "0.000000000000005678 EGLD" |
| TxFields.Initials | src/parse_tx.c:423-469 | no field buffer starts with two of the handled names, although it is never terminated |
| TxFields.SizePageReads | src/parse_tx.c:149-154 | the size page is label and right-aligned size exactly below 10^8; above, digits run over the label |
| TxFields.OverrunExactly | src/parse_tx.c:307-316 | storing a field writes past a buffer if and only if it is a chain identifier of more than three characters |
| TxFields.LongChainId | src/parse_tx.c:307-316 | the chain identifier "1234" is such a field |
| TxFields.OnlyAmountTooLong | src/parse_tx.c:319-333 | a fee that was printed always fits in display form |
| TxFields.OtherNames | src/parse_tx.c:473-487 | a complete field whose buffer starts with no stored name changes nothing that is shown; it is accepted exactly when the buffer starts with nonce, sender, senderUsername or receiverUsername, and is otherwise an invalid message |
| TxMachine.ChunkIndependence | src/parse_tx.c:491-617 | two chunks of arbitrary bytes leave the code and contexts of their concatenation, if look-backs past the cut see the same padding |
| TxMachine.LookBackDecides | src/parse_tx.c:554-566 | a byte's outcome depends on the two bytes before it exactly through the padding they show at a data value's closing quote |
| TxMachine.CutBeforeQuote | src/parse_tx.c:554-566 | a cut right before that quote is harmless if and only if the header bytes show as much padding as the value |
| TxMachine.SuccessReadsAll | src/parse_tx.c:491-617 | a call that succeeds either read its whole chunk or reached the idle state |
| TxContexts.InitTxContext | src/sign_tx_hash.c:350-370 | all texts empty, all numbers zero, the parser idle, the field buffers kept |
| TxParser.VerifyValueField | src/parse_tx.c:170-184 | stores the amount, or reports why not and keeps the context; other fields change nothing |
| TxParser.ValidAmount | src/parse_tx.c:137-144 | true exactly for digits |
| TxParser.VerifyReceiverField | src/parse_tx.c:187-199 | stores the receiver, or reports that it is too long and keeps the context |
| TxParser.VerifyGasPriceField | src/parse_tx.c:202-212 | stores the gas price, or reports that it is no number and keeps the context |
| TxParser.VerifyGasLimitField | src/parse_tx.c:215-225 | stores the gas limit, or reports that it is no number and keeps the context |
| TxParser.VerifyDataField | src/parse_tx.c:228-260 | decodes, extracts a transfer's value and puts the size in front, or reports why not; after an error only the fee and data texts are open |
| TxParser.ExtractEsdtValue | src/parse_tx.c:262-304 | for every length modulo 256: stores the value argument found in the decoded text, and nothing when more than 128 characters would be decoded |
| TxParser.ComputeDataSize | src/parse_tx.c:146-167 | the buffer holds the size page and then as much text as there is data |
| TxParser.ShowFee | src/parse_tx.c:319-333 | amount and fee in display form, or which of the steps fails; after an error only the fee and data texts are open |
| TxParser.VerifyChainIdField | src/parse_tx.c:307-337 | stores the chain and the network and brings amount and fee in display form, or reports why not; after an error only the fee and data texts are open |
| TxParser.SetNetwork | src/parse_tx.c:339-358 | the network named by the first character of the chain identifier |
| TxParser.VerifyVersionField | src/parse_tx.c:361-375 | accepts versions from 2 on |
| TxParser.VerifyOptionsField | src/parse_tx.c:378-392 | accepts options from 1 on |
| TxParser.VerifyGuardianField | src/parse_tx.c:395-407 | stores the guardian, or reports that it is too long and keeps the context |
| TxParser.VerifyRelayerField | src/parse_tx.c:409-420 | stores the relayer, or reports that it is too long and keeps the context |
| TxParser.ProcessFieldAt | src/parse_tx.c:423-488 | trying every verifier in turn does what the one matching name means, for the code, the field context and, but for the fee and data texts after an error, the transaction context |
| TxParser.Byte | src/parse_tx.c:500-614 | each of the eight states handles a byte as the value machine does, with the same exception |
| TxParser.ParseChunk | src/parse_tx.c:491-617 | the loop over a chunk of at most 255 bytes ends with the code and contexts of the byte machine, with the same exception, and every text fits its buffer |
| TxJson.FieldMeaning | src/parse_tx.c:423-488 | storing a field that was read completely does what its text means, independent of stale buffer contents |
| TxJson.ItemRun | src/parse_tx.c:496-616 | a printed field with its separator is parsed as what the field means |
| TxJson.JsonParsed | src/parse_tx.c:491-617 | a printed list of fields is accepted exactly when every field is and then holds what they mean; otherwise the code is the first rejected field's |
| TxNames.OtherField | src/parse_tx.c:473-487 | the same for a printed field with any value behind any fields: the parser goes on exactly for those names and otherwise answers 0x6E02 |
| TxNames.UnknownRefused | src/parse_tx.c:483-487 | after accepted fields, a field whose name is no beginning and no continuation of a known one makes the text an invalid message, whatever follows, and shows nothing of it |
| TxNames.FooUnknown | src/parse_tx.c:473-487 | a field named foo is one |
| TxNames.LongNameRefused | src/parse_tx.c:516-525 | a name of more than 16 characters is refused, whatever it starts with |
| TxNames.LongValueRefused | src/parse_tx.c:576-583 | a quoted value of more than 128 characters is refused under every name but data |
| TxNames.AmountStored | src/parse_tx.c:169-184 | digits under a name that starts with "value", or that the buffer completes to it, are stored as the amount |
| TxNames.ShorterName | src/parse_tx.c:514-524 | behind an amount, a field named with any beginning of "value" replaces the amount |
| TxNames.TextFields | src/parse_tx.c:169-199 | where value, receiver, guardian and relayer are stored, from which length they are refused, and the codes |
| TxNames.GasFields | src/parse_tx.c:201-225 | gasPrice and gasLimit are stored as the number read, or refused with 0x6E0C |
| TxNames.VersionFields | src/parse_tx.c:360-392 | versions from 2 and options from 1 are accepted; the codes of the others |
| TxNames.ChainField | src/parse_tx.c:306-358 | the first character of chainID decides coin and network; the fee and the amount may have 31 digits; the codes |
| TxNames.DataField | src/parse_tx.c:228-252 | data is refused with 0x6E07 when disabled and with 0x6E02 when nothing is decoded |
| TxChunks.JsonLookBack | src/parse_tx.c:560-565 | in a printed transaction, accepted or not, the parser looks back only at closing quotes of data values |
| TxChunks.SplitParsed | src/parse_tx.c:491-617 | any split in which those quotes see the padding of their values is accepted exactly when the fields are, and then holds what they mean |
| TxChunks.SplitWaits | src/parse_tx.c:491-617 | before the last chunk of such a split of acceptable fields the parser is never idle |
| TxChunks.AvoidingCuts | src/parse_tx.c:560-565 | a split that cuts no data value within two bytes before its closing quote is such a split, whatever the headers are |
| TxLookBack.SeenDecides | src/parse_tx.c:491-617 | a text with one look-back, in any split: the outcome depends on the chunks only through the two bytes seen there |
| TxLookBack.SizeSeen | src/parse_tx.c:550-567 | in every split of a printed transaction with data, if it is accepted, the recorded size is what the two bytes seen at the closing quote say |
| TxCanonical.EncodedSize | src/parse_tx.c:550-567 | the size computed from a padded encoding is the length of what it encodes |
| TxCanonical.MarshalPlain | testApp/cmd/common/testscommon.go:91-105 | a text is printed as it is exactly when no character is a control character, a quote, a backslash, <, > or & |
| TxCanonical.DataStored | src/parse_tx.c:228-260 | storing an encoding of any length records its decoded size, shows it whole or shortened by an ellipsis, and searches the window of its first characters for the value of a transfer |
| TxCanonical.ItemsStored | src/parse_tx.c:423-488 | the fields of every transaction that fits are accepted and give receiver, gas, chain, true data size, and amount and fee in display form |
| TxCanonical.TransactionParsed | testApp/cmd/common/testscommon.go:91-105 | every transaction that fits, printed in the client's order with its escapes and Base64 usernames and cut into any chunks, is accepted and held as what was printed if and only if the padding of its data is seen at the closing quote |
| TxCanonical.CoinShown | src/parse_tx.c:306-358 | an accepted transaction shows amount and fee in EGLD and the network Mainnet if its chain identifier starts with 1, otherwise in xEGLD with Testnet exactly for T, Devnet exactly for D and Unknown for the rest |
| TxText.ClientText | testApp/cmd/common/testscommon.go:91-105 | the text a client sends: the fields in order with their names written out, the optional ones only when they are not zero or empty |
| TxText.Escapes | testApp/cmd/common/testscommon.go:91-105 | the escapes of encoding/json, written out |
| TxText.MarshalConcat | testApp/cmd/common/testscommon.go:91-105 | texts are escaped character by character |
| TxText.ScreenData | src/parse_tx.c:236-252 | the larger screen shows up to 96 bytes of data or 93 and an ellipsis, the smaller one 48 or 45, with the size in front |
| TxText.Fits | src/parse_tx.h:8-26 | the transactions the theorems are about, by the sizes of the device's buffers |
| TxCanonical.PaddingSame | src/parse_tx.c:560-565 | that quote is the only place where the padding of a client's transaction is looked at |
| TxCanonical.CutLosesPadding | src/parse_tx.c:560-565 | a data value whose size is wrong when its closing quote starts a chunk, unless the header bytes are equals signs |
| TxEsdt.ParseEsdtData | src/parse_tx.c:620-658 | the code and the amount left for every stored value and every token the device accepts |
| TxEsdt.EsdtAmountExact | src/parse_tx.c:620-658 | the amount of a known token is refused, written past a buffer, or shown, each if and only if a condition on the number, the decimals and the ticker holds |
| TxEsdt.TenCode | src/parse_tx.c:22-53 | the outcome for ten units of a token with any decimals and ticker |
| TxEsdt.TenUnits | src/parse_tx.c:22-53 | ten units of a token that are refused, and three that are written past a buffer |
| TxEsdt.TenUnitsShown | src/parse_tx.c:22-53 | ten units of a token with one decimal are shown as one |
| TxEsdt.NoNumberShown | src/parse_tx.c:624-639 | what is shown when no value was found, it was too long, or it is no hexadecimal |
| TxEsdt.UnknownToken | src/parse_tx.c:646-648 | ten units of a token the device does not know are refused with 0x6E14 |
| TxEsdt.ValueExtracted | src/parse_tx.c:271-303 | the value between its separators is found exactly; at the end of the text it may only have 31 characters |
| TxEsdt.TransferExtracted | src/parse_tx.c:253-304 | what is extracted from the data of a transfer of any length: as much of the value as the searched window shows, nothing when the value starts behind it |
| TxEsdt.TransferFound | src/parse_tx.c:253-304 | the extracted value is that of the transfer if and only if it ends in the window and has at most 32 digits, or 31 at its end |
| TxEsdt.TransferShown | src/parse_tx.c:620-658 | a transfer is read as the number its digits in the window stand for, which is its own if and only if all of them are there or it is zero, and, unless refused or past a buffer by the conditions of `EsdtAmountExact`, shown in the token's units |
| TxEsdt.CutValue | src/parse_tx.c:77-96 | cutting digits off changes the number unless it is zero |
| TxEsdt.TransferRecognized | src/sign_tx_hash.c:60-92 | a transfer is recognised exactly when the device knows its token on its chain and the identifier is on the screen with the separator behind it |
| TokenScanner.MoveValue | src/sign_msg_auth_token.c:156-171 | moves the collected text over the destination or refuses it and clears the destination, and empties the buffer in both cases |
| TokenScanner.TokenContext.Clean | src/sign_msg_auth_token.c:134-145 | the scanner's state before any character |
| TokenScanner.TokenContext.AddChar | src/sign_msg_auth_token.c:189-204 | a character other than a dot is collected, ignored, or stops the scan |
| TokenScanner.TokenContext.AddDot | src/sign_msg_auth_token.c:205-232 | a dot closes a segment and moves it where it belongs |
| TokenScanner.TokenContext.HandleData | src/sign_msg_auth_token.c:173-234 | the buffers hold what the scan of the characters so far gives |
| TokenScanner.ScanConcat | src/sign_msg_auth_token.c:173-234 | chunks scan as their concatenation |
| TokenScanner.StoppedStays | src/sign_msg_auth_token.c:174-176 | once the stop flag is set nothing changes |
| TokenScanner.ScanFinds | src/sign_msg_auth_token.c:188-233 | for every token prefix without NUL the origin is the first segment once closed and at most 99 long, the lifetime the third once closed and at most 10 long |
| TokenScanner.OriginKept | src/sign_msg_auth_token.c:205-232 | an origin or lifetime found in the beginning of a token is the first or third segment of the whole token |
| TokenScanner.OriginAndLifetime | src/constants.h:74-75 | the same in numbers: the first segment of at most 99 characters and the third of at most ten |
| TokenScanner.TokenParts | src/sign_msg_auth_token.c:173-234 | origin and lifetime of a token of four segments |
| TokenDisplay.TruncateIfNeeded | src/utils.c:207-238 | for any destination: exceeded exactly when text and terminator do not fit, and then filled if only the terminator does not; otherwise a text that fits is copied, a longer one keeps its two ends around an ellipsis, and none is written when the ellipsis does not fit |
| TokenDisplay.BuildAuthorizingMessage | src/utils.c:240-264 | succeeds exactly when the whole message fits and then the buffer holds "Authorizing ", the origin, " for " and the lifetime |
| TokenDisplay.ComputeTokenDisplay | src/utils.c:270-346 | the outcome for every received origin and lifetime, the message shown, and what an origin that is too long leaves in its buffer |
| TokenDisplay.StripExact | src/utils.c:319-330 | stripping leaves exactly the texts that do not end in a question mark |
| TokenDisplay.OriginShown | src/utils.c:270-346 | every origin whose encoding fits is refused exactly for the reserved prefix; otherwise, with 37 or more characters left after stripping, it fills its buffer, shortened to 37, with the terminator behind; otherwise it is shown with its lifetime |
| TokenDisplay.PrintableOriginShown | src/utils.c:270-346 | a printable origin that does not end in a question mark is shown itself if and only if it has fewer than 37 characters; otherwise it, or its two ends, fill the buffer |
| TokenDisplay.LongOrigin | src/utils.c:207-238 | an origin of 37 characters whose terminator is written past its buffer |
| TokenDisplay.LocalhostShown | src/utils.c:240-264 | "bG9jYWxob3N0" with a lifetime of "300" is shown as "Authorizing localhost for 5min " |
| Lifetime.Atoi | src/utils.c:108-119 | the number of a text of digits, zero for other texts, and whether a sum leaves 32 bits first |
| Lifetime.ReadExact | src/utils.c:108-119 | digits are read exactly if and only if their number is at most 2^31 - 49, and overflow otherwise |
| Lifetime.IntToCharArray | src/utils.c:72-106 | the decimal of every number that is not negative, at most ten digits |
| Lifetime.AppendToStr | src/utils.c:121-132 | appends a text that fits with a terminator, and otherwise nothing |
| Lifetime.AppendTime | src/utils.c:134-145 | appends a number and its unit, each only if it ends within ten characters |
| Lifetime.SecondsToTime | src/utils.c:151-192 | the buffer holds the text of the lifetime |
| Lifetime.TimeShown | src/utils.c:147-192 | below 25 hours the text is the beginning of hours, minutes and seconds with their units, always with hours and minutes, and all of it if and only if there are no seconds, no minutes, or fewer than ten of each without hours |
| Lifetime.LongTimes | src/utils.c:147-192 | more than one day is shown exactly from 25 hours on |
| Lifetime.DocumentedTimes | src/utils.c:147-150 | what is shown for the documented lifetimes, one of them as for another number of seconds |
| Lifetime.FiveMinutes | src/utils.c:151-192 | "300" is shown as "5min ", no lifetime and a text that is no number as "N/A time" |
| SessionHandlers.Firmware.constructor | src/main.c:189-191 | power-up leaves no session open |
| SessionHandlers.Firmware.ResetTx | src/sign_tx_hash.c:350-370 | the transaction session is closed and its hash restarted |
| SessionHandlers.Firmware.ShowsTransfer | src/sign_tx_hash.c:60-92 | true exactly for a transfer of the known token on its chain |
| SessionHandlers.Firmware.FinishTransaction | src/sign_tx_hash.c:404-432 | signing, the token amount and the end of the session as the session step has them |
| SessionHandlers.Firmware.HashTransaction | src/sign_tx_hash.c:388-402 | a chunk is hashed and parsed, and a failed one discards the session |
| SessionHandlers.Firmware.HandleSignTx | src/sign_tx_hash.c:372-433 | the handler's new state, code and signature are those of the session step |
| SessionHandlers.Firmware.HandleSignMsg | src/sign_msg.c:135-242 | the handler's new state, code and signature are those of the session step |
| SessionHandlers.Firmware.HashMessage | src/sign_msg.c:198-234 | a chunk is rejected unchanged or hashed, and the last one is signed |
| SessionHandlers.Firmware.HashTokenChunk | src/sign_msg_auth_token.c:385-429 | a chunk is rejected unchanged or hashed; the last one is signed, and put up for approval unless its origin is refused |
| SessionHandlers.Firmware.HandleAuthToken | src/sign_msg_auth_token.c:286-437 | the handler's new state, code and signature are those of the session step |
| SessionSafety.PendingAlways | src/sign_tx_hash.c:372-402 | in every run, while a transaction is being signed the device has hashed and parsed exactly its chunks since the first one, or, if a token amount failed since, its hash is used up |
| SessionSafety.TransactionSigned | src/sign_tx_hash.c:372-433 | in every run a transaction is signed only when its parse is complete; the signature covers its chunks and what is shown was parsed from them if and only if what was sent before since the first chunk had no unshown token amount; otherwise it covers nothing |
| SessionSafety.FailedIffUnshown | src/sign_tx_hash.c:410-416 | while a session is open, a token amount failed in it if and only if the chunks and token information sent so far were a complete transaction whose amount is not shown |
| SessionSafety.UsedUp | src/sign_tx_hash.c:388-416 | a digest that was taken is not taken again: further chunks keep it so, and a signature then covers nothing |
| SessionSafety.TransactionAnswered | src/sign_tx_hash.c:372-409 | in every run, the code of each transaction command that is not signed and the state it leaves: a rejected chunk has the code of its parse and ends the session, an accepted one waits for more, a failed signature has 0x6E10; a later chunk without a session has 0x6E02 and another P1 0x6E03, both without effect |
| SessionSafety.FailingRun | src/sign_tx_hash.c:404-416 | every announced token and transfer of it whose amount is refused leave the session open with a failed amount |
| SessionFailure.LargeTransferFails | src/sign_tx_hash.c:404-416 | one such token and transfer, with 26 hexadecimal digits |
| SessionFailure.CutTransferSigned | src/parse_tx.c:262-268 | a transfer of 02069ce90158590000 units, announced and sent in any chunks that show its padding, is signed and put up for approval with the amount 02069ce90158 |
| SessionFailure.SentDigits | src/parse_tx.c:77-96 | the number the sent digits stand for |
| SessionSafety.SignedTransactionShown | src/sign_tx_hash.c:372-433 | when the chunks are a client's transaction in a split that shows its padding, the signature covers its printed form, it is put up for approval exactly when its token amount can be shown, and then the screen shows its contents |
| SessionSafety.ClientSigned | src/sign_tx_hash.c:372-433 | after any run, a client's transaction sent without interruption in any split that shows its padding is signed as such with its last chunk |
| SessionMessages.MsgPendingAlways | src/sign_msg.c:150-210 | while no token command touches the hash, accepted bytes and remaining length make up the declared length and the hash holds prefix, decimal length and accepted bytes, also after rejected chunks |
| SessionMessages.MessageSigned | src/sign_msg.c:198-242 | then, if signing succeeds, a message is signed exactly when an accepted chunk completes the declared length, over prefix, exact decimal length and all accepted bytes |
| SessionMessages.TokenPendingAlways | src/sign_msg_auth_token.c:301-398 | in every run without message commands and failed first chunks since the last start of a token session: the same invariant with the address before the token, or the whole token was hashed and its origin refused |
| SessionMessages.TokenSigned | src/sign_msg_auth_token.c:353-434 | then a signed token covers prefix, decimal length of address and token, address and all declared bytes and is put up for approval exactly when its first part is not kept back, with the message for that part on the screen; or a refused origin had used up its hash. The first part begins what is signed if and only if it was not rejected for its length, and then an origin on the screen is the first segment of what is signed and a lifetime the third |
| SessionMessages.StuckOutcome | src/sign_msg_auth_token.c:353-425 | after a refused origin only an empty chunk is accepted, and it is refused again with a signature of nothing |
| SessionMessages.TokenTouches | src/sign_msg_auth_token.c:286-398 | token commands never change what a message has left, and leave the hash as it is exactly when they neither open a session nor fit an open one |
| SessionRuns.MessageRun | src/sign_msg.c:150-234 | after any run, a message of any length below 2^32, sent in any chunks behind the four bytes of its length, the highest first, is signed with its last chunk and not before, over the prefix, the decimal length and the message, all written out |
| SessionRuns.TokenRun | src/sign_msg_auth_token.c:301-415 | the same for a token behind eight bytes of indexes: prefix, decimal length increased by 62, address and token |
| SessionRuns.ShortMessage | tests/test_multiversx.py:266-268 | what is signed for the message "abcd" |
| SessionRuns.LocalhostToken | src/sign_msg_auth_token.c:236-262 | a token of four segments and what is shown for it |
| SessionRuns.NoOriginShown | src/sign_msg_auth_token.c:236-262 | a first chunk without a dot is shown itself below 100 characters, and otherwise its first 97 and an ellipsis |
| SessionRuns.Refused | src/sign_msg.c:190-200 | message and token commands with another P1, without a session or with too many bytes: the codes, and nothing changes |
| SessionRuns.NothingDeclared | src/sign_msg_auth_token.c:301-317 | first chunks without a whole length, or for a key without an address: the codes and what is cleared |
| SessionRuns.SigningFails | src/sign_msg.c:228-232 | a last chunk that cannot be signed is answered with 0x6E10 and ends the session |
| SessionRuns.UnknownFieldRun | src/sign_tx_hash.c:388-402 | after any run, a transaction with a field of an unknown name is answered with 0x6E02, nothing is signed, and a further chunk is refused |
| SessionInterleaving.SignedGoesOn | src/sign_msg.c:135-234 | in every run, whatever is signed as a message or token starts like the session of either kind that was opened last |
| SessionInterleaving.InterleavedSessions | src/sign_msg.c:194-203 | every unfinished message that a token session follows goes on with the token's hash |
| SessionInterleaving.TakenAlways | src/sign_msg.c:194-234 | in every run that starts no session, a digest that was taken is not taken again: whatever is signed covers nothing |
| SessionInterleaving.RefusedTokenRun | src/sign_msg_auth_token.c:400-427 | every unfinished message that a whole token with a refused origin follows can be completed and is put up for approval with a signature of nothing |
| SessionInterleaving.ReservedOriginRefused | src/utils.c:311-316 | a token that starts with an origin is refused exactly for its reserved prefix |
| SessionInterleaving.RejectedTokenRun | src/sign_msg_auth_token.c:353-355 | every first chunk longer than the declared length is rejected, and the next chunk of that length is signed with what the first one holds on the screen |
| SessionInterleaving.RejectedOriginShown | src/sign_msg_auth_token.c:329-355 | so any short printable origin is shown for any bytes that are signed |
| SessionInterleaving.OriginScanned | src/sign_msg_auth_token.c:205-214 | the origin a token starts with is found |
| HidFraming.HidFramer.Write | testApp/ledger/structs.go:49-70 | what goes out are the numbered packets of length prefix and payload, until the transport fails, whose count is then returned |
| HidFraming.HidFramer.ReadInto | testApp/ledger/structs.go:73-102 | one call delivers what the reader's state says, or the first check that fails |
| HidFraming.HidFramer.Receive | testApp/ledger/structs.go:80-96 | a packet is checked for length, channel, tag and number, in this order |
| HidFraming.PacketChecked | testApp/ledger/structs.go:80-96 | which packets pass, and which error the others give, in numbers |
| HidFraming.HidFramer.ReadFull | testApp/ledger/structs.go:121-127 | for every reader: fills the destination by calls until it is full or one fails, and reports the error, the end of the packets as such only before the first byte |
| HidFraming.HidFramer.Reset | testApp/ledger/structs.go:44-46 | only the sequence number is reset |
| HidFraming.ReadNext | testApp/ledger/structs.go:73-102 | on packets in order a call delivers the next bytes of the stream, at least one if asked for any, and fails only at its end |
| HidFraming.ReadsStream | testApp/ledger/structs.go:73-102 | with any destination sizes the bytes delivered and those still to come are the stream |
| HidFraming.FillsStream | testApp/ledger/structs.go:73-102 | on packets in order, filling takes as much of the stream as there is room for and fails only at its end |
| HidFraming.BadPacket | testApp/ledger/structs.go:80-96 | when some packet fails a check, filling delivers the stream of the packets before it and fails with that error if and only if more is asked for |
| HidFraming.PacketsCarry | testApp/ledger/structs.go:54-68 | the padded packets are numbered in order and carry the bytes followed by zeros |
| HidFraming.PacketAt | testApp/ledger/structs.go:53-68 | how many packets there are, and every one byte by byte: channel 0x0101, tag 5, its number, the next 59 bytes |
| HidFraming.FramedBytes | testApp/ledger/structs.go:58-60 | what is framed is the length, the high byte first, and the payload |
| HidFraming.FramingRoundTrip | testApp/ledger/structs.go:49-102 | for every payload up to 65535 bytes and any destination sizes: length, then payload, then only padding |
| HidFraming.ReadResponse | testApp/ledger/structs.go:105-132 | for every reader: length, then as many bytes, or the error of either part |
| HidFraming.ResponseRead | testApp/ledger/structs.go:105-132 | it gives back the payload the device framed |

## Left out

- Uint128.ShiftR: in place and for a shift of exactly 64 the low limb is read after it was overwritten (deps/uint256/uint256.c:119-121); the contract gives that result, not the quotient. The division loop only shifts by one.
- Fee.ParseInt: does not promise to reject every overflow, because the code does not.
- Regroup.ConvertBits: widths of one to eight bits, which includes the two that are used; no shift count is then negative.
- Bech32Checksum.BurstDetected: bursts longer than six symbols and scattered errors are not treated.
- TxParser.ParseChunk: after an error the fee and data texts are not described, because the verifiers leave them half written and the caller discards them; everything else is. The same holds for TxParser.VerifyDataField, ShowFee, VerifyChainIdField, ProcessFieldAt and Byte.
- TxParser.VerifyReceiverField: receiver, guardian, relayer, chain, network and ESDT value are kept as the C strings their buffers hold, with the bounds of those buffers as invariants; only amount, fee and data, which are edited in place, are arrays.
- TxChunks.SplitParsed: an empty chunk is not a chunk of a split; at the start of a session the firmware rejects it.
- TxCanonical.TransactionParsed: chain identifiers are bounded to 3 printed characters, beyond which the firmware copies past a buffer; texts are taken to be valid UTF-8 without U+2028 and U+2029, whose bytes Go prints unchanged, and without quotes, whose escape the parser would read as the end of the value.
- TxEsdt.ParseEsdtData: ticker and identifier of a token are texts of at most 31 characters, the ticker read up to a NUL, as src/provide_ESDT_info.c stores them.
- Session.Handle: a rejected token announcement may leave some fields of src/provide_ESDT_info.c changed with the token still valid; as a run it is an announcement with other contents.
- Lifetime.SecondsToTime: negative numbers, which only an overflow produces, and the branch behind an output that is too long, which none is.
- SessionSafety.TransactionSigned: settings are constant over a run, and nothing is said after a copy past a buffer or an overflow.
- SessionMessages.TokenSigned: says nothing about which key signs; the key comes from the last SET_ADDR command and the address from the message. The address is a parameter of the step.
- The procedures of the C code are split into several methods where one has several steps; the tables `charset_rev` and the generator masks are written as cases.
- Cryptography: Keccak, EdDSA, ECDSA and BIP32 derivation; hash primitives succeed.
- Screens, menus, storage, USB and Bluetooth, the APDU dispatch and its error mapping in src/main.c.
- `convert_to_hex_str`, the big-endian readers, `tostring256`, `fpuint64_to_str` and the UTF-8 case tables.
- src/provide_ESDT_info.c and deps/ledger-zxlib/src/buffering.c, which would only add easy members; the token information is a parameter.
- The command line, network and prompt code of the Go client and the Python tests.
