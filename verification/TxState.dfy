/** What the transaction parser keeps between APDU chunks, as values. */
module TxState {
  import opened Words

  const MSG_OK: nat := 0x9000
  const ERR_INVALID_MESSAGE: nat := 0x6E02
  const ERR_RECEIVER_TOO_LONG: nat := 0x6E05
  const ERR_AMOUNT_TOO_LONG: nat := 0x6E06
  const ERR_CONTRACT_DATA_DISABLED: nat := 0x6E07
  const ERR_WRONG_TX_VERSION: nat := 0x6E09
  const ERR_INVALID_AMOUNT: nat := 0x6E0B
  const ERR_INVALID_FEE: nat := 0x6E0C
  const ERR_PRETTY_FAILED: nat := 0x6E0D
  const ERR_WRONG_TX_OPTIONS: nat := 0x6E0F
  const ERR_INVALID_ESDT: nat := 0x6E14

  /** Not a code of the firmware: the model stops here because the firmware
      would copy past the end of a buffer. */
  const OVERRUN: nat := 0

  const MAX_FIELD_LEN: nat := 16
  const MAX_VALUE_LEN: nat := 128
  const FULL_ADDRESS_LENGTH: nat := 65
  const AMOUNT_SIZE: nat := 44
  const MAX_CHAINID_LEN: nat := 4
  const DECIMAL_PLACES: nat := 18
  const DATA_SIZE_LEN: nat := 17
  const MAX_ESDT_VALUE_HEX_COUNT: nat := 32

  /** Build and user settings: whether the screen is the small one, and whether
      transactions with data are enabled. */
  datatype Config = Config(smallScreen: bool, contractData: bool) {
    function MaxDisplay(): (n: nat)
      ensures n % 4 == 0 && 64 <= n <= MAX_VALUE_LEN
    {
      if smallScreen then 64 else 128
    }
  }

  datatype Status =
    | Idle | ExpectingField | ProcessingField | ExpectingColon
    | ExpectingValue | ProcessingString | ProcessingNumber | ExpectingComma

  type fieldLength = n: nat | n <= MAX_FIELD_LEN

  type fieldBuffer = s: seq<char> | |s| == MAX_FIELD_LEN + 1
    witness seq(MAX_FIELD_LEN + 1, _ => '\0')

  /** The last byte is never written, so a value is always terminated. */
  type valueBuffer = s: seq<char> | |s| == MAX_VALUE_LEN + 1 && s[MAX_VALUE_LEN] == '\0'
    witness seq(MAX_VALUE_LEN + 1, _ => '\0')

  /** The field being read. The field buffer is not terminated and keeps the end
      of longer earlier names. */
  datatype Hash = Hash(
    status: Status,
    field: fieldBuffer,
    fieldLen: fieldLength,
    value: valueBuffer,
    valueLen: uint32,
    dataFieldSize: uint32)

  /** What will be shown; buffers are given by the C strings they hold. */
  datatype Tx = Tx(
    receiver: string,
    amount: string,
    gasLimit: uint64,
    gasPrice: uint64,
    fee: string,
    data: string,
    dataSize: uint32,
    chainId: string,
    esdtValue: string,
    network: string,
    guardian: string,
    relayer: string)

  datatype State = State(hash: Hash, tx: Tx)

  const EMPTY: Tx := Tx("", "", 0, 0, "", "", 0, "", "", "", "", "")
}
