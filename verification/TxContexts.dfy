/** The parser's two contexts as mutable records. */
module TxContexts {
  import opened Words
  import opened CStrings
  import opened TxState

  const MAX_ESDT_TEXT: nat := MAX_ESDT_VALUE_HEX_COUNT + 1

  class HashContext {
    var status: Status
    var field: fieldBuffer
    var fieldLen: fieldLength
    var value: valueBuffer
    var valueLen: uint32
    var dataFieldSize: uint32

    constructor ()
      ensures status == Idle && Valid()
    {
      status, fieldLen, valueLen, dataFieldSize := Idle, 0, 0, 0;
      field := seq(MAX_FIELD_LEN + 1, _ => '\0');
      value := seq(MAX_VALUE_LEN + 1, _ => '\0');
    }

    function View(): Hash
      reads this
    {
      Hash(status, field, fieldLen, value, valueLen, dataFieldSize)
    }

    /** A value starts empty. */
    ghost predicate Valid()
      reads this
    {
      status == ExpectingValue ==> valueLen == 0
    }
  }

  class TxContext {
    const cfg: Config
    var receiver: string
    const amount: array<char>
    var gasLimit: uint64
    var gasPrice: uint64
    const fee: array<char>
    const data: array<char>
    var dataSize: uint32
    var chainId: string
    var esdtValue: string
    var network: string
    var guardian: string
    var relayer: string

    constructor (cfg: Config)
      ensures this.cfg == cfg && Sized()
      ensures fresh(amount) && fresh(fee) && fresh(data)
    {
      this.cfg := cfg;
      amount := new char[AMOUNT_SIZE];
      fee := new char[AMOUNT_SIZE];
      data := new char[cfg.MaxDisplay() + DATA_SIZE_LEN];
    }

    /** The edited buffers are separate and have their declared sizes. */
    ghost predicate Sized() {
      && amount != fee && amount != data && fee != data
      && amount.Length == fee.Length == AMOUNT_SIZE
      && data.Length == cfg.MaxDisplay() + DATA_SIZE_LEN
    }

    /** Every text fits the buffer declared for it, with its terminator. */
    ghost predicate Valid()
      reads this, amount, fee, data
    {
      && Sized()
      && |CStr(amount[..])| < AMOUNT_SIZE
      && |CStr(fee[..])| < AMOUNT_SIZE
      && |CStr(data[..])| < data.Length
      && |receiver| < FULL_ADDRESS_LENGTH
      && |guardian| < FULL_ADDRESS_LENGTH
      && |relayer| < FULL_ADDRESS_LENGTH
      && |chainId| < MAX_CHAINID_LEN
      && |esdtValue| <= MAX_ESDT_TEXT
      && |network| < 8
    }

    ghost function View(): Tx
      reads this, amount, fee, data
    {
      Tx(receiver, CStr(amount[..]), gasLimit, gasPrice, CStr(fee[..]), CStr(data[..]), dataSize,
         chainId, esdtValue, network, guardian, relayer)
    }
  }

  /** init_tx_context, except for the hash and the session state. */
  method InitTxContext(h: HashContext, t: TxContext)
    requires t.Sized()
    modifies h, t, t.amount, t.fee, t.data
    ensures h.Valid() && h.View() == old(h.View()).(status := Idle)
    ensures t.Valid() && t.View() == EMPTY
  {
    t.amount[0] := '\0';
    t.data[0] := '\0';
    t.dataSize := 0;
    t.fee[0] := '\0';
    t.gasLimit, t.gasPrice := 0, 0;
    t.receiver, t.chainId, t.esdtValue, t.network, t.guardian, t.relayer := "", "", "", "", "", "";
    h.status := Idle;
  }
}
