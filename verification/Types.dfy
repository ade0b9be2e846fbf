/** The values that travel between the node, the services and the store. */
module Types {

  const TWO_63: nat := 0x8000_0000_0000_0000
  const TWO_64: nat := 0x1_0000_0000_0000_0000

  /** Go's uint64. Arithmetic on it is done on `int` and brought back with `Wrap64`. */
  type uint64 = n: nat | n < 0x1_0000_0000_0000_0000

  const MAX_UINT64: uint64 := 0xFFFF_FFFF_FFFF_FFFF

  /** A 32-byte hash by its value: two texts that differ only in the case of their digits are one hash. */
  type Hash = nat

  function Wrap64(i: int): uint64 {
    i % TWO_64
  }

  /** Go's conversion int64(n). */
  function ToInt64(n: uint64): int {
    if n < TWO_63 then n else n - TWO_64
  }

  /** The value a Go int or int64 expression has once it has overflowed. */
  function WrapInt64(i: int): int {
    ToInt64(Wrap64(i))
  }

  datatype Option<+T> = None | Some(value: T)

  datatype Result<+T> = Ok(value: T) | Err(error: Error)

  datatype Error =
    | BlockNotFound
    | TxNotFound
    | RpcFailure
    | DbFailure
    | SenderUnrecovered
    | ReceiptMismatch
    | ReorgDetected
    | ChainDiscontinuity
    | ChainDataConflict
    | InvalidBlockRange
    | BlockRangeTooLarge
    | RequestCanceled
    | UnexpectedChainId
    | NegativeFromBlock
    | NonPositiveLimit
    | ReceiptStatusMissing
    | ReceiptStatusInvalid
    | LatestCompletedBlockNotFound
    | InvalidAddress
    | InvalidPagination

  datatype TxBody = TxBody(
    nonce: uint64, valueWei: string, gasLimit: uint64, gasPriceWei: string, inputData: string)

  /** A transaction as the node sends it. `sender` is the outcome of sender recovery. */
  datatype RpcTx = RpcTx(hash: Hash, sender: Option<string>, to: Option<string>, body: TxBody)

  datatype RpcBlock = RpcBlock(
    number: uint64, hash: Hash, parentHash: Hash, timestamp: uint64, miner: string,
    gasUsed: uint64, gasLimit: uint64, txs: seq<RpcTx>)

  /** `blockNumber` is a big integer that the node may leave out. */
  datatype Receipt = Receipt(
    txHash: Hash, blockHash: Hash, blockNumber: Option<nat>, status: uint64, gasUsed: uint64)
}
