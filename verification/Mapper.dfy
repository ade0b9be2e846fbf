/** Records built from records: node blocks to rows, rows to answers. */
module Mapper {
  import opened Types
  import opened Models

  function LowerChar(c: char): char {
    if 'A' <= c <= 'Z' then c - 'A' + 'a' else c
  }

  function ToLower(s: string): string {
    seq(|s|, i requires 0 <= i < |s| => LowerChar(s[i]))
  }

  function ToBlockModel(block: RpcBlock): BlockRow {
    BlockRow(block.number, block.hash, block.parentHash, block.timestamp, block.miner,
             |block.txs|, block.gasUsed, block.gasLimit, UNSYNCED)
  }

  function ToTransactionModel(block: RpcBlock, tx: RpcTx, txIndex: nat, from: string): TxRow {
    var to := if tx.to.Some? then tx.to.value else "";
    TxRow(tx.hash, block.number, block.hash, txIndex, from, ToLower(from), to, ToLower(to), None, None, tx.body)
  }

  datatype DataSource = FromStore | FromRpc

  datatype BlockDetail = BlockDetail(
    number: uint64, hash: Hash, parentHash: Hash, timestamp: uint64, miner: string,
    gasLimit: uint64, gasUsed: uint64, txCount: nat)

  datatype BlockQueryResult = BlockQueryResult(block: BlockDetail, source: DataSource)

  function MapBlockEntityToQueryResult(row: BlockRow): BlockQueryResult {
    BlockQueryResult(
      BlockDetail(row.number, row.hash, row.parentHash, row.timestamp, row.miner,
                  row.gasLimit, row.gasUsed, row.txCount),
      FromStore)
  }

  function MapRpcBlockToQueryResult(block: RpcBlock): BlockQueryResult {
    BlockQueryResult(
      BlockDetail(block.number, block.hash, block.parentHash, block.timestamp, block.miner,
                  block.gasLimit, block.gasUsed, |block.txs|),
      FromRpc)
  }

  datatype Direction = Self | Out | In | Unknown

  datatype AddressTransaction = AddressTransaction(row: TxRow, direction: Direction, counterparty: string)

  function ToAddressTransaction(row: TxRow, queryAddress: string): AddressTransaction {
    if row.fromAddressLower == queryAddress && row.toAddressLower == queryAddress then
      AddressTransaction(row, Self, row.toAddress)
    else if row.fromAddressLower == queryAddress then
      AddressTransaction(row, Out, row.toAddress)
    else if row.toAddressLower == queryAddress then
      AddressTransaction(row, In, row.fromAddress)
    else
      AddressTransaction(row, Unknown, "")
  }
}
