/** The rows of the two tables. */
module Models {
  import opened Types

  datatype SyncStatus = Pending | TransactionsSynced | ReceiptsFailed | CompletedStatus

  /** The four columns that record how far a block has come. */
  datatype SyncColumns = SyncColumns(
    transactionsSynced: bool, receiptsSynced: bool, status: SyncStatus, lastSyncError: Option<Error>)

  datatype BlockRow = BlockRow(
    number: uint64, hash: Hash, parentHash: Hash, timestamp: uint64, miner: string,
    txCount: nat, gasUsed: uint64, gasLimit: uint64, sync: SyncColumns)

  datatype TxRow = TxRow(
    hash: Hash, blockNumber: uint64, blockHash: Hash, txIndex: nat,
    fromAddress: string, fromAddressLower: string, toAddress: string, toAddressLower: string,
    receiptStatus: Option<uint64>, receiptGasUsed: Option<uint64>, body: TxBody)
  {
    predicate LacksReceipt() {
      receiptStatus.None? || receiptGasUsed.None?
    }

    /** The row as it was inserted. */
    function WithoutReceipt(): TxRow {
      this.(receiptStatus := None, receiptGasUsed := None)
    }

    function WithReceipt(status: uint64, gasUsed: uint64): TxRow {
      this.(receiptStatus := Some(status), receiptGasUsed := Some(gasUsed))
    }
  }

  /** What a fresh row holds before the service fills the columns in. */
  const UNSYNCED := SyncColumns(false, false, Pending, None)

  /** The filter that every reader of finished blocks applies. */
  predicate Completed(row: BlockRow) {
    && row.sync.status == CompletedStatus
    && row.sync.transactionsSynced
    && row.sync.receiptsSynced
    && row.sync.lastSyncError.None?
  }
}
