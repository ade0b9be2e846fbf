/**
 * The repositories over one shared database. Each method performs the statements the source sends; `up` says whether
 * the database carries them out; a statement that fails is taken to have changed nothing.
 */
module Repositories {
  import opened Types
  import opened Models
  import opened Ordering
  import opened Store
  import opened Sync
  import opened Readers

  class Database {
    var blocks: map<uint64, BlockRow>
    var txs: map<Hash, TxRow>

    predicate Valid()
      reads this
    {
      WellKeyed(Tables(blocks, txs))
    }

    function Snapshot(): Db
      requires Valid()
      reads this
    {
      Tables(blocks, txs)
    }

    constructor ()
      ensures Valid() && Snapshot() == EMPTY
    {
      blocks, txs := map[], map[];
    }
  }

  class BlockRepository {
    const db: Database

    constructor (db: Database)
      ensures this.db == db
    {
      this.db := db;
    }

    method GetBlockByNumber(n: uint64, up: bool) returns (r: Result<Option<BlockRow>>)
      requires db.Valid()
      ensures !up ==> r == Err(DbFailure)
      ensures up ==> r == Ok(if n in db.blocks then Some(db.blocks[n]) else None)
      ensures up ==> r == Ok(BlockAt(db.Snapshot(), n))
    {
      if !up {
        return Err(DbFailure);
      }
      if n in db.blocks {
        return Ok(Some(db.blocks[n]));
      }
      return Ok(None);
    }

    /** MAX over the rows that are completed, synced in both columns and without an error. */
    method GetLatestFullySyncedBlockNumber(up: bool) returns (r: Result<Option<uint64>>)
      requires db.Valid()
      ensures r.Ok? && r.value.None? ==> forall n | n in db.blocks :: !Completed(db.blocks[n])
      ensures r.Ok? && r.value.Some? ==>
                && r.value.value in db.blocks && Completed(db.blocks[r.value.value])
                && forall n | n in db.blocks && Completed(db.blocks[n]) :: n <= r.value.value
      ensures r == if up then Ok(LatestFullySyncedBlockNumber(db.Snapshot())) else Err(DbFailure)
    {
      if !up {
        return Err(DbFailure);
      }
      var latest := LatestFullySyncedBlockNumber(db.Snapshot());
      assert forall n | n in db.blocks && Completed(db.blocks[n]) :: n in CompletedNumbers(db.Snapshot());
      return Ok(latest);
    }

    method InsertBlockWithTransactions(row: BlockRow, rows: seq<TxRow>, up: bool) returns (err: Option<Error>)
      requires db.Valid()
      modifies db
      ensures db.Valid()
      ensures err == if up && row.number < TWO_63 then None else Some(DbFailure)
      ensures err.Some? ==> db.blocks == old(db.blocks) && db.txs == old(db.txs)
      ensures err.None? ==>
                if row.number in old(db.blocks) || exists n :: n in old(db.blocks) && old(db.blocks)[n].hash == row.hash
                then db.blocks == old(db.blocks)
                else db.blocks == old(db.blocks)[row.number := row]
      ensures forall h | h in old(db.txs) :: h in db.txs && db.txs[h] == old(db.txs)[h]
      ensures forall h | h in db.txs :: h in old(db.txs) || exists i :: 0 <= i < |rows| && rows[i].hash == h
      ensures err.None? ==>
                forall i | 0 <= i < |rows| && rows[i].hash !in old(db.txs) && (forall j | 0 <= j < i :: rows[j].hash != rows[i].hash) ::
                  rows[i].hash in db.txs && db.txs[rows[i].hash] == rows[i]
      ensures db.Snapshot() ==
              if up && row.number < TWO_63 then Store.InsertBlockWithTransactions(old(db.Snapshot()), row, rows) else old(db.Snapshot())
    {
      if !up || row.number >= TWO_63 {
        return Some(DbFailure);
      }
      ghost var after := Store.InsertBlockWithTransactions(db.Snapshot(), row, rows);
      db.blocks := InsertBlock(db.blocks, row);
      if |rows| > 0 {
        db.txs := InsertTxs(db.txs, rows);
      }
      assert Tables(db.blocks, db.txs) == after;
      forall i | 0 <= i < |rows| && rows[i].hash !in old(db.txs) && (forall j | 0 <= j < i :: rows[j].hash != rows[i].hash)
        ensures rows[i].hash in db.txs && db.txs[rows[i].hash] == rows[i]
      {
        InsertTxsKeepsFirst(old(db.txs), rows, i);
      }
      return None;
    }

    method MarkReceiptsSynced(n: uint64, up: bool) returns (err: Option<Error>)
      requires db.Valid()
      modifies db
      ensures db.Valid()
      ensures err == if !up then Some(DbFailure) else if n !in old(db.blocks) then Some(BlockNotFound) else None
      ensures db.txs == old(db.txs)
      ensures err.Some? ==> db.blocks == old(db.blocks)
      ensures err.None? ==>
                var row := old(db.blocks)[n];
                db.blocks == old(db.blocks)[n := row.(sync := SyncColumns(row.sync.transactionsSynced, true, CompletedStatus, None))]
      ensures db.Snapshot() == if up then Store.MarkReceiptsSynced(old(db.Snapshot()), n) else old(db.Snapshot())
    {
      if !up {
        return Some(DbFailure);
      }
      if n !in db.blocks {
        return Some(BlockNotFound);
      }
      var row := db.blocks[n];
      db.blocks := db.blocks[n :=
        row.(sync := row.sync.(receiptsSynced := true, status := CompletedStatus, lastSyncError := None))];
      return None;
    }

    method MarkReceiptsSyncFailed(n: uint64, reason: Error, up: bool) returns (err: Option<Error>)
      requires db.Valid()
      modifies db
      ensures db.Valid()
      ensures err == if !up then Some(DbFailure) else if n !in old(db.blocks) then Some(BlockNotFound) else None
      ensures db.txs == old(db.txs)
      ensures err.Some? ==> db.blocks == old(db.blocks)
      ensures err.None? ==>
                var row := old(db.blocks)[n];
                db.blocks == old(db.blocks)[n :=
                  row.(sync := SyncColumns(row.sync.transactionsSynced, false, ReceiptsFailed, Some(reason)))]
      ensures db.Snapshot() ==
              if up then Store.MarkReceiptsSyncFailed(old(db.Snapshot()), n, reason) else old(db.Snapshot())
    {
      if !up {
        return Some(DbFailure);
      }
      if n !in db.blocks {
        return Some(BlockNotFound);
      }
      var row := db.blocks[n];
      db.blocks := db.blocks[n :=
        row.(sync := row.sync.(receiptsSynced := false, status := ReceiptsFailed, lastSyncError := Some(reason)))];
      return None;
    }

    method ListWalletCompletedBlockRows(fromBlock: int, limit: int, up: bool) returns (r: Result<seq<BlockRow>>)
      requires db.Valid() && fromBlock < TWO_63
      ensures fromBlock < 0 ==> r == Err(NegativeFromBlock)
      ensures fromBlock >= 0 && limit <= 0 ==> r == Err(NonPositiveLimit)
      ensures r.Ok? ==> |r.value| <= limit && forall i, j | 0 <= i < j < |r.value| :: r.value[i].number < r.value[j].number
      ensures r.Ok? ==> forall row | row in r.value ::
                row.number in db.blocks && row == db.blocks[row.number] && Completed(row) && fromBlock <= row.number
      ensures r.Ok? ==> forall n | n in db.blocks && Completed(db.blocks[n]) && fromBlock <= n ::
                db.blocks[n] in r.value || (|r.value| == limit && r.value[limit - 1].number < n)
      ensures fromBlock >= 0 && limit > 0 ==>
                r == if up then Ok(WalletCompletedBlockRows(db.Snapshot(), fromBlock, limit)) else Err(DbFailure)
    {
      if fromBlock < 0 {
        return Err(NegativeFromBlock);
      }
      if limit <= 0 {
        return Err(NonPositiveLimit);
      }
      if !up {
        return Err(DbFailure);
      }
      FirstRowsLeaveNoneOut(db.Snapshot(), fromBlock, limit);
      return Ok(WalletCompletedBlockRows(db.Snapshot(), fromBlock, limit));
    }

    /** The first completed row by descending number. */
    method GetLatestCompletedBlock(up: bool) returns (r: Result<Option<BlockRow>>)
      requires db.Valid()
      ensures r.Ok? && r.value.None? ==> forall n | n in db.blocks :: !Completed(db.blocks[n])
      ensures r.Ok? && r.value.Some? ==>
                && r.value.value.number in db.blocks && r.value.value == db.blocks[r.value.value.number] && Completed(r.value.value)
                && forall n | n in db.blocks && Completed(db.blocks[n]) :: n <= r.value.value.number
      ensures r == if up then Ok(LatestCompletedBlock(db.Snapshot())) else Err(DbFailure)
    {
      if !up {
        return Err(DbFailure);
      }
      CursorsAgree(db.Snapshot());
      assert forall n | n in db.blocks && Completed(db.blocks[n]) :: n in CompletedNumbers(db.Snapshot());
      return Ok(LatestCompletedBlock(db.Snapshot()));
    }
  }

  /** A completed row from `from` on is listed, or a full page ends before it. */
  lemma FirstRowsLeaveNoneOut(db: Db, from: uint64, limit: nat)
    requires limit > 0
    ensures var rows := WalletCompletedBlockRows(db, from, limit);
            && |rows| <= limit && (forall i, j | 0 <= i < j < |rows| :: rows[i].number < rows[j].number)
            && forall n | n in db.blocks && Completed(db.blocks[n]) && from <= n ::
                 db.blocks[n] in rows || (|rows| == limit && rows[limit - 1].number < n)
  {
    var all := CompletedFrom(db, from);
    var rows := WalletCompletedBlockRows(db, from, limit);
    hide CompletedFrom, WalletCompletedBlockRows;
    assert forall i | 0 <= i < |rows| :: rows[i].number == all[i];
    assert forall i, j | 0 <= i < j < |all| :: NumberBefore(all[i], all[j]);
    forall n | n in db.blocks && Completed(db.blocks[n]) && from <= n
      ensures db.blocks[n] in rows || (|rows| == limit && rows[limit - 1].number < n)
    {
      assert n in all;
      var i :| 0 <= i < |all| && all[i] == n;
      if i < |rows| {
        assert rows[i] == db.blocks[n];
      }
    }
  }

  lemma WindowSorted(history: seq<TxRow>, limit: nat, offset: int)
    requires Sorted(history, TxAfter)
    ensures Sorted(Window(history, limit, offset), TxAfter)
    ensures |Window(history, limit, offset)| <= limit
    ensures forall x | x in Window(history, limit, offset) :: x in history
  {
  }

  class TransactionRepository {
    const db: Database

    constructor (db: Database)
      ensures this.db == db
    {
      this.db := db;
    }

    /** Fills a map from the fetched rows. */
    method GetTransactionsByHashes(hashes: seq<Hash>, up: bool) returns (r: Result<map<Hash, TxRow>>)
      requires db.Valid()
      ensures !up && hashes != [] ==> r == Err(DbFailure)
      ensures up || hashes == [] ==> r == Ok(map h | h in db.txs && h in hashes :: db.txs[h])
    {
      hide RowsWithHash;
      var result: map<Hash, TxRow> := map[];
      if |hashes| == 0 {
        return Ok(result);
      }
      if !up {
        return Err(DbFailure);
      }
      var fetched := RowsWithHash(db.Snapshot(), hashes);
      for i := 0 to |fetched|
        invariant forall h | h in result :: h in db.txs && h in hashes && result[h] == db.txs[h]
        invariant forall j | 0 <= j < i :: fetched[j].hash in result
      {
        assert fetched[i] in fetched;
        result := result[fetched[i].hash := fetched[i]];
      }
      forall h | h in db.txs && h in hashes
        ensures h in result
      {
        assert db.txs[h] in fetched;
      }
      assert result == map h | h in db.txs && h in hashes :: db.txs[h];
      return Ok(result);
    }

    method UpdateTransactionReceiptByHash(hash: Hash, status: uint64, gasUsed: uint64, up: bool)
      returns (err: Option<Error>)
      requires db.Valid()
      modifies db
      ensures db.Valid()
      ensures err == if !up then Some(DbFailure) else if hash !in old(db.txs) then Some(TxNotFound) else None
      ensures db.blocks == old(db.blocks)
      ensures err.Some? ==> db.txs == old(db.txs)
      ensures err.None? ==>
                db.txs == old(db.txs)[hash := old(db.txs)[hash].(receiptStatus := Some(status), receiptGasUsed := Some(gasUsed))]
      ensures db.Snapshot() == if up then UpdateReceipt(old(db.Snapshot()), hash, status, gasUsed) else old(db.Snapshot())
    {
      if !up {
        return Some(DbFailure);
      }
      if hash !in db.txs {
        return Some(TxNotFound);
      }
      db.txs := db.txs[hash := db.txs[hash].WithReceipt(status, gasUsed)];
      return None;
    }

    /** The rows of the block whose status or gas is NULL, by tx_index. */
    method ListTransactionsMissingReceiptByBlockNumber(n: uint64, up: bool) returns (r: Result<seq<TxRow>>)
      requires db.Valid()
      ensures r.Ok? ==> forall x :: x in r.value <==>
                x in db.txs.Values && x.blockNumber == n && (x.receiptStatus.None? || x.receiptGasUsed.None?)
      ensures r.Ok? ==> forall i, j | 0 <= i < j < |r.value| :: r.value[i].txIndex <= r.value[j].txIndex
      ensures r == if up then Ok(MissingReceipts(db.Snapshot(), n)) else Err(DbFailure)
    {
      if !up {
        return Err(DbFailure);
      }
      var rows := MissingReceipts(db.Snapshot(), n);
      forall i, j | 0 <= i < j < |rows|
        ensures rows[i].txIndex <= rows[j].txIndex
      {
        assert rows[i] in MissingRows(db.Snapshot(), n) && rows[j] in MissingRows(db.Snapshot(), n);
        assert TxBefore(rows[i], rows[j]);
      }
      return Ok(rows);
    }

    /** The rows of the listed blocks by block_number, then tx_index; an empty list is answered without a query. */
    method ListWalletCompletedTransactionRows(numbers: seq<uint64>, up: bool) returns (r: Result<seq<TxRow>>)
      requires db.Valid()
      ensures r.Ok? ==> forall x :: x in r.value <==> x in db.txs.Values && x.blockNumber in numbers
      ensures r.Ok? ==> forall i, j | 0 <= i < j < |r.value| ::
                || r.value[i].blockNumber < r.value[j].blockNumber
                || (r.value[i].blockNumber == r.value[j].blockNumber && r.value[i].txIndex <= r.value[j].txIndex)
      ensures up || numbers == [] ==> r == Ok(WalletCompletedTransactionRows(db.Snapshot(), numbers))
      ensures !up && numbers != [] ==> r == Err(DbFailure)
    {
      ghost var rows := WalletCompletedTransactionRows(db.Snapshot(), numbers);
      assert |rows| > 0 ==> rows[0] in rows;
      assert forall i, j | 0 <= i < j < |rows| :: TxBefore(rows[i], rows[j]);
      if |numbers| == 0 {
        return Ok([]);
      }
      if !up {
        return Err(DbFailure);
      }
      return Ok(WalletCompletedTransactionRows(db.Snapshot(), numbers));
    }

    /** Newest first; at most `limit` rows, each from or to the address. */
    method ListTransactionsByAddress(address: string, limit: nat, offset: int, up: bool) returns (r: Result<seq<TxRow>>)
      requires db.Valid()
      ensures r.Ok? ==> |r.value| <= limit
      ensures r.Ok? ==> forall x | x in r.value ::
                x in db.txs.Values && (x.fromAddressLower == address || x.toAddressLower == address)
      ensures r.Ok? ==> forall i, j | 0 <= i < j < |r.value| :: TxAfter(r.value[i], r.value[j])
      ensures r == if up then Ok(TransactionsByAddress(db.Snapshot(), address, limit, offset)) else Err(DbFailure)
    {
      if !up {
        return Err(DbFailure);
      }
      ghost var history := AddressHistory(db.Snapshot(), address);
      var rows := TransactionsByAddress(db.Snapshot(), address, limit, offset);
      WindowSorted(history, limit, offset);
      assert forall x | x in rows :: x in history;
      return Ok(rows);
    }
  }
}
