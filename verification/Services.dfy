/**
 * The services as the source runs them: objects over one shared database, with loops, early returns and writes in
 * order. Each method is proved against the function that specifies it.
 */
module Services {
  import opened Types
  import opened Models
  import opened Mapper
  import opened Repositories
  import Store
  import Sync
  import opened Consistency
  import Indexer
  import Range
  import Readers
  import opened Wallet
  import Address

  class TxService {
    const repo: TransactionRepository

    constructor (repo: TransactionRepository)
      ensures this.repo == repo
    {
      this.repo := repo;
    }

    method ValidateReceiptMatchesTransaction(tx: TxRow, receipt: Option<Receipt>) returns (err: Option<Error>)
      ensures err.None? <==>
                && receipt.Some? && receipt.value.txHash == tx.hash && receipt.value.blockHash == tx.blockHash
                && receipt.value.blockNumber.Some? && receipt.value.blockNumber.value % TWO_64 == tx.blockNumber
      ensures err == if Sync.ReceiptMatches(tx, receipt) then None else Some(ReceiptMismatch)
    {
      if receipt.None? {
        return Some(ReceiptMismatch);
      }
      var r := receipt.value;
      if r.txHash != tx.hash {
        return Some(ReceiptMismatch);
      }
      if r.blockNumber.None? {
        return Some(ReceiptMismatch);
      }
      if Wrap64(r.blockNumber.value) != tx.blockNumber {
        return Some(ReceiptMismatch);
      }
      if r.blockHash != tx.blockHash {
        return Some(ReceiptMismatch);
      }
      return None;
    }

    method SyncBlockTransactionReceipts(n: uint64, env: Sync.Env) returns (err: Option<Error>)
      requires repo.db.Valid()
      modifies repo.db
      ensures repo.db.Valid()
      ensures Sync.Outcome(repo.db.Snapshot(), err) == Sync.SyncBlockTransactionReceipts(old(repo.db.Snapshot()), n, env)
    {
      hide Store.MissingReceipts;
      var listed := repo.ListTransactionsMissingReceiptByBlockNumber(n, env.up(Sync.ListMissing));
      if listed.Err? {
        return Some(listed.error);
      }
      var txs := listed.value;
      ghost var start := repo.db.Snapshot();
      for i := 0 to |txs|
        invariant repo.db.Valid()
        invariant Sync.SyncReceipts(start, txs, env) == Sync.SyncReceipts(repo.db.Snapshot(), txs[i..], env)
      {
        var tx := txs[i];
        assert txs[i..][0] == tx && txs[i..][1..] == txs[i + 1..];
        match env.receipt(tx.hash) {
          case NoReceipt => continue;
          case ReceiptFailed => return Some(RpcFailure);
          case Answered(receipt) =>
            var mismatch := ValidateReceiptMatchesTransaction(tx, receipt);
            if mismatch.Some? {
              return mismatch;
            }
            var failed := repo.UpdateTransactionReceiptByHash(
              tx.hash, receipt.value.status, receipt.value.gasUsed, env.up(Sync.StoreReceipt(tx.hash)));
            if failed.Some? {
              return failed;
            }
        }
      }
      return None;
    }
  }

  class BlockService {
    const blocks: BlockRepository
    const receipts: TxService
    const conflicts: TransactionRepository
    const startBlock: uint64

    constructor (blocks: BlockRepository, receipts: TxService, conflicts: TransactionRepository, startBlock: uint64)
      ensures this.blocks == blocks && this.receipts == receipts && this.conflicts == conflicts
      ensures this.startBlock == startBlock
    {
      this.blocks, this.receipts, this.conflicts, this.startBlock := blocks, receipts, conflicts, startBlock;
    }

    /** All three collaborators work on one database. */
    predicate Valid()
      reads blocks.db
    {
      receipts.repo.db == blocks.db && conflicts.db == blocks.db && blocks.db.Valid()
    }

    function Snapshot(): Store.Db
      requires Valid()
      reads blocks.db
    {
      blocks.db.Snapshot()
    }

    /** The cached query: the stored row if there is one, else the node. */
    method GetBlockByNumber(n: uint64, up: bool, answer: Sync.FetchAnswer) returns (r: Result<BlockQueryResult>)
      requires Valid()
      ensures r == Readers.QueryBlock(Snapshot(), n, up, answer)
    {
      var stored := blocks.GetBlockByNumber(n, up);
      if stored.Err? {
        return Err(stored.error);
      }
      if stored.value.Some? {
        return Ok(MapBlockEntityToQueryResult(stored.value.value));
      }
      match answer {
        case NoSuchBlock => return Err(BlockNotFound);
        case FetchFailed => return Err(RpcFailure);
        case Fetched(block) => return Ok(MapRpcBlockToQueryResult(block));
      }
    }

    method ValidateBlockForSync(row: BlockRow, env: Sync.Env) returns (err: Option<Error>)
      requires Valid()
      ensures err == Sync.ValidateBlock(startBlock, Snapshot(), row, env)
    {
      var existing := blocks.GetBlockByNumber(row.number, env.up(Sync.ReadBlock));
      if existing.Err? {
        return Some(existing.error);
      }
      if existing.value.Some? {
        if existing.value.value.hash == row.hash {
          return None;
        }
        return Some(ReorgDetected);
      }
      if row.number > 0 {
        var parent := blocks.GetBlockByNumber(row.number - 1, env.up(Sync.ReadParent));
        if parent.Err? {
          return Some(parent.error);
        }
        if parent.value.None? {
          if row.number == startBlock {
            return None;
          }
          return Some(ChainDiscontinuity);
        }
        if row.parentHash != parent.value.value.hash {
          return Some(ChainDiscontinuity);
        }
      }
      return None;
    }

    method BuildTransactionModelsFromBlock(block: RpcBlock) returns (r: Result<seq<TxRow>>)
      ensures r == if Sync.SendersRecovered(block) then Ok(Sync.TransactionModels(block)) else Err(SenderUnrecovered)
    {
      var models: seq<TxRow> := [];
      for i := 0 to |block.txs|
        invariant |models| == i
        invariant forall j | 0 <= j < i ::
                    && block.txs[j].sender.Some?
                    && models[j] == ToTransactionModel(block, block.txs[j], j, block.txs[j].sender.value)
      {
        var sender := block.txs[i].sender;
        if sender.None? {
          return Err(SenderUnrecovered);
        }
        models := models + [ToTransactionModel(block, block.txs[i], i, sender.value)];
      }
      assert models == Sync.TransactionModels(block);
      return Ok(models);
    }

    method ValidateTransactionsForSync(rows: seq<TxRow>, env: Sync.Env) returns (err: Option<Error>)
      requires Valid()
      ensures err == Some(DbFailure) <==> rows != [] && !env.up(Sync.ReadTxs)
      ensures err == Some(ChainDataConflict) <==>
                env.up(Sync.ReadTxs) && exists i :: 0 <= i < |rows| && StoredApart(blocks.db.txs, rows[i])
      ensures err in {None, Some(DbFailure), Some(ChainDataConflict)}
      ensures err == Sync.ValidateTransactions(Snapshot(), rows, env)
    {
      if |rows| == 0 {
        return None;
      }
      var hashes: seq<Hash> := [];
      for i := 0 to |rows|
        invariant |hashes| == i && forall j | 0 <= j < i :: hashes[j] == rows[j].hash
      {
        hashes := hashes + [rows[i].hash];
      }
      var existing := conflicts.GetTransactionsByHashes(hashes, env.up(Sync.ReadTxs));
      if existing.Err? {
        return Some(existing.error);
      }
      assert forall i | 0 <= i < |rows| :: rows[i].hash == hashes[i] && rows[i].hash in hashes;
      for i := 0 to |rows|
        invariant forall j | 0 <= j < i && rows[j].hash in blocks.db.txs ::
                    Sync.SamePosition(blocks.db.txs[rows[j].hash], rows[j])
      {
        var row := rows[i];
        if row.hash !in existing.value {
          continue;
        }
        var stored := existing.value[row.hash];
        if stored.blockNumber != row.blockNumber || stored.blockHash != row.blockHash || stored.txIndex != row.txIndex {
          return Some(ChainDataConflict);
        }
      }
      return None;
    }

    method SyncBlockToDB(n: uint64, env: Sync.Env) returns (err: Option<Error>)
      requires Valid()
      modifies blocks.db
      ensures Valid()
      ensures Sync.Outcome(Snapshot(), err) == Sync.SyncBlock(startBlock, old(Snapshot()), n, env)
    {
      var answer := env.fetch(n);
      if answer.NoSuchBlock? {
        return Some(BlockNotFound);
      }
      if answer.FetchFailed? {
        return Some(RpcFailure);
      }
      var block := answer.block;
      var row := ToBlockModel(block);
      err := ValidateBlockForSync(row, env);
      if err.Some? {
        return;
      }
      var built := BuildTransactionModelsFromBlock(block);
      if built.Err? {
        return Some(built.error);
      }
      var models := built.value;
      err := ValidateTransactionsForSync(models, env);
      if err.Some? {
        return;
      }
      if |models| == 0 {
        row := row.(sync := SyncColumns(true, true, CompletedStatus, None));
      } else {
        row := row.(sync := SyncColumns(true, false, TransactionsSynced, None));
      }
      assert Sync.Prepare(startBlock, old(Snapshot()), n, env) == Ok(block) && row == Sync.InsertedRow(block);
      err := blocks.InsertBlockWithTransactions(row, models, env.up(Sync.InsertRows));
      if err.Some? || |models| == 0 {
        return;
      }
      assert Snapshot() == Sync.InsertFetched(old(Snapshot()), block);
      err := FinishBlock(n, env);
    }

    /** The last part of SyncBlockToDB: the receipts, then the mark. */
    method FinishBlock(n: uint64, env: Sync.Env) returns (err: Option<Error>)
      requires Valid()
      modifies blocks.db
      ensures Valid()
      ensures Sync.Outcome(Snapshot(), err) == Sync.FinishReceipts(old(Snapshot()), n, env)
    {
      err := receipts.SyncBlockTransactionReceipts(n, env);
      if err.Some? {
        var markErr := blocks.MarkReceiptsSyncFailed(n, err.value, env.up(Sync.MarkFailed));
        return;
      }
      err := blocks.MarkReceiptsSynced(n, env.up(Sync.MarkSynced));
    }

    method SyncBlockRangeToDB(start: uint64, end: uint64, deadline: nat, envs: nat -> Sync.Env)
      returns (result: Option<Range.RangeResult>, err: Option<Error>)
      requires Valid()
      modifies blocks.db
      ensures Valid()
      ensures Range.RangeOutcome(Snapshot(), result, err) ==
              Range.SyncRange(startBlock, old(Snapshot()), start, end, deadline, envs)
    {
      hide Sync.SyncBlock;
      if start > end {
        return None, Some(InvalidBlockRange);
      }
      if Wrap64(end - start + 1) > Range.MAX_BLOCK_RANGE {
        return None, Some(BlockRangeTooLarge);
      }
      var acc := Range.RangeResult(start, end, Wrap64(end - start + 1), 0, 0, []);
      var number: uint64 := start;
      var i := 0;
      ghost var goal := Range.RangeLoop(startBlock, Snapshot(), start, 0, deadline, envs, acc);
      while number <= end
        invariant Valid() && acc.end == end && i <= deadline
        invariant Range.RangeLoop(startBlock, Snapshot(), number, i, deadline, envs, acc) == goal
        decreases deadline - i
      {
        if i >= deadline {
          return Some(acc), Some(RequestCanceled);
        }
        var failed := SyncBlockToDB(number, envs(i));
        if failed.Some? {
          acc := acc.(failed := acc.failed + 1, failedBlocks := acc.failedBlocks + [number]);
          if Range.StopsRange(failed.value) {
            return Some(acc), failed;
          }
        } else {
          acc := acc.(succeeded := acc.succeeded + 1);
        }
        number := Wrap64(number + 1);
        i := i + 1;
      }
      return Some(acc), None;
    }
  }

  datatype IndexerStatus = IndexerStatus(dbLatest: Option<uint64>, target: uint64, next: uint64, shouldSync: bool)

  class BlockIndexer {
    const progress: BlockRepository
    const synchronizer: BlockService
    const startBlock: uint64

    constructor (progress: BlockRepository, synchronizer: BlockService, startBlock: uint64)
      ensures this.progress == progress && this.synchronizer == synchronizer && this.startBlock == startBlock
    {
      this.progress, this.synchronizer, this.startBlock := progress, synchronizer, startBlock;
    }

    predicate Valid()
      reads synchronizer.blocks.db
    {
      progress.db == synchronizer.blocks.db && synchronizer.startBlock == startBlock && synchronizer.Valid()
    }

    function Snapshot(): Store.Db
      requires Valid()
      reads synchronizer.blocks.db
    {
      synchronizer.Snapshot()
    }

    method GetNextBlockToSync(tick: Indexer.Tick) returns (r: Result<IndexerStatus>)
      requires Valid()
      ensures r.Ok? ==>
                && tick.target == Some(r.value.target) && (r.value.shouldSync <==> r.value.next <= r.value.target)
                && (r.value.dbLatest.None? ==> Indexer.NoneCompleted(Snapshot()) && r.value.next == startBlock)
                && (r.value.dbLatest.Some? ==>
                      Indexer.LargestCompleted(Snapshot(), r.value.dbLatest.value) && r.value.next == r.value.dbLatest.value + 1)
      ensures !tick.cursorUp ==> r == Err(DbFailure)
      ensures tick.cursorUp && tick.target.None? ==> r == Err(RpcFailure)
      ensures tick.cursorUp && tick.target.Some? ==>
                var next := Indexer.NextBlock(startBlock, Snapshot());
                r == Ok(IndexerStatus(Store.LatestFullySyncedBlockNumber(Snapshot()), tick.target.value, next,
                                      next <= tick.target.value))
    {
      var latest := progress.GetLatestFullySyncedBlockNumber(tick.cursorUp);
      if latest.Err? {
        return Err(latest.error);
      }
      if tick.target.None? {
        return Err(RpcFailure);
      }
      var next := startBlock;
      if latest.value.Some? {
        var cursor: int := latest.value.value;
        next := Wrap64(cursor + 1);
      }
      return Ok(IndexerStatus(latest.value, tick.target.value, next, next <= tick.target.value));
    }

    method RunIndexerOnce(tick: Indexer.Tick) returns (r: Result<Indexer.OnceResult>)
      requires Valid()
      modifies synchronizer.blocks.db
      ensures Valid()
      ensures Indexer.TickOutcome(Snapshot(), r) == Indexer.RunOnce(startBlock, old(Snapshot()), tick)
    {
      var status := GetNextBlockToSync(tick);
      if status.Err? {
        return Err(status.error);
      }
      var s := status.value;
      var result := Indexer.OnceResult(s.dbLatest, s.target, s.next, false, None);
      if !s.shouldSync {
        return Ok(result);
      }
      var err := synchronizer.SyncBlockToDB(s.next, tick.call);
      if err.Some? {
        return Err(err.value);
      }
      return Ok(result.(synced := true, syncedBlock := Some(s.next)));
    }

    /** The background runner: step after step, none of whose failures stops it, until the process is told to stop. */
    method Start(ticks: seq<Indexer.Tick>)
      requires Valid()
      modifies synchronizer.blocks.db
      ensures Valid()
      ensures Snapshot() == Indexer.RunTicks(startBlock, old(Snapshot()), ticks)
    {
      for i := 0 to |ticks|
        invariant Valid()
        invariant Snapshot() == Indexer.RunTicks(startBlock, old(Snapshot()), ticks[..i])
      {
        assert ticks[..i + 1][..i] == ticks[..i];
        var outcome := RunIndexerOnce(ticks[i]);
      }
      assert ticks[..|ticks|] == ticks;
    }
  }

  class WalletInternalService {
    const chainId: int
    const blocks: BlockRepository
    const txs: TransactionRepository

    constructor (chainId: int, blocks: BlockRepository, txs: TransactionRepository)
      ensures this.chainId == chainId && this.blocks == blocks && this.txs == txs
    {
      this.chainId, this.blocks, this.txs := chainId, blocks, txs;
    }

    /** The two repositories work on one database, but each on its state at its own moment. */
    predicate Valid()
      reads blocks.db, txs.db
    {
      blocks.db.Valid() && txs.db.Valid()
    }

    method ListCompletedBlocks(chainId: int, fromBlock: int, limit: int, blocksUp: bool, txsUp: bool)
      returns (r: Result<seq<WalletBlock>>)
      requires Valid() && fromBlock < TWO_63
      ensures chainId != this.chainId ==> r == Err(UnexpectedChainId)
      ensures chainId == this.chainId && fromBlock < 0 ==> r == Err(NegativeFromBlock)
      ensures chainId == this.chainId && fromBlock >= 0 && limit <= 0 ==> r == Err(NonPositiveLimit)
      ensures chainId == this.chainId && fromBlock >= 0 && limit > 0 && !blocksUp ==> r == Err(DbFailure)
      ensures chainId == this.chainId && fromBlock >= 0 && limit > 0 && blocksUp ==>
                r == if !txsUp && Store.WalletCompletedBlockRows(blocks.db.Snapshot(), fromBlock, limit) != [] then Err(DbFailure)
                     else Page(blocks.db.Snapshot(), txs.db.Snapshot(), fromBlock, limit)
    {
      hide Store.WalletCompletedBlockRows, Store.WalletCompletedTransactionRows, FeedOrRejection;
      if chainId != this.chainId {
        return Err(UnexpectedChainId);
      }
      if fromBlock < 0 {
        return Err(NegativeFromBlock);
      }
      if limit <= 0 {
        return Err(NonPositiveLimit);
      }
      var listed := blocks.ListWalletCompletedBlockRows(fromBlock, limit, blocksUp);
      if listed.Err? {
        return Err(listed.error);
      }
      var rows := listed.value;
      if |rows| == 0 {
        EmptyPage(blocks.db.Snapshot(), txs.db.Snapshot(), fromBlock, limit);
        return Ok([]);
      }
      var numbers: seq<uint64> := [];
      for i := 0 to |rows|
        invariant |numbers| == i && forall j | 0 <= j < i :: numbers[j] == rows[j].number
      {
        numbers := numbers + [rows[i].number];
      }
      assert numbers == Numbers(rows);
      var fetched := txs.ListWalletCompletedTransactionRows(numbers, txsUp);
      if fetched.Err? {
        return Err(fetched.error);
      }
      r := BuildResponse(rows, fetched.value);
    }

    /** The second and third loop of ListCompletedBlocks. */
    method BuildResponse(rows: seq<BlockRow>, fetched: seq<TxRow>) returns (r: Result<seq<WalletBlock>>)
      ensures r == FeedOrRejection(rows, fetched)
    {
      hide AtNumber, ToWalletTxs;
      var grouped := GroupByNumber(fetched);
      if grouped.Err? {
        return Err(grouped.error);
      }
      var response: seq<WalletBlock> := [];
      for i := 0 to |rows|
        invariant |response| == i && forall j | 0 <= j < i :: response[j] == FeedBlock(rows[j], fetched)
      {
        var row := rows[i];
        var transactions := GroupOf(grouped.value, row.number);
        assert GroupHolds(fetched, grouped.value, row.number);
        response := response + [WalletBlock(ToInt64(row.number), row.hash, row.parentHash, transactions)];
      }
      assert response == Feed(rows, fetched);
      return Ok(response);
    }

    /** The second loop: every fetched row goes to the list of its block, unless its receipt status is unusable. */
    method GroupByNumber(fetched: seq<TxRow>) returns (r: Result<map<uint64, seq<WalletTx>>>)
      ensures r.Ok? <==> AllAccepted(fetched)
      ensures r.Ok? ==> forall n: uint64 :: GroupHolds(fetched, r.value, n)
      ensures r.Err? ==> r.error == FirstRejection(fetched)
    {
      var byNumber: map<uint64, seq<WalletTx>> := map[];
      for i := 0 to |fetched|
        invariant AllAccepted(fetched[..i])
        invariant forall n: uint64 :: GroupHolds(fetched[..i], byNumber, n)
      {
        var tx := fetched[i];
        var status := MapReceiptStatus(tx.receiptStatus);
        if status.Err? {
          FirstRejectionAt(fetched, i);
          return Err(status.error);
        }
        ghost var before := byNumber;
        byNumber := byNumber[tx.blockNumber :=
          GroupOf(byNumber, tx.blockNumber) + [WalletTx(tx.hash, tx.fromAddress, tx.toAddress, tx.body.valueWei, status.value)]];
        assert fetched[..i + 1] == fetched[..i] + [tx];
        AppendToGroups(fetched[..i], tx, before, byNumber);
      }
      assert fetched[..|fetched|] == fetched;
      return Ok(byNumber);
    }

    method GetSyncStatus(chainId: int, up: bool) returns (r: Result<(int, Hash)>)
      requires Valid()
      ensures chainId != this.chainId ==> r == Err(UnexpectedChainId)
      ensures chainId == this.chainId && !up ==> r == Err(DbFailure)
      ensures r.Ok? ==>
                && 0 <= r.value.0 < TWO_63 && Indexer.LargestCompleted(blocks.db.Snapshot(), r.value.0)
                && r.value.1 == blocks.db.blocks[r.value.0].hash
      ensures r == Err(LatestCompletedBlockNotFound) ==> Indexer.NoneCompleted(blocks.db.Snapshot())
      ensures chainId == this.chainId && up ==>
                match Store.LatestCompletedBlock(blocks.db.Snapshot())
                case None => r == Err(LatestCompletedBlockNotFound)
                case Some(row) => r == Ok((ToInt64(row.number), row.hash))
    {
      if chainId != this.chainId {
        return Err(UnexpectedChainId);
      }
      var latest := blocks.GetLatestCompletedBlock(up);
      if latest.Err? {
        return Err(latest.error);
      }
      if latest.value.None? {
        return Err(LatestCompletedBlockNotFound);
      }
      return Ok((ToInt64(latest.value.value.number), latest.value.value.hash));
    }
  }

  /** The transaction is stored at another block number, block hash or index. */
  predicate StoredApart(txs: map<Hash, TxRow>, row: TxRow) {
    row.hash in txs &&
    var stored := txs[row.hash];
    stored.blockNumber != row.blockNumber || stored.blockHash != row.blockHash || stored.txIndex != row.txIndex
  }

  /** Reading a Go map: a missing key gives the empty list. */
  function GroupOf(groups: map<uint64, seq<WalletTx>>, n: uint64): seq<WalletTx> {
    if n in groups then groups[n] else []
  }

  /** The list kept for block n is that block's share of the rows seen so far. */
  predicate GroupHolds(fetched: seq<TxRow>, groups: map<uint64, seq<WalletTx>>, n: uint64) {
    AllAccepted(AtNumber(fetched, n)) && ToWalletTxs(AtNumber(fetched, n)) == GroupOf(groups, n)
  }

  lemma AppendToGroups(front: seq<TxRow>, tx: TxRow, before: map<uint64, seq<WalletTx>>, after: map<uint64, seq<WalletTx>>)
    requires AllAccepted(front) && Accepted(tx)
    requires forall n: uint64 :: GroupHolds(front, before, n)
    requires after == before[tx.blockNumber := GroupOf(before, tx.blockNumber) + [ToWalletTx(tx)]]
    ensures AllAccepted(front + [tx])
    ensures forall n: uint64 :: GroupHolds(front + [tx], after, n)
  {
    assert (front + [tx])[..|front|] == front;
    forall n: uint64
      ensures GroupHolds(front + [tx], after, n)
    {
      assert GroupHolds(front, before, n);
      if tx.blockNumber == n {
        assert AtNumber(front + [tx], n) == AtNumber(front, n) + [tx];
        assert ToWalletTxs(AtNumber(front, n) + [tx]) == ToWalletTxs(AtNumber(front, n)) + [ToWalletTx(tx)];
        assert GroupOf(after, n) == GroupOf(before, n) + [ToWalletTx(tx)];
      } else {
        assert AtNumber(front + [tx], n) == AtNumber(front, n);
        assert GroupOf(after, n) == GroupOf(before, n);
      }
    }
  }

  class AddressService {
    const txs: TransactionRepository

    constructor (txs: TransactionRepository)
      ensures this.txs == txs
    {
      this.txs := txs;
    }

    method GetIndexedTransactionsByAddress(address: string, page: int, pageSize: int, up: bool)
      returns (r: Result<seq<AddressTransaction>>)
      requires txs.db.Valid()
      ensures r == Address.QueryAddress(txs.db.Snapshot(), address, page, pageSize, up)
    {
      hide Store.TransactionsByAddress, Address.ValidAddress, Address.TrimSpace, WrapInt64;
      var lower := ToLower(Address.TrimSpace(address));
      if !Address.ValidAddress(lower) {
        return Err(InvalidAddress);
      }
      if page <= 0 || pageSize <= 0 || pageSize > 100 {
        return Err(InvalidPagination);
      }
      var limit := pageSize;
      var offset := WrapInt64((page - 1) * pageSize);
      var listed := txs.ListTransactionsByAddress(lower, limit, offset, up);
      if listed.Err? {
        return Err(listed.error);
      }
      var result: seq<AddressTransaction> := [];
      for i := 0 to |listed.value|
        invariant |result| == i && forall j | 0 <= j < i :: result[j] == ToAddressTransaction(listed.value[j], lower)
      {
        result := result + [ToAddressTransaction(listed.value[i], lower)];
      }
      assert result == Address.Described(listed.value, lower);
      return Ok(result);
    }
  }
}
