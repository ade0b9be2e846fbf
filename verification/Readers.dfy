/** The readers of finished blocks: the cursor, the latest completed block, the cached block query. */
module Readers {
  import opened Types
  import opened Models
  import opened Mapper
  import opened Ordering
  import opened Store
  import opened Sync
  import opened Consistency
  import opened SerialCall
  import opened CatchUp
  import opened Interleaving
  import opened ChainRuns

  // ---- Which blocks count as finished ----

  /** In every reachable state the four-condition filter is the same as looking at sync_status alone. */
  lemma FilterIsStatus(node: Node, startBlock: uint64, events: seq<Event>)
    ensures var db := Run(node, startBlock, INIT, events).db;
            forall n | n in db.blocks ::
              && ShapeOk(db.blocks[n].sync)
              && (Completed(db.blocks[n]) <==> db.blocks[n].sync.status == CompletedStatus)
  {
    AlwaysSafe(node, startBlock, events);
  }

  /** MAX(number), the first row by descending number and the last row of an unbounded listing name one block. */
  lemma CursorsAgree(db: Db)
    ensures LatestFullySyncedBlockNumber(db).None? <==> LatestCompletedBlock(db).None?
    ensures LatestFullySyncedBlockNumber(db).None? <==> CompletedFrom(db, 0) == []
    ensures LatestFullySyncedBlockNumber(db).Some? ==>
              var latest := LatestFullySyncedBlockNumber(db).value;
              && latest in db.blocks
              && LatestCompletedBlock(db) == Some(db.blocks[latest])
              && CompletedFrom(db, 0)[|CompletedFrom(db, 0)| - 1] == latest
  {
    var s := CompletedNumbers(db);
    var down := SortBy(s, NumberAfter);
    var up := CompletedFrom(db, 0);
    assert forall n :: n in up <==> n in s;
    hide CompletedFrom, SortBy;
    assert |up| > 0 ==> up[0] in s;
    if s != {} {
      var latest := LatestFullySyncedBlockNumber(db).value;
      LargestAtTheEnds(down, up, s, latest);
    }
  }

  lemma LargestAtTheEnds(down: seq<uint64>, up: seq<uint64>, s: set<uint64>, latest: uint64)
    requires Sorted(down, NumberAfter) && Sorted(up, NumberBefore)
    requires (forall n :: n in down <==> n in s) && (forall n :: n in up <==> n in s)
    requires latest in s && forall n | n in s :: n <= latest
    ensures down != [] && down[0] == latest && up != [] && up[|up| - 1] == latest
  {
    assert latest in down && latest in up;
    var i :| 0 <= i < |down| && down[i] == latest;
    var j :| 0 <= j < |up| && up[j] == latest;
    assert down[0] in s && up[|up| - 1] in s;
    assert forall k | 0 < k < |down| :: NumberAfter(down[0], down[k]);
    assert forall k | 0 <= k < |up| - 1 :: NumberBefore(up[k], up[|up| - 1]);
  }

  // ---- The cached block query ----

  /** BlockService.GetBlockByNumber: the stored row if there is one, else the node's answer. */
  function QueryBlock(db: Db, n: uint64, up: bool, answer: FetchAnswer): Result<BlockQueryResult> {
    if !up then Err(DbFailure)
    else if n in db.blocks then Ok(MapBlockEntityToQueryResult(db.blocks[n]))
    else
      match answer
      case NoSuchBlock => Err(BlockNotFound)
      case FetchFailed => Err(RpcFailure)
      case Fetched(block) => Ok(MapRpcBlockToQueryResult(block))
  }

  predicate RowDetail(detail: BlockDetail, row: BlockRow) {
    && detail.number == row.number && detail.hash == row.hash && detail.parentHash == row.parentHash
    && detail.timestamp == row.timestamp && detail.miner == row.miner
    && detail.gasLimit == row.gasLimit && detail.gasUsed == row.gasUsed && detail.txCount == row.txCount
  }

  /**
   * Which answer or error the query gives. A stored row is answered whatever the node would say; only for a number not
   * stored does it matter what the node says, and "not found" is kept apart from every other failure.
   */
  lemma QueryAnswers(db: Db, n: uint64, up: bool, answer: FetchAnswer)
    ensures var r := QueryBlock(db, n, up, answer);
            && (r == Err(DbFailure) <==> !up)
            && (r == Err(BlockNotFound) <==> up && n !in db.blocks && answer == NoSuchBlock)
            && (r == Err(RpcFailure) <==> up && n !in db.blocks && answer == FetchFailed)
            && (r.Ok? <==> up && (n in db.blocks || answer.Fetched?))
            && (r.Ok? && n in db.blocks ==> r.value.source == FromStore && RowDetail(r.value.block, db.blocks[n]))
            && (r.Ok? && n !in db.blocks ==> r.value.source == FromRpc && DetailOf(r.value.block, answer.block))
  {
  }

  lemma StoredHeaderIsChains(w: World, db: Db, block: RpcBlock)
    requires SingleChain(w) && Agreement(w, db) && Knows(w, block) && block.number in db.blocks
    ensures db.blocks[block.number].(sync := UNSYNCED) == ToBlockModel(block)
  {
    var row := db.blocks[block.number];
    assert row.(sync := UNSYNCED).number == ToBlockModel(w.blocks[row.hash]).number;
    assert row.hash == block.hash;
  }

  /** Each field of the answer is the block's own. */
  predicate DetailOf(detail: BlockDetail, block: RpcBlock) {
    && detail.number == block.number && detail.hash == block.hash && detail.parentHash == block.parentHash
    && detail.timestamp == block.timestamp && detail.miner == block.miner
    && detail.gasLimit == block.gasLimit && detail.gasUsed == block.gasUsed && detail.txCount == |block.txs|
  }

  /**
   * Over a fixed chain, in every state reachable by interleaved calls, the answer from the store equals the answer
   * mapped straight from the node in every field but the source tag.
   */
  lemma CacheIsTransparent(w: World, full: bool, startBlock: uint64, events: seq<Event>, block: RpcBlock)
    requires SingleChain(w) && Knows(w, block)
    ensures var db := Run(ChainNode(w, !full), startBlock, INIT, events).db;
            var answer := QueryBlock(db, block.number, true, Fetched(block));
            && answer.Ok?
            && answer.value.block == MapRpcBlockToQueryResult(block).block
            && DetailOf(answer.value.block, block)
            && (answer.value.source == FromStore <==> block.number in db.blocks)
  {
    AlwaysOnChain(w, full, startBlock, events);
    var db := Run(ChainNode(w, !full), startBlock, INIT, events).db;
    if block.number in db.blocks {
      StoredHeaderIsChains(w, db, block);
      var row := db.blocks[block.number];
      assert row.(sync := UNSYNCED).hash == row.hash && row.(sync := UNSYNCED).txCount == row.txCount;
    }
  }

  // ---- Completed blocks over a fixed chain ----

  /** The row of the transaction at position i of the block, with the chain's receipt. */
  function FinalRow(w: World, block: RpcBlock, i: nat): TxRow
    requires i < |block.txs| && block.txs[i].sender.Some? && block.txs[i].hash in w.receipts
  {
    var receipt := w.receipts[block.txs[i].hash];
    ToTransactionModel(block, block.txs[i], i, block.txs[i].sender.value).WithReceipt(receipt.status, receipt.gasUsed)
  }

  predicate FinalTxStored(w: World, db: Db, block: RpcBlock, i: nat)
    requires i < |block.txs|
  {
    var h := block.txs[i].hash;
    block.txs[i].sender.Some? && h in w.receipts && h in db.txs && db.txs[h] == FinalRow(w, block, i)
  }

  /** Block n is stored as the chain has it, with exactly its transactions, each carrying its receipt. */
  ghost predicate CompleteOnChain(w: World, db: Db, n: uint64) {
    n in db.blocks && db.blocks[n].hash in w.blocks &&
    var block := w.blocks[db.blocks[n].hash];
    && block.number == n
    && db.blocks[n].(sync := UNSYNCED) == ToBlockModel(block)
    && (forall i | 0 <= i < |block.txs| :: FinalTxStored(w, db, block, i))
    && (forall h | h in db.txs && db.txs[h].blockNumber == n ::
          db.txs[h].txIndex < |block.txs| && block.txs[db.txs[h].txIndex].hash == h)
  }

  lemma FilledIsComplete(w: World, db: Db, n: uint64)
    requires SingleChain(w) && Agreement(w, db) && ReceiptsFromChain(w, db) && n in db.blocks && NoneMissing(db, n)
    ensures CompleteOnChain(w, db, n)
  {
    var row := db.blocks[n];
    var block := w.blocks[row.hash];
    assert row.(sync := UNSYNCED).number == ToBlockModel(block).number;
    assert BodyStored(db, n, block);
    forall i | 0 <= i < |block.txs|
      ensures FinalTxStored(w, db, block, i)
    {
      assert BodyTxStored(db, n, block, i);
      var tx := db.txs[block.txs[i].hash];
      assert TxRowAgrees(w, db, tx);
      assert ReceiptFromChain(w, tx);
    }
    forall h | h in db.txs && db.txs[h].blockNumber == n
      ensures db.txs[h].txIndex < |block.txs| && block.txs[db.txs[h].txIndex].hash == h
    {
      assert TxRowAgrees(w, db, db.txs[h]);
      assert db.txs[h].WithoutReceipt().hash == h;
    }
  }

  /**
   * Under any interleaving over a fixed chain, whose node may fail at any time but never answers "receipt not found",
   * every completed block has exactly the chain's transactions at indices 0..TxCount-1, each with its receipt.
   */
  lemma CompletedBlocksAreComplete(w: World, startBlock: uint64, events: seq<Event>, n: uint64)
    requires SingleChain(w)
    ensures var db := Run(ChainNode(w, false), startBlock, INIT, events).db;
            n in db.blocks && Completed(db.blocks[n]) ==> CompleteOnChain(w, db, n)
  {
    AlwaysOnChain(w, true, startBlock, events);
    var db := Run(ChainNode(w, false), startBlock, INIT, events).db;
    if n in db.blocks && Completed(db.blocks[n]) {
      FilledIsComplete(w, db, n);
    }
  }
}
