/** What one call of SyncBlockToDB does when no other call runs beside it. */
module SerialCall {
  import opened Types
  import opened Models
  import opened Mapper
  import opened Store
  import opened Sync
  import opened Consistency

  /** The only three joint values of the status columns. */
  predicate ShapeOk(sync: SyncColumns) {
    || sync == SyncColumns(true, false, TransactionsSynced, None)
    || (sync.lastSyncError.Some? && sync == SyncColumns(true, false, ReceiptsFailed, sync.lastSyncError))
    || sync == SyncColumns(true, true, CompletedStatus, None)
  }

  ghost predicate Shapes(db: Db) {
    forall n | n in db.blocks :: ShapeOk(db.blocks[n].sync)
  }

  /** A row without transactions is completed: it is inserted so, and nothing undoes it. */
  ghost predicate EmptyBlocksCompleted(db: Db) {
    forall n | n in db.blocks && db.blocks[n].txCount == 0 :: Completed(db.blocks[n])
  }

  ghost predicate SerialInv(w: World, db: Db) {
    Agreement(w, db) && Shapes(db) && EmptyBlocksCompleted(db)
  }

  /** The node answers blocks of this world only. */
  ghost predicate FromWorld(w: World, env: Env) {
    forall n: uint64 | env.fetch(n).Fetched? :: Knows(w, env.fetch(n).block)
  }

  /** The node answers the block number it was asked for; the code does not check it. */
  ghost predicate RightNumber(env: Env) {
    forall n: uint64 | env.fetch(n).Fetched? :: env.fetch(n).block.number == n
  }

  /** The same for the one number a call asks about. */
  predicate RightAnswer(env: Env, n: uint64) {
    env.fetch(n).Fetched? ==> env.fetch(n).block.number == n
  }

  /** No row appears, and everything outside block n stays exactly as it was. */
  ghost predicate OnlyBlock(db: Db, db': Db, n: uint64) {
    && SameRows(db, db') && Grows(db, db')
    && (forall m | m in db.blocks && m != n :: db'.blocks[m] == db.blocks[m])
    && (forall h | h in db.txs && db.txs[h].blockNumber != n :: db'.txs[h] == db.txs[h])
  }

  // ---- After the insert ----

  lemma FillAllOnlyBlock(db: Db, n: uint64, filled: set<Hash>, env: Env)
    requires forall h | h in filled :: h in db.txs && db.txs[h].blockNumber == n
    ensures OnlyBlock(db, db.(txs := FillAll(db.txs, filled, env)), n)
  {
  }

  lemma SetSyncOnlyBlock(db: Db, n: uint64, sync: SyncColumns)
    ensures OnlyBlock(db, SetSync(db, n, sync), n)
  {
  }

  lemma OnlyBlockTrans(a: Db, b: Db, c: Db, n: uint64)
    requires OnlyBlock(a, b, n) && OnlyBlock(b, c, n)
    ensures OnlyBlock(a, c, n)
  {
    GrowsTrans(a, b, c);
    forall h | h in a.txs
      ensures c.txs[h].WithoutReceipt() == a.txs[h].WithoutReceipt()
      ensures a.txs[h].blockNumber != n ==> c.txs[h] == a.txs[h]
    {
      assert h in b.txs;
      assert b.txs[h].WithoutReceipt().blockNumber == a.txs[h].WithoutReceipt().blockNumber;
    }
  }

  /** The end of a call fills some rows of block n and sets the columns of row n. */
  lemma FinishReceiptsParts(db: Db, n: uint64, env: Env) returns (filled: Db, sync: SyncColumns)
    ensures OnlyBlock(db, filled, n)
    ensures FinishReceipts(db, n, env).db == filled || FinishReceipts(db, n, env).db == SetSync(filled, n, sync)
  {
    var hashes := BlockReceipts(db, n, env);
    FillAllOnlyBlock(db, n, hashes, env);
    filled := SyncBlockTransactionReceipts(db, n, env).db;
    if n in filled.blocks {
      sync := FinishReceipts(db, n, env).db.blocks[n].sync;
    } else {
      sync := UNSYNCED;
    }
  }

  lemma FinishReceiptsFrame(db: Db, n: uint64, env: Env)
    ensures OnlyBlock(db, FinishReceipts(db, n, env).db, n)
    ensures FinishReceipts(db, n, env).err.None? ==> n in db.blocks
  {
    var filled, sync := FinishReceiptsParts(db, n, env);
    SetSyncOnlyBlock(filled, n, sync);
    OnlyBlockTrans(db, filled, SetSync(filled, n, sync), n);
    var hashes := BlockReceipts(db, n, env);
  }

  /** On success the row is marked completed; on failure it is not, unless the failure could not be recorded. */
  lemma FinishReceiptsSync(db: Db, n: uint64, env: Env)
    requires n in db.blocks && ShapeOk(db.blocks[n].sync)
    ensures var out := FinishReceipts(db, n, env);
            && n in out.db.blocks
            && ShapeOk(out.db.blocks[n].sync)
            && (out.err.None? ==> Completed(out.db.blocks[n]))
            && (out.err.Some? ==> Completed(out.db.blocks[n]) ==> Completed(db.blocks[n]))
  {
    var filled := BlockReceipts(db, n, env);
  }

  lemma {:induction false} ReceiptErrors(db: Db, rows: seq<TxRow>, env: Env)
    ensures SyncReceipts(db, rows, env).err in {None, Some(RpcFailure), Some(ReceiptMismatch), Some(DbFailure), Some(TxNotFound)}
    decreases |rows|
  {
    if rows == [] {
    } else {
      var tx := rows[0];
      ReceiptErrors(db, rows[1..], env);
      match env.receipt(tx.hash)
      case Answered(Some(receipt)) =>
        ReceiptErrors(UpdateReceipt(db, tx.hash, receipt.status, receipt.gasUsed), rows[1..], env);
      case _ =>
    }
  }

  // ---- The whole call ----

  /** A validated block either is stored already or is new together with all its transactions. */
  lemma PreparedFits(w: World, startBlock: uint64, db: Db, n: uint64, env: Env)
    requires WellFormed(w) && Agreement(w, db) && Prepare(startBlock, db, n, env).Ok?
    ensures Fits(db, Prepare(startBlock, db, n, env).value)
  {
    var block := Prepare(startBlock, db, n, env).value;
    var rows := TransactionModels(block);
    if block.number !in db.blocks {
      assert forall i | 0 <= i < |rows| :: rows[i].hash == block.txs[i].hash && rows[i].blockNumber == block.number;
      assert forall h | h in db.txs :: TxRowAgrees(w, db, db.txs[h]);
      assert rows != [] ==> TransactionsAgree(db.txs, rows);
    }
  }

  lemma InsertKeepsShapes(db: Db, block: RpcBlock)
    requires Insertable(block)
    requires Shapes(db) && EmptyBlocksCompleted(db)
    ensures Shapes(InsertFetched(db, block)) && EmptyBlocksCompleted(InsertFetched(db, block))
  {
  }

  /** After a successful insert the stored row at the block's number is that block. */
  lemma InsertedRowStored(w: World, db: Db, block: RpcBlock)
    requires WellFormed(w) && Agreement(w, db) && Knows(w, block) && Insertable(block) && Fits(db, block)
    ensures var db' := InsertFetched(db, block);
            && block.number in db'.blocks && db'.blocks[block.number].hash == block.hash
            && db'.blocks[block.number].txCount == |block.txs|
  {
    if block.number in db.blocks {
      InsertStoredAgain(w, db, block);
      assert db.blocks[block.number].(sync := UNSYNCED).txCount == |block.txs|;
    } else {
      InsertNew(w, db, block);
    }
  }

  /** What every serial call keeps, whatever the node and the database answer. */
  lemma SyncBlockKeeps(w: World, startBlock: uint64, db: Db, n: uint64, env: Env)
    requires WellFormed(w) && SerialInv(w, db) && FromWorld(w, env) && RightAnswer(env, n)
    ensures SerialInv(w, SyncBlock(startBlock, db, n, env).db)
    ensures Grows(db, SyncBlock(startBlock, db, n, env).db)
  {
    var prepared := Prepare(startBlock, db, n, env);
    if prepared.Ok? && env.up(InsertRows) && prepared.value.number < TWO_63 {
      var block := prepared.value;
      PreparedFits(w, startBlock, db, n, env);
      InsertKeepsAgreement(w, db, block);
      InsertKeepsShapes(db, block);
      InsertGrows(db, InsertedRow(block), TransactionModels(block));
      InsertedRowStored(w, db, block);
      var inserted := InsertFetched(db, block);
      hide Agreement, Shapes, EmptyBlocksCompleted, InsertBlockWithTransactions, FinishReceipts, Grows, Prepare, Fits, InsertedRow;
      if block.txs != [] {
        FinishKeeps(w, inserted, n, env);
        GrowsTrans(db, inserted, FinishReceipts(inserted, n, env).db);
      }
    } else {
      GrowsRefl(db);
      hide SerialInv, Prepare, Grows;
    }
  }

  lemma FinishKeeps(w: World, db: Db, n: uint64, env: Env)
    requires SerialInv(w, db) && n in db.blocks && db.blocks[n].txCount != 0
    ensures SerialInv(w, FinishReceipts(db, n, env).db) && Grows(db, FinishReceipts(db, n, env).db)
  {
    FinishReceiptsFrame(db, n, env);
    FinishReceiptsSync(db, n, env);
    hide FinishReceipts, Agreement;
    var db' := FinishReceipts(db, n, env).db;
    SameRowsAgree(w, db, db');
    FrameKeepsShapes(db, db', n);
  }

  lemma FrameKeepsShapes(db: Db, db': Db, n: uint64)
    requires Shapes(db) && EmptyBlocksCompleted(db) && OnlyBlock(db, db', n)
    requires n in db.blocks && ShapeOk(db'.blocks[n].sync) && db.blocks[n].txCount != 0
    ensures Shapes(db') && EmptyBlocksCompleted(db')
  {
    forall m | m in db'.blocks
      ensures ShapeOk(db'.blocks[m].sync) && (db'.blocks[m].txCount == 0 ==> Completed(db'.blocks[m]))
    {
      assert m in db.blocks;
      assert db'.blocks[m].(sync := UNSYNCED).txCount == db.blocks[m].(sync := UNSYNCED).txCount;
      assert m == n || db'.blocks[m] == db.blocks[m];
    }
  }

  /** Row n holds the fetched hash and satisfies the completed filter. */
  predicate FetchedIsCompleted(db: Db, n: uint64, hash: Hash) {
    n in db.blocks && db.blocks[n].hash == hash && Completed(db.blocks[n])
  }

  /**
   * A call that returns nil leaves row n holding the fetched hash, completed, exactly when the node answered the
   * number it was asked for. The code does not compare the two.
   */
  lemma SuccessMeansCompleted(w: World, startBlock: uint64, db: Db, n: uint64, env: Env)
    requires WellFormed(w) && SerialInv(w, db) && FromWorld(w, env)
    requires SyncBlock(startBlock, db, n, env).err.None?
    ensures env.fetch(n).Fetched?
    ensures FetchedIsCompleted(SyncBlock(startBlock, db, n, env).db, n, env.fetch(n).block.hash)
            <==> env.fetch(n).block.number == n
  {
    var block := Prepare(startBlock, db, n, env).value;
    PreparedFits(w, startBlock, db, n, env);
    InsertKeepsShapes(db, block);
    InsertedRowStored(w, db, block);
    InsertKeepsAgreement(w, db, block);
    var inserted := InsertFetched(db, block);
    var db' := SyncBlock(startBlock, db, n, env).db;
    if block.txs != [] {
      FinishReceiptsFrame(inserted, n, env);
      SameRowsAgree(w, inserted, db');
    }
    hide Agreement, WellFormed, SyncBlock, Prepare, InsertFetched, FinishReceipts;
    if block.number == n {
      CompletedAtEnd(inserted, block, n, env);
    } else if n in db'.blocks {
      HashNamesNumber(w, db', n);
    }
  }

  lemma HashNamesNumber(w: World, db: Db, n: uint64)
    requires Agreement(w, db) && n in db.blocks
    ensures db.blocks[n].hash in w.blocks && w.blocks[db.blocks[n].hash].number == n
  {
    assert db.blocks[n].(sync := UNSYNCED).number == ToBlockModel(w.blocks[db.blocks[n].hash]).number;
  }

  /** The end of a successful call on a block that was just inserted. */
  lemma CompletedAtEnd(inserted: Db, block: RpcBlock, n: uint64, env: Env)
    requires n in inserted.blocks && inserted.blocks[n].hash == block.hash
    requires inserted.blocks[n].txCount == |block.txs| && Shapes(inserted) && EmptyBlocksCompleted(inserted)
    ensures block.txs == [] ==> FetchedIsCompleted(inserted, n, block.hash)
    ensures FinishReceipts(inserted, n, env).err.None? ==>
              FetchedIsCompleted(FinishReceipts(inserted, n, env).db, n, block.hash)
  {
    FinishReceiptsFrame(inserted, n, env);
    FinishReceiptsSync(inserted, n, env);
    var db' := FinishReceipts(inserted, n, env).db;
    assert db'.blocks[n].(sync := UNSYNCED).hash == inserted.blocks[n].(sync := UNSYNCED).hash;
  }

  /** The receipt a body transaction has, or gets during this call. */
  predicate HasOrGetsReceipt(db: Db, h: Hash, env: Env) {
    (h in db.txs && !db.txs[h].LacksReceipt()) || !env.receipt(h).NoReceipt?
  }

  /**
   * A call that returns nil has every receipt of its block exactly when the node did not answer "receipt not found"
   * for one that was missing.
   */
  lemma SuccessHasAllReceiptsIff(w: World, startBlock: uint64, db: Db, n: uint64, env: Env)
    requires WellFormed(w) && SerialInv(w, db) && FromWorld(w, env) && RightAnswer(env, n)
    requires SyncBlock(startBlock, db, n, env).err.None?
    ensures env.fetch(n).Fetched?
    ensures MissingRows(SyncBlock(startBlock, db, n, env).db, n) == {} <==>
            forall i | 0 <= i < |env.fetch(n).block.txs| :: HasOrGetsReceipt(db, env.fetch(n).block.txs[i].hash, env)
  {
    var block := Prepare(startBlock, db, n, env).value;
    var db' := SyncBlock(startBlock, db, n, env).db;
    SyncBlockKeeps(w, startBlock, db, n, env);
    SuccessMeansCompleted(w, startBlock, db, n, env);
    PreparedFits(w, startBlock, db, n, env);
    BlockHasAllReceipts(w, db', block);
    if block.txs != [] {
      BodyReceiptsAfter(w, db, block, n, env);
    }
  }

  lemma BodyReceiptsAfter(w: World, db: Db, block: RpcBlock, n: uint64, env: Env)
    requires WellFormed(w) && Agreement(w, db) && Knows(w, block) && Insertable(block) && Fits(db, block)
    requires block.number == n && FinishReceipts(InsertFetched(db, block), n, env).err.None?
    ensures var db' := FinishReceipts(InsertFetched(db, block), n, env).db;
            forall i | 0 <= i < |block.txs| ::
              block.txs[i].hash in db'.txs &&
              (!db'.txs[block.txs[i].hash].LacksReceipt() <==> HasOrGetsReceipt(db, block.txs[i].hash, env))
  {
    var inserted := InsertFetched(db, block);
    InsertKeepsAgreement(w, db, block);
    InsertedLacking(w, db, block);
    FinishedLacking(inserted, n, env);
    InsertedRowStored(w, db, block);
    assert BodyStored(inserted, n, block);
    LackingChain(db, inserted, FinishReceipts(inserted, n, env).db, block, n, env);
  }

  lemma LackingChain(db: Db, inserted: Db, db': Db, block: RpcBlock, n: uint64, env: Env)
    requires BodyStored(inserted, n, block)
    requires forall i | 0 <= i < |block.txs| ::
               var h := block.txs[i].hash;
               h in inserted.txs && (inserted.txs[h].LacksReceipt() <==> (h !in db.txs || db.txs[h].LacksReceipt()))
    requires forall h | h in inserted.txs && inserted.txs[h].blockNumber == n ::
               h in db'.txs && (db'.txs[h].LacksReceipt() <==> inserted.txs[h].LacksReceipt() && env.receipt(h).NoReceipt?)
    ensures forall i | 0 <= i < |block.txs| ::
              block.txs[i].hash in db'.txs &&
              (!db'.txs[block.txs[i].hash].LacksReceipt() <==> HasOrGetsReceipt(db, block.txs[i].hash, env))
  {
    forall i | 0 <= i < |block.txs|
      ensures block.txs[i].hash in db'.txs
      ensures !db'.txs[block.txs[i].hash].LacksReceipt() <==> HasOrGetsReceipt(db, block.txs[i].hash, env)
    {
      assert BodyTxStored(inserted, n, block, i);
    }
  }

  lemma FinishedLacking(db: Db, n: uint64, env: Env)
    requires FinishReceipts(db, n, env).err.None?
    ensures var db' := FinishReceipts(db, n, env).db;
            forall h | h in db.txs && db.txs[h].blockNumber == n ::
              h in db'.txs && (db'.txs[h].LacksReceipt() <==> db.txs[h].LacksReceipt() && env.receipt(h).NoReceipt?)
  {
    FinishReceiptsFrame(db, n, env);
    ReceiptLoopNil(db, n, env);
    var db' := FinishReceipts(db, n, env).db;
    assert db'.txs == SyncBlockTransactionReceipts(db, n, env).db.txs;
    forall h | h in db.txs && db.txs[h].blockNumber == n
      ensures h in db'.txs && db'.txs[h].blockNumber == n
    {
      assert db'.txs[h].WithoutReceipt().blockNumber == db.txs[h].WithoutReceipt().blockNumber;
    }
  }

  lemma InsertedLacking(w: World, db: Db, block: RpcBlock)
    requires WellFormed(w) && Agreement(w, db) && Knows(w, block) && Insertable(block) && Fits(db, block)
    ensures var db' := InsertFetched(db, block);
            forall i | 0 <= i < |block.txs| ::
              var h := block.txs[i].hash;
              h in db'.txs && (db'.txs[h].LacksReceipt() <==> (h !in db.txs || db.txs[h].LacksReceipt()))
  {
    var db' := InsertFetched(db, block);
    var rows := TransactionModels(block);
    if block.number in db.blocks {
      InsertStoredAgain(w, db, block);
      assert BodyStored(db, block.number, block);
      assert forall i | 0 <= i < |block.txs| :: BodyTxStored(db, block.number, block, i);
    } else {
      InsertNew(w, db, block);
      forall i | 0 <= i < |block.txs|
        ensures var h := block.txs[i].hash; h !in db.txs && h in db'.txs && db'.txs[h].LacksReceipt()
      {
        assert db'.txs[rows[i].hash] == rows[i];
      }
    }
  }

  lemma BlockHasAllReceipts(w: World, db: Db, block: RpcBlock)
    requires WellFormed(w) && Agreement(w, db) && Knows(w, block)
    requires block.number in db.blocks && db.blocks[block.number].hash == block.hash
    ensures MissingRows(db, block.number) == {} <==>
            forall i | 0 <= i < |block.txs| :: block.txs[i].hash in db.txs && !db.txs[block.txs[i].hash].LacksReceipt()
  {
    var n := block.number;
    forall r | r in MissingRows(db, n)
      ensures 0 <= r.txIndex < |block.txs| && block.txs[r.txIndex].hash == r.hash
    {
      assert TxRowAgrees(w, db, db.txs[r.hash]);
      assert r.WithoutReceipt().hash == r.hash;
    }
    assert BodyStored(db, n, block);
    forall i | 0 <= i < |block.txs|
      ensures BodyTxStored(db, n, block, i)
      ensures db.txs[block.txs[i].hash].LacksReceipt() ==> db.txs[block.txs[i].hash] in MissingRows(db, n)
    {
      assert BodyTxStored(db, n, block, i);
    }
    if MissingRows(db, n) != {} {
      var r :| r in MissingRows(db, n);
      assert db.txs[block.txs[r.txIndex].hash] == r;
    }
  }

  // ---- Calls that leave everything alone ----

  /** Reorg, discontinuity and data conflict are found before the first write. */
  lemma ConflictLeavesStoreUnchanged(startBlock: uint64, db: Db, n: uint64, env: Env)
    requires SyncBlock(startBlock, db, n, env).err in {Some(ReorgDetected), Some(ChainDiscontinuity), Some(ChainDataConflict)}
    ensures SyncBlock(startBlock, db, n, env).db == db
  {
    var prepared := Prepare(startBlock, db, n, env);
    if prepared.Ok? && prepared.value.txs != [] && prepared.value.number < TWO_63 {
      FinishErrors(InsertFetched(db, prepared.value), n, env);
    }
  }

  lemma FinishErrors(db: Db, n: uint64, env: Env)
    ensures FinishReceipts(db, n, env).err !in {Some(ReorgDetected), Some(ChainDiscontinuity), Some(ChainDataConflict)}
  {
    ReceiptErrors(db, MissingReceipts(db, n), env);
    hide SyncReceipts, MissingReceipts, MarkReceiptsSynced, MarkReceiptsSyncFailed;
  }

  /** Syncing a completed block with all its receipts again, against the same answer and without failures. */
  lemma ResyncChangesNothing(w: World, startBlock: uint64, db: Db, n: uint64, env: Env)
    requires WellFormed(w) && SerialInv(w, db) && FromWorld(w, env) && RightAnswer(env, n)
    requires n in db.blocks && Completed(db.blocks[n]) && MissingRows(db, n) == {}
    requires env.fetch(n).Fetched? && env.fetch(n).block.hash == db.blocks[n].hash
    requires forall op: Op :: env.up(op)
    ensures SyncBlock(startBlock, db, n, env) == Outcome(db, None)
  {
    var block := env.fetch(n).block;
    StoredSenders(w, db, n);
    var rows := TransactionModels(block);
    assert BodyStored(db, n, block);
    forall i | 0 <= i < |rows|
      ensures rows[i].hash in db.txs && SamePosition(db.txs[rows[i].hash], rows[i])
    {
      assert BodyTxStored(db, n, block, i);
      assert TxRowAgrees(w, db, db.txs[rows[i].hash]);
    }
    assert TransactionsAgree(db.txs, rows);
    assert Prepare(startBlock, db, n, env) == Ok(block);
    InsertStoredAgain(w, db, block);
    if block.txs != [] {
      assert MissingReceipts(db, n) == [];
      assert FinishReceipts(db, n, env).db == MarkReceiptsSynced(db, n);
      assert MarkReceiptsSynced(db, n).blocks == db.blocks;
    }
  }

  // ---- Exactly which blocks a call accepts ----

  /** Another block is stored at this height. */
  predicate Reorganised(db: Db, block: RpcBlock) {
    block.number in db.blocks && db.blocks[block.number].hash != block.hash
  }

  /** The height is free, and the block neither follows the stored parent nor opens the store. */
  predicate Detached(startBlock: uint64, db: Db, block: RpcBlock) {
    && block.number !in db.blocks && block.number > 0
    && if block.number - 1 in db.blocks then db.blocks[block.number - 1].hash != block.parentHash else block.number != startBlock
  }

  /** The height is free, but some transaction of the body is stored with another block. */
  predicate BodyElsewhere(db: Db, block: RpcBlock) {
    block.number !in db.blocks && exists i :: 0 <= i < |block.txs| && block.txs[i].hash in db.txs
  }

  lemma SoundTransactionsIff(w: World, db: Db, block: RpcBlock)
    requires WellFormed(w) && Agreement(w, db) && Knows(w, block) && SendersRecovered(block) && !Reorganised(db, block)
    ensures TransactionsAgree(db.txs, TransactionModels(block)) <==> !BodyElsewhere(db, block)
  {
    var rows := TransactionModels(block);
    assert forall i | 0 <= i < |rows| :: rows[i].hash == block.txs[i].hash && rows[i].blockNumber == block.number;
    if block.number in db.blocks {
      assert BodyStored(db, block.number, block);
      forall i | 0 <= i < |rows|
        ensures rows[i].hash in db.txs && SamePosition(db.txs[rows[i].hash], rows[i])
      {
        assert BodyTxStored(db, block.number, block, i);
        assert TxRowAgrees(w, db, db.txs[rows[i].hash]);
      }
    } else {
      assert forall h | h in db.txs :: TxRowAgrees(w, db, db.txs[h]);
    }
  }

  /**
   * While nothing fails, a call refuses a block for exactly one reason, in this order, and accepts every other block:
   * another block at its height, no stored parent to follow, an unrecovered sender, a transaction stored elsewhere.
   */
  lemma VerdictOfCall(w: World, startBlock: uint64, db: Db, n: uint64, env: Env)
    requires WellFormed(w) && Agreement(w, db) && FromWorld(w, env)
    requires env.fetch(n).Fetched? && forall op: Op :: env.up(op)
    ensures var block := env.fetch(n).block;
            var refused := Prepare(startBlock, db, n, env);
            var reorg, gap := Reorganised(db, block), Detached(startBlock, db, block);
            && (refused == Err(ReorgDetected) <==> reorg)
            && (refused == Err(ChainDiscontinuity) <==> gap)
            && (refused == Err(SenderUnrecovered) <==> !reorg && !gap && !SendersRecovered(block))
            && (refused == Err(ChainDataConflict) <==> !reorg && !gap && SendersRecovered(block) && BodyElsewhere(db, block))
            && (refused == Ok(block) <==> !reorg && !gap && SendersRecovered(block) && !BodyElsewhere(db, block))
  {
    var block := env.fetch(n).block;
    hide Agreement, WellFormed, TransactionsAgree;
    if SendersRecovered(block) && !Reorganised(db, block) {
      SoundTransactionsIff(w, db, block);
      assert TransactionModels(block) == [] ==> block.txs == [];
    }
  }

  /** Said of the store and the answers: the block fetched for n passes validation. */
  predicate Accepts(startBlock: uint64, db: Db, n: uint64, env: Env) {
    env.fetch(n).Fetched? &&
    var block := env.fetch(n).block;
    && env.up(ReadBlock)
    && (block.number !in db.blocks && block.number > 0 ==> env.up(ReadParent))
    && (block.txs != [] ==> env.up(ReadTxs))
    && !Reorganised(db, block) && !Detached(startBlock, db, block)
    && SendersRecovered(block) && !BodyElsewhere(db, block)
  }

  lemma AcceptsIff(w: World, startBlock: uint64, db: Db, n: uint64, env: Env)
    requires WellFormed(w) && Agreement(w, db) && FromWorld(w, env)
    ensures Prepare(startBlock, db, n, env).Ok? <==> Accepts(startBlock, db, n, env)
  {
    hide Agreement, WellFormed, TransactionsAgree;
    if env.fetch(n).Fetched? {
      var block := env.fetch(n).block;
      if SendersRecovered(block) && !Reorganised(db, block) {
        SoundTransactionsIff(w, db, block);
        assert TransactionModels(block) == [] <==> block.txs == [];
      }
    }
  }

  /** The receipt loop of block n fails: no listing, or a row that lacks a receipt and stops it. */
  ghost predicate LoopFails(db: Db, n: uint64, env: Env) {
    !env.up(ListMissing) || exists tx :: tx in MissingRows(db, n) && StopsAt(tx, env)
  }

  lemma LoopFailsIff(db: Db, n: uint64, env: Env)
    ensures SyncBlockTransactionReceipts(db, n, env).err.Some? <==> LoopFails(db, n, env)
  {
    hide StopsAt, StopReason, Passes, SyncReceipts;
    if env.up(ListMissing) {
      var rows := MissingReceipts(db, n);
      MissingReceiptsListing(db, n);
      var k := ReceiptLoopProgress(db, rows, env);
      assert forall i | 0 <= i < |rows| :: rows[i] in MissingRows(db, n);
      assert forall tx | tx in MissingRows(db, n) :: tx in rows;
    }
  }

  /** What a call on n must meet, in the store and in the answers, to take back that n is completed. */
  ghost predicate TakesBack(startBlock: uint64, db: Db, n: uint64, env: Env) {
    && Accepts(startBlock, db, n, env)
    && env.up(InsertRows) && env.fetch(n).block.number < TWO_63 && env.fetch(n).block.txs != []
    && LoopFails(db, n, env) && env.up(MarkFailed)
  }

  /**
   * A completed block loses that state exactly when a later call on it meets TakesBack; the row then records the
   * error of the call. The node may answer any block.
   */
  lemma CompletedUndoneIff(w: World, startBlock: uint64, db: Db, n: uint64, env: Env)
    requires WellFormed(w) && SerialInv(w, db) && FromWorld(w, env)
    requires n in db.blocks && Completed(db.blocks[n])
    ensures var out := SyncBlock(startBlock, db, n, env);
            && n in out.db.blocks
            && (!Completed(out.db.blocks[n]) <==> TakesBack(startBlock, db, n, env))
            && (!Completed(out.db.blocks[n]) ==>
                  out.err.Some? && out.db.blocks[n].sync == SyncColumns(true, false, ReceiptsFailed, out.err))
  {
    AcceptsIff(w, startBlock, db, n, env);
    var prepared := Prepare(startBlock, db, n, env);
    if prepared.Ok? && env.up(InsertRows) && prepared.value.number < TWO_63 {
      var block := prepared.value;
      PreparedFits(w, startBlock, db, n, env);
      InsertLeavesOthers(w, db, block, n);
      var inserted := InsertFetched(db, block);
      MarkUndoneIff(inserted, n, env);
      LoopFailsIff(inserted, n, env);
      hide Agreement, WellFormed, FinishReceipts, SyncBlockTransactionReceipts, InsertFetched, Prepare, Completed, Accepts, StopsAt;
    } else {
      hide Accepts, LoopFails, Agreement, WellFormed, Prepare;
    }
  }

  /** An accepted insert leaves a stored block and its rows without receipts as they were. */
  lemma InsertLeavesOthers(w: World, db: Db, block: RpcBlock, n: uint64)
    requires WellFormed(w) && Agreement(w, db) && Knows(w, block) && Insertable(block) && Fits(db, block)
    requires n in db.blocks
    ensures var db' := InsertFetched(db, block);
            n in db'.blocks && db'.blocks[n] == db.blocks[n] && MissingRows(db', n) == MissingRows(db, n)
  {
    var db' := InsertFetched(db, block);
    if block.number in db.blocks {
      InsertStoredAgain(w, db, block);
    } else {
      InsertNew(w, db, block);
      hide InsertFetched, Agreement, WellFormed, Fits;
      forall x
        ensures x in MissingRows(db', n) <==> x in MissingRows(db, n)
      {
        if x in db'.txs.Values && x.blockNumber == n {
          assert db'.txs[x.hash] == x;
          assert x.hash in db.txs;
        }
        if x in db.txs.Values {
          assert db'.txs[x.hash] == x;
        }
      }
    }
  }

  lemma MarkUndoneIff(db: Db, n: uint64, env: Env)
    requires n in db.blocks && Completed(db.blocks[n]) && ShapeOk(db.blocks[n].sync)
    ensures var out := FinishReceipts(db, n, env);
            && n in out.db.blocks
            && (!Completed(out.db.blocks[n]) <==> SyncBlockTransactionReceipts(db, n, env).err.Some? && env.up(MarkFailed))
            && (!Completed(out.db.blocks[n]) ==>
                  out.err.Some? && out.db.blocks[n].sync == SyncColumns(true, false, ReceiptsFailed, out.err))
  {
    var filled := BlockReceipts(db, n, env);
    hide SyncBlockTransactionReceipts, FillAll;
  }

  /** Block n with everything the chain has of it and a node that answers it; only the listing query fails. */
  function FailedListing(block: RpcBlock): Env {
    Env((n: uint64) => if n == block.number then Fetched(block) else NoSuchBlock, op => op != ListMissing, h => NoReceipt)
  }

  /** Any completed block with transactions, even with every receipt, is undone by one failed listing. */
  lemma OneFailedListingUndoes(w: World, startBlock: uint64, db: Db, n: uint64)
    requires WellFormed(w) && SerialInv(w, db)
    requires n in db.blocks && Completed(db.blocks[n]) && db.blocks[n].txCount > 0
    ensures db.blocks[n].hash in w.blocks
    ensures var env := FailedListing(w.blocks[db.blocks[n].hash]);
            var db' := SyncBlock(startBlock, db, n, env).db;
            && FromWorld(w, env) && RightNumber(env)
            && n in db'.blocks && !Completed(db'.blocks[n])
            && db' == SetSync(db, n, SyncColumns(true, false, ReceiptsFailed, Some(DbFailure)))
  {
    var block := w.blocks[db.blocks[n].hash];
    HashNamesNumber(w, db, n);
    StoredSenders(w, db, n);
    var env := FailedListing(block);
    InsertStoredAgain(w, db, block);
    AcceptsIff(w, startBlock, db, n, env);
    assert Accepts(startBlock, db, n, env);
    assert db.blocks[n].(sync := UNSYNCED).txCount == |block.txs|;
    assert ShapeOk(db.blocks[n].sync);
    hide Agreement, InsertFetched, Accepts, Prepare, FailedListing;
  }

  /** The senders of a stored block's transactions are known. */
  lemma StoredSenders(w: World, db: Db, n: uint64)
    requires WellFormed(w) && Agreement(w, db) && n in db.blocks
    ensures db.blocks[n].hash in w.blocks && SendersRecovered(w.blocks[db.blocks[n].hash])
  {
    var block := w.blocks[db.blocks[n].hash];
    assert BodyStored(db, n, block);
    forall i | 0 <= i < |block.txs|
      ensures block.txs[i].sender.Some?
    {
      assert BodyTxStored(db, n, block, i);
      assert TxRowAgrees(w, db, db.txs[block.txs[i].hash]);
    }
  }
}
