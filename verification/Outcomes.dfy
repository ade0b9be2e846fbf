/**
 * What one serial call returns and what it leaves in the status columns, said of the store and the answers alone: the
 * call is refused for the first reason that applies, and otherwise its row records how the receipts went.
 */
module Outcomes {
  import opened Types
  import opened Models
  import opened Mapper
  import opened Ordering
  import opened Store
  import opened Sync
  import opened Consistency
  import opened SerialCall

  // ---- Refusals ----

  /** The existing row and, for a free height above 0, the parent row can be read. */
  predicate RowsReadable(db: Db, block: RpcBlock, env: Env) {
    env.up(ReadBlock) && (block.number !in db.blocks && block.number > 0 ==> env.up(ReadParent))
  }

  /** Why a call writes nothing, if it writes nothing: the first of these that applies. */
  function Refusal(startBlock: uint64, db: Db, n: uint64, env: Env): Option<Error> {
    match env.fetch(n)
    case NoSuchBlock => Some(BlockNotFound)
    case FetchFailed => Some(RpcFailure)
    case Fetched(block) =>
      if !RowsReadable(db, block, env) then Some(DbFailure)
      else if Reorganised(db, block) then Some(ReorgDetected)
      else if Detached(startBlock, db, block) then Some(ChainDiscontinuity)
      else if !SendersRecovered(block) then Some(SenderUnrecovered)
      else if block.txs != [] && !env.up(ReadTxs) then Some(DbFailure)
      else if BodyElsewhere(db, block) then Some(ChainDataConflict)
      else if !env.up(InsertRows) || block.number >= TWO_63 then Some(DbFailure)
      else None
  }

  /** A refused call returns that reason and leaves the whole store as it was. */
  lemma RefusedCall(w: World, startBlock: uint64, db: Db, n: uint64, env: Env)
    requires WellFormed(w) && Agreement(w, db) && FromWorld(w, env)
    ensures Refusal(startBlock, db, n, env).Some? ==>
              SyncBlock(startBlock, db, n, env) == Outcome(db, Refusal(startBlock, db, n, env))
    ensures Refusal(startBlock, db, n, env).None? <==> Prepare(startBlock, db, n, env).Ok? && env.up(InsertRows)
                                                       && env.fetch(n).block.number < TWO_63
  {
    hide Agreement, WellFormed, TransactionsAgree, FinishReceipts;
    if env.fetch(n).Fetched? {
      var block := env.fetch(n).block;
      if SendersRecovered(block) && !Reorganised(db, block) {
        SoundTransactionsIff(w, db, block);
        assert TransactionModels(block) == [] <==> block.txs == [];
      }
    }
  }

  // ---- The receipt loop ----

  /** The first row without a receipt, by tx_index, at which the loop stops. */
  ghost predicate FirstStop(db: Db, n: uint64, env: Env, tx: TxRow) {
    && tx in MissingRows(db, n) && StopsAt(tx, env)
    && forall y | y in MissingRows(db, n) && TxBefore(y, tx) :: !StopsAt(y, env)
  }

  ghost predicate LoopError(db: Db, n: uint64, env: Env, err: Option<Error>) {
    if !env.up(ListMissing) then err == Some(DbFailure)
    else if err.None? then forall tx | tx in MissingRows(db, n) :: !StopsAt(tx, env)
    else exists tx :: FirstStop(db, n, env, tx) && err == Some(StopReason(tx, env))
  }

  lemma FirstStopAt(db: Db, n: uint64, env: Env, rows: seq<TxRow>, k: nat)
    requires Sorted(rows, TxBefore) && StrictTotalOn(MissingRows(db, n), TxBefore)
    requires forall x :: x in rows <==> x in MissingRows(db, n)
    requires k < |rows| && StopsAt(rows[k], env) && forall i | 0 <= i < k :: !StopsAt(rows[i], env)
    ensures FirstStop(db, n, env, rows[k])
  {
    hide StopsAt, MissingRows, TxBefore;
    assert forall i | 0 <= i < |rows| :: rows[i] in rows;
    assert forall j | k < j < |rows| :: TxBefore(rows[k], rows[j]);
    forall y | y in MissingRows(db, n) && TxBefore(y, rows[k])
      ensures !StopsAt(y, env)
    {
      var i :| 0 <= i < |rows| && rows[i] == y;
      assert i < k;
    }
  }

  lemma LoopReturns(db: Db, n: uint64, env: Env)
    ensures LoopError(db, n, env, SyncBlockTransactionReceipts(db, n, env).err)
  {
    if env.up(ListMissing) {
      var rows := MissingReceipts(db, n);
      MissingReceiptsListing(db, n);
      TxOrderTotal(db, MissingRows(db, n));
      var k := ReceiptLoopProgress(db, rows, env);
      hide StopsAt, StopReason, Passes, SyncReceipts, FirstStop, MissingReceipts, MissingRows, StrictTotalOn, FillAll;
      if k < |rows| {
        FirstStopAt(db, n, env, rows, k);
      } else {
        assert forall tx | tx in MissingRows(db, n) :: tx in rows;
      }
    }
  }

  // ---- The status columns ----

  const COMPLETE := SyncColumns(true, true, CompletedStatus, None)

  const WAITING := SyncColumns(true, false, TransactionsSynced, None)

  /** The columns of row n between the insert and the mark. */
  function ColumnsBefore(db: Db, n: uint64): SyncColumns {
    if n in db.blocks then db.blocks[n].sync else WAITING
  }

  /**
   * A call that is not refused stores the fetched block at n, and its row ends in one of these ways. A block without
   * transactions is complete at once. Otherwise the loop decides: after a failure the row records it, after a success
   * it is complete, and when the mark itself fails the columns stay as they were after the insert.
   */
  ghost predicate EndsAs(db: Db, inserted: Db, n: uint64, txs: seq<RpcTx>, env: Env, err: Option<Error>, sync: SyncColumns) {
    if txs == [] then err.None? && sync == COMPLETE
    else if LoopFails(inserted, n, env) then
      && err.Some? && LoopError(inserted, n, env, err)
      && sync == if env.up(MarkFailed) then SyncColumns(true, false, ReceiptsFailed, err) else ColumnsBefore(db, n)
    else
      && err == (if env.up(MarkSynced) then None else Some(DbFailure))
      && sync == if env.up(MarkSynced) then COMPLETE else ColumnsBefore(db, n)
  }

  lemma AcceptedCall(w: World, startBlock: uint64, db: Db, n: uint64, env: Env)
    requires WellFormed(w) && SerialInv(w, db) && FromWorld(w, env) && RightAnswer(env, n)
    requires Refusal(startBlock, db, n, env).None?
    ensures Insertable(env.fetch(n).block)
    ensures var block := env.fetch(n).block; var out := SyncBlock(startBlock, db, n, env);
            && n in out.db.blocks && out.db.blocks[n].(sync := UNSYNCED) == ToBlockModel(block)
            && EndsAs(db, InsertFetched(db, block), n, block.txs, env, out.err, out.db.blocks[n].sync)
  {
    RefusedCall(w, startBlock, db, n, env);
    var block := Prepare(startBlock, db, n, env).value;
    PreparedFits(w, startBlock, db, n, env);
    var inserted := InsertFetched(db, block);
    assert SyncBlock(startBlock, db, n, env) ==
           if block.txs == [] then Outcome(inserted, None) else FinishReceipts(inserted, n, env);
    hide SyncBlock, Prepare, Refusal;
    AfterInsert(w, db, block, n, env);
  }

  lemma AfterInsert(w: World, db: Db, block: RpcBlock, n: uint64, env: Env)
    requires WellFormed(w) && SerialInv(w, db) && Knows(w, block) && Insertable(block) && Fits(db, block) && block.number == n
    ensures var inserted := InsertFetched(db, block);
            var out := if block.txs == [] then Outcome(inserted, None) else FinishReceipts(inserted, n, env);
            && n in out.db.blocks && out.db.blocks[n].(sync := UNSYNCED) == ToBlockModel(block)
            && EndsAs(db, inserted, n, block.txs, env, out.err, out.db.blocks[n].sync)
  {
    var inserted := InsertFetched(db, block);
    InsertKeepsShapes(db, block);
    InsertKeepsAgreement(w, db, block);
    InsertedColumns(w, db, block);
    HeaderOfRow(w, inserted, n);
    hide Agreement, WellFormed, InsertFetched, FinishReceipts, Fits, EmptyBlocksCompleted;
    if block.txs != [] {
      FinishColumns(db, inserted, n, block.txs, env);
      FinishReceiptsFrame(inserted, n, env);
      hide EndsAs;
    }
  }

  lemma HeaderOfRow(w: World, db: Db, n: uint64)
    requires Agreement(w, db) && n in db.blocks
    ensures db.blocks[n].hash in w.blocks && db.blocks[n].(sync := UNSYNCED) == ToBlockModel(w.blocks[db.blocks[n].hash])
  {
  }

  /** A new block with transactions waits for its receipts, a new block without any is complete. */
  lemma InsertedColumns(w: World, db: Db, block: RpcBlock)
    requires WellFormed(w) && SerialInv(w, db) && Knows(w, block) && Insertable(block) && Fits(db, block)
    ensures var db' := InsertFetched(db, block); var n := block.number;
            && n in db'.blocks && db'.blocks[n].hash == block.hash
            && db'.blocks[n].sync == if block.txs == [] then COMPLETE else ColumnsBefore(db, n)
  {
    InsertedRowStored(w, db, block);
    if block.number in db.blocks {
      InsertStoredAgain(w, db, block);
      assert db.blocks[block.number].(sync := UNSYNCED).txCount == |block.txs|;
    } else {
      InsertNew(w, db, block);
    }
  }

  lemma FinishColumns(db: Db, inserted: Db, n: uint64, txs: seq<RpcTx>, env: Env)
    requires txs != [] && n in inserted.blocks && inserted.blocks[n].sync == ColumnsBefore(db, n)
    requires ShapeOk(inserted.blocks[n].sync)
    ensures var out := FinishReceipts(inserted, n, env);
            n in out.db.blocks && EndsAs(db, inserted, n, txs, env, out.err, out.db.blocks[n].sync)
  {
    LoopReturns(inserted, n, env);
    LoopFailsIff(inserted, n, env);
    var filled := BlockReceipts(inserted, n, env);
    hide SyncBlockTransactionReceipts, FillAll, LoopFails, LoopError, ColumnsBefore;
  }

  /** Above all a failed call is recorded, on a new block as on an old one: the row says which error it was. */
  lemma FailedCallIsRecorded(w: World, startBlock: uint64, db: Db, n: uint64, env: Env)
    requires WellFormed(w) && SerialInv(w, db) && FromWorld(w, env) && RightAnswer(env, n)
    requires Refusal(startBlock, db, n, env).None?
    requires SyncBlock(startBlock, db, n, env).err.Some? && env.up(MarkFailed) && env.up(MarkSynced)
    ensures var out := SyncBlock(startBlock, db, n, env);
            n in out.db.blocks && out.db.blocks[n].sync == SyncColumns(true, false, ReceiptsFailed, out.err)
  {
    AcceptedCall(w, startBlock, db, n, env);
    hide SyncBlock, Refusal, LoopFails, LoopError;
  }
}
