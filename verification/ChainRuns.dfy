/**
 * Interleaved calls over one fixed chain, against a node that may fail at any time. `full` says that the node never
 * answers "receipt not found"; then a completed block has all its receipts.
 */
module ChainRuns {
  import opened Types
  import opened Models
  import opened Mapper
  import opened Store
  import opened Sync
  import opened Consistency
  import opened SerialCall
  import opened CatchUp
  import opened Interleaving

  predicate ReceiptFromChain(w: World, tx: TxRow) {
    || (tx.receiptStatus.None? && tx.receiptGasUsed.None?)
    || (tx.hash in w.receipts && tx == tx.WithReceipt(w.receipts[tx.hash].status, w.receipts[tx.hash].gasUsed))
  }

  predicate NoneMissing(db: Db, n: uint64) {
    forall h | h in db.txs && db.txs[h].blockNumber == n :: !db.txs[h].LacksReceipt()
  }

  /** Every row of block n that lacks a receipt is still in the list. */
  predicate Covered(db: Db, n: uint64, rows: seq<TxRow>) {
    forall h | h in db.txs && db.txs[h].blockNumber == n && db.txs[h].LacksReceipt() ::
      exists i :: 0 <= i < |rows| && rows[i].hash == h
  }

  ghost predicate ReceiptsFromChain(w: World, db: Db) {
    forall h | h in db.txs :: ReceiptFromChain(w, db.txs[h])
  }

  ghost predicate CompletedFilled(db: Db) {
    forall n | n in db.blocks && Completed(db.blocks[n]) :: NoneMissing(db, n)
  }

  ghost predicate StoreOnChain(w: World, full: bool, db: Db) {
    Agreement(w, db) && Shapes(db) && ReceiptsFromChain(w, db) && (full ==> CompletedFilled(db))
  }

  predicate CallOnChain(w: World, full: bool, db: Db, call: Call) {
    match call.pc
    case ReadingBlock(block) => Knows(w, block)
    case ReadingParent(block) => Knows(w, block)
    case ReadingTxs(block) => Knows(w, block) && SendersRecovered(block)
    case Inserting(block) => Knows(w, block) && SendersRecovered(block) && block.number == call.n
    case ListingRows => call.n in db.blocks
    case AskingReceipt(rows) => rows != [] && call.n in db.blocks && (full ==> Covered(db, call.n, rows))
    case StoringReceipt(rows, receipt) =>
      rows != [] && call.n in db.blocks && (full ==> Covered(db, call.n, rows))
      && rows[0].hash in w.receipts && receipt == w.receipts[rows[0].hash]
    case MarkingSynced => call.n in db.blocks && (full ==> NoneMissing(db, call.n))
    case MarkingFailed(_) => call.n in db.blocks
    case _ => true
  }

  /** The block a call carries has the number it was asked for. */
  predicate CarriesItsNumber(call: Call) {
    match call.pc
    case ReadingBlock(block) => block.number == call.n
    case ReadingParent(block) => block.number == call.n
    case ReadingTxs(block) => block.number == call.n
    case _ => true
  }

  ghost predicate OnChain(w: World, full: bool, s: State) {
    && StoreOnChain(w, full, s.db)
    && forall i | 0 <= i < |s.calls| :: CallOnChain(w, full, s.db, s.calls[i]) && CarriesItsNumber(s.calls[i])
  }

  // ---- Other calls are not disturbed ----

  /** Once block n is stored no transaction is added at n, and none loses its receipt. */
  lemma StoredBlockSettled(w: World, db: Db, db': Db, n: uint64)
    requires WellFormed(w) && Agreement(w, db) && Agreement(w, db') && Grows(db, db') && n in db.blocks
    ensures forall h | h in db'.txs && db'.txs[h].blockNumber == n ::
              h in db.txs && db.txs[h].blockNumber == n && (db'.txs[h].LacksReceipt() ==> db.txs[h].LacksReceipt())
  {
    assert BodyStored(db, n, w.blocks[db.blocks[n].hash]);
    forall h | h in db'.txs && db'.txs[h].blockNumber == n
      ensures h in db.txs && db.txs[h].blockNumber == n
    {
      var row := db'.txs[h];
      assert TxRowAgrees(w, db', row);
      assert row.WithoutReceipt().hash == h;
      assert db'.blocks[n].hash == db.blocks[n].hash;
      assert BodyTxStored(db, n, w.blocks[row.blockHash], row.txIndex);
    }
  }

  lemma CallOnChainStable(w: World, full: bool, db: Db, db': Db, call: Call)
    requires WellFormed(w) && Agreement(w, db) && Agreement(w, db') && Grows(db, db')
    requires CallOnChain(w, full, db, call)
    ensures CallOnChain(w, full, db', call)
  {
    if call.n in db.blocks {
      StoredBlockSettled(w, db, db', call.n);
    }
  }

  // ---- One step ----

  lemma InsertOnChain(w: World, full: bool, db: Db, block: RpcBlock)
    requires SingleChain(w) && StoreOnChain(w, full, db) && Knows(w, block) && Insertable(block)
    ensures StoreOnChain(w, full, InsertFetched(db, block)) && block.number in InsertFetched(db, block).blocks
  {
    if block.number in db.blocks {
      var row := db.blocks[block.number];
      assert row.(sync := UNSYNCED).number == ToBlockModel(w.blocks[row.hash]).number;
      assert row.hash == block.hash;
    } else {
      NewOnChain(w, db, block);
    }
    InsertKeepsAgreement(w, db, block);
    if block.number in db.blocks {
      InsertStoredAgain(w, db, block);
    } else {
      InsertNew(w, db, block);
      RowsNameBlocks(w, db);
      AddedFilled(w, full, db, InsertFetched(db, block), block);
    }
  }

  lemma RowsNameBlocks(w: World, db: Db)
    requires RowsAgree(w, db)
    ensures forall h | h in db.txs :: db.txs[h].blockNumber in db.blocks
  {
    assert forall h | h in db.txs :: TxRowAgrees(w, db, db.txs[h]);
  }

  lemma AddedFilled(w: World, full: bool, db: Db, db': Db, block: RpcBlock)
    requires SendersRecovered(block) && block.number !in db.blocks && Added(db, db', block)
    requires forall h | h in db.txs :: db.txs[h].blockNumber in db.blocks
    requires Shapes(db) && ReceiptsFromChain(w, db) && (full ==> CompletedFilled(db))
    ensures Shapes(db') && ReceiptsFromChain(w, db') && (full ==> CompletedFilled(db'))
  {
    var rows := TransactionModels(block);
    forall h | h in db'.txs && h !in db.txs
      ensures db'.txs[h].blockNumber == block.number && block.txs != []
      ensures db'.txs[h].receiptStatus.None? && db'.txs[h].receiptGasUsed.None?
    {
      var i :| 0 <= i < |rows| && db'.txs[h] == rows[i];
    }
    forall n | full && n in db'.blocks && Completed(db'.blocks[n])
      ensures NoneMissing(db', n)
    {
      assert n in db.blocks ==> NoneMissing(db, n);
      assert n == block.number ==> block.txs == [];
    }
  }

  lemma StoreReceiptOnChain(w: World, full: bool, db: Db, h: Hash)
    requires StoreOnChain(w, full, db) && h in db.txs && h in w.receipts
    ensures StoreOnChain(w, full, UpdateReceipt(db, h, w.receipts[h].status, w.receipts[h].gasUsed))
  {
    var db' := UpdateReceipt(db, h, w.receipts[h].status, w.receipts[h].gasUsed);
    UpdateReceiptSameRows(db, h, w.receipts[h].status, w.receipts[h].gasUsed);
    SameRowsAgree(w, db, db');
    forall n | full && n in db'.blocks && Completed(db'.blocks[n])
      ensures NoneMissing(db', n)
    {
      assert NoneMissing(db, n);
    }
  }

  lemma SetSyncOnChain(w: World, full: bool, db: Db, n: uint64, sync: SyncColumns)
    requires StoreOnChain(w, full, db) && ShapeOk(sync)
    requires full && sync.status == CompletedStatus ==> NoneMissing(db, n)
    ensures StoreOnChain(w, full, SetSync(db, n, sync))
  {
    var db' := SetSync(db, n, sync);
    SetSyncSameRows(db, n, sync);
    SameRowsAgree(w, db, db');
    SetSyncFilled(full, db, n, sync);
    assert db'.txs == db.txs;
  }

  lemma SetSyncFilled(full: bool, db: Db, n: uint64, sync: SyncColumns)
    requires Shapes(db) && (full ==> CompletedFilled(db)) && ShapeOk(sync)
    requires full && sync.status == CompletedStatus ==> NoneMissing(db, n)
    ensures Shapes(SetSync(db, n, sync)) && (full ==> CompletedFilled(SetSync(db, n, sync)))
  {
    var db' := SetSync(db, n, sync);
    forall m | full && m in db'.blocks && Completed(db'.blocks[m])
      ensures NoneMissing(db', m)
    {
      assert NoneMissing(db, m);
    }
  }

  lemma MarksOnChain(w: World, full: bool, db: Db, n: uint64, reason: Error)
    requires StoreOnChain(w, full, db) && n in db.blocks
    ensures (full ==> NoneMissing(db, n)) ==> StoreOnChain(w, full, MarkReceiptsSynced(db, n))
    ensures StoreOnChain(w, full, MarkReceiptsSyncFailed(db, n, reason))
  {
    assert ShapeOk(db.blocks[n].sync);
    if full ==> NoneMissing(db, n) {
      SetSyncOnChain(w, full, db, n, db.blocks[n].sync.(receiptsSynced := true, status := CompletedStatus, lastSyncError := None));
    }
    SetSyncOnChain(w, full, db, n, db.blocks[n].sync.(receiptsSynced := false, status := ReceiptsFailed, lastSyncError := Some(reason)));
  }

  lemma StepOnChain(w: World, full: bool, startBlock: uint64, db: Db, call: Call, answer: Answer)
    requires SingleChain(w) && StoreOnChain(w, full, db) && CallOnChain(w, full, db, call) && CarriesItsNumber(call)
    requires Permits(ChainNode(w, !full), call, answer)
    ensures StoreOnChain(w, full, StepCall(startBlock, db, call, answer).db)
  {
    hide SingleChain, StoreOnChain;
    var db' := StepCall(startBlock, db, call, answer).db;
    if db' != db {
      match call.pc
      case Inserting(block) => InsertOnChain(w, full, db, block);
      case StoringReceipt(rows, receipt) => StoreReceiptOnChain(w, full, db, rows[0].hash);
      case MarkingSynced => MarksOnChain(w, full, db, call.n, DbFailure);
      case MarkingFailed(reason) => MarksOnChain(w, full, db, call.n, reason);
    }
  }

  lemma ListingCovers(db: Db, n: uint64, rows: seq<TxRow>)
    requires IsListing(db, n, rows)
    ensures Covered(db, n, rows)
  {
    forall h | h in db.txs && db.txs[h].blockNumber == n && db.txs[h].LacksReceipt()
      ensures exists i :: 0 <= i < |rows| && rows[i].hash == h
    {
      assert db.txs[h] in MissingRows(db, n);
      assert db.txs[h] in rows;
    }
  }

  lemma StoredRowDropsOut(db: Db, db': Db, n: uint64, rows: seq<TxRow>)
    requires rows != [] && Covered(db, n, rows)
    requires db'.txs.Keys == db.txs.Keys
    requires forall h | h in db.txs ::
               db'.txs[h].blockNumber == db.txs[h].blockNumber && (db'.txs[h].LacksReceipt() ==> db.txs[h].LacksReceipt())
    requires rows[0].hash in db'.txs && !db'.txs[rows[0].hash].LacksReceipt()
    ensures Covered(db', n, rows[1..])
    ensures rows[1..] == [] ==> NoneMissing(db', n)
  {
    forall h | h in db'.txs && db'.txs[h].blockNumber == n && db'.txs[h].LacksReceipt()
      ensures exists i :: 0 <= i < |rows[1..]| && rows[1..][i].hash == h
    {
      assert h in db.txs;
      var i :| 0 <= i < |rows| && rows[i].hash == h;
      assert rows[1..][i - 1].hash == h;
    }
  }

  lemma InsertingStep(w: World, full: bool, startBlock: uint64, db: Db, call: Call, answer: Answer)
    requires SingleChain(w) && StoreOnChain(w, full, db) && CallOnChain(w, full, db, call) && call.pc.Inserting?
    ensures var move := StepCall(startBlock, db, call, answer); CallOnChain(w, full, move.db, Call(call.n, move.pc))
  {
    if !answer.Fails? && call.pc.block.number < TWO_63 {
      InsertOnChain(w, full, db, call.pc.block);
      assert StepCall(startBlock, db, call, answer).db == InsertFetched(db, call.pc.block);
    }
  }

  lemma StoringStep(w: World, full: bool, startBlock: uint64, db: Db, call: Call, answer: Answer)
    requires CallOnChain(w, full, db, call) && call.pc.StoringReceipt?
    ensures var move := StepCall(startBlock, db, call, answer); CallOnChain(w, full, move.db, Call(call.n, move.pc))
  {
    var rows := call.pc.rows;
    var move := StepCall(startBlock, db, call, answer);
    if full && !answer.Fails? && rows[0].hash in db.txs {
      StoredRowDropsOut(db, move.db, call.n, rows);
    }
  }

  lemma ListingStep(w: World, full: bool, startBlock: uint64, db: Db, call: Call, answer: Answer)
    requires CallOnChain(w, full, db, call) && call.pc.ListingRows?
    ensures var move := StepCall(startBlock, db, call, answer); CallOnChain(w, full, move.db, Call(call.n, move.pc))
  {
    if answer.Listed? && IsListing(db, call.n, answer.rows) {
      ListingCovers(db, call.n, answer.rows);
    }
  }

  lemma AskingStep(w: World, full: bool, startBlock: uint64, db: Db, call: Call, answer: Answer)
    requires CallOnChain(w, full, db, call) && call.pc.AskingReceipt? && Permits(ChainNode(w, !full), call, answer)
    ensures var move := StepCall(startBlock, db, call, answer); CallOnChain(w, full, move.db, Call(call.n, move.pc))
  {
  }

  /** Up to the insert a call carries a block of the chain, with the number it was asked for. */
  lemma EarlyStep(w: World, full: bool, startBlock: uint64, db: Db, call: Call, answer: Answer)
    requires CallOnChain(w, full, db, call) && CarriesItsNumber(call) && Permits(ChainNode(w, !full), call, answer)
    requires call.pc.Fetching? || call.pc.ReadingBlock? || call.pc.ReadingParent? || call.pc.ReadingTxs?
    ensures var move := StepCall(startBlock, db, call, answer); CallOnChain(w, full, move.db, Call(call.n, move.pc))
  {
  }

  lemma StepKeepsNumber(w: World, full: bool, startBlock: uint64, db: Db, call: Call, answer: Answer)
    requires CarriesItsNumber(call) && Permits(ChainNode(w, !full), call, answer)
    ensures CarriesItsNumber(Call(call.n, StepCall(startBlock, db, call, answer).pc))
  {
  }

  lemma StepCallOnChain(w: World, full: bool, startBlock: uint64, db: Db, call: Call, answer: Answer)
    requires SingleChain(w) && StoreOnChain(w, full, db) && CallOnChain(w, full, db, call) && CarriesItsNumber(call)
    requires Permits(ChainNode(w, !full), call, answer)
    ensures var move := StepCall(startBlock, db, call, answer);
            CallOnChain(w, full, move.db, Call(call.n, move.pc)) && CarriesItsNumber(Call(call.n, move.pc))
  {
    hide SingleChain, StoreOnChain;
    StepKeepsNumber(w, full, startBlock, db, call, answer);
    match call.pc
    case Inserting(block) => InsertingStep(w, full, startBlock, db, call, answer);
    case StoringReceipt(rows, receipt) => StoringStep(w, full, startBlock, db, call, answer);
    case ListingRows => ListingStep(w, full, startBlock, db, call, answer);
    case AskingReceipt(rows) => AskingStep(w, full, startBlock, db, call, answer);
    case MarkingSynced =>
    case MarkingFailed(reason) =>
    case Done(err) =>
    case _ => EarlyStep(w, full, startBlock, db, call, answer);
  }

  lemma ApplyOnChain(w: World, full: bool, startBlock: uint64, s: State, ev: Event)
    requires SingleChain(w) && OnChain(w, full, s)
    ensures OnChain(w, full, Apply(ChainNode(w, !full), startBlock, s, ev))
  {
    if ev.Advance? && ev.id < |s.calls| && Permits(ChainNode(w, !full), s.calls[ev.id], ev.answer) {
      var call := s.calls[ev.id];
      var move := StepCall(startBlock, s.db, call, ev.answer);
      StepGrows(startBlock, s.db, call, ev.answer);
      StepOnChain(w, full, startBlock, s.db, call, ev.answer);
      StepCallOnChain(w, full, startBlock, s.db, call, ev.answer);
      OthersOnChain(w, full, s.db, move.db, s.calls);
    }
  }

  lemma OthersOnChain(w: World, full: bool, db: Db, db': Db, calls: seq<Call>)
    requires WellFormed(w) && Agreement(w, db) && Agreement(w, db') && Grows(db, db')
    requires forall i | 0 <= i < |calls| :: CallOnChain(w, full, db, calls[i])
    ensures forall i | 0 <= i < |calls| :: CallOnChain(w, full, db', calls[i])
  {
    forall i | 0 <= i < |calls|
      ensures CallOnChain(w, full, db', calls[i])
    {
      CallOnChainStable(w, full, db, db', calls[i]);
    }
  }

  lemma {:induction false} AlwaysOnChain(w: World, full: bool, startBlock: uint64, events: seq<Event>)
    requires SingleChain(w)
    ensures OnChain(w, full, Run(ChainNode(w, !full), startBlock, INIT, events))
  {
    if events == [] {
      EmptyAgrees(w);
    } else {
      var before := events[..|events| - 1];
      AlwaysOnChain(w, full, startBlock, before);
      ApplyOnChain(w, full, startBlock, Run(ChainNode(w, !full), startBlock, INIT, before), events[|events| - 1]);
    }
  }
}
