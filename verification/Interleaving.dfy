/**
 * Any number of SyncBlockToDB calls at once. Each call is a program counter; between two of its database or node
 * operations every other call may move. A run is a sequence of events, and every event carries what the outside
 * world answers, so statements over all event sequences are statements over all interleavings.
 */
module Interleaving {
  import opened Types
  import opened Models
  import opened Mapper
  import opened Store
  import opened Sync
  import opened Consistency
  import opened SerialCall

  datatype Pc =
    | Fetching
    | ReadingBlock(block: RpcBlock)
    | ReadingParent(block: RpcBlock)
    | ReadingTxs(block: RpcBlock)
    | Inserting(block: RpcBlock)
    | ListingRows
    | AskingReceipt(rows: seq<TxRow>)
    | StoringReceipt(rows: seq<TxRow>, receipt: Receipt)
    | MarkingSynced
    | MarkingFailed(reason: Error)
    | Done(err: Option<Error>)

  datatype Call = Call(n: uint64, pc: Pc)

  /** `answered` remembers every receipt the node ever sent. */
  datatype State = State(db: Db, calls: seq<Call>, answered: set<Receipt>)

  /** `Lost`: the statement was carried out, but the call is told it failed, as when a timeout strikes after commit. */
  datatype Answer =
    | Fails | Lost | Goes | NotFound | GotBlock(block: RpcBlock) | Listed(rows: seq<TxRow>) | GotReceipt(receipt: Option<Receipt>)

  datatype Event = Start(n: uint64) | Advance(id: nat, answer: Answer)

  /** Either node may fail at any call. AnyNode answers anything; ChainNode answers from one world. */
  datatype Node = AnyNode | ChainNode(w: World, mayMissReceipts: bool)

  const INIT := State(EMPTY, [], {})

  // ---- One step of one call ----

  function RowsOf(block: RpcBlock): seq<TxRow> {
    if SendersRecovered(block) then TransactionModels(block) else []
  }

  function Validated(block: RpcBlock): Pc {
    if !SendersRecovered(block) then Done(Some(SenderUnrecovered))
    else if block.txs == [] then Inserting(block)
    else ReadingTxs(block)
  }

  function LoopHead(rows: seq<TxRow>): Pc {
    if rows == [] then MarkingSynced else AskingReceipt(rows)
  }

  /** Any order by tx_index of the rows that lack a receipt; rows with equal index may come either way. */
  ghost predicate IsListing(db: Db, n: uint64, rows: seq<TxRow>) {
    && (forall x :: x in rows <==> x in MissingRows(db, n))
    && (forall i, j | 0 <= i < j < |rows| :: rows[i].txIndex <= rows[j].txIndex && rows[i] != rows[j])
  }

  predicate Read(answer: Answer) {
    !answer.Fails? && !answer.Lost?
  }

  datatype Move = Move(db: Db, pc: Pc)

  ghost function StepCall(startBlock: uint64, db: Db, call: Call, answer: Answer): Move {
    var n := call.n;
    match call.pc
    case Fetching =>
      (match answer
       case GotBlock(block) => Move(db, ReadingBlock(block))
       case NotFound => Move(db, Done(Some(BlockNotFound)))
       case _ => Move(db, Done(Some(RpcFailure))))
    case ReadingBlock(block) =>
      if !Read(answer) then Move(db, Done(Some(DbFailure)))
      else
        (match JudgeExisting(BlockAt(db, block.number), ToBlockModel(block))
         case Accept => Move(db, Validated(block))
         case Reject(e) => Move(db, Done(Some(e)))
         case AskParent => Move(db, ReadingParent(block)))
    case ReadingParent(block) =>
      if !Read(answer) || block.number == 0 then Move(db, Done(Some(DbFailure)))
      else
        (match JudgeParent(BlockAt(db, block.number - 1), ToBlockModel(block), startBlock)
         case None => Move(db, Validated(block))
         case Some(e) => Move(db, Done(Some(e))))
    case ReadingTxs(block) =>
      if !Read(answer) then Move(db, Done(Some(DbFailure)))
      else if TransactionsAgree(db.txs, RowsOf(block)) then Move(db, Inserting(block))
      else Move(db, Done(Some(ChainDataConflict)))
    case Inserting(block) =>
      if answer.Fails? || block.number >= TWO_63 then Move(db, Done(Some(DbFailure)))
      else
        Move(InsertBlockWithTransactions(db, InsertedRow(block), RowsOf(block)),
             if answer.Lost? then Done(Some(DbFailure)) else if block.txs == [] then Done(None) else ListingRows)
    case ListingRows =>
      if answer.Listed? && IsListing(db, n, answer.rows) then Move(db, LoopHead(answer.rows))
      else Move(db, MarkingFailed(DbFailure))
    case AskingReceipt(rows) =>
      if rows == [] then Move(db, MarkingSynced)
      else
        (match answer
         case NotFound => Move(db, LoopHead(rows[1..]))
         case GotReceipt(receipt) =>
           if ReceiptMatches(rows[0], receipt) then Move(db, StoringReceipt(rows, receipt.value))
           else Move(db, MarkingFailed(ReceiptMismatch))
         case _ => Move(db, MarkingFailed(RpcFailure)))
    case StoringReceipt(rows, receipt) =>
      if answer.Fails? || rows == [] then Move(db, MarkingFailed(DbFailure))
      else if rows[0].hash !in db.txs then Move(db, MarkingFailed(TxNotFound))
      else
        Move(UpdateReceipt(db, rows[0].hash, receipt.status, receipt.gasUsed),
             if answer.Lost? then MarkingFailed(DbFailure) else LoopHead(rows[1..]))
    case MarkingSynced =>
      if answer.Fails? then Move(db, Done(Some(DbFailure)))
      else if n !in db.blocks then Move(db, Done(Some(BlockNotFound)))
      else Move(MarkReceiptsSynced(db, n), Done(if answer.Lost? then Some(DbFailure) else None))
    case MarkingFailed(reason) =>
      Move(if answer.Fails? then db else MarkReceiptsSyncFailed(db, n, reason), Done(Some(reason)))
    case Done(_) => Move(db, call.pc)
  }

  predicate Permits(node: Node, call: Call, answer: Answer) {
    match node
    case AnyNode => true
    case ChainNode(w, mayMiss) =>
      && (call.pc.Fetching? && answer.GotBlock? ==> Knows(w, answer.block) && answer.block.number == call.n)
      && (call.pc.AskingReceipt? && answer.NotFound? ==> mayMiss)
      && (call.pc.AskingReceipt? && call.pc.rows != [] && answer.GotReceipt? && answer.receipt.Some? ==>
            call.pc.rows[0].hash in w.receipts && answer.receipt.value == w.receipts[call.pc.rows[0].hash])
  }

  function Remember(answered: set<Receipt>, answer: Answer): set<Receipt> {
    if answer.GotReceipt? && answer.receipt.Some? then answered + {answer.receipt.value} else answered
  }

  /** An event that names no call, or an answer this node does not give, changes nothing. */
  ghost function Apply(node: Node, startBlock: uint64, s: State, ev: Event): State {
    match ev
    case Start(n) => s.(calls := s.calls + [Call(n, Fetching)])
    case Advance(id, answer) =>
      if id < |s.calls| && Permits(node, s.calls[id], answer) then
        var move := StepCall(startBlock, s.db, s.calls[id], answer);
        State(move.db, s.calls[id := s.calls[id].(pc := move.pc)], Remember(s.answered, answer))
      else s
  }

  ghost function Run(node: Node, startBlock: uint64, s: State, events: seq<Event>): State {
    if events == [] then s
    else Apply(node, startBlock, Run(node, startBlock, s, events[..|events| - 1]), events[|events| - 1])
  }

  lemma {:induction false} RunConcat(node: Node, startBlock: uint64, s: State, a: seq<Event>, b: seq<Event>)
    ensures Run(node, startBlock, s, a + b) == Run(node, startBlock, Run(node, startBlock, s, a), b)
  {
    if b == [] {
      assert a + b == a;
    } else {
      var last := |b| - 1;
      assert (a + b)[..|a + b| - 1] == a + b[..last];
      RunConcat(node, startBlock, s, a, b[..last]);
    }
  }

  // ---- The store only grows ----

  lemma StepGrows(startBlock: uint64, db: Db, call: Call, answer: Answer)
    ensures Grows(db, StepCall(startBlock, db, call, answer).db)
  {
    var db' := StepCall(startBlock, db, call, answer).db;
    if db' == db {
      GrowsRefl(db);
    } else {
      match call.pc
      case Inserting(block) =>
        InsertGrows(db, InsertedRow(block), RowsOf(block));
      case StoringReceipt(rows, receipt) =>
        UpdateReceiptGrows(db, rows[0].hash, receipt.status, receipt.gasUsed);
      case MarkingSynced =>
        MarksGrow(db, call.n, DbFailure);
      case MarkingFailed(reason) =>
        MarksGrow(db, call.n, reason);
    }
  }

  /** Under any interleaving, whatever the node answers, no stored number ever changes its hash or loses its row. */
  lemma {:induction false} RunGrows(node: Node, startBlock: uint64, s: State, events: seq<Event>)
    ensures Grows(s.db, Run(node, startBlock, s, events).db)
    ensures s.answered <= Run(node, startBlock, s, events).answered
  {
    GrowsRefl(s.db);
    if events == [] {
    } else {
      var ev := events[|events| - 1];
      var before := events[..|events| - 1];
      RunGrows(node, startBlock, s, before);
      var mid := Run(node, startBlock, s, before);
      GrowsRefl(mid.db);
      if ev.Advance? && ev.id < |mid.calls| {
        StepGrows(startBlock, mid.db, mid.calls[ev.id], ev.answer);
      }
      GrowsTrans(s.db, mid.db, Apply(node, startBlock, mid, ev).db);
    }
  }

  // ---- Safety under any interleaving and any node ----

  /** Each stored block other than 0 and startBlock has its predecessor stored, with the parent hash it names. */
  ghost predicate Linked(startBlock: uint64, db: Db) {
    forall n | n in db.blocks && n != 0 && n != startBlock ::
      n - 1 in db.blocks && db.blocks[n - 1].hash == db.blocks[n].parentHash
  }

  /** No block is stored at two heights. */
  ghost predicate HashesUnique(db: Db) {
    forall m, n | m in db.blocks && n in db.blocks && db.blocks[m].hash == db.blocks[n].hash :: m == n
  }

  /** The receipt names this transaction, this block hash and, modulo 2^64, this block number. */
  predicate BelongsTo(r: Receipt, tx: TxRow) {
    r.txHash == tx.hash && r.blockHash == tx.blockHash && r.blockNumber.Some? && r.blockNumber.value % TWO_64 == tx.blockNumber
  }

  /** A receipt's two columns are set together, from a receipt the node sent for this very row. */
  ghost predicate FromAnswer(tx: TxRow, answered: set<Receipt>) {
    || (tx.receiptStatus.None? && tx.receiptGasUsed.None?)
    || exists r ::
         && r in answered && BelongsTo(r, tx)
         && tx.receiptStatus == Some(r.status) && tx.receiptGasUsed == Some(r.gasUsed)
  }

  ghost predicate Provenance(db: Db, answered: set<Receipt>) {
    forall h | h in db.txs :: FromAnswer(db.txs[h], answered)
  }

  /** What validation saw stays true until the insert. */
  predicate Cleared(startBlock: uint64, db: Db, block: RpcBlock) {
    || block.number in db.blocks
    || block.number == 0
    || block.number == startBlock
    || (block.number - 1 in db.blocks && db.blocks[block.number - 1].hash == block.parentHash)
  }

  /** The listed rows are still where they were listed. */
  predicate Placed(db: Db, rows: seq<TxRow>) {
    forall i | 0 <= i < |rows| ::
      rows[i].hash in db.txs && db.txs[rows[i].hash].WithoutReceipt() == rows[i].WithoutReceipt()
  }

  predicate CallSafe(startBlock: uint64, db: Db, answered: set<Receipt>, pc: Pc) {
    match pc
    case ReadingTxs(block) => Cleared(startBlock, db, block)
    case Inserting(block) => Cleared(startBlock, db, block)
    case AskingReceipt(rows) => rows != [] && Placed(db, rows)
    case StoringReceipt(rows, receipt) =>
      rows != [] && Placed(db, rows) && receipt in answered && ReceiptMatches(rows[0], Some(receipt))
    case _ => true
  }

  ghost predicate Safe(startBlock: uint64, s: State) {
    && Shapes(s.db)
    && Linked(startBlock, s.db)
    && HashesUnique(s.db)
    && Provenance(s.db, s.answered)
    && forall i | 0 <= i < |s.calls| :: CallSafe(startBlock, s.db, s.answered, s.calls[i].pc)
  }

  lemma CallSafeStable(startBlock: uint64, db: Db, db': Db, answered: set<Receipt>, answered': set<Receipt>, pc: Pc)
    requires CallSafe(startBlock, db, answered, pc) && Grows(db, db') && answered <= answered'
    ensures CallSafe(startBlock, db', answered', pc)
  {
  }

  lemma StepKeepsShapes(startBlock: uint64, db: Db, call: Call, answer: Answer)
    requires Shapes(db)
    ensures Shapes(StepCall(startBlock, db, call, answer).db)
  {
  }

  lemma InsertKeepsLinks(startBlock: uint64, db: Db, block: RpcBlock)
    requires block.number < TWO_63
    requires Linked(startBlock, db) && Cleared(startBlock, db, block)
    ensures Linked(startBlock, InsertBlockWithTransactions(db, InsertedRow(block), RowsOf(block)))
  {
    var blocks := db.blocks;
    var blocks' := InsertBlock(blocks, InsertedRow(block));
    forall n | n in blocks' && n != 0 && n != startBlock
      ensures n - 1 in blocks' && blocks'[n - 1].hash == blocks'[n].parentHash
    {
      if n in blocks {
        assert n - 1 in blocks;
      }
    }
  }

  lemma SetSyncKeepsLinks(startBlock: uint64, db: Db, n: uint64, sync: SyncColumns)
    requires Linked(startBlock, db)
    ensures Linked(startBlock, SetSync(db, n, sync))
  {
  }

  lemma StepKeepsLinks(startBlock: uint64, db: Db, answered: set<Receipt>, call: Call, answer: Answer)
    requires Linked(startBlock, db) && CallSafe(startBlock, db, answered, call.pc)
    ensures Linked(startBlock, StepCall(startBlock, db, call, answer).db)
  {
    var db' := StepCall(startBlock, db, call, answer).db;
    if db'.blocks != db.blocks {
      match call.pc
      case Inserting(block) => InsertKeepsLinks(startBlock, db, block);
      case MarkingSynced => SetSyncKeepsLinks(startBlock, db, call.n, db'.blocks[call.n].sync);
      case MarkingFailed(reason) => SetSyncKeepsLinks(startBlock, db, call.n, db'.blocks[call.n].sync);
    }
  }

  lemma StepKeepsHashesUnique(startBlock: uint64, db: Db, call: Call, answer: Answer)
    requires HashesUnique(db)
    ensures HashesUnique(StepCall(startBlock, db, call, answer).db)
  {
    hide InsertTxs, RowsOf;
    if call.pc.Inserting? && call.pc.block.number < TWO_63 {
      InsertKeepsHashesUnique(db, InsertedRow(call.pc.block), RowsOf(call.pc.block));
    }
  }

  lemma InsertKeepsHashesUnique(db: Db, row: BlockRow, rows: seq<TxRow>)
    requires row.number < TWO_63
    requires HashesUnique(db)
    ensures HashesUnique(InsertBlockWithTransactions(db, row, rows))
  {
  }

  lemma StepKeepsProvenance(startBlock: uint64, db: Db, answered: set<Receipt>, call: Call, answer: Answer)
    requires Provenance(db, answered) && CallSafe(startBlock, db, answered, call.pc)
    ensures Provenance(StepCall(startBlock, db, call, answer).db, answered)
  {
    var db' := StepCall(startBlock, db, call, answer).db;
    forall h | h in db'.txs
      ensures FromAnswer(db'.txs[h], answered)
    {
      match call.pc
      case Inserting(block) =>
        assert h in db.txs ==> FromAnswer(db.txs[h], answered);
      case StoringReceipt(rows, receipt) =>
        assert FromAnswer(db.txs[h], answered);
        if h == rows[0].hash && !answer.Fails? {
          assert db.txs[h].WithoutReceipt() == rows[0].WithoutReceipt();
          assert BelongsTo(receipt, db'.txs[h]);
        }
      case _ =>
    }
  }

  lemma StoringKeepsCall(startBlock: uint64, db: Db, answered: set<Receipt>, call: Call, answer: Answer)
    requires CallSafe(startBlock, db, answered, call.pc) && call.pc.StoringReceipt?
    ensures var move := StepCall(startBlock, db, call, answer);
            CallSafe(startBlock, move.db, Remember(answered, answer), move.pc)
  {
    var rows := call.pc.rows;
    var move := StepCall(startBlock, db, call, answer);
    TailPlaced(db, rows);
    StepGrows(startBlock, db, call, answer);
    hide UpdateReceipt, Placed;
    var next := LoopHead(rows[1..]);
    assert CallSafe(startBlock, db, answered, next);
    CallSafeStable(startBlock, db, move.db, answered, Remember(answered, answer), next);
  }

  lemma StepKeepsCall(startBlock: uint64, db: Db, answered: set<Receipt>, call: Call, answer: Answer)
    requires CallSafe(startBlock, db, answered, call.pc)
    ensures var move := StepCall(startBlock, db, call, answer);
            CallSafe(startBlock, move.db, Remember(answered, answer), move.pc)
  {
    hide InsertBlockWithTransactions, UpdateReceipt, IsListing, TransactionsAgree, Placed;
    match call.pc
    case ListingRows =>
      if answer.Listed? && IsListing(db, call.n, answer.rows) {
        ListedPlaced(db, call.n, answer.rows);
      }
    case AskingReceipt(rows) =>
      TailPlaced(db, rows);
    case StoringReceipt(rows, receipt) =>
      StoringKeepsCall(startBlock, db, answered, call, answer);
    case _ =>
  }

  lemma ListedPlaced(db: Db, n: uint64, rows: seq<TxRow>)
    requires IsListing(db, n, rows)
    ensures Placed(db, rows)
  {
    forall i | 0 <= i < |rows|
      ensures rows[i].hash in db.txs && db.txs[rows[i].hash] == rows[i]
    {
      assert rows[i] in MissingRows(db, n);
    }
  }

  lemma TailPlaced(db: Db, rows: seq<TxRow>)
    requires Placed(db, rows) && rows != []
    ensures Placed(db, rows[1..])
  {
    assert forall i | 0 <= i < |rows[1..]| :: rows[1..][i] == rows[i + 1];
  }

  lemma ApplyKeepsSafe(node: Node, startBlock: uint64, s: State, ev: Event)
    requires Safe(startBlock, s)
    ensures Safe(startBlock, Apply(node, startBlock, s, ev))
  {
    if ev.Advance? && ev.id < |s.calls| && Permits(node, s.calls[ev.id], ev.answer) {
      var call := s.calls[ev.id];
      assert CallSafe(startBlock, s.db, s.answered, call.pc);
      var answered' := Remember(s.answered, ev.answer);
      StepGrows(startBlock, s.db, call, ev.answer);
      StepKeepsShapes(startBlock, s.db, call, ev.answer);
      StepKeepsLinks(startBlock, s.db, s.answered, call, ev.answer);
      StepKeepsHashesUnique(startBlock, s.db, call, ev.answer);
      StepKeepsProvenance(startBlock, s.db, s.answered, call, ev.answer);
      StepKeepsCall(startBlock, s.db, s.answered, call, ev.answer);
      var move := StepCall(startBlock, s.db, call, ev.answer);
      hide *;
      MoreAnswers(move.db, s.answered, answered');
      forall i | 0 <= i < |s.calls|
        ensures CallSafe(startBlock, move.db, answered', s.calls[i].pc)
      {
        CallSafeStable(startBlock, s.db, move.db, s.answered, answered', s.calls[i].pc);
      }
    }
  }

  lemma MoreAnswers(db: Db, answered: set<Receipt>, answered': set<Receipt>)
    requires Provenance(db, answered) && answered <= answered'
    ensures Provenance(db, answered')
  {
    forall h | h in db.txs
      ensures FromAnswer(db.txs[h], answered')
    {
      assert FromAnswer(db.txs[h], answered);
    }
  }

  /**
   * Every state reachable from the empty store, under any interleaving and any node: blocks are linked and stored once,
   * the status columns take three joint values, and every stored receipt comes from a matching answer of the node.
   */
  lemma {:induction false} AlwaysSafe(node: Node, startBlock: uint64, events: seq<Event>)
    ensures Safe(startBlock, Run(node, startBlock, INIT, events))
  {
    if events == [] {
    } else {
      var before := events[..|events| - 1];
      AlwaysSafe(node, startBlock, before);
      ApplyKeepsSafe(node, startBlock, Run(node, startBlock, INIT, before), events[|events| - 1]);
    }
  }
}
