/** The decisions of block synchronisation, and one whole call of SyncBlockToDB as a function. */
module Sync {
  import opened Types
  import opened Models
  import opened Mapper
  import opened Store
  import opened Ordering

  // ---- Decisions ----

  datatype Verdict = Accept | Reject(error: Error) | AskParent

  function JudgeExisting(existing: Option<BlockRow>, row: BlockRow): Verdict {
    match existing
    case Some(stored) => if stored.hash == row.hash then Accept else Reject(ReorgDetected)
    case None => if row.number > 0 then AskParent else Accept
  }

  function JudgeParent(parent: Option<BlockRow>, row: BlockRow, startBlock: uint64): Option<Error> {
    match parent
    case None => if row.number == startBlock then None else Some(ChainDiscontinuity)
    case Some(stored) => if row.parentHash == stored.hash then None else Some(ChainDiscontinuity)
  }

  function BlockAt(db: Db, n: uint64): Option<BlockRow> {
    if n in db.blocks then Some(db.blocks[n]) else None
  }

  predicate SendersRecovered(block: RpcBlock) {
    forall i | 0 <= i < |block.txs| :: block.txs[i].sender.Some?
  }

  /** The rows a block's body becomes: position i of the body is tx_index i. */
  function TransactionModels(block: RpcBlock): (rows: seq<TxRow>)
    requires SendersRecovered(block)
    ensures |rows| == |block.txs|
    ensures forall i | 0 <= i < |rows| :: rows[i] == ToTransactionModel(block, block.txs[i], i, block.txs[i].sender.value)
  {
    seq(|block.txs|, i requires 0 <= i < |block.txs| =>
      ToTransactionModel(block, block.txs[i], i, block.txs[i].sender.value))
  }

  predicate SamePosition(a: TxRow, b: TxRow) {
    a.blockNumber == b.blockNumber && a.blockHash == b.blockHash && a.txIndex == b.txIndex
  }

  /** A transaction already stored must already sit where the new block puts it. */
  predicate TransactionsAgree(txs: map<Hash, TxRow>, rows: seq<TxRow>) {
    forall i | 0 <= i < |rows| && rows[i].hash in txs :: SamePosition(txs[rows[i].hash], rows[i])
  }

  function InitialSync(txCount: nat): SyncColumns {
    if txCount == 0 then SyncColumns(true, true, CompletedStatus, None)
    else SyncColumns(true, false, TransactionsSynced, None)
  }

  function InsertedRow(block: RpcBlock): BlockRow {
    ToBlockModel(block).(sync := InitialSync(|block.txs|))
  }

  /** The senders are known, and the number fits its column. */
  predicate Insertable(block: RpcBlock) {
    SendersRecovered(block) && block.number < TWO_63
  }

  function InsertFetched(db: Db, block: RpcBlock): Db
    requires Insertable(block)
  {
    InsertBlockWithTransactions(db, InsertedRow(block), TransactionModels(block))
  }

  predicate ReceiptMatches(tx: TxRow, receipt: Option<Receipt>) {
    && receipt.Some?
    && receipt.value.txHash == tx.hash
    && receipt.value.blockNumber.Some?
    && Wrap64(receipt.value.blockNumber.value) == tx.blockNumber
    && receipt.value.blockHash == tx.blockHash
  }

  // ---- What the outside world answers ----

  datatype FetchAnswer = Fetched(block: RpcBlock) | NoSuchBlock | FetchFailed

  datatype ReceiptAnswer = NoReceipt | ReceiptFailed | Answered(receipt: Option<Receipt>)

  datatype Op =
    | ReadBlock | ReadParent | ReadTxs | InsertRows | ListMissing | StoreReceipt(hash: Hash) | MarkSynced | MarkFailed

  /**
   * Every answer one call may receive: from the node, and for each database operation whether it succeeds. A call
   * performs each operation at most once, so a value of this type is any behaviour of the outside world at all.
   */
  datatype Env = Env(fetch: uint64 -> FetchAnswer, up: Op -> bool, receipt: Hash -> ReceiptAnswer)

  datatype Outcome = Outcome(db: Db, err: Option<Error>)

  // ---- One call ----

  function ValidateBlock(startBlock: uint64, db: Db, row: BlockRow, env: Env): Option<Error> {
    if !env.up(ReadBlock) then Some(DbFailure)
    else
      match JudgeExisting(BlockAt(db, row.number), row)
      case Accept => None
      case Reject(e) => Some(e)
      case AskParent =>
        if !env.up(ReadParent) then Some(DbFailure)
        else JudgeParent(BlockAt(db, row.number - 1), row, startBlock)
  }

  function ValidateTransactions(db: Db, rows: seq<TxRow>, env: Env): Option<Error> {
    if rows == [] then None
    else if !env.up(ReadTxs) then Some(DbFailure)
    else if TransactionsAgree(db.txs, rows) then None
    else Some(ChainDataConflict)
  }

  /** Everything before the first write: the fetched block, if it may be inserted. */
  function Prepare(startBlock: uint64, db: Db, n: uint64, env: Env): (r: Result<RpcBlock>)
    ensures r.Ok? ==> SendersRecovered(r.value) && env.fetch(n) == Fetched(r.value)
  {
    match env.fetch(n)
    case NoSuchBlock => Err(BlockNotFound)
    case FetchFailed => Err(RpcFailure)
    case Fetched(block) =>
      match ValidateBlock(startBlock, db, ToBlockModel(block), env)
      case Some(e) => Err(e)
      case None =>
        if !SendersRecovered(block) then Err(SenderUnrecovered)
        else
          match ValidateTransactions(db, TransactionModels(block), env)
          case Some(e) => Err(e)
          case None => Ok(block)
  }

  /** The receipt loop over the listed rows. */
  function SyncReceipts(db: Db, rows: seq<TxRow>, env: Env): Outcome
    decreases |rows|
  {
    if rows == [] then Outcome(db, None)
    else
      var tx := rows[0];
      match env.receipt(tx.hash)
      case NoReceipt => SyncReceipts(db, rows[1..], env)
      case ReceiptFailed => Outcome(db, Some(RpcFailure))
      case Answered(receipt) =>
        if !ReceiptMatches(tx, receipt) then Outcome(db, Some(ReceiptMismatch))
        else if !env.up(StoreReceipt(tx.hash)) then Outcome(db, Some(DbFailure))
        else if tx.hash !in db.txs then Outcome(db, Some(TxNotFound))
        else SyncReceipts(UpdateReceipt(db, tx.hash, receipt.value.status, receipt.value.gasUsed), rows[1..], env)
  }

  function SyncBlockTransactionReceipts(db: Db, n: uint64, env: Env): Outcome {
    if !env.up(ListMissing) then Outcome(db, Some(DbFailure))
    else SyncReceipts(db, MissingReceipts(db, n), env)
  }

  /** The mark that follows the receipt loop. */
  function MarkOutcome(loop: Outcome, n: uint64, env: Env): Outcome {
    match loop.err
    case Some(e) =>
      Outcome(if env.up(MarkFailed) then MarkReceiptsSyncFailed(loop.db, n, e) else loop.db, Some(e))
    case None =>
      if !env.up(MarkSynced) then Outcome(loop.db, Some(DbFailure))
      else if n !in loop.db.blocks then Outcome(loop.db, Some(BlockNotFound))
      else Outcome(MarkReceiptsSynced(loop.db, n), None)
  }

  /** Everything after the insert of a block that has transactions. */
  function FinishReceipts(db: Db, n: uint64, env: Env): Outcome {
    MarkOutcome(SyncBlockTransactionReceipts(db, n, env), n, env)
  }

  function SyncBlock(startBlock: uint64, db: Db, n: uint64, env: Env): Outcome {
    match Prepare(startBlock, db, n, env)
    case Err(e) => Outcome(db, Some(e))
    case Ok(block) =>
      if !env.up(InsertRows) || block.number >= TWO_63 then Outcome(db, Some(DbFailure))
      else
        var inserted := InsertFetched(db, block);
        if block.txs == [] then Outcome(inserted, None) else FinishReceipts(inserted, n, env)
  }

  // ---- The receipt loop ----

  /** A row with the receipt the node gives for it, if it gives one that matches. */
  function Fill(tx: TxRow, env: Env): TxRow {
    match env.receipt(tx.hash)
    case Answered(receipt) =>
      if ReceiptMatches(tx, receipt) then tx.WithReceipt(receipt.value.status, receipt.value.gasUsed) else tx
    case _ => tx
  }

  function FillAll(txs: map<Hash, TxRow>, hashes: set<Hash>, env: Env): map<Hash, TxRow> {
    map h | h in txs :: if h in hashes then Fill(txs[h], env) else txs[h]
  }

  /** The loop gets past a row that the node knows no receipt for, or that gets a matching one. */
  predicate Passes(tx: TxRow, env: Env) {
    match env.receipt(tx.hash)
    case NoReceipt => true
    case ReceiptFailed => false
    case Answered(receipt) => ReceiptMatches(tx, receipt)
  }

  /** The loop stops at this row: no usable answer, or a receipt that could not be stored. */
  predicate StopsAt(tx: TxRow, env: Env) {
    !Passes(tx, env) || (env.receipt(tx.hash).Answered? && !env.up(StoreReceipt(tx.hash)))
  }

  function StopReason(tx: TxRow, env: Env): Error {
    if env.receipt(tx.hash).ReceiptFailed? then RpcFailure else if !Passes(tx, env) then ReceiptMismatch else DbFailure
  }

  function Hashes(rows: seq<TxRow>): set<Hash> {
    set i | 0 <= i < |rows| :: rows[i].hash
  }

  ghost predicate Listing(txs: map<Hash, TxRow>, rows: seq<TxRow>) {
    && (forall i | 0 <= i < |rows| :: rows[i].hash in txs && txs[rows[i].hash] == rows[i])
    && (forall i, j | 0 <= i < j < |rows| :: rows[i].hash != rows[j].hash)
  }

  lemma FillFirst(txs: map<Hash, TxRow>, rows: seq<TxRow>, k: nat, env: Env)
    requires Listing(txs, rows) && 0 < k <= |rows|
    ensures var txs' := txs[rows[0].hash := Fill(rows[0], env)];
            && Listing(txs', rows[1..])
            && FillAll(txs', Hashes(rows[1..][..k - 1]), env) == FillAll(txs, Hashes(rows[..k]), env)
  {
    var first, rest := rows[0].hash, rows[1..][..k - 1];
    assert forall i | 0 <= i < |rest| :: rest[i] == rows[..k][i + 1];
    assert Hashes(rows[..k]) == {first} + Hashes(rest) by {
      assert rows[..k][0].hash == first;
      assert forall i | 0 < i < k :: rows[..k][i] == rest[i - 1];
    }
    assert first !in Hashes(rest);
  }

  /**
   * How far the loop came: the first k rows are passed and filled, every other transaction and every block is
   * untouched, and the loop stopped before the end exactly when it returned an error, which is that of row k.
   */
  lemma {:induction false} ReceiptLoopProgress(db: Db, rows: seq<TxRow>, env: Env) returns (k: nat)
    requires Listing(db.txs, rows)
    ensures k <= |rows|
    ensures SyncReceipts(db, rows, env).err.None? <==> k == |rows|
    ensures forall i | 0 <= i < k :: !StopsAt(rows[i], env)
    ensures k < |rows| ==> StopsAt(rows[k], env) && SyncReceipts(db, rows, env).err == Some(StopReason(rows[k], env))
    ensures SyncReceipts(db, rows, env).db == db.(txs := FillAll(db.txs, Hashes(rows[..k]), env))
    decreases |rows|
  {
    if rows == [] {
      k := 0;
      FillNothing(db.txs, env);
    } else {
      var tx := rows[0];
      if StopsAt(tx, env) {
        k := 0;
        FillNothing(db.txs, env);
      } else {
        FillFirst(db.txs, rows, 1, env);
        var db': Db := db.(txs := db.txs[tx.hash := Fill(tx, env)]);
        assert env.receipt(tx.hash).NoReceipt? ==> db'.txs == db.txs;
        var k' := ReceiptLoopProgress(db', rows[1..], env);
        k := k' + 1;
        FillFirst(db.txs, rows, k, env);
      }
    }
  }

  lemma MissingReceiptsListing(db: Db, n: uint64)
    ensures Listing(db.txs, MissingReceipts(db, n))
    ensures Hashes(MissingReceipts(db, n)) == set h | h in db.txs && db.txs[h].blockNumber == n && db.txs[h].LacksReceipt()
  {
    var rows := MissingReceipts(db, n);
    forall i | 0 <= i < |rows|
      ensures rows[i].hash in db.txs && db.txs[rows[i].hash] == rows[i]
      ensures rows[i].blockNumber == n && rows[i].LacksReceipt()
    {
      assert rows[i] in MissingRows(db, n);
    }
    forall i, j | 0 <= i < j < |rows|
      ensures rows[i].hash != rows[j].hash
    {
      assert TxBefore(rows[i], rows[j]);
    }
    forall h | h in db.txs && db.txs[h].blockNumber == n && db.txs[h].LacksReceipt()
      ensures h in Hashes(rows)
    {
      assert db.txs[h] in MissingRows(db, n);
      assert db.txs[h] in rows;
    }
  }

  lemma FillNothing(txs: map<Hash, TxRow>, env: Env)
    ensures FillAll(txs, {}, env) == txs
  {
  }

  /** The loop of one block, stated on the tables. */
  lemma BlockReceipts(db: Db, n: uint64, env: Env) returns (filled: set<Hash>)
    ensures SyncBlockTransactionReceipts(db, n, env).db == db.(txs := FillAll(db.txs, filled, env))
    ensures SyncBlockTransactionReceipts(db, n, env).err.None? ==> filled == Hashes(MissingReceipts(db, n))
    ensures forall h | h in filled :: h in db.txs && db.txs[h].blockNumber == n && db.txs[h].LacksReceipt() && Passes(db.txs[h], env)
  {
    hide StopReason, MissingReceipts, MissingRows, SyncReceipts, Passes;
    if env.up(ListMissing) {
      var rows := MissingReceipts(db, n);
      MissingReceiptsListing(db, n);
      var k := ReceiptLoopProgress(db, rows, env);
      filled := Hashes(rows[..k]);
      assert k == |rows| ==> rows[..k] == rows;
      PrefixHashes(rows, k);
      forall h | h in filled
        ensures h in db.txs && Passes(db.txs[h], env)
      {
        var i :| 0 <= i < k && rows[..k][i].hash == h;
        assert rows[i].hash == h && !StopsAt(rows[i], env);
      }
    } else {
      filled := {};
      FillNothing(db.txs, env);
    }
  }

  lemma PrefixHashes(rows: seq<TxRow>, k: nat)
    requires k <= |rows|
    ensures Hashes(rows[..k]) <= Hashes(rows)
  {
    forall i | 0 <= i < k
      ensures rows[..k][i].hash in Hashes(rows)
    {
      assert rows[..k][i] == rows[i];
    }
  }

  /**
   * When the loop of a block returns nil, the rows of that block still without a receipt are exactly the rows for
   * which the node answered "receipt not found" during this call.
   */
  lemma ReceiptLoopNil(db: Db, n: uint64, env: Env)
    requires SyncBlockTransactionReceipts(db, n, env).err.None?
    ensures var after := SyncBlockTransactionReceipts(db, n, env).db;
            forall h | h in after.txs && after.txs[h].blockNumber == n ::
              after.txs[h].LacksReceipt() <==> h in db.txs && db.txs[h].LacksReceipt() && env.receipt(h).NoReceipt?
  {
    var filled := BlockReceipts(db, n, env);
    MissingReceiptsListing(db, n);
  }
}
