/** The two tables as a value, and what each statement sent to the database means on it. */
module Store {
  import opened Types
  import opened Models
  import opened Ordering

  /** Blocks are keyed by number, transactions by hash. */
  datatype Tables = Tables(blocks: map<uint64, BlockRow>, txs: map<Hash, TxRow>)

  /** The number column is a signed 64-bit integer: no larger number is ever stored. */
  predicate WellKeyed(t: Tables) {
    && (forall n | n in t.blocks :: t.blocks[n].number == n && n < TWO_63)
    && (forall h | h in t.txs :: t.txs[h].hash == h)
  }

  type Db = t: Tables | WellKeyed(t) witness Tables(map[], map[])

  const EMPTY: Db := Tables(map[], map[])

  // ---- Writes ----

  /** The two unique indexes on blocks: (chain_id, number) and (chain_id, hash). */
  predicate BlockConflicts(blocks: map<uint64, BlockRow>, row: BlockRow) {
    row.number in blocks || exists n :: n in blocks && blocks[n].hash == row.hash
  }

  function InsertBlock(blocks: map<uint64, BlockRow>, row: BlockRow): map<uint64, BlockRow> {
    if BlockConflicts(blocks, row) then blocks else blocks[row.number := row]
  }

  /** INSERT of many rows with ON CONFLICT DO NOTHING on the transaction hash. */
  function InsertTxs(txs: map<Hash, TxRow>, rows: seq<TxRow>): (r: map<Hash, TxRow>)
    ensures forall h | h in txs :: h in r && r[h] == txs[h]
    ensures forall h | h in r :: h in txs || exists i :: 0 <= i < |rows| && rows[i].hash == h && r[h] == rows[i]
    ensures forall i | 0 <= i < |rows| :: rows[i].hash in r
  {
    if rows == [] then txs
    else
      var r := InsertTxs(txs, rows[..|rows| - 1]);
      var last := rows[|rows| - 1];
      if last.hash in r then r else r[last.hash := last]
  }

  /** Of several new rows with one hash the first is kept. */
  lemma {:induction false} InsertTxsKeepsFirst(txs: map<Hash, TxRow>, rows: seq<TxRow>, i: nat)
    requires i < |rows| && rows[i].hash !in txs && forall j | 0 <= j < i :: rows[j].hash != rows[i].hash
    ensures rows[i].hash in InsertTxs(txs, rows) && InsertTxs(txs, rows)[rows[i].hash] == rows[i]
    decreases |rows|
  {
    hide InsertTxs;
    var front, last := rows[..|rows| - 1], |rows| - 1;
    InsertLast(txs, rows);
    if i < last {
      InsertTxsKeepsFirst(txs, front, i);
    } else {
      NotInserted(txs, front, rows[i].hash);
    }
  }

  lemma NotInserted(txs: map<Hash, TxRow>, rows: seq<TxRow>, h: Hash)
    requires h !in txs && forall i | 0 <= i < |rows| :: rows[i].hash != h
    ensures h !in InsertTxs(txs, rows)
  {
  }

  lemma InsertLast(txs: map<Hash, TxRow>, rows: seq<TxRow>)
    requires rows != []
    ensures var before, last := InsertTxs(txs, rows[..|rows| - 1]), rows[|rows| - 1];
            InsertTxs(txs, rows) == if last.hash in before then before else before[last.hash := last]
  {
  }

  /** One database transaction: both inserts happen or neither does. */
  function InsertBlockWithTransactions(db: Db, row: BlockRow, rows: seq<TxRow>): Db
    requires row.number < TWO_63
  {
    Tables(InsertBlock(db.blocks, row), InsertTxs(db.txs, rows))
  }

  function SetSync(db: Db, n: uint64, sync: SyncColumns): Db {
    if n in db.blocks then db.(blocks := db.blocks[n := db.blocks[n].(sync := sync)]) else db
  }

  function MarkReceiptsSynced(db: Db, n: uint64): Db {
    if n in db.blocks then
      SetSync(db, n, db.blocks[n].sync.(receiptsSynced := true, status := CompletedStatus, lastSyncError := None))
    else db
  }

  function MarkReceiptsSyncFailed(db: Db, n: uint64, reason: Error): Db {
    if n in db.blocks then
      SetSync(db, n, db.blocks[n].sync.(receiptsSynced := false, status := ReceiptsFailed, lastSyncError := Some(reason)))
    else db
  }

  function UpdateReceipt(db: Db, h: Hash, status: uint64, gasUsed: uint64): Db {
    if h in db.txs then db.(txs := db.txs[h := db.txs[h].WithReceipt(status, gasUsed)]) else db
  }

  // ---- Queries ----

  predicate NumberBefore(a: uint64, b: uint64) { a < b }

  predicate NumberAfter(a: uint64, b: uint64) { a > b }

  /** (block_number, tx_index). Rows that agree on both may come in any order; the hash settles it here. */
  predicate TxBefore(a: TxRow, b: TxRow) {
    || a.blockNumber < b.blockNumber
    || (a.blockNumber == b.blockNumber && a.txIndex < b.txIndex)
    || (a.blockNumber == b.blockNumber && a.txIndex == b.txIndex && a.hash < b.hash)
  }

  predicate TxAfter(a: TxRow, b: TxRow) { TxBefore(b, a) }

  lemma TxOrderTotal(db: Db, s: set<TxRow>)
    requires s <= db.txs.Values
    ensures StrictTotalOn(s, TxBefore) && StrictTotalOn(s, TxAfter)
  {
    forall x, y | x in s && y in s && x.hash == y.hash
      ensures x == y
    {
      assert x in db.txs.Values && y in db.txs.Values;
    }
  }

  function CompletedNumbers(db: Db): set<uint64> {
    set n | n in db.blocks && Completed(db.blocks[n])
  }

  /** SELECT MAX(number) over the completed rows; no row gives NULL. */
  function LatestFullySyncedBlockNumber(db: Db): (r: Option<uint64>)
    ensures r.None? <==> CompletedNumbers(db) == {}
    ensures r.Some? ==> r.value in CompletedNumbers(db)
    ensures r.Some? ==> forall n | n in CompletedNumbers(db) :: n <= r.value
  {
    var s := CompletedNumbers(db);
    if s == {} then None
    else
      var m := LeastOf(s, NumberAfter);
      assert forall n | n in s :: n == m || NumberAfter(m, n);
      Some(m)
  }

  /** ORDER BY number DESC, first row. */
  function LatestCompletedBlock(db: Db): Option<BlockRow> {
    var numbers := SortBy(CompletedNumbers(db), NumberAfter);
    if numbers == [] then None
    else
      assert numbers[0] in CompletedNumbers(db);
      Some(db.blocks[numbers[0]])
  }

  function Take<T>(s: seq<T>, limit: nat): (r: seq<T>)
    ensures r <= s && (|r| == limit <= |s| || r == s)
    ensures |r| <= limit
  {
    if limit < |s| then s[..limit] else s
  }

  function CompletedFrom(db: Db, from: uint64): (r: seq<uint64>)
    ensures Sorted(r, NumberBefore)
    ensures forall n :: n in r <==> n in db.blocks && Completed(db.blocks[n]) && from <= n
  {
    var s := set n | n in CompletedNumbers(db) && from <= n;
    SortBy(s, NumberBefore)
  }

  /** The first `limit` completed rows from `from` upward. */
  function WalletCompletedBlockRows(db: Db, from: uint64, limit: nat): (r: seq<BlockRow>)
    ensures |r| == |Take(CompletedFrom(db, from), limit)|
    ensures forall i | 0 <= i < |r| :: r[i].number == Take(CompletedFrom(db, from), limit)[i]
    ensures forall i | 0 <= i < |r| :: r[i].number in db.blocks && r[i] == db.blocks[r[i].number] && Completed(r[i]) && from <= r[i].number
  {
    var numbers := Take(CompletedFrom(db, from), limit);
    assert forall i | 0 <= i < |numbers| :: numbers[i] in CompletedFrom(db, from);
    seq(|numbers|, i requires 0 <= i < |numbers| => db.blocks[numbers[i]])
  }

  function TxRowsAt(db: Db, n: uint64): set<TxRow> {
    set r | r in db.txs.Values && r.blockNumber == n
  }

  function MissingRows(db: Db, n: uint64): set<TxRow> {
    set r | r in db.txs.Values && r.blockNumber == n && r.LacksReceipt()
  }

  /** The rows of a block that still lack a receipt, by tx_index. */
  function MissingReceipts(db: Db, n: uint64): (r: seq<TxRow>)
    ensures |r| == |MissingRows(db, n)|
    ensures forall x :: x in r <==> x in MissingRows(db, n)
    ensures Sorted(r, TxBefore)
  {
    TxOrderTotal(db, MissingRows(db, n));
    SortBy(MissingRows(db, n), TxBefore)
  }

  /** WHERE hash IN (..); the statement asks for no order. */
  function RowsWithHash(db: Db, hashes: seq<Hash>): (r: seq<TxRow>)
    ensures forall x :: x in r <==> x in db.txs.Values && x.hash in hashes
  {
    var s := set r | r in db.txs.Values && r.hash in hashes;
    TxOrderTotal(db, s);
    SortBy(s, TxBefore)
  }

  function WalletCompletedTransactionRows(db: Db, numbers: seq<uint64>): (r: seq<TxRow>)
    ensures forall x :: x in r <==> x in db.txs.Values && x.blockNumber in numbers
    ensures Sorted(r, TxBefore)
  {
    var s := set r | r in db.txs.Values && r.blockNumber in numbers;
    TxOrderTotal(db, s);
    SortBy(s, TxBefore)
  }

  /** Every transaction from or to the address, newest first. */
  function AddressHistory(db: Db, address: string): (r: seq<TxRow>)
    ensures forall x :: x in r <==> x in db.txs.Values && (x.fromAddressLower == address || x.toAddressLower == address)
    ensures Sorted(r, TxAfter)
  {
    var s := set r | r in db.txs.Values && (r.fromAddressLower == address || r.toAddressLower == address);
    TxOrderTotal(db, s);
    SortBy(s, TxAfter)
  }

  /** LIMIT and OFFSET. An OFFSET that is not positive is left out of the statement. */
  function Window<T>(s: seq<T>, limit: nat, offset: int): seq<T> {
    if offset <= 0 then Take(s, limit)
    else if offset < |s| then Take(s[offset..], limit)
    else []
  }

  function TransactionsByAddress(db: Db, address: string, limit: nat, offset: int): seq<TxRow> {
    Window(AddressHistory(db, address), limit, offset)
  }

  // ---- How the tables may change ----

  /**
   * Nothing is deleted, a block row changes only in its four status columns, a transaction row only in its
   * receipt, and a receipt once there stays.
   */
  ghost predicate Grows(db: Db, db': Db) {
    && (forall n | n in db.blocks :: n in db'.blocks && db'.blocks[n] == db.blocks[n].(sync := db'.blocks[n].sync))
    && (forall h | h in db.txs ::
          && h in db'.txs
          && db'.txs[h].WithoutReceipt() == db.txs[h].WithoutReceipt()
          && (!db.txs[h].LacksReceipt() ==> !db'.txs[h].LacksReceipt()))
  }

  lemma GrowsTrans(a: Db, b: Db, c: Db)
    requires Grows(a, b) && Grows(b, c)
    ensures Grows(a, c)
  {
    forall n | n in a.blocks
      ensures n in c.blocks && c.blocks[n] == a.blocks[n].(sync := c.blocks[n].sync)
    {
      assert n in b.blocks;
    }
    forall h | h in a.txs
      ensures h in c.txs && c.txs[h].WithoutReceipt() == a.txs[h].WithoutReceipt()
      ensures !a.txs[h].LacksReceipt() ==> !c.txs[h].LacksReceipt()
    {
      assert h in b.txs;
    }
  }

  /** No statement overwrites what an earlier one stored. */
  lemma InsertGrows(db: Db, row: BlockRow, rows: seq<TxRow>)
    requires row.number < TWO_63
    ensures Grows(db, InsertBlockWithTransactions(db, row, rows))
  {
    var db' := InsertBlockWithTransactions(db, row, rows);
    forall n | n in db.blocks
      ensures n in db'.blocks && db'.blocks[n] == db.blocks[n]
    {
    }
  }

  lemma GrowsRefl(db: Db)
    ensures Grows(db, db)
  {
  }

  lemma MarksGrow(db: Db, n: uint64, reason: Error)
    ensures Grows(db, MarkReceiptsSynced(db, n)) && Grows(db, MarkReceiptsSyncFailed(db, n, reason))
  {
  }

  lemma UpdateReceiptGrows(db: Db, h: Hash, status: uint64, gasUsed: uint64)
    ensures Grows(db, UpdateReceipt(db, h, status, gasUsed))
  {
  }
}
