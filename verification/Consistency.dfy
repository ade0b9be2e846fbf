/** Blocks and transactions in the two tables tell the same story: what it means, and what keeps it. */
module Consistency {
  import opened Types
  import opened Models
  import opened Mapper
  import opened Store
  import opened Sync

  /**
   * Every block a node may ever answer, by hash: a block hash determines number, parent and body. With several
   * blocks at one height this is a node that reorganises. `receipts` are the receipts by transaction hash.
   */
  datatype World = World(blocks: map<Hash, RpcBlock>, receipts: map<Hash, Receipt>)

  ghost predicate DistinctTxs(block: RpcBlock) {
    forall i, j | 0 <= i < j < |block.txs| :: block.txs[i].hash != block.txs[j].hash
  }

  ghost predicate WellFormed(w: World) {
    forall k | k in w.blocks :: w.blocks[k].hash == k && DistinctTxs(w.blocks[k])
  }

  predicate Knows(w: World, block: RpcBlock) {
    block.hash in w.blocks && w.blocks[block.hash] == block
  }

  /** A block row holds the header of the block its hash names. */
  ghost predicate HeadersAgree(w: World, db: Db) {
    forall n | n in db.blocks ::
      && db.blocks[n].hash in w.blocks
      && db.blocks[n].(sync := UNSYNCED) == ToBlockModel(w.blocks[db.blocks[n].hash])
  }

  predicate TxRowAgrees(w: World, db: Db, tx: TxRow) {
    && tx.blockNumber in db.blocks
    && tx.blockHash == db.blocks[tx.blockNumber].hash
    && tx.blockHash in w.blocks
    && var block := w.blocks[tx.blockHash];
       && tx.txIndex < |block.txs|
       && block.txs[tx.txIndex].sender.Some?
       && tx.WithoutReceipt() == ToTransactionModel(block, block.txs[tx.txIndex], tx.txIndex, block.txs[tx.txIndex].sender.value)
  }

  /** A transaction row names a stored block, and holds the transaction at its index in that block's body. */
  ghost predicate RowsAgree(w: World, db: Db) {
    forall h | h in db.txs :: TxRowAgrees(w, db, db.txs[h])
  }

  predicate BodyTxStored(db: Db, n: uint64, block: RpcBlock, i: nat)
    requires i < |block.txs|
  {
    var h := block.txs[i].hash;
    h in db.txs && db.txs[h].blockNumber == n && db.txs[h].txIndex == i
  }

  predicate BodyStored(db: Db, n: uint64, block: RpcBlock) {
    forall i | 0 <= i < |block.txs| :: BodyTxStored(db, n, block, i)
  }

  /** Every transaction of a stored block's body is stored, at its place. */
  ghost predicate BodiesStored(w: World, db: Db) {
    forall n | n in db.blocks ::
      db.blocks[n].hash in w.blocks && BodyStored(db, n, w.blocks[db.blocks[n].hash])
  }

  ghost predicate Agreement(w: World, db: Db) {
    HeadersAgree(w, db) && RowsAgree(w, db) && BodiesStored(w, db)
  }

  lemma EmptyAgrees(w: World)
    ensures Agreement(w, EMPTY)
  {
  }

  // ---- What Agreement says about the tables alone ----

  function HashesAt(db: Db, n: uint64): set<Hash> {
    set h | h in db.txs && db.txs[h].blockNumber == n
  }

  function Elements(s: seq<Hash>): set<Hash> {
    set x | x in s
  }

  lemma {:induction false} CountDistinct(s: seq<Hash>)
    requires forall i, j | 0 <= i < j < |s| :: s[i] != s[j]
    ensures |Elements(s)| == |s|
  {
    if s == [] {
      assert Elements(s) == {};
    } else {
      var prefix, last := s[..|s| - 1], s[|s| - 1];
      CountDistinct(prefix);
      assert s == prefix + [last];
      assert last !in prefix;
      assert Elements(s) == Elements(prefix) + {last};
    }
  }

  predicate StoredAt(db: Db, n: uint64, i: nat) {
    exists h :: h in db.txs && db.txs[h].blockNumber == n && db.txs[h].txIndex == i
  }

  /**
   * Every stored transaction's number and hash name a stored block; the transactions at a stored number are exactly
   * TxCount many and carry the indices 0..TxCount-1; no two rows share number and index.
   */
  lemma AgreementOnTables(w: World, db: Db)
    requires WellFormed(w) && Agreement(w, db)
    ensures forall h | h in db.txs ::
              && db.txs[h].blockNumber in db.blocks
              && db.txs[h].blockHash == db.blocks[db.txs[h].blockNumber].hash
              && db.txs[h].txIndex < db.blocks[db.txs[h].blockNumber].txCount
    ensures forall g, h | g in db.txs && h in db.txs && db.txs[g].blockNumber == db.txs[h].blockNumber
                && db.txs[g].txIndex == db.txs[h].txIndex :: g == h
    ensures forall n | n in db.blocks ::
              |HashesAt(db, n)| == db.blocks[n].txCount && forall i | 0 <= i < db.blocks[n].txCount :: StoredAt(db, n, i)
  {
    forall h | h in db.txs
      ensures TxRowAgrees(w, db, db.txs[h])
      ensures db.blocks[db.txs[h].blockNumber].txCount == |w.blocks[db.txs[h].blockHash].txs|
      ensures h == w.blocks[db.txs[h].blockHash].txs[db.txs[h].txIndex].hash
    {
      assert db.txs[h].WithoutReceipt().hash == h;
    }
    forall n | n in db.blocks
      ensures |HashesAt(db, n)| == db.blocks[n].txCount && forall i | 0 <= i < db.blocks[n].txCount :: StoredAt(db, n, i)
    {
      BlockCounts(w, db, n);
    }
  }

  lemma BlockCounts(w: World, db: Db, n: uint64)
    requires WellFormed(w) && Agreement(w, db) && n in db.blocks
    ensures |HashesAt(db, n)| == db.blocks[n].txCount
    ensures forall i | 0 <= i < db.blocks[n].txCount :: StoredAt(db, n, i)
  {
    var block := w.blocks[db.blocks[n].hash];
    assert BodyStored(db, n, block);
    var hashes := seq(|block.txs|, i requires 0 <= i < |block.txs| => block.txs[i].hash);
    CountDistinct(hashes);
    forall i | 0 <= i < |hashes|
      ensures hashes[i] in HashesAt(db, n) && StoredAt(db, n, i)
    {
      assert BodyTxStored(db, n, block, i);
    }
    forall h | h in HashesAt(db, n)
      ensures h in hashes
    {
      assert TxRowAgrees(w, db, db.txs[h]);
      assert db.txs[h].WithoutReceipt().hash == h;
      assert hashes[db.txs[h].txIndex] == h;
    }
    assert HashesAt(db, n) == Elements(hashes);
  }

  // ---- Writes that add no row ----

  /** Same rows, and only status columns and receipts may differ. */
  ghost predicate SameRows(db: Db, db': Db) {
    && db'.blocks.Keys == db.blocks.Keys && db'.txs.Keys == db.txs.Keys
    && (forall n | n in db.blocks :: db'.blocks[n].(sync := UNSYNCED) == db.blocks[n].(sync := UNSYNCED))
    && (forall h | h in db.txs :: db'.txs[h].WithoutReceipt() == db.txs[h].WithoutReceipt())
  }

  lemma SameRowsAgree(w: World, db: Db, db': Db)
    requires Agreement(w, db) && SameRows(db, db')
    ensures Agreement(w, db')
  {
    forall n | n in db'.blocks
      ensures db'.blocks[n].hash in w.blocks
      ensures db'.blocks[n].(sync := UNSYNCED) == ToBlockModel(w.blocks[db'.blocks[n].hash])
      ensures BodyStored(db', n, w.blocks[db'.blocks[n].hash])
    {
      assert n in db.blocks;
      assert db'.blocks[n].(sync := UNSYNCED).hash == db.blocks[n].(sync := UNSYNCED).hash;
      var block := w.blocks[db.blocks[n].hash];
      forall i | 0 <= i < |block.txs|
        ensures BodyTxStored(db', n, block, i)
      {
        assert BodyTxStored(db, n, block, i);
        var h := block.txs[i].hash;
        assert db'.txs[h].WithoutReceipt().txIndex == db.txs[h].WithoutReceipt().txIndex;
        assert db'.txs[h].WithoutReceipt().blockNumber == db.txs[h].WithoutReceipt().blockNumber;
      }
    }
    forall h | h in db'.txs
      ensures TxRowAgrees(w, db', db'.txs[h])
    {
      assert TxRowAgrees(w, db, db.txs[h]);
      var n := db.txs[h].blockNumber;
      assert db'.txs[h].WithoutReceipt().blockNumber == db.txs[h].WithoutReceipt().blockNumber;
      assert db'.blocks[n].(sync := UNSYNCED).hash == db.blocks[n].(sync := UNSYNCED).hash;
    }
  }

  lemma SetSyncSameRows(db: Db, n: uint64, sync: SyncColumns)
    ensures SameRows(db, SetSync(db, n, sync))
  {
  }

  lemma UpdateReceiptSameRows(db: Db, h: Hash, status: uint64, gasUsed: uint64)
    ensures SameRows(db, UpdateReceipt(db, h, status, gasUsed))
  {
  }

  // ---- The insert ----

  /** The block is stored already, or it and all its transactions are new. */
  ghost predicate Fits(db: Db, block: RpcBlock) {
    if block.number in db.blocks then db.blocks[block.number].hash == block.hash
    else forall i | 0 <= i < |block.txs| :: block.txs[i].hash !in db.txs
  }

  lemma InsertTxsNothingNew(txs: map<Hash, TxRow>, rows: seq<TxRow>)
    requires forall i | 0 <= i < |rows| :: rows[i].hash in txs
    ensures InsertTxs(txs, rows) == txs
  {
  }

  lemma InsertTxsAllNew(txs: map<Hash, TxRow>, rows: seq<TxRow>)
    requires forall i | 0 <= i < |rows| :: rows[i].hash !in txs
    requires forall i, j | 0 <= i < j < |rows| :: rows[i].hash != rows[j].hash
    ensures forall i | 0 <= i < |rows| :: rows[i].hash in InsertTxs(txs, rows) && InsertTxs(txs, rows)[rows[i].hash] == rows[i]
  {
  }

  lemma InsertStoredAgain(w: World, db: Db, block: RpcBlock)
    requires WellFormed(w) && Agreement(w, db) && Knows(w, block) && Insertable(block)
    requires block.number in db.blocks && db.blocks[block.number].hash == block.hash
    ensures InsertFetched(db, block) == db
  {
    var rows := TransactionModels(block);
    assert BodyStored(db, block.number, block);
    forall i | 0 <= i < |rows|
      ensures rows[i].hash in db.txs
    {
      assert BodyTxStored(db, block.number, block, i);
    }
    InsertTxsNothingNew(db.txs, rows);
  }

  /** One new block row and the rows of its body, nothing else. */
  ghost predicate Added(db: Db, db': Db, block: RpcBlock)
    requires SendersRecovered(block)
  {
    var rows := TransactionModels(block);
    && db'.blocks == db.blocks[block.number := InsertedRow(block)]
    && (forall i | 0 <= i < |rows| :: rows[i].hash in db'.txs && db'.txs[rows[i].hash] == rows[i])
    && (forall h | h in db'.txs && h !in db.txs :: exists i :: 0 <= i < |rows| && db'.txs[h] == rows[i])
    && (forall h | h in db.txs :: h in db'.txs && db'.txs[h] == db.txs[h])
  }

  lemma InsertNew(w: World, db: Db, block: RpcBlock)
    requires WellFormed(w) && Agreement(w, db) && Knows(w, block) && Insertable(block)
    requires block.number !in db.blocks && Fits(db, block)
    ensures Added(db, InsertFetched(db, block), block)
  {
    var rows := TransactionModels(block);
    assert !BlockConflicts(db.blocks, InsertedRow(block)) by {
      forall n | n in db.blocks
        ensures db.blocks[n].hash != block.hash
      {
        assert db.blocks[n].(sync := UNSYNCED).number == ToBlockModel(w.blocks[db.blocks[n].hash]).number;
      }
    }
    forall i | 0 <= i < |rows|
      ensures rows[i].hash == block.txs[i].hash && rows[i].hash !in db.txs
    {
    }
    assert DistinctTxs(w.blocks[block.hash]);
    InsertTxsAllNew(db.txs, rows);
  }

  lemma InsertKeepsAgreement(w: World, db: Db, block: RpcBlock)
    requires WellFormed(w) && Agreement(w, db) && Knows(w, block) && Insertable(block)
    requires Fits(db, block)
    ensures Agreement(w, InsertFetched(db, block))
  {
    hide Agreement, InsertFetched;
    if block.number in db.blocks {
      InsertStoredAgain(w, db, block);
    } else {
      InsertNew(w, db, block);
      AddedAgrees(w, db, InsertFetched(db, block), block);
    }
  }

  lemma AddedAgrees(w: World, db: Db, db': Db, block: RpcBlock)
    requires Agreement(w, db) && Knows(w, block) && Insertable(block)
    requires block.number !in db.blocks && Added(db, db', block)
    ensures Agreement(w, db')
  {
    hide TxRowAgrees, BodyStored;
    forall h | h in db'.txs
      ensures TxRowAgrees(w, db', db'.txs[h])
    {
      AddedRowAgrees(w, db, db', block, h);
    }
    forall n | n in db'.blocks
      ensures db'.blocks[n].hash in w.blocks && BodyStored(db', n, w.blocks[db'.blocks[n].hash])
    {
      AddedBodyStored(w, db, db', block, n);
    }
    AddedHeaders(w, db, db', block);
  }

  lemma AddedHeaders(w: World, db: Db, db': Db, block: RpcBlock)
    requires HeadersAgree(w, db) && Knows(w, block) && SendersRecovered(block) && Added(db, db', block)
    ensures HeadersAgree(w, db')
  {
  }

  lemma AddedRowAgrees(w: World, db: Db, db': Db, block: RpcBlock, h: Hash)
    requires RowsAgree(w, db) && Knows(w, block) && SendersRecovered(block)
    requires block.number !in db.blocks && Added(db, db', block) && h in db'.txs
    ensures TxRowAgrees(w, db', db'.txs[h])
  {
    if h in db.txs {
      assert TxRowAgrees(w, db, db.txs[h]);
    } else {
      var rows := TransactionModels(block);
      var i :| 0 <= i < |rows| && db'.txs[h] == rows[i];
      assert rows[i].WithoutReceipt() == rows[i];
    }
  }

  lemma AddedBodyStored(w: World, db: Db, db': Db, block: RpcBlock, n: uint64)
    requires BodiesStored(w, db) && Knows(w, block) && SendersRecovered(block)
    requires block.number !in db.blocks && Added(db, db', block) && n in db'.blocks
    ensures db'.blocks[n].hash in w.blocks && BodyStored(db', n, w.blocks[db'.blocks[n].hash])
  {
    if n == block.number {
      var rows := TransactionModels(block);
      forall i | 0 <= i < |block.txs|
        ensures BodyTxStored(db', n, block, i)
      {
        assert db'.txs[rows[i].hash] == rows[i];
      }
    } else {
      var body := w.blocks[db.blocks[n].hash];
      assert BodyStored(db, n, body);
      forall i | 0 <= i < |body.txs|
        ensures BodyTxStored(db', n, body, i)
      {
        assert BodyTxStored(db, n, body, i);
      }
    }
  }

  /** What could be looked up just before the insert: it adds a whole block, or nothing at all. */
  predicate InsertIsSafe(db: Db, block: RpcBlock) {
    if block.number !in db.blocks then forall i | 0 <= i < |block.txs| :: block.txs[i].hash !in db.txs
    else db.blocks[block.number].hash == block.hash || forall i | 0 <= i < |block.txs| :: block.txs[i].hash in db.txs
  }

  // ---- Disagreement that nothing repairs ----

  predicate NamesOtherBlock(db: Db, h: Hash) {
    h in db.txs && db.txs[h].blockNumber in db.blocks && db.txs[h].blockHash != db.blocks[db.txs[h].blockNumber].hash
  }

  /** A transaction of the stored block's body is stored at another position. */
  predicate StoredElsewhere(w: World, db: Db, n: uint64, i: nat) {
    n in db.blocks && db.blocks[n].hash in w.blocks &&
    var txs := w.blocks[db.blocks[n].hash].txs;
    i < |txs| && txs[i].hash in db.txs && !(db.txs[txs[i].hash].blockNumber == n && db.txs[txs[i].hash].txIndex == i)
  }

  ghost predicate Broken(w: World, db: Db) {
    || (exists h :: NamesOtherBlock(db, h))
    || (exists n, i :: StoredElsewhere(w, db, n, i))
  }

  lemma BrokenDisagrees(w: World, db: Db)
    requires Broken(w, db)
    ensures !Agreement(w, db)
  {
    if h :| NamesOtherBlock(db, h) {
      assert !TxRowAgrees(w, db, db.txs[h]);
    } else {
      var n: uint64, i: nat :| StoredElsewhere(w, db, n, i);
      var block := w.blocks[db.blocks[n].hash];
      assert !BodyTxStored(db, n, block, i);
      assert !BodyStored(db, n, block);
    }
  }

  /**
   * The insert of a fetched block keeps the two tables in agreement exactly when InsertIsSafe holds at that moment.
   * A call checks the like of it long before; between its check and its insert another call may break it.
   */
  lemma InsertKeepsAgreementIff(w: World, db: Db, block: RpcBlock)
    requires WellFormed(w) && Agreement(w, db) && Knows(w, block) && Insertable(block)
    ensures Agreement(w, InsertFetched(db, block)) <==> InsertIsSafe(db, block)
  {
    if Fits(db, block) {
      InsertKeepsAgreement(w, db, block);
    } else if InsertIsSafe(db, block) {
      LoserAddsNothing(db, block);
    } else {
      UnsafeInsertBreaks(w, db, block);
      BrokenDisagrees(w, InsertFetched(db, block));
    }
  }

  lemma LoserAddsNothing(db: Db, block: RpcBlock)
    requires Insertable(block) && block.number in db.blocks
    requires forall i | 0 <= i < |block.txs| :: block.txs[i].hash in db.txs
    ensures InsertFetched(db, block) == db
  {
    var rows := TransactionModels(block);
    assert forall i | 0 <= i < |rows| :: rows[i].hash == block.txs[i].hash;
    InsertTxsNothingNew(db.txs, rows);
  }

  /** The height is taken by another block, and the loser's new transactions name a block that is not stored. */
  lemma LoserBreaks(w: World, db: Db, block: RpcBlock)
    requires Insertable(block) && block.number in db.blocks && !InsertIsSafe(db, block)
    ensures Broken(w, InsertFetched(db, block))
  {
    var db' := InsertFetched(db, block);
    var rows := TransactionModels(block);
    var i :| 0 <= i < |block.txs| && block.txs[i].hash !in db.txs;
    assert rows[i].hash == block.txs[i].hash;
    assert db'.txs[rows[i].hash] in rows;
    assert NamesOtherBlock(db', rows[i].hash);
  }

  /** The block is stored, but one of its transactions stays where an earlier block put it. */
  lemma StolenTxBreaks(w: World, db: Db, block: RpcBlock)
    requires Agreement(w, db) && Knows(w, block) && Insertable(block)
    requires block.number !in db.blocks && !InsertIsSafe(db, block)
    ensures Broken(w, InsertFetched(db, block))
  {
    var db' := InsertFetched(db, block);
    var i :| 0 <= i < |block.txs| && block.txs[i].hash in db.txs;
    NumberIsNew(w, db, block);
    assert TxRowAgrees(w, db, db.txs[block.txs[i].hash]);
    assert StoredElsewhere(w, db', block.number, i);
  }

  lemma UnsafeInsertBreaks(w: World, db: Db, block: RpcBlock)
    requires Agreement(w, db) && Knows(w, block) && Insertable(block) && !InsertIsSafe(db, block)
    ensures Broken(w, InsertFetched(db, block))
  {
    if block.number in db.blocks {
      LoserBreaks(w, db, block);
    } else {
      StolenTxBreaks(w, db, block);
    }
  }

  lemma NumberIsNew(w: World, db: Db, block: RpcBlock)
    requires HeadersAgree(w, db) && Knows(w, block) && Insertable(block) && block.number !in db.blocks
    ensures var blocks := InsertFetched(db, block).blocks; block.number in blocks && blocks[block.number].hash == block.hash
  {
    forall n | n in db.blocks
      ensures db.blocks[n].hash != block.hash
    {
      assert db.blocks[n].(sync := UNSYNCED).number == ToBlockModel(w.blocks[db.blocks[n].hash]).number;
    }
  }
}
