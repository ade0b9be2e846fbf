/** Concrete runs in which a guarantee fails, each past a condition under which it was proved. */
module Limits {
  import opened Types
  import opened Models
  import opened Mapper
  import opened Store
  import opened Sync
  import opened Consistency
  import opened SerialCall
  import opened Indexer
  import opened Range
  import opened CatchUp
  import opened Interleaving

  const BODY := TxBody(0, "0", 0, "0", "")

  // ---- "Receipt not found" completes a block that lacks a receipt ----

  function OneTxBlock(number: uint64, hash: Hash, txHash: Hash): RpcBlock {
    RpcBlock(number, hash, 0, 0, "", 0, 0, [RpcTx(txHash, Some("a"), None, BODY)])
  }

  lemma NoReceiptPasses(db: Db, rows: seq<TxRow>, env: Env)
    requires forall h: Hash :: env.receipt(h) == NoReceipt
    ensures SyncReceipts(db, rows, env) == Outcome(db, None)
    decreases |rows|
  {
  }

  /** The call returns nil and the block is completed, yet its one transaction has no receipt. */
  lemma NotFoundCompletesBlock(startBlock: uint64) returns (env: Env)
    requires startBlock < TWO_63
    ensures RightNumber(env)
    ensures var out := SyncBlock(startBlock, EMPTY, startBlock, env);
            && out.err.None?
            && startBlock in out.db.blocks && Completed(out.db.blocks[startBlock])
            && 2 in out.db.txs && out.db.txs[2].blockNumber == startBlock && out.db.txs[2].LacksReceipt()
  {
    var block := OneTxBlock(startBlock, 1, 2);
    env := Env(n => if n == startBlock then Fetched(block) else NoSuchBlock, op => true, h => NoReceipt);
    assert TransactionsAgree(EMPTY.txs, TransactionModels(block));
    assert Prepare(startBlock, EMPTY, startBlock, env) == Ok(block);
    var inserted := InsertFetched(EMPTY, block);
    var row := TransactionModels(block)[0];
    assert InsertTxs(map[], TransactionModels(block)) == map[2 := row] by {
      assert TransactionModels(block) == [row];
      assert [row][..0] == [];
    }
    NoReceiptPasses(inserted, MissingReceipts(inserted, startBlock), env);
  }

  // ---- The block number the node answers is not checked ----

  function EmptyBlock(n: uint64): RpcBlock {
    RpcBlock(n, n, if n == 0 then 0 else n - 1, 0, "", 0, 0, [])
  }

  /** A node that answers block 0 for every number makes a call for a later block return nil without storing it. */
  lemma WrongNumberGoesUnnoticed(startBlock: uint64, n: uint64) returns (env: Env)
    requires n > 0
    ensures !RightNumber(env)
    ensures var out := SyncBlock(startBlock, EMPTY, n, env); out.err.None? && out.db.blocks.Keys == {0}
  {
    env := Env(m => Fetched(EmptyBlock(0)), op => true, h => NoReceipt);
    assert env.fetch(n).Fetched? && env.fetch(n).block.number != n;
  }

  // ---- A range that ends at 2^64-1 ----

  /** A node that cannot be reached. */
  function Unreachable(): Env {
    Env((n: uint64) => FetchFailed, op => true, h => NoReceipt)
  }

  /** One block is requested, and until cancellation comes two calls are made: the loop variable wraps to 0. */
  lemma TopRangeRepeats(startBlock: uint64, db: Db)
    ensures var out := SyncRange(startBlock, db, MAX_UINT64, MAX_UINT64, 2, i => Unreachable());
            && out.result.Some? && out.err == Some(RequestCanceled)
            && out.result.value.requested == 1 && out.result.value.failedBlocks == [MAX_UINT64, 0]
  {
    var envs: nat -> Env := i => Unreachable();
    var acc := RangeResult(MAX_UINT64, MAX_UINT64, 1, 0, 0, []);
    var first := acc.(failed := 1, failedBlocks := [MAX_UINT64]);
    var second := acc.(failed := 2, failedBlocks := [MAX_UINT64, 0]);
    assert RangeLoop(startBlock, db, 0, 2, 2, envs, second) == RangeOutcome(db, Some(second), Some(RequestCanceled));
    assert first.failedBlocks + [0] == second.failedBlocks;
    assert RangeLoop(startBlock, db, 0, 1, 2, envs, first) == RangeLoop(startBlock, db, 0, 2, 2, envs, second);
    assert acc.failedBlocks + [MAX_UINT64] == first.failedBlocks;
    assert RangeLoop(startBlock, db, MAX_UINT64, 0, 2, envs, acc) == RangeLoop(startBlock, db, 0, 1, 2, envs, first);
  }

  // ---- Two reorganising calls at one height ----

  lemma OneMore(node: Node, startBlock: uint64, s: State, events: seq<Event>, ev: Event)
    ensures Run(node, startBlock, s, events + [ev]) == Apply(node, startBlock, Run(node, startBlock, s, events), ev)
  {
    assert (events + [ev])[..|events|] == events;
  }

  /** A call for block 0 comes as far as the insert while the store is still empty. */
  lemma ComesToInsert(w: World, startBlock: uint64, s: State, before: seq<Event>, block: RpcBlock) returns (events: seq<Event>)
    requires Knows(w, block) && block.number == 0 && block.txs != [] && SendersRecovered(block)
    requires s.db == EMPTY && Run(ChainNode(w, false), startBlock, INIT, before) == s
    ensures Run(ChainNode(w, false), startBlock, INIT, events) == s.(calls := s.calls + [Call(0, Inserting(block))])
  {
    hide InsertBlockWithTransactions, InsertedRow, UpdateReceipt, MissingRows, Run;
    var node, id := ChainNode(w, false), |s.calls|;
    OneMore(node, startBlock, INIT, before, Start(0));
    events := before + [Start(0)];
    OneMore(node, startBlock, INIT, events, Advance(id, GotBlock(block)));
    events := events + [Advance(id, GotBlock(block))];
    assert Run(node, startBlock, INIT, events).calls == s.calls + [Call(0, ReadingBlock(block))];
    OneMore(node, startBlock, INIT, events, Advance(id, Goes));
    events := events + [Advance(id, Goes)];
    assert Run(node, startBlock, INIT, events).calls == s.calls + [Call(0, ReadingTxs(block))];
    assert TransactionsAgree(EMPTY.txs, RowsOf(block));
    OneMore(node, startBlock, INIT, events, Advance(id, Goes));
    events := events + [Advance(id, Goes)];
    assert Run(node, startBlock, INIT, events).calls == s.calls + [Call(0, Inserting(block))];
  }

  /** Two calls for block 0 meet two different blocks there, and both pass validation before either inserts. */
  lemma RaceBreaksAgreement(startBlock: uint64) returns (w: World, events: seq<Event>)
    ensures WellFormed(w)
    ensures var db := Run(ChainNode(w, false), startBlock, INIT, events).db;
            && db.blocks.Keys == {0}
            && (exists h :: h in db.txs && db.txs[h].blockNumber == 0 && db.txs[h].blockHash != db.blocks[0].hash)
            && !Agreement(w, db)
  {
    var a, b := OneTxBlock(0, 1, 10), OneTxBlock(0, 2, 20);
    w := World(map[1 := a, 2 := b], map[]);
    var node := ChainNode(w, false);
    events := ComesToInsert(w, startBlock, INIT, [], a);
    var s := Run(node, startBlock, INIT, events);
    events := ComesToInsert(w, startBlock, s, events, b);
    var s2 := Run(node, startBlock, INIT, events);
    OneMore(node, startBlock, INIT, events, Advance(0, Goes));
    events := events + [Advance(0, Goes)];
    OneMore(node, startBlock, INIT, events, Advance(1, Goes));
    events := events + [Advance(1, Goes)];
    BothInserted(startBlock, a, b, s2, node);
    var db := Run(node, startBlock, INIT, events).db;
    assert !TxRowAgrees(w, db, db.txs[20]);
  }

  lemma BothInserted(startBlock: uint64, a: RpcBlock, b: RpcBlock, s: State, node: Node)
    requires a == OneTxBlock(0, 1, 10) && b == OneTxBlock(0, 2, 20) && node.ChainNode?
    requires s == State(EMPTY, [Call(0, Inserting(a)), Call(0, Inserting(b))], {})
    ensures var db := Apply(node, startBlock, Apply(node, startBlock, s, Advance(0, Goes)), Advance(1, Goes)).db;
            && db.blocks == map[0 := InsertedRow(a)]
            && 20 in db.txs && db.txs[20].blockNumber == 0 && db.txs[20].blockHash == 2
  {
    var rowsB := RowsOf(b);
    var one := Apply(node, startBlock, s, Advance(0, Goes));
    assert one.db.blocks == map[0 := InsertedRow(a)];
    assert RowsOf(a)[0].hash == 10 && rowsB[0].hash == 20;
    assert 20 !in one.db.txs;
    var two := Apply(node, startBlock, one, Advance(1, Goes));
    assert one.calls[1] == Call(0, Inserting(b));
    assert BlockConflicts(one.db.blocks, InsertedRow(b));
    assert rowsB[0].hash in two.db.txs;
  }
}
