/** The indexer over one fixed chain without failures: it advances by one block a step and then rests. */
module CatchUp {
  import opened Types
  import opened Models
  import opened Mapper
  import opened Store
  import opened Sync
  import opened Consistency
  import opened SerialCall
  import opened Indexer

  /** One chain: one block at each height, linked, and no transaction hash twice. */
  ghost predicate SingleChain(w: World) {
    && WellFormed(w)
    && (forall a, b | a in w.blocks && b in w.blocks && w.blocks[a].number == w.blocks[b].number :: a == b)
    && (forall a, b | a in w.blocks && b in w.blocks && w.blocks[b].number == w.blocks[a].number + 1 ::
          w.blocks[b].parentHash == a)
    && (forall a, b, i, j | a in w.blocks && b in w.blocks && 0 <= i < |w.blocks[a].txs| && 0 <= j < |w.blocks[b].txs|
            && w.blocks[a].txs[i].hash == w.blocks[b].txs[j].hash :: a == b)
  }

  /** A receipt answer the loop passes, for the transaction at position i of the block. */
  predicate GoodReceipt(block: RpcBlock, i: nat, answer: ReceiptAnswer)
    requires i < |block.txs|
  {
    match answer
    case NoReceipt => true
    case ReceiptFailed => false
    case Answered(receipt) =>
      receipt.Some? && receipt.value.txHash == block.txs[i].hash && receipt.value.blockHash == block.hash
      && receipt.value.blockNumber == Some(block.number)
  }

  /** Nothing fails, and the node serves every height up to the target. */
  ghost predicate Smooth(w: World, startBlock: uint64, target: uint64, tick: Tick) {
    && tick.cursorUp && tick.target == Some(target)
    && (forall op: Op :: tick.call.up(op))
    && FromWorld(w, tick.call) && RightNumber(tick.call)
    && (forall n: uint64 | startBlock <= n <= target :: tick.call.fetch(n).Fetched?)
    && (forall k | k in w.blocks :: SendersRecovered(w.blocks[k]))
    && (forall k, i | k in w.blocks && 0 <= i < |w.blocks[k].txs| ::
          GoodReceipt(w.blocks[k], i, tick.call.receipt(w.blocks[k].txs[i].hash)))
  }

  /** The stored numbers are startBlock, .., end-1, all completed. */
  ghost predicate AllDone(startBlock: uint64, db: Db, end: nat) {
    NoSkip(startBlock, db, end) && !LastPending(startBlock, db, end)
  }

  lemma PrepareSucceeds(w: World, startBlock: uint64, target: uint64, db: Db, n: uint64, tick: Tick)
    requires SingleChain(w) && SerialInv(w, db) && Smooth(w, startBlock, target, tick)
    requires NoSkip(startBlock, db, n) && n <= target
    ensures Prepare(startBlock, db, n, tick.call) == Ok(tick.call.fetch(n).block)
  {
    var block := tick.call.fetch(n).block;
    var row := ToBlockModel(block);
    assert Knows(w, block) && block.number == n;
    assert n !in db.blocks;
    if startBlock < n {
      assert n - 1 in db.blocks;
      var parent := db.blocks[n - 1];
      assert parent.(sync := UNSYNCED).number == ToBlockModel(w.blocks[parent.hash]).number;
      assert block.parentHash == parent.hash;
    }
    assert ValidateBlock(startBlock, db, row, tick.call) == None;
    assert SendersRecovered(block);
    NewOnChain(w, db, block);
    var rows := TransactionModels(block);
    assert forall i | 0 <= i < |rows| :: rows[i].hash == block.txs[i].hash;
    assert TransactionsAgree(db.txs, rows);
  }

  /** On one chain a block not stored yet has no transaction stored yet. */
  lemma NewOnChain(w: World, db: Db, block: RpcBlock)
    requires SingleChain(w) && Agreement(w, db) && Knows(w, block) && block.number !in db.blocks
    ensures forall i | 0 <= i < |block.txs| :: block.txs[i].hash !in db.txs
  {
    forall h | h in db.txs
      ensures db.txs[h].blockHash in w.blocks && db.txs[h].blockHash != block.hash
      ensures db.txs[h].txIndex < |w.blocks[db.txs[h].blockHash].txs|
      ensures w.blocks[db.txs[h].blockHash].txs[db.txs[h].txIndex].hash == h
    {
      var row := db.txs[h];
      assert TxRowAgrees(w, db, row);
      assert row.WithoutReceipt().hash == h;
      assert db.blocks[row.blockNumber].(sync := UNSYNCED).number == ToBlockModel(w.blocks[row.blockHash]).number;
    }
  }

  lemma {:induction false} AllPass(db: Db, rows: seq<TxRow>, env: Env)
    requires forall i | 0 <= i < |rows| :: Passes(rows[i], env) && rows[i].hash in db.txs
    requires forall op: Op :: env.up(op)
    ensures SyncReceipts(db, rows, env).err.None?
    decreases |rows|
  {
    if rows == [] {
    } else {
      var tx := rows[0];
      assert Passes(tx, env);
      match env.receipt(tx.hash)
      case NoReceipt => AllPass(db, rows[1..], env);
      case Answered(receipt) =>
        AllPass(UpdateReceipt(db, tx.hash, receipt.value.status, receipt.value.gasUsed), rows[1..], env);
    }
  }

  lemma MissingRowsPass(w: World, startBlock: uint64, target: uint64, db: Db, n: uint64, tick: Tick)
    requires WellFormed(w) && Agreement(w, db) && Smooth(w, startBlock, target, tick)
    ensures forall tx | tx in MissingRows(db, n) :: Passes(tx, tick.call) && tx.hash in db.txs
  {
    forall tx | tx in MissingRows(db, n)
      ensures Passes(tx, tick.call) && tx.hash in db.txs
    {
      assert TxRowAgrees(w, db, tx);
      assert tx.WithoutReceipt().hash == tx.hash && tx.WithoutReceipt().blockNumber == tx.blockNumber;
      var block := w.blocks[tx.blockHash];
      assert GoodReceipt(block, tx.txIndex, tick.call.receipt(block.txs[tx.txIndex].hash));
    }
  }

  lemma SmoothUp(w: World, startBlock: uint64, target: uint64, tick: Tick)
    requires Smooth(w, startBlock, target, tick)
    ensures tick.cursorUp && tick.target == Some(target) && RightNumber(tick.call) && FromWorld(w, tick.call)
    ensures forall op: Op :: tick.call.up(op)
  {
  }

  lemma FinishSucceeds(w: World, startBlock: uint64, target: uint64, db: Db, n: uint64, tick: Tick)
    requires WellFormed(w) && Agreement(w, db) && Smooth(w, startBlock, target, tick) && n in db.blocks
    ensures FinishReceipts(db, n, tick.call).err.None?
  {
    hide Agreement, WellFormed, Smooth;
    SmoothUp(w, startBlock, target, tick);
    var rows := MissingReceipts(db, n);
    MissingRowsPass(w, startBlock, target, db, n, tick);
    assert forall i | 0 <= i < |rows| :: rows[i] in MissingRows(db, n);
    AllPass(db, rows, tick.call);
    var hashes := BlockReceipts(db, n, tick.call);
  }

  lemma SmoothCallSucceeds(w: World, startBlock: uint64, target: uint64, db: Db, n: uint64, tick: Tick)
    requires SingleChain(w) && SerialInv(w, db) && Smooth(w, startBlock, target, tick)
    requires NoSkip(startBlock, db, n) && n <= target
    ensures SyncBlock(startBlock, db, n, tick.call).err == if n < TWO_63 then None else Some(DbFailure)
    ensures n >= TWO_63 ==> SyncBlock(startBlock, db, n, tick.call).db == db
  {
    PrepareSucceeds(w, startBlock, target, db, n, tick);
    var block := tick.call.fetch(n).block;
    if n < TWO_63 {
      PreparedFits(w, startBlock, db, n, tick.call);
      InsertKeepsAgreement(w, db, block);
      InsertedRowStored(w, db, block);
      if block.txs != [] {
        FinishSucceeds(w, startBlock, target, InsertFetched(db, block), n, tick);
      }
    }
  }

  /**
   * A step short of the target syncs one block, and a step at the target changes nothing. The number column ends at
   * 2^63-1: a step past that fails and changes nothing.
   */
  lemma SmoothStep(w: World, startBlock: uint64, target: uint64, db: Db, end: nat, tick: Tick)
    requires SingleChain(w) && SerialInv(w, db) && Smooth(w, startBlock, target, tick)
    requires AllDone(startBlock, db, end)
    ensures var out := RunOnce(startBlock, db, tick);
            && SerialInv(w, out.db)
            && (end <= Top(target) ==>
                  out.result.Ok? && out.result.value.syncedBlock == Some(end) && AllDone(startBlock, out.db, end + 1))
            && (end > Top(target) ==> out.db == db)
            && (end > target ==> out.result.Ok? && !out.result.value.synced)
            && (Top(target) < end <= target ==> out.result == Err(DbFailure))
  {
    SmoothUp(w, startBlock, target, tick);
    assert WellFormed(w);
    NextUnderNoSkip(startBlock, db, end);
    StepOutcome(startBlock, db, tick, target);
    RunOnceKeeps(w, startBlock, db, tick);
    hide RunOnce, SyncBlock, NextBlock, SingleChain, Smooth, SerialInv, RightNumber, FromWorld;
    if end <= target {
      SmoothCallSucceeds(w, startBlock, target, db, end, tick);
      if end < TWO_63 {
        StepCompletes(w, startBlock, db, end, tick);
      }
    }
  }

  lemma StepCompletes(w: World, startBlock: uint64, db: Db, end: nat, tick: Tick)
    requires WellFormed(w) && SerialInv(w, db) && FromWorld(w, tick.call) && RightNumber(tick.call)
    requires AllDone(startBlock, db, end) && end < TWO_63
    requires NextBlock(startBlock, db) == end && SyncBlock(startBlock, db, end, tick.call).err.None?
    requires RunOnce(startBlock, db, tick).db == SyncBlock(startBlock, db, end, tick.call).db
    ensures AllDone(startBlock, RunOnce(startBlock, db, tick).db, end + 1)
  {
    assert NoSkip(startBlock, db, end);
    hide AllDone, SerialInv, WellFormed, RightNumber, FromWorld, RunOnce, SyncBlock, NextBlock, NoSkip, Completed;
    SuccessMeansCompleted(w, startBlock, db, end, tick.call);
    AnswersRight(tick.call, end);
    var end' := RunOnceNoSkip(startBlock, db, end, tick);
    DoneWithLast(startBlock, RunOnce(startBlock, db, tick).db, end);
  }

  lemma AnswersRight(env: Env, n: uint64)
    requires RightNumber(env)
    ensures RightAnswer(env, n)
  {
  }

  lemma DoneWithLast(startBlock: uint64, db: Db, end: nat)
    requires NoSkip(startBlock, db, end + 1) && end < TWO_63 && end in db.blocks && Completed(db.blocks[end])
    ensures AllDone(startBlock, db, end + 1)
  {
  }

  /** A step whose queries succeed is the call for the next block, if that is within the target. */
  lemma StepOutcome(startBlock: uint64, db: Db, tick: Tick, target: uint64)
    requires tick.cursorUp && tick.target == Some(target)
    ensures var out, next := RunOnce(startBlock, db, tick), NextBlock(startBlock, db);
            var call := SyncBlock(startBlock, db, next, tick.call);
            && (next > target ==> out.db == db && out.result.Ok? && !out.result.value.synced)
            && (next <= target ==>
                  && out.db == call.db
                  && (call.err.Some? ==> out.result == Err(call.err.value))
                  && (call.err.None? ==> out.result.Ok? && out.result.value.syncedBlock == Some(next)))
  {
    hide SyncBlock, NextBlock;
  }

  /** The highest block that can be stored on the way to the target. */
  function Top(target: uint64): uint64 {
    if target < TWO_63 then target else TWO_63 - 1
  }

  /** Where k steps end: one past the last completed block. */
  function EndAfter(startBlock: uint64, target: uint64, k: nat): nat {
    if startBlock + k <= Top(target) then startBlock + k
    else if startBlock <= Top(target) then Top(target) + 1
    else startBlock
  }

  lemma EndAfterStep(startBlock: uint64, target: uint64, k: nat)
    ensures EndAfter(startBlock, target, 0) == startBlock
    ensures startBlock <= EndAfter(startBlock, target, k)
    ensures var end := EndAfter(startBlock, target, k);
            EndAfter(startBlock, target, k + 1) == if end <= Top(target) then end + 1 else end
    ensures EndAfter(startBlock, target, k) > startBlock <==> startBlock <= Top(target) && k > 0
    ensures startBlock <= Top(target) && k > 0 ==>
              EndAfter(startBlock, target, k) - 1 == if startBlock + k - 1 <= Top(target) then startBlock + k - 1 else Top(target)
  {
  }

  lemma {:induction false} SmoothTicks(w: World, startBlock: uint64, target: uint64, ticks: seq<Tick>)
    requires SingleChain(w)
    requires forall i | 0 <= i < |ticks| :: Smooth(w, startBlock, target, ticks[i])
    ensures SerialInv(w, RunTicks(startBlock, EMPTY, ticks))
    ensures AllDone(startBlock, RunTicks(startBlock, EMPTY, ticks), EndAfter(startBlock, target, |ticks|))
  {
    hide *;
    EndAfterStep(startBlock, target, 0);
    if ticks == [] {
      SmoothStart(w, startBlock);
    } else {
      var k := |ticks| - 1;
      SmoothTicks(w, startBlock, target, ticks[..k]);
      EndAfterStep(startBlock, target, k);
      LastTick(startBlock, EMPTY, ticks);
      SmoothStep(w, startBlock, target, RunTicks(startBlock, EMPTY, ticks[..k]), EndAfter(startBlock, target, k), ticks[k]);
    }
  }

  lemma SmoothStart(w: World, startBlock: uint64)
    ensures SerialInv(w, RunTicks(startBlock, EMPTY, [])) && AllDone(startBlock, RunTicks(startBlock, EMPTY, []), startBlock)
  {
    EmptyAgrees(w);
  }

  lemma LastTick(startBlock: uint64, db: Db, ticks: seq<Tick>)
    requires ticks != []
    ensures RunTicks(startBlock, db, ticks) ==
            RunOnce(startBlock, RunTicks(startBlock, db, ticks[..|ticks| - 1]), ticks[|ticks| - 1]).db
  {
  }

  lemma CursorWhenAllDone(startBlock: uint64, db: Db, end: nat)
    requires AllDone(startBlock, db, end)
    ensures LatestFullySyncedBlockNumber(db) == if startBlock < end then Some(end - 1) else None
  {
    assert forall n | n in CompletedNumbers(db) :: startBlock <= n < end;
    if startBlock < end {
      assert end - 1 in CompletedNumbers(db);
    } else {
      assert CompletedNumbers(db) == {};
    }
  }

  /** k steps from an empty store put the cursor at min(target, 2^63-1, startBlock + k - 1). */
  lemma CursorAfter(w: World, startBlock: uint64, target: uint64, ticks: seq<Tick>)
    requires SingleChain(w)
    requires forall i | 0 <= i < |ticks| :: Smooth(w, startBlock, target, ticks[i])
    ensures LatestFullySyncedBlockNumber(RunTicks(startBlock, EMPTY, ticks)) ==
            if |ticks| == 0 || startBlock > Top(target) then None
            else if startBlock + |ticks| - 1 <= Top(target) then Some(startBlock + |ticks| - 1) else Some(Top(target))
  {
    hide *;
    EndAfterStep(startBlock, target, |ticks|);
    SmoothTicks(w, startBlock, target, ticks);
    CursorWhenAllDone(startBlock, RunTicks(startBlock, EMPTY, ticks), EndAfter(startBlock, target, |ticks|));
  }
}
