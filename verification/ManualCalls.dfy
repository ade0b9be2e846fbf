/**
 * Manual calls beside the indexer. An indexer run alone skips no block; a manual call may break that, and this is
 * exactly when.
 */
module ManualCalls {
  import opened Types
  import opened Models
  import opened Mapper
  import opened Store
  import opened Sync
  import opened Consistency
  import opened SerialCall
  import opened Indexer
  import opened CatchUp

  ghost predicate HasNoSkip(startBlock: uint64, db: Db) {
    exists end :: NoSkip(startBlock, db, end)
  }

  /** Said of the store and the answers: the call stores the block fetched for n. */
  predicate Stores(startBlock: uint64, db: Db, n: uint64, env: Env) {
    Accepts(startBlock, db, n, env) && env.up(InsertRows) && env.fetch(n).block.number < TWO_63
  }

  lemma StoredIff(w: World, startBlock: uint64, db: Db, n: uint64, env: Env)
    requires WellFormed(w) && Agreement(w, db) && FromWorld(w, env) && RightAnswer(env, n) && n !in db.blocks
    ensures n in SyncBlock(startBlock, db, n, env).db.blocks <==> Stores(startBlock, db, n, env)
  {
    AcceptsIff(w, startBlock, db, n, env);
    var prepared := Prepare(startBlock, db, n, env);
    if Stores(startBlock, db, n, env) {
      var block := prepared.value;
      PreparedFits(w, startBlock, db, n, env);
      InsertedRowStored(w, db, block);
      FinishReceiptsFrame(InsertFetched(db, block), n, env);
    }
    hide Accepts, Agreement, WellFormed, Prepare, InsertFetched, FinishReceipts;
  }

  /** An unstored block is accepted only at one end of the interval, or as block 0. */
  lemma AcceptedWhere(startBlock: uint64, db: Db, end: nat, n: uint64, env: Env)
    requires NoSkip(startBlock, db, end) && RightAnswer(env, n) && n !in db.blocks && Accepts(startBlock, db, n, env)
    ensures n == end || (n == 0 && n < startBlock)
  {
  }

  /**
   * The call takes back a completed block below the last one, stores block 0 below startBlock, or stores a new block
   * behind a last one that is still pending.
   */
  ghost predicate MakesHole(startBlock: uint64, db: Db, end: nat, n: uint64, env: Env)
    requires NoSkip(startBlock, db, end)
  {
    || (startBlock <= n && n + 1 < end && TakesBack(startBlock, db, n, env))
    || (n !in db.blocks && Stores(startBlock, db, n, env) && (n < startBlock || LastPending(startBlock, db, end)))
  }

  lemma IntervalEnd(startBlock: uint64, db: Db, end: nat, end': nat)
    requires NoSkip(startBlock, db, end')
    requires startBlock < end <= TWO_63 && forall n: uint64 :: n in db.blocks <==> startBlock <= n < end
    ensures end' == end
  {
    assert end - 1 in db.blocks && end !in db.blocks;
    assert end < end' ==> end in db.blocks;
  }

  lemma HoleBreaks(startBlock: uint64, db: Db, db': Db, end: nat, n: uint64)
    requires NoSkip(startBlock, db, end) && TouchesOnly(db, db', n) && n in db'.blocks
    requires || (startBlock <= n && n + 1 < end && !Completed(db'.blocks[n]))
             || (n !in db.blocks && n < startBlock)
             || (n == end && LastPending(startBlock, db, end))
    ensures !HasNoSkip(startBlock, db')
  {
    assert n == end && startBlock < end ==> end - 1 in db'.blocks && db'.blocks[end - 1] == db.blocks[end - 1];
    if HasNoSkip(startBlock, db') {
      var end' :| NoSkip(startBlock, db', end');
      var top := if n == end then end + 1 else end;
      if n >= startBlock {
        forall m: uint64
          ensures m in db'.blocks <==> startBlock <= m < top
        {
          assert m in db.blocks <==> startBlock <= m < end;
        }
        IntervalEnd(startBlock, db', top, end');
      }
      assert false;
    }
  }

  lemma NoHoleKeeps(startBlock: uint64, db: Db, db': Db, end: nat, n: uint64)
    requires NoSkip(startBlock, db, end) && TouchesOnly(db, db', n)
    requires startBlock <= n && n + 1 < end ==> Completed(db'.blocks[n])
    requires n !in db.blocks && n in db'.blocks ==> n == end && !LastPending(startBlock, db, end)
    ensures HasNoSkip(startBlock, db')
  {
    var end' := if n in db'.blocks && n == end then end + 1 else end;
    forall m: uint64
      ensures m in db'.blocks <==> startBlock <= m < end'
    {
      assert m in db.blocks <==> startBlock <= m < end;
    }
    assert NoSkip(startBlock, db', end');
  }

  /** From a store an indexer run leaves, a manual call keeps "no block is skipped" exactly when it makes no hole. */
  lemma ManualCallKeepsNoSkipIff(w: World, startBlock: uint64, db: Db, end: nat, n: uint64, env: Env)
    requires WellFormed(w) && SerialInv(w, db) && FromWorld(w, env) && RightAnswer(env, n)
    requires NoSkip(startBlock, db, end)
    ensures HasNoSkip(startBlock, SyncBlock(startBlock, db, n, env).db) <==> !MakesHole(startBlock, db, end, n, env)
  {
    var db' := SyncBlock(startBlock, db, n, env).db;
    CallTouchesOnlyItsBlock(startBlock, db, n, env);
    if n in db.blocks {
      if n + 1 < end {
        CompletedUndoneIff(w, startBlock, db, n, env);
      }
    } else {
      StoredIff(w, startBlock, db, n, env);
      if Stores(startBlock, db, n, env) {
        AcceptedWhere(startBlock, db, end, n, env);
      }
    }
    hide SyncBlock, Stores, TakesBack, SerialInv, HasNoSkip;
    if MakesHole(startBlock, db, end, n, env) {
      HoleBreaks(startBlock, db, db', end, n);
    } else {
      NoHoleKeeps(startBlock, db, db', end, n);
    }
  }

  /** One failed listing in a manual call on a filled block below the cursor: the cursor stays, the block is gone from the readers. */
  lemma FailedListingBelowCursor(w: World, startBlock: uint64, db: Db, end: nat, n: uint64, cursor: uint64)
    requires WellFormed(w) && SerialInv(w, db) && NoSkip(startBlock, db, end)
    requires LatestFullySyncedBlockNumber(db) == Some(cursor) && startBlock <= n < cursor && db.blocks[n].txCount > 0
    ensures db.blocks[n].hash in w.blocks
    ensures var db' := SyncBlock(startBlock, db, n, FailedListing(w.blocks[db.blocks[n].hash])).db;
            && !HasNoSkip(startBlock, db')
            && LatestFullySyncedBlockNumber(db') == Some(cursor)
            && n !in CompletedFrom(db', startBlock) && cursor in CompletedFrom(db', startBlock)
  {
    CursorUnderNoSkip(startBlock, db, end);
    OneFailedListingUndoes(w, startBlock, db, n);
    hide SyncBlock, FailedListing, SerialInv, WellFormed, LatestFullySyncedBlockNumber, CompletedFrom, FromWorld, RightNumber;
    UndoneBelowCursor(startBlock, db, end, n, cursor, SyncColumns(true, false, ReceiptsFailed, Some(DbFailure)));
  }

  lemma UndoneBelowCursor(startBlock: uint64, db: Db, end: nat, n: uint64, cursor: uint64, sync: SyncColumns)
    requires NoSkip(startBlock, db, end) && LatestFullySyncedBlockNumber(db) == Some(cursor)
    requires startBlock <= n < cursor && n in db.blocks && sync.status != CompletedStatus
    ensures var db' := SetSync(db, n, sync);
            && !HasNoSkip(startBlock, db')
            && LatestFullySyncedBlockNumber(db') == Some(cursor)
            && n !in CompletedFrom(db', startBlock) && cursor in CompletedFrom(db', startBlock)
  {
    var db' := SetSync(db, n, sync);
    assert cursor in CompletedNumbers(db);
    assert cursor in db.blocks && Completed(db.blocks[cursor]);
    assert forall m :: m in CompletedNumbers(db') <==> m in CompletedNumbers(db) && m != n;
    HoleBreaks(startBlock, db, db', end, n);
  }

  // ---- A run that shows it ----

  const FIRST := RpcBlock(0, 1, 0, 0, "", 0, 0, [RpcTx(5, Some("a"), None, TxBody(0, "0", 0, "0", ""))])

  const SECOND := RpcBlock(1, 2, 1, 0, "", 0, 0, [])

  function TwoBlocks(): World {
    World(map[1 := FIRST, 2 := SECOND], map[])
  }

  function TwoBlockTick(): Tick {
    Tick(true, Some(1),
         Env((n: uint64) => if n == 0 then Fetched(FIRST) else if n == 1 then Fetched(SECOND) else NoSuchBlock, op => true, h => NoReceipt))
  }

  lemma TwoBlocksAreSmooth()
    ensures SingleChain(TwoBlocks()) && Smooth(TwoBlocks(), 0, 1, TwoBlockTick())
  {
    TwoBlocksAreAChain();
    hide SingleChain;
  }

  lemma TwoBlocksAreAChain()
    ensures SingleChain(TwoBlocks())
  {
    PairIsAChain(FIRST, SECOND);
    hide SingleChain;
  }

  lemma PairIsAChain(a: RpcBlock, b: RpcBlock)
    requires a.hash != b.hash && b.number == a.number + 1 && b.parentHash == a.hash && |a.txs| == 1 && b.txs == []
    ensures SingleChain(World(map[a.hash := a, b.hash := b], map[]))
  {
    var w := World(map[a.hash := a, b.hash := b], map[]);
    assert forall k | k in w.blocks :: w.blocks[k] == (if k == b.hash then b else a) && k == w.blocks[k].hash;
  }

  /** Two indexer steps store and complete blocks 0 and 1; a manual call for block 0 then leaves a hole below the cursor. */
  lemma ManualCallBreaksNoSkip() returns (ticks: seq<Tick>, env: Env)
    ensures forall i | 0 <= i < |ticks| :: RightNumber(ticks[i].call)
    ensures RightNumber(env)
    ensures HasNoSkip(0, RunTicks(0, EMPTY, ticks))
    ensures var db := SyncBlock(0, RunTicks(0, EMPTY, ticks), 0, env).db;
            !HasNoSkip(0, db) && LatestFullySyncedBlockNumber(db) == Some(1) && 0 in db.blocks && !Completed(db.blocks[0])
  {
    hide *;
    ticks := TwoBlocksIndexed();
    env := BreakBelowCursor(TwoBlocks(), RunTicks(0, EMPTY, ticks));
  }

  lemma TwoBlocksIndexed() returns (ticks: seq<Tick>)
    ensures forall i | 0 <= i < |ticks| :: RightNumber(ticks[i].call)
    ensures var db := RunTicks(0, EMPTY, ticks);
            && WellFormed(TwoBlocks()) && SerialInv(TwoBlocks(), db) && AllDone(0, db, 2)
            && LatestFullySyncedBlockNumber(db) == Some(1)
            && 0 in db.blocks && db.blocks[0].txCount > 0
  {
    TwoBlocksAreSmooth();
    hide *;
    ticks := TwoSteps(TwoBlocks(), TwoBlockTick());
    FirstHasOne(RunTicks(0, EMPTY, ticks));
  }

  lemma TwoSteps(w: World, tick: Tick) returns (ticks: seq<Tick>)
    requires SingleChain(w) && Smooth(w, 0, 1, tick)
    ensures forall i | 0 <= i < |ticks| :: RightNumber(ticks[i].call)
    ensures var db := RunTicks(0, EMPTY, ticks);
            WellFormed(w) && SerialInv(w, db) && AllDone(0, db, 2) && LatestFullySyncedBlockNumber(db) == Some(1)
  {
    SmoothUp(w, 0, 1, tick);
    assert WellFormed(w) && EndAfter(0, 1, 2) == 2 && Top(1) == 1;
    hide *;
    ticks := [tick, tick];
    SmoothTicks(w, 0, 1, ticks);
    CursorAfter(w, 0, 1, ticks);
  }

  lemma BreakBelowCursor(w: World, db: Db) returns (env: Env)
    requires WellFormed(w) && SerialInv(w, db) && AllDone(0, db, 2) && LatestFullySyncedBlockNumber(db) == Some(1)
    requires 0 in db.blocks && db.blocks[0].txCount > 0
    ensures RightNumber(env) && HasNoSkip(0, db)
    ensures var db' := SyncBlock(0, db, 0, env).db;
            !HasNoSkip(0, db') && LatestFullySyncedBlockNumber(db') == Some(1) && 0 in db'.blocks && !Completed(db'.blocks[0])
  {
    assert NoSkip(0, db, 2) && Completed(db.blocks[0]);
    hide SyncBlock, FailedListing, SerialInv, WellFormed, NoSkip, LatestFullySyncedBlockNumber, HasNoSkip, CompletedFrom;
    OneFailedListingUndoes(w, 0, db, 0);
    FailedListingBelowCursor(w, 0, db, 2, 0, 1);
    env := FailedListing(w.blocks[db.blocks[0].hash]);
    assert HasNoSkip(0, db) by { Witness(db, 2); }
  }

  lemma Witness(db: Db, end: nat)
    requires NoSkip(0, db, end)
    ensures HasNoSkip(0, db)
  {
  }

  lemma FirstHasOne(db: Db)
    requires SerialInv(TwoBlocks(), db) && AllDone(0, db, 2)
    ensures 0 in db.blocks && db.blocks[0].txCount == 1
  {
    assert db.blocks[0].(sync := UNSYNCED).number == ToBlockModel(TwoBlocks().blocks[db.blocks[0].hash]).number;
    assert db.blocks[0].(sync := UNSYNCED).txCount == db.blocks[0].txCount;
  }
}
