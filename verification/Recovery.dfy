/**
 * After any failures the indexer catches up: from whatever store a run over one chain has left, steps without failures
 * complete the pending block first and then one block each, up to the target.
 */
module Recovery {
  import opened Types
  import opened Models
  import opened Mapper
  import opened Store
  import opened Sync
  import opened Consistency
  import opened SerialCall
  import opened Outcomes
  import opened Indexer
  import opened CatchUp

  /** On one chain the call for a block stored earlier is not refused. */
  lemma StoredNotRefused(w: World, startBlock: uint64, target: uint64, db: Db, n: uint64, tick: Tick)
    requires SingleChain(w) && SerialInv(w, db) && Smooth(w, startBlock, target, tick)
    requires n in db.blocks && startBlock <= n <= target
    ensures Refusal(startBlock, db, n, tick.call).None?
    ensures tick.call.fetch(n).Fetched? && Knows(w, tick.call.fetch(n).block) && tick.call.fetch(n).block.number == n
    ensures db.blocks[n].hash == tick.call.fetch(n).block.hash
  {
    HashNamesNumber(w, db, n);
  }

  lemma PendingCallSucceeds(w: World, startBlock: uint64, target: uint64, db: Db, n: uint64, tick: Tick)
    requires SingleChain(w) && SerialInv(w, db) && Smooth(w, startBlock, target, tick)
    requires n in db.blocks && startBlock <= n <= target
    ensures SyncBlock(startBlock, db, n, tick.call).err.None?
  {
    SmoothUp(w, startBlock, target, tick);
    StoredNotRefused(w, startBlock, target, db, n, tick);
    RefusedCall(w, startBlock, db, n, tick.call);
    var block := tick.call.fetch(n).block;
    InsertStoredAgain(w, db, block);
    FinishSucceeds(w, startBlock, target, db, n, tick);
    hide Refusal, SingleChain, Smooth, Agreement, InsertFetched, FinishReceipts;
  }

  /** A step without failures completes a block left pending. */
  lemma PendingStep(w: World, startBlock: uint64, target: uint64, db: Db, end: nat, tick: Tick)
    requires SingleChain(w) && SerialInv(w, db) && Smooth(w, startBlock, target, tick)
    requires NoSkip(startBlock, db, end) && LastPending(startBlock, db, end)
    ensures var db' := RunOnce(startBlock, db, tick).db;
            SerialInv(w, db') && if end - 1 <= Top(target) then AllDone(startBlock, db', end) else db' == db
  {
    var n := end - 1;
    assert n in db.blocks && WellFormed(w);
    SmoothUp(w, startBlock, target, tick);
    NextUnderNoSkip(startBlock, db, end);
    StepOutcome(startBlock, db, tick, target);
    RunOnceKeeps(w, startBlock, db, tick);
    hide RunOnce, SyncBlock, NextBlock, SingleChain, Smooth, SerialInv, WellFormed, RightNumber, FromWorld;
    if n <= Top(target) {
      PendingCallSucceeds(w, startBlock, target, db, n, tick);
      SuccessMeansCompleted(w, startBlock, db, n, tick.call);
      AnswersRight(tick.call, n);
      var end' := RunOnceNoSkip(startBlock, db, end, tick);
      hide NoSkip, LastPending;
      DoneWithLast(startBlock, RunOnce(startBlock, db, tick).db, n);
    }
  }

  /** One step from any store of a run, taken from its next block. */
  lemma AnyStep(w: World, startBlock: uint64, target: uint64, db: Db, end: nat, tick: Tick)
    requires SingleChain(w) && SerialInv(w, db) && Smooth(w, startBlock, target, tick) && NoSkip(startBlock, db, end)
    ensures var db' := RunOnce(startBlock, db, tick).db; var n := NextBlock(startBlock, db);
            SerialInv(w, db') && if n <= Top(target) then AllDone(startBlock, db', n + 1) else db' == db
  {
    hide *;
    var pending := NextCase(startBlock, db, end);
    if pending {
      PendingStep(w, startBlock, target, db, end, tick);
    } else {
      SmoothStep(w, startBlock, target, db, end, tick);
    }
  }

  lemma NextCase(startBlock: uint64, db: Db, end: nat) returns (pending: bool)
    requires NoSkip(startBlock, db, end)
    ensures startBlock < end ==> end <= TWO_63 && end - 1 in db.blocks
    ensures pending <==> LastPending(startBlock, db, end)
    ensures NextBlock(startBlock, db) == if pending then end - 1 else end
    ensures startBlock <= NextBlock(startBlock, db)
    ensures !pending ==> AllDone(startBlock, db, end)
    ensures pending ==> startBlock < end
  {
    NextUnderNoSkip(startBlock, db, end);
    pending := LastPending(startBlock, db, end);
  }

  lemma {:induction false} RecoverTicks(w: World, startBlock: uint64, target: uint64, db: Db, end: nat, ticks: seq<Tick>)
    requires SingleChain(w) && SerialInv(w, db) && NoSkip(startBlock, db, end)
    requires forall i | 0 <= i < |ticks| :: Smooth(w, startBlock, target, ticks[i])
    ensures var db', n := RunTicks(startBlock, db, ticks), NextBlock(startBlock, db);
            && SerialInv(w, db')
            && if ticks == [] || n > Top(target) then db' == db else AllDone(startBlock, db', EndAfter(n, target, |ticks|))
  {
    var n := NextBlock(startBlock, db);
    hide SingleChain, SerialInv, Smooth, NextBlock, RunOnce, EndAfter, Top, AllDone, NoSkip;
    if ticks == [] {
    } else {
      var k := |ticks| - 1;
      RecoverTicks(w, startBlock, target, db, end, ticks[..k]);
      LastTick(startBlock, db, ticks);
      EndAfterStep(n, target, k);
      if k == 0 || n > Top(target) {
        AnyStep(w, startBlock, target, db, end, ticks[k]);
      } else {
        SmoothStep(w, startBlock, target, RunTicks(startBlock, db, ticks[..k]), EndAfter(n, target, k), ticks[k]);
      }
    }
  }

  lemma {:induction false} RunTicksConcat(startBlock: uint64, db: Db, a: seq<Tick>, b: seq<Tick>)
    ensures RunTicks(startBlock, db, a + b) == RunTicks(startBlock, RunTicks(startBlock, db, a), b)
  {
    hide RunOnce;
    if b == [] {
      assert a + b == a;
    } else {
      var last := |b| - 1;
      assert (a + b)[..|a + b| - 1] == a + b[..last];
      RunTicksConcat(startBlock, db, a, b[..last]);
    }
  }

  /**
   * Whatever went wrong in the steps before, k steps without failures then put the cursor at
   * min(target, 2^63-1, next + k - 1), where next is the block the first of them takes.
   */
  lemma RecoversAfterFailures(w: World, startBlock: uint64, target: uint64, before: seq<Tick>, after: seq<Tick>)
    requires SingleChain(w)
    requires forall i | 0 <= i < |before| :: FromWorld(w, before[i].call) && RightNumber(before[i].call)
    requires forall i | 0 <= i < |after| :: Smooth(w, startBlock, target, after[i])
    ensures var db, db' := RunTicks(startBlock, EMPTY, before), RunTicks(startBlock, EMPTY, before + after);
            var next := NextBlock(startBlock, db);
            if after == [] || next > Top(target) then db' == db
            else
              LatestFullySyncedBlockNumber(db') ==
              if next + |after| - 1 <= Top(target) then Some(next + |after| - 1) else Some(Top(target))
  {
    hide *;
    ChainIsWellFormed(w);
    TicksKeep(w, startBlock, before);
    var end := TicksNoSkip(startBlock, before);
    RunTicksConcat(startBlock, EMPTY, before, after);
    CursorAfterRecovery(w, startBlock, target, RunTicks(startBlock, EMPTY, before), end, after);
  }

  lemma ChainIsWellFormed(w: World)
    requires SingleChain(w)
    ensures WellFormed(w)
  {
  }

  lemma CursorAfterRecovery(w: World, startBlock: uint64, target: uint64, db: Db, end: nat, after: seq<Tick>)
    requires SingleChain(w) && SerialInv(w, db) && NoSkip(startBlock, db, end)
    requires forall i | 0 <= i < |after| :: Smooth(w, startBlock, target, after[i])
    ensures var db' := RunTicks(startBlock, db, after); var next := NextBlock(startBlock, db);
            if after == [] || next > Top(target) then db' == db
            else
              LatestFullySyncedBlockNumber(db') ==
              if next + |after| - 1 <= Top(target) then Some(next + |after| - 1) else Some(Top(target))
  {
    hide *;
    var next := NextBlock(startBlock, db);
    var pending := NextCase(startBlock, db, end);
    RecoverTicks(w, startBlock, target, db, end, after);
    if after != [] && next <= Top(target) {
      EndAfterStep(next, target, |after|);
      CursorWhenAllDone(startBlock, RunTicks(startBlock, db, after), EndAfter(next, target, |after|));
    }
  }
}
