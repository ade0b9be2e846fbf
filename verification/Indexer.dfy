/** The indexer: which block it takes next, one step, and what whole runs of steps keep. */
module Indexer {
  import opened Types
  import opened Models
  import opened Mapper
  import opened Store
  import opened Sync
  import opened Consistency
  import opened SerialCall

  /** The outside world during one step: the cursor query, the sync target, and the call the step may make. */
  datatype Tick = Tick(cursorUp: bool, target: Option<uint64>, call: Env)

  datatype OnceResult = OnceResult(
    dbLatest: Option<uint64>, target: uint64, next: uint64, synced: bool, syncedBlock: Option<uint64>)

  datatype TickOutcome = TickOutcome(db: Db, result: Result<OnceResult>)

  function NextBlock(startBlock: uint64, db: Db): uint64 {
    match LatestFullySyncedBlockNumber(db)
    case Some(latest) => Wrap64(latest + 1)
    case None => startBlock
  }

  function RunOnce(startBlock: uint64, db: Db, tick: Tick): TickOutcome {
    if !tick.cursorUp then TickOutcome(db, Err(DbFailure))
    else if tick.target.None? then TickOutcome(db, Err(RpcFailure))
    else
      var next := NextBlock(startBlock, db);
      var idle := OnceResult(LatestFullySyncedBlockNumber(db), tick.target.value, next, false, None);
      if next > tick.target.value then TickOutcome(db, Ok(idle))
      else
        var out := SyncBlock(startBlock, db, next, tick.call);
        match out.err
        case Some(e) => TickOutcome(out.db, Err(e))
        case None => TickOutcome(out.db, Ok(idle.(synced := true, syncedBlock := Some(next))))
  }

  /** The store after a run of steps, whatever each of them returned. */
  function RunTicks(startBlock: uint64, db: Db, ticks: seq<Tick>): Db {
    if ticks == [] then db
    else RunOnce(startBlock, RunTicks(startBlock, db, ticks[..|ticks| - 1]), ticks[|ticks| - 1]).db
  }

  datatype Request = Request(n: uint64, env: Env)

  /** The store after any serial sequence of SyncBlockToDB calls, manual ones included. */
  function RunRequests(startBlock: uint64, db: Db, calls: seq<Request>): Db {
    if calls == [] then db
    else
      var last := calls[|calls| - 1];
      SyncBlock(startBlock, RunRequests(startBlock, db, calls[..|calls| - 1]), last.n, last.env).db
  }

  ghost predicate LargestCompleted(db: Db, m: uint64) {
    m in db.blocks && Completed(db.blocks[m]) && forall n | n in db.blocks && Completed(db.blocks[n]) :: n <= m
  }

  ghost predicate NoneCompleted(db: Db) {
    forall n | n in db.blocks :: !Completed(db.blocks[n])
  }

  /** What a step reports: the cursor it found, the node's target, the next number, and whether that was synced. */
  ghost predicate ReportsStep(startBlock: uint64, db: Db, tick: Tick, r: OnceResult) {
    && tick.target == Some(r.target)
    && (r.dbLatest.None? ==> NoneCompleted(db) && r.next == startBlock)
    && (r.dbLatest.Some? ==> LargestCompleted(db, r.dbLatest.value) && r.next == r.dbLatest.value + 1)
    && (r.synced <==> r.next <= r.target)
    && r.syncedBlock == if r.synced then Some(r.next) else None
  }

  /** The step rests at the target, or is the call for n and ends as that call does. */
  ghost predicate StepIs(startBlock: uint64, db: Db, tick: Tick, n: uint64, out: TickOutcome)
    requires tick.target.Some?
  {
    if n > tick.target.value then out.db == db && out.result.Ok?
    else
      var call := SyncBlock(startBlock, db, n, tick.call);
      out.db == call.db && (if call.err.Some? then out.result == Err(call.err.value) else out.result.Ok?)
  }

  /**
   * A step fails without writing when the cursor or the target cannot be read, in this order. Otherwise it takes
   * startBlock or the number after the largest completed one, and reports what it found and did.
   */
  lemma StepReport(startBlock: uint64, db: Db, tick: Tick) returns (next: uint64)
    ensures NoneCompleted(db) ==> next == startBlock
    ensures !NoneCompleted(db) ==> next > 0 && LargestCompleted(db, next - 1)
    ensures var out := RunOnce(startBlock, db, tick);
            && (!tick.cursorUp ==> out == TickOutcome(db, Err(DbFailure)))
            && (tick.cursorUp && tick.target.None? ==> out == TickOutcome(db, Err(RpcFailure)))
            && (tick.cursorUp && tick.target.Some? ==> StepIs(startBlock, db, tick, next, out))
            && (out.result.Ok? ==> tick.cursorUp && ReportsStep(startBlock, db, tick, out.result.value))
  {
    hide SyncBlock;
    assert forall n | n in db.blocks && Completed(db.blocks[n]) :: n in CompletedNumbers(db);
    next := NextBlock(startBlock, db);
  }

  // ---- Block/transaction agreement over serial runs ----

  lemma {:induction false} RequestsKeep(w: World, startBlock: uint64, calls: seq<Request>)
    requires WellFormed(w)
    requires forall i | 0 <= i < |calls| :: FromWorld(w, calls[i].env) && RightNumber(calls[i].env)
    ensures SerialInv(w, RunRequests(startBlock, EMPTY, calls))
  {
    if calls == [] {
    } else {
      var before := calls[..|calls| - 1];
      RequestsKeep(w, startBlock, before);
      var last := calls[|calls| - 1];
      SyncBlockKeeps(w, startBlock, RunRequests(startBlock, EMPTY, before), last.n, last.env);
    }
  }

  lemma RunOnceKeeps(w: World, startBlock: uint64, db: Db, tick: Tick)
    requires WellFormed(w) && SerialInv(w, db) && FromWorld(w, tick.call) && RightNumber(tick.call)
    ensures SerialInv(w, RunOnce(startBlock, db, tick).db)
  {
    SyncBlockKeeps(w, startBlock, db, NextBlock(startBlock, db), tick.call);
  }

  lemma {:induction false} TicksKeep(w: World, startBlock: uint64, ticks: seq<Tick>)
    requires WellFormed(w)
    requires forall i | 0 <= i < |ticks| :: FromWorld(w, ticks[i].call) && RightNumber(ticks[i].call)
    ensures SerialInv(w, RunTicks(startBlock, EMPTY, ticks))
  {
    if ticks == [] {
    } else {
      var before := ticks[..|ticks| - 1];
      TicksKeep(w, startBlock, before);
      RunOnceKeeps(w, startBlock, RunTicks(startBlock, EMPTY, before), ticks[|ticks| - 1]);
    }
  }

  /** Serial runs against a reorganising node: the two tables agree after every sequence of calls. */
  lemma SerialRunsAgree(w: World, startBlock: uint64, calls: seq<Request>)
    requires WellFormed(w)
    requires forall i | 0 <= i < |calls| :: FromWorld(w, calls[i].env) && RightNumber(calls[i].env)
    ensures var db := RunRequests(startBlock, EMPTY, calls);
            && (forall h | h in db.txs ::
                  && db.txs[h].blockNumber in db.blocks
                  && db.txs[h].blockHash == db.blocks[db.txs[h].blockNumber].hash
                  && db.txs[h].txIndex < db.blocks[db.txs[h].blockNumber].txCount)
            && (forall g, h | g in db.txs && h in db.txs && db.txs[g].blockNumber == db.txs[h].blockNumber
                    && db.txs[g].txIndex == db.txs[h].txIndex :: g == h)
            && (forall n | n in db.blocks ::
                  |HashesAt(db, n)| == db.blocks[n].txCount && forall i | 0 <= i < db.blocks[n].txCount :: StoredAt(db, n, i))
  {
    RequestsKeep(w, startBlock, calls);
    AgreementOnTables(w, RunRequests(startBlock, EMPTY, calls));
  }

  // ---- No block is skipped ----

  /** The stored numbers are startBlock, .., end-1, all completed except possibly the last. */
  ghost predicate NoSkip(startBlock: uint64, db: Db, end: nat) {
    && startBlock <= end
    && (startBlock < end ==> end <= TWO_63)
    && (forall n: uint64 :: n in db.blocks <==> startBlock <= n < end)
    && (forall n: uint64 | startBlock <= n && n + 1 < end :: Completed(db.blocks[n]))
  }

  predicate LastPending(startBlock: uint64, db: Db, end: nat)
    requires startBlock < end ==> end - 1 in db.blocks
  {
    startBlock < end && !Completed(db.blocks[end - 1])
  }

  lemma NextUnderNoSkip(startBlock: uint64, db: Db, end: nat)
    requires NoSkip(startBlock, db, end)
    ensures NextBlock(startBlock, db) == if LastPending(startBlock, db, end) then end - 1 else end
  {
    var s := CompletedNumbers(db);
    var top: int := if LastPending(startBlock, db, end) then end - 1 else end;
    forall n: uint64
      ensures n in s <==> startBlock <= n < top
    {
    }
    if startBlock < top {
      assert top - 1 in s;
    }
  }

  /** No block row but row n differs, and row n is not lost. */
  ghost predicate TouchesOnly(db: Db, db': Db, n: uint64) {
    && (n in db.blocks ==> n in db'.blocks)
    && (forall m | m in db'.blocks && m != n :: m in db.blocks && db'.blocks[m] == db.blocks[m])
    && (forall m | m in db.blocks && m != n :: m in db'.blocks)
  }

  lemma CallTouchesOnlyItsBlock(startBlock: uint64, db: Db, n: uint64, env: Env)
    requires RightAnswer(env, n)
    ensures TouchesOnly(db, SyncBlock(startBlock, db, n, env).db, n)
  {
    var prepared := Prepare(startBlock, db, n, env);
    if prepared.Ok? && env.up(InsertRows) && prepared.value.number < TWO_63 && prepared.value.txs != [] {
      FinishReceiptsFrame(InsertFetched(db, prepared.value), n, env);
    }
  }

  lemma StepTouchesOnlyNext(startBlock: uint64, db: Db, tick: Tick)
    requires RightNumber(tick.call)
    ensures TouchesOnly(db, RunOnce(startBlock, db, tick).db, NextBlock(startBlock, db))
    ensures RunOnce(startBlock, db, tick).db == db
         || (tick.target.Some? && NextBlock(startBlock, db) <= tick.target.value)
  {
    CallTouchesOnlyItsBlock(startBlock, db, NextBlock(startBlock, db), tick.call);
  }

  lemma NoSkipAdvances(startBlock: uint64, db: Db, db': Db, end: nat, n: uint64) returns (end': nat)
    requires NoSkip(startBlock, db, end) && TouchesOnly(db, db', n)
    requires n == if LastPending(startBlock, db, end) then end - 1 else end
    ensures NoSkip(startBlock, db', end')
    ensures end' == if n in db'.blocks && n == end then end + 1 else end
  {
    end' := if n in db'.blocks && n == end then end + 1 else end;
    forall m: uint64
      ensures m in db'.blocks <==> startBlock <= m < end'
    {
      assert m in db.blocks <==> startBlock <= m < end;
    }
    forall m: uint64 | startBlock <= m && m + 1 < end'
      ensures Completed(db'.blocks[m])
    {
      assert m != n;
      assert m in db.blocks;
    }
  }

  lemma RunOnceNoSkip(startBlock: uint64, db: Db, end: nat, tick: Tick) returns (end': nat)
    requires NoSkip(startBlock, db, end) && RightNumber(tick.call)
    ensures NoSkip(startBlock, RunOnce(startBlock, db, tick).db, end')
    ensures var n := NextBlock(startBlock, db);
            end' == if n in RunOnce(startBlock, db, tick).db.blocks && n == end then end + 1 else end
  {
    NextUnderNoSkip(startBlock, db, end);
    StepTouchesOnlyNext(startBlock, db, tick);
    end' := NoSkipAdvances(startBlock, db, RunOnce(startBlock, db, tick).db, end, NextBlock(startBlock, db));
  }

  lemma CursorUnderNoSkip(startBlock: uint64, db: Db, end: nat)
    requires NoSkip(startBlock, db, end) && LatestFullySyncedBlockNumber(db).Some?
    ensures forall n: uint64 | startBlock <= n <= LatestFullySyncedBlockNumber(db).value ::
              n in db.blocks && Completed(db.blocks[n])
  {
    var latest := LatestFullySyncedBlockNumber(db).value;
    assert latest in CompletedNumbers(db);
  }

  /**
   * In every state reached from an empty store by serial steps, with arbitrary failures and reorganisations, the
   * stored numbers are one interval from startBlock, and everything from startBlock to the cursor is completed.
   */
  lemma NoBlockSkipped(startBlock: uint64, ticks: seq<Tick>) returns (end: nat)
    requires forall i | 0 <= i < |ticks| :: RightNumber(ticks[i].call)
    ensures var db := RunTicks(startBlock, EMPTY, ticks);
            && NoSkip(startBlock, db, end)
            && (LatestFullySyncedBlockNumber(db).Some? ==>
                  forall n: uint64 | startBlock <= n <= LatestFullySyncedBlockNumber(db).value ::
                    n in db.blocks && Completed(db.blocks[n]))
  {
    end := TicksNoSkip(startBlock, ticks);
    var db := RunTicks(startBlock, EMPTY, ticks);
    if LatestFullySyncedBlockNumber(db).Some? {
      CursorUnderNoSkip(startBlock, db, end);
    }
  }

  lemma {:induction false} TicksNoSkip(startBlock: uint64, ticks: seq<Tick>) returns (end: nat)
    requires forall i | 0 <= i < |ticks| :: RightNumber(ticks[i].call)
    ensures NoSkip(startBlock, RunTicks(startBlock, EMPTY, ticks), end)
  {
    if ticks == [] {
      end := startBlock;
    } else {
      var before := ticks[..|ticks| - 1];
      var end0 := TicksNoSkip(startBlock, before);
      end := RunOnceNoSkip(startBlock, RunTicks(startBlock, EMPTY, before), end0, ticks[|ticks| - 1]);
    }
  }

  // ---- Progress ----

  function MissingHashes(db: Db, n: uint64): set<Hash> {
    set h | h in db.txs && db.txs[h].blockNumber == n && db.txs[h].LacksReceipt()
  }

  /** Blocks left to the target; whether the next block is still to be stored; receipts it still lacks. */
  datatype Remaining = Remaining(blocks: nat, unstored: nat, receipts: nat)
  {
    predicate NotAbove(other: Remaining) {
      || blocks < other.blocks
      || (blocks == other.blocks && unstored < other.unstored)
      || (blocks == other.blocks && unstored == other.unstored && receipts <= other.receipts)
    }
  }

  function RemainingWork(startBlock: uint64, db: Db, target: uint64): Remaining {
    var next := NextBlock(startBlock, db);
    Remaining(if next <= target then target - next + 1 else 0,
              if next in db.blocks then 0 else 1,
              |MissingHashes(db, next)|)
  }

  lemma SubsetSize<T>(a: set<T>, b: set<T>)
    requires a <= b
    ensures |a| <= |b|
    ensures a != b ==> |a| < |b|
  {
    assert b == a + (b - a);
    if a != b {
      var x :| x in b - a;
    }
  }

  /** A call on a block that is stored already adds no row and undoes no receipt. */
  lemma StoredCallKeepsReceipts(w: World, startBlock: uint64, db: Db, n: uint64, env: Env)
    requires WellFormed(w) && SerialInv(w, db) && FromWorld(w, env) && RightAnswer(env, n) && n in db.blocks
    ensures MissingHashes(SyncBlock(startBlock, db, n, env).db, n) <= MissingHashes(db, n)
  {
    var prepared := Prepare(startBlock, db, n, env);
    if prepared.Ok? && env.up(InsertRows) && prepared.value.number < TWO_63 {
      PreparedFits(w, startBlock, db, n, env);
      InsertStoredAgain(w, db, prepared.value);
      FinishKeepsReceipts(db, n, env);
      hide FinishReceipts, InsertFetched, Agreement, WellFormed, MissingHashes, Prepare;
    }
  }

  lemma FinishKeepsReceipts(db: Db, n: uint64, env: Env)
    ensures MissingHashes(FinishReceipts(db, n, env).db, n) <= MissingHashes(db, n)
  {
    FinishReceiptsFrame(db, n, env);
    hide FinishReceipts;
    var db' := FinishReceipts(db, n, env).db;
    forall h | h in MissingHashes(db', n)
      ensures h in MissingHashes(db, n)
    {
      assert db'.txs[h].WithoutReceipt().blockNumber == db.txs[h].WithoutReceipt().blockNumber;
    }
  }

  lemma NothingMissingWhenUnstored(w: World, db: Db, n: uint64)
    requires Agreement(w, db) && n !in db.blocks
    ensures MissingHashes(db, n) == {}
  {
    assert forall h | h in db.txs :: TxRowAgrees(w, db, db.txs[h]);
  }

  /**
   * For a fixed target no step, failing or not, increases the remaining work; a step that syncs lowers the number of
   * blocks left by exactly one; and a step that changes which receipts the next block lacks lowers the work.
   */
  lemma StepProgress(w: World, startBlock: uint64, db: Db, end: nat, tick: Tick, target: uint64)
    requires WellFormed(w) && SerialInv(w, db) && FromWorld(w, tick.call) && RightNumber(tick.call)
    requires NoSkip(startBlock, db, end)
    requires tick.target in {None, Some(target)}
    ensures var out := RunOnce(startBlock, db, tick);
            var before, after := RemainingWork(startBlock, db, target), RemainingWork(startBlock, out.db, target);
            var next := NextBlock(startBlock, db);
            && after.NotAbove(before)
            && (out.result.Ok? && out.result.value.synced ==> after.blocks + 1 == before.blocks)
            && (MissingHashes(out.db, next) != MissingHashes(db, next) ==> !before.NotAbove(after))
  {
    var n := NextBlock(startBlock, db);
    var db' := RunOnce(startBlock, db, tick).db;
    var end' := RunOnceNoSkip(startBlock, db, end, tick);
    StepTouchesOnlyNext(startBlock, db, tick);
    StepReceipts(w, startBlock, db, tick);
    StepSuccess(w, startBlock, db, tick);
    WorkAdvances(startBlock, db, db', end, end', target);
  }

  lemma StepReceipts(w: World, startBlock: uint64, db: Db, tick: Tick)
    requires WellFormed(w) && SerialInv(w, db) && FromWorld(w, tick.call) && RightNumber(tick.call)
    ensures var n := NextBlock(startBlock, db); var db' := RunOnce(startBlock, db, tick).db;
            && (n in db.blocks ==> MissingHashes(db', n) <= MissingHashes(db, n))
            && (n !in db'.blocks ==> MissingHashes(db', n) == MissingHashes(db, n) == {})
  {
    var n := NextBlock(startBlock, db);
    var db' := RunOnce(startBlock, db, tick).db;
    RunOnceKeeps(w, startBlock, db, tick);
    StepTouchesOnlyNext(startBlock, db, tick);
    if n in db.blocks {
      StoredCallKeepsReceipts(w, startBlock, db, n, tick.call);
    } else if n !in db'.blocks {
      NothingMissingWhenUnstored(w, db, n);
      NothingMissingWhenUnstored(w, db', n);
    }
  }

  lemma StepSuccess(w: World, startBlock: uint64, db: Db, tick: Tick)
    requires WellFormed(w) && SerialInv(w, db) && FromWorld(w, tick.call) && RightNumber(tick.call)
    ensures var n := NextBlock(startBlock, db); var out := RunOnce(startBlock, db, tick);
            out.result.Ok? && out.result.value.synced ==>
              n in out.db.blocks && Completed(out.db.blocks[n]) && tick.target.Some? && n <= tick.target.value
  {
    var n := NextBlock(startBlock, db);
    var out := RunOnce(startBlock, db, tick);
    if out.result.Ok? && out.result.value.synced {
      SuccessMeansCompleted(w, startBlock, db, n, tick.call);
    }
  }

  lemma WorkAdvances(startBlock: uint64, db: Db, db': Db, end: nat, end': nat, target: uint64)
    requires NoSkip(startBlock, db, end) && NoSkip(startBlock, db', end')
    requires var n := NextBlock(startBlock, db);
             && TouchesOnly(db, db', n)
             && (n <= target || db' == db)
             && end' == (if n in db'.blocks && n == end then end + 1 else end)
             && (n in db.blocks ==> MissingHashes(db', n) <= MissingHashes(db, n))
             && (n !in db'.blocks ==> MissingHashes(db', n) == MissingHashes(db, n) == {})
    ensures var before, after := RemainingWork(startBlock, db, target), RemainingWork(startBlock, db', target);
            var n := NextBlock(startBlock, db);
            && after.NotAbove(before)
            && (n in db'.blocks && Completed(db'.blocks[n]) && n <= target ==> after.blocks + 1 == before.blocks)
            && (MissingHashes(db', n) != MissingHashes(db, n) ==> !before.NotAbove(after))
  {
    var n := NextBlock(startBlock, db);
    NextUnderNoSkip(startBlock, db, end);
    NextUnderNoSkip(startBlock, db', end');
    if n in db.blocks {
      SubsetSize(MissingHashes(db', n), MissingHashes(db, n));
    }
  }

  ghost predicate TickTowards(w: World, tick: Tick, target: uint64) {
    FromWorld(w, tick.call) && RightNumber(tick.call) && tick.target in {None, Some(target)}
  }

  /** Along a whole run towards one target the remaining work never grows, whatever fails and however the node reorganises. */
  lemma {:induction false} WorkNeverGrows(w: World, startBlock: uint64, ticks: seq<Tick>, k: nat, target: uint64)
    requires WellFormed(w) && k <= |ticks|
    requires forall i | 0 <= i < |ticks| :: TickTowards(w, ticks[i], target)
    ensures RemainingWork(startBlock, RunTicks(startBlock, EMPTY, ticks), target).NotAbove(
              RemainingWork(startBlock, RunTicks(startBlock, EMPTY, ticks[..k]), target))
    decreases |ticks|
  {
    hide WellFormed, SerialInv, RemainingWork, RunOnce, NoSkip;
    if k == |ticks| {
      assert ticks[..k] == ticks;
    } else {
      var last := |ticks| - 1;
      var before := ticks[..last];
      assert before[..k] == ticks[..k];
      WorkNeverGrows(w, startBlock, before, k, target);
      TicksKeep(w, startBlock, before);
      var end := TicksNoSkip(startBlock, before);
      StepProgress(w, startBlock, RunTicks(startBlock, EMPTY, before), end, ticks[last], target);
    }
  }
}
