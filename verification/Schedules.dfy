/**
 * The serial functions are one schedule of the interleaved steps: a call that runs alone goes through the same
 * program counters and ends with the same store and the same result. So what holds of every interleaving holds of
 * every serial run, the indexer's included.
 */
module Schedules {
  import opened Types
  import opened Models
  import opened Mapper
  import opened Store
  import opened Sync
  import opened Consistency
  import opened SerialCall
  import opened CatchUp
  import opened Interleaving
  import opened ChainRuns
  import opened Readers
  import opened Indexer

  function Reply(up: bool): Answer {
    if up then Goes else Fails
  }

  /** What the world of a serial call answers at this point of the call. */
  function AnswerTo(db: Db, call: Call, env: Env): Answer {
    match call.pc
    case Fetching =>
      (match env.fetch(call.n)
       case Fetched(block) => GotBlock(block)
       case NoSuchBlock => NotFound
       case FetchFailed => Fails)
    case ReadingBlock(_) => Reply(env.up(ReadBlock))
    case ReadingParent(_) => Reply(env.up(ReadParent))
    case ReadingTxs(_) => Reply(env.up(ReadTxs))
    case Inserting(_) => Reply(env.up(InsertRows))
    case ListingRows => if env.up(ListMissing) then Listed(MissingReceipts(db, call.n)) else Fails
    case AskingReceipt(rows) =>
      if rows == [] then Goes
      else
        (match env.receipt(rows[0].hash)
         case NoReceipt => NotFound
         case ReceiptFailed => Fails
         case Answered(receipt) => GotReceipt(receipt))
    case StoringReceipt(rows, _) => if rows == [] then Fails else Reply(env.up(StoreReceipt(rows[0].hash)))
    case MarkingSynced => Reply(env.up(MarkSynced))
    case MarkingFailed(_) => Reply(env.up(MarkFailed))
    case Done(_) => Goes
  }

  function RestInsert(db: Db, block: RpcBlock, n: uint64, env: Env): Outcome {
    if !env.up(InsertRows) || block.number >= TWO_63 then Outcome(db, Some(DbFailure))
    else
      var inserted := InsertBlockWithTransactions(db, InsertedRow(block), RowsOf(block));
      if block.txs == [] then Outcome(inserted, None) else FinishReceipts(inserted, n, env)
  }

  function RestValidated(db: Db, block: RpcBlock, n: uint64, env: Env): Outcome {
    if !SendersRecovered(block) then Outcome(db, Some(SenderUnrecovered))
    else
      match ValidateTransactions(db, RowsOf(block), env)
      case Some(e) => Outcome(db, Some(e))
      case None => RestInsert(db, block, n, env)
  }

  function RestParent(startBlock: uint64, db: Db, block: RpcBlock, n: uint64, env: Env): Outcome {
    if block.number == 0 || !env.up(ReadParent) then Outcome(db, Some(DbFailure))
    else
      match JudgeParent(BlockAt(db, block.number - 1), ToBlockModel(block), startBlock)
      case Some(e) => Outcome(db, Some(e))
      case None => RestValidated(db, block, n, env)
  }

  function RestBlock(startBlock: uint64, db: Db, block: RpcBlock, n: uint64, env: Env): Outcome {
    match ValidateBlock(startBlock, db, ToBlockModel(block), env)
    case Some(e) => Outcome(db, Some(e))
    case None => RestValidated(db, block, n, env)
  }

  function RestStore(db: Db, rows: seq<TxRow>, receipt: Receipt, env: Env): Outcome {
    if rows == [] || !env.up(StoreReceipt(rows[0].hash)) then Outcome(db, Some(DbFailure))
    else if rows[0].hash !in db.txs then Outcome(db, Some(TxNotFound))
    else SyncReceipts(UpdateReceipt(db, rows[0].hash, receipt.status, receipt.gasUsed), rows[1..], env)
  }

  /** How a call left to itself will end, from where it stands. */
  function Rest(startBlock: uint64, db: Db, call: Call, env: Env): Outcome {
    var n := call.n;
    match call.pc
    case Fetching => SyncBlock(startBlock, db, n, env)
    case ReadingBlock(block) => RestBlock(startBlock, db, block, n, env)
    case ReadingParent(block) => RestParent(startBlock, db, block, n, env)
    case ReadingTxs(block) =>
      if !env.up(ReadTxs) then Outcome(db, Some(DbFailure))
      else if TransactionsAgree(db.txs, RowsOf(block)) then RestInsert(db, block, n, env)
      else Outcome(db, Some(ChainDataConflict))
    case Inserting(block) => RestInsert(db, block, n, env)
    case ListingRows => FinishReceipts(db, n, env)
    case AskingReceipt(rows) => MarkOutcome(SyncReceipts(db, rows, env), n, env)
    case StoringReceipt(rows, receipt) => MarkOutcome(RestStore(db, rows, receipt, env), n, env)
    case MarkingSynced => MarkOutcome(Outcome(db, None), n, env)
    case MarkingFailed(reason) => MarkOutcome(Outcome(db, Some(reason)), n, env)
    case Done(err) => Outcome(db, err)
  }

  function Stage(pc: Pc): nat {
    match pc
    case Fetching => 8
    case ReadingBlock(_) => 7
    case ReadingParent(_) => 6
    case ReadingTxs(_) => 5
    case Inserting(_) => 4
    case ListingRows => 3
    case AskingReceipt(_) => 2
    case StoringReceipt(_, _) => 2
    case MarkingSynced => 1
    case MarkingFailed(_) => 1
    case Done(_) => 0
  }

  /** The work left in the receipt loop: two steps a row, one when the receipt is already there. */
  function LoopSteps(pc: Pc): nat {
    match pc
    case AskingReceipt(rows) => 2 * |rows| + 1
    case StoringReceipt(rows, _) => 2 * |rows|
    case _ => 0
  }

  lemma SerialListing(db: Db, n: uint64)
    ensures IsListing(db, n, MissingReceipts(db, n))
  {
    var rows := MissingReceipts(db, n);
    forall i, j | 0 <= i < j < |rows|
      ensures rows[i].txIndex <= rows[j].txIndex && rows[i] != rows[j]
    {
      assert rows[i] in MissingRows(db, n) && rows[j] in MissingRows(db, n);
      assert TxBefore(rows[i], rows[j]);
    }
  }

  /** The step keeps the rest and leaves less of it. */
  ghost predicate RestKept(startBlock: uint64, db: Db, call: Call, env: Env) {
    var move := StepCall(startBlock, db, call, AnswerTo(db, call, env));
    && Rest(startBlock, move.db, Call(call.n, move.pc), env) == Rest(startBlock, db, call, env)
    && (Stage(move.pc) < Stage(call.pc) || (Stage(move.pc) == Stage(call.pc) && LoopSteps(move.pc) < LoopSteps(call.pc)))
  }

  lemma FetchStepKeepsRest(startBlock: uint64, db: Db, call: Call, env: Env)
    requires call.pc.Fetching?
    ensures RestKept(startBlock, db, call, env)
  {
    hide FinishReceipts, InsertBlockWithTransactions, InsertedRow, TransactionsAgree, JudgeExisting, JudgeParent;
  }

  lemma RestOfValidated(startBlock: uint64, db: Db, block: RpcBlock, n: uint64, env: Env)
    ensures Rest(startBlock, db, Call(n, Validated(block)), env) == RestValidated(db, block, n, env)
    ensures Stage(Validated(block)) <= 5
  {
    hide RestInsert, TransactionsAgree;
  }

  /** What is left once the existing row was read, and found absent, equal or different. */
  lemma RestOfRead(startBlock: uint64, db: Db, block: RpcBlock, n: uint64, env: Env)
    requires env.up(ReadBlock)
    ensures RestBlock(startBlock, db, block, n, env) ==
            match JudgeExisting(BlockAt(db, block.number), ToBlockModel(block))
            case Accept => RestValidated(db, block, n, env)
            case Reject(e) => Outcome(db, Some(e))
            case AskParent => RestParent(startBlock, db, block, n, env)
  {
    hide RestValidated, JudgeParent;
  }

  lemma ReadBlockStepKeepsRest(startBlock: uint64, db: Db, call: Call, env: Env)
    requires call.pc.ReadingBlock?
    ensures RestKept(startBlock, db, call, env)
  {
    var block := call.pc.block;
    StageValues(block);
    if env.up(ReadBlock) {
      RestOfRead(startBlock, db, block, call.n, env);
      RestOfValidated(startBlock, db, block, call.n, env);
      hide RestBlock;
    }
    hide RestValidated, RestParent, JudgeExisting, SyncBlock, Validated, Stage, FinishReceipts, RestInsert;
    hide InsertBlockWithTransactions, TransactionsAgree, UpdateReceipt, MarkOutcome, MissingReceipts, IsListing, LoopHead;
  }

  lemma ReadParentStepKeepsRest(startBlock: uint64, db: Db, call: Call, env: Env)
    requires call.pc.ReadingParent?
    ensures RestKept(startBlock, db, call, env)
  {
    RestOfValidated(startBlock, db, call.pc.block, call.n, env);
    hide RestValidated, RestInsert, SyncBlock, FinishReceipts, Validated, Stage, JudgeParent, RowsOf, InsertBlockWithTransactions, TransactionsAgree, UpdateReceipt, MarkOutcome, MissingReceipts, IsListing, LoopHead;
    StageValues(call.pc.block);
  }

  lemma StageValues(block: RpcBlock)
    ensures Stage(ReadingBlock(block)) == 7 && Stage(ReadingParent(block)) == 6
    ensures forall err :: Stage(Done(err)) == 0
  {
  }

  lemma ReadTxsStepKeepsRest(startBlock: uint64, db: Db, call: Call, env: Env)
    requires call.pc.ReadingTxs?
    ensures RestKept(startBlock, db, call, env)
  {
    hide RestInsert, SyncBlock, FinishReceipts, TransactionsAgree;
  }

  lemma InsertStepKeepsRest(startBlock: uint64, db: Db, call: Call, env: Env)
    requires call.pc.Inserting?
    ensures RestKept(startBlock, db, call, env)
  {
    hide InsertBlockWithTransactions, InsertedRow, FinishReceipts;
  }

  lemma ListStepKeepsRest(startBlock: uint64, db: Db, call: Call, env: Env)
    requires call.pc.ListingRows?
    ensures RestKept(startBlock, db, call, env)
  {
    SerialListing(db, call.n);
    hide MissingReceipts, IsListing, MarkOutcome;
  }

  lemma RestOfLoopHead(startBlock: uint64, db: Db, n: uint64, rows: seq<TxRow>, env: Env)
    ensures Rest(startBlock, db, Call(n, LoopHead(rows)), env) == MarkOutcome(SyncReceipts(db, rows, env), n, env)
    ensures Stage(LoopHead(rows)) == if rows == [] then 1 else 2
    ensures LoopSteps(LoopHead(rows)) <= 2 * |rows| + 1
  {
    hide MarkOutcome;
  }

  lemma AskStepKeepsRest(startBlock: uint64, db: Db, call: Call, env: Env)
    requires call.pc.AskingReceipt?
    ensures RestKept(startBlock, db, call, env)
  {
    var rows := call.pc.rows;
    if rows != [] {
      RestOfLoopHead(startBlock, db, call.n, rows[1..], env);
    }
    hide UpdateReceipt, MarkOutcome, LoopHead, InsertBlockWithTransactions, TransactionsAgree, MissingReceipts, IsListing;
  }

  lemma StoreStepKeepsRest(startBlock: uint64, db: Db, call: Call, env: Env)
    requires call.pc.StoringReceipt?
    ensures RestKept(startBlock, db, call, env)
  {
    var rows, receipt := call.pc.rows, call.pc.receipt;
    if rows != [] {
      RestOfLoopHead(startBlock, UpdateReceipt(db, rows[0].hash, receipt.status, receipt.gasUsed), call.n, rows[1..], env);
    }
    hide UpdateReceipt, MarkOutcome, LoopHead, SyncReceipts;
  }

  lemma MarkStepKeepsRest(startBlock: uint64, db: Db, call: Call, env: Env)
    requires call.pc.MarkingSynced? || call.pc.MarkingFailed?
    ensures RestKept(startBlock, db, call, env)
  {
  }

  /** One step of a call, answered from its own world, does not change how the call will end. */
  lemma StepKeepsRest(startBlock: uint64, db: Db, call: Call, env: Env)
    requires !call.pc.Done?
    ensures RestKept(startBlock, db, call, env)
  {
    hide *;
    match call.pc
    case Fetching => FetchStepKeepsRest(startBlock, db, call, env);
    case ReadingBlock(_) => ReadBlockStepKeepsRest(startBlock, db, call, env);
    case ReadingParent(_) => ReadParentStepKeepsRest(startBlock, db, call, env);
    case ReadingTxs(_) => ReadTxsStepKeepsRest(startBlock, db, call, env);
    case Inserting(_) => InsertStepKeepsRest(startBlock, db, call, env);
    case ListingRows => ListStepKeepsRest(startBlock, db, call, env);
    case AskingReceipt(_) => AskStepKeepsRest(startBlock, db, call, env);
    case StoringReceipt(_, _) => StoreStepKeepsRest(startBlock, db, call, env);
    case MarkingSynced => MarkStepKeepsRest(startBlock, db, call, env);
    case MarkingFailed(_) => MarkStepKeepsRest(startBlock, db, call, env);
  }

  /** The world of a serial call answers only what this node may answer. */
  ghost predicate WithinNode(node: Node, env: Env) {
    node.ChainNode? ==>
      && (forall n: uint64 | env.fetch(n).Fetched? :: Knows(node.w, env.fetch(n).block) && env.fetch(n).block.number == n)
      && (forall h: Hash | env.receipt(h).NoReceipt? :: node.mayMissReceipts)
      && (forall h: Hash | env.receipt(h).Answered? && env.receipt(h).receipt.Some? ::
            h in node.w.receipts && env.receipt(h).receipt.value == node.w.receipts[h])
  }

  lemma AnswerPermitted(node: Node, db: Db, call: Call, env: Env)
    requires WithinNode(node, env)
    ensures Permits(node, call, AnswerTo(db, call, env))
  {
  }

  lemma {:induction false} DriveToEnd(node: Node, startBlock: uint64, s: State, id: nat, env: Env) returns (events: seq<Event>)
    requires WithinNode(node, env) && id < |s.calls|
    ensures var end := Rest(startBlock, s.db, s.calls[id], env); var s' := Run(node, startBlock, s, events);
            s'.db == end.db && s'.calls == s.calls[id := Call(s.calls[id].n, Done(end.err))]
    decreases Stage(s.calls[id].pc), LoopSteps(s.calls[id].pc)
  {
    var call := s.calls[id];
    if call.pc.Done? {
      events := [];
      assert s.calls == s.calls[id := call];
    } else {
      var answer := AnswerTo(s.db, call, env);
      AnswerPermitted(node, s.db, call, env);
      StepKeepsRest(startBlock, s.db, call, env);
      var first := [Advance(id, answer)];
      SingleEvent(node, startBlock, s, first[0]);
      hide StepCall, Rest, AnswerTo, Permits;
      var mid := Apply(node, startBlock, s, first[0]);
      var later := DriveToEnd(node, startBlock, mid, id, env);
      events := first + later;
      RunConcat(node, startBlock, s, first, later);
    }
  }

  lemma SingleEvent(node: Node, startBlock: uint64, s: State, ev: Event)
    ensures Run(node, startBlock, s, [ev]) == Apply(node, startBlock, s, ev)
  {
    assert [ev][..0] == [];
    assert Run(node, startBlock, s, []) == s;
  }

  /** A serial call is one schedule: started in any state and left alone, it ends as SyncBlock says. */
  lemma SerialCallIsASchedule(node: Node, startBlock: uint64, s: State, n: uint64, env: Env) returns (events: seq<Event>)
    requires WithinNode(node, env)
    ensures var end := SyncBlock(startBlock, s.db, n, env); var s' := Run(node, startBlock, s, events);
            s'.db == end.db && s'.calls == s.calls + [Call(n, Done(end.err))]
  {
    var id := |s.calls|;
    var started := Apply(node, startBlock, s, Start(n));
    SingleEvent(node, startBlock, s, Start(n));
    assert started.calls[id] == Call(n, Fetching) && started.db == s.db;
    assert Rest(startBlock, s.db, Call(n, Fetching), env) == SyncBlock(startBlock, s.db, n, env);
    hide SyncBlock, Rest;
    var later := DriveToEnd(node, startBlock, started, id, env);
    events := [Start(n)] + later;
    RunConcat(node, startBlock, s, [Start(n)], later);
  }

  /** Any serial sequence of calls is a run of the interleaved system. */
  lemma {:induction false} SerialRunIsASchedule(node: Node, startBlock: uint64, calls: seq<Request>) returns (events: seq<Event>)
    requires forall i | 0 <= i < |calls| :: WithinNode(node, calls[i].env)
    ensures Run(node, startBlock, INIT, events).db == RunRequests(startBlock, EMPTY, calls)
  {
    if calls == [] {
      events := [];
    } else {
      var last := |calls| - 1;
      var before := SerialRunIsASchedule(node, startBlock, calls[..last]);
      var s := Run(node, startBlock, INIT, before);
      var later := SerialCallIsASchedule(node, startBlock, s, calls[last].n, calls[last].env);
      events := before + later;
      RunConcat(node, startBlock, INIT, before, later);
    }
  }

  /** The steps of the indexer are such a sequence: one call for each step that makes one. */
  lemma {:induction false} TicksAreRequests(startBlock: uint64, ticks: seq<Tick>) returns (calls: seq<Request>)
    ensures RunRequests(startBlock, EMPTY, calls) == RunTicks(startBlock, EMPTY, ticks)
    ensures forall i | 0 <= i < |calls| :: exists j :: 0 <= j < |ticks| && ticks[j].call == calls[i].env
  {
    calls := [];
    if ticks == [] {
    } else {
      var last := |ticks| - 1;
      var before := TicksAreRequests(startBlock, ticks[..last]);
      var db := RunTicks(startBlock, EMPTY, ticks[..last]);
      var tick := ticks[last];
      var next := NextBlock(startBlock, db);
      if tick.cursorUp && tick.target.Some? && next <= tick.target.value {
        calls := before + [Request(next, tick.call)];
        assert calls[..|before|] == before;
        assert ticks[last].call == calls[|before|].env;
      } else {
        calls := before;
      }
      forall i | 0 <= i < |before|
        ensures exists j :: 0 <= j < |ticks| && ticks[j].call == calls[i].env
      {
        var j :| 0 <= j < last && ticks[..last][j].call == before[i].env;
        assert ticks[j].call == calls[i].env;
      }
    }
  }

  /** The store a background indexer leaves, whatever the node and the database answered, has the safety of all runs. */
  lemma IndexerRunsAreSafe(startBlock: uint64, ticks: seq<Tick>)
    ensures Shapes(RunTicks(startBlock, EMPTY, ticks)) && Linked(startBlock, RunTicks(startBlock, EMPTY, ticks))
    ensures exists answered :: Provenance(RunTicks(startBlock, EMPTY, ticks), answered)
  {
    var calls := TicksAreRequests(startBlock, ticks);
    var events := SerialRunIsASchedule(AnyNode, startBlock, calls);
    AlwaysSafe(AnyNode, startBlock, events);
    assert Provenance(RunTicks(startBlock, EMPTY, ticks), Run(AnyNode, startBlock, INIT, events).answered);
  }

  // ---- The indexed prefix ----

  /** Block n and the block before it are completed, and n names that block's hash as its parent. */
  ghost predicate FollowsItsParent(db: Db, n: uint64) {
    && n > 0 && n - 1 in db.blocks && n in db.blocks
    && Completed(db.blocks[n - 1]) && Completed(db.blocks[n])
    && db.blocks[n].parentHash == db.blocks[n - 1].hash
  }

  /** Whatever the node and the database answered, the blocks up to the cursor form one chain linked by hashes. */
  lemma CursorPrefixIsLinked(startBlock: uint64, ticks: seq<Tick>)
    requires forall i | 0 <= i < |ticks| :: RightNumber(ticks[i].call)
    ensures var db := RunTicks(startBlock, EMPTY, ticks);
            LatestFullySyncedBlockNumber(db).Some? ==>
              forall n: uint64 | startBlock < n <= LatestFullySyncedBlockNumber(db).value :: FollowsItsParent(db, n)
  {
    var end := NoBlockSkipped(startBlock, ticks);
    IndexerRunsAreSafe(startBlock, ticks);
  }

  lemma ChainTicksAreARun(w: World, startBlock: uint64, ticks: seq<Tick>) returns (events: seq<Event>)
    requires forall i | 0 <= i < |ticks| :: WithinNode(ChainNode(w, false), ticks[i].call)
    ensures Run(ChainNode(w, false), startBlock, INIT, events).db == RunTicks(startBlock, EMPTY, ticks)
  {
    var calls := TicksAreRequests(startBlock, ticks);
    events := SerialRunIsASchedule(ChainNode(w, false), startBlock, calls);
  }

  /**
   * The indexer against one chain whose node may fail at any call but never answers "receipt not found": every block
   * from startBlock to the cursor is stored as the chain has it, with all its transactions and their receipts.
   */
  lemma IndexedPrefixIsTheChain(w: World, startBlock: uint64, ticks: seq<Tick>)
    requires SingleChain(w)
    requires forall i | 0 <= i < |ticks| :: WithinNode(ChainNode(w, false), ticks[i].call)
    ensures var db := RunTicks(startBlock, EMPTY, ticks);
            LatestFullySyncedBlockNumber(db).Some? ==>
              forall n: uint64 | startBlock <= n <= LatestFullySyncedBlockNumber(db).value :: CompleteOnChain(w, db, n)
  {
    var end := NoBlockSkipped(startBlock, ticks);
    var events := ChainTicksAreARun(w, startBlock, ticks);
    var db := RunTicks(startBlock, EMPTY, ticks);
    hide CompleteOnChain, SingleChain, Run, RunTicks;
    forall n: uint64 | n in db.blocks && Completed(db.blocks[n])
      ensures CompleteOnChain(w, db, n)
    {
      CompletedBlocksAreComplete(w, startBlock, events, n);
    }
  }
}
