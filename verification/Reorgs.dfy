/**
 * Interleaved calls against a node that reorganises. Validation happens before the insert, so the two tables may come
 * to disagree; this is exactly when, over whole runs.
 */
module Reorgs {
  import opened Types
  import opened Models
  import opened Mapper
  import opened Store
  import opened Sync
  import opened Consistency
  import opened Interleaving

  /** Rows never move and blocks never change their hash, so what is broken stays broken. */
  lemma BrokenStays(w: World, db: Db, db': Db)
    requires Broken(w, db) && Grows(db, db')
    ensures Broken(w, db')
  {
    if h :| NamesOtherBlock(db, h) {
      assert db'.txs[h].WithoutReceipt().blockHash == db.txs[h].WithoutReceipt().blockHash;
      assert db'.txs[h].WithoutReceipt().blockNumber == db.txs[h].WithoutReceipt().blockNumber;
      assert NamesOtherBlock(db', h);
    } else {
      var n: uint64, i: nat :| StoredElsewhere(w, db, n, i);
      var h := w.blocks[db.blocks[n].hash].txs[i].hash;
      assert db'.txs[h].WithoutReceipt().txIndex == db.txs[h].WithoutReceipt().txIndex;
      assert db'.txs[h].WithoutReceipt().blockNumber == db.txs[h].WithoutReceipt().blockNumber;
      assert StoredElsewhere(w, db', n, i);
    }
  }

  // ---- Over runs ----

  /** Up to the insert a call carries a block of the world. */
  predicate CarriesWorldBlock(w: World, pc: Pc) {
    match pc
    case ReadingBlock(block) => Knows(w, block)
    case ReadingParent(block) => Knows(w, block)
    case ReadingTxs(block) => Knows(w, block) && SendersRecovered(block)
    case Inserting(block) => Knows(w, block) && SendersRecovered(block)
    case _ => true
  }

  lemma StepCarries(w: World, mayMiss: bool, startBlock: uint64, db: Db, call: Call, answer: Answer)
    requires CarriesWorldBlock(w, call.pc) && Permits(ChainNode(w, mayMiss), call, answer)
    ensures CarriesWorldBlock(w, StepCall(startBlock, db, call, answer).pc)
  {
    hide InsertBlockWithTransactions, UpdateReceipt, IsListing, TransactionsAgree, JudgeExisting, JudgeParent;
    hide SendersRecovered, RowsOf, ReceiptMatches, MarkReceiptsSynced, MarkReceiptsSyncFailed, Knows;
  }

  ghost predicate AllCarryWorldBlocks(w: World, calls: seq<Call>) {
    forall call | call in calls :: CarriesWorldBlock(w, call.pc)
  }

  lemma {:induction false} AllCarry(w: World, mayMiss: bool, startBlock: uint64, events: seq<Event>)
    ensures AllCarryWorldBlocks(w, Run(ChainNode(w, mayMiss), startBlock, INIT, events).calls)
  {
    if events == [] {
    } else {
      var ev := events[|events| - 1];
      AllCarry(w, mayMiss, startBlock, events[..|events| - 1]);
      var s := Run(ChainNode(w, mayMiss), startBlock, INIT, events[..|events| - 1]);
      if ev.Advance? && ev.id < |s.calls| && Permits(ChainNode(w, mayMiss), s.calls[ev.id], ev.answer) {
        assert s.calls[ev.id] in s.calls;
        StepCarries(w, mayMiss, startBlock, s.db, s.calls[ev.id], ev.answer);
      }
      hide StepCall, CarriesWorldBlock, Permits;
    }
  }

  /** The event carries out the insert of a block. */
  predicate Inserts(node: Node, s: State, ev: Event) {
    && ev.Advance? && ev.id < |s.calls| && Permits(node, s.calls[ev.id], ev.answer)
    && s.calls[ev.id].pc.Inserting? && !ev.answer.Fails? && s.calls[ev.id].pc.block.number < TWO_63
  }

  /** Every insert the run carried out was safe at the moment it happened. */
  ghost predicate InsertsSafely(node: Node, startBlock: uint64, events: seq<Event>) {
    events == [] ||
    var before, ev := events[..|events| - 1], events[|events| - 1];
    var s := Run(node, startBlock, INIT, before);
    InsertsSafely(node, startBlock, before) && (Inserts(node, s, ev) ==> InsertIsSafe(s.db, s.calls[ev.id].pc.block))
  }

  lemma OtherStepsSameRows(startBlock: uint64, db: Db, call: Call, answer: Answer)
    requires !(call.pc.Inserting? && !answer.Fails? && call.pc.block.number < TWO_63)
    ensures SameRows(db, StepCall(startBlock, db, call, answer).db)
  {
    hide SameRows, InsertBlockWithTransactions, UpdateReceipt, SetSync, IsListing, TransactionsAgree, JudgeExisting, JudgeParent;
    SameRowsRefl(db);
    match call.pc
    case StoringReceipt(rows, receipt) =>
      if rows != [] {
        UpdateReceiptSameRows(db, rows[0].hash, receipt.status, receipt.gasUsed);
      }
    case MarkingSynced =>
      MarksSameRows(db, call.n, DbFailure);
    case MarkingFailed(reason) =>
      MarksSameRows(db, call.n, reason);
    case _ =>
  }

  lemma SameRowsRefl(db: Db)
    ensures SameRows(db, db)
  {
  }

  lemma MarksSameRows(db: Db, n: uint64, reason: Error)
    ensures SameRows(db, MarkReceiptsSynced(db, n)) && SameRows(db, MarkReceiptsSyncFailed(db, n, reason))
  {
  }

  lemma InsertStep(w: World, startBlock: uint64, db: Db, call: Call, answer: Answer)
    requires WellFormed(w) && Agreement(w, db) && CarriesWorldBlock(w, call.pc)
    requires call.pc.Inserting? && !answer.Fails? && call.pc.block.number < TWO_63
    ensures var db' := StepCall(startBlock, db, call, answer).db;
            if InsertIsSafe(db, call.pc.block) then Agreement(w, db') else Broken(w, db')
  {
    var block := call.pc.block;
    assert StepCall(startBlock, db, call, answer).db == InsertFetched(db, block);
    InsertKeepsAgreementIff(w, db, block);
    if !InsertIsSafe(db, block) {
      UnsafeInsertBreaks(w, db, block);
    }
    hide Agreement, Broken, InsertIsSafe, StepCall;
  }

  /**
   * Under any interleaving, against a node that answers any blocks of a world with several at one height, the two
   * tables agree at the end exactly when every insert carried out was safe when it happened.
   */
  lemma {:induction false} RunAgreesIff(w: World, mayMiss: bool, startBlock: uint64, events: seq<Event>)
    requires WellFormed(w)
    ensures var node := ChainNode(w, mayMiss);
            var db := Run(node, startBlock, INIT, events).db;
            && (Agreement(w, db) <==> InsertsSafely(node, startBlock, events))
            && (Broken(w, db) <==> !InsertsSafely(node, startBlock, events))
  {
    hide Agreement, Broken, WellFormed, StepCall, InsertIsSafe, CarriesWorldBlock;
    var node := ChainNode(w, mayMiss);
    var db := Run(node, startBlock, INIT, events).db;
    if events == [] {
      EmptyAgrees(w);
    } else {
      var before, ev := events[..|events| - 1], events[|events| - 1];
      RunAgreesIff(w, mayMiss, startBlock, before);
      AllCarry(w, mayMiss, startBlock, before);
      EventKeepsOrBreaks(w, mayMiss, startBlock, Run(node, startBlock, INIT, before), ev);
    }
    if Broken(w, db) {
      BrokenDisagrees(w, db);
    }
  }

  lemma EventKeepsOrBreaks(w: World, mayMiss: bool, startBlock: uint64, s: State, ev: Event)
    requires WellFormed(w) && AllCarryWorldBlocks(w, s.calls)
    ensures var node := ChainNode(w, mayMiss); var db' := Apply(node, startBlock, s, ev).db;
            && (Broken(w, s.db) ==> Broken(w, db'))
            && (Agreement(w, s.db) ==>
                  if Inserts(node, s, ev) && !InsertIsSafe(s.db, s.calls[ev.id].pc.block) then Broken(w, db')
                  else Agreement(w, db'))
  {
    hide Agreement, Broken, WellFormed, StepCall, InsertIsSafe, CarriesWorldBlock, SameRows, Grows;
    if ev.Advance? && ev.id < |s.calls| && Permits(ChainNode(w, mayMiss), s.calls[ev.id], ev.answer) {
      var call := s.calls[ev.id];
      var db' := StepCall(startBlock, s.db, call, ev.answer).db;
      StepGrows(startBlock, s.db, call, ev.answer);
      if Broken(w, s.db) {
        BrokenStays(w, s.db, db');
      }
      if Agreement(w, s.db) {
        if Inserts(ChainNode(w, mayMiss), s, ev) {
          assert call in s.calls;
          InsertStep(w, startBlock, s.db, call, ev.answer);
        } else {
          OtherStepsSameRows(startBlock, s.db, call, ev.answer);
          SameRowsAgree(w, s.db, db');
        }
      }
    }
  }
}
