/**
 * Paging while the writer runs. The pages of one reader are separate requests, so each sees another state of the
 * store, later than the one before.
 */
module LivePaging {
  import opened Types
  import opened Models
  import opened Ordering
  import opened Store
  import opened Sync
  import opened Consistency
  import opened SerialCall
  import opened Indexer
  import opened ManualCalls
  import opened Interleaving
  import opened Wallet
  import opened Address

  // ---- The wallet feed over an indexer run ----

  /** The page read from this state, starting at `from`. */
  function LivePage(db: Db, from: uint64, limit: nat): seq<uint64> {
    Take(CompletedFrom(db, from), limit)
  }

  /** Where the next page starts once one page was read from each state: one past the last number seen. */
  function LiveFrom(dbs: seq<Db>, from: uint64, limit: nat): uint64 {
    if dbs == [] then from
    else
      var f := LiveFrom(dbs[..|dbs| - 1], from, limit);
      var db := dbs[|dbs| - 1];
      var page := LivePage(db, f, limit);
      if page == [] then f
      else
        assert page[|page| - 1] in CompletedFrom(db, f);
        page[|page| - 1] + 1
  }

  /** All block numbers such a reader was shown, in order. */
  function LivePages(dbs: seq<Db>, from: uint64, limit: nat): seq<uint64> {
    if dbs == [] then []
    else
      var front := dbs[..|dbs| - 1];
      LivePages(front, from, limit) + LivePage(dbs[|dbs| - 1], LiveFrom(front, from, limit), limit)
  }

  predicate Consecutive(s: seq<uint64>, base: nat) {
    forall j | 0 <= j < |s| :: s[j] == base + j
  }

  function Base(startBlock: uint64, from: uint64): uint64 {
    if from < startBlock then startBlock else from
  }

  lemma SortedInterval(s: seq<uint64>, base: nat, top: nat)
    requires Sorted(s, NumberBefore) && base <= top <= TWO_64
    requires forall n: uint64 :: n in s <==> base <= n < top
    ensures Consecutive(s, base) && |s| == top - base
  {
    var all: seq<uint64> := seq(top - base, j requires 0 <= j < top - base => base + j);
    forall n: uint64
      ensures n in all <==> base <= n < top
    {
      if base <= n < top {
        assert all[n - base] == n;
      }
    }
    SameMembersSameOrder(s, all);
  }

  /** In a state an indexer run leaves, the completed blocks have no gap. */
  lemma CompletedConsecutive(startBlock: uint64, db: Db, end: nat, from: uint64)
    requires NoSkip(startBlock, db, end)
    ensures Consecutive(CompletedFrom(db, from), Base(startBlock, from))
  {
    var base := Base(startBlock, from);
    var done: nat := if LastPending(startBlock, db, end) then end - 1 else end;
    var top := if base <= done then done else base;
    forall n: uint64
      ensures n in CompletedFrom(db, from) <==> base <= n < top
    {
    }
    SortedInterval(CompletedFrom(db, from), base, top);
  }

  /** What the reader was shown so far: consecutive numbers, up to where the next page starts. */
  ghost predicate ShownSoFar(startBlock: uint64, from: uint64, shown: seq<uint64>, next: nat) {
    && Consecutive(shown, Base(startBlock, from))
    && next == if shown == [] then from else Base(startBlock, from) + |shown|
  }

  function Past(page: seq<uint64>, next: nat): nat {
    if page == [] then next else page[|page| - 1] as nat + 1
  }

  lemma ConsecutiveAppend(a: seq<uint64>, b: seq<uint64>, base: nat)
    requires Consecutive(a, base) && Consecutive(b, base + |a|)
    ensures Consecutive(a + b, base)
  {
  }

  lemma OneMorePage(startBlock: uint64, from: uint64, shown: seq<uint64>, next: uint64, db: Db, limit: nat)
    requires ShownSoFar(startBlock, from, shown, next) && HasNoSkip(startBlock, db)
    ensures ShownSoFar(startBlock, from, shown + LivePage(db, next, limit), Past(LivePage(db, next, limit), next))
  {
    var end :| NoSkip(startBlock, db, end);
    CompletedConsecutive(startBlock, db, end, next);
    hide CompletedFrom, NoSkip, HasNoSkip, Take;
    var page := LivePage(db, next, limit);
    assert page <= CompletedFrom(db, next);
    assert Consecutive(page, Base(startBlock, next));
    hide LivePage;
    assert Base(startBlock, next) == Base(startBlock, from) + |shown|;
    ConsecutiveAppend(shown, page, Base(startBlock, from));
    hide Base;
  }

  lemma ShortPageIsLast(startBlock: uint64, from: uint64, shown: seq<uint64>, next: uint64, db: Db, limit: nat)
    requires ShownSoFar(startBlock, from, shown, next) && HasNoSkip(startBlock, db)
    requires |LivePage(db, next, limit)| < limit
    ensures forall n | n in CompletedFrom(db, from) :: n in shown + LivePage(db, next, limit)
  {
    var end :| NoSkip(startBlock, db, end);
    hide CompletedFrom, NoSkip;
    var base := Base(startBlock, from);
    assert LivePage(db, next, limit) == CompletedFrom(db, next);
    forall n | n in CompletedFrom(db, from)
      ensures n in shown + CompletedFrom(db, next)
    {
      AboveFrom(startBlock, db, end, from, n);
      if n < next {
        assert shown[n - base] == n;
      } else {
        StillAbove(db, from, next, n);
      }
    }
  }

  lemma AboveFrom(startBlock: uint64, db: Db, end: nat, from: uint64, n: uint64)
    requires NoSkip(startBlock, db, end) && n in CompletedFrom(db, from)
    ensures n >= Base(startBlock, from)
  {
  }

  lemma StillAbove(db: Db, from: uint64, next: uint64, n: uint64)
    requires n in CompletedFrom(db, from) && next <= n
    ensures n in CompletedFrom(db, next)
  {
  }

  /**
   * Pages read from successive states of an indexer run show each block once and leave none out: the numbers are
   * consecutive, and once a page comes back short everything completed at that moment has been shown.
   */
  lemma {:induction false} LivePagesShowEachOnce(startBlock: uint64, dbs: seq<Db>, from: uint64, limit: nat)
    requires limit > 0 && forall i | 0 <= i < |dbs| :: HasNoSkip(startBlock, dbs[i])
    ensures ShownSoFar(startBlock, from, LivePages(dbs, from, limit), LiveFrom(dbs, from, limit))
    ensures dbs != [] && |LivePage(dbs[|dbs| - 1], LiveFrom(dbs[..|dbs| - 1], from, limit), limit)| < limit ==>
              forall n | n in CompletedFrom(dbs[|dbs| - 1], from) :: n in LivePages(dbs, from, limit)
  {
    hide LivePage, ShownSoFar, HasNoSkip, CompletedFrom;
    if dbs == [] {
      NothingShown(startBlock, from);
    } else {
      var front := dbs[..|dbs| - 1];
      LivePagesShowEachOnce(startBlock, front, from, limit);
      var shown, next, db := LivePages(front, from, limit), LiveFrom(front, from, limit), dbs[|dbs| - 1];
      OneMorePage(startBlock, from, shown, next, db, limit);
      if |LivePage(db, next, limit)| < limit {
        ShortPageIsLast(startBlock, from, shown, next, db, limit);
      }
    }
  }

  lemma NothingShown(startBlock: uint64, from: uint64)
    ensures ShownSoFar(startBlock, from, [], from)
  {
  }

  function StateAfter(startBlock: uint64, ticks: seq<Tick>, k: nat): Db
    requires k <= |ticks|
  {
    RunTicks(startBlock, EMPTY, ticks[..k])
  }

  /** Every state of an indexer run is such a state, at whatever moments the pages are read. */
  lemma WalletPagesDuringARun(startBlock: uint64, ticks: seq<Tick>, moments: seq<nat>, from: uint64, limit: nat)
    requires limit > 0 && forall i | 0 <= i < |ticks| :: RightNumber(ticks[i].call)
    requires forall i | 0 <= i < |moments| :: moments[i] <= |ticks|
    ensures var dbs := seq(|moments|, i requires 0 <= i < |moments| => StateAfter(startBlock, ticks, moments[i]));
            && Consecutive(LivePages(dbs, from, limit), Base(startBlock, from))
            && (dbs != [] && |LivePage(dbs[|dbs| - 1], LiveFrom(dbs[..|dbs| - 1], from, limit), limit)| < limit ==>
                  forall n | n in CompletedFrom(dbs[|dbs| - 1], from) :: n in LivePages(dbs, from, limit))
  {
    hide LivePage, LivePages, LiveFrom, Consecutive, CompletedFrom, RunTicks, NoSkip;
    var dbs := seq(|moments|, i requires 0 <= i < |moments| => StateAfter(startBlock, ticks, moments[i]));
    forall i | 0 <= i < |dbs|
      ensures HasNoSkip(startBlock, dbs[i])
    {
      var end := TicksNoSkip(startBlock, ticks[..moments[i]]);
    }
    LivePagesShowEachOnce(startBlock, dbs, from, limit);
  }

  // ---- The address history under any interleaving ----

  predicate Matches(tx: TxRow, address: string) {
    tx.fromAddressLower == address || tx.toAddressLower == address
  }

  /** The rows of the address that come before h in its history. */
  function Newer(db: Db, address: string, h: Hash): set<Hash>
    requires h in db.txs
  {
    set g | g in db.txs && Matches(db.txs[g], address) && TxBefore(db.txs[h], db.txs[g])
  }

  function Rank(db: Db, address: string, h: Hash): nat
    requires h in db.txs
  {
    |Newer(db, address, h)|
  }

  lemma RankIsIndex(db: Db, address: string, i: nat)
    requires i < |AddressHistory(db, address)|
    ensures AddressHistory(db, address)[i].hash in db.txs
    ensures Rank(db, address, AddressHistory(db, address)[i].hash) == i
  {
    var history := AddressHistory(db, address);
    hide AddressHistory;
    assert forall j | 0 <= j < |history| :: history[j] in history && history[j] in db.txs.Values;
    var hashes := seq(i, j requires 0 <= j < i => history[j].hash);
    var newer := Newer(db, address, history[i].hash);
    forall j, k | 0 <= j < k < |history|
      ensures history[j].hash != history[k].hash && TxBefore(history[k], history[j])
    {
      assert TxAfter(history[j], history[k]);
      assert db.txs[history[j].hash] == history[j] && db.txs[history[k].hash] == history[k];
    }
    CountDistinct(hashes);
    forall g
      ensures g in newer <==> g in Elements(hashes)
    {
      if g in newer {
        assert db.txs[g] in history;
        var j :| 0 <= j < |history| && history[j] == db.txs[g];
        assert j < i;
        assert hashes[j] == g;
      }
      if g in Elements(hashes) {
        var j :| 0 <= j < i && hashes[j] == g;
        assert db.txs[g] == history[j];
      }
    }
    assert newer == Elements(hashes);
  }

  /** Rows are never deleted and never move: a row can only slip towards later pages. */
  lemma RankGrows(db: Db, db': Db, address: string, h: Hash)
    requires Grows(db, db') && h in db.txs
    ensures h in db'.txs && Rank(db, address, h) <= Rank(db', address, h)
  {
    forall g | g in db.txs
      ensures g in db'.txs && Matches(db'.txs[g], address) == Matches(db.txs[g], address)
      ensures db'.txs[g].blockNumber == db.txs[g].blockNumber && db'.txs[g].txIndex == db.txs[g].txIndex
    {
      assert db'.txs[g].WithoutReceipt().fromAddressLower == db.txs[g].WithoutReceipt().fromAddressLower;
      assert db'.txs[g].WithoutReceipt().toAddressLower == db.txs[g].WithoutReceipt().toAddressLower;
      assert db'.txs[g].WithoutReceipt().blockNumber == db.txs[g].WithoutReceipt().blockNumber;
      assert db'.txs[g].WithoutReceipt().txIndex == db.txs[g].WithoutReceipt().txIndex;
    }
    assert Newer(db, address, h) <= Newer(db', address, h);
    SubsetSize(Newer(db, address, h), Newer(db', address, h));
  }

  /** Page k read from this state shows the transaction. */
  ghost predicate Shows(db: Db, address: string, pageSize: nat, k: nat, h: Hash) {
    exists x :: x in TransactionsByAddress(db, address, pageSize, Offset(k, pageSize)) && x.hash == h
  }

  lemma WindowShows(history: seq<TxRow>, pageSize: nat, done: nat, i: nat)
    requires i < |history| && done <= i < done + pageSize
    ensures history[i] in Window(history, pageSize, done)
  {
    var window := Window(history, pageSize, done);
    assert window[i - done] == history[i];
  }

  lemma WindowIndex(history: seq<TxRow>, pageSize: nat, done: nat, x: TxRow) returns (i: nat)
    requires x in Window(history, pageSize, done)
    ensures i < |history| && done <= i < done + pageSize && history[i] == x
  {
    var window := Window(history, pageSize, done);
    var j :| 0 <= j < |window| && window[j] == x;
    i := done + j;
  }

  /** A page shows exactly the rows whose rank falls into it. */
  lemma ShowsIff(db: Db, address: string, pageSize: nat, k: nat, h: Hash)
    requires 0 < k < TWO_63 && 0 < pageSize <= 100 && ShownBefore(k, pageSize) < TWO_63
    requires h in db.txs && Matches(db.txs[h], address)
    ensures Shows(db, address, pageSize, k, h) <==>
            ShownBefore(k, pageSize) <= Rank(db, address, h) < ShownBefore(k, pageSize) + pageSize
  {
    OnePageMore(k, pageSize);
    var done, history := ShownBefore(k, pageSize), AddressHistory(db, address);
    assert db.txs[h] in db.txs.Values;
    assert db.txs[h] in history;
    var i :| 0 <= i < |history| && history[i] == db.txs[h];
    RankIsIndex(db, address, i);
    hide AddressHistory, Window, ShownBefore, Offset, Rank, Matches;
    if Shows(db, address, pageSize, k, h) {
      var x :| x in Window(history, pageSize, done) && x.hash == h;
      var j := WindowIndex(history, pageSize, done, x);
      RankIsIndex(db, address, j);
    }
    if done <= i < done + pageSize {
      WindowShows(history, pageSize, done, i);
    }
  }

  /** Each state is the one before or has grown from it. */
  ghost predicate Successive(dbs: seq<Db>) {
    forall i, j | 0 <= i && j == i + 1 && j < |dbs| :: Grows(dbs[i], dbs[j])
  }

  ghost predicate ShownOnSomePage(dbs: seq<Db>, address: string, pageSize: nat, h: Hash) {
    exists i :: 0 <= i < |dbs| && Shows(dbs[i], address, pageSize, i + 1, h)
  }

  /**
   * Page i + 1 is read from the i-th of successive states, with any calls moving in between. A transaction that is
   * there when the first page is read, and lies within the pages read when the last one is, was shown.
   */
  lemma {:induction false} OffsetPagesLoseNone(dbs: seq<Db>, address: string, pageSize: nat, h: Hash)
    requires 0 < |dbs| < TWO_63 && 0 < pageSize <= 100 && ShownBefore(|dbs|, pageSize) < TWO_63
    requires Successive(dbs) && h in dbs[0].txs && Matches(dbs[0].txs[h], address)
    ensures h in dbs[|dbs| - 1].txs
    ensures Rank(dbs[|dbs| - 1], address, h) < ShownBefore(|dbs|, pageSize) + pageSize ==>
              ShownOnSomePage(dbs, address, pageSize, h)
    decreases |dbs|
  {
    hide Rank, Shows, ShownBefore, Grows, Offset;
    var k := |dbs|;
    OnePageMore(k, pageSize);
    var last := dbs[k - 1];
    if k == 1 {
      ShowsIff(last, address, pageSize, k, h);
      FirstPageStart(pageSize);
    } else {
      var front := dbs[..k - 1];
      SuccessiveFront(dbs);
      OnePageMore(k - 1, pageSize);
      OffsetPagesLoseNone(front, address, pageSize, h);
      assert Grows(dbs[k - 2], last);
      RankGrows(dbs[k - 2], last, address, h);
      SuccessiveGrows(dbs);
      StillMatches(dbs[0], last, address, h);
      ShowsIff(last, address, pageSize, k, h);
      PageBoundary(k, pageSize);
      if ShownOnSomePage(front, address, pageSize, h) {
        var i :| 0 <= i < k - 1 && Shows(front[i], address, pageSize, i + 1, h);
        assert front[i] == dbs[i];
      }
    }
  }

  lemma FirstPageStart(pageSize: nat)
    ensures ShownBefore(1, pageSize) == 0
  {
  }

  lemma PageBoundary(k: nat, pageSize: nat)
    requires k > 1
    ensures ShownBefore(k - 1, pageSize) + pageSize == ShownBefore(k, pageSize)
  {
  }

  lemma SuccessiveFront(dbs: seq<Db>)
    requires Successive(dbs) && |dbs| > 1
    ensures Successive(dbs[..|dbs| - 1]) && dbs[..|dbs| - 1][0] == dbs[0]
  {
    hide Grows;
    var front := dbs[..|dbs| - 1];
    forall i, j | 0 <= i && j == i + 1 && j < |front|
      ensures Grows(front[i], front[j])
    {
      assert Grows(dbs[i], dbs[j]);
    }
  }

  lemma {:induction false} SuccessiveGrows(dbs: seq<Db>)
    requires Successive(dbs) && dbs != []
    ensures Grows(dbs[0], dbs[|dbs| - 1])
    decreases |dbs|
  {
    if |dbs| == 1 {
      GrowsRefl(dbs[0]);
    } else {
      hide Grows;
      SuccessiveFront(dbs);
      SuccessiveGrows(dbs[..|dbs| - 1]);
      GrowsTrans(dbs[0], dbs[|dbs| - 2], dbs[|dbs| - 1]);
    }
  }

  lemma StillMatches(db: Db, db': Db, address: string, h: Hash)
    requires Grows(db, db') && h in db.txs && Matches(db.txs[h], address)
    ensures h in db'.txs && Matches(db'.txs[h], address)
  {
    assert db'.txs[h].WithoutReceipt().fromAddressLower == db.txs[h].WithoutReceipt().fromAddressLower;
    assert db'.txs[h].WithoutReceipt().toAddressLower == db.txs[h].WithoutReceipt().toAddressLower;
  }

  /** A row of page k is shown again on page k + 1 exactly when enough newer rows arrived to push it there. */
  lemma RepeatedOnNextPageIff(db: Db, db': Db, address: string, pageSize: nat, k: nat, h: Hash)
    requires 0 < k && k + 1 < TWO_63 && 0 < pageSize <= 100 && ShownBefore(k + 1, pageSize) < TWO_63
    requires Grows(db, db') && h in db.txs && Matches(db.txs[h], address) && Shows(db, address, pageSize, k, h)
    ensures h in db'.txs
    ensures Shows(db', address, pageSize, k + 1, h) <==>
            var arrived := Rank(db', address, h) - Rank(db, address, h);
            var below := ShownBefore(k + 1, pageSize) - Rank(db, address, h);
            below <= arrived < below + pageSize
  {
    StillMatches(db, db', address, h);
    hide ShownBefore, Rank, Shows, Grows, Matches;
    ShowsIff(db', address, pageSize, k + 1, h);
  }

  /** Any two moments of an interleaved run are such states. */
  lemma RunMomentsGrow(node: Node, startBlock: uint64, events: seq<Event>, early: nat, late: nat)
    requires early <= late <= |events|
    ensures Grows(Run(node, startBlock, INIT, events[..early]).db, Run(node, startBlock, INIT, events[..late]).db)
  {
    assert events[..late] == events[..early] + events[early..late];
    RunConcat(node, startBlock, INIT, events[..early], events[early..late]);
    RunGrows(node, startBlock, Run(node, startBlock, INIT, events[..early]), events[early..late]);
  }
}
