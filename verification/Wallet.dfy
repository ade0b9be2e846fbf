/** The wallet feed: pages of completed blocks with their transactions. */
module Wallet {
  import opened Types
  import opened Models
  import opened Mapper
  import opened Ordering
  import opened Store
  import opened Sync
  import opened Consistency
  import opened SerialCall
  import opened CatchUp
  import opened Interleaving
  import opened ChainRuns
  import opened Readers

  datatype WalletTx = WalletTx(txHash: Hash, fromAddress: string, toAddress: string, amountWei: string, receiptStatus: uint64)

  datatype WalletBlock = WalletBlock(number: int, hash: Hash, parentHash: Hash, transactions: seq<WalletTx>)

  function MapReceiptStatus(status: Option<uint64>): Result<uint64> {
    match status
    case None => Err(ReceiptStatusMissing)
    case Some(value) => if value > 1 then Err(ReceiptStatusInvalid) else Ok(value)
  }

  predicate Accepted(tx: TxRow) {
    MapReceiptStatus(tx.receiptStatus).Ok?
  }

  function ToWalletTx(tx: TxRow): WalletTx
    requires Accepted(tx)
  {
    WalletTx(tx.hash, tx.fromAddress, tx.toAddress, tx.body.valueWei, tx.receiptStatus.value)
  }

  predicate AllAccepted(txs: seq<TxRow>) {
    forall i | 0 <= i < |txs| :: Accepted(txs[i])
  }

  /** The rows of one block, in the order they were fetched. */
  function AtNumber(txs: seq<TxRow>, n: uint64): seq<TxRow> {
    if txs == [] then []
    else
      var last := txs[|txs| - 1];
      AtNumber(txs[..|txs| - 1], n) + if last.blockNumber == n then [last] else []
  }

  lemma {:induction false} AtNumberElements(txs: seq<TxRow>, n: uint64)
    ensures forall x :: x in AtNumber(txs, n) <==> x in txs && x.blockNumber == n
  {
    if txs == [] {
    } else {
      var last := |txs| - 1;
      AtNumberElements(txs[..last], n);
      assert txs == txs[..last] + [txs[last]];
    }
  }

  lemma AtNumberAccepted(txs: seq<TxRow>, n: uint64)
    requires AllAccepted(txs)
    ensures AllAccepted(AtNumber(txs, n))
  {
    AtNumberElements(txs, n);
    var r := AtNumber(txs, n);
    assert forall i | 0 <= i < |r| :: r[i] in r;
  }

  function ToWalletTxs(txs: seq<TxRow>): (r: seq<WalletTx>)
    requires AllAccepted(txs)
    ensures |r| == |txs| && forall i | 0 <= i < |txs| :: r[i] == ToWalletTx(txs[i])
  {
    seq(|txs|, i requires 0 <= i < |txs| => ToWalletTx(txs[i]))
  }

  /** What a page shows for these block rows and these transaction rows. */
  function Feed(blocks: seq<BlockRow>, txs: seq<TxRow>): (r: seq<WalletBlock>)
    requires AllAccepted(txs)
    ensures |r| == |blocks|
    ensures forall i | 0 <= i < |blocks| :: r[i] == FeedBlock(blocks[i], txs)
  {
    seq(|blocks|, i requires 0 <= i < |blocks| => FeedBlock(blocks[i], txs))
  }

  function FeedBlock(block: BlockRow, txs: seq<TxRow>): WalletBlock
    requires AllAccepted(txs)
  {
    AtNumberAccepted(txs, block.number);
    WalletBlock(ToInt64(block.number), block.hash, block.parentHash, ToWalletTxs(AtNumber(txs, block.number)))
  }

  /** The first row whose receipt status the feed refuses decides the error. */
  function FirstRejection(txs: seq<TxRow>): Error
    requires !AllAccepted(txs)
  {
    if !Accepted(txs[0]) then MapReceiptStatus(txs[0].receiptStatus).error
    else FirstRejection(txs[1..])
  }

  lemma {:induction false} FirstRejectionAt(txs: seq<TxRow>, i: nat)
    requires i < |txs| && AllAccepted(txs[..i]) && !Accepted(txs[i])
    ensures !AllAccepted(txs) && FirstRejection(txs) == MapReceiptStatus(txs[i].receiptStatus).error
  {
    if i == 0 {
    } else {
      assert txs[..i][0] == txs[0];
      assert txs[1..][..i - 1] == txs[..i][1..];
      FirstRejectionAt(txs[1..], i - 1);
    }
  }

  function FeedOrRejection(blocks: seq<BlockRow>, txs: seq<TxRow>): Result<seq<WalletBlock>> {
    if AllAccepted(txs) then Ok(Feed(blocks, txs)) else Err(FirstRejection(txs))
  }

  /** A page from block rows read at one moment and transaction rows read at a later one. */
  function Page(db: Db, later: Db, from: uint64, limit: nat): Result<seq<WalletBlock>> {
    var rows := WalletCompletedBlockRows(db, from, limit);
    FeedOrRejection(rows, WalletCompletedTransactionRows(later, Numbers(rows)))
  }

  lemma NoNumbersNoRows(db: Db, numbers: seq<uint64>)
    ensures numbers == [] ==> WalletCompletedTransactionRows(db, numbers) == []
  {
    var txs := WalletCompletedTransactionRows(db, numbers);
    assert |txs| > 0 ==> txs[0] in txs;
  }

  lemma EmptyPage(db: Db, later: Db, from: uint64, limit: nat)
    requires WalletCompletedBlockRows(db, from, limit) == []
    ensures Page(db, later, from, limit) == Ok([])
  {
    NoNumbersNoRows(later, []);
  }

  function Numbers(blocks: seq<BlockRow>): (r: seq<uint64>)
    ensures |r| == |blocks| && forall i | 0 <= i < |blocks| :: r[i] == blocks[i].number
  {
    seq(|blocks|, i requires 0 <= i < |blocks| => blocks[i].number)
  }

  // ---- Grouping by block loses, repeats and moves nothing ----

  function Joined(numbers: seq<uint64>, txs: seq<TxRow>): seq<TxRow> {
    if numbers == [] then []
    else Joined(numbers[..|numbers| - 1], txs) + AtNumber(txs, numbers[|numbers| - 1])
  }

  lemma {:induction false} AtNumberConcat(a: seq<TxRow>, b: seq<TxRow>, n: uint64)
    ensures AtNumber(a + b, n) == AtNumber(a, n) + AtNumber(b, n)
  {
    if b == [] {
      assert a + b == a;
    } else {
      assert (a + b)[..|a + b| - 1] == a + b[..|b| - 1];
      AtNumberConcat(a, b[..|b| - 1], n);
    }
  }

  lemma {:induction false} AtNumberAll(txs: seq<TxRow>, n: uint64)
    requires forall i | 0 <= i < |txs| :: txs[i].blockNumber == n
    ensures AtNumber(txs, n) == txs
  {
    if txs == [] {
    } else {
      AtNumberAll(txs[..|txs| - 1], n);
    }
  }

  lemma {:induction false} AtNumberNone(txs: seq<TxRow>, n: uint64)
    requires NoneAt(txs, n)
    ensures AtNumber(txs, n) == []
  {
    if txs == [] {
    } else {
      AtNumberNone(txs[..|txs| - 1], n);
    }
  }

  predicate NoneAt(txs: seq<TxRow>, n: uint64) {
    forall i | 0 <= i < |txs| :: txs[i].blockNumber != n
  }

  lemma {:induction false} JoinedIgnores(numbers: seq<uint64>, low: seq<TxRow>, high: seq<TxRow>)
    requires forall i | 0 <= i < |numbers| :: NoneAt(high, numbers[i])
    ensures Joined(numbers, low + high) == Joined(numbers, low)
  {
    hide AtNumber;
    if numbers == [] {
    } else {
      var last := |numbers| - 1;
      JoinedIgnores(numbers[..last], low, high);
      AtNumberConcat(low, high, numbers[last]);
      AtNumberNone(high, numbers[last]);
    }
  }

  /** Where the rows of the highest number begin. */
  lemma {:induction false} SplitAt(txs: seq<TxRow>, n: uint64) returns (k: nat)
    requires Sorted(txs, TxBefore) && forall i | 0 <= i < |txs| :: txs[i].blockNumber <= n
    ensures k <= |txs|
    ensures forall i | 0 <= i < k :: txs[i].blockNumber < n
    ensures forall i | k <= i < |txs| :: txs[i].blockNumber == n
  {
    if txs == [] || txs[|txs| - 1].blockNumber < n {
      k := |txs|;
      forall i | 0 <= i < |txs| - 1
        ensures txs[i].blockNumber < n
      {
        assert TxBefore(txs[i], txs[|txs| - 1]);
      }
    } else {
      var front := txs[..|txs| - 1];
      k := SplitAt(front, n);
      assert forall i | 0 <= i < |front| :: txs[i] == front[i];
    }
  }

  /** The rows below and at the highest number. */
  lemma SplitLast(front: seq<uint64>, n: uint64, txs: seq<TxRow>) returns (low: seq<TxRow>, high: seq<TxRow>)
    requires Sorted(front + [n], NumberBefore) && Sorted(txs, TxBefore)
    requires forall i | 0 <= i < |txs| :: txs[i].blockNumber in front + [n]
    ensures txs == low + high && Sorted(low, TxBefore)
    ensures forall i | 0 <= i < |low| :: low[i].blockNumber < n && low[i].blockNumber in front
    ensures forall i | 0 <= i < |high| :: high[i].blockNumber == n
    ensures forall i | 0 <= i < |front| :: front[i] < n
  {
    var numbers := front + [n];
    forall i | 0 <= i < |front|
      ensures front[i] < n
    {
      assert NumberBefore(numbers[i], numbers[|front|]);
    }
    forall i | 0 <= i < |txs|
      ensures txs[i].blockNumber <= n && (txs[i].blockNumber in front || txs[i].blockNumber == n)
    {
      assert txs[i].blockNumber in numbers;
    }
    var k := SplitAt(txs, n);
    low, high := txs[..k], txs[k..];
    assert forall i | 0 <= i < |high| :: high[i] == txs[k + i];
  }

  /** The rows of the last block split off, and the others are grouped as if they had never been there. */
  lemma PeelLast(numbers: seq<uint64>, txs: seq<TxRow>) returns (low: seq<TxRow>, high: seq<TxRow>)
    requires numbers != [] && Sorted(numbers, NumberBefore) && Sorted(txs, TxBefore)
    requires forall i | 0 <= i < |txs| :: txs[i].blockNumber in numbers
    ensures txs == low + high && Sorted(low, TxBefore)
    ensures forall i | 0 <= i < |low| :: low[i].blockNumber in numbers[..|numbers| - 1]
    ensures AtNumber(txs, numbers[|numbers| - 1]) == high
    ensures Joined(numbers[..|numbers| - 1], txs) == Joined(numbers[..|numbers| - 1], low)
  {
    hide AtNumber, Joined, Sorted;
    var front, n := numbers[..|numbers| - 1], numbers[|numbers| - 1];
    assert numbers == front + [n];
    low, high := SplitLast(front, n, txs);
    assert forall i | 0 <= i < |front| :: NoneAt(high, front[i]);
    JoinedIgnores(front, low, high);
    AtNumberConcat(low, high, n);
    AtNumberNone(low, n);
    AtNumberAll(high, n);
  }

  /** Joining the per-block lists gives back the fetched rows in order. */
  lemma {:induction false} GroupingLosesNothing(numbers: seq<uint64>, txs: seq<TxRow>)
    requires Sorted(numbers, NumberBefore) && Sorted(txs, TxBefore)
    requires forall i | 0 <= i < |txs| :: txs[i].blockNumber in numbers
    ensures Joined(numbers, txs) == txs
    decreases |numbers|
  {
    hide AtNumber;
    assert |txs| > 0 ==> txs[0].blockNumber in numbers;
    if numbers == [] {
    } else {
      var low, high := PeelLast(numbers, txs);
      GroupingLosesNothing(numbers[..|numbers| - 1], low);
    }
  }

  /** The two queries of a page, possibly made at different moments, give rows that grouping keeps entire. */
  lemma PageKeepsEveryRow(db: Db, later: Db, from: uint64, limit: nat)
    ensures var numbers := Numbers(WalletCompletedBlockRows(db, from, limit));
            var txs := WalletCompletedTransactionRows(later, numbers);
            Joined(numbers, txs) == txs
  {
    var rows := WalletCompletedBlockRows(db, from, limit);
    var numbers := Numbers(rows);
    var all := CompletedFrom(db, from);
    assert numbers == Take(all, limit);
    var txs := WalletCompletedTransactionRows(later, numbers);
    assert forall i | 0 <= i < |txs| :: txs[i] in txs;
    GroupingLosesNothing(numbers, txs);
  }

  /** The transactions of all blocks of a page, one after the other. */
  function JoinedFeed(feed: seq<WalletBlock>): seq<WalletTx> {
    if feed == [] then [] else JoinedFeed(feed[..|feed| - 1]) + feed[|feed| - 1].transactions
  }

  lemma {:induction false} JoinedAccepted(numbers: seq<uint64>, txs: seq<TxRow>)
    requires AllAccepted(txs)
    ensures AllAccepted(Joined(numbers, txs))
  {
    if numbers == [] {
    } else {
      JoinedAccepted(numbers[..|numbers| - 1], txs);
      AtNumberAccepted(txs, numbers[|numbers| - 1]);
    }
  }

  lemma {:induction false} JoinedFeedIsJoined(blocks: seq<BlockRow>, txs: seq<TxRow>)
    requires AllAccepted(txs)
    ensures AllAccepted(Joined(Numbers(blocks), txs))
    ensures JoinedFeed(Feed(blocks, txs)) == ToWalletTxs(Joined(Numbers(blocks), txs))
  {
    hide AtNumber, AllAccepted;
    JoinedAccepted(Numbers(blocks), txs);
    if blocks == [] {
    } else {
      var last := |blocks| - 1;
      var feed := Feed(blocks, txs);
      JoinedFeedIsJoined(blocks[..last], txs);
      assert feed[..last] == Feed(blocks[..last], txs);
      assert Numbers(blocks)[..last] == Numbers(blocks[..last]);
      AtNumberAccepted(txs, blocks[last].number);
      ConcatWalletTxs(Joined(Numbers(blocks[..last]), txs), AtNumber(txs, blocks[last].number));
    }
  }

  lemma ConcatWalletTxs(a: seq<TxRow>, b: seq<TxRow>)
    requires AllAccepted(a) && AllAccepted(b)
    ensures AllAccepted(a + b) && ToWalletTxs(a + b) == ToWalletTxs(a) + ToWalletTxs(b)
  {
  }

  /**
   * A page that succeeds is exactly the first `limit` completed blocks from `from` upward, and joining the lists of
   * its blocks gives back the fetched rows in order.
   */
  lemma PageIsFirstCompleted(db: Db, later: Db, from: uint64, limit: nat)
    requires Page(db, later, from, limit).Ok?
    ensures var feed := Page(db, later, from, limit).value;
            var numbers := Take(CompletedFrom(db, from), limit);
            var txs := WalletCompletedTransactionRows(later, numbers);
            && |feed| == |numbers|
            && (forall i | 0 <= i < |feed| ::
                  && numbers[i] in db.blocks
                  && feed[i].number == numbers[i]
                  && feed[i].hash == db.blocks[numbers[i]].hash
                  && feed[i].parentHash == db.blocks[numbers[i]].parentHash)
            && AllAccepted(txs) && JoinedFeed(feed) == ToWalletTxs(txs)
  {
    var rows := WalletCompletedBlockRows(db, from, limit);
    assert Numbers(rows) == Take(CompletedFrom(db, from), limit);
    var txs := WalletCompletedTransactionRows(later, Numbers(rows));
    hide Joined, JoinedFeed, CompletedFrom, WalletCompletedTransactionRows;
    PageKeepsEveryRow(db, later, from, limit);
    JoinedFeedIsJoined(rows, txs);
  }

  predicate UsableStatus(tx: TxRow) {
    tx.receiptStatus == Some(0) || tx.receiptStatus == Some(1)
  }

  /** Row k is the first that cannot be shown, and this is why. */
  predicate RefusedAt(txs: seq<TxRow>, k: nat, error: Error) {
    k < |txs| && !UsableStatus(txs[k]) && (forall i | 0 <= i < k :: UsableStatus(txs[i])) && error == RefusalOf(txs[k])
  }

  /** A page is refused exactly when a fetched row has no receipt status or one above 1, and the first such row says why. */
  lemma PageOkIff(db: Db, later: Db, from: uint64, limit: nat)
    ensures var page := Page(db, later, from, limit);
            var txs := WalletCompletedTransactionRows(later, Take(CompletedFrom(db, from), limit));
            && (page.Ok? <==> forall i | 0 <= i < |txs| :: UsableStatus(txs[i]))
            && (page.Err? ==> exists k :: RefusedAt(txs, k, page.error))
  {
    var rows := WalletCompletedBlockRows(db, from, limit);
    assert Numbers(rows) == Take(CompletedFrom(db, from), limit);
    hide WalletCompletedTransactionRows, CompletedFrom, WalletCompletedBlockRows, Take;
    FeedOkIff(rows, WalletCompletedTransactionRows(later, Numbers(rows)));
    hide FeedOrRejection, UsableStatus, RefusedAt;
  }

  lemma FeedOkIff(blocks: seq<BlockRow>, txs: seq<TxRow>)
    ensures var r := FeedOrRejection(blocks, txs);
            && (r.Ok? <==> forall i | 0 <= i < |txs| :: UsableStatus(txs[i]))
            && (r.Err? ==> exists k :: RefusedAt(txs, k, r.error))
  {
    if !AllAccepted(txs) {
      var k := FirstRefused(txs);
      assert RefusedAt(txs, k, FirstRejection(txs));
    } else {
      assert forall i | 0 <= i < |txs| :: Accepted(txs[i]);
    }
  }

  function RefusalOf(tx: TxRow): Error {
    if tx.receiptStatus.None? then ReceiptStatusMissing else ReceiptStatusInvalid
  }

  lemma {:induction false} FirstRefused(txs: seq<TxRow>) returns (k: nat)
    requires !AllAccepted(txs)
    ensures k < |txs| && !UsableStatus(txs[k]) && forall i | 0 <= i < k :: UsableStatus(txs[i])
    ensures FirstRejection(txs) == RefusalOf(txs[k])
  {
    if !Accepted(txs[0]) {
      k := 0;
    } else {
      var k' := FirstRefused(txs[1..]);
      k := k' + 1;
    }
  }

  // ---- Pages ----

  /** The block numbers of successive pages, each asked for from one past the last number of the page before. */
  function Pages(db: Db, from: uint64, limit: nat): seq<seq<uint64>>
    requires limit > 0
    decreases TWO_64 - from
  {
    var page := Take(CompletedFrom(db, from), limit);
    if page == [] then []
    else
      assert page[|page| - 1] in CompletedFrom(db, from);
      [page] + Pages(db, page[|page| - 1] + 1, limit)
  }

  function Concat(pages: seq<seq<uint64>>): seq<uint64> {
    if pages == [] then [] else pages[0] + Concat(pages[1..])
  }

  lemma SuffixAbove(all: seq<uint64>, k: nat)
    requires Sorted(all, NumberBefore) && 0 < k <= |all|
    ensures forall n :: n in all[k..] <==> n in all && all[k - 1] < n
  {
    assert all == all[..k] + all[k..];
    forall i | 0 <= i < |all|
      ensures i < k ==> all[i] <= all[k - 1]
      ensures i >= k ==> all[k - 1] < all[i]
    {
      assert i < k - 1 ==> NumberBefore(all[i], all[k - 1]);
      assert k <= i ==> NumberBefore(all[k - 1], all[i]);
    }
    assert forall i | 0 <= i < |all[k..]| :: all[k..][i] == all[k + i];
    assert forall i | 0 <= i < |all[..k]| :: all[..k][i] == all[i];
  }

  lemma SameMembersSameOrder(a: seq<uint64>, b: seq<uint64>)
    requires Sorted(a, NumberBefore) && Sorted(b, NumberBefore)
    requires forall n :: n in a <==> n in b
    ensures a == b
  {
    var s := set n | n in a;
    SortedIsUnique(a, b, s, NumberBefore);
  }

  lemma SuffixSorted(all: seq<uint64>, k: nat)
    requires Sorted(all, NumberBefore) && k <= |all|
    ensures Sorted(all[k..], NumberBefore)
  {
  }

  lemma RestAfter(db: Db, from: uint64, k: nat)
    requires 0 < k <= |CompletedFrom(db, from)|
    ensures CompletedFrom(db, from)[k - 1] < TWO_63
    ensures CompletedFrom(db, CompletedFrom(db, from)[k - 1] + 1) == CompletedFrom(db, from)[k..]
  {
    var all := CompletedFrom(db, from);
    SuffixAbove(all, k);
    SuffixSorted(all, k);
    assert all[k - 1] in all;
    hide *;
    SameMembersSameOrder(CompletedFrom(db, all[k - 1] + 1), all[k..]);
  }

  /** One page and what remains after it. */
  lemma PageThenRest(db: Db, from: uint64, limit: nat)
    requires limit > 0
    ensures var page := Take(CompletedFrom(db, from), limit);
            && (page == [] ==> CompletedFrom(db, from) == [])
            && (page != [] ==>
                  var last := page[|page| - 1];
                  && from <= last
                  && last < TWO_63
                  && CompletedFrom(db, from) == page + CompletedFrom(db, last + 1))
  {
    hide CompletedFrom;
    var all := CompletedFrom(db, from);
    var page := Take(all, limit);
    if page != [] {
      var k := |page|;
      assert page == all[..k];
      var last := all[k - 1];
      assert last in all;
      assert all == page + all[k..];
      SuffixAbove(all, k);
      RestAfter(db, from, k);
    }
  }

  /** Pages taken from last number + 1 cover every completed block once, in ascending order. */
  lemma {:induction false} PagesCoverAll(db: Db, from: uint64, limit: nat)
    requires limit > 0
    ensures Concat(Pages(db, from, limit)) == CompletedFrom(db, from)
    decreases TWO_64 - from
  {
    hide CompletedFrom, Take;
    var page := Take(CompletedFrom(db, from), limit);
    PageThenRest(db, from, limit);
    if page == [] {
    } else {
      var last := page[|page| - 1];
      PagesCoverAll(db, last + 1, limit);
      ConcatCons(page, Pages(db, last + 1, limit));
    }
  }

  lemma ConcatCons(page: seq<uint64>, rest: seq<seq<uint64>>)
    ensures Concat([page] + rest) == page + Concat(rest)
  {
    assert ([page] + rest)[1..] == rest;
  }

  // ---- End to end over a fixed chain ----

  ghost predicate StatusesZeroOrOne(w: World) {
    forall h | h in w.receipts :: w.receipts[h].status <= 1
  }

  function FinalRows(w: World, block: RpcBlock): (rows: seq<TxRow>)
    requires forall i | 0 <= i < |block.txs| :: block.txs[i].sender.Some? && block.txs[i].hash in w.receipts
    ensures |rows| == |block.txs| && forall i | 0 <= i < |rows| :: rows[i] == FinalRow(w, block, i)
  {
    seq(|block.txs|, i requires 0 <= i < |block.txs| => FinalRow(w, block, i))
  }

  /** A completed block stays complete in every later state, even if a later call marks it failed. */
  lemma StaysComplete(w: World, startBlock: uint64, early: seq<Event>, late: seq<Event>, n: uint64)
    requires SingleChain(w)
    requires var s := Run(ChainNode(w, false), startBlock, INIT, early);
             n in s.db.blocks && Completed(s.db.blocks[n])
    ensures var s := Run(ChainNode(w, false), startBlock, INIT, early);
            var s' := Run(ChainNode(w, false), startBlock, s, late);
            CompleteOnChain(w, s'.db, n) && s'.db.blocks[n].hash == s.db.blocks[n].hash
  {
    var node := ChainNode(w, false);
    var s := Run(node, startBlock, INIT, early);
    var s' := Run(node, startBlock, s, late);
    AlwaysOnChain(w, true, startBlock, early);
    RunConcat(node, startBlock, INIT, early, late);
    AlwaysOnChain(w, true, startBlock, early + late);
    RunGrows(node, startBlock, s, late);
    StaysFilled(w, s.db, s'.db, n);
  }

  lemma StaysFilled(w: World, db: Db, db': Db, n: uint64)
    requires SingleChain(w) && StoreOnChain(w, true, db) && StoreOnChain(w, true, db') && Grows(db, db')
    requires n in db.blocks && Completed(db.blocks[n])
    ensures CompleteOnChain(w, db', n) && db'.blocks[n].hash == db.blocks[n].hash
  {
    StoredBlockSettled(w, db, db', n);
    assert NoneMissing(db, n);
    FilledIsComplete(w, db', n);
  }

  /** The fetched rows of a complete block are the chain's transactions in order. */
  lemma CompleteRowsInOrder(w: World, db: Db, n: uint64, numbers: seq<uint64>)
    requires CompleteOnChain(w, db, n) && n in numbers
    ensures var block := w.blocks[db.blocks[n].hash];
            && (forall i | 0 <= i < |block.txs| :: block.txs[i].sender.Some? && block.txs[i].hash in w.receipts)
            && AtNumber(WalletCompletedTransactionRows(db, numbers), n) == FinalRows(w, block)
  {
    var block := w.blocks[db.blocks[n].hash];
    forall i | 0 <= i < |block.txs|
      ensures block.txs[i].sender.Some? && block.txs[i].hash in w.receipts
    {
      assert FinalTxStored(w, db, block, i);
    }
    var rows := FinalRows(w, block);
    var fetched := WalletCompletedTransactionRows(db, numbers);
    var got := AtNumber(fetched, n);
    var s := TxRowsAt(db, n);
    AtNumberElements(fetched, n);
    AtNumberSorted(fetched, n);
    TxOrderTotal(db, s);
    forall x
      ensures x in rows <==> x in s
    {
      if x in rows {
        var i :| 0 <= i < |rows| && rows[i] == x;
        assert FinalTxStored(w, db, block, i);
      }
      if x in s {
        assert FinalTxStored(w, db, block, x.txIndex);
        assert rows[x.txIndex] == x;
      }
    }
    SortedIsUnique(got, rows, s, TxBefore);
  }

  lemma {:induction false} AtNumberSorted(txs: seq<TxRow>, n: uint64)
    requires Sorted(txs, TxBefore)
    ensures Sorted(AtNumber(txs, n), TxBefore)
  {
    if txs == [] {
    } else {
      var last := |txs| - 1;
      var front := AtNumber(txs[..last], n);
      AtNumberSorted(txs[..last], n);
      AtNumberElements(txs[..last], n);
      forall i | 0 <= i < |front|
        ensures TxBefore(front[i], txs[last])
      {
        assert front[i] in txs[..last];
      }
    }
  }

  /** What a wallet must see of one block, in the chain's own terms. */
  ghost predicate ShowsChainBlock(w: World, shown: WalletBlock) {
    shown.hash in w.blocks &&
    var block := w.blocks[shown.hash];
    && shown.number == block.number && shown.parentHash == block.parentHash
    && |shown.transactions| == |block.txs|
    && forall i | 0 <= i < |block.txs| :: ShowsChainTx(w, block.txs[i], shown.transactions[i])
  }

  ghost predicate ShowsChainTx(w: World, tx: RpcTx, shown: WalletTx) {
    && shown.txHash == tx.hash
    && tx.sender == Some(shown.fromAddress)
    && shown.toAddress == (match tx.to case Some(to) => to case None => "")
    && shown.amountWei == tx.body.valueWei
    && tx.hash in w.receipts && shown.receiptStatus == w.receipts[tx.hash].status
  }

  /**
   * End to end, under any interleaving over a fixed chain whose receipts have status 0 or 1 and are never "not
   * found": a page is built from block rows read at one moment and transaction rows read at a later one, with any
   * calls moving in between. No page is refused, and every block shows exactly the chain's transactions in order.
   */
  lemma PageShowsTheChain(w: World, startBlock: uint64, early: seq<Event>, late: seq<Event>, from: uint64, limit: nat)
    requires SingleChain(w) && StatusesZeroOrOne(w)
    ensures var s := Run(ChainNode(w, false), startBlock, INIT, early);
            var s' := Run(ChainNode(w, false), startBlock, s, late);
            var page := Page(s.db, s'.db, from, limit);
            page.Ok? && forall i | 0 <= i < |page.value| :: ShowsChainBlock(w, page.value[i])
  {
    var s := Run(ChainNode(w, false), startBlock, INIT, early);
    var s' := Run(ChainNode(w, false), startBlock, s, late);
    var rows := WalletCompletedBlockRows(s.db, from, limit);
    AlwaysOnChain(w, true, startBlock, early);
    hide Run, CompleteOnChain, WalletCompletedTransactionRows, Agreement, SingleChain;
    forall i | 0 <= i < |rows|
      ensures CompleteOnChain(w, s'.db, rows[i].number) && s'.db.blocks[rows[i].number].hash == rows[i].hash
    {
      StaysComplete(w, startBlock, early, late, rows[i].number);
    }
    RowsShowTheChain(w, s'.db, rows);
    var txs := WalletCompletedTransactionRows(s'.db, Numbers(rows));
    forall i | 0 <= i < |rows|
      ensures ShowsChainBlock(w, FeedBlock(rows[i], txs))
    {
      HeaderOf(w, s.db, rows[i].number);
      FeedBlockShows(w, rows[i], txs);
    }
  }

  lemma HeaderOf(w: World, db: Db, n: uint64)
    requires Agreement(w, db) && n in db.blocks
    ensures db.blocks[n].hash in w.blocks && HasHeader(w, db.blocks[n])
  {
    var row := db.blocks[n];
    assert row.(sync := UNSYNCED).number == row.number && row.(sync := UNSYNCED).parentHash == row.parentHash;
  }

  predicate HasHeader(w: World, row: BlockRow)
    requires row.hash in w.blocks
  {
    row.number == w.blocks[row.hash].number && row.number < TWO_63 && row.parentHash == w.blocks[row.hash].parentHash
  }

  lemma FeedBlockShows(w: World, row: BlockRow, txs: seq<TxRow>)
    requires AllAccepted(txs) && ShowsBlock(w, row, txs) && HasHeader(w, row)
    ensures ShowsChainBlock(w, FeedBlock(row, txs))
  {
    var block := w.blocks[row.hash];
    AtNumberAccepted(txs, row.number);
    hide AtNumber;
    forall i | 0 <= i < |block.txs|
      ensures ShowsChainTx(w, block.txs[i], FeedBlock(row, txs).transactions[i])
    {
    }
  }

  ghost predicate ShowsBlock(w: World, row: BlockRow, txs: seq<TxRow>) {
    row.hash in w.blocks &&
    var block := w.blocks[row.hash];
    && (forall i | 0 <= i < |block.txs| :: block.txs[i].sender.Some? && block.txs[i].hash in w.receipts)
    && AtNumber(txs, row.number) == FinalRows(w, block)
  }

  lemma RowsShowTheChain(w: World, db: Db, rows: seq<BlockRow>)
    requires StatusesZeroOrOne(w)
    requires forall i | 0 <= i < |rows| ::
               CompleteOnChain(w, db, rows[i].number) && db.blocks[rows[i].number].hash == rows[i].hash
    ensures var txs := WalletCompletedTransactionRows(db, Numbers(rows));
            AllAccepted(txs) && forall i | 0 <= i < |rows| :: ShowsBlock(w, rows[i], txs)
  {
    var numbers := Numbers(rows);
    var txs := WalletCompletedTransactionRows(db, numbers);
    forall j | 0 <= j < |txs|
      ensures Accepted(txs[j])
    {
      var tx := txs[j];
      assert tx in txs;
      var i :| 0 <= i < |numbers| && numbers[i] == tx.blockNumber;
      assert CompleteOnChain(w, db, rows[i].number);
      var block := w.blocks[rows[i].hash];
      assert FinalTxStored(w, db, block, tx.txIndex);
    }
    forall i | 0 <= i < |rows|
      ensures ShowsBlock(w, rows[i], txs)
    {
      assert numbers[i] == rows[i].number;
      CompleteRowsInOrder(w, db, rows[i].number, numbers);
    }
  }
}
