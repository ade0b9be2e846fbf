# Block synchronisation: model and proofs

This project models how the block explorer backend copies an Ethereum chain into two PostgreSQL tables, and what the
readers of those tables may rely on. It proves what every step of that protocol keeps, for every answer the node and
the database may give.

## What is modelled

- **The store** (`Store`, `Models`). Blocks are keyed by number and unique by hash, transactions are keyed by hash. The
  number column is a signed 64-bit integer, so an insert at 2^63 or above fails and no stored number reaches it.
  Every statement sent to the database is a function on this value: the atomic insert with conflict-ignore, the two
  marks, the receipt update, and each query as its filter and order. The shared database and the repositories over it
  are classes (`Repositories`).
- **One call** of `SyncBlockToDB` (`Sync`), as a function of the store and an `Env` holding every answer the call
  may receive: any block or none from the node, any receipt, and success or failure of each database operation.
- **Serial runs** (`SerialCall`, `Outcomes`, `Indexer`, `CatchUp`, `Recovery`, `Range`, `ManualCalls`): any sequence of
  calls, of background indexer steps, one manual range, or a manual call beside the indexer.
- **Interleaved runs** (`Interleaving`, `ChainRuns`, `Reorgs`): any number of calls at once, each with a program
  counter, moving one database or node operation at a time. A run is a sequence of events and each event carries what
  the outside world answers, so a lemma over all event sequences speaks of all interleavings. `Schedules` proves that a
  serial call is one such schedule, so what holds of every interleaving holds of every serial and indexer run.
- **The readers** (`Readers`, `Wallet`, `Address`, `LivePaging`): the cursor, the latest completed block, the cached
  block query, the wallet feed and the address history, in one state and over pages read while the writer runs.
- **The services** (`Services`): classes with the loops, early returns and writes of the source, each method proved
  equal to the function that specifies it. What the source promises is then proved of those functions.
- **The limits** (`Limits`, and one in `ManualCalls`): concrete runs in which a guarantee fails outside its condition:
  a "not found" receipt, an unchecked block number, a range ending at 2^64-1, two racing calls at one height, and a
  manual call below the cursor. The exact condition of each is a lemma of its own.

## Assumptions

- A block hash determines the block's number, parent hash and body (`World` maps hashes to blocks), and transaction
  hashes are distinct within a block (`WellFormed`). Results about one chain ask for one block per height, linked, and
  no transaction hash in two blocks (`SingleChain`).
- Hashes are compared as values, as `strings.EqualFold` and `common.HexToHash` compare them. Stored hashes are always
  written by the same printer, so equal values are equal texts.
- Results about indexer runs, about one fixed chain, and some about one call ask that the node answers the number it
  was asked for (`RightNumber`, `RightAnswer`, `ChainNode`). The code does not check this. `Interleaving.AlwaysSafe`
  does not need it, and `SerialCall.SuccessMeansCompleted` proves that success means what it should exactly when it is
  so.
- One chain id, positive and fixed, and one fixed `startBlock`.
- "Completed means every receipt is there" needs a node that never answers "receipt not found"
  (`ChainNode(w, false)`); `SerialCall.SuccessHasAllReceiptsIff` gives the exact condition for one call.
- "No block is skipped" is for serial indexer runs; `ManualCalls.ManualCallKeepsNoSkipIff` gives the exact condition
  under which a manual call keeps it.
- In the interleaved runs a write may also be carried out and yet be reported as failed, as when a timeout strikes
  after commit (`Lost`). The serial functions and the repository classes assume that a failed write changed nothing,
  and both assume that a statement takes effect, if at all, before the call goes on.
- Rows that agree on every ORDER BY column may be returned in any order. The serial functions settle such ties by
  hash; `Address.ListingIsUnique` and `Address.HistoryOrderIsUnique` prove that no such ties exist while the tables
  agree, and the interleaved model allows every order.
- A non-positive OFFSET is left out of the statement, as GORM does.

The comment in `internal/indexer/runner.go:45-48` says the cursor advances only after a successful insert. So it does,
but for a block with transactions the insert is not enough: the cursor moves when the receipts are done as well. The
model follows the code.

## Model

| member | source | states |
|---|---|---|
| Interleaving.AlwaysSafe | internal/service/block_service.go:96-142 | In every state any interleaving reaches from the empty store, with a node that may reorganise or fail at every call and writes whose acknowledgement may be lost: each stored block other than 0 and startBlock has its predecessor stored with the hash it names as parent, no hash is stored twice, the status columns take only three joint values, and receipt columns are set together, from a receipt the node sent whose transaction hash, block hash and block number modulo 2^64 are the row's |
| Interleaving.RunGrows | internal/db/repo/block_repo.go:82-150 | From any state on, under any interleaving, no stored number changes its hash or loses its row, no transaction moves, and no receipt is undone |
| Interleaving.StepKeepsProvenance | internal/service/tx_service.go:133-150 | A receipt is stored only in the row it belongs to, because rows never move between being listed and being updated |
| Interleaving.CallSafeStable | internal/service/block_service.go:114-141 | What a call has validated, listed or been answered stays true whatever other calls write before it goes on |
| Interleaving.StepKeepsCall | internal/service/block_service.go:207-260 | Each step of a call establishes what its next step relies on, such as the validated parent at the insert |
| Interleaving.StepKeepsLinks | internal/db/repo/block_repo.go:82-103 | A step of a call for which that still holds keeps the stored blocks linked |
| ChainRuns.AlwaysOnChain | internal/service/block_service.go:207-260 | Over one fixed chain every interleaving keeps block/transaction agreement, chain receipts only, and, if the node never answers "not found", no completed block with a receipt missing |
| ChainRuns.StoredBlockSettled | internal/db/repo/tx_repo.go:158-177 | Once a block is stored no other call can add a transaction at its number or take a receipt away, so a listing made early stays complete |
| Readers.CompletedBlocksAreComplete | internal/service/block_service.go:207-260 | Under any interleaving over a fixed chain whose node may fail but never answers "not found", a completed block has exactly the chain's transactions at indices 0..TxCount-1, each with the chain's receipt, and no other |
| Readers.FilterIsStatus | internal/db/repo/block_repo.go:33-47 | In every reachable state the four-condition filter holds exactly when sync_status is completed |
| Readers.CursorsAgree | internal/db/repo/block_repo.go:189-215 | MAX(number), the first row by descending number and the last row of an unbounded listing are one block, or all three are absent |
| Readers.CacheIsTransparent | internal/service/block_service.go:77-94 | Over a fixed chain, in every reachable state, the cached answer equals the answer mapped from the node in every field but the source tag, and each field is the block's own |
| Readers.QueryAnswers | internal/service/block_service.go:77-94 | A stored row is answered whatever the node says; for a number not stored, "not found" gives block not found and every other node failure an RPC failure; a database failure comes first |
| Consistency.AgreementOnTables | internal/service/block_service.go:164-205 | Agreement, said of the tables alone: every transaction names a stored block by number and hash, a stored number has exactly TxCount transactions with indices 0..TxCount-1, and (block_number, tx_index) is unique |
| Consistency.InsertKeepsAgreementIff | internal/db/repo/block_repo.go:82-103 | The insert keeps the tables in agreement exactly when it adds a whole new block or nothing at all, which could be looked up just before it |
| Limits.RaceBreaksAgreement | internal/db/repo/block_repo.go:84-94 | Two calls that meet different blocks at one height can both pass validation; the loser's block is ignored but its transactions are inserted |
| Reorgs.RunAgreesIff | internal/db/repo/block_repo.go:82-103 | Under any interleaving against a reorganising node the two tables agree at the end exactly when every insert carried out was safe when it happened; otherwise they hold a disagreement that no later step repairs |
| Indexer.SerialRunsAgree | internal/service/block_service.go:164-205 | After any serial sequence of calls against a reorganising, failing node the two tables agree in the sense of AgreementOnTables |
| Indexer.NoBlockSkipped | internal/indexer/runner.go:45-48 | After any run of indexer steps with arbitrary failures and reorganisations, the stored numbers are one interval from startBlock, all completed but possibly the last, and everything up to the cursor is completed |
| Indexer.RunOnceNoSkip | internal/indexer/block_indexer.go:84-112 | One step extends that interval by the next block or leaves it as it is |
| Indexer.StepReport | internal/indexer/block_indexer.go:51-112 | A step fails without writing when the cursor or the target cannot be read; otherwise it takes startBlock or the number after the largest completed one, reports cursor, target and next number as found, and rests at the target or ends as its call ends |
| ManualCalls.ManualCallKeepsNoSkipIff | internal/service/block_service.go:262-264 | From a store an indexer run leaves, a manual call keeps "no block is skipped" exactly when it does not take back a completed block below the last, store block 0 below startBlock, or store a block behind one still pending |
| ManualCalls.FailedListingBelowCursor | internal/service/block_service.go:245-255 | A manual call with one failed listing on any block with transactions below the cursor: the cursor stays, and the block is gone from the wallet listing |
| ManualCalls.ManualCallBreaksNoSkip | internal/service/block_service.go:245-255 | A concrete run: two indexer steps complete blocks 0 and 1, a manual call for block 0 then leaves a hole below the cursor |
| Indexer.StepProgress | internal/service/tx_service.go:127-152 | For a fixed target no step, failing or not, increases (blocks left, next block unstored, receipts it lacks); a syncing step takes off exactly one block; filling a receipt lowers the measure |
| Indexer.WorkNeverGrows | internal/indexer/runner.go:30-80 | Along a whole run the remaining work at any later moment is not above that at any earlier one |
| CatchUp.CursorAfter | internal/indexer/block_indexer.go:51-112 | Over a fixed chain without failures, k steps from the empty store put the cursor at min(target, 2^63-1, startBlock+k-1), for every start block and target |
| CatchUp.SmoothStep | internal/indexer/block_indexer.go:84-112 | Each such step short of the target syncs exactly the next block; at the target a step changes nothing; past 2^63-1 it fails and changes nothing |
| Recovery.RecoversAfterFailures | internal/indexer/runner.go:45-48 | Over one chain, whatever failed in the steps before, k steps without failures put the cursor at min(target, 2^63-1, next+k-1), where next is the block the first of them takes |
| Schedules.SerialCallIsASchedule | internal/service/block_service.go:207-260 | From any state, a call left alone goes through the interleaved steps to the very store and result of the serial function |
| Schedules.SerialRunIsASchedule | internal/service/block_service.go:207-260 | Any serial sequence of calls is a run of the interleaved system |
| Schedules.CursorPrefixIsLinked | internal/indexer/runner.go:30-80 | After any indexer run the completed blocks from startBlock to the cursor form one chain, each naming the stored hash before it as its parent |
| Schedules.IndexedPrefixIsTheChain | internal/indexer/runner.go:30-80 | Over one chain, with failures but never "not found", every block from startBlock to the cursor is stored as the chain has it, with all transactions and their receipts |
| SerialCall.VerdictOfCall | internal/service/block_service.go:207-226 | While nothing fails a call refuses a block for exactly one reason, in this order, and accepts all others: another block at its height, no stored parent to follow, an unrecovered sender, a transaction stored with another block |
| Outcomes.RefusedCall | internal/service/block_service.go:207-239 | A call that is refused returns the first reason that applies, said of the store and the answers (block not found, node failure, unreadable rows, reorg, discontinuity, unknown sender, conflict, failed insert), and leaves the whole store as it was |
| Outcomes.AcceptedCall | internal/service/block_service.go:228-259 | A call that is not refused stores the fetched header at n and ends with the error and status columns its receipts decide: complete without transactions; receipts_failed with the error of the first row that stops the loop; complete after a full loop; as after the insert when the mark fails |
| Outcomes.FailedCallIsRecorded | internal/service/block_service.go:245-255 | When the marks succeed, a failed call that got past the insert leaves its row receipts_failed with the error it returns, on a new block as on an old one |
| SerialCall.SyncBlockKeeps | internal/service/block_service.go:207-260 | Every serial call keeps agreement, the three status shapes and "a block without transactions is completed", whatever fails |
| SerialCall.SuccessMeansCompleted | internal/service/block_service.go:207-259 | A call that returns nil leaves row n with the fetched hash and completed, exactly when the node answered the number it was asked for |
| SerialCall.SuccessHasAllReceiptsIff | internal/service/tx_service.go:133-138 | A call that returns nil has all receipts of its block exactly when no receipt it still lacked was answered "not found" |
| Limits.NotFoundCompletesBlock | internal/service/tx_service.go:136-138 | A concrete call that returns nil and completes a block whose one transaction has no receipt |
| SerialCall.CompletedUndoneIff | internal/db/repo/block_repo.go:130-150 | A completed row loses that state exactly when, in a later call, the fetched block is accepted by what is stored, its insert succeeds, it has transactions, the listing fails or a row that lacks a receipt stops the loop, and the failure is recorded; the row then holds the error of the call |
| SerialCall.OneFailedListingUndoes | internal/service/block_service.go:245-255 | Any completed block with transactions, even with every receipt, is undone by one failed listing, and nothing else changes |
| SerialCall.ConflictLeavesStoreUnchanged | internal/service/block_service.go:215-226 | A call that ends in reorg, discontinuity or data conflict leaves the whole store as it was |
| SerialCall.ResyncChangesNothing | internal/service/block_service.go:207-260 | Syncing a completed block with all receipts again, against the same answer and without failures, returns nil and changes no column |
| Limits.WrongNumberGoesUnnoticed | internal/service/block_service.go:207-213 | A concrete call answered with block 0 instead of its own block: it returns nil and its block is not stored |
| Sync.ReceiptLoopProgress | internal/service/tx_service.go:133-151 | The receipt loop passes exactly a prefix of the listed rows, filling those answered with a receipt; every later row and every block is untouched; it returns nil exactly when the prefix is the whole list, and otherwise the error of the first row after it |
| Sync.ReceiptLoopNil | internal/service/tx_service.go:127-152 | When the loop returns nil, the rows of the block still lacking a receipt are exactly those answered "not found" in this call |
| Range.RangeResultIsTruthful | internal/service/block_service.go:264-301 | For start <= end < 2^64-1: a range run is a serial run of at most 100 calls for start, start+1, ..; FailedBlocks lists exactly the failed ones in increasing order; nil means succeeded + failed = requested and no conflict; a conflict stops at the call that met it; cancellation came before the end |
| Range.SizeCheckIff | internal/service/block_service.go:269-272 | The size check accepts exactly the ranges of at most 100 blocks, and the full range whose length wraps to 0 |
| Range.RefusedRange | internal/service/block_service.go:265-272 | A refused range leaves the store alone and says invalid range when start is above end, else too large |
| Range.RangeEndsByItselfIff | internal/service/block_service.go:280-300 | An accepted range that meets no conflict ends by itself exactly when its end is below 2^64-1 |
| Range.AttemptsWithinRequestIff | internal/service/block_service.go:280-300 | An accepted range that meets no conflict makes no more calls than requested exactly when its end is below 2^64-1 or cancellation comes in time |
| Limits.TopRangeRepeats | internal/service/block_service.go:280-300 | A concrete range of one block at 2^64-1 that makes two calls, the second for block 0 |
| Wallet.PageIsFirstCompleted | internal/service/wallet_internal_service.go:80-138 | A page that succeeds is exactly the first `limit` completed blocks from from_block upward, and joining its transaction lists gives back the fetched rows in order |
| Wallet.PageKeepsEveryRow | internal/service/wallet_internal_service.go:102-133 | Grouping the fetched rows by block loses, repeats and moves none, even if the two queries saw different states |
| Wallet.PagesCoverAll | internal/db/repo/block_repo.go:168-186 | Pages taken from last number + 1 of one state cover every completed block once, in ascending order |
| LivePaging.LivePagesShowEachOnce | internal/db/repo/block_repo.go:168-186 | Wallet pages read from any states without a skipped block show consecutive numbers, each once; when a page comes back short, everything completed at that moment has been shown |
| LivePaging.WalletPagesDuringARun | internal/indexer/runner.go:30-80 | So do pages read at any moments of an indexer run |
| Wallet.PageOkIff | internal/service/wallet_internal_service.go:141-151 | A page is refused exactly when a fetched row has no receipt status or one above 1, and the first such row decides the error |
| Wallet.PageShowsTheChain | internal/service/wallet_internal_service.go:62-139 | Under any interleaving over a fixed chain with statuses 0 or 1 and no "not found" answers, with any calls moving between the two queries: no page is refused, and every block shows exactly the chain's transactions in order with sender, recipient, amount and status |
| Wallet.StaysComplete | internal/db/repo/block_repo.go:130-150 | A block once completed keeps all its transactions and receipts in every later state, even if a later call marks it failed |
| Address.HistoryIsTheChains | internal/db/repo/tx_repo.go:103-128 | In every state reached by interleaved calls over a fixed chain the history of an address, in any letter case, is exactly the chain's transactions from or to it in stored blocks, compared letter by letter up to case, each shown as stored and described from the right side |
| Address.RowColumns | internal/mapper/tx_mapper.go:14-49 | Every stored row of agreeing tables holds the sender, recipient, nonce, value, gas limit, gas price and input of the transaction it names |
| Address.SameTextIff | internal/service/address_service.go:84-85 | Lower-casing makes two texts equal exactly when they agree letter by letter up to case |
| Address.CaseDoesNotMatter | internal/service/address_service.go:78-112 | Two query texts that agree letter by letter up to case get the same answer |
| Address.PageIsSlice | internal/service/address_service.go:91-111 | A page, whatever blanks and letter case the address has, holds the stored rows of its history from position (page-1)*page_size on, as many as fit |
| Address.PagesArePrefix | internal/service/address_service.go:91-105 | Joining pages 1..k gives the first k * page_size rows of the one newest-first history |
| Address.PagesShowEachOnce | internal/service/address_service.go:91-105 | Those rows are distinct and strictly ordered, all match the address, and enough pages show every matching row |
| LivePaging.OffsetPagesLoseNone | internal/service/address_service.go:94-105 | Pages 1..k read from successive states, with any calls in between: a transaction that was there at the first page and lies within k pages at the last was shown on one of them |
| LivePaging.RepeatedOnNextPageIff | internal/service/address_service.go:94-105 | A row of page k is shown again on page k + 1 exactly when enough newer rows arrived in between to push it there |
| LivePaging.RunMomentsGrow | internal/db/repo/tx_repo.go:103-128 | Any two moments of an interleaved run are such successive states |
| Address.OffsetExactIff | internal/service/address_service.go:94-95 | The computed offset is the intended one exactly while (page-1)*page_size fits a signed 64-bit integer |
| Address.OverflowingPageRepeatsTheFirst | internal/service/address_service.go:94-97 | Past that bound a page can repeat page 1 |
| Address.RefusalsIff | internal/service/address_service.go:84-100 | Which requests are refused and which complaint comes first: an address that is not 0x and forty hexadecimal digits in any letter case with any blanks around it, then the paging, then the database |
| Address.DirectionsKnown | internal/mapper/tx_mapper.go:138-151 | Every item of a page is self, out or in, self exactly when both sides are the address, and the counterparty is the other side |
| Address.HistoryOrderIsUnique | internal/db/repo/tx_repo.go:112-119 | While the tables agree, (block_number, tx_index) leaves the database no choice of order |
| Address.ListingIsUnique | internal/db/repo/tx_repo.go:165-170 | Likewise for the missing-receipt query, which orders by tx_index alone |
| Services.TxService.ValidateReceiptMatchesTransaction | internal/service/tx_service.go:103-125 | Accepts exactly a receipt with the row's transaction hash and block hash and, modulo 2^64, its block number |
| Services.TxService.SyncBlockTransactionReceipts | internal/service/tx_service.go:127-152 | The loop leaves the store and error that the specified receipt loop gives |
| Services.BlockService.GetBlockByNumber | internal/service/block_service.go:77-94 | Answers as the specified cached query does |
| Services.BlockService.ValidateBlockForSync | internal/service/block_service.go:96-142 | Gives the specified verdict |
| Services.BlockService.BuildTransactionModelsFromBlock | internal/service/block_service.go:144-162 | Gives row i for body position i, or fails if any sender is not recovered |
| Services.BlockService.ValidateTransactionsForSync | internal/service/block_service.go:164-205 | Finds a conflict exactly when some transaction is stored at another block number, block hash or index |
| Services.BlockService.SyncBlockToDB | internal/service/block_service.go:207-260 | Leaves the store and error of the specified call, so all results above are about it |
| Services.BlockService.SyncBlockRangeToDB | internal/service/block_service.go:264-301 | Leaves the store, result and error of the specified range loop |
| Services.BlockIndexer.GetNextBlockToSync | internal/indexer/block_indexer.go:51-82 | Reports the largest completed number or none, the target, the number after the cursor or startBlock, and whether that is within the target |
| Services.BlockIndexer.RunIndexerOnce | internal/indexer/block_indexer.go:84-112 | Leaves the store and result of the specified step |
| Services.BlockIndexer.Start | internal/indexer/runner.go:30-80 | A run of the loop leaves the store of the specified sequence of steps; no failure stops it |
| Services.WalletInternalService.ListCompletedBlocks | internal/service/wallet_internal_service.go:62-139 | Gives the specified page, or the error of the first check that fails, even if the store moved on between the two queries |
| Services.WalletInternalService.GroupByNumber | internal/service/wallet_internal_service.go:102-118 | Every block's list is its share of the fetched rows in order; stops at the first unusable status |
| Services.WalletInternalService.GetSyncStatus | internal/service/wallet_internal_service.go:153-177 | Gives number and hash of the largest completed block, or says there is none |
| Services.AddressService.GetIndexedTransactionsByAddress | internal/service/address_service.go:78-112 | Gives the specified page, or the error of the first check that fails |
| Repositories.BlockRepository.InsertBlockWithTransactions | internal/db/repo/block_repo.go:82-103 | Both inserts or neither: the row unless its number or hash is stored, and the first of the new rows with each hash; fails for a number the column cannot hold |
| Repositories.BlockRepository.ListWalletCompletedBlockRows | internal/db/repo/block_repo.go:152-187 | Completed rows from from_block on in ascending order, at most limit, and none left out before the last of a full page |
| Repositories.BlockRepository.MarkReceiptsSynced | internal/db/repo/block_repo.go:105-128 | Sets receipts_synced, completed and no error on one row and nothing else, or reports that it is missing |
| Repositories.BlockRepository.MarkReceiptsSyncFailed | internal/db/repo/block_repo.go:130-150 | Sets not receipts_synced, receipts_failed and the reason on one row and nothing else, or reports that it is missing |
| Repositories.TransactionRepository.GetTransactionsByHashes | internal/db/repo/tx_repo.go:72-101 | The returned map holds exactly the stored rows with those hashes |
| Repositories.TransactionRepository.UpdateTransactionReceiptByHash | internal/db/repo/tx_repo.go:130-156 | Sets status and gas used of one row and nothing else, or reports that it is missing |

## Left out

- HTTP controllers, the router, response writing and the mapping of errors to status codes: thin plumbing.
- go-ethereum, GORM and SQL internals: the node is an arbitrary oracle, the insert is one atomic step, and each query
  is its filter and order on one state of the store.
- The range of the other integer columns (gas, timestamp, nonce, receipt values): the store takes every uint64 there. A
  database that refuses values from 2^63 on, or a query for such a number, is a database failure.
- Sender recovery, hashing and address checksums: a sender is given with the transaction, recovered or not.
- Lower-casing of letters outside A-Z, which no valid address contains.
- Configuration, logging, timers, shutdown and contexts: a timeout or cancellation is a failure that may occur at any
  call; a range is given the iteration at which it is found cancelled, and the runner loop the steps it makes.
- Error texts: only the kind of an error is kept, and for last_sync_error whether it is null and which kind it has.
- `GetAddress`, `GetTxDetailByHashFromRPC`, `GetIndexedTransactionByHash`, `ToTxDetailDTO`, `ToIndexedTransactionDTO`, hash
  validation and tag parsing: field copying or library calls.
- `InsertBlock`, `InsertTransaction` and `InsertTransactions`: not used by the running application.
- `created_at`, `updated_at`, row ids and echoed request fields such as chain id, page and sync target.
- Several chain ids in one database: every query and write filters on one fixed id.
- The counters of a range result are unbounded naturals; they never exceed 100 where their meaning is stated, and past
  that the run of a wrapped range would need 2^64 calls to overflow them.
