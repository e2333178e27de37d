# Verification of the explorer's indexing core

A Dafny model of the explorer's indexer, ledger, live feed and address listings, with
proofs of what its documentation and tests promise. Tables are maps and sequences with
the declared unique keys, a database transaction is one atomic step, and the two fetch
loops, the channel and the writer are a transition system. `dafny verify dfyconfig.toml`
checks everything.

## What is modelled

- `Balances`, `Schema`, `Ledger`: the token ledger of `src/db.rs`. `Ledger.Database` is the
  writer: netting of transfers per (token, holder), balance rows deleted at zero, holder
  counts that follow the balances, idempotent inserts, row counters, genesis credits,
  the rebuild and the recount. Each transaction is proved against its step in `Schema`,
  whose reference for balances is one transfer at a time, and every step keeps
  `Schema.LedgerInv`: each balance is genesis + received - sent over the stored
  transfers, no row is zero, each described token's count is its number of holders.
- `LedgerRuns`: whole runs against one chain. The stored rows are exactly those of the stored
  blocks, the counters are row counts, and runs that stored the same blocks agree.
- `GenesisPass`: the genesis pass and its cursor while blocks go on being written, and
  what balances amount to once it has caught up with a complete history.
- `RangeFetch`, `HalvingFetch`: chunked parallel fetches and the gapless stretch kept of them;
  batched calls matched up by id; refused ranges halved, and what exactly comes of it for every
  pattern of refusals.
- `IndexProtocol`: forward loop, backfill loop, FIFO channel, batching and retrying writer,
  crash and restart. The stored heights are one gapless run at every state, and the loops can
  always finish.
- `LogBackfill`: shrinking log windows behind a watermark, beside a block writer, over any number
  of runs stopped anywhere and started again.
- `LiveFeed`: a bounded lossy channel, replay on lag, de-duplication by last number: strictly
  increasing always, and exactly once while no lag outruns a replay.
- `Paging`, `Decimals`, `SignedWord`, `Trace`: two bounded index walks as one page; listing
  order as numeric order; truncated amounts; two's-complement printing; trace flattening.
- `EndToEnd`: the protocol and the ledger in one transition system, from an empty database to
  balances that are exact.
- `Viewers`: the protocol, the feed and a viewer in one process, from a start over any gapless
  database, restarts included, to blocks shown exactly once.

## Results a reader might not expect

- A holder that no transfer since genesis names keeps a stored balance of zero: the genesis
  pass credits only holders it has seen. `GenesisPass.ExactBalances` gives the condition as an
  equivalence; `EndToEnd.BalanceStaysShort` reaches a failing state from an empty database on
  every chain whose first block is empty and that funds an account at genesis, and
  `EndToEnd.QuietChain` is one.
- The rebuild and the start-up recount leave the count of a token they do not touch;
  `Schema.RebuildRestores` and `Schema.SyncRepairs` say exactly when everything is right after,
  and `Schema.StaleCountStays` is a table with one stale count that neither repairs.
- A block whose block receipts the node does not serve, and whose transactions do not fit one
  batch of the node's, is left out of every fetch, though the node would give each receipt alone:
  the fallback asks for all of a block's receipts in one batch and does not split it.
  `HalvingFetch.DeliveredIff` gives the condition, `HalvingFetch.HalvingIsOneShotIff` what it means
  for a range, `HalvingFetch.DroppedBlock` an input.
- Re-reading the backfill frontier while nothing is stored yet lets the loop re-seed at a
  later head. `IndexProtocol.HoleFromScratch` is a run that commits blocks 1 and 5 alone,
  `IndexProtocol.HoleAfterRestart` with `IndexProtocol.HoleIsPermanent` shows that after a restart
  blocks 2 to 4 are never fetched again, and `IndexProtocol.UnguardedRereadLeavesHole` that a hole
  follows from every such state. Seen from a start: every run stays gapless if, and only if,
  something is stored already, `IndexProtocol.AlwaysGaplessIff`; and a run from an empty database
  does while each re-read finds a stored block, `IndexProtocol.GaplessForever`.
- After a lag the live feed is gap-free exactly when the blocks dropped unread number at most
  `SSE_MAX_REPLAY`: `LiveFeed.LagIsCoveredIff`. `LiveFeed.LagLosesBlocks` is a reachable state
  where 4098 were dropped and blocks 4097 and 4098 are never shown.
- Two conditions are hypothetical, since their failing inputs cannot reach the code.
  `Paging.OffsetFitsIff`: a page size above 2^31 + 1 would overflow the 64-bit offset, but pages
  hold 25 rows (`Paging.OffsetFits`). `LedgerRuns.FirstWriteCountsIff`: a block that repeats a
  transaction hash would be overcounted, but no block of a chain does, and then
  `LedgerRuns.TxGainIsGrowth` holds.

## Model

| member | source | states |
|---|---|---|
| Ledger.Database.AdjustBalance | src/db.rs:1200-1237 | one signed delta: the row updated, inserted or deleted at zero, and the returned movement equals the change in holders of every token, from any contents of the table |
| Ledger.Database.AddToHolderCounts | src/db.rs:1256-1267 | every described token's count moves by its movement, no row is created |
| Ledger.NetDeltas | src/db.rs:1242-1248 | the map of deltas is received minus sent for every account, self-transfers included |
| Ledger.Database.ApplyDeltas | src/db.rs:1249-1252 | deltas applied in any map order move each balance by its delta, and the summed movements are holders after minus before |
| Ledger.Database.ApplyTransferBalances | src/db.rs:1241-1254 | the netted path leaves the table that applying the transfers one at a time leaves, and counts follow the holders |
| Ledger.Database.InsertTransfer | src/db.rs:1162-1183 | a transfer is inserted exactly when its (block, log index) is new, with an id above all before it |
| Ledger.Database.InsertTransfers | src/db.rs:561-569 | the freshly inserted transfers are the offered ones whose key was neither stored nor offered earlier |
| Ledger.Database.UpsertTokenMeta | src/db.rs:932-958 | a token described for the first time is born with the holders its balances give it; a known one keeps its count |
| Ledger.Database.MoveHoldings | src/db.rs:573-578 | describing first and moving balances after leaves every count at the holders of the new balances |
| Ledger.Database.WriteBlock | src/db.rs:544-580 | one block's rows, and by how much it reports the two row counters grew |
| Ledger.Database.SaveBlockBundles | src/db.rs:523-542 | a batch in one transaction is the write step, counters included, and keeps the ledger |
| Ledger.Database.SaveTokenMetadata | src/db.rs:960-969 | describing tokens keeps the ledger |
| Ledger.Database.HoldersWithoutGenesisBalance | src/db.rs:1274-1307 | caught up exactly when no stored row lies past the cursor; otherwise it ends at a stored id, over as many rows as the limit allows and there are, and names each unknown non-zero holder in them once |
| Ledger.Database.SaveGenesisBalances | src/db.rs:1309-1329 | only accounts without a genesis balance are credited, once, the cursor moves, and the ledger is kept |
| Ledger.Database.ReplayTransfers | src/db.rs:1361-1379 | transfers replayed one by one in id order, with the set of tokens touched |
| Ledger.Database.RebuildTokenBalances | src/db.rs:1351-1395 | from any balance table, the specified balances and the counts of every touched token, the others left alone |
| Ledger.Database.SyncHolderCounts | src/db.rs:1577-1592 | tokens with a balance row are recounted, the others left alone |
| Balances.AdjustedHolders | src/db.rs:1216-1236 | what a delta does to the number of non-negative rows of each token |
| Balances.OneTransferMoves | src/db.rs:1372-1376 | one transfer: the recipient gains the amount, the sender loses it, no one else moves |
| Balances.NettedIsSettled | src/db.rs:1239-1254 | netting refines sequential application: same table |
| Balances.SettledStored | src/db.rs:1372-1376 | sequential application, through zero and negative values, moves each account by received minus sent |
| Balances.NetIgnoresOrder | src/db.rs:1249-1252 | received minus sent does not depend on the order of the transfers |
| Balances.SettledConserves | src/db.rs:1243-1252 | transfers leave the sum of a token's balances unchanged |
| Schema.StepKeepsLedger | src/db.rs:526-580 | every committed transaction keeps: balance = genesis + received - sent, no zero row, count = holders |
| Schema.FreshIsFirst | src/db.rs:561-569 | of the transfers offered under one key the first is taken, unless the key is stored |
| Schema.LastTxStands | src/db.rs:710-730 | what stands under a hash is the last row offered for it |
| Schema.FirstEntryStands | src/db.rs:1309-1329 | a new account's genesis entry is the first offered for it, a known account keeps its own |
| Schema.CountsArePositiveBalances | src/db.rs:1185-1191 | a token's count is its number of accounts with a positive specified balance |
| Schema.LedgerConserves | src/db.rs:1309-1329 | the stored balances of a token sum to the genesis balances credited so far |
| Schema.BatchesCompose | src/db.rs:523-542 | two batches leave what one batch of both leaves |
| Schema.RebuildIsIdle | src/db.rs:1351-1395 | on a kept ledger the rebuild changes nothing: it agrees with the incremental path |
| Schema.RebuildRestores | src/db.rs:1351-1395 | from any balances the rebuild restores the ledger exactly when no untouched token has a stale count |
| Schema.SyncRepairs | src/db.rs:1577-1592 | the recount repairs every count exactly when tokens without a row already read zero |
| Schema.StaleCountStays | src/db.rs:1351-1395 | a stale count of a token nothing names survives the rebuild and the recount |
| LedgerRuns.TxGainIsGrowth | src/db.rs:550-579 | a chain's block adds to the counter what it adds to the table, written once or again |
| LedgerRuns.FirstWriteCountsIff | src/db.rs:550-579 | off those promises, the count of a first write is right exactly when its hashes are distinct and new |
| LedgerRuns.StepKeepsChain | src/db.rs:526-580 | stored rows stay exactly the chain's rows of the stored blocks, counters stay row counts |
| LedgerRuns.SameBlocksSameTables | src/db.rs:526-580 | the same blocks and genesis accounts mean the same tables |
| LedgerRuns.Confluence | src/db.rs:526-580 | runs that stored the same blocks end alike, whatever order, repeats and batches |
| GenesisPass.CommitKeepsCursor | src/db.rs:1276-1307 | blocks written between a read and its save leave the page read good |
| GenesisPass.SaveKeepsCursor | src/db.rs:1309-1329 | after a save both sides of every transfer up to the cursor have a genesis balance, each stored once |
| GenesisPass.SavesAdvance | src/indexer.rs:1063-1071 | each pass strictly advances the cursor and credits only accounts never credited |
| GenesisPass.CaughtUpSaysSo | src/db.rs:1286-1306 | in every run the pass answers caught up exactly when no transfer lies past its cursor |
| GenesisPass.HistoryKeepsAll | src/indexer.rs:1045-1071 | ledger, chain and cursor invariants at every state of every interleaving |
| GenesisPass.ExactBalances | src/indexer.rs:1045-1046 | with complete history and the pass caught up, a balance is the chain's exactly when the holder was seen or had nothing at genesis |
| GenesisPass.ZeroAddressBalance | src/db.rs:1301-1303 | the zero address is never credited: its row is short by its genesis balance |
| GenesisPass.NoNegativeRows | src/db.rs:1185-1191 | no row at or below zero remains but the zero address's |
| RangeFetch.BlockChunksTile | src/indexer.rs:76-83 | any u64 range splits into full chunks and one remainder, in order, up to the last height |
| RangeFetch.ContiguousFrom | src/indexer.rs:744-755 | the loop keeps exactly the maximal run up from its start |
| RangeFetch.ContiguousDownTo | src/indexer.rs:757-771 | the loop keeps exactly the maximal run down from its top, ascending |
| RangeFetch.FetchRange | src/indexer.rs:696-731 | whatever order chunks join in and whichever fail, every height brought, ascending; complete when shutdown cannot interrupt it |
| RangeFetch.AnsweredIsBrought | src/indexer.rs:696-731 | when every chunk is answered with all the node has there, every height it has in the range is brought, however it was chunked |
| RangeFetch.FetchForward | src/indexer.rs:840-844 | a forward window is the gapless run at the bottom of what was brought |
| RangeFetch.FetchBackward | src/indexer.rs:906-909 | a backfill window is the gapless run at its top |
| HalvingFetch.Reordered | src/rpc.rs:229-251 | results in request order: what the last item under each id says, an error where none stands under it |
| HalvingFetch.OrderDoesNotShow | src/rpc.rs:176-178 | the order of a response does not change the results |
| HalvingFetch.BatchCall | src/rpc.rs:179-252 | nothing where the request goes unanswered, one error where the batch is refused, else each call's own answer in order; a lone call is never refused as a batch |
| HalvingFetch.FetchRawBlocks | src/indexer.rs:146-238 | terminates; there is a result exactly when no request for blocks goes unanswered, and it is, for every pattern of refusals and of unanswered receipt requests, exactly the whole blocks without transactions or whose receipts come in the batch of their part of the range or, failing that, in a batch of their own |
| HalvingFetch.PartsAreLarge | src/indexer.rs:166-176 | a node with a cap is asked in parts that fit it and are the whole range or at least half the cap |
| HalvingFetch.DeliveredIff | src/indexer.rs:189-238 | from a node with any cap on its batches, a whole block comes back exactly when it has no transactions, its block receipts are served, or its transactions fit the cap, wherever the splits fell |
| HalvingFetch.HalvingIsOneShotIff | src/indexer.rs:146-238 | from such a node the result is the one-shot fetch exactly when every whole block of the range so fits |
| HalvingFetch.HalvingIsOneShot | src/indexer.rs:146-208 | for every cap the result is the one-shot fetch when block receipts are served |
| HalvingFetch.DroppedBlock | src/indexer.rs:212-236 | blocks with receipts that are left out: two transactions, no block receipts, one call at a time |
| HalvingFetch.AttachEachReceipt | src/indexer.rs:212-236 | the fallback fills exactly the blocks still short whose receipts come in one batch, and changes no other |
| HalvingFetch.KeptIsDelivered | src/indexer.rs:259-265 | dropping blocks short of receipts leaves exactly the blocks the node can give whole |
| HalvingFetch.OneShotIsEveryWhole | src/indexer.rs:178-191 | the one-shot answer holds exactly the heights with a block and, where it has transactions, receipts |
| IndexProtocol.ActKeepsInv | src/indexer.rs:798-967 | every step of loops, channel, writer and restart keeps the protocol invariant |
| IndexProtocol.SeedKeeps | src/indexer.rs:783-827 | the forward loop is seeded at the top of everything stored or on its way |
| IndexProtocol.FeedKeeps | src/indexer.rs:886-924 | a backfill window continues just below what was handed over |
| IndexProtocol.GaplessForever | src/indexer.rs:798-967 | the stored heights are one gapless run at every state, and after any further prefix of the pipe |
| IndexProtocol.NothingLost | src/indexer.rs:842-924 | at every state, windows half handed over included, each height between what the loops have handed over is stored, queued or held, and each between what they have fetched is so or still to be handed over |
| IndexProtocol.DrainedIsComplete | src/indexer.rs:886-894 | backfill at block 1 and an empty pipe mean blocks 1 to sent are stored |
| IndexProtocol.CompletionIsReachable | src/indexer.rs:798-967 | from every start over a gapless database, empty or not, some run without a re-read or a crash stores blocks 1 to any head not below what is stored, nothing left on its way |
| IndexProtocol.UnguardedRereadLeavesHole | src/indexer.rs:888-904 | from every state of the protocol in which the frontier is re-read while nothing is stored, a full channel included, some continuation leaves a hole |
| IndexProtocol.AlwaysGaplessIff | src/indexer.rs:870-904 | every run from a gapless database stays gapless if and only if something is stored in it |
| IndexProtocol.HoleFromScratch | src/indexer.rs:888-904 | a run from an empty database that commits blocks 1 and 5 alone |
| IndexProtocol.HoleAfterRestart | src/indexer.rs:811-815 | a restart above that hole starts the loops at 5 and at 1 |
| IndexProtocol.HoleIsPermanent | src/indexer.rs:883-904 | from there, whatever happens, the missing blocks are never asked for again |
| IndexProtocol.ForwardWindowIsAStep | src/indexer.rs:840-855 | whatever the forward window fetch may return is a fetch of the protocol |
| IndexProtocol.BackwardWindowIsAStep | src/indexer.rs:906-925 | whatever the backfill window fetch may return is one too |
| IndexProtocol.SeedWindowIsAStep | src/indexer.rs:894-925 | and so on a fresh database, from the tip |
| LogBackfill.AnchoringIndex.InsertLogs | src/db.rs:1112-1131 | no row is ever overwritten, every naming log of a held block ends up stored, and nothing else appears |
| LogBackfill.AnchoringIndex.WriteBlock | src/db.rs:570-572 | a block brings all its anchoring rows, rewritten or not |
| LogBackfill.AnchoringIndex.CommitWindow | src/indexer.rs:574-586 | one window's rows and the watermark keep: every stored block up to it has all its rows |
| LogBackfill.AnchoringIndex.BackfillAnchoring | src/indexer.rs:530-593 | terminates for every pattern of refusals; however it ends, stopped midway included, what it read tiles in windows of at most 50000 without a gap from the old watermark to the new; finished above the blocks older than the table, every stored block has all its rows |
| LogBackfill.AnchoringIndex.BackfillAcrossRestarts | src/indexer.rs:530-546 | over any number of runs each resumes where the one before was left, nothing in between goes unread, and once one reached its head above the old blocks every stored block has all its rows for good |
| LogBackfill.ResumedReadsAll | src/indexer.rs:530-533 | runs that resume one another leave no height unread, however often they were stopped |
| LiveFeed.PollReads | src/web.rs:807-817 | a poll reads exactly the blocks after the last one read |
| LiveFeed.TurnKeepsOrder | src/web.rs:885-950 | one turn keeps deliveries strictly increasing, whatever was lost |
| LiveFeed.LagIsCoveredIff | src/web.rs:928-943 | after a lag nothing is missing exactly when at most SSE_MAX_REPLAY blocks were dropped unread |
| LiveFeed.LagLosesBlocks | src/web.rs:928-943 | a reachable lag that drops more: the replay ends at 4096 and the next block read is 4099 |
| LiveFeed.DeliveredInOrder | src/web.rs:885-950 | in every run a client sees strictly increasing numbers |
| LiveFeed.DeliveredExactly | src/web.rs:835-837 | while lags fit a replay, exactly the heights from the tip at connect on, each once, in order, and with nothing left to read up to all the feed has read |
| LiveFeed.DeliveredOnward | src/web.rs:885-950 | the same from the first block sent on, for a viewer that connected to anything, an empty database included |
| LiveFeed.SseState.SseStep | src/web.rs:885-950 | one call is a chain of turns, all quiet but the last, until something is handed over or the channel is dry; what it delivers is exactly the block of the event it hands over; the null tip is handed over exactly on a connect without a tip |
| LiveFeed.TurnHandsOver | src/web.rs:898-927 | case by case the event of a turn: the tip, a replayed block, a stats refresh exactly when that is read, a block read exactly when it is past the last, under its own number |
| LiveFeed.TurnsDeliver | src/web.rs:885-950 | a chain of turns delivers what its event hands over, and ends in a stats event exactly when the last message read is one |
| LiveFeed.TurnsAreClientSteps | src/web.rs:885-950 | such turns are client steps of the feed |
| Paging.TwoWalksArePage | src/db.rs:1473-1496 | two walks cut at limit + offset, merged and cut, are that page of the full ordered history: higher blocks first, and in a block higher places first |
| Paging.PagesAreHistory | src/db.rs:850-890 | pages put together are every row sent or received, each once, higher blocks first and in a block higher places first |
| Paging.OffsetFitsIff | src/db.rs:433-437 | for other page sizes, every 32-bit page fits exactly while a page holds at most 2^31 + 1 rows |
| Paging.HoldersAreNumeric | src/db.rs:1511-1513 | the holders listing is every positive balance, numerically descending, as many as the holder count |
| Paging.HoldersAreRanked | src/db.rs:1509-1535 | a page, limit and offset included, has the rows left for it, each at its rank: fewer accounts hold more, at least as many hold no less |
| Decimals.ListedBelowIsLess | src/db.rs:1511-1513 | length then text is numeric order on canonical decimals, both ways |
| Decimals.TextReads | src/db.rs:1511-1513 | a number's text is the canonical digits of its magnitude, after a minus if negative |
| Decimals.FormatTokenAmount | src/tokens.rs:206-236 | read back, the text has the amount's sign and is the amount over 10^decimals cut toward zero at six digits, decimals below 0 taken as 0 and above 30 as 30; no zero ends the fraction unless something was cut off after it |
| Decimals.ShownExactlyIff | src/tokens.rs:232-235 | it is the amount itself exactly when that has at most six decimals |
| Decimals.ShownReads | src/tokens.rs:229-235 | sign, whole part and fraction can be read back from the text |
| SignedWord.MaskIsRemainder | src/decoder.rs:461-462 | masking keeps the value of the low bits |
| SignedWord.FlipIsComplement | src/decoder.rs:467-467 | the xor is the distance to the mask |
| SignedWord.FormatIntIsSigned | src/decoder.rs:457-469 | for every width and word what is printed spells the two's-complement value, digits after a minus if negative, the least value included |
| SignedWord.NoOverflow | src/decoder.rs:467-467 | the addition stays within the word |
| SignedWord.SignExtensionPrints | src/decoder.rs:458-459 | a sign-extended value prints as itself |
| Trace.WalkTrace | src/decoder.rs:822-868 | pushing, walking and patching appends the call's layout, its infos in pre-order |
| Trace.FlattenTrace | src/decoder.rs:870-884 | a list of traces is laid out in order from depth 0, its infos the pre-order of the forest |
| Trace.InfosArePreOrder | src/decoder.rs:860-864 | the infos of a layout are the call's, then its calls' in the order they were made |
| Trace.FlattenRoundTrips | src/decoder.rs:870-884 | the forest comes back from the flat list alone, roots by depth and the rest by child indices; the list has one entry per call |
| Trace.TopAreStarts | src/decoder.rs:870-884 | the entries at depth 0 are where the traces start, in order |
| Trace.FlattenIsNested | src/decoder.rs:860-867 | each entry is a root at depth 0 or the child of exactly one earlier entry, one level up |
| EndToEnd.LifeIsSound | src/indexer.rs:969-1039 | protocol, ledger and genesis pass together keep the stored blocks gapless and the ledger theirs |
| EndToEnd.IndexedBalancesAreExact | src/indexer.rs:969-1071 | from an empty database to balances that are the chain's |
| EndToEnd.CaughtUpAnswerIsExact | src/indexer.rs:1063-1071 | and so they are when the pass answers that it has caught up |
| EndToEnd.BalanceStaysShort | src/indexer.rs:1045-1071 | from an empty database to complete and caught up, with a genesis-funded account that reads zero |
| Viewers.SessionIsFeedRun | src/web.rs:805-817 | from each start of the feed on, any interleaving of protocol, feed and viewer is a run of the feed, the writer's commits its writes |
| Viewers.IndexedBlocksReachViewers | src/web.rs:835-837 | over the running protocol, after any restarts, a viewer is sent the heights from its tip at connect on, each once, in order, stored, and with nothing left to read up to all the feed has read |
| Viewers.IndexedBlocksReachAnyone | src/web.rs:885-950 | and any viewer from the first block it is sent |

## Left out

- SQLite itself, HTTP, JSON-RPC transport, WebSockets, timeouts, backoff durations, request pacing and shutdown plumbing: only "returns any subset", "refuses" and "does not answer" are kept.
- The ABI registry, RLP and receipt decoding: decoded transfers and logs are given records, amounts and balances are integers, and their decimal text is treated in `Decimals`.
- Forward, backfill and write loops, and the feed's poller, are transition systems rather than methods with loops: their interleaving is the point; the per-window fetches and `sse_step` are methods.
- Token names, symbols, supplies and the cache of known tokens: a described token is its address and its holder count, and counts are stated only for described tokens.
- Reorganisations, that is a second, different block at a stored height, and two blocks under one hash: one chain is assumed, with distinct log indexes in a block.
- Fallback log indexes for logs without one: the node is taken to supply them.
- IndexProtocol.GaplessForever: assumes each re-read of the frontier finds a stored block, because without it the property fails, as `IndexProtocol.HoleFromScratch` shows; the condition is met by every run over a database that holds a block, `IndexProtocol.AlwaysGaplessIff`.
- LiveFeed.Turn: a lag moves the position and reads the database in one step, and a poll reads the tip and the range in one step; the program reads the database a moment later and may replay further.
- Viewers.IndexedBlocksReachViewers: viewers subscribe once the feed has read its first tip; one that connects in the moment between the start of the process and that read is not covered.
- HalvingFetch.FetchRawBlocks: a block's receipts are taken to be those of its transactions by either method, and a block with transactions to have their hashes.
- Anchoring rows in the ledger's block write, transaction blobs kept on rewrite, timestamps and update times: `LogBackfill` treats the anchoring rows alone.
- Overflow of heights past 63 bits in the run-cutting loops: stored heights are signed 64-bit numbers.
- Replay of simulated calls, metadata decoding, search, labels, templates and statistics.
