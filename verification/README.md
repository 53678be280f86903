# Bond API verification model

A Dafny 4.11 model of the logic at the centre of the bond service: the event-sourced projection of three contracts' logs
into tables, the loop and the queue that drive it, the auction allocation engine with its independent browser
counterpart and the finalise step, the sealed-bid framing and an RLP decoder, the live-event stream, the nonce lock, and
the canonical JSON text from which a DTO's md5 is taken.

`dafny verify dfyconfig.toml` checks the whole project.

## How it is put together

**Projection.** `BondLifecycle` is the per-ISIN reducer. `Projection` is the pure picture of one window transaction:
announced partitions, then all manager events, then token events, then transfers. `ProjectionDb` is the imperative code
over the tables, proved equal to it, rollback included, with the unique keys of its two event tables. `BondColumns` and
`BalanceRows` say of the logs alone what a window leaves in each column and which rows it adds. `ProjectionLens` splits
a window into what each bond sees of it, `WindowMerge` compares one window over two batches with two windows,
`WindowIndependence` lifts that to any cutting of a chain. `TokenLedger` is a ledger written only from the meaning of a
transfer; the projected balances refine it. `AuctionProjection`, `AuctionDb` and `AuctionReplay` treat the auction
tables, whose columns `AuctionColumns` says of the logs; no event writes both kinds of table except through the
partitions, so a window has two halves. `WholeProjection` puts them side by side and `WindowTransaction` runs both in
one transaction that rolls back both. `IngestionLoop` runs such windows with failures and crashes, and `IngestionQueue`
interleaves polling with request-driven catch-up.

A chain is valid when the partition hash is injective, logs are numbered and unique, every transfer's partition is
announced in its block or earlier, every transfer is covered by the ledger, and a bond is created only while it has no
supply. Window independence then holds exactly when every creation masks the token events that a merged window would
apply after it (`WindowIndependence.WindowsAgreeExactly`); in particular it holds when no bond is created again after
other events of its own. `Recreation` shows a chain where it fails: a bond that is disabled and created again inside one
window stays disabled. The repository's own design notes (`docs/plans/ingestion-projection-correctness/design.md`)
describe this defect and the supply reset of a replay; the exact conditions here agree with them. They also say (line
76) that the present auction contract declares `BidCancelled` and never sends it: the handler takes the input of
`AuctionReplay.ResubmittedBidIsLost`, but no such log occurs today.

**Replay.** `Replay` says what processing a window again right after its first run does, from any tables. A loop that
starts from an old checkpoint does more: it runs every window committed since, the first of which are not the newest.
`ReplayOfRange` shows that on a valid chain every run of committed blocks succeeds and leaves partitions, balances,
balance rows and history alone, that bonds may show older facts on the way, and that once all committed blocks are run
every bond is back where it was except that bonds created in them have no supply. For windows that are not the newest it
gives the exact condition under which a bond is left alone, and `AuctionReplay` the one for an auction's row, its
allocations and the bids. Without it a fact does go back although nothing is created and nothing fails: `StaleReplay`
issues an offering of 100, extends it to 200 and runs the first window again, which leaves 100 until the second window
is run again too.

Such a loop does not know where the committed blocks end, and goes on. `CatchingUp` follows it through any windows,
committed, new or both: it succeeds exactly if the bonds created in the committed blocks that it ran again, and not
since, cover every later burn without the supply that they had there. If they do, the tables are those of the chain with
these bonds short by that supply; if not, the window fails with a negative supply, and fails again however far the head
moves on, until such a bond is created anew. `BurnAfterReplay` creates a bond, mints ten units, runs both blocks again
and cannot process the burn of the ten.

**Auctions.** `Allocation` holds the two compute functions with their loops; `AllocationTheorems` proves the fill sound,
cheapest among all ways to place as many units, and the clearing rate an order statistic; `ServiceOrder` says of the
bids alone who is served and when nobody is. `AuctionSelection` is the browser's ranking, auto-fill and marginal rate.
`AuctionFinalise` is the server's finalise, `FinaliseRefusals` which request it refuses and why, and `AuctionRoundTrip`
puts the ends together: approving the auto-filled selection reproduces the allocation of the close. For a BUYBACK the
browser sends the last filled rate and the server checks the first, so approval succeeds exactly if the units that ask
the lowest rate are all that the offering takes. `BidOrder` shows that the order in which bids arrive decides nothing
but which of several equal bids is served. `StableSort` is `Array.prototype.sort`, characterised as the only stable
sort.

**Protocols and codecs.** `PromiseChain` is a chain of promises used as a mutex; `NonceProtocol` puts the nonce cache
under it. `SseParser` and `LiveEvents` are the two ends of the event stream, `SseFrames` and `LivePayload` the meaning
of what goes over it. `CiphertextFraming` and `Rlp` are parsers proved against their printers; `RlpStrict` says of the
bytes alone which data the RLP decoder reads as written. `CanonicalJson` proves the canonical text unambiguous, and
`JsonReader`, a reader of JSON text on its own, finds in it what it was written for.

The partition hash, md5, `JSON.parse` and the behaviour of the node are parameters; each lemma names what it needs of
them.

## Model

| member | source | states |
|---|---|---|
| `BondLifecycle.ManagerFactCommutesWithTokenFact` | services/nb-bond-api/src/projection/bond-state.ts:62-129 | any manager fact but a creation commutes with any token fact, a coupon payment with an enabling included |
| `BondLifecycle.PassesCommute` | services/nb-bond-api/src/projection/bond-state.ts:62-129 | a whole manager pass without a creation commutes with a whole token pass |
| `BondLifecycle.SupplyPassSums` | services/nb-bond-api/src/projection/bond-state.ts:113-118 | a run of supply deltas succeeds exactly if no running total is negative, and then adds the sum |
| `BondLifecycle.CreatedForgets` | services/nb-bond-api/src/projection/bond-state.ts:70-79 | after a creation the bond does not depend on what came before it |
| `BondLifecycle.MergeWithCreation` | services/nb-bond-api/src/projection/bond-state.ts:62-129 | merging a batch with one that re-creates the bond changes nothing exactly if the stale token facts are masked |
| `BondLifecycle.MixedExactly` | services/nb-bond-api/src/projection/bond-state.ts:62-129 | facts and supply deltas in any mixture succeed exactly if no running total is negative, and then come to the facts followed by the sum |
| `BondLifecycle.LifeClosedForm` | services/nb-bond-api/src/projection/bond-state.ts:62-129 | every column, supply and update position included, as a function of the whole history since the creation, facts and supply deltas mixed: the coupon count is the greatest payment number, its time that of the first event carrying it |
| `BondLifecycle.MaturedIsTerminal` | services/nb-bond-api/src/projection/compose-projection.ts:188-212 | once matured, the status is matured whatever facts and transfers follow, but for a creation |
| `BondLifecycle.MaturedStatusExactly` | services/nb-bond-api/src/projection/compose-projection.ts:197-212 | the status is matured exactly if a matured fact occurred since the creation |
| `BondLifecycle.RemainingExactly` | services/nb-bond-api/src/projection/compose-projection.ts:188-195 | the coupons that remain are the next ones that fall due within the maturity, said without division |
| `BondLifecycle.StatusExactly` | services/nb-bond-api/src/projection/compose-projection.ts:197-212 | each of the four statuses, exactly when: matured by its flag, auctioning while the latest auction is open or closed, outstanding while issued with units or a coupon owed, else staged |
| `ProjectionDb.Database.ApplyBalanceDelta` | services/nb-bond-api/src/ingestion.ts:376-428 | one signed posting: skipped for the zero address and for a known log and holder, otherwise a row and the new balance |
| `ProjectionDb.Database.InsertBondEvent` | services/nb-bond-api/src/ingestion.ts:531-554 | one row is added unless the log is known |
| `ProjectionDb.HistoryStaysUnique` | services/nb-bond-api/src/ingestion-db.ts:282 | whatever logs come, no two history rows share transaction and log index, and every log has its row |
| `ProjectionDb.PostingsStayUnique` | services/nb-bond-api/src/ingestion-db.ts:269-270 | whatever transfers come, no two balance rows share transaction, log index and holder |
| `ProjectionDb.WindowKeepsUnique` | services/nb-bond-api/src/ingestion.ts:713-1127 | every window keeps both unique keys, seen before or not |
| `ProjectionDb.Database.ApplyBondStateEvent` | services/nb-bond-api/src/ingestion.ts:491-501 | load, reduce, save: only the bond of the event changes |
| `ProjectionDb.Database.RunManagerPass` | services/nb-bond-api/src/ingestion.ts:728-1003 | the manager loop computes the manager pass of the model on partitions, bonds and history |
| `ProjectionDb.Database.RunTokenPass` | services/nb-bond-api/src/ingestion.ts:1051-1092 | the token loop computes the token pass |
| `ProjectionDb.Database.RunTransferPass` | services/nb-bond-api/src/ingestion.ts:1094-1123 | the transfer loop computes the transfer pass, mints and burns moving the supply |
| `ProjectionDb.Database.ProcessBlockRange` | services/nb-bond-api/src/ingestion.ts:713-1127 | the bond half of the transaction: on success tables and checkpoint advance together, on an error neither changes |
| `WindowTransaction.WindowDb.ProcessBlockRange` | services/nb-bond-api/src/ingestion.ts:713-1127 | the whole transaction: bond tables, auction tables and checkpoint advance together, or an error leaves all of them as they were |
| `ProjectionLens.ProcessAt` | services/nb-bond-api/src/ingestion.ts:713-1127 | a window does to each bond exactly its own manager facts, token facts and supply deltas, and fails exactly if some bond does |
| `BondColumns.WindowWrites` | services/nb-bond-api/src/ingestion.ts:728-1092 | every lifecycle column of every bond after a window, said of its logs alone: which event writes which column, the manager's before the token's, all since the last `BondCreated` |
| `BondColumns.ChainWrites` | services/nb-bond-api/src/ingestion.ts:1227-1267 | the same for a whole valid chain |
| `BondColumns.WindowMaps` | services/nb-bond-api/src/ingestion.ts:713-1127 | a window maps the partition hashes of exactly the ISINs that its logs announce, and keeps the others |
| `BondColumns.HistoryGains` | services/nb-bond-api/src/ingestion.ts:531-554 | each new history row is a manager event of the window as it stands, key, ISIN and body |
| `WindowMerge.MergeOfWindows` | services/nb-bond-api/src/ingestion.ts:713-1127 | two windows in a row equal one window over both exactly if no transfer is announced late and every bond is mergeable |
| `WindowIndependence.WindowsAgreeExactly` | services/nb-bond-api/src/ingestion.ts:713-1127 | on a valid chain every window agrees with the block-by-block fold exactly if every creation masks the earlier token events |
| `WindowIndependence.NoRecreationMasks` | services/nb-bond-api/src/ingestion.ts:713-1127 | chains that never create a bond with a past meet that condition |
| `WindowIndependence.AnyWindowing` | services/nb-bond-api/src/ingestion.ts:1227-1267 | any sequence of windows over the chain yields the block-by-block fold |
| `WindowIndependence.WindowsDoNotMatter` | services/nb-bond-api/src/ingestion.ts:1227-1267 | any two ways of cutting the same blocks give the same tables |
| `WindowIndependence.ChainStaysInStep` | services/nb-bond-api/src/ingestion.ts:713-1127 | at every block the fold succeeds and agrees with the token ledger |
| `WholeProjection.WindowOfWhole` | services/nb-bond-api/src/ingestion.ts:713-1127 | any window over consistent blocks takes both halves of the tables from its first block to its last |
| `Recreation.RecreatedBondShowsDisabled` | services/nb-bond-api/src/ingestion.ts:1081-1092 | a concrete chain on which windowing matters: disabled and created again in one window |
| `TokenLedger.ConservationOfWindow` | services/nb-bond-api/src/ingestion.ts:1103-1122 | after a window a bond's balances sum to its supply exactly if it was not created in the window or started it with nothing |
| `TokenLedger.PostLogsExplained` | services/nb-bond-api/src/ingestion.ts:376-428 | each balance is the sum of its holder's rows and the balance of the last one |
| `BalanceRows.WindowRows` | services/nb-bond-api/src/projection/balance-reducer.ts:15-34 | a window adds a row for each side of each transfer of a known bond, with its holder, signed value and kind, and no other row |
| `BalanceRows.TotalsKeepRunning` | services/nb-bond-api/src/ingestion.ts:376-428 | every row says what its holder has after it: the sum of the holder's rows so far |
| `TokenLedger.PostLogsRefine` | services/nb-bond-api/src/projection/balance-reducer.ts:15-34 | on a valid log the posted balances equal the ledger's |
| `TokenLedger.SupplyStaysCovered` | services/nb-bond-api/src/projection/bond-state.ts:113-117 | on a valid log the negative-supply error is never raised |
| `TokenLedger.WindowKeepsSound` | services/nb-bond-api/src/ingestion.ts:713-1127 | a window on a sound state succeeds and leaves it sound: ledger balances, none negative, supply the sum, rows explaining balances |
| `Replay.ReplayOfWindow` | services/nb-bond-api/src/ingestion.ts:390-427 | from any tables, a second run right after the first changes no balance, row or history, no bond the window does not create, and puts the supply of those it does to zero |
| `Replay.ReplayIsHarmless` | services/nb-bond-api/src/projection/bond-state.ts:70-79 | such a run changes no fact exactly if every bond created in the window ends it without supply |
| `ReplayOfRange.RerunIsOneWindow` | services/nb-bond-api/src/ingestion.ts:1219-1267 | running committed blocks again in any windows is running them again as one window |
| `ReplayOfRange.ReplayOfCommittedBlocks` | services/nb-bond-api/src/ingestion.ts:1219-1267 | a loop that starts from an old checkpoint, as far as the committed blocks go: every window within them succeeds and leaves partitions, balances, rows and history alone; after the last, bonds are as before but for the supply of those created since, which is zero |
| `ReplayOfRange.ReplayOfCommittedBlocksIsHarmless` | services/nb-bond-api/src/projection/bond-state.ts:70-79 | running the committed blocks again changes no fact exactly if every bond created since the old checkpoint has no supply |
| `ReplayOfRange.RereadIsIdleExactly` | services/nb-bond-api/src/projection/bond-state.ts:62-129 | reducing facts again changes nothing exactly if the row already shows all of them or, for a bond they create, records column by column what they say since the creation, without supply |
| `ReplayOfRange.EarlierBlocksAreIdleExactly` | services/nb-bond-api/src/ingestion.ts:713-1127 | windows that are not the newest, run again, leave a bond alone exactly under that condition |
| `StaleReplay.OlderWindowTakesOfferingBack` | services/nb-bond-api/src/projection/bond-state.ts:83-86 | the instance that fails it: an older window takes an extended offering back, with nothing created and no error |
| `CatchingUp.StraddlingWindowExactly` | services/nb-bond-api/src/ingestion.ts:1177-1186 | a window over committed and new blocks succeeds exactly if no bond created in the former and not in the latter is burnt below zero when it starts there from nothing; then only such bonds are short, by their supply before |
| `CatchingUp.WindowAfterCatchingUpExactly` | services/nb-bond-api/src/ingestion.ts:1219-1267 | the same for the next window of a loop whose windows met the end of the committed blocks |
| `CatchingUp.CatchingUpExactly` | services/nb-bond-api/src/ingestion.ts:1219-1267 | the whole run from an old checkpoint, in any windows: when it succeeds and which tables it leaves |
| `CatchingUp.FailsAgain` | services/nb-bond-api/src/ingestion.ts:1227-1266 | a window that fails keeps failing whatever the head, until a bond that is short is created again |
| `BurnAfterReplay.BurnFailsAfterReplay` | services/nb-bond-api/src/projection/bond-state.ts:113-117 | the instance: create, mint, both again, burn; the chain succeeds and the loop fails, in one window or two |
| `AuctionDb.AuctionTables.ProcessAuctions` | services/nb-bond-api/src/ingestion.ts:728-1049 | the manager's auction events and then the auction contract's events, statement by statement, compute the auction window of the model |
| `AuctionColumns.WindowColumns` | services/nb-bond-api/src/ingestion.ts:205-372 | every column of an auction's row, its bids and its allocations after a window, said of the window's logs: first or last event that names it, and which event sets which status |
| `AuctionColumns.HistoryOfWindow` | services/nb-bond-api/src/ingestion.ts:236-251 | the auction history grows by the events whose key is new, as they are and in their order |
| `AuctionDb.AuctionTables.CancelAuctionBid` | services/nb-bond-api/src/ingestion.ts:323-333 | every bid of the bidder with the hash is cancelled, no other changes |
| `AuctionDb.AuctionTables.ReplaceAuctionAllocations` | services/nb-bond-api/src/ingestion.ts:350-374 | the allocations of one auction are replaced, in order |
| `AuctionProjection.StepsCommuteExactly` | services/nb-bond-api/src/ingestion.ts:205-289 | a manager event and an auction event commute exactly if they agree on the ISIN and on the transaction that creates the row |
| `AuctionProjection.AuctionWindowsDoNotMatter` | services/nb-bond-api/src/ingestion.ts:1005-1049 | any two ways of cutting the same blocks give the same auction tables |
| `AuctionReplay.BidReplayExactly` | services/nb-bond-api/src/ingestion.ts:291-333 | a second run leaves the bids alone exactly if no cancellation of the window matches a bid active after it |
| `AuctionReplay.AuctionReplayExactly` | services/nb-bond-api/src/ingestion.ts:205-374 | a second run leaves auction rows, history and allocations alone, and all four tables exactly under that condition |
| `AuctionReplay.ReplayOfCommittedAuctions` | services/nb-bond-api/src/ingestion.ts:1219-1267 | the same for all blocks committed since an old checkpoint, in any windows |
| `AuctionReplay.EarlierAuctionsAreIdleExactly` | services/nb-bond-api/src/ingestion.ts:205-374 | earlier blocks run again in any windows: history is left alone, the row and the allocations of an auction exactly if they show what those blocks say of it, the bids exactly if no cancellation of those blocks matches an active one |
| `AuctionReplay.OlderWindowReopensAuction` | services/nb-bond-api/src/ingestion.ts:335-348 | the instance that fails it: a finalised auction is open again after the window that opened it |
| `AuctionReplay.ResubmittedBidIsLost` | services/nb-bond-api/src/ingestion.ts:291-333 | the instance that fails: withdrawn, submitted again unchanged, and cancelled by the second run |
| `IngestionLoop.ComputeIngestionWindow` | services/nb-bond-api/src/ingestion.ts:1177-1186 | a window starts at the next block, ends at or before the goal and has at most 501 blocks |
| `IngestionLoop.NoGapNoOverlap` | services/nb-bond-api/src/ingestion.ts:1177-1267 | on any chain and in any run of ticks, failures and crashes the tables are those of windows of 1 to 501 blocks that make up exactly the blocks before the checkpoint |
| `IngestionLoop.RunIsExactlyOnce` | services/nb-bond-api/src/ingestion.ts:1219-1267 | on a chain where windows do not matter these tables, of bonds and of auctions, are the fold of those blocks one by one |
| `IngestionLoop.CheckpointDeterminesTables` | services/nb-bond-api/src/ingestion.ts:1124 | two runs with the same checkpoint hold the same tables |
| `IngestionLoop.Ingestion.ProcessTo` | services/nb-bond-api/src/ingestion.ts:1227-1267 | the loop ends, answers whether the goal is committed, and is a run of ticks |
| `IngestionLoop.Ingestion.AdvanceProjectionTo` | services/nb-bond-api/src/ingestion.ts:1337-1355 | true only if the block is committed |
| `IngestionQueue.NextKeepsSane` | services/nb-bond-api/src/ingestion.ts:1272-1279 | every step of the queue keeps its invariant and never moves the loop back |
| `IngestionQueue.QueueSafe` | services/nb-bond-api/src/ingestion.ts:1272-1279 | over all interleavings at most one run is active, in enqueue order, and an advance that returns true finds its block committed |
| `IngestionQueue.AdvancedForGood` | services/nb-bond-api/src/ingestion.ts:1337-1355 | and the block stays committed whatever runs later |
| `IngestionQueue.QueueOverChain` | services/nb-bond-api/src/ingestion.ts:1272-1279 | on a valid chain the tables behind the queue are the fold of the blocks before the checkpoint |
| `IngestionQueue.NeverStuck` | services/nb-bond-api/src/ingestion.ts:1272-1279 | unless all jobs are answered, some job can take a step |
| `IngestionQueue.EveryJobIsAnswered` | services/nb-bond-api/src/ingestion.ts:1227-1279 | every job is answered after boundedly many steps, whatever is enqueued behind it: its own and earlier turns and a window for each block still to ingest |
| `IngestionQueue.AnswerExactly` | services/nb-bond-api/src/ingestion.ts:1227-1267 | over all interleavings, an advance is told no exactly if it failed to start, met an outage or met a window whose transaction throws, and yes exactly if it finished |
| `IngestionQueue.UndisturbedSucceeds` | services/nb-bond-api/src/ingestion.ts:1227-1279 | an advance to a block of the chain that meets none of these is told yes after boundedly many steps |
| `IngestionQueue.LivesAreSane` | services/nb-bond-api/src/ingestion.ts:1219-1279 | through crashes, each of which loses the queue and its jobs, the invariant holds and a block that was promised stays committed |
| `StableSort.SortIsTheStableSort` | services/nb-bond-api/src/allocation.ts:201-211 | a list is the sorted one exactly if it is sorted and keeps equals in order |
| `Allocation.ComputeUniformAllocation` | services/nb-bond-api/src/allocation.ts:23-88 | the loop returns the closed-form allocation, each error in its case |
| `Allocation.ComputeBuybackAllocation` | services/nb-bond-api/src/allocation.ts:90-142 | likewise for buybacks, which check for the end before parsing a bid |
| `Allocation.FillsAt` | services/nb-bond-api/src/allocation.ts:43-67 | fill `i` is what the earlier bids left, up to the size of ranked bid `i` |
| `AllocationTheorems.AllocationSound` | services/nb-bond-api/src/allocation.ts:36-87 | fills sum to min(offering, units), all but the last are complete, no bid left out is better than a filled one |
| `AllocationTheorems.PositiveBidsSucceed` | services/nb-bond-api/src/allocation.ts:69-71 | positive bids are allocated exactly if the offering is positive and there is a bid |
| `AllocationTheorems.AllocationOptimal` | services/nb-bond-api/src/allocation.ts:36-67 | no other way to place as many units with the same bids costs less (RATE, BUYBACK) or raises more (PRICE) |
| `AllocationTheorems.BuybackPaysLeast` | services/nb-bond-api/src/allocation.ts:99-125 | what a buyback pays out is the least possible |
| `AllocationTheorems.ClearingRateExactly` | services/nb-bond-api/src/allocation.ts:43-76 | the clearing rate is the least rate (PRICE: the greatest) at which cumulative units cover what is placed, and no other rate is |
| `AllocationTheorems.BuybackRateExactly` | services/nb-bond-api/src/allocation.ts:131 | the reported buyback rate is the lowest rate on offer |
| `ServiceOrder.ServedExactly` | services/nb-bond-api/src/allocation.ts:23-142 | the outcome said of the bids alone: its auction type and total, and fills that go to the bids in order of rate, then units, then place, each in full or with what is left |
| `ServiceOrder.TiesPreferUnits` | services/nb-bond-api/src/allocation.ts:213-237 | of bids at one rate, a filled one has at least the units of any that is filled later or not at all, and at equal units it came earlier |
| `ServiceOrder.RefusedExactly` | services/nb-bond-api/src/allocation.ts:23-142 | which error exactly when: no offering, no bid, or a zero among the bids that are compared or looked at |
| `BidOrder.OrderMattersOnlyForTies` | services/nb-bond-api/src/allocation.ts:23-142 | in whatever order the bids arrive, the allocation has the same error, or the same clearing rate, total and fills but for the names on them |
| `AuctionSelection.SameOrder` | services/nb-ui/src/domain/auctionAllocation.js:12-26 | browser and server rank the same bids alike, ties included |
| `AuctionSelection.SelectAuctionBidPositions` | services/nb-ui/src/domain/auctionAllocation.js:29-44 | the loop selects the positions of the shortest covering prefix of the ranking |
| `AuctionSelection.AutoFillPicks` | services/nb-ui/src/domain/auctionAllocation.js:29-44 | the selected positions are those of the best bids, in rank order |
| `AuctionSelection.MarginalClearingRate` | services/nb-ui/src/domain/auctionAllocation.js:47-62 | the loop returns the rate of the last fill, zero if nothing is filled |
| `AuctionSelection.MarginalRateExactly` | services/nb-ui/src/domain/auctionAllocation.js:47-62 | it equals the server's clearing rate for every selection, for a BUYBACK exactly if the selected units at the lowest rate are all that the offering takes |
| `AuctionFinalise.LookupExactly` | services/nb-bond-api/src/features/auctions/service.ts:274-282 | a selection is accepted exactly if its indexes exist and are distinct |
| `AuctionFinalise.Finalise` | services/nb-bond-api/src/features/auctions/service.ts:254-317 | status and size checks, selection, recomputation, rate check and proof pairing, with the error of each |
| `FinaliseRefusals.NotReady` | services/nb-bond-api/src/features/auctions/service.ts:258-262 | the status or the missing size that refuses a request, each exactly when |
| `FinaliseRefusals.RefusedExactly` | services/nb-bond-api/src/features/auctions/service.ts:274-299 | a closed auction's request is refused by its first unknown or repeated index, else by the error of the allocation, else by a rate that is not the expected one, each exactly when |
| `FinaliseRefusals.SubmittedExactly` | services/nb-bond-api/src/features/auctions/service.ts:301-317 | what is submitted otherwise: the allocation with nonce and signature of the bid behind each fill; the first bid without a signature refuses it |
| `Decimal.TextExactly` | services/nb-bond-api/src/features/auctions/service.ts:294 | the text that the expected rate is compared with is the number's digits, without a needless zero |
| `AuctionRoundTrip.FinaliseSound` | services/nb-bond-api/src/features/auctions/service.ts:274-317 | proofs have distinct selected indexes, each of the bid that its allocation fills; fills sum to min(offering, selected units), all but the last are complete, and no selected bid is passed over for a worse one |
| `AuctionRoundTrip.PrefixAllocatesTheSame` | services/nb-bond-api/src/features/auctions/service.ts:284-292 | allocating again over the reached bids returns the same outcome |
| `AuctionRoundTrip.AutoFillThenFinalise` | services/nb-ui/src/pages/FinaliseAuctionModal.jsx:57-63 | auto-fill and approve reproduce the allocation of the close exactly if every filled bid is signed and, for a BUYBACK, the units at the lowest rate are all that the offering takes; otherwise the error is the missing signature or the rate |
| `AuctionRoundTrip.BuybackRatesDisagree` | services/nb-bond-api/src/features/auctions/service.ts:294-299 | a concrete buyback for which the server computes 100 and the browser 200 |
| `CiphertextFraming.Parse` | services/nb-bond-api/src/encryption.ts:173-218 | the offset-driven parser computes the parse function, each error in its case |
| `CiphertextFraming.ParseExactly` | services/nb-bond-api/src/encryption.ts:173-285 | where each field of a blob stands, byte for byte, and each error exactly when |
| `CiphertextFraming.PackExactly` | services/nb-bond-api/src/encryption.ts:241-257 | packing succeeds exactly if both wraps are under 65536 bytes |
| `CiphertextFraming.FramingExactly` | services/nb-bond-api/src/encryption.ts:173-285 | a blob parses to parts exactly if the parts have standard lengths and pack to the blob, byte for byte |
| `CiphertextFraming.UnpackInverse` | services/nb-bond-api/src/encryption.ts:259-285 | the same for a single key wrap |
| `CiphertextFraming.PackInjective` | scripts/bid-encryption/src/encryption.ts:241-266 | two different standard contents never share a blob |
| `Rlp.DecodeRlp` | scripts/verification/check-besu-qbft-baseline.py:32-61 | the recursive loop computes the decoding function and ends because each item starts further on |
| `Rlp.RoundTrip` | scripts/verification/check-besu-qbft-baseline.py:32-61 | wherever an encoding (Appendix B of the Ethereum Yellow Paper) stands and whatever follows, it decodes to its item and the offset after it |
| `Rlp.KnownEncodings` | scripts/verification/check-besu-qbft-baseline.py:32-61 | the examples of the Ethereum documentation |
| `Rlp.AnnounceableExactly` | scripts/verification/check-besu-qbft-baseline.py:32-61 | a length can be announced exactly if it is below 2^64, the bound up to which `RoundTrip` speaks |
| `Rlp.DecodeOfEncode` | scripts/verification/check-besu-qbft-baseline.py:32-61 | decoding from the start of an encoding, whatever follows, returns the item and the encoding's length |
| `Rlp.PrefixFree` | scripts/verification/check-besu-qbft-baseline.py:32-61 | no encoding is the beginning of another |
| `RlpStrict.StrictExactly` | scripts/verification/check-besu-qbft-baseline.py:32-61 | the data have an item's encoding at an offset exactly if they are strict there (lengths announced briefly, ends within the data, lists filled exactly), and then that item and its end are decoded |
| `RlpStrict.ReencodingTests` | scripts/verification/check-besu-qbft-baseline.py:32-61 | re-encoding what is decoded is a test for strict data |
| `Rlp.AcceptsMoreThanEncodings` | scripts/verification/check-besu-qbft-baseline.py:34-43 | the decoder also takes a needless length byte and content that is cut short |
| `RlpStrict.LooseData` | scripts/verification/check-besu-qbft-baseline.py:34-43 | and neither of these is strict |
| `SseParser.DrainAppend` | services/nb-ui/src/sync/liveEventProtocol.js:43-52 | draining early loses nothing, even inside a delimiter |
| `SseParser.ChunkIndependence` | services/nb-ui/src/sync/liveEventProtocol.js:43-52 | however a stream is cut, calls and leftover buffer are those of one push of the whole |
| `SseParser.SameStreamSameCalls` | services/nb-ui/src/sync/liveEventProtocol.js:43-52 | two ways of cutting one stream lead to the same calls and the same buffer |
| `SseParser.Parser.ParseFrame` | services/nb-ui/src/sync/liveEventProtocol.js:18-40 | a frame adds the one call that its event and data lines ask for, or none |
| `SseParser.Parser.Push` | services/nb-ui/src/sync/liveEventProtocol.js:43-52 | a push handles every complete frame and keeps the rest |
| `SseParser.Feed` | services/nb-ui/src/sync/liveEventProtocol.js:15-54 | a fresh parser fed chunk by chunk makes the calls of the whole stream |
| `SseFrames.CutExactly` | services/nb-ui/src/sync/liveEventProtocol.js:43-52 | the first frame ends at the first blank line, whichever of the four line-end pairs it is |
| `SseFrames.NothingCut` | services/nb-ui/src/sync/liveEventProtocol.js:46-47 | and nothing is cut exactly if there is no blank line |
| `SseFrames.FrameExactly` | services/nb-ui/src/sync/liveEventProtocol.js:18-40 | for every frame, said of its lines as a sender means them: a call exactly if the last event name is `changed` and the data lines, joined by line feeds, hold a known key; comments, other fields, line ends and the space after a colon make no difference |
| `SseFrames.EveryFrameIsSent` | services/nb-ui/src/sync/liveEventProtocol.js:18-40 | and every text is such a frame |
| `SseFrames.KnownOnceExactly` | services/nb-ui/src/sync/liveEventProtocol.js:35 | a call is for exactly the known keys of the list, each once, in order of first occurrence |
| `LiveEvents.ActionKeepsValid` | services/nb-bond-api/src/live-events.ts:13-55 | the heartbeat runs exactly while there are subscribers, through subscribing, closing and throwing |
| `LiveEvents.Broadcaster.BroadcastFrame` | services/nb-bond-api/src/live-events.ts:46-55 | the frame reaches every subscriber that does not throw; those that do are dropped |
| `LiveEvents.Broadcaster.PublishChanged` | services/nb-bond-api/src/live-events.ts:23-29 | known keys are sent in canonical order, nothing if none is known |
| `LivePayload.CanonicalExactly` | services/nb-bond-api/src/live-events.ts:24-26 | a publish is for exactly the requested keys that the contract knows, each once, in its order |
| `LivePayload.PayloadExactly` | services/nb-bond-api/src/live-events.ts:28 | its data line is JSON text in which a reader of JSON finds that list under `changed` |
| `LiveEvents.Reception` | services/nb-bond-api/src/app.ts:346-368 | an open connection receives the greeting and then the frame of every message since, in order |
| `LiveEvents.EndToEnd` | services/nb-ui/src/sync/liveEventProtocol.js:15-54 | from hub to callback: a client that connects and stays is called once per publish, in order, with exactly its known keys; with part of the stream, for the frames it has whole and no others |
| `PromiseChain.SettledExactly` | services/nb-bond-api/src/chain.ts:54-67 | the awaited tail settles exactly when everybody before has left, for the lock and for the queue |
| `PromiseChain.MutualExclusion` | services/nb-bond-api/src/chain.ts:54-67 | at most one caller is inside |
| `NonceProtocol.NextKeepsOrderly` | services/nb-bond-api/src/chain.ts:69-92 | every step keeps order, cache and pending count in line |
| `NonceProtocol.NonceProtocolSafe` | services/nb-bond-api/src/chain.ts:54-92 | over all interleavings and outcomes: one caller inside, entry in arrival order, nonces consecutive, none skipped or reused |
| `NonceProtocol.BroadcastUsesPending` | services/nb-bond-api/src/chain.ts:77-92 | each broadcast uses the pending count of that moment |
| `NonceProtocol.EveryoneIsReleased` | services/nb-bond-api/src/chain.ts:54-67 | every caller is released after as many steps as it and those before it have left, whatever arrives behind it, and until then one of them can move |
| `NonceProtocol.NonceManager.NextNonce` | services/nb-bond-api/src/chain.ts:69-75 | the cached nonce, else the fetched one, which is cached; nothing is cached when the fetch fails |
| `NonceProtocol.NonceManager.Send` | services/nb-bond-api/src/chain.ts:82-91 | a broadcast is recorded with the caller's nonce; a failure before it empties the cache and releases |
| `NonceProtocol.NonceManager.Settle` | services/nb-bond-api/src/chain.ts:83-91 | a confirmed send leaves the next nonce in the cache, a failed one empties it; both release |
| `CanonicalJson.CanonicalExactly` | services/nb-bond-api/src/http.ts:20-32 | two DTO trees have the same canonical text exactly if they are equal up to key order at every depth, `undefined` read as `null` |
| `JsonReader.CompareKeysExactly` | services/nb-bond-api/src/http.ts:24 | keys are ordered by their first different character, a prefix before its extensions |
| `JsonReader.CanonicalReads` | services/nb-bond-api/src/http.ts:20-32 | the canonical text is JSON text: a reader of JSON (RFC 8259) finds in it the value, `undefined` as `null`, with the properties of every object in ascending order |
| `CanonicalJson.ValuesSplit` | services/nb-bond-api/src/http.ts:20-32 | before punctuation, no canonical text is the beginning of another |
| `CanonicalJson.Restamp` | services/nb-bond-api/src/http.ts:44-47 | stamping again hashes the same text and changes nothing |
| `CanonicalJson.StampExactly` | services/nb-bond-api/src/http.ts:34-47 | two DTOs are hashed over one text exactly if they are equal up to key order, their own stamps aside |
| `JsonReader.StampedExactly` | services/nb-bond-api/src/http.ts:44-47 | a stamped DTO is its properties other than `md5` and the hash of a text that says exactly these |

## Left out

- BondLifecycle.LifeClosedForm: the state is said since a creation; a bond whose first event is not its creation starts from the blank row.
- IngestionLoop.RunIsExactlyOnce: a crash restarts the loop from the checkpoint when nothing is in flight; two loops that run at the same time are covered only as `CatchingUp` covers them, one going on while the other stands still.
- IngestionLoop.Ingestion.ProcessTo: RPC failures are the blocks at which a call throws; backoff, timestamps of ticks and the error list are not modelled.
- AuctionProjection.AuctionWindowsDoNotMatter: assumes that the manager names an auction in the block that creates it and that both contracts agree on its ISIN; allocations are read with the log they belong to.
- ProjectionDb.Database.ProcessBlockRange: the bond half alone, whose rollback leaves out the auction tables; `WindowTransaction.WindowDb.ProcessBlockRange` has both.
- ProjectionDb.Database.RunManagerPass: partitions carry the ISIN only, so their bond address, creation block and disabled flag are not modelled, nor are event payloads.
- ReplayOfRange.ReplayOfCommittedBlocks: needs a valid chain whose creations mask, as window independence does, and so does `CatchingUp`; the update position of a bond that is short may be older.
- CatchingUp.CatchingUpExactly: speaks of the bond tables; the auction tables never make a window fail, and a failing window rolls them back with the others.
- AuctionReplay.BidReplayExactly: assumes that the chain never gives one bid index of an auction twice.
- Allocation.ComputeUniformAllocation: the comparator's throws are given as a condition on the list, on the ground that a sort must compare neighbours of its result; the allocation hash and the time stamp are not part of the outcome; the branch for a zero fill is absent because a parsed bid is positive.
- AuctionFinalise.Finalise: loading the auction, unsealing and the transaction itself are outside; bid texts are numbers, digits only.
- AuctionRoundTrip.AutoFillThenFinalise: the projected bids are the on-chain bids of their indexes.
- LiveEvents.Broadcaster.BroadcastFrame: the order in which subscribers are called is left open, and callbacks do not call the broadcaster back.
- LiveEvents.EndToEnd: `JSON.parse` is assumed to find under `changed` what `JsonReader.ReadText` finds there, in every text that the latter reads.
- NonceProtocol.NonceProtocolSafe: assumes that nobody else sends from the account and that the node does not drop a transaction it has taken.
- CanonicalJson.CanonicalExactly: strings are Unicode text without lone surrogates, and keys are ordered by character rather than by UTF-16 unit; functions, symbols and non-finite numbers do not occur.
- Rlp.DecodeRlp: Python's recursion limit is not modelled.
- The partition hash that stands in for an ISIN when its lookup on the chain throws and no mapping is stored: the model's logs carry a resolved ISIN or none.
- START_BLOCK is block 0; resolved ISINs and block timestamps arrive with the logs.
- Chain reorganisations, chain identity binding, schema migration and dropping of the tables.
- Encryption, signatures and hashing, except for the framing and for injectivity where a lemma names it.
- Coupon amounts and the other composed DTO fields, routes, schemas and the rest of the user interface.
