# Matching engine and market data: a verified model

A Dafny model of the trading platform's matching engine and of the algorithmic parts of its market-data
service, with proofs about every run, every interleaving and every crash point.

- **Order book** (`OrderTypes`, `BookSpec`, `BookInvariants`, `Matching`, `StopCascade`, `OrderLifecycle`,
  `Conservation`, `AccountLedger`, `PriceLevels`, `Depth`, `OrderBook`). `BookSpec` is the simple form: each
  side is one queue in priority order and an order consumes a prefix of it. `OrderBook` is the engine's own
  form: two sorted maps of queues, a pool of armed stops, nested loops that update them in place. Its methods
  are proved to do what `BookSpec` says; the other modules prove what that is worth.
- **Write-ahead log** (`Utf8`, `WriteAheadLog`, `WitnessCodec`, `Replay`, `CrashSafety`, `SecondRecovery`,
  `WalBackedBook`, `ReplayHarness`, `ScriptGenerator`). The file is a sequence of bytes. How much of a
  command the disk still takes is a parameter, so one contract covers success, a failing append and a
  crash inside a line.
- **Ring buffer and request pipeline** (`Words`, `SpscRing`, `Pipeline`, `PipelineOverRings`, `RingProgress`,
  `DurablePipeline`). The ring is a transition system with one atomic access per step, stale index loads,
  explicit uninitialised slots and counters that wrap at the word size; a class on a slot array is tied to
  it. The pipeline is two threads joined by two bounded queues, and then by two of those rings, which is
  proved to be a refinement. With the logged book as its core it is the whole process: a recovery that
  succeeds has lost no answered command.
- **Market data** (`QuotePublisher`, `QuoteStream`, `QuoteResync`, `QuoteGaps`, `ValueArea`, `TpoLetters`,
  `Xor`, `SplitMix`, `Multicast`, `TickTape`, `ColumnarTickStore`, `Candles`, `Footprint`, `Watchlist`).

`dafny verify dfyconfig.toml` checks the whole project.

## What the proofs rest on

- The record serialiser is a parameter. `WriteAheadLog.Faithful` says all that is used of it: a record
  parses back from its line, no strict prefix of a line parses, and a line is UTF-8 text without line
  breaks that is not blank. JSON objects written by serde are such lines.
- A stop order must carry a trigger price (`OrderTypes.WellFormed`); the code panics otherwise.
- Memory equals the replay of the file only while every append has succeeded. That is the predicate
  `WalBackedOrderBook.InStep`, for any intact log, however many crashes it has seen; the contracts of the two
  commands also say what a failing append leaves.
- Clock readings are parameters, and time order of ticks or stamps is a premise where the code relies on it.
- In `BookSpec`, the map the code calls descending is an ordinary ascending map whose last key is the best
  bid; a triggered stop rests under the id it was armed with, so ids inside a level need not increase.
- The two-byte length prefix of the multicast format limits symbols to 65535 bytes, as the source says;
  `Multicast.RoundTripIffSymbolFits` is that limit. A longer symbol does not reach a consumer, because the
  message exceeds what a UDP datagram carries and the send fails.
- `hide` statements only keep definitions out of single proofs; nothing is assumed.

## Where the code and its documentation differ

- *Torn last line.* The reader is documented to tolerate a truncated last line. It decodes the whole file
  as text before it parses any line, so a file cut inside a multi-byte character (an account name can hold
  one, and the serialiser writes it unescaped) is rejected as a whole. `CrashSafety.RecoveryAfterACrash`
  gives the exact condition, and `CutInsideACharacterDefeatsRecovery` the failing family.
- *Torn tail kept.* Startup reopens the file behind a torn tail without cutting it off. The next record then
  shares a line with the tail; `SecondRecovery.SecondRecoveryIsRightIff` says when the file still reads back
  right; where, as with JSON, a part of a line and a line never make a line, that is when there was no tail
  (`OnlyACleanTailReadsBackRight`).
- *Smallest value area.* The result type documents the range as the smallest one around the point of
  control. The greedy loop does not give that: `ValueArea.TheAreaNeedNotBeTheSmallest` is a counterexample
  at the default 70%. `SmallestForEveryTargetIff` says exactly on which profiles it does for every target,
  `FallingProfilesGiveTheSmallestArea` gives a shape of profile that suffices (it must fall from grid price
  to grid price, so a gap inside the profile breaks it), and `GrowReachesAndIsTight` what the loop gives on
  every profile.
- *Gaps seen by quote clients.* A client is to take a number that does not immediately follow the last one
  of its instrument for a gap. A snapshot can hold updates that are still queued as deltas, and these then
  repeat or precede its number (`QuoteGaps.AClientSeesAGap` is such a run);
  `QuoteGaps.DeltaFollowsUnlessCovered` shows that nothing else ever makes a client see a gap.
- *Independent symbol streams.* Symbols are documented never to share a stream. Their start states differ
  (`SplitMix.SymbolsStartApart`), but all of them walk the same cycle (`SplitMix.StreamsAreShifts`);
  `SplitMix.SymbolsDrawApartIff` says for how many draws two symbols stay apart.
- *Lost watchlist changes.* Millisecond stamps make ties rare, not impossible; with a tie, a client that
  synced in between misses a change (`Watchlist.TiedStampsLoseChanges`). `DeltaIsCompleteIffLaterStamped`
  says exactly when the delta is complete, `SetSyncsIffTiesCancelOut` when the set comes out right.

## Model

| member | source | states |
|---|---|---|
| BookInvariants.ReachableBooksKeepInv | services/matching-engine/src/orderBookCore.rs:96-158 | Every book reached from an empty one by any run of submissions and cancellations: bids strictly below asks, both sides in price order, every remaining quantity positive, no id held twice across both sides and the stop pool, all ids below the next id, stop ids increasing, and no armed stop eligible at the last traded price |
| BookInvariants.RunKeepsInv | services/matching-engine/src/orderBookCore.rs:96-158 | The same from any book that keeps it, not only the empty one; the next id never goes back |
| BookInvariants.ApplyKeeps | services/matching-engine/src/orderBookCore.rs:96-158 | One command keeps the invariant, and an id that was handed out and is no longer held stays unheld |
| BookInvariants.SubmitKeeps | services/matching-engine/src/orderBookCore.rs:96-126 | A submission keeps the invariant, uses up exactly one id, and brings no other id onto the book |
| BookInvariants.CancelKeeps | services/matching-engine/src/orderBookCore.rs:135-158 | A cancellation keeps the invariant and changes how often an id is held for the cancelled id only |
| BookInvariants.CascadeKeeps | services/matching-engine/src/orderBookCore.rs:264-290 | Started from a consistent book in which stops may be eligible, the cascade ends in a book with the full invariant and adds no id |
| BookInvariants.MatchLiveKeepsSides | services/matching-engine/src/orderBookCore.rs:246-258 | A limit or market order leaves an uncrossed, sorted book with positive quantities and does not touch the stop pool |
| Matching.SweepFillsAPrefix | services/matching-engine/src/orderBookCore.rs:299-442 | The fills are those of the longest prefix of the opposite side that crosses the limit and that the quantity reaches; each fill is the smaller of what rests there and what those ahead leave; what is left is the rest of the last order reached and everything behind it |
| Matching.AheadIsFilledFirst | services/matching-engine/src/orderBookCore.rs:299-442 | Price-time priority: an order ahead of a filled order is filled completely |
| Matching.SweepTradesAllItCan | services/matching-engine/src/orderBookCore.rs:299-442 | On a sorted side the executed quantity is the order's quantity or all the liquidity at its limit, whichever is less; liquidity not traded stays |
| Matching.EnqueueKeepsArrivalOrder | services/matching-engine/src/orderBookCore.rs:444-473 | A remainder joins behind every order of its price or better and ahead of every worse one, whatever its id |
| StopCascade.CascadeFiresLowestFirst | services/matching-engine/src/orderBookCore.rs:264-290 | Each turn fires the lowest-id stop whose trigger the last price of that moment touches; turns follow one another; afterwards none is eligible; fired plus still armed is what was armed |
| StopCascade.FiredStopsWereTouched | services/matching-engine/src/orderBookCore.rs:572-584 | Every stop a cascade fires was touched: the last price of that moment is at or above a buy trigger, at or below a sell trigger |
| StopCascade.FiresIffTouched | services/matching-engine/src/orderBookCore.rs:264-290 | A cascade fires a stop if and only if the last price touches the trigger of some armed stop |
| StopCascade.LeftStopsAreUntouched | services/matching-engine/src/orderBookCore.rs:264-290 | After a cascade the last price touches no armed trigger |
| StopCascade.NoStopFiresTwice | services/matching-engine/src/orderBookCore.rs:264-290 | Two turns of one cascade never fire the same id |
| StopCascade.CascadeTradesAreTheFirings | services/matching-engine/src/orderBookCore.rs:264-290 | The trades a cascade returns are those of its firings, in order |
| Matching.LimitOrdersHonourTheirLimit | services/matching-engine/src/orderBookCore.rs:299-473 | A limit order never trades beyond its limit; whatever it does not trade rests in full under its id, account and limit, and none of it is dropped |
| Matching.MarketOrdersNeverRest | services/matching-engine/src/orderBookCore.rs:299-442 | A market order trades up to everything on the other side, leaves its own side alone and drops exactly the rest |
| StopCascade.FiredStopsKeepTheirTerms | services/matching-engine/src/orderBookCore.rs:264-290 | A triggered stop-limit honours its own limit and rests under the id and account it was armed with; a triggered stop-market never rests |
| StopCascade.ArmedStopsAreOutOfReach | services/matching-engine/src/orderBookCore.rs:572-584 | In every reachable book armed buy stops lie strictly above the last traded price and armed sell stops strictly below it |
| StopCascade.LastPriceIsTheLastTrade | services/matching-engine/src/orderBookCore.rs:113-126 | After a submission the last traded price is the price of the last trade returned, or unchanged if there is none |
| OrderLifecycle.CancellableIffFound | services/matching-engine/src/orderBookCore.rs:135-200 | An order can be cancelled exactly when the status query does not say it is unknown |
| OrderLifecycle.RestingStatusIsExact | services/matching-engine/src/orderBookCore.rs:166-185 | The status of a resting order names a side, limit and remaining quantity exactly when an order with the id stands there on that side with that limit and quantity |
| OrderLifecycle.ArmedStatusIsExact | services/matching-engine/src/orderBookCore.rs:186-200 | The status of an armed stop names a side, trigger and quantity exactly when a stop with the id is armed with them |
| OrderLifecycle.CancelRemovesExactlyOne | services/matching-engine/src/orderBookCore.rs:135-158 | A cancellation takes one order out of one collection; the others, all other positions, the last price and the next id stay |
| OrderLifecycle.CancelUnknownIsANoOp | services/matching-engine/src/orderBookCore.rs:135-158 | Cancelling an id that is not on the book changes nothing |
| OrderLifecycle.GoneForGood | services/matching-engine/src/orderBookCore.rs:166-200 | Once an id that was handed out is not found, it is not found after any further run of commands |
| OrderLifecycle.FindResting | services/matching-engine/src/orderBookCore.rs:204-217 | Finds an order with the id exactly when there is one |
| Conservation.RunsConserveQuantity | services/matching-engine/src/orderBookCore.rs:96-158 | For any set of orders (in particular one) and any run: submitted = filled as aggressor + filled while resting + resting or armed + cancelled + dropped market remainder |
| Conservation.TotalsBalance | services/matching-engine/src/orderBookCore.rs:96-158 | Over all orders: submitted = 2 x executed + resting + armed + cancelled + dropped |
| Conservation.SubmitConserves | services/matching-engine/src/orderBookCore.rs:96-126 | The same balance for one submission with its whole cascade |
| Conservation.CancelConserves | services/matching-engine/src/orderBookCore.rs:135-158 | What a cancellation takes off the book is the quantity that the status query shows |
| Conservation.ConsumeConserves | services/matching-engine/src/orderBookCore.rs:328-369 | One sweep: what leaves the resting side is what the resting orders were filled for, and the aggressor is filled for what it lost |
| AccountLedger.AccountsTradeWhatTheirOrdersFilled | services/matching-engine/src/orderBookCore.rs:96-126 | Over any run, the quantity of returned trades that name an account as buyer is what its Buy orders were filled for, and that naming it as seller what its Sell orders were |
| AccountLedger.AccountsBalance | services/matching-engine/src/orderBookCore.rs:96-158 | Each account, each side: submitted = traded in its name + resting or armed + cancelled + dropped |
| AccountLedger.EveryTradeTellsItsOrders | services/matching-engine/src/orderBookCore.rs:328-360 | Every returned trade is between two submitted orders of opposite sides: it names the account of the Buy order as buyer and that of the Sell order as seller, at the limit of the resting one, for the filled quantity, flagged with the side of the arriving or fired one |
| AccountLedger.RunsKeepOrdersAsSubmitted | services/matching-engine/src/orderBookCore.rs:96-158 | On every reachable book a resting order shows the account, side and limit submitted under its id, and an armed stop everything it was submitted with |
| PriceLevels.FlattenAddOrder | services/matching-engine/src/orderBookCore.rs:444-473 | Adding to the back of a level's queue, the level created if it is missing, is joining the priority queue of that side |
| PriceLevels.FlattenDrop | services/matching-engine/src/orderBookCore.rs:219-242 | Filtering one level, dropped when it becomes empty, removes the order from the priority queue of that side |
| PriceLevels.FlattenDeterminesLevels | services/matching-engine/src/orderBookCore.rs:22-61 | The priority queue of a side determines its map of levels, so equal views mean equal books |
| Depth.DepthIsExact | services/matching-engine/src/orderBookCore.rs:491-510 | Depth has one line for each price with orders, strictly best first, each with the whole quantity at that price |
| Depth.LevelListIsDepth | services/matching-engine/src/orderBookCore.rs:491-510 | Walking the map level by level gives that depth |
| OrderBook.OrderBookCore.constructor | services/matching-engine/src/orderBookCore.rs:64-73 | A new book is empty, hands out 1 first, and keeps the invariant |
| OrderBook.OrderBookCore.SubmitIncomingOrder | services/matching-engine/src/orderBookCore.rs:96-126 | The maps after the call are exactly those of the specification: intake, then cascade; trades of the order itself come before those of triggered stops; the id returned is the next free one |
| OrderBook.OrderBookCore.MatchAndRecordLastPrice | services/matching-engine/src/orderBookCore.rs:246-258 | Matches by side and records the price of the last trade, if any |
| OrderBook.OrderBookCore.MatchIncomingBuyOrder | services/matching-engine/src/orderBookCore.rs:299-372 | The two nested loops over levels and queues produce exactly the trades, remaining sell side and resting remainder of the one-pass sweep; each trade names the incoming account as buyer and the resting one as seller, at the resting price |
| OrderBook.OrderBookCore.MatchIncomingSellOrder | services/matching-engine/src/orderBookCore.rs:374-442 | The mirror image, from the highest bid down; each trade names the incoming account as seller and the resting one as buyer |
| OrderBook.MatchStep | services/matching-engine/src/orderBookCore.rs:315-352 | One turn of the inner loop moves exactly one fill from what is still to be swept to what has been done |
| OrderBook.OrderBookCore.RestRemainingBuyOrder | services/matching-engine/src/orderBookCore.rs:444-460 | A limit remainder rests under the id it came with, at the back of its price |
| OrderBook.OrderBookCore.RestRemainingSellOrder | services/matching-engine/src/orderBookCore.rs:462-473 | The same on the sell side |
| OrderBook.OrderBookCore.TriggerAnyEligiblePendingStopOrders | services/matching-engine/src/orderBookCore.rs:264-290 | The scan-and-fire loop ends, leaves the book and the trades of the specified cascade, and no armed trigger that the last price touches |
| OrderBook.OrderBookCore.FirstTriggered | services/matching-engine/src/orderBookCore.rs:264-290 | The scan finds the first stop whose trigger the price touches, or none |
| OrderBook.OrderBookCore.CancelOrder | services/matching-engine/src/orderBookCore.rs:135-158 | Removes the order from the buy side, the sell side or the pool, and answers whether it was there |
| OrderBook.OrderBookCore.RemoveFromRestingMap | services/matching-engine/src/orderBookCore.rs:219-242 | Scanning level by level and stopping at the first hit removes exactly the order with the id; without a hit the map is unchanged |
| OrderBook.OrderBookCore.QueryOrderStatus | services/matching-engine/src/orderBookCore.rs:166-200 | Answers side, limit and remaining quantity of a resting order, or trigger and quantity of an armed one |
| OrderBook.OrderBookCore.FindInRestingMap | services/matching-engine/src/orderBookCore.rs:204-217 | The level-by-level search finds what a search of the priority queue finds |
| OrderBook.OrderBookCore.CurrentBookDepthSnapshot | services/matching-engine/src/orderBookCore.rs:491-510 | Buy levels from the lowest price up, flagged as buy, then sell levels from the lowest price up, flagged as sell, line by line |
| WriteAheadLog.ReadAllEventRecords | services/matching-engine/src/writeAheadLog.rs:192-230 | Line splitting, text check and parsing return what the format defines: blank lines skipped, only the very last line may fail to parse, any other failure names its line |
| WriteAheadLog.ReadIntactLog | services/matching-engine/src/writeAheadLog.rs:192-230 | Reading an intact log gives back exactly its records |
| WriteAheadLog.ReadTornLog | services/matching-engine/src/writeAheadLog.rs:192-230 | Reading a log that breaks off inside its last line drops that record, keeps it if only the terminator is missing, and fails exactly when the fragment is not UTF-8 |
| WriteAheadLog.ReadableLinesAreRead | services/matching-engine/src/writeAheadLog.rs:192-230 | Of any lines of which at most the last cannot be read, the reader returns the records, blank lines skipped and an unreadable last line dropped |
| WriteAheadLog.FirstUnreadableLineIsNamed | services/matching-engine/src/writeAheadLog.rs:192-230 | Of any other lines it reports the first that cannot be read, by its number |
| WriteAheadLog.CrLfEndsALine | services/matching-engine/src/writeAheadLog.rs:192-195 | A line may end with carriage return and line feed |
| Replay.ReplayAppend | services/matching-engine/src/writeAheadLog.rs:239-295 | Replaying p followed by q is continuing with q from the book that p gives; trades and ids concatenate |
| Replay.ReplayKeeps | services/matching-engine/src/writeAheadLog.rs:239-295 | Every book on the way of a replay keeps the invariant |
| Replay.ReplayIntoFreshOrderBook | services/matching-engine/src/writeAheadLog.rs:239-295 | The replay loop over a real book gives the specified book and trades; trade records are skipped |
| Replay.ReplayCollectingDepthSnapshotsInWindow | services/matching-engine/src/writeAheadLog.rs:333-405 | The single incremental pass emits one snapshot for each submission or cancellation stamped within the window, both ends included, in log order, stamped like it, with the depth of a from-scratch replay of the records up to it; trade records give none |
| Replay.WindowIsCovered | services/matching-engine/src/writeAheadLog.rs:333-405 | The same for every part of the log: a record gives a snapshot if and only if it is such a command |
| Replay.SnapshotsAreExact | services/matching-engine/src/writeAheadLog.rs:333-405 | Each snapshot is the exact depth of its book, strictly best first on both sides, best bid below best ask |
| Replay.NarrowerWindowIsAFilter | services/matching-engine/src/writeAheadLog.rs:333-405 | A narrower window gives exactly the snapshots of a wider one that fall into it |
| Replay.SnapshotSides | services/matching-engine/src/writeAheadLog.rs:376-400 | Splitting the flagged depth by side and sorting it best first gives the depth of each side |
| CrashSafety.ReplayRederivesTheRun | services/matching-engine/src/writeAheadLog.rs:239-295 | Replaying the log of any run gives the identical full state, hands every order its logged id, and produces exactly the logged trades |
| CrashSafety.RecoveryAfterACrash | services/matching-engine/src/walBackedOrderBook.rs:48-134 | For any intact log, left by a crash-free run or by earlier crashes, and every cut through the bytes of the command in flight: recovery gives the book of that log, with the command in flight applied exactly when its whole first record is in the file; it fails exactly when the cut leaves a fragment that is not UTF-8 |
| CrashSafety.AnyNumberOfCrashes | services/matching-engine/src/walBackedOrderBook.rs:48-134 | After any history of commands, crashes that left no torn tail and recoveries, a further crash at any byte: recovery gives the run of all acknowledged commands and of those in flight at a crash that left a whole record, or fails because the file ends inside a multi-byte character |
| CrashSafety.HistoriesKeepSurvivors | services/matching-engine/src/walBackedOrderBook.rs:48-134 | Whatever crashed on the way, the file stands for the run of the commands that survived |
| CrashSafety.CleanCrashesGoOn | services/matching-engine/src/walBackedOrderBook.rs:48-73 | A crash that leaves no torn tail, between two records of one command for instance, leaves the file of one more such history |
| DurablePipeline.AnsweredCommandsSurvive | services/matching-engine/src/walBackedOrderBook.rs:8-18 | The whole process, started from any intact log, in every interleaving of the two threads and killed at any move and any byte: every answered command is in the recovered book, and beyond those at most the one in flight; or recovery fails because the file ends inside a multi-byte character |
| DurablePipeline.EngineAfter | services/matching-engine/src/main.rs:246-273 | Serving any lines from an intact log leaves an intact log and the book it stands for |
| CrashSafety.ReadAfterACrash | services/matching-engine/src/writeAheadLog.rs:192-230 | What is read after such a crash: the records of the log and a number of whole records of the command in flight, none exactly when its first record is not all there; a file that ends with a terminator is itself the intact log of these records |
| SecondRecovery.SecondRecoveryIsRightIff | services/matching-engine/src/walBackedOrderBook.rs:52-65 | Recovery leaves a torn tail in the file. After records were appended behind it, the file reads back as what memory stands for exactly when there was no tail, or it was dropped and happens to parse, joined with the first record appended, as that record |
| SecondRecovery.OnlyACleanTailReadsBackRight | services/matching-engine/src/walBackedOrderBook.rs:52-65 | For a format in which a part of a line and a whole line never make a line, as with JSON objects, the file reads back right exactly when there was no tail |
| SecondRecovery.ReadBehindTornTail | services/matching-engine/src/writeAheadLog.rs:192-230 | What such a file reads back as in every case: the joined line is skipped, taken for a record, dropped as a torn last line, or reported as corruption with its line number |
| WitnessCodec.AnAsciiCodec | services/matching-engine/src/writeAheadLog.rs:173-181 | A serialisation meets all demands made on it, and is ASCII, so the crash theorems speak of something |
| WitnessCodec.ACodecThatCanFail | services/matching-engine/src/writeAheadLog.rs:173-195 | Another one meets them and closes each line with a two-byte letter: behind every intact log, for every command, some cut makes recovery fail |
| CrashSafety.AsciiLogsAlwaysRecover | services/matching-engine/src/walBackedOrderBook.rs:48-134 | With an ASCII serialisation recovery succeeds at every cut |
| CrashSafety.CutInsideACharacterDefeatsRecovery | services/matching-engine/src/writeAheadLog.rs:192-195 | A cut right behind the first byte of a multi-byte character makes recovery fail although all acknowledged records are intact |
| CrashSafety.ReplayOneCommand | services/matching-engine/src/writeAheadLog.rs:239-295 | Any non-empty part of one command's records redoes the command, once |
| Utf8.AsciiIsUtf8 | services/matching-engine/src/writeAheadLog.rs:192-195 | ASCII text passes the text check of the line reader |
| Utf8.CutAfterLeadByte | services/matching-engine/src/writeAheadLog.rs:192-195 | Text that ends with the first byte of a multi-byte character does not |
| WalBackedBook.WriteAheadLogWriter.AppendEvent | services/matching-engine/src/writeAheadLog.rs:173-181 | Appends one terminated line; if the disk takes less, exactly the part it took is in the file and the call reports failure |
| WalBackedBook.WalBackedOrderBook.SubmitIncomingOrder | services/matching-engine/src/walBackedOrderBook.rs:98-120 | Memory changes first; then the file grows by the command record and one record per trade, or by the part that fitted; success is reported exactly when all of it fitted, and then a book in step with an intact log, however that log came about, stays in step |
| WalBackedBook.WalBackedOrderBook.AppendTradeExecutions | services/matching-engine/src/walBackedOrderBook.rs:98-120 | The trade records are appended in order and stop at the first that does not fit |
| WalBackedBook.WalBackedOrderBook.CancelOrder | services/matching-engine/src/walBackedOrderBook.rs:125-134 | The same for a cancellation, which is logged with its outcome even when nothing was cancelled; success keeps memory and file in step |
| WalBackedBook.WalBackedOrderBook.OpenRecoveringIfPresent | services/matching-engine/src/walBackedOrderBook.rs:48-73 | Startup gives the book that the file stands for, or the read error, and keeps the file as it is for appending |
| WalBackedBook.WalBackedOrderBook.CreateFreshWithNewWalFile | services/matching-engine/src/walBackedOrderBook.rs:78-90 | A fresh book over an empty file |
| WalBackedBook.RecoverCleanLog | services/matching-engine/src/walBackedOrderBook.rs:48-73 | Recovery from any intact log gives its book, in step with the file |
| WalBackedBook.RecoverAfterCrash | services/matching-engine/src/walBackedOrderBook.rs:48-73 | Startup over any intact log and any part of the bytes of the command in flight: the process comes up with everything acknowledged, with or without that command, and refuses to start exactly when the file ends inside a multi-byte character; when no torn tail was left, memory and file are in step again |
| WalBackedBook.LogsAreReplayable | services/matching-engine/src/writeAheadLog.rs:239-295 | Whatever a run of well-formed commands logs meets the demands of the replay |
| WalBackedBook.SubmissionIsLoggedAsIs | services/matching-engine/src/writeAheadLog.rs:118-145 | The log tells the submitted order field by field under its id, then its trades one by one |
| WalBackedBook.CancellationIsLoggedAsIs | services/matching-engine/src/walBackedOrderBook.rs:125-134 | The log tells the id of a cancellation and whether a status query would have found the order |
| ReplayHarness.ExecuteScriptedOperations | services/matching-engine/src/deterministicReplayHarness.rs:50-71 | Runs a script with cancellations resolved by position; ids come out as 1, 2, 3 and memory and file stay in step |
| ReplayHarness.AssertDeterministicReplayMatchesLiveBook | services/matching-engine/src/deterministicReplayHarness.rs:83-107 | For every valid script, the live book and the replay of its log agree in both maps, the stop pool, the last price and the id counter |
| ScriptGenerator.GeneratePseudoRandomOperationSequence | services/matching-engine/src/deterministicReplayHarness.rs:141-205 | The seed and the length determine the script; every one is a script that the harness accepts: as many operations as asked, cancellations only of earlier submissions, a trigger exactly on stops, prices, accounts and quantities from the mix |
| ScriptGenerator.ScriptsExtend | services/matching-engine/src/deterministicReplayHarness.rs:141-205 | A longer script of the same seed starts with the shorter one |
| ScriptGenerator.RandomOperation | services/matching-engine/src/deterministicReplayHarness.rs:151-203 | Each operation is the one that the present draw state determines, and uses up exactly its draws |
| ScriptGenerator.TheMixInTenRolls | services/matching-engine/src/deterministicReplayHarness.rs:171-177 | Of ten rolls, seven give a limit order, two a market order and one a stop, with a limit on the Buy side alone |
| ScriptGenerator.RandomOrder | services/matching-engine/src/deterministicReplayHarness.rs:163-201 | Each generated order is the one that the present draw state determines, well formed and from the mix |
| SpscRing.StepRefinesFifo | services/matching-engine/src/lockFreeSpscRingBuffer.rs:191-299 | Every atomic step of either thread, with wrapped counters and index loads that may be stale, is a step of a bounded first-in-first-out queue; a push is refused or a pop comes back empty only if the queue is full or empty at a load that was up to date |
| SpscRing.SafeAccess | services/matching-engine/src/lockFreeSpscRingBuffer.rs:191-299 | In every reachable state, no live slot is about to be overwritten and no uninitialised slot is about to be read |
| SpscRing.PoppedIsAPrefixOfPushed | services/matching-engine/src/lockFreeSpscRingBuffer.rs:191-299 | In every interleaving the pushed values are the popped ones followed by the queue, which never exceeds the capacity: nothing lost, duplicated or reordered |
| SpscRing.DropAfterRun | services/matching-engine/src/lockFreeSpscRingBuffer.rs:88-115 | After any interleaving that ends with both threads outside a call, the destructor run on the memory they left drops the rest: pushed = popped followed by dropped |
| SpscRing.PoppedOrLeft | services/matching-engine/src/lockFreeSpscRingBuffer.rs:191-299 | At such a moment the values pushed are those popped, then those still in the buffer |
| SpscRing.SoloPushIsFifo | services/matching-engine/src/lockFreeSpscRingBuffer.rs:191-236 | A push run without interruption appends, or gives the value back exactly when the buffer is full |
| SpscRing.SoloPopIsFifo | services/matching-engine/src/lockFreeSpscRingBuffer.rs:260-299 | A pop run without interruption takes the oldest value, or nothing exactly when the buffer is empty |
| SpscRing.SpscRingBuffer.constructor | services/matching-engine/src/lockFreeSpscRingBuffer.rs:154-184 | All slots uninitialised, both counters and both caches zero, nothing buffered |
| SpscRing.SpscRingBuffer.TryPush | services/matching-engine/src/lockFreeSpscRingBuffer.rs:191-236 | The code on the slot array with masks and wrapping counters: the contents grow by the value, or it is returned when the capacity is reached |
| SpscRing.SpscRingBuffer.TryPop | services/matching-engine/src/lockFreeSpscRingBuffer.rs:260-299 | Moves the oldest value out, or returns none when empty |
| SpscRing.SpscRingBuffer.Drop | services/matching-engine/src/lockFreeSpscRingBuffer.rs:88-115 | Drops exactly the values pushed and not popped, each once, in order, and leaves no live slot |
| SpscRing.FullCheck | services/matching-engine/src/lockFreeSpscRingBuffer.rs:191-215 | The wrapped difference of two counters equals the capacity exactly when the buffer is full as last seen |
| SpscRing.EmptyCheck | services/matching-engine/src/lockFreeSpscRingBuffer.rs:260-275 | Two wrapped counters are equal exactly when the buffer is empty as last seen |
| Words.MaskIsRemainder | services/matching-engine/src/lockFreeSpscRingBuffer.rs:154-172 | Masking with a power of two minus one is taking the remainder by that power |
| Words.WrappedDifference | services/matching-engine/src/lockFreeSpscRingBuffer.rs:191-215 | Two counters less than a word apart show their difference when wrapped |
| PipelineOverRings.NetMoveIsATurn | services/matching-engine/src/main.rs:201-235 | One atomic ring access of the network thread, with cached indices and loads that may be behind, is a turn of the pipeline over queues or changes nothing there |
| PipelineOverRings.CoreMoveIsATurn | services/matching-engine/src/main.rs:246-273 | The same for the core thread |
| PipelineOverRings.NoPushIsRefused | services/matching-engine/src/main.rs:201-273 | In every interleaving of single ring accesses, a push whose index load is up to date never finds its ring full, and a pop that takes an answer takes the one to the request waited for |
| PipelineOverRings.OneRequestInFlight | services/matching-engine/src/main.rs:201-235 | In every such interleaving at most one request is between the threads, and the answer about to be written carries the id of the request it is written for |
| PipelineOverRings.RequestIdsCountUp | services/matching-engine/src/main.rs:201-218 | Requests are numbered in accept order, wrapping at the word size, and the one in flight carries the last number |
| PipelineOverRings.AnswersAreSequential | services/matching-engine/src/main.rs:201-273 | The responses written are those of the single-threaded program over the requests in accept order, and so is the core's state whenever no request is in flight |
| RingProgress.EveryActingMoveIsProgress | services/matching-engine/src/main.rs:201-273 | In every interleaving of single ring accesses, outside the accept, exactly one thread can act; a move of it with an up-to-date load brings the request nearer to its answer, by turns left and then by accesses left in the running try, and a move of the other thread takes nothing back |
| RingProgress.PushAccessProgress | services/matching-engine/src/lockFreeSpscRingBuffer.rs:191-236 | An access of a push with an up-to-date load on a ring that has room ends the push or leaves fewer accesses to make |
| RingProgress.PopAccessProgress | services/matching-engine/src/lockFreeSpscRingBuffer.rs:260-299 | The same for a pop on a ring that is not empty |
| Pipeline.AnswersAreSequential | services/matching-engine/src/main.rs:201-273 | The same over queues, to which the ring version is reduced |
| Pipeline.StepKeepsInv | services/matching-engine/src/main.rs:201-273 | Every step keeps the position of the request in flight and the sequential meaning of book and answers |
| QuotePublisher.BestDeltaIsBest | services/market-data/src/l1QuotePublisher.rs:130-137 | The level chosen has the best price of all that carry quantity on its side, the last of equal bids and the first of equal asks; there is none exactly when no level carries quantity |
| QuotePublisher.L1QuotePublisher.ApplyDepthPublish | services/market-data/src/l1QuotePublisher.rs:124-173 | Delivers one update, numbered one above the previous one of its instrument, showing the best level of each side and the new trade price or else the previous one |
| QuotePublisher.L1QuotePublisher.CurrentSnapshotForInstrument | services/market-data/src/l1QuotePublisher.rs:179-187 | The newest update delivered for the instrument, if any |
| QuotePublisher.L1QuotePublisher.CurrentSnapshotsForAllInstruments | services/market-data/src/l1QuotePublisher.rs:193-200 | Every published instrument once, with its newest update, sorted by symbol |
| QuotePublisher.LatestIsNewest | services/market-data/src/l1QuotePublisher.rs:157-167 | The newest update of an instrument carries the number of its updates so far |
| QuotePublisher.TracksSnoc | services/market-data/src/l1QuotePublisher.rs:154-161 | The two maps keep standing for the history of updates |
| QuoteStream.DrainedClientsAreCurrent | services/market-data/src/l1QuoteWebSocketServer.rs:117-185 | For every interleaving of publishing, lagging, resync requests and slow snapshot sending, and any channel capacity: a client whose receiver is drained was told last, for each instrument, the current quote with its current number |
| QuoteResync.ResyncOneIsAnswered | services/market-data/src/l1QuoteWebSocketServer.rs:155-167 | After a request to resync one instrument the client is back in the event loop with exactly one message more, a snapshot of the newest update of that instrument at the moment it was read, or with none if it was never published |
| QuoteResync.ResyncAllIsAnswered | services/market-data/src/l1QuoteWebSocketServer.rs:155-170 | After a request to resync everything, with one snapshot for every published instrument |
| QuoteResync.LagIsAnswered | services/market-data/src/l1QuoteWebSocketServer.rs:138-153 | A client that lagged is sent the same and goes on with the oldest update the broadcast still holds |
| QuoteResync.SubscriptionIsAnswered | services/market-data/src/l1QuoteWebSocketServer.rs:117-125 | A new client is sent the same before its first delta, and its deltas start where it subscribed |
| QuoteResync.BroadcastIsDelivered | services/market-data/src/l1QuoteWebSocketServer.rs:126-137 | A client in the event loop that has not lagged is sent the updates it has not read, in order, one for each time it reads |
| QuoteResync.ResyncOneCanBeAnswered | services/market-data/src/l1QuoteWebSocketServer.rs:198-221 | The connection can always answer by itself, in two or three steps |
| QuoteStream.DeltasLeaveNoGap | services/market-data/src/l1QuoteWebSocketServer.rs:117-185 | No delta goes beyond one more than the number the client saw last for its instrument, lag and resync included |
| QuoteStream.DeltasAreTheBroadcast | services/market-data/src/l1QuoteWebSocketServer.rs:117-155 | A client that never lags, whatever it resyncs, is sent as deltas exactly the updates broadcast since it subscribed, once and in order |
| QuoteStream.ConsecutiveDeltasDifferByOne | services/market-data/src/l1QuoteWebSocketServer.rs:117-155 | Without lag, consecutive deltas of one instrument differ by exactly one |
| QuoteGaps.DeltaFollowsUnlessCovered | services/market-data/src/l1QuoteWebSocketServer.rs:117-185 | The next delta immediately follows the number seen last, unless, and only unless, the last message about the instrument was a snapshot that already holds the update |
| QuoteGaps.AClientSeesAGap | services/market-data/src/l1QuoteWebSocketServer.rs:117-150 | Such a gap does occur: an update broadcast between the subscription and the first snapshot is told in the snapshot and then once more as a delta |
| QuoteStream.StepKeepsStreamInv | services/market-data/src/l1QuoteWebSocketServer.rs:117-245 | Every step keeps: each instrument's newest update has been told last or is still ahead of the cursor, and all numbers up to the cursor have been reached |
| ValueArea.BucketStartIsGrid | services/market-data/src/volumeProfileAggregator.rs:135-137 | A bucket start is the only grid point at most one bucket size below the price, for negative prices too |
| ValueArea.BucketVolumes | services/market-data/src/volumeProfileAggregator.rs:79-83 | The buckets are exactly the touched ones, each with the quantity of its ticks, and together they hold all of it |
| ValueArea.PointOfControl | services/market-data/src/volumeProfileAggregator.rs:91-98 | A bucket of the largest volume, the lowest-priced among equals |
| ValueArea.NextOccupiedBucketOutward | services/market-data/src/volumeProfileAggregator.rs:218-250 | Walking in bucket steps ends, and finds the immediate occupied neighbour or none, however many empty buckets lie between |
| ValueArea.ComputeValueAreaRange | services/market-data/src/volumeProfileAggregator.rs:153-204 | The loop gives the range of the specified growth: one neighbour at a time, the larger first, downward on a tie |
| ValueArea.GrowOnceTakesTheHeavier | services/market-data/src/volumeProfileAggregator.rs:178-201 | Each step takes an adjoining occupied bucket, and the adjoining one on the other side is lighter, or as heavy but above |
| ValueArea.GrowReachesAndIsTight | services/market-data/src/volumeProfileAggregator.rs:153-204 | The range reaches the target or covers everything; if it grew at all, dropping one of its two ends falls below the target |
| ValueArea.Target | services/market-data/src/volumeProfileAggregator.rs:160-160 | The fraction of the total, rounded up over exact reals, zero for a fraction that is not positive, and at most the total for a fraction in [0, 1] |
| ValueArea.ComputeVolumeProfile | services/market-data/src/volumeProfileAggregator.rs:70-123 | No ticks or no positive bucket size gives the empty result; otherwise levels, total, point of control and value area are those of the tape, and for a fraction in [0, 1] the area holds at least that fraction of the total |
| ValueArea.LevelsListBuckets | services/market-data/src/volumeProfileAggregator.rs:108-114 | The levels are the buckets, strictly ascending, each with its volume |
| ValueArea.FallingProfilesGiveTheSmallestArea | services/market-data/src/volumeProfileAggregator.rs:153-204 | If volume does not rise from grid price to grid price on the way out from the point of control, gaps counting as no volume, no narrower price range around it reaches the target |
| ValueArea.SmallestForEveryTargetIff | services/market-data/src/volumeProfileAggregator.rs:153-204 | The area is the narrowest price range around the point of control for every target if and only if each range the growth passes through is a heaviest one of its size: nothing narrower than where a gaining step leads is heavier than where it starts |
| ValueArea.FallingProfilesTakeTheFewestBuckets | services/market-data/src/volumeProfileAggregator.rs:153-204 | If volume does not rise from occupied bucket to occupied bucket, no choice of fewer buckets around the point of control reaches the target |
| ValueArea.TheAreaNeedNotBeTheSmallest | services/market-data/src/volumeProfileAggregator.rs:36-39 | A profile on which the 70% area spans four buckets although three around the point of control reach the target |
| TpoLetters.TpoLetterForOrdinal | services/market-data/src/volumeProfileAggregator.rs:358-369 | The digit loop gives the bijective base-26 name of the ordinal |
| TpoLetters.NameThenOrdinal | services/market-data/src/volumeProfileAggregator.rs:358-369 | No two intervals share a name |
| TpoLetters.OrdinalThenName | services/market-data/src/volumeProfileAggregator.rs:358-369 | Every string of capital letters names one interval |
| TpoLetters.NamesAscend | services/market-data/src/volumeProfileAggregator.rs:358-369 | Later intervals have later names, shorter names first |
| TpoLetters.FirstNames | services/market-data/src/volumeProfileAggregator.rs:354-369 | 0 is A, 25 is Z, 26 is AA, 27 is AB |
| SplitMix.MixIsABijection | services/market-data/src/simulatedExchangeFeedGenerator.rs:212-218 | The output function has an inverse on 64-bit words: each xor-shift and each odd multiplication can be undone |
| SplitMix.DrawsAreDistinct | services/market-data/src/simulatedExchangeFeedGenerator.rs:212-218 | Any 2^64 consecutive draws from any state are pairwise distinct |
| SplitMix.SymbolsStartApart | services/market-data/src/simulatedExchangeFeedGenerator.rs:140-152 | Different symbol positions get different initial states, for every seed |
| SplitMix.SeedsStartApart | services/market-data/src/simulatedExchangeFeedGenerator.rs:140-152 | Different seeds give a symbol different initial states |
| SplitMix.StreamsAreShifts | services/market-data/src/simulatedExchangeFeedGenerator.rs:134-152 | Yet all streams run through one cycle: from any state every other state is reached within 2^64 draws, so two symbols' streams are shifts of each other |
| SplitMix.SymbolsDrawApartIff | services/market-data/src/simulatedExchangeFeedGenerator.rs:134-152 | The first n draws of two symbols have no value in common if and only if n is at most the shift between their streams, and at most 2^64 less that shift |
| SplitMix.ShiftedStreamsDisjointIff | services/market-data/src/simulatedExchangeFeedGenerator.rs:212-218 | The same for any stream and the one a number of draws ahead |
| SplitMix.SplitMix64.NextU64 | services/matching-engine/src/deterministicReplayHarness.rs:121-127 | Advances the state once and returns the mixed state |
| SplitMix.SplitMix64.NextInRange | services/matching-engine/src/deterministicReplayHarness.rs:129-131 | A draw below the bound |
| SplitMix.UndoFold | services/market-data/src/simulatedExchangeFeedGenerator.rs:215-217 | A right xor-shift by at least a third of the word is undone by shifting on |
| SplitMix.UndoMul | services/market-data/src/simulatedExchangeFeedGenerator.rs:215-216 | A wrapping multiplication by an odd constant is undone by its inverse |
| Multicast.DecodeEncode | services/market-data/src/udpMulticastPublisher.rs:121-159 | A message whose symbol has fewer than 65536 bytes is read back, whatever follows it in the datagram |
| Multicast.CutMessagesAreRejected | services/market-data/src/udpMulticastPublisher.rs:204-240 | Every strict prefix of such a message is rejected |
| Multicast.RoundTripIffSymbolFits | services/market-data/src/udpMulticastPublisher.rs:175-179 | A message survives encoding and decoding exactly when its symbol has fewer than 65536 bytes, because the length prefix wraps |
| Multicast.AcceptedMessagesSurvive | services/market-data/src/udpMulticastPublisher.rs:204-240 | Whatever bytes the decoder accepts, the message it yields survives encoding and decoding |
| Multicast.DecodeMessage | services/market-data/src/udpMulticastPublisher.rs:204-240 | The cursor-driven decoder returns what the layout of the message kind defines, for every byte string |
| Multicast.PublishTradeTick | services/market-data/src/udpMulticastPublisher.rs:121-134 | The bytes pushed are the encoding of the tick |
| Multicast.PublishL1Quote | services/market-data/src/udpMulticastPublisher.rs:140-159 | The bytes pushed are the encoding of the quote |
| Multicast.LERoundTrip | services/market-data/src/udpMulticastPublisher.rs:181-187 | Little-endian bytes of a number that fits give the number back |
| Multicast.LEByteAt | services/market-data/src/udpMulticastPublisher.rs:181-187 | Byte k of a number is its digit of weight 256^k |
| Multicast.TwosIsCongruent | services/market-data/src/udpMulticastPublisher.rs:185-187 | A signed number is written as the word congruent to it |
| Multicast.TickBytes | services/market-data/src/udpMulticastPublisher.rs:121-134 | A tick is kind 0, the two-byte length, the symbol, time, price and quantity, in this order |
| Multicast.QuoteBytes | services/market-data/src/udpMulticastPublisher.rs:140-159 | A quote is kind 1, the length, the symbol, the number, bid, bid quantity, ask, ask quantity and last trade, in this order |
| Multicast.OtherKindsAreRejected | services/market-data/src/udpMulticastPublisher.rs:204-240 | Empty input and every other kind byte are rejected |
| Multicast.AnyOtherTagIsPresent | services/market-data/src/udpMulticastPublisher.rs:275-280 | A zero tag says that an optional number is absent, any other that it is present |
| Multicast.FieldRoundTrip | services/market-data/src/udpMulticastPublisher.rs:175-197 | Each field kind is read back with exactly the bytes behind it left over, two's complement and option tags included |
| Multicast.FieldPrefix | services/market-data/src/udpMulticastPublisher.rs:255-292 | No strict prefix of a field is accepted |
| Multicast.ByteCursor.ReadU64 | services/market-data/src/udpMulticastPublisher.rs:267-269 | Reads the next field of the layout, or fails only if the rest of the message cannot be read |
| Multicast.ByteCursor.ReadOptionalI64 | services/market-data/src/udpMulticastPublisher.rs:275-280 | The same for an optional field, any non-zero tag meaning present |
| Multicast.ByteCursor.ReadLengthPrefixedString | services/market-data/src/udpMulticastPublisher.rs:286-291 | The same for a string, rejected when too short or not UTF-8 |
| ColumnarTickStore.ColumnarTickStore.AppendTickWithAggressorSide | services/market-data/src/columnarTickStore.rs:106-128 | The four columns keep holding, row by row, the newest 50000 ticks of each instrument |
| ColumnarTickStore.ColumnarTickStore.RangeQuery | services/market-data/src/columnarTickStore.rs:137-163 | While an instrument's ticks arrive in time order, the two binary searches return what a scan of its retained ticks would |
| ColumnarTickStore.PartitionPoint | services/market-data/src/columnarTickStore.rs:147-152 | On a sorted column, the boundary between the entries below the bound and the others |
| ColumnarTickStore.WindowIsASlice | services/market-data/src/columnarTickStore.rs:147-163 | The ticks of a window stand together, between the two boundaries |
| TickTape.WithinSelects | services/market-data/src/columnarTickStore.rs:130-163 | The ticks of a window are those of the tape stamped from its start to its end, both included, once each and in order |
| TickTape.TicksOfSelects | services/market-data/src/columnarTickStore.rs:137-141 | The ticks of an instrument are those of the tape with its symbol, once each and in order |
| Candles.CandleAggregator.RecordTradeWithAggressorSide | services/market-data/src/candleAggregator.rs:78-135 | The two capped lists keep being the ends of the full tape and of the full candle series |
| Candles.CandlesAreExact | services/market-data/src/candleAggregator.rs:101-135 | For ticks in time order: one candle per minute that traded, ascending, with first, highest, lowest and last price and the total quantity of exactly that minute's ticks |
| TickTape.CandleStartIsGrid | services/market-data/src/candleAggregator.rs:101-101 | The start of a candle is the only multiple of the interval less than one interval before the stamp |
| TickTape.InCandleSelects | services/market-data/src/candleAggregator.rs:101-105 | The ticks of a candle are those stamped from its start on and before the next one |
| Candles.FoldingTheLast | services/market-data/src/candleAggregator.rs:126-132 | Dropping the oldest candle never changes what later ticks do to the kept ones |
| Candles.CandleAggregator.RecentCandlesForInstrument | services/market-data/src/candleAggregator.rs:150-156 | The last candles up to the limit and the cap |
| Candles.CandleAggregator.RecentTradeTicksForInstrument | services/market-data/src/candleAggregator.rs:139-145 | The last ticks up to the limit and the cap |
| Footprint.ComputeOrderFlowFootprint | services/market-data/src/orderFlowFootprintAggregator.rs:56-104 | One footprint per candle that traded, ascending; its levels are the touched buckets, ascending, with exactly the quantity each side aggressed there; its totals are those of its ticks |
| Footprint.FootprintsMatchCandles | services/market-data/src/orderFlowFootprintAggregator.rs:38-46 | For ticks in time order, the batch footprint at 60 seconds and the incremental candles have the same bars, and each candle's volume is bought plus sold |
| Footprint.StoredViewsAgree | services/market-data/src/orderFlowFootprintAggregator.rs:38-46 | The same for what the tick store returns and the aggregator still holds, while nothing has been evicted |
| Footprint.CellsSnoc | services/market-data/src/orderFlowFootprintAggregator.rs:67-81 | One more tick adds its quantity to exactly one side of one cell |
| TickTape.AggressedSelects | services/market-data/src/orderFlowFootprintAggregator.rs:76-80 | The ticks of a side are those it aggressed, once each and in order |
| Watchlist.WatchlistStore.AddSymbol | services/market-data/src/watchlist.rs:113-140 | The set gains the symbol; one change is logged exactly when it was missing; other accounts stay |
| Watchlist.WatchlistStore.RemoveSymbol | services/market-data/src/watchlist.rs:176-203 | The set loses the symbol; one change is logged exactly when it was there; other accounts stay |
| Watchlist.WatchlistStore.LastModifiedForAccount | services/market-data/src/watchlist.rs:286-291 | The stamp of the newest logged change, or 0 |
| Watchlist.WatchlistStore.ChangesForAccountSince | services/market-data/src/watchlist.rs:328-339 | Every logged change later than the stamp, once, oldest first, and nothing else |
| Watchlist.SyncFromAnyMoment | services/market-data/src/watchlist.rs:293-339 | With strictly increasing stamps, applying the changes since the last-modified stamp of any earlier moment to the set of that moment gives the current set |
| Watchlist.DeltaIsCompleteIffLaterStamped | services/market-data/src/watchlist.rs:293-339 | With stamps that never go back, the delta is exactly the later changes if and only if the next change has a later stamp |
| Watchlist.SetSyncsIffTiesCancelOut | services/market-data/src/watchlist.rs:293-339 | With stamps that never go back, a client that stopped at any moment ends up with the current set if and only if the changes that share its stamp, and so are not sent, are even in number for every symbol that the delivered ones do not mention |
| Watchlist.TiedStampsLoseChanges | services/market-data/src/watchlist.rs:17-28 | Two changes in one millisecond: a client that synced between them never gets the second |
| Watchlist.ChangesAlternate | services/market-data/src/watchlist.rs:113-203 | Each symbol's changes alternate, starting with an addition, and it is on the list exactly after an odd number of them |

## Left out

- ValueArea.Target: the product and its rounding are over exact reals, not 64-bit floating point.
- SpscRing.StepRefinesFifo: each index load may be stale, but otherwise memory is sequentially consistent; the reordering rules of the hardware memory model and `unsafe` aliasing are not modelled.
- SpscRing.SpscRingBuffer.TryPush: the class speaks of calls that run one at a time; interleavings are the business of the transition system.
- RingProgress.EveryActingMoveIsProgress: fair scheduling of the two threads, and how long an index load may stay behind, are not modelled, so this is freedom from deadlock and a bound on moves, not a bound on time.
- DurablePipeline.AnsweredCommandsSurvive: appends succeed until the process dies; a failing append is answered with an error and is only covered by the contracts of the two commands.
- QuoteStream.DrainedClientsAreCurrent: a connection that fails or closes simply ends; what a client misses after that is not a question here.
- OrderBook.OrderBookCore.SubmitIncomingOrder: prices, quantities and ids are unbounded integers; overflow of 64-bit quantities and ids is not modelled.
- WalBackedBook.WalBackedOrderBook.SubmitIncomingOrder: after a failed append the book is ahead of its file; nothing is claimed about what is recovered later from such a file.
- ReplayHarness.AssertDeterministicReplayMatchesLiveBook: comparing for equality and panicking with a message becomes a postcondition.
- ColumnarTickStore.ColumnarTickStore.RangeQuery: for ticks out of time order the result of the binary search is not specified.
- JSON text itself, the order wire protocol and its flag conversion.
- Sockets, HTTP, WebSocket and UDP transport, threads as operating-system objects, `fsync` and file handles.
- The Postgres-backed paths of the watchlist and of the other stores.
- The blocking `push` and `pop` of the ring beyond the retry step that the pipeline models.
- The TPO profile except its letters: it buckets by time the way the footprint does.
- The random walk of the simulated feed around its generator: price floor, spread and quantity are one-line facts.
- Instrument symbols of the book, its printing methods and its test-only accessors.
- Price alerts, profit-and-loss arithmetic, the command bar, the depth-of-market ladder, indicators, user interfaces and deployment scripts.
