# Verified trading core

A Dafny model of the trading core of the simulator, with proofs. The order path is modelled from the
bytes of the orders file to the positions in the ledger:

* **Matching engine** (`ObjectPool.dfy`, `BitWord.dfy`, `Occupancy.dfy`, `SideState.dfy`, `BookSide.dfy`,
  `OrderBook.dfy`). The imperative engine: a slab of slots with a free stack, intrusive FIFO lists
  threaded through the slots, 64-bit occupancy words, cached best ticks, one book per symbol. A pointer
  into the slab is the index of its slot. The fields of one side (`bids`, `bid_bits`, `best_bid_tick`)
  are grouped into a class `BookSide`. The number of ticks and the pool capacity are parameters.
* **Reference book** (`Trading.dfy`, `Reference.dfy`, `Crossing.dfy`, `Market.dfy`, `MarketRuns.dfy`,
  `LimitPrices.dfy`). Each side is one sequence sorted by tick and then arrival; an incoming order trades with the front of the
  opposite side and only what is left of it rests. The engine works the other way round (rest first,
  then match the two best orders until they no longer cross); that both give the same executions and
  the same book is the main theorem, `OrderBook.AcceptNewOrder`, for every order, of any quantity.
* **SPSC ring** (`Spsc.dfy`) and **pipeline** (`Pipeline.dfy`). Transition systems whose steps are single
  atomic loads and stores and single buffer accesses, interleaved in any order. Memory is assumed to be
  sequentially consistent; the release/acquire pairs in the code are what justifies that.
* **Position ledger** (`Ledger.dfy`). Doubles are reals, together with one value for NaN and the infinities,
  so that `onExecution` is modelled for every execution.
* **Latency histogram** (`Latency.dfy`) and its concurrent `record` (`LatencyThreads.dfy`), including weak
  compare-exchange that fails for no reason.
* **FIX reader** (`Fix.dfy`) and the simulator's line printer (`FixRoundTrip.dfy`).
* **All together** (`Simulation.dfy`).

`dafny verify dfyconfig.toml` checks the whole project.

Five places where the code does something a reader may not expect. Each has an input that shows it and a
condition that says exactly when it happens:

* `SpscQueue::size` called by the metrics thread counts modulo the capacity. It is right exactly when the
  consumer has not overtaken the tail it loaded; otherwise a ring that never held more than one item can
  read as full (`MonitorSize`, `MonitorSizeOvertaken`).
* `percentile` rounds the rank down. With fewer than `100 / pct` samples the rank is zero and the answer
  is 1 ns whatever was recorded; from that many samples on it is within a factor of two of the true
  order statistic (`PercentileExact`, `MedianOfOneSample`). The bucket table and the percentile comment
  in `latency_tracker.h` (lines 121-126 and 189) are off by one from the code at lines 150-156 and 199;
  the model follows the code.
* The repository's README says that the queues are drained at shutdown. The loop in `src/main.cpp` stops
  without draining, so the final report covers the enqueued executions exactly when the ring happens to
  be empty (`FinalReport`, `ReportMissesExecution`).
* Matching compares ticks, so an order can trade beyond its limit price. It does exactly when, in the book
  it meets, some opposite order is beyond the limit on the limit's own tick and the orders in front of
  that one do not use the order up (`LimitBroken`, `PaysBeyondLimit`). It is then by less than a cent;
  only on tick 0, which also takes prices down to -0.015, can it be up to two (`LimitWithinACent`,
  `PaysBeyondByMore`). With all prices on the grid, as in printed files, it never happens
  (`RunKeepsLimits`, `PrintedOrdersKeepLimits`).
* A missing quantity parses as zero. With quantities of at least zero an execution is for nothing exactly
  when one of its two orders is, and a position stops being a number exactly when such an execution, by
  an incoming BUY, finds the symbol flat (`SweepForNothing`, `FiniteIffNothingBoughtFlat`,
  `MissingQuantity`).

## Model

| member | source | states |
|---|---|---|
| Trading.TickRoundTrip | libs/order-book/include/order_book.h:155-156 | a tick converted to its price and back is the same tick |
| Trading.NearestTick | libs/order-book/include/order_book.h:155 | a price of at least zero lands on the nearest tick, halves upwards |
| Trading.TicksKeepOrder | libs/order-book/include/order_book.h:155 | a lower price never gets a higher tick, negative prices included |
| Trading.NegativePrices | libs/order-book/include/order_book.h:155 | negative prices above -0.015 are on tick 0 and lower ones are off the grid |
| Trading.SymKeyInjective | libs/order-book/include/order_book.h:149-153 | two different 8-byte symbol arrays never share a map key |
| Trading.SymKeyFits | libs/order-book/include/order_book.h:149-153 | the key of a symbol fits the 64-bit number it is copied into |
| Trading.StrNCopyOfText | libs/order-book/src/order_book.cpp:89-91 | an id or symbol without NUL that fits its array arrives unchanged in the execution |
| Trading.StrNCopyCuts | libs/order-book/src/order_book.cpp:89-91 | byte by byte, what is copied of any array: all up to its first NUL, but never its last byte, and then NULs |
| BitWord.SetBit | libs/order-book/include/order_book.h:90-92 | or-ing in `1 << j` sets bit j and leaves the other 63 bits |
| BitWord.ClearBit | libs/order-book/include/order_book.h:91-93 | and-ing with `~(1 << j)` clears bit j and leaves the other 63 bits |
| BitWord.MaskUpTo | libs/order-book/include/order_book.h:98-106 | the mask `(2 << j) - 1` keeps exactly bits 0..j, also at j = 63 where the shift wraps to 0 |
| BitWord.MaskFrom | libs/order-book/include/order_book.h:119-120 | the mask `~((1 << j) - 1)` keeps exactly bits j..63 |
| BitWord.ZeroIffNoBit | libs/order-book/include/order_book.h:107-108 | a word is zero exactly when none of its 64 bits is set, which is what the word loops test |
| Occupancy.HighestBid | libs/order-book/include/order_book.h:103-111 | the word-masked scan returns what a linear downward scan returns, for every bit array and start tick |
| Occupancy.LowestAsk | libs/order-book/include/order_book.h:115-125 | the word-masked scan returns what a linear upward scan returns, including the partly used last word |
| ObjectPools.ObjectPool.constructor | libs/utils/include/object_pool.h:27-30 | all slots start free, each once on the stack |
| ObjectPools.ObjectPool.Alloc | libs/utils/include/object_pool.h:34-37 | hands out a slot that was free and now is not, or null exactly when none is free; the stack still lists exactly the free slots |
| ObjectPools.ObjectPool.Release | libs/utils/include/object_pool.h:41-43 | takes back a slot that was handed out and is on no list; the stack never overruns and never lists a slot twice |
| BookSides.BookSide.constructor | libs/order-book/include/order_book.h:82-87 | a new side has no orders on any level, no bit set and the sentinel as cached tick |
| BookSides.BookSide.Push | libs/order-book/include/order_book.h:33-39 | new slab and level after appending a slot to a FIFO level |
| BookSides.BookSide.PopFront | libs/order-book/include/order_book.h:41-45 | new level after taking the front slot off; the slab is not written |
| BookSides.BookSide.MarkOccupied | libs/order-book/include/order_book.h:90-92 | sets one tick's bit in the word array |
| BookSides.BookSide.MarkEmpty | libs/order-book/include/order_book.h:91-93 | clears one tick's bit in the word array |
| SideState.PushKeepsLists | libs/order-book/include/order_book.h:33-39 | after a push every level is an acyclic list without repeats, ends at `tail`, has length `count`, and lists are disjoint |
| SideState.PopKeepsLists | libs/order-book/include/order_book.h:41-45 | the same after a pop; the popped slot is on no list any more |
| SideState.FrameLists | libs/order-book/src/order_book.cpp:23-35 | a side does not notice writes to slots it does not own: its lists and its priority sequence stay |
| SideState.FlatPush | libs/order-book/src/order_book.cpp:25-33 | appending to the order's level is insertion in price-time priority behind its equals |
| SideState.FlatPop | libs/order-book/src/order_book.cpp:58-60 | popping the best level drops the first order of the priority sequence |
| SideState.FlatReduce | libs/order-book/src/order_book.cpp:55-56 | reducing the best level's front order reduces the first order of the priority sequence and no other |
| BookSides.BookSide.Rest | libs/order-book/src/order_book.cpp:25-33 | lists, bits and cached tick stay in agreement, the priority sequence gets the order inserted, slots of others are untouched |
| BookSides.BookSide.ReduceFront | libs/order-book/src/order_book.cpp:55-56 | the front order of the side loses the traded quantity and nothing else changes |
| BookSides.BookSide.RemoveFront | libs/order-book/src/order_book.cpp:58-79 | the front order leaves the priority sequence, its slot is free again, and bits and cached tick agree with the lists after the rescan |
| BookSides.BookSide.BitsShowTicks | libs/order-book/include/order_book.h:79-93 | bit t is set exactly when an order rests at tick t; bits past the grid are clear |
| Reference.InsertPlace | libs/order-book/src/order_book.cpp:25-33 | the reference inserts at the one place that keeps the side sorted, last among equal ticks |
| Reference.SweepTakesPrefix | libs/order-book/src/order_book.cpp:38-81 | price-time priority: executions are with the front orders, one each, all but the last filled completely, the rest untouched |
| Reference.SweepEnd | libs/order-book/src/order_book.cpp:38-81 | a sweep ends with the order filled, or with its remainder resting and nothing left that crosses it |
| Reference.SubmitKeepsProper | libs/order-book/src/order_book.cpp:25-81 | an uncrossed book sorted by tick then arrival is so again after every order |
| Crossing.CrossWithNewBid | libs/order-book/src/order_book.cpp:35-81 | every trade of the loop has the newly accepted bid as aggressor: the loop equals sweeping the asks with it, prices, sides and arrival times included |
| Crossing.CrossWithNewAsk | libs/order-book/src/order_book.cpp:35-81 | the same for a newly accepted ask |
| Crossing.CrossTurn | libs/order-book/src/order_book.cpp:39-80 | each turn of the loop emits one execution and removes at least one order, so the loop ends |
| OrderBooks.SymbolBook.TradeOnce | libs/order-book/src/order_book.cpp:43-79 | one turn on the real structures is one turn on the priority sequences; other symbols' slots are untouched; free slots plus orders stay constant |
| OrderBooks.SymbolBook.ReduceBoth | libs/order-book/src/order_book.cpp:55-56 | both front orders lose the traded quantity; they are two different slots of this symbol |
| OrderBooks.SymbolBook.RemoveFilled | libs/order-book/src/order_book.cpp:58-79 | exactly the front orders with nothing left leave, and each gives one slot back |
| OrderBooks.SymbolBook.MatchOrders | libs/order-book/src/order_book.cpp:38-81 | the loop ends, keeps lists, bits and cached ticks in agreement at every loop head, and emits and leaves what the sequence loop does; the symbol read through a possibly released slot is still the right one |
| OrderBooks.SymbolBook.Enter | libs/order-book/src/order_book.cpp:25-35 | an order put into an uncrossed book gives the executions and the book of the reference |
| OrderBooks.SymbolBook.Park | libs/order-book/src/order_book.cpp:25-33 | before any matching the order is inserted on its own side and the opposite side is as it was |
| OrderBooks.OrderBook.constructor | libs/order-book/include/order_book.h:164-165 | an engine without books is the empty market |
| OrderBooks.OrderBook.FindBook | libs/order-book/src/order_book.cpp:22-23 | a symbol seen for the first time gets an empty book; the others keep theirs |
| OrderBooks.OrderBook.Place | libs/order-book/src/order_book.cpp:23-35 | the symbol's book becomes the reference's and every other book matches its part of the market still |
| OrderBooks.OrderBook.AcceptNewOrder | libs/order-book/src/order_book.cpp:10-36 | refinement: executions and all books equal the reference market's; by `AcceptTakes` only an off-grid tick or an exhausted pool drops an order, and then nothing changes |
| OrderBooks.OrderBook.Replay | libs/order-book/src/order_book.cpp:10-81 | the same for every stream of orders |
| OrderBooks.OrderBook.SlabPartition | libs/utils/include/object_pool.h:27-43 | in every valid state a slot is free exactly when it is on no list, and on at most one list over all symbols, sides and ticks |
| OrderBooks.OrderBook.IndexesAgree | libs/order-book/include/order_book.h:79-125 | in every valid state the bits are the occupied ticks and the cached ticks are the highest bid and lowest ask, or -1 and the number of ticks |
| OrderBooks.OrderBook.PoolAvailable | libs/order-book/include/order_book.h:142 | available slots plus resting orders is the capacity |
| OrderBooks.OrderBook.BestBid | libs/order-book/src/order_book.cpp:106-113 | the price of the highest bid tick of the symbol, or zero |
| OrderBooks.OrderBook.BestAsk | libs/order-book/src/order_book.cpp:115-122 | the price of the lowest ask tick of the symbol, or zero |
| MarketRuns.SubmitSize | libs/order-book/src/order_book.cpp:38-81 | every execution but perhaps the last removes one resting order and the order rests at most once; so there are at most as many executions as opposite orders |
| MarketRuns.SubmitExecutions | libs/order-book/src/order_book.cpp:83-104 | every execution of an order carries its side, symbol and arrival time and both ids, trades at the passive price between the two limit ticks, and ticks never improve from one to the next |
| MarketRuns.SweepFills | libs/order-book/src/order_book.cpp:50-79 | with positive quantities the filled total is the smaller of the order's quantity and the whole crossing depth, in trades of positive size |
| MarketRuns.TradesWith | libs/order-book/src/order_book.cpp:38-81 | for quantities of any sign, a resting order is traded with exactly when it crosses and no part of the queue in front of it uses the incoming order up |
| MarketRuns.SweepExact | libs/order-book/src/order_book.cpp:50-79 | for quantities of any sign, the quantity of every execution and both sides of the book afterwards, from the quantities in front: who rests with how much, and who is gone |
| MarketRuns.PositiveReaches | libs/order-book/src/order_book.cpp:50-79 | with positive quantities that is when the orders in front are together for less than the incoming order |
| MarketRuns.SweepForNothing | libs/order-book/src/order_book.cpp:50-79 | with quantities of at least zero, trades and what they leave are at least zero, and a trade is for zero exactly when one of its two orders is |
| MarketRuns.RunKeepsNonNegative | libs/order-book/src/order_book.cpp:10-81 | over every run, orders of at least zero cause and leave only quantities of at least zero |
| MarketRuns.RunKeepsOrderly | libs/order-book/src/order_book.cpp:10-81 | after every run all books are sorted and uncrossed and never hold more orders than there are slots |
| MarketRuns.AcceptTakes | libs/order-book/src/order_book.cpp:10-35 | an order with a tick from 0 up to the number of ticks is taken whenever a slot is free: its side gains what it brings less what it trades, the opposite side loses what is traded, and a symbol's first order rests as it is; in every other case nothing changes |
| MarketRuns.RunKeepsBounds | libs/order-book/src/order_book.cpp:10-18 | the grid and the number of slots stay the same over every run |
| MarketRuns.RunKeepsOtherSymbols | libs/order-book/src/order_book.cpp:22-35 | a run without orders of a symbol leaves that symbol's book as it was |
| MarketRuns.RunConserves | libs/order-book/src/order_book.cpp:50-79 | over every run, per symbol, side and any selection of order ids: quantity of the orders that came with a tick on the grid while a slot was free = quantity resting + quantity executed |
| MarketRuns.BoughtIsSold | libs/order-book/src/order_book.cpp:50-79 | over every run total bought equals total sold per symbol |
| MarketRuns.RunKeepsPositive | libs/order-book/src/order_book.cpp:50-79 | positive orders cause only positive executions and leave only positive resting quantities |
| MarketRuns.SymbolExecsAreSelected | libs/order-book/src/order_book.cpp:35-53 | for text symbols, the executions naming a symbol are exactly those its own orders caused |
| LimitPrices.SharedTick | libs/order-book/src/order_book.cpp:40-41 | a resting price beyond an order's limit passes the crossing test exactly when the two prices share a tick |
| LimitPrices.LimitBroken | libs/order-book/src/order_book.cpp:38-104 | an order has an execution beyond its limit exactly when an opposite order is beyond it on its own tick and the queue in front does not use the order up; for quantities of any sign |
| LimitPrices.LimitBrokenPositive | libs/order-book/src/order_book.cpp:38-104 | with positive quantities, the same in terms of the total quantity in front |
| LimitPrices.TickWidth | libs/order-book/include/order_book.h:155 | prices on one tick are less than a cent apart, except on tick 0, which truncation towards zero makes up to two cents wide |
| LimitPrices.LimitWithinACent | libs/order-book/src/order_book.cpp:38-104 | a trade beyond the limit is at the limit's own tick and less than a cent beyond it, or less than two cents when that is tick 0 and a price is negative |
| LimitPrices.PaysBeyondLimit | libs/order-book/src/order_book.cpp:38-104 | a BUY limited to 0.996 pays 1.004 |
| LimitPrices.PaysBeyondByMore | libs/order-book/src/order_book.cpp:38-104 | a BUY limited to -0.014 pays 0.004, both on tick 0 |
| LimitPrices.GridKeepsLimit | libs/order-book/src/order_book.cpp:38-104 | with the order and the opposite side on the price grid no trade is beyond the limit |
| LimitPrices.RunKeepsLimits | libs/order-book/src/order_book.cpp:10-104 | in every run of orders with prices on the grid every order's limit is kept |
| Spsc.StepKeepsGood | libs/utils/include/spsc_queue.h:59-99 | every atomic step of producer, consumer and monitor keeps the ring invariant |
| Spsc.Fifo | libs/utils/include/spsc_queue.h:59-91 | in every interleaving: pushed = popped followed by the ring contents; at most capacity - 1 items |
| Spsc.RecordsOfCalls | libs/utils/include/spsc_queue.h:59-91 | what counts as pushed are the arguments of the pushes that succeeded, in order, and as many items count as popped as pops succeeded |
| Spsc.PushAlone | libs/utils/include/spsc_queue.h:59-74 | a whole push left alone fails and changes nothing at capacity - 1 items, and otherwise adds its item at the end |
| Spsc.PopAlone | libs/utils/include/spsc_queue.h:78-91 | a whole pop left alone fails and changes nothing on an empty ring, and otherwise takes the first item |
| Spsc.NoClash | libs/utils/include/spsc_queue.h:60-89 | the producer never writes a slot that holds an unread item or that the consumer is about to read |
| Spsc.AccessInBounds | libs/utils/include/spsc_queue.h:68-86 | both buffer accesses are always inside the buffer |
| Spsc.Starts | libs/utils/include/spsc_queue.h:49-53 | a ring of any positive capacity can be started |
| Spsc.NeverWaits | libs/utils/include/spsc_queue.h:59-99 | at every moment of every interleaving each thread can begin any call or take the next step of the one it is in |
| Spsc.FailedCalls | libs/utils/include/spsc_queue.h:65-84 | a push fails exactly when its check saw capacity - 1 items, a pop exactly when its check saw none |
| Spsc.SizeIsSafe | libs/utils/include/spsc_queue.h:95-99 | `size` is below the capacity for any caller; for the consumer it never exceeds the items it can pop |
| Spsc.ConsumerSize | libs/utils/include/spsc_queue.h:95-99 | in every interleaving the consumer's `size` is exactly the number of items in the ring when the call loaded the tail |
| Spsc.SizeIsKept | libs/utils/include/spsc_queue.h:76-99 | in every interleaving, after the consumer's `size` returned n, no pop finds the ring empty until n more have succeeded |
| Spsc.MonitorSeen | libs/utils/include/spsc_queue.h:95-96 | the number the monitor's answer is measured by is how many items had been pushed when it loaded the tail |
| Spsc.MonitorSize | libs/utils/include/spsc_queue.h:93-99 | for a third thread `size` is right modulo the capacity, and right exactly when the consumer has not overtaken the loaded tail |
| Spsc.MonitorSizeOvertaken | libs/utils/include/spsc_queue.h:93-99 | a run in which an empty ring that never held more than one item reads as full |
| Pipeline.Accounting | src/main.cpp:79-82 | in every interleaving each generated execution is applied, in hand, in the ring, dropped or inside its push, once |
| Pipeline.RunOfRing | src/main.cpp:79-82 | the pipeline's ring is that of a run of the ring alone; what is recorded is what was emitted, how often a drop was counted and how often the ledger was updated |
| Pipeline.DropsWhenFull | src/main.cpp:80-81 | an execution is dropped exactly when its push finds capacity - 1 items in the ring |
| Pipeline.NeverBlocked | src/main.cpp:79-181 | at every moment of every interleaving both threads can take their next step, and any execution can be emitted |
| Pipeline.PositionsFollowOrder | src/main.cpp:175-181 | in every interleaving positions are the ledger of a prefix, in order, of the executions that got into the ring |
| Pipeline.LedgerStaysFinite | src/main.cpp:175-181 | in every interleaving, if only positive quantities were generated, every position is a number |
| Pipeline.FinalReport | src/main.cpp:159-245 | with idle threads the report covers all enqueued executions exactly when the ring is empty, and all generated ones exactly when also none was dropped |
| Pipeline.ReportMissesExecution | src/main.cpp:159-245 | a run in which the drain loop ends with a failed pop, an execution is pushed after it, and both threads end idle with nothing dropped and no position showing it |
| Ledger.ApplyConserves | libs/position_manager/src/position_manager.cpp:14-67 | one fill without division by zero, any branch, any sign: quantity moves by the signed fill, and realised minus carried cost falls by the cash paid |
| Ledger.MirrorRun | libs/position_manager/src/position_manager.cpp:14-67 | long and short obey the same rules: a run of positive quantities with every side swapped ends with opposite quantity and realised profit and, while open, the same average |
| Ledger.StaleAverage | libs/position_manager/src/position_manager.cpp:15-58 | from a flat position with any finite average, the whole position after the next fill, of any quantity |
| Ledger.StaleAverageIsHarmless | libs/position_manager/src/position_manager.cpp:14-67 | a finite average left standing on a flat position never influences a later one, over every run of fills of any quantities |
| Ledger.RunConserves | libs/position_manager/src/position_manager.cpp:14-67 | over every run without division by zero, of any quantities, quantity = buys - sells and realised = quantity * average - net cash paid |
| Ledger.GrowthRealisesNothing | libs/position_manager/src/position_manager.cpp:28-36 | a fill in the direction of the position, of any quantity, leaves the realised profit |
| Ledger.GrowingRun | libs/position_manager/src/position_manager.cpp:28-66 | while a position only grows, over any run from any finite position, nothing is realised and size times average grows by what the fills cost |
| Ledger.LegAverage | libs/position_manager/src/position_manager.cpp:28-66 | in every run a leg opened from flat that only grows has the volume-weighted average of its own fills and realises nothing |
| Ledger.ReductionKeepsAverage | libs/position_manager/src/position_manager.cpp:15-54 | a fill against the position that does not use it up leaves the average |
| Ledger.ShrinkingRun | libs/position_manager/src/position_manager.cpp:15-54 | while a position only shrinks, over any run, the average stays and the profit realised is worth of the fills minus cost at the average |
| Ledger.CloseOrFlip | libs/position_manager/src/position_manager.cpp:15-49 | a fill for all of the position or more realises all of it, and what is left over is a new position at the fill's price; what becomes of a closed position's average |
| Ledger.NonFiniteSpreads | libs/position_manager/src/position_manager.cpp:14-67 | exactly when a value that is no number reaches the realised profit, and exactly when the average becomes a number again |
| Ledger.ProfitStaysLost | libs/position_manager/src/position_manager.cpp:14-67 | realised profit that is no number stays so over every run |
| Ledger.ReportBalances | libs/risk_engine/src/risk_engine.cpp:20-25 | realised plus reported unrealised profit = mark * quantity - net cash paid, for any mark; without a mark nothing is unrealised |
| Ledger.RunQuantity | libs/position_manager/src/position_manager.cpp:14-67 | over every run, finite or not, quantity is buys minus sells |
| Ledger.ApplyFinite | libs/position_manager/src/position_manager.cpp:14-67 | from finite values, one fill gives finite values exactly when it does not divide by a new position size of zero |
| Ledger.FiniteIffDefined | libs/position_manager/src/position_manager.cpp:30-33 | a run stays finite after every fill exactly when no fill of it divides by zero |
| Ledger.NonNegativeDefined | libs/position_manager/src/position_manager.cpp:28-66 | with quantities of at least zero, a run divides by zero exactly when a BUY of nothing meets a flat position |
| Ledger.BuyOfNothing | libs/position_manager/src/position_manager.cpp:30-36 | such a fill as the first one leaves an average entry price that is no number |
| Ledger.AverageWithinLeg | libs/position_manager/src/position_manager.cpp:15-66 | the average of an open position lies between the lowest and highest price of the fills that opened or increased the current leg |
| Ledger.PositionManager.constructor | libs/position_manager/include/position_manager.h:52-53 | a new manager is the ledger of no executions |
| Ledger.PositionManager.OnExecution | libs/position_manager/src/position_manager.cpp:6-68 | for every execution, also one that divides by zero: the entries are the ledger of all executions received, this one last |
| Ledger.PositionManager.GetPosition | libs/position_manager/src/position_manager.cpp:70-72 | throws exactly for symbols without an execution; otherwise gives the fold of all fills of the symbol |
| Ledger.PositionManager.Laws | libs/position_manager/src/position_manager.cpp:6-68 | at every moment, of every entry whose fills did not divide by zero: its quantity and the conservation law, in the quantities and prices of the symbol's executions, and with positive quantities also the bounds of the average |
| Ledger.BookBySymbol | libs/position_manager/src/position_manager.cpp:8-12 | symbols are independent: each position is the fold of its own fills |
| Ledger.NetOfExecutions | libs/position_manager/src/position_manager.cpp:8-21 | a symbol's position, a number or not, has the quantity bought minus sold in its executions |
| Ledger.CashOfExecutions | libs/position_manager/src/position_manager.cpp:14-66 | a symbol's fills cost what its executions cost, quantity times trade price |
| Latency.BucketRange | libs/utils/include/latency_tracker.h:150-156 | bucket b holds exactly the samples from 2^b up to 2^(b+1), and no sample is above bucket 62 |
| Latency.LatencyTracker.constructor | libs/utils/include/latency_tracker.h:159 | a new tracker is that of no samples |
| Latency.LatencyTracker.Record | libs/utils/include/latency_tracker.h:161-179 | a positive argument is added to the samples, zero as one, a negative one not at all; buckets, count, sum, maximum and minimum stay the statistics of the samples |
| Latency.LatencyTracker.Reset | libs/utils/include/latency_tracker.h:181-187 | the tracker is that of no samples |
| Latency.LatencyTracker.Percentile | libs/utils/include/latency_tracker.h:191-202 | the bucket walk returns the lower bound of the first bucket at which the number of samples below its upper bound reaches the rank |
| Latency.LatencyTracker.Count | libs/utils/include/latency_tracker.h:204 | the number of samples recorded since the last reset |
| Latency.LatencyTracker.Max | libs/utils/include/latency_tracker.h:205 | the largest sample, or zero |
| Latency.LatencyTracker.Min | libs/utils/include/latency_tracker.h:206-209 | the smallest sample, or zero; a lone INT64_MAX also reads as zero |
| Latency.RankRoundsDown | libs/utils/include/latency_tracker.h:194 | the rank is the one k with 100 * k <= total * pct < 100 * (k + 1) |
| Latency.PercentileBounds | libs/utils/include/latency_tracker.h:191-202 | percentile <= k-th smallest sample < 2 * percentile, for every k of at least one with 100 * k <= total * pct < 100 * (k + 1) |
| Latency.PercentileBeyond | libs/utils/include/latency_tracker.h:193-201 | zero without samples, and the maximum for a rank above their number, which only more than 100 percent has |
| Latency.RankedSample | libs/utils/include/latency_tracker.h:194 | up to 100 percent a sample of that rank exists |
| Latency.RankZeroAnswersOne | libs/utils/include/latency_tracker.h:194-199 | the rank is zero exactly when total * pct < 100, and then the answer is one |
| Latency.PercentileExact | libs/utils/include/latency_tracker.h:191-202 | the factor-of-two bounds hold of the ranked sample exactly when total * pct >= 100 or that sample is one |
| Latency.MedianOfOneSample | libs/utils/include/latency_tracker.h:191-202 | the median of a single sample of 1000 ns is answered as 1 ns |
| Latency.PercentileAtMostMax | libs/utils/include/latency_tracker.h:191-202 | up to 100 percent the answer is positive and at most the maximum |
| Latency.PercentileMonotone | libs/utils/include/latency_tracker.h:191-202 | a larger percentage never gives a smaller answer |
| Latency.BucketsSumToCount | libs/utils/include/latency_tracker.h:166-167 | the buckets add up to the count |
| LatencyThreads.AllDoneSummarises | libs/utils/include/latency_tracker.h:161-179 | in every interleaving of any number of calls, once all are done the counters are those of the arguments the calls began with, negative ones dropped and zero read as one |
| LatencyThreads.ExtremesAreMonotone | libs/utils/include/latency_tracker.h:170-178 | in every interleaving, between any two moments, the maximum does not fall and the minimum does not rise |
| LatencyThreads.NeverStuck | libs/utils/include/latency_tracker.h:161-179 | any argument can be recorded at any time, and an unfinished call can always take its next step |
| LatencyThreads.FinishesAlone | libs/utils/include/latency_tracker.h:170-178 | from any moment of any interleaving a call left alone is done after at most seven steps |
| Fix.ParseFixLine | libs/fix_session/src/fix_session_reader.cpp:22-78 | on any bytes the cursor loop ends, reads only inside the line, and applies the line's fields in order |
| Fix.ApplyField | libs/fix_session/src/fix_session_reader.cpp:44-74 | the tag dispatch and its digit loop set the one field of a known tag and nothing for others |
| Fix.LoopFitsIff | libs/fix_session/src/fix_session_reader.cpp:69-72 | on a text of digits no product and no sum of the 32-bit loop overflows exactly when the number is at most 2^31 - 1 |
| Fix.ParseJoin | libs/fix_session/src/fix_session_reader.cpp:31-76 | a joined list of fields parses to exactly these fields |
| Fix.ParsedFields | libs/fix_session/src/fix_session_reader.cpp:44-74 | what each field of the order is, with truncation and the defaults of missing tags; the quantity as the number written |
| Fix.LastFieldCounts | libs/fix_session/src/fix_session_reader.cpp:44-74 | with repeated, unknown or odd tags, what each field of the order is: of each known tag the last one counts |
| Fix.ParseAnything | libs/fix_session/src/fix_session_reader.cpp:22-78 | any bytes are a list of fields and perhaps a rest without '='; the rest is ignored and the last field of each known tag counts |
| Fix.ParseIgnoresOrderAndUnknown | libs/fix_session/src/fix_session_reader.cpp:31-76 | any permutation of distinct fields and any insertion of unknown tags parses to the same order |
| FixRoundTrip.ReadFile | libs/fix_session/include/fix_session_reader.h:96-114 | the line loop hands over the orders of the non-empty lines, in order |
| FixRoundTrip.ReadAnything | libs/fix_session/include/fix_session_reader.h:100-114 | any file is lines between newlines; the order of each that is not empty is handed over, also of a last one without a newline |
| FixRoundTrip.DigitsOfByte | libs/fix_session/src/fix_session_reader.cpp:69-72 | the digit loop counts any single byte by its distance from '0' |
| FixRoundTrip.DigitsConcat | libs/fix_session/src/fix_session_reader.cpp:69-72 | the loop over two texts in a row is the first times ten for each byte of the second, plus the second |
| FixRoundTrip.AtofPoint | libs/fix_session/src/fix_session_reader.cpp:62-66 | digits, a point and any number of digits, perhaps none, read as one number divided by ten for each digit after the point; what follows is ignored |
| FixRoundTrip.AtofWhole | libs/fix_session/src/fix_session_reader.cpp:62-66 | digits without a point read as their number |
| FixRoundTrip.AtofSigned | libs/fix_session/src/fix_session_reader.cpp:62-66 | a plus sign is ignored and a minus sign negates |
| FixRoundTrip.AtofNothing | libs/fix_session/src/fix_session_reader.cpp:62-66 | a text that begins with anything else is zero |
| FixRoundTrip.AtofPrice | tools/fix_order_simulator.cpp:74 | cents printed with two decimals read back as the same amount |
| FixRoundTrip.PrintedQuantityFits | tools/fix_order_simulator.cpp:75 | no turn of the digit loop over a printed quantity leaves the 32-bit range |
| FixRoundTrip.ParsePrinted | tools/fix_order_simulator.cpp:70-75 | a printed line parses back to its order, without overflow at any digit |
| FixRoundTrip.RoundTrip | tools/fix_order_simulator.cpp:58-76 | any list of printable orders with 32-bit quantities, printed and read back, is the same list apart from arrival times, without overflow at any digit |
| FixRoundTrip.ParsedTick | libs/order-book/include/order_book.h:155 | the tick of a parsed price is the cents printed |
| Simulation.RunFile | src/main.cpp:77-91 | the execution thread emits what the reference market gives for the orders in the file |
| Simulation.EndToEnd | src/main.cpp:77-181 | printed orders of positive quantity, read, matched, pushed and drained without drops, leave the ledger of exactly the reference executions, with its conservation law |
| Simulation.PrintedOrdersKeepLimits | tools/fix_order_simulator.cpp:70-75 | no order of a printed file, read back and matched, trades beyond its limit |
| Simulation.FiniteIffNothingBoughtFlat | src/main.cpp:77-181 | with orders of at least zero, a symbol's position is a number after every execution exactly when no incoming BUY executed for nothing finds it flat |
| Simulation.MissingQuantity | src/main.cpp:77-181 | a BUY line without tag 38 that crosses a resting SELL in an otherwise empty market is executed for nothing and leaves a position that is no number |

## Left out

- OrderBooks.OrderBook.AcceptNewOrder: quantities are unbounded integers; in the matching engine 32-bit wrap-around could only matter for orders of negative quantity, which the source does not reject.
- Fix.ParseFixLine: the quantity is the number the digit loop computes without a bound; for texts that leave the 32-bit range on the way (`LoopFits` is false) the source overflows, which C++ leaves undefined, and nothing is promised about it.
- Fix.ParsedFields: the same; its quantity is that of the source when `LoopFits` holds of the text of tag 38.
- Fix.ApplyField: the same for the digit loop. `atof` is modelled for sign, digits and decimal point; leading blanks, exponents, hexadecimal, infinities and NaN are not. Bytes above 127 in a quantity count as unsigned characters.
- Trading.TicksKeepOrder: doubles are reals; rounding and the undefined conversion of prices beyond the 32-bit range are not modelled.
- Ledger.PositionManager.OnExecution: rounding is not modelled, and NaN and the infinities are one value.
- Latency.LatencyTracker.Record: counters are unbounded; wrap-around of the 64-bit sum is not modelled.
- FixRoundTrip.ReadFile: the `running_` flag, by which another thread may end the loop early, and opening and mapping the file.
- Spsc.StepKeepsGood: sequentially consistent steps; C++ weak-memory behaviour is assumed away.
- Clocks: order arrival times are inputs; `Execution::arrival_ns` and the match latency computed from it are not part of the model.
- `__builtin_prefetch`: has no effect on results.
- Re-entrant execution callbacks: the callback is assumed not to call back into the book.
- `LatencyTracker::reset` running concurrently with `record`: the source promises nothing there.
- `mean`, `fmt_ns`, `report`, the risk report's text: they format values that are modelled.
- UDP receiver and market dispatcher: they deliver ticks, which only set the mark of the risk report; the report law holds for any mark.
- Instrument store, volatility surface, value at risk: look-up tables and one formula over them that no order, execution or position depends on.
- Metrics server, MPMC queue, CPU pinning: the server reads counters whose values are modelled, the queue wraps a library that is not part of the repository, and pinning does not change results.
