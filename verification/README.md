# Order book verification

A Dafny model of a limit order book: its matching engine, the naive reference book that
defines what the engine should do, and the data structures below the engine. The engine
matches by price and then time under three self-trade policies. It keeps four structures in
step by hand: two price ladders (a flat array window with a sorted map for the prices outside
it), first-in-first-out queues threaded by slot index through one shared pool, an open-addressed index
from order id to slot and side, and a ring of trades.

`dafny verify dfyconfig.toml` checks everything.

## What is proved

- **Refinement.** For every sequence of operations, policy, window size, base price and
  provisioned size, the engine returns the same reports, prints the same trades and shows the
  same queues as the reference book (`Harness.RunEngine`, `Harness.RunReference`, and one
  operation at a time `Engine.OrderBook.Submit`, `Cancel`, `Modify`). So window shape and pool
  growth cannot be observed. The only differences are the two the source has: trades the ring
  had no room for, and the `length_error` when more than 2^31 orders would rest.
- **The market itself.** In every reachable state the book is uncrossed, ids are unique, and
  the k-th trade has number k. In every run, each trade is with the order that is first by price
  and arrival of all those resting on the far side at that moment, and what rests then is fixed
  by the trades printed before (`Priority.RunJustified`, `Priority.MatchJustified`). Nothing
  trades through, and quantity is conserved over any run.
- **Each answer, in closed form.** Without reference to the steps of matching: what each resting
  order trades and keeps (what is left of the taker after the quantity ahead of it), every field
  of every trade, the book left behind, and when a taker is halted (`Allocation.SubmitAllocates`,
  `SubmitTrades`, `SubmitBook`, `SubmitHalts`). And in raw fields: when an operation is accepted,
  what rests, the price limit both ways, which owners are kept apart (`Answers`).
- **The structures.** The index refines a finite map through wraparound, backward-shift
  deletion and growth, and its layout never degrades. A ladder refines a sorted map. The free
  list and the queues partition the slots used. The ring is a bounded queue across the wrap of
  its cursors. Arena blocks never overlap. Shrinking gives a 1-minimal failing subsequence.

## How it is laid out

- `types`, `market`: orders, trades, reports, and the meaning of each operation as a function
  on a flat list of resting orders.
- `market_properties`, `conservation`, `priority`, `snapshot`, `queues`: theorems about that
  meaning.
- `allocation`, `answers`: what each operation does and answers, stated in the fields of orders,
  trades and reports alone.
- `reference_book`: the repository's naive book, as loops over a list, proved to do what
  `market` says.
- `slot_pool`, `links`, `price_ladder`, `bits`, `trade_ring`, `probing`, `id_index`, `layout`:
  the structures.
- `book_state`, `book_steps`, `book_order`: what the structures stand for together, and what
  each step does to it.
- `order_book`: the engine. A ghost field holds the reference book's state; `Valid` ties
  the real structures to it, and `Core` is the weaker condition that holds between the steps
  of one operation, while a level is open and empty.
- `diff_harness`: whole runs of both books, their comparison, and the delta debugger.
- `node_arena`: the block allocator.

The bid and the ask ladder are one class with a side.

## Findings

- The harness drains the engine's ring only once, after the last operation, while the reference
  book keeps every trade (tests/diff_harness.cpp:46-47, 78). `Harness.Diverges` states the exact
  condition: the two disagree if and only if the run prints more trades than the ring holds.
  `Harness.SmallRingDiverges` gives a run on which they do, under every policy: two sellers at
  one price and a market buy for both, with a ring for one trade. The harness's default ring
  holds 65536 (tests/diff_harness.hpp:200-202).

## Model

| member | source | states |
|---|---|---|
| Market.NextMaker | tests/reference_book.hpp:140-154 | the order found comes before every other order of its side in price, then arrival; none is found only if that side is empty |
| Market.Find | tests/reference_book.hpp:122-126 | the first order with the id, and none exactly when no order has it |
| MarketProperties.StepKeeps | tests/reference_book.hpp:166-210 | one step of matching keeps the book well formed, only shrinks what rests, and only adds to the log |
| MarketProperties.MatchKeeps | src/order_book.cpp:139-201 | matching keeps ids unique, the book uncrossed, arrivals in order and trades numbered; every order left was there, with no more quantity |
| MarketProperties.MatchStops | src/order_book.cpp:151-200 | matching ends, and in a well-formed book only with the taker exhausted or halted, or with every far order left priced above a buy's limit or below a sell's; without a limit, with none left |
| MarketProperties.LeftoverDoesNotCross | src/order_book.cpp:262-269 | a taker with something left has a limit or faces no far order, and every far order left is priced above a buy's limit or below a sell's |
| MarketProperties.RestKeeps | tests/reference_book.hpp:212-217 | resting the leftover keeps the book well formed, uncrossed in particular |
| MarketProperties.SubmitKeeps | src/order_book.cpp:245-272 | submitting any order to a well-formed book gives a well-formed book |
| MarketProperties.CancelKeeps | tests/reference_book.hpp:61-69 | so does cancelling, and the id is then no longer live |
| MarketProperties.ApplyKeeps | tests/reference_book.hpp:52-84 | so does every operation, modify included |
| MarketProperties.RunKeeps | src/order_book.cpp:388-390 | every reachable state under every policy is well formed: best bid below best ask, ids unique, the k-th trade numbered k |
| Conservation.MatchConserves | src/order_book.cpp:178-195 | the far side loses exactly what was filled plus what self-trade prevention cancelled; filled plus remaining is the quantity |
| Conservation.SubmitConserves | src/order_book.cpp:245-272 | for an accepted order filled plus remaining is its quantity, and both sides' volumes and the traded volume change by what the report says |
| Conservation.RunConserves | src/order_book.cpp:245-317 | over any run: accepted = resting + 2 * traded + cancelled + cancelled by self-trade prevention + dropped |
| Conservation.MatchCounts | src/order_book.cpp:184-190 | the trade counter, the sequence counter and the log advance together, by no more than what was filled |
| Conservation.ReportNamesItsFills | include/lob/order_book.hpp:289-301 | the log grows by exactly trade_count trades, all this taker's, numbered from first_seq, which is 0 if there are none |
| Conservation.CountersFit | src/order_book.cpp:172-190 | trade_count <= filled <= quantity < 2^32; level totals and stp_cancelled stay below 2^63 while at most 2^31 orders rest |
| Priority.ReachedKeeps | src/order_book.cpp:151-200 | every state a match passes through is well formed, holds only orders that rested before it, and has the same outcome ahead of it |
| Priority.ReachedAccounts | src/order_book.cpp:162-195 | in every such state each order has given up exactly what the trades so far took from it, or was cancelled whole by self-trade prevention |
| Priority.MatchJustified | src/order_book.cpp:139-201 | for each trade there is a state the match passes through whose log is exactly the trades before it; in that state the maker is first by price and arrival of all orders resting on the far side, crosses, is no forbidden self-trade, and trades at its price all that both have; and what rests in that state is fixed by the trades before |
| Priority.SubmitJustified | tests/reference_book.hpp:140-218 | the same for each trade of a submission |
| Priority.RunJustified | src/order_book.cpp:139-201 | the same for each trade of the log of any run under any policy, with the operation that prints it |
| Priority.MatchInOrder | src/order_book.cpp:151-160 | the makers of a match's trades come in strict order of price and arrival |
| Priority.SubmitInOrder | tests/reference_book.hpp:166-210 | and so do those of a submission's trades |
| Priority.NoneLeftAhead | src/order_book.cpp:151-200 | no order with priority over a maker that traded is left after the match |
| Priority.SubmitLeavesNoneAhead | tests/reference_book.hpp:156-218 | nor after the submission: nothing trades through what is left |
| Priority.MatchAccounts | src/order_book.cpp:162-195 | matching takes from a resting order exactly what it trades, except that CancelResting takes a same-owner order whole and without a trade |
| Priority.SubmitAccounts | src/order_book.cpp:245-272 | the same for a submission: CancelIncoming and Allow remove resting quantity only by filling it |
| Allocation.SubmitAllocates | src/order_book.cpp:139-201 | each order resting before trades exactly the quantity left of the taker after the tradable quantity ahead of it by price and arrival, capped by its own, and nothing if beyond the limit, of the taker's owner, or behind such an order under CancelIncoming; it keeps the rest, or nothing if CancelResting reaches it |
| Allocation.SubmitTrades | src/order_book.cpp:184-190 | every field of each trade: its number, its maker, the taker, the maker's price, the quantity allotted to that maker, the taker's side |
| Allocation.SubmitTradesAll | src/order_book.cpp:158-195 | every order with something allotted has its trade |
| Allocation.SubmitBook | tests/reference_book.hpp:165-217 | the book left behind: what remains of each order, in the order of before, then what the taker rests |
| Allocation.SubmitHalts | src/order_book.cpp:162-170 | a taker is halted exactly when, under CancelIncoming, an order of its own within its limit has less tradable quantity ahead of it than the taker brings |
| Allocation.MatchLeaves | src/order_book.cpp:151-200 | what a match leaves of each order is what the closed form says |
| Allocation.MatchHalts | src/order_book.cpp:162-170 | and so is whether it halts |
| Allocation.MatchBook | tests/reference_book.hpp:166-210 | and the list of orders left |
| Answers.SubmitAccepts | src/order_book.cpp:248-256 | accepted if and only if the quantity is positive and no resting order has the id; a refused order changes nothing and is told its whole quantity |
| Answers.SubmitRests | src/order_book.cpp:262-269 | rests if and only if accepted, limited, not exhausted and not halted: last in the book with its id, owner, limit, leftover, side and the next arrival; no other order is added |
| Answers.TradesWithinLimit | src/order_book.cpp:141-145 | a buy never trades above its limit, a sell never below |
| Answers.StopsAtLimit | src/order_book.cpp:151-155 | with quantity left and not halted, every far order left is beyond the limit, and without a limit there is none |
| Answers.NeverWithOwn | src/order_book.cpp:147-162 | under a preventing policy no trade of an owned taker is with an order of its owner |
| Answers.OnlyOwnIsCancelled | src/order_book.cpp:171-175 | an order that loses more than it trades is a far order of the taker's non-anonymous owner under CancelResting, and loses everything untraded |
| Answers.HaltsAtOwn | tests/reference_book.hpp:177-185 | halted if and only if accepted under CancelIncoming with quantity left and the first far order left within the limit and of the taker's non-anonymous owner |
| Answers.CancelAnswers | tests/reference_book.hpp:61-69 | true if and only if the id rests; takes out exactly that order, and leaves the order of the others, the log and the counters |
| Answers.ModifyAnswers | src/order_book.cpp:302-317 | accepted if and only if the id rests; to zero it is a cancel, else a submission with the old owner and side, the new price and quantity |
| Answers.ModifiedRestsLast | include/lob/order_book.hpp:346-348 | what a modified order rests is last in the book, at the new price, with its id, owner and side |
| Answers.ApplyAccepts | tests/diff_harness.cpp:25-44 | each operation is accepted exactly when it has a quantity and a free id, or for cancel and modify a live one; else nothing changes |
| Snapshot.SortSorts | tests/reference_book.hpp:104-113 | the sort gives the same orders, bids first, best price first, then by arrival |
| Snapshot.BookOrderUnique | tests/reference_book.hpp:104-113 | two sequences of the same orders in book order are equal |
| Queues.QueueOrdered | include/lob/order_book.hpp:90-95 | the queue at a price is in order of arrival, which is time priority |
| Queues.MakerIsHead | src/order_book.cpp:159 | the head of the best price's queue is the order that is best by price and arrival |
| Queues.QueueRemove | src/order_book.cpp:213-221 | removing an order from the flat book removes it from its own queue, at its place, and from no other |
| Queues.QueueReplace | src/order_book.cpp:180-182 | a partial fill changes the order in place and keeps its place in its queue |
| Queues.QueueAppend | src/order_book.cpp:203-211 | a new order joins the end of its own queue and no other |
| Reference.ReferenceBook.constructor | tests/reference_book.hpp:49-50 | the empty book, with both counters at 1 |
| Reference.ReferenceBook.FindOrder | tests/reference_book.hpp:122-126 | the loop finds what Find does |
| Reference.ReferenceBook.FindMaker | tests/reference_book.hpp:140-154 | the loop finds the order first by price and arrival on the far side |
| Reference.ReferenceBook.Execute | tests/reference_book.hpp:191-209 | one fill: quantities, trade, counters, report, and an emptied maker erased |
| Reference.ReferenceBook.Submit | tests/reference_book.hpp:156-218 | the loop computes book, log, counters and report of Market.Submit |
| Reference.ReferenceBook.AddLimit | tests/reference_book.hpp:52-55 | submits with the limit |
| Reference.ReferenceBook.AddMarket | tests/reference_book.hpp:57-59 | submits without one |
| Reference.ReferenceBook.CancelOrder | tests/reference_book.hpp:61-69 | erases the one order with the id and says whether there was one |
| Reference.ReferenceBook.ModifyOrder | tests/reference_book.hpp:71-84 | cancel, then add with the same id, owner and side; zero only cancels; an id not live is rejected |
| Reference.ReferenceBook.QueueSnapshot | tests/reference_book.hpp:104-113 | the resting orders, all of them, in book order |
| Pool.SlotPool.constructor | include/lob/slot_pool.hpp:60-62 | a pool of at least one slot, none handed out |
| Pool.SlotPool.Acquire | include/lob/slot_pool.hpp:69-82 | a slot that was not live, its links reset, the last one freed or a new one; all others untouched; grows exactly when every slot is live; the high-water mark is never more than the peak of live slots |
| Pool.SlotPool.TakeFree | include/lob/slot_pool.hpp:71-74 | pops the free list |
| Pool.SlotPool.TakeNew | include/lob/slot_pool.hpp:75-78 | takes the slot at the high-water mark, which then equals the live count |
| Pool.SlotPool.Grow | include/lob/slot_pool.hpp:126-135 | doubles up to the index limit and keeps every index and value |
| Pool.SlotPool.Release | include/lob/slot_pool.hpp:84-93 | moves a slot from the live ones to the front of the free list and leaves all others alone |
| Pool.SlotPool.Write | include/lob/slot_pool.hpp:95-96 | writing a live slot leaves the partition into free and live slots intact |
| Pool.SlotPool.Consistent | include/lob/slot_pool.hpp:107-117 | for a pool in any state the walk ends, and is true exactly when the free chain is in range, repeats no slot and is used minus live long |
| Pool.SlotPool.ValidIsConsistent | include/lob/slot_pool.hpp:102-117 | true of every pool its operations can produce |
| Pool.PathPrefix | include/lob/slot_pool.hpp:104-106 | a walk through next links is fixed by its start and length |
| Pool.EndedPathDistinct | include/lob/slot_pool.hpp:104-106 | so a walk that ends repeats no slot |
| Pool.ChainFits | include/lob/slot_pool.hpp:110 | a sound free chain is never longer than the slots used |
| Links.AppendLinks | src/order_book.cpp:203-211 | the writes of append link the queue followed by the new slot, and touch no slot outside them |
| Links.DetachLinks | src/order_book.cpp:213-220 | the writes of detach link the queue without that slot, wherever in it the slot was |
| Links.LinksFrame | src/order_book.cpp:203-221 | writes outside a queue leave it linked |
| Ladder.CentredWindow | src/order_book.cpp:38-43 | a window centred on any price, of any size from 1, is not clipped, ends within the price range, contains the price, and is centred unless at an end of the range |
| Ladder.ClippedWindow | src/order_book.cpp:53-60 | a window placed anywhere clips at the largest price instead of wrapping |
| Ladder.OpenedInWindow | include/lob/order_book.hpp:228-230 | the count and the best index after a level opens are right for the levels then there |
| Ladder.ClosedInWindow | include/lob/order_book.hpp:186-187 | and after one closes |
| Ladder.ScanFound | include/lob/order_book.hpp:232-241 | the first occupied index on the worse side of the best is the best of the rest |
| Ladder.PriceLadder.constructor | src/order_book.cpp:49-51 | an empty side with its window not placed |
| Ladder.PriceLadder.Place | src/order_book.cpp:53-60 | fixes base and clipped span, and the empty side stays sound |
| Ladder.PriceLadder.Open | include/lob/order_book.hpp:131-140 | opens an empty level at the price if there is none, in the array or in the map, and changes no other |
| Ladder.PriceLadder.Load | include/lob/order_book.hpp:132-140 | reading through a reference to a level gives the level at that price, wherever it is filed |
| Ladder.PriceLadder.Store | include/lob/order_book.hpp:132-140 | writing through it changes the level at that price only |
| Ladder.PriceLadder.Find | include/lob/order_book.hpp:142-150 | a lookup in the map from price to level |
| Ladder.PriceLadder.Best | include/lob/order_book.hpp:155-170 | the extreme price of the whole side across array and map, none exactly when the side is empty |
| Ladder.PriceLadder.Closed | include/lob/order_book.hpp:180-188 | the side without that level, best index right again |
| Ladder.PriceLadder.NextOccupied | include/lob/order_book.hpp:232-241 | the scan with no bounds check stays in the window, ends, and finds the best level left there |
| Ladder.PriceLadder.ForEachLevel | include/lob/order_book.hpp:192-209 | visits every level once, in strictly best-first order |
| Ladder.PriceLadder.VisitWindow | include/lob/order_book.hpp:199-207 | the window's levels come after all outside levels that beat it and before the rest |
| Ladder.PriceLadder.Check | src/order_book.cpp:64-83 | none of its assertions fails on a sound ladder |
| Bits.MaskIsSpot | src/order_book.cpp:96 | masking with a power of two less one is the remainder |
| Bits.WrapKeepsPlace | include/lob/order_book.hpp:282-285 | a cursor keeps its place in the buffer when it wraps at 2^64 |
| Ring.RoundUpPow2 | src/order_book.cpp:12-16 | the smallest power of two that is at least n |
| Ring.TradeRing.constructor | src/order_book.cpp:94-96 | an empty ring whose capacity is that power of two, at least 1 |
| Ring.TradeRing.Push | src/order_book.cpp:98-106 | appends unless full; full, it counts the drop and changes nothing else, also when cursors have wrapped |
| Ring.TradeRing.Pop | src/order_book.cpp:108-113 | removes and gives the oldest trade, or nothing |
| Ring.PushedTrade | src/order_book.cpp:103-104 | the write at the head extends the buffered sequence |
| Ring.PoppedTrade | src/order_book.cpp:110-111 | the read at the tail is its first trade |
| Ring.Kept | src/order_book.cpp:98-106 | popped and then buffered trades stay an in-order selection of those offered; offered = popped + buffered + dropped, for a trade kept |
| Ring.Dropped | src/order_book.cpp:99-101 | and for a trade dropped |
| Ring.Moved | src/order_book.cpp:108-113 | and for a trade popped |
| Ring.UndrainedPush | src/order_book.cpp:98-106 | until something is popped the ring holds the first trades offered, up to its capacity |
| Ring.NothingLost | include/lob/order_book.hpp:271-272 | popped and then buffered trades are all those offered if and only if none was counted as dropped |
| Bits.XorUndoes | include/lob/id_index.hpp:125-127 | the exclusive-or of the hash can be undone |
| Bits.XorLow | include/lob/id_index.hpp:125-127 | masking an exclusive-or is the exclusive-or of the masked numbers |
| Probing.ShiftIsQuotient | include/lob/id_index.hpp:125-127 | the shift by log2 of the capacity is the quotient by it |
| Probing.HomeFolds | include/lob/id_index.hpp:125-127 | the home is the low bits of the id folded with the next higher ones |
| Probing.SequentialHomesDiffer | include/lob/id_index.hpp:10-13 | different ids in one stretch of table size have different homes |
| Probing.TableApartHomesDiffer | include/lob/id_index.hpp:13-14 | ids exactly a table apart have different homes |
| Probing.ProbeMisses | include/lob/id_index.hpp:60-66 | a probe that meets a vacant slot without meeting the id shows that no slot holds it |
| Probing.Placed | include/lob/id_index.hpp:135-139 | placing an absent id in the first vacant slot from its home keeps all entries reachable, and binds it |
| Probing.MendStarts | include/lob/id_index.hpp:141-144 | emptying a slot leaves every entry reachable but for those the hole cuts off further on |
| Probing.StaysMeans | include/lob/id_index.hpp:146-147 | the two-case comparison says that the home lies cyclically after the hole and not after the entry |
| Probing.MendPasses | include/lob/id_index.hpp:148-151 | an entry that stays is not cut off by the hole |
| Probing.MendMoves | include/lob/id_index.hpp:148-151 | moving an entry back into the hole, and the hole to where it was, cuts off none of those already passed |
| Probing.MendEnds | include/lob/id_index.hpp:144-153 | when the scan meets a vacant slot every entry is reachable again |
| Index.IdIndex.constructor | include/lob/id_index.hpp:53-58 | an empty table of at least 16 slots and at least twice the expected ids |
| Index.IdIndex.Probe | include/lob/id_index.hpp:60-66 | ends, at the id's entry exactly when the id is bound, else at a vacant slot |
| Index.IdIndex.Find | include/lob/id_index.hpp:60-68 | lookup in the map of bindings |
| Index.IdIndex.Insert | include/lob/id_index.hpp:70-75 | adds one binding to the map; the table doubles exactly when it would pass half full |
| Index.IdIndex.Place | include/lob/id_index.hpp:135-139 | adds one binding to what the table stores |
| Index.IdIndex.Take | include/lob/id_index.hpp:77-88 | removes one binding and gives its value, or leaves the map alone |
| Index.IdIndex.CloseGap | include/lob/id_index.hpp:141-154 | in place: the table stores the map without the id at the hole, every entry reachable across the end of the table |
| Index.IdIndex.Grow | include/lob/id_index.hpp:156-164 | a table of twice the size that stores the same map |
| Index.IdIndex.Consistent | include/lob/id_index.hpp:99-110 | for a table in any state, true exactly when every entry is reachable from its home and the count is the number of entries |
| Layout.SameUsed | include/lob/id_index.hpp:24-25 | two tables of one size that hold the same ids use the same slots |
| Layout.DisplacementSplits | include/lob/id_index.hpp:135-154 | total displacement depends only on the slots used and the homes of the ids |
| Layout.SameLayout | include/lob/id_index.hpp:24-25 | so it too is the same for both tables |
| Layout.NeverDegrades | include/lob/id_index.hpp:24-25 | a table, after any run, uses the slots and has the total displacement of a fresh one filled with its ids in any order |
| BookState.PackRoundTrip | include/lob/order_book.hpp:427-433 | slot and side come back from the packed value, which fits 32 bits, for slots below 2^31 |
| BookState.QueuesApart | src/order_book.cpp:203-221 | the queues of different side or price share no slot |
| BookSteps.RepRemoved | src/order_book.cpp:192-195 | index, pool, queues and levels stand for the flat book without one order after its erase and detach |
| BookSteps.RepFilled | src/order_book.cpp:180-182 | and for the book with one order reduced after a partial fill |
| BookSteps.RepAppended | src/order_book.cpp:225-232 | and for the book with one order more after append and insert |
| BookSteps.HeadIsMaker | src/order_book.cpp:157-160 | the slot at the head of the best level holds the order the reference book hits next |
| BookSteps.NoMaker | src/order_book.cpp:153-155 | a side without levels has no order |
| BookOrder.LevelsAreSorted | include/lob/order_book.hpp:377-392 | walking bids then asks best first, each queue from its head, is the reference book's sort of all resting orders |
| BookOrder.ViewsShow | include/lob/order_book.hpp:377-392 | the listing has each resting order once with its own id, owner, price, quantity and side, bids before asks, better prices first, the older first at a price |
| BookOrder.RowsShow | tests/diff_harness.cpp:14-17 | a row has the side, price, id and quantity of the order it stands for |
| Engine.OrderBook.constructor | src/order_book.cpp:117-128 | stands for the empty book, provisioned for the expected orders, windows placed as configured |
| Engine.OrderBook.PlaceWindows | src/order_book.cpp:130-134 | both windows get the centred base; the first price that rests is inside, unclipped |
| Engine.OrderBook.Append | src/order_book.cpp:203-211 | the queue becomes the queue plus the slot, the total grows by its quantity, slots outside the queue are unchanged |
| Engine.OrderBook.Detach | src/order_book.cpp:213-221 | the queue loses the slot at any place, the total falls, the slot is freed, slots outside the queue are unchanged |
| Engine.OrderBook.DropMaker | src/order_book.cpp:173-174 | erase and detach remove one order from the flat book and change no other level |
| Engine.OrderBook.ReduceMaker | src/order_book.cpp:181-182 | a maker's slot and its level's total fall by what is traded |
| Engine.OrderBook.Print | src/order_book.cpp:184-190 | the trade joins the log the ring was offered, and the counter moves by one |
| Engine.OrderBook.Execute | src/order_book.cpp:178-195 | one fill of the engine is one fill of the reference book, report included |
| Engine.OrderBook.HitHead | src/order_book.cpp:158-195 | one round at a level's head leaves the same matching to do as before, or less, and always makes progress |
| Engine.OrderBook.MatchLevel | src/order_book.cpp:157-196 | one price level: the matching left to do has the same outcome, and the level is empty unless the taker is done |
| Engine.OrderBook.CloseLevel | src/order_book.cpp:198 | after it no empty level is left |
| Engine.OrderBook.MatchBest | src/order_book.cpp:151-200 | one round of the outer loop, between two valid states |
| Engine.OrderBook.Match | src/order_book.cpp:138-201 | the nested loops compute what the reference book's single loop does, and never grow the pool |
| Engine.OrderBook.NewSlot | src/order_book.cpp:227-229 | the slot is below 2^31 exactly while fewer than 2^31 orders rest |
| Engine.OrderBook.Join | src/order_book.cpp:230-231 | in an acquired slot the order joins its queue, its level and the index, and with them the flat book's end; the index grows exactly when one more does not fit |
| Engine.OrderBook.AddOrder | src/order_book.cpp:226-231 | the order joins the flat book's end; throws exactly when 2^31 rest; pool and index grow exactly when one more does not fit |
| Engine.OrderBook.Insert | src/order_book.cpp:223-232 | the same with the window placed at the first resting order, every level non-empty again |
| Engine.OrderBook.Submit | src/order_book.cpp:245-272 | book and report are those of the reference semantics, and the whole invariant holds again; length_error exactly when more than 2^31 would rest; no growth within what was provisioned |
| Engine.OrderBook.AddLimit | src/order_book.cpp:274-277 | the engine does what the reference book does for it |
| Engine.OrderBook.AddMarket | src/order_book.cpp:283-286 | the same, and nothing rests |
| Engine.OrderBook.Remove | src/order_book.cpp:234-243 | an order leaves its queue and its level, which closes if it was the last |
| Engine.OrderBook.Cancel | src/order_book.cpp:292-300 | book and answer are those of the reference semantics |
| Engine.OrderBook.Modify | src/order_book.cpp:302-317 | book and report are those of the reference semantics; never a length_error |
| Engine.OrderBook.VisitLevel | include/lob/order_book.hpp:383-387 | a walk of the links lists the level's orders in time priority, each with id, owner, price, quantity and side |
| Engine.OrderBook.VisitSide | include/lob/order_book.hpp:381-391 | a side's orders, its levels best first |
| Engine.OrderBook.ForEachResting | include/lob/order_book.hpp:377-392 | lists, owner included, exactly the orders of the reference book's sorted snapshot, in the same order |
| Engine.OrderBook.DrainTrades | include/lob/order_book.hpp:354-362 | gives all buffered trades, oldest first, and empties the ring |
| Engine.OrderBook.RingHoldsLog | src/order_book.cpp:190 | a ring never drained holds the first trades of the log, as many as fit |
| Engine.OrderBook.DrainedIsLog | include/lob/order_book.hpp:354-362 | the trades a caller drained and then those buffered are the whole log if and only if no drop was counted |
| Engine.OrderBook.CheckLevel | src/order_book.cpp:351-376 | no assertion about links, prices, quantities, index entries or totals fails, and the count is the queue's length |
| Engine.OrderBook.CheckSide | src/order_book.cpp:348-377 | the same over a side, counting all its orders |
| Engine.OrderBook.CheckInvariants | src/order_book.cpp:379-391 | nothing the source asserts after each operation fails in a valid state |
| Engine.OrderBook.BestsUncrossed | src/order_book.cpp:388-390 | the best bid of the ladders is below the best ask |
| Harness.RunReference | tests/diff_harness.cpp:54-85 | reports, trades and snapshot of a run of the reference semantics |
| Harness.SnapshotIsSort | tests/reference_book.hpp:104-113 | the snapshot of a well-formed book is the sort of its orders |
| Harness.PlayNext | tests/diff_harness.cpp:25-44 | one operation leaves book and report of the reference semantics, and no growth while the resting orders fit what was provisioned |
| Harness.Play | tests/diff_harness.cpp:25-44 | after the loop the engine's book and reports are those of the run; it stops exactly when an operation would rest too many; no growth if the run stays within what was provisioned |
| Harness.RunEngine | tests/diff_harness.cpp:21-52 | the engine shows what the reference semantics show, whatever the configuration, its trades cut at the ring's capacity; and neither pool nor index grows while the resting orders never exceed expected_orders, or 1024 if that is 0 |
| Harness.Diverges | tests/diff_harness.hpp:210-213 | true if and only if the run prints more trades than the ring holds |
| Harness.RingCapacityIs | src/order_book.cpp:12-16 | the ring holds the smallest power of two that is at least the capacity asked for |
| Harness.SmallRingDiverges | tests/diff_harness.cpp:46-47 | a run of three operations on which the two disagree under every policy, when the ring holds one trade |
| Harness.Shrink | tests/diff_harness.cpp:87-112 | for any test in place of diverges: ends; a non-empty subsequence of its input that still fails if the input did, and from which no single operation can be removed |
| Harness.PicksWithout | tests/diff_harness.cpp:94-100 | cutting a chunk out of a subsequence leaves a subsequence |
| Arena.SizeClass | include/lob/node_arena.hpp:77-79 | the smallest class whose blocks hold the request, within the array of lists |
| Arena.SlabAdded | src/node_arena.cpp:38-43 | a new slab overlaps nothing, and the bytes abandoned with the old tail keep the account of slab bytes |
| Arena.BlockCarved | src/node_arena.cpp:27-29 | a block cut from the tail is aligned, in its slab, apart from all blocks, headers and the tail left |
| Arena.LiveBlocksApart | include/lob/node_arena.hpp:43-65 | any two blocks, live or free, are apart, and apart from every slab header and the unused tail |
| Arena.NodeArena.constructor | src/node_arena.cpp:12-14 | an arena with at least the reserved bytes, or none |
| Arena.NodeArena.AddSlab | src/node_arena.cpp:32-44 | slab bytes = headers + carved + abandoned + unused tail, under 256 abandoned per slab retired |
| Arena.NodeArena.Carve | src/node_arena.cpp:24-30 | a block never given before; a slab is added exactly when the tail is too small |
| Arena.NodeArena.Allocate | include/lob/node_arena.hpp:43-51 | a block that is not live, aligned and large enough: the one of its class freed last, else a new one; large requests go to the system |
| Arena.NodeArena.Deallocate | include/lob/node_arena.hpp:53-65 | the block goes to the front of its class's list and nothing else changes |

## Left out

- Benchmarks, the flow generator and the tools: clocks, process calls and statistics.
- Huge pages, address sanitizer poisoning, the memset on release, alignment of slots and page touching: no effect on meaning.
- `std::map`: the levels outside the window are an abstract map from which the best price can be chosen; `std::sort` is an insertion sort with the source's comparison.
- `ArenaAllocator` and the book's use of the arena: the arena is modelled by itself, with addresses as numbers and what `operator new` returns as a parameter that overlaps no slab the arena has. Its destructor, and what `operator delete` does with large blocks, are not modelled.
- References into containers: a `PriceLevel&` is a ladder and a price, read by `Load` and written by `Store`. The pool's slots and the overflow map are fields that methods reassign, so the copy a growing vector makes is not an operation of its own.
- Templates: the pool and the index are written for the book's own element types, and the bid and ask ladders are one class with a side. `find` and `take` of the index share one probe loop.
- The overloads without an owner: they are calls with owner 0.
- Snapshots of a reference book that is not well formed: no run reaches one, and the library sort leaves ties open.
- Counters of trades, arrivals, drops and growths are unbounded here. The k-th trade has number k, so the source's wrap only after 2^64 trades.
- The counter of insertions outside the window: it moves on every insertion there, also into a level that exists (include/lob/order_book.hpp:138-139), though the comment at include/lob/order_book.hpp:400 speaks of levels opened.
- Configurations that exceed the source's sizes: `expected_orders` over 2^62, `trade_capacity` over 2^63 or `price_levels` over 2^64, where the source's sizing loops would not end or would fail to allocate. The throws in `SlotPool::grow` and `IdIndex::grow` are for sizes that a book below its 2^31 limit does not reach.
- The state after a `length_error`: when it is thrown is exact, what the book is then is not described.
- Simple queries: `qty_at`, `order_count_at`, `find`, `size`, `best_bid`, `best_ask` and the window's accessors.
- `clear_trades` of the reference book, the formatting of failing sequences, and the harness's random generation.
- Threads: a book shares no state, and its results are functions of the operations applied.
