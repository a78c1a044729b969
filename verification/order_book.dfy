// The matching engine: price ladders, queues in a slot pool, an id index and a trade ring,
// kept in step.
module Engine {
  import opened Types
  import opened Market
  import opened MarketProperties
  import opened Queues
  import opened Pool
  import opened Links
  import opened Ladder
  import opened Bits
  import opened Probing
  import opened Index
  import opened Ring
  import opened BookState
  import opened BookSteps
  import opened BookOrder
  import opened Snapshot

  const DEFAULT_POOL_SLOTS := 1024

  datatype Config = Config(
    selfTrade: SelfTradePolicy, tradeCapacity: nat, expectedOrders: nat, priceLevels: nat, priceBase: Option<Price>)
  {
    // Capacities that fit the source's 64-bit sizes, where its sizing loops end.
    predicate Sized() {
      && tradeCapacity <= 0x8000_0000_0000_0000 && expectedOrders <= 0x4000_0000_0000_0000
      && priceLevels <= 0x1_0000_0000_0000_0000
    }

    function Provision(): nat {
      if expectedOrders > 0 then expectedOrders else DEFAULT_POOL_SLOTS
    }
  }

  // What a call that may throw returns.
  datatype Outcome = Reported(rep: ExecReport) | LengthError

  class OrderBook {
    const pool: SlotPool
    const bids: PriceLadder
    const asks: PriceLadder
    const index: IdIndex
    const ring: TradeRing
    const policy: SelfTradePolicy
    var nextSeq: nat

    // What the book stands for: the state of the reference book after the same operations.
    ghost var book: Book

    ghost function Repr(): set<object>
      reads this, index
    {
      {this, pool, bids, bids.window, asks, asks.window, index, index.table, ring, ring.buffer}
    }

    ghost predicate Parts()
      reads Repr()
    {
      && pool.Valid() && bids.Valid() && asks.Valid() && index.Valid() && ring.Valid()
      && bids != asks && bids.window != asks.window && bids.side == Buy && asks.side == Sell
      && bids.isPlaced == asks.isPlaced
      && bids.window.Length == asks.window.Length <= 0x1_0000_0000_0000_0000
      && (!bids.isPlaced ==> bids.levels == map[] && asks.levels == map[])
    }

    // All but the settling of the ladders and the well-formedness of the book: what holds
    // between the steps of one operation.
    ghost predicate Core()
      reads Repr()
    {
      CoreWith(index.bound)
    }

    // The same, with an index that may lag behind by the entry being taken out.
    ghost predicate CoreWith(idx: map<nat, nat>)
      reads Repr()
    {
      && Parts()
      && Rep(book.resting, idx, pool.slots, pool.held, bids.levels, asks.levels)
      && nextSeq == book.nextSeq && ring.offered == book.log
      && pool.used <= MAX_ORDERS
    }

    ghost predicate Valid()
      reads Repr()
    {
      Core() && WellFormed(book) && Settled(bids.levels) && Settled(asks.levels)
    }

    constructor (cfg: Config)
      requires cfg.Sized()
      ensures Valid() && policy == cfg.selfTrade && book == EMPTY_BOOK
      ensures fresh(pool) && fresh(bids) && fresh(bids.window) && fresh(asks) && fresh(asks.window)
      ensures fresh(index) && fresh(index.table) && fresh(ring) && fresh(ring.buffer)
      ensures ring.popped == []
      ensures ring.buffer.Length == RoundUpFrom(1, if cfg.tradeCapacity == 0 then 1 else cfg.tradeCapacity)
      ensures cfg.Provision() <= |pool.slots| && 2 * cfg.Provision() <= index.table.Length
      ensures pool.growths == index.growths == 0
      ensures bids.window.Length == asks.window.Length == cfg.priceLevels && bids.isPlaced == cfg.priceBase.Some?
      ensures cfg.priceBase.Some? ==> bids.lo == asks.lo == cfg.priceBase.value
    {
      hide Core, CoreWith, Rep, WellFormed, Settled, RoundUpFrom, Stores, Repr;
      hide SlotPool.Valid, IdIndex.Valid, TradeRing.Valid, PriceLadder.Valid;
      var size := cfg.Provision();
      pool := new SlotPool(size);
      bids := new PriceLadder(Buy, cfg.priceLevels);
      asks := new PriceLadder(Sell, cfg.priceLevels);
      index := new IdIndex(size);
      ring := new TradeRing(cfg.tradeCapacity);
      policy, nextSeq, book := cfg.selfTrade, 1, EMPTY_BOOK;
      new;
      EmptyIsValid();
      PlaceConfigured(cfg.priceBase);
    }

    lemma EmptyIsValid()
      requires Parts() && book == EMPTY_BOOK && nextSeq == 1 && ring.offered == []
      requires bids.levels == asks.levels == map[] && index.bound == map[] && pool.held == {} && pool.used == 0
      ensures Valid()
    {
      hide Rep, WellFormed, Settled;
      EmptyRep(pool.slots);
      EmptyBook();
    }

    method PlaceConfigured(base: Option<Price>)
      requires Valid() && bids.levels == asks.levels == map[]
      modifies bids`lo, bids`limit, bids`isPlaced, asks`lo, asks`limit, asks`isPlaced
      ensures Valid() && bids.isPlaced == (old(bids.isPlaced) || base.Some?)
      ensures base.Some? ==> bids.lo == asks.lo == base.value
    {
      hide Core, WellFormed, Settled;
      if base.Some? {
        PlaceAt(base.value);
      }
    }

    method PlaceAt(base: Price)
      requires Core() && bids.levels == asks.levels == map[]
      modifies bids`lo, bids`limit, bids`isPlaced, asks`lo, asks`limit, asks`isPlaced
      ensures Core() && bids.isPlaced && bids.lo == asks.lo == base
      ensures bids.limit == asks.limit == ClippedSpan(base, bids.window.Length)
    {
      hide Rep, ClippedSpan, PriceLadder.Valid, SlotPool.Valid, IdIndex.Valid, TradeRing.Valid;
      bids.Place(base);
      asks.Place(base);
    }

    // Both windows go around the first price that rests.
    method PlaceWindows(price: Price)
      requires Core() && bids.levels == asks.levels == map[]
      modifies bids`lo, bids`limit, bids`isPlaced, asks`lo, asks`limit, asks`isPlaced
      ensures Core() && bids.isPlaced && bids.lo == asks.lo == CentredBase(price, bids.window.Length)
      ensures bids.window.Length > 0 ==> InWindow(bids.lo, bids.limit, price) && bids.limit == bids.window.Length
    {
      hide Rep, ClippedSpan, CentredBase, PriceLadder.Valid, SlotPool.Valid, IdIndex.Valid, TradeRing.Valid;
      PlaceAt(CentredBase(price, bids.window.Length));
      if bids.window.Length > 0 {
        CentredWindow(price, bids.window.Length);
      }
    }

    // Queue maintenance ---------------------------------------------------------------

    // Adds a filled-in slot at the end of the queue q of the level at price.
    method Append(ladder: PriceLadder, price: Price, slot: nat, ghost q: seq<nat>) returns (ghost level': PriceLevel)
      requires pool.Valid() && ladder.Valid() && price in ladder.levels
      requires Linked(pool.slots, q) && Distinct(q) && forall x :: x in q ==> x in pool.held
      requires slot in pool.held && slot !in q
      requires Ends(ladder.levels[price], q)
      modifies pool`slots, ladder`levels, ladder`overflow, ladder.window
      ensures pool.Valid() && ladder.Valid()
      ensures |pool.slots| == |old(pool.slots)| && slot < |pool.slots|
      ensures Linked(pool.slots, q + [slot])
      ensures forall j :: 0 <= j < |pool.slots| && j != slot && j !in q ==> pool.slots[j] == old(pool.slots)[j]
      ensures forall j :: 0 <= j < |pool.slots| ==> pool.slots[j].value == old(pool.slots)[j].value
      ensures ladder.levels == old(ladder.levels)[price := level']
      ensures Ends(level', q + [slot])
      ensures level'.total == old(ladder.levels)[price].total + pool.slots[slot].value.qty
    {
      hide Linked, Distinct, Partitioned, WindowFiled, OverflowFiled, BestTracked;
      HeldBounds(pool, slot);
      AppendLinks(pool.slots, q, slot);
      LastIsLinked(pool.slots, q);
      var level := ladder.Load(price);
      pool.Write(slot, pool.slots[slot].(prev := level.tail, next := NO_SLOT));
      if level.tail != NO_SLOT {
        pool.Write(level.tail, pool.slots[level.tail].(next := slot));
      } else {
        level := level.(head := slot);
      }
      level := level.(tail := slot, total := level.total + pool.slots[slot].value.qty);
      ladder.Store(price, level);
      level' := level;
    }

    // Unlinks the k-th slot of the queue q of the level at price, and frees it.
    method Detach(ladder: PriceLadder, price: Price, slot: nat, ghost q: seq<nat>, ghost k: nat)
      returns (ghost level': PriceLevel)
      requires pool.Valid() && ladder.Valid() && price in ladder.levels
      requires Linked(pool.slots, q) && Distinct(q) && forall x :: x in q ==> x in pool.held
      requires k < |q| && q[k] == slot && slot < |pool.slots|
      requires Ends(ladder.levels[price], q) && ladder.levels[price].total >= pool.slots[slot].value.qty
      modifies pool, ladder`levels, ladder`overflow, ladder.window
      ensures pool.Valid() && ladder.Valid()
      ensures |pool.slots| == |old(pool.slots)| && pool.held == old(pool.held) - {slot}
      ensures pool.used == old(pool.used) && pool.growths == old(pool.growths)
      ensures Linked(pool.slots, RemoveAt(q, k))
      ensures forall j :: 0 <= j < |pool.slots| && j !in q ==> pool.slots[j] == old(pool.slots)[j]
      ensures forall j :: 0 <= j < |pool.slots| && j != slot ==> pool.slots[j].value == old(pool.slots)[j].value
      ensures ladder.levels == old(ladder.levels)[price := level']
      ensures Ends(level', RemoveAt(q, k))
      ensures level'.total == old(ladder.levels)[price].total - old(pool.slots)[slot].value.qty
    {
      hide Linked, Distinct, Partitioned, WindowFiled, OverflowFiled, BestTracked, RemoveAt, First, Last;
      DetachLinks(pool.slots, q, k);
      RemovedEnds(q, k);
      NeighboursHeld(pool.slots, q, k);
      FirstLast(q);
      var s := pool.slots[slot];
      var level := ladder.Load(price);
      ghost var unlinked := Unlinked(pool.slots, slot);
      if s.prev != NO_SLOT {
        pool.Write(s.prev, pool.slots[s.prev].(next := s.next));
      } else {
        level := level.(head := s.next);
      }
      if s.next != NO_SLOT {
        pool.Write(s.next, pool.slots[s.next].(prev := s.prev));
      } else {
        level := level.(tail := s.prev);
      }
      assert pool.slots == unlinked;
      level := level.(total := level.total - s.value.qty);
      ladder.Store(price, level);
      pool.Release(slot);
      LinksFrame(unlinked, pool.slots, RemoveAt(q, k));
      level' := level;
    }

    // Matching ------------------------------------------------------------------------------

    ghost function LadderOf(side: Side): PriceLadder {
      if side.Buy? then bids else asks
    }

    // Takes the order at index m, already out of the index, out of its queue.
    method Unqueue(ladder: PriceLadder, price: Price, slot: nat, ghost idx: map<nat, nat>, ghost m: nat)
      requires CoreWith(idx) && m < |book.resting| && index.bound == idx - {book.resting[m].id as nat}
      requires ladder == LadderOf(book.resting[m].side) && price == book.resting[m].price
      requires slot == SlotFor(idx, book.resting[m].id)
      modifies pool, this`book, ladder`levels, ladder`overflow, ladder.window
      ensures Core() && book == old(book).(resting := RemoveAt(old(book.resting), m))
      ensures price in old(ladder.levels) && price in ladder.levels
      ensures ladder.levels == old(ladder.levels)[price := ladder.levels[price]]
      ensures pool.growths == old(pool.growths) && |pool.slots| == |old(pool.slots)|
    {
      hide Rep, Linked, Distinct, RemoveAt, Ends, SlotsAt, Place, SlotFor, Cut, CutLevel;
      hide PriceLadder.Valid, SlotPool.Valid, IdIndex.Valid, TradeRing.Valid;
      ghost var resting, slots, held := book.resting, pool.slots, pool.held;
      ghost var bids0, asks0 := bids.levels, asks.levels;
      ReadyToCut(resting, idx, slots, held, bids0, asks0, m);
      ghost var q := SlotsAt(resting, idx, resting[m]);
      ghost var level' := Detach(ladder, price, slot, q, Place(resting, m));
      CutMade(resting, idx, slots, held, m, pool.slots, LevelsOf(resting[m].side, bids0, asks0)[price], level');
      RepRemoved(resting, idx, slots, held, bids0, asks0, m, pool.slots, level', bids.levels, asks.levels);
      book := book.(resting := RemoveAt(resting, m));
    }

    // Takes the maker at index m out of the index and its queue.
    method DropMaker(ladder: PriceLadder, price: Price, slot: nat, ghost m: nat)
      requires Core() && m < |book.resting|
      requires ladder == LadderOf(book.resting[m].side) && price == book.resting[m].price
      requires slot == SlotFor(index.bound, book.resting[m].id) && slot < |pool.slots|
      requires pool.slots[slot].value.id == book.resting[m].id
      modifies pool, index`count, index`bound, index.table, this`book
      modifies bids`levels, bids`overflow, bids.window, asks`levels, asks`overflow, asks.window
      ensures Core() && book == old(book).(resting := RemoveAt(old(book.resting), m))
      ensures price in old(ladder.levels) && price in ladder.levels
      ensures ladder.levels == old(ladder.levels)[price := ladder.levels[price]]
      ensures LadderOf(Opposite(ladder.side)).levels == old(LadderOf(Opposite(ladder.side)).levels)
      ensures pool.growths == old(pool.growths) && |pool.slots| == |old(pool.slots)|
    {
      hide Rep, RemoveAt, SlotFor;
      hide PriceLadder.Valid, SlotPool.Valid, IdIndex.Valid, TradeRing.Valid;
      ghost var idx := index.bound;
      var _ := index.Take(pool.slots[slot].value.id);
      Unqueue(ladder, price, slot, idx, m);
    }

    // Takes part of the maker at index m, in its slot and in its level's total.
    method ReduceMaker(ladder: PriceLadder, price: Price, slot: nat, traded: Quantity, ghost m: nat)
      requires Core() && m < |book.resting| && traded <= book.resting[m].qty
      requires ladder == LadderOf(book.resting[m].side) && price == book.resting[m].price
      requires slot == SlotFor(index.bound, book.resting[m].id)
      modifies pool`slots, this`book
      modifies bids`levels, bids`overflow, bids.window, asks`levels, asks`overflow, asks.window
      ensures Core()
      ensures book == old(book).(resting := old(book.resting)[m := AfterFill(old(book.resting)[m], traded)])
      ensures price in old(ladder.levels) && price in ladder.levels
      ensures ladder.levels == old(ladder.levels)[price := ladder.levels[price]]
      ensures LadderOf(Opposite(ladder.side)).levels == old(LadderOf(Opposite(ladder.side)).levels)
      ensures |pool.slots| == |old(pool.slots)| && slot < |pool.slots|
      ensures pool.slots[slot].value == StoredOrder(book.resting[m])
    {
      hide Rep, Linked, Distinct, Ends, SlotsAt, Place, SlotFor;
      hide PriceLadder.Valid, SlotPool.Valid, IdIndex.Valid, TradeRing.Valid;
      ghost var resting, idx, slots, held := book.resting, index.bound, pool.slots, pool.held;
      ghost var bids0, asks0 := bids.levels, asks.levels;
      ReadyToCut(resting, idx, slots, held, bids0, asks0, m);
      ghost var o := AfterFill(resting[m], traded);
      var value := pool.slots[slot].value;
      pool.Write(slot, pool.slots[slot].(value := value.(qty := value.qty - traded)));
      var level := ladder.Load(price);
      ladder.Store(price, level.(total := level.total - traded));
      RepFilled(resting, idx, slots, held, bids0, asks0, m, o, bids.levels, asks.levels);
      book := book.(resting := resting[m := o]);
    }

    // Prints a trade: to the ring, and to the log it stands in for.
    method Print(trade: Trade)
      requires Core() && trade.sequence == nextSeq
      modifies ring, ring.buffer, this`nextSeq, this`book
      ensures Core()
      ensures book == old(book).(log := old(book.log) + [trade], nextSeq := old(book.nextSeq) + 1)
      ensures ring.popped == old(ring.popped)
    {
      hide Rep, PriceLadder.Valid, SlotPool.Valid, IdIndex.Valid, TradeRing.Valid;
      nextSeq := nextSeq + 1;
      var _ := ring.Push(trade);
      book := book.(log := book.log + [trade], nextSeq := book.nextSeq + 1);
    }

    lemma CoreCounts()
      requires Core()
      ensures nextSeq == book.nextSeq && bids != asks
    {
    }

    // One fill: the maker gives up what is traded, the trade prints, and a maker with
    // nothing left goes.
    method Execute(
      t: Taker, ladder: PriceLadder, price: Price, slot: nat, left: Quantity, rep: ExecReport, ghost m: nat)
      returns (left': Quantity, rep': ExecReport)
      requires Core() && m < |book.resting|
      requires ladder == LadderOf(book.resting[m].side) && price == book.resting[m].price
      requires slot == SlotFor(index.bound, book.resting[m].id) && slot < |pool.slots|
      requires pool.slots[slot].value == StoredOrder(book.resting[m])
      modifies pool, index`count, index`bound, index.table, ring, ring.buffer, this`nextSeq, this`book
      modifies bids`levels, bids`overflow, bids.window, asks`levels, asks`overflow, asks.window
      ensures Core()
      ensures Matching(book, left', rep') == Fill(t, Matching(old(book), left, rep), m)
      ensures price in old(ladder.levels) && price in ladder.levels
      ensures ladder.levels == old(ladder.levels)[price := ladder.levels[price]]
      ensures LadderOf(Opposite(ladder.side)).levels == old(LadderOf(Opposite(ladder.side)).levels)
      ensures pool.growths == old(pool.growths) && |pool.slots| == |old(pool.slots)|
      ensures ring.popped == old(ring.popped)
    {
      hide Core, CoreWith, Parts, Rep, RemoveAt, SlotFor;
      hide PriceLadder.Valid, SlotPool.Valid, IdIndex.Valid, TradeRing.Valid;
      CoreCounts();
      var resting := pool.slots[slot].value;
      var traded: Quantity := Min(left, resting.qty);
      left' := left - traded;
      ReduceMaker(ladder, price, slot, traded, m);
      var trade := Trade(nextSeq, resting.id, t.id, price, traded, t.side);
      rep' := if rep.tradeCount == 0 then rep.(firstSeq := nextSeq) else rep;
      rep' := rep'.(tradeCount := rep'.tradeCount + 1, filled := rep'.filled + traded);
      Print(trade);
      RemoveReplaced(old(book.resting), m, AfterFill(old(book.resting)[m], traded));
      if pool.slots[slot].value.qty == 0 {
        DropMaker(ladder, price, slot, m);
      }
    }

    // The taker meets the oldest order at the best price: a fill, or self-trade prevention.
    method HitHead(t: Taker, ladder: PriceLadder, price: Price, stpPossible: bool, left0: Quantity, rep0: ExecReport)
      returns (left: Quantity, rep: ExecReport)
      requires Core() && WellFormed(book) && ladder == LadderOf(Opposite(t.side))
      requires BestOf(ladder.side, ladder.levels.Keys, price) && price in ladder.levels && !ladder.levels[price].Empty()
      requires left0 > 0 && !rep0.stpHalted && Crosses(t, price)
      requires stpPossible == (policy != Allow && t.owner != ANONYMOUS)
      modifies pool, index`count, index`bound, index.table, ring, ring.buffer, this`nextSeq, this`book
      modifies bids`levels, bids`overflow, bids.window, asks`levels, asks`overflow, asks.window
      ensures Core() && WellFormed(book)
      ensures Market.Match(t, policy, Matching(book, left, rep))
              == Market.Match(t, policy, Matching(old(book), left0, rep0))
      ensures price in ladder.levels && ladder.levels == old(ladder.levels)[price := ladder.levels[price]]
      ensures LadderOf(t.side).levels == old(LadderOf(t.side).levels)
      ensures if rep.stpHalted then left == left0 && book == old(book) else Progress(old(book), left0, book, left)
      ensures pool.growths == old(pool.growths) && |pool.slots| == |old(pool.slots)|
      ensures ring.popped == old(ring.popped)
    {
      hide Rep, Linked, Distinct, RemoveAt, SlotFor, WellFormed, Market.Match, NextMaker, Fill, BestOf, Crosses;
      hide PriceLadder.Valid, SlotPool.Valid, IdIndex.Valid, TradeRing.Valid;
      left, rep := left0, rep0;
      var level := ladder.Load(price);
      var slot := level.head;
      ghost var s := Matching(book, left, rep);
      ghost var m := HeadMaker(t, ladder, price);
      HitKeeps(t, policy, s, m);
      var resting := pool.slots[slot].value;
      if stpPossible && t.owner == resting.owner {
        if policy == CancelIncoming {
          rep := rep.(stpHalted := true);
          return;
        }
        rep := rep.(stpCancelled := rep.stpCancelled + resting.qty);
        DropMaker(ladder, price, slot, m);
      } else {
        left, rep := Execute(t, ladder, price, slot, left, rep, m);
        FillProgress(t, s, m);
      }
    }

    lemma CoreLadders()
      requires Core()
      ensures bids.Valid() && asks.Valid() && bids.side == Buy && asks.side == Sell
    {
    }

    // Fills the taker at one price, the best of the far side, oldest maker first.
    method MatchLevel(t: Taker, ladder: PriceLadder, price: Price, stpPossible: bool, left0: Quantity, rep0: ExecReport)
      returns (left: Quantity, rep: ExecReport)
      requires Core() && WellFormed(book) && ladder == LadderOf(Opposite(t.side))
      requires BestOf(ladder.side, ladder.levels.Keys, price) && price in ladder.levels && Settled(ladder.levels)
      requires left0 > 0 && !rep0.stpHalted && Crosses(t, price)
      requires stpPossible == (policy != Allow && t.owner != ANONYMOUS)
      modifies pool, index`count, index`bound, index.table, ring, ring.buffer, this`nextSeq, this`book
      modifies bids`levels, bids`overflow, bids.window, asks`levels, asks`overflow, asks.window
      ensures Core() && WellFormed(book)
      ensures Market.Match(t, policy, Matching(book, left, rep))
              == Market.Match(t, policy, Matching(old(book), left0, rep0))
      ensures SettledExcept(ladder.levels, price) && LadderOf(t.side).levels == old(LadderOf(t.side).levels)
      ensures price in ladder.levels && (left == 0 || rep.stpHalted || ladder.levels[price].Empty())
      ensures Progress(old(book), left0, book, left) || (rep.stpHalted && left == left0 && book == old(book))
      ensures pool.growths == old(pool.growths) && |pool.slots| == |old(pool.slots)|
      ensures ring.popped == old(ring.popped)
    {
      hide Core, WellFormed, Market.Match, BestOf, Crosses, PriceLadder.Valid;
      left, rep := left0, rep0;
      CoreLadders();
      var level := ladder.Load(price);
      while left > 0 && !level.Empty() && !rep.stpHalted
        invariant Core() && WellFormed(book)
        invariant Market.Match(t, policy, Matching(book, left, rep))
                  == Market.Match(t, policy, Matching(old(book), left0, rep0))
        invariant price in ladder.levels && level == ladder.levels[price]
        invariant ladder.levels == old(ladder.levels)[price := level]
        invariant LadderOf(t.side).levels == old(LadderOf(t.side).levels)
        invariant (left == left0 && book == old(book) && (rep.stpHalted || !level.Empty()))
                  || Progress(old(book), left0, book, left)
        invariant pool.growths == old(pool.growths) && |pool.slots| == |old(pool.slots)|
        invariant ring.popped == old(ring.popped)
        decreases |book.resting|, left, !rep.stpHalted
      {
        assert ladder.levels.Keys == old(ladder.levels).Keys;
        left, rep := HitHead(t, ladder, price, stpPossible, left, rep);
        CoreLadders();
        level := ladder.Load(price);
      }
    }

    // The head of the best level is the order the taker hits next.
    lemma HeadMaker(t: Taker, ladder: PriceLadder, price: Price) returns (m: nat)
      requires Core() && ladder == LadderOf(Opposite(t.side))
      requires BestOf(ladder.side, ladder.levels.Keys, price) && !ladder.levels[price].Empty()
      ensures NextMaker(book.resting, Opposite(t.side)) == Some(m) && m < |book.resting|
      ensures book.resting[m].side == Opposite(t.side) && book.resting[m].price == price
      ensures ladder.levels[price].head == SlotFor(index.bound, book.resting[m].id) < |pool.slots|
      ensures pool.slots[ladder.levels[price].head].value == StoredOrder(book.resting[m])
    {
      hide SideRep, IndexAgrees, NextMaker, LevelOk;
      HeadIsMaker(book.resting, index.bound, pool.slots, pool.held, ladder.side, ladder.levels, price);
      m := NextMaker(book.resting, ladder.side).value;
    }

    // Closes the level at price, which has become empty.
    method CloseLevel(ladder: PriceLadder, price: Price)
      requires Core() && (ladder == bids || ladder == asks)
      requires price in ladder.levels && ladder.levels[price].Empty() && SettledExcept(ladder.levels, price)
      modifies ladder`levels, ladder`overflow, ladder`occupied, ladder`bestIdx
      ensures Core() && ladder.levels == old(ladder.levels) - {price} && Settled(ladder.levels)
    {
      hide SideRep, IndexAgrees;
      hide SlotPool.Valid, IdIndex.Valid, TradeRing.Valid, PriceLadder.Valid;
      ClosedLevel(book.resting, ladder.side, ladder.levels, pool.slots, index.bound, price);
      ladder.Closed(price);
    }

    // When no level is left, or the best one does not cross, the taker is done.
    lemma NothingToHit(t: Taker, ladder: PriceLadder, best: Option<Price>, left: Quantity, rep: ExecReport)
      requires Core() && ladder == LadderOf(Opposite(t.side)) && Settled(ladder.levels)
      requires if best.None? then ladder.levels == map[]
               else best.value in ladder.levels && BestOf(ladder.side, ladder.levels.Keys, best.value)
                    && !Crosses(t, best.value)
      ensures Done(t, Matching(book, left, rep))
    {
      hide SideRep, IndexAgrees, NextMaker, Crosses;
      if best.None? {
        NoMaker(book.resting, ladder.side, ladder.levels, pool.slots, index.bound);
      } else {
        var m := HeadMaker(t, ladder, best.value);
      }
    }

    // One round of matching, at the best price of the far side: whether there may be more.
    method MatchBest(t: Taker, ladder: PriceLadder, stpPossible: bool, left0: Quantity, rep0: ExecReport)
      returns (left: Quantity, rep: ExecReport, more: bool)
      requires Valid() && ladder == LadderOf(Opposite(t.side)) && left0 > 0 && !rep0.stpHalted
      requires stpPossible == (policy != Allow && t.owner != ANONYMOUS)
      modifies pool, index`count, index`bound, index.table, ring, ring.buffer, this`nextSeq, this`book
      modifies bids`levels, bids`overflow, bids`occupied, bids`bestIdx, bids.window
      modifies asks`levels, asks`overflow, asks`occupied, asks`bestIdx, asks.window
      ensures Valid()
      ensures Market.Match(t, policy, Matching(book, left, rep))
              == Market.Match(t, policy, Matching(old(book), left0, rep0))
      ensures if more then !rep.stpHalted && Progress(old(book), left0, book, left)
              else Done(t, Matching(book, left, rep))
      ensures |book.resting| < |old(book).resting| || (|book.resting| == |old(book).resting| && left <= left0)
      ensures pool.growths == old(pool.growths) && |pool.slots| == |old(pool.slots)|
      ensures ring.popped == old(ring.popped)
    {
      hide Rep, WellFormed, Market.Match, BestOf, Crosses, Done, Settled, SettledExcept;
      hide PriceLadder.Valid, SlotPool.Valid, IdIndex.Valid, TradeRing.Valid;
      left, rep, more := left0, rep0, false;
      var best := ladder.Best();
      BestIsLevel(ladder.side, ladder.levels, best);
      if best.None? || !Crosses(t, best.value) {
        NothingToHit(t, ladder, best, left, rep);
        return;
      }
      left, rep := MatchLevel(t, ladder, best.value, stpPossible, left, rep);
      var level := ladder.Load(best.value);
      SettledBut(ladder.levels, best.value);
      if level.Empty() {
        CloseLevel(ladder, best.value);
      }
      HaltedIsDone(t, Matching(book, left, rep));
      more := !rep.stpHalted;
    }

    // Walks the opposite side best price first, until the taker is exhausted, halted, or the
    // next level no longer crosses its limit.
    method Match(t: Taker, qty: Quantity) returns (left: Quantity, rep: ExecReport)
      requires Valid()
      modifies pool, index`count, index`bound, index.table, ring, ring.buffer, this`nextSeq, this`book
      modifies bids`levels, bids`overflow, bids`occupied, bids`bestIdx, bids.window
      modifies asks`levels, asks`overflow, asks`occupied, asks`bestIdx, asks.window
      ensures Valid()
      ensures Matching(book, left, rep) == Market.Match(t, policy, Matching(old(book), qty, EMPTY_REPORT))
      ensures pool.growths == old(pool.growths) && |pool.slots| == |old(pool.slots)|
      ensures ring.popped == old(ring.popped)
    {
      hide Core, WellFormed, Market.Match, Done, Settled;
      left, rep := qty, EMPTY_REPORT;
      var ladder := if t.side.Buy? then asks else bids;
      var stpPossible := policy != Allow && t.owner != ANONYMOUS;
      var more := true;
      while left > 0 && more
        invariant Valid()
        invariant Market.Match(t, policy, Matching(book, left, rep))
                  == Market.Match(t, policy, Matching(old(book), qty, EMPTY_REPORT))
        invariant if more then !rep.stpHalted else Done(t, Matching(book, left, rep))
        invariant pool.growths == old(pool.growths) && |pool.slots| == |old(pool.slots)|
        invariant ring.popped == old(ring.popped)
        decreases |book.resting|, left, more
      {
        left, rep, more := MatchBest(t, ladder, stpPossible, left, rep);
      }
      NoneLeftIsDone(t, Matching(book, left, rep));
      MatchEnds(t, policy, Matching(book, left, rep));
    }

    // Resting -------------------------------------------------------------------------------

    method OpenLevel(ladder: PriceLadder, price: Price)
      requires Core() && (ladder == bids || ladder == asks) && Settled(ladder.levels) && ladder.isPlaced
      modifies ladder`levels, ladder`overflow, ladder`occupied, ladder`bestIdx
      ensures Core() && price in ladder.levels && SettledExcept(ladder.levels, price)
      ensures forall p :: p in old(ladder.levels) ==> p in ladder.levels && ladder.levels[p] == old(ladder.levels)[p]
    {
      hide SideRep, IndexAgrees;
      hide SlotPool.Valid, IdIndex.Valid, TradeRing.Valid, PriceLadder.Valid;
      if price !in ladder.levels {
        OpenedLevel(book.resting, ladder.side, ladder.levels, pool.slots, index.bound, price);
      }
      ladder.Open(price);
    }

    // A slot for one more order: below 2^31 exactly while fewer than 2^31 rest.
    method NewSlot() returns (slot: nat)
      requires pool.Valid() && pool.used <= MAX_ORDERS
      modifies pool
      ensures pool.Valid() && slot !in old(pool.held) && pool.held == old(pool.held) + {slot}
      ensures slot < |pool.slots| && |old(pool.slots)| <= |pool.slots|
      ensures forall j :: 0 <= j < |old(pool.slots)| && j != slot ==> pool.slots[j] == old(pool.slots)[j]
      ensures slot < MAX_ORDERS <==> |old(pool.held)| < MAX_ORDERS
      ensures slot < MAX_ORDERS ==> pool.used <= MAX_ORDERS
      ensures pool.growths == old(pool.growths) + if |old(pool.held)| == |old(pool.slots)| then 1 else 0
      ensures |old(pool.held)| < |old(pool.slots)| ==> |pool.slots| == |old(pool.slots)|
    {
      hide SlotPool.Valid;
      PoolSizes(pool);
      slot := pool.Acquire();
    }

    // The slots after one more was acquired.
    ghost predicate OneMore(slots: seq<Slot>, held: set<nat>, slot: nat)
      reads pool
    {
      && slot !in held && pool.held == held + {slot} && slot < |pool.slots| && |slots| <= |pool.slots|
      && forall j :: 0 <= j < |slots| && j != slot ==> pool.slots[j] == slots[j]
    }

    // Puts an order at the end of the queue of its level, in a slot just acquired.
    method Enqueue(
      ladder: PriceLadder, value: RestingOrder, slot: nat, ghost o: Order, ghost slots: seq<Slot>, ghost held: set<nat>)
      returns (ghost level': PriceLevel)
      requires value == StoredOrder(o)
      requires pool.Valid() && ladder.Valid() && OneMore(slots, held, slot)
      requires o.price in ladder.levels && Ends(ladder.levels[o.price], SlotsAt(book.resting, index.bound, o))
      requires var q := SlotsAt(book.resting, index.bound, o);
               Linked(slots, q) && Distinct(q) && forall x :: x in q ==> x in held && x < |slots|
      modifies pool`slots, ladder`levels, ladder`overflow, ladder.window
      ensures pool.Valid() && ladder.Valid() && |pool.slots| == |old(pool.slots)|
      ensures Joined(book.resting, index.bound, slots, held, o, slot, pool.slots)
      ensures ladder.levels == old(ladder.levels)[o.price := level']
      ensures Ends(level', SlotsAt(book.resting, index.bound, o) + [slot]) && !level'.Empty()
      ensures level'.total == old(ladder.levels)[o.price].total + o.qty
    {
      hide Linked, Distinct, Ends, SlotsAt, Joined, PriceLadder.Valid, SlotPool.Valid;
      ghost var q := SlotsAt(book.resting, index.bound, o);
      pool.Write(slot, pool.slots[slot].(value := value));
      LinksFrame(slots, pool.slots, q);
      level' := Append(ladder, value.price, slot, q);
      EndsInSlot(pool.slots, q, slot, level');
      JoinMade(book.resting, index.bound, slots, held, o, slot, pool.slots);
    }

    // Puts an order in its queue and in the index, in a slot just acquired.
    method Join(
      ladder: PriceLadder, value: RestingOrder, side: Side, slot: nat,
      ghost o: Order, ghost slots: seq<Slot>, ghost held: set<nat>)
      requires value == StoredOrder(o) && side == o.side && slot < MAX_ORDERS
      requires Parts() && Rep(book.resting, index.bound, slots, held, bids.levels, asks.levels)
      requires nextSeq == book.nextSeq && ring.offered == book.log && pool.used <= MAX_ORDERS
      requires OneMore(slots, held, slot) && o.id !in index.bound
      requires ladder == LadderOf(o.side) && o.price in ladder.levels
      requires forall i :: 0 <= i < |book.resting| ==> book.resting[i].arrival < o.arrival
      modifies pool`slots, index, index.table, this`book, ladder`levels, ladder`overflow, ladder.window
      ensures Core() && (index.table == old(index.table) || fresh(index.table))
      ensures book == old(book).(resting := old(book.resting) + [o], nextArrival := o.arrival + 1)
      ensures o.price in ladder.levels && ladder.levels == old(ladder.levels)[o.price := ladder.levels[o.price]]
      ensures !ladder.levels[o.price].Empty() && |pool.slots| == |old(pool.slots)|
      ensures index.growths
              == old(index.growths) + if (|old(index.bound)| + 1) * 2 > old(index.table.Length) then 1 else 0
      ensures index.table.Length >= old(index.table.Length)
    {
      hide Rep, Linked, Distinct, Ends, SlotsAt, Joined, IndexValue;
      hide PriceLadder.Valid, SlotPool.Valid, IdIndex.Valid, TradeRing.Valid;
      ghost var resting, idx, bids0, asks0 := book.resting, index.bound, bids.levels, asks.levels;
      IndexSize(index);
      ReadyToJoin(resting, idx, slots, held, bids0, asks0, o);
      ghost var level' := Enqueue(ladder, value, slot, o, slots, held);
      index.Insert(value.id, IndexValue(slot, side));
      RepAppended(resting, idx, slots, held, bids0, asks0, o, slot, pool.slots, level', bids.levels, asks.levels);
      book := book.(resting := resting + [o], nextArrival := o.arrival + 1);
    }

    // Puts an order that is not live in its queue and in the index. The source throws
    // length_error instead when the new slot would not fit an index entry: exactly when 2^31
    // orders rest already.
    method AddOrder(ladder: PriceLadder, value: RestingOrder, side: Side, ghost o: Order) returns (ok: bool)
      requires value == StoredOrder(o) && side == o.side
      requires Core() && ladder == LadderOf(o.side) && o.price in ladder.levels
      requires Find(book.resting, o.id).None?
      requires o.arrival == book.nextArrival
      requires forall i :: 0 <= i < |book.resting| ==> book.resting[i].arrival < o.arrival
      modifies pool, index, index.table, this`book
      modifies bids`levels, bids`overflow, bids.window, asks`levels, asks`overflow, asks.window
      ensures ok <==> |old(book.resting)| < MAX_ORDERS
      ensures ok ==> Core() && (index.table == old(index.table) || fresh(index.table))
      ensures ok ==> book == old(book).(resting := old(book.resting) + [o], nextArrival := o.arrival + 1)
      ensures ok ==> o.price in ladder.levels && ladder.levels == old(ladder.levels)[o.price := ladder.levels[o.price]]
                     && !ladder.levels[o.price].Empty()
      ensures ok ==> LadderOf(Opposite(ladder.side)).levels == old(LadderOf(Opposite(ladder.side)).levels)
      ensures ok ==> Grown(|old(book.resting)|, old(pool.growths), old(|pool.slots|), old(index.growths),
                  old(index.table.Length))
    {
      hide Rep, PriceLadder.Valid, SlotPool.Valid, IdIndex.Valid, TradeRing.Valid, Find;
      ghost var slots, held := pool.slots, pool.held;
      RepSizes(book.resting, index.bound, slots, held, bids.levels, asks.levels, o.id);
      var slot := NewSlot();
      if slot >= MAX_ORDERS {
        return false;
      }
      Join(ladder, value, side, slot, o, slots, held);
      ok := true;
    }

    // The pool and the index grow exactly when one more order does not fit them.
    ghost predicate Grown(resting: nat, poolGrowths: nat, slots: nat, indexGrowths: nat, table: nat)
      reads pool, index
    {
      && pool.growths == poolGrowths + (if resting == slots then 1 else 0)
      && slots <= |pool.slots| && (resting < slots ==> |pool.slots| == slots)
      && index.growths == indexGrowths + (if (resting + 1) * 2 > table then 1 else 0)
      && table <= index.table.Length
    }

    // Rests what is left of a limit order, placing the windows if nothing ever rested.
    method Insert(t: Taker, qty: Quantity) returns (ok: bool)
      requires Valid() && t.limit.Some? && Find(book.resting, t.id).None?
      modifies Repr()
      ensures ok <==> |old(book.resting)| < MAX_ORDERS
      ensures ok ==> Core() && Settled(bids.levels) && Settled(asks.levels) && fresh(Repr() - old(Repr()))
      ensures ok ==> book == old(book).(
                resting := old(book.resting) +
                           [Order(t.id, t.owner, t.limit.value, qty, t.side, old(book.nextArrival))],
                nextArrival := old(book.nextArrival) + 1)
      ensures ok ==> Grown(|old(book.resting)|, old(pool.growths), old(|pool.slots|), old(index.growths),
                  old(index.table.Length))
      ensures ring.popped == old(ring.popped)
    {
      hide Rep, WellFormed, Settled, SettledExcept, Find, Grown;
      hide PriceLadder.Valid, SlotPool.Valid, IdIndex.Valid, TradeRing.Valid;
      var price := t.limit.value;
      ArrivedBefore(book);
      if !bids.isPlaced {
        PlaceWindows(price);
      }
      var ladder := if t.side.Buy? then bids else asks;
      OpenLevel(ladder, price);
      ghost var readied := ladder.levels;
      ok := AddOrder(ladder, RestingOrder(t.id, price, qty, t.owner), t.side,
                     Order(t.id, t.owner, price, qty, t.side, book.nextArrival));
      if ok {
        SettledAfterAdd(readied, price, ladder.levels);
      }
    }

    // Adding and cancelling -----------------------------------------------------------------

    // Matches an order, then rests what a limit order has left over.
    method Submit(t: Taker, qty: Quantity) returns (r: Outcome)
      requires Valid()
      modifies Repr()
      ensures r.LengthError? <==> |Market.Submit(old(book), policy, t, qty).0.resting| > MAX_ORDERS
      ensures r.Reported? ==> Valid() && fresh(Repr() - old(Repr()))
      ensures r.Reported? ==> (book, r.rep) == Market.Submit(old(book), policy, t, qty)
      ensures r.Reported? ==> Provisioned(old(pool.growths), old(|pool.slots|), old(index.growths),
                  old(index.table.Length))
      ensures ring.popped == old(ring.popped)
    {
      hide Core, CoreWith, Parts, WellFormed, Settled, Find, Market.Match, Market.Submit;
      hide PriceLadder.Valid, SlotPool.Valid, IdIndex.Valid, TradeRing.Valid;
      FindIsLookup(t.id);
      SubmitIs(book, policy, t, qty);
      var live := index.Find(t.id);
      if qty == 0 || live.Some? {
        RestingBounded();
        return Reported(Rejected(qty));
      }
      SubmitKeeps(book, policy, t, qty);
      ghost var s := Matching(book, qty, EMPTY_REPORT);
      StillAbsent(t, policy, s);
      var left, rep := Match(t, qty);
      rep := rep.(remaining := left);
      RestingBounded();
      if t.limit.Some? && left > 0 && !rep.stpHalted {
        var ok := Insert(t, left);
        if !ok {
          return LengthError;
        }
        rep := rep.(rested := true);
      }
      r := Reported(rep);
    }

    // The index knows exactly the orders that rest.
    lemma FindIsLookup(id: OrderId)
      requires Core()
      ensures index.Valid() && (Find(book.resting, id).Some? <==> id in index.bound)
    {
      RepSizes(book.resting, index.bound, pool.slots, pool.held, bids.levels, asks.levels, id);
    }

    lemma RestingBounded()
      requires Core()
      ensures |book.resting| == |pool.held| == |index.bound| <= MAX_ORDERS
    {
      RepSizes(book.resting, index.bound, pool.slots, pool.held, bids.levels, asks.levels, 0);
      PoolSizes(pool);
    }

    // No growth while the resting orders fit what was provisioned.
    ghost predicate Provisioned(poolGrowths: nat, slots: nat, indexGrowths: nat, table: nat)
      reads this, pool, index
    {
      && slots <= |pool.slots| && table <= index.table.Length
      && (|book.resting| <= slots ==> pool.growths == poolGrowths && |pool.slots| == slots)
      && (2 * |book.resting| <= table ==> index.growths == indexGrowths)
    }

    // The book did what the reference semantics do for op, or threw where it had no room.
    ghost predicate Performed(before: Book, op: Op, r: Outcome)
      reads Repr()
    {
      && (r.LengthError? <==> |Apply(before, policy, op).0.resting| > MAX_ORDERS)
      && (r.Reported? ==> Valid() && (book, r.rep) == Apply(before, policy, op))
    }

    method AddLimit(id: OrderId, owner: ParticipantId, side: Side, price: Price, qty: Quantity) returns (r: Outcome)
      requires Valid()
      modifies Repr()
      ensures Performed(old(book), Op.AddLimit(id, owner, side, price, qty), r)
      ensures r.Reported? ==> fresh(Repr() - old(Repr()))
      ensures r.Reported? ==> Provisioned(old(pool.growths), old(|pool.slots|), old(index.growths),
                  old(index.table.Length))
      ensures ring.popped == old(ring.popped)
    {
      hide Core, WellFormed, Settled, Market.Submit, Provisioned;
      r := Submit(Taker(id, owner, side, Some(price)), qty);
    }

    method AddMarket(id: OrderId, owner: ParticipantId, side: Side, qty: Quantity) returns (r: Outcome)
      requires Valid()
      modifies Repr()
      ensures Performed(old(book), Op.AddMarket(id, owner, side, qty), r)
      ensures r.Reported? ==> fresh(Repr() - old(Repr()))
      ensures r.Reported? ==> Provisioned(old(pool.growths), old(|pool.slots|), old(index.growths),
                  old(index.table.Length))
      ensures ring.popped == old(ring.popped)
    {
      hide Core, WellFormed, Settled, Market.Submit, Provisioned;
      r := Submit(Taker(id, owner, side, None), qty);
    }

    // Unlinks the order in a slot, and closes its level if it was the last one there.
    method Remove(ladder: PriceLadder, slot: nat, ghost idx: map<nat, nat>, ghost m: nat)
      requires CoreWith(idx) && m < |book.resting| && index.bound == idx - {book.resting[m].id as nat}
      requires ladder == LadderOf(book.resting[m].side) && slot == SlotFor(idx, book.resting[m].id)
      requires Settled(ladder.levels)
      modifies pool, this`book
      modifies ladder`levels, ladder`overflow, ladder`occupied, ladder`bestIdx, ladder.window
      ensures Core() && book == old(book).(resting := RemoveAt(old(book.resting), m)) && Settled(ladder.levels)
      ensures pool.growths == old(pool.growths) && |pool.slots| == |old(pool.slots)|
    {
      hide Rep, RemoveAt, SlotFor, Settled, SettledExcept;
      hide PriceLadder.Valid, SlotPool.Valid, IdIndex.Valid, TradeRing.Valid;
      SlotHolds(idx, m);
      SettledAt(ladder.levels, book.resting[m].price);
      var price := pool.slots[slot].value.price;
      var found := ladder.Find(price);
      assert found.Some?;
      ghost var before := ladder.levels;
      Unqueue(ladder, price, slot, idx, m);
      SettledButOne(before, price, ladder.levels);
      var level := ladder.Load(price);
      if level.Empty() {
        CloseLevel(ladder, price);
      }
    }

    lemma SlotHolds(idx: map<nat, nat>, m: nat)
      requires CoreWith(idx) && m < |book.resting|
      ensures var o := book.resting[m];
              && o.id in idx && SideOf(idx[o.id]) == o.side && SlotOf(idx[o.id]) == SlotFor(idx, o.id) < |pool.slots|
              && pool.slots[SlotFor(idx, o.id)].value == StoredOrder(o)
              && o.price in LadderOf(o.side).levels
    {
      ReadyToCut(book.resting, idx, pool.slots, pool.held, bids.levels, asks.levels, m);
      EntrySide(book.resting, idx, pool.slots, pool.held, bids.levels, asks.levels, m);
    }

    method Cancel(id: OrderId) returns (live: bool)
      requires Valid()
      modifies pool, index`count, index`bound, index.table, this`book
      modifies bids`levels, bids`overflow, bids`occupied, bids`bestIdx, bids.window
      modifies asks`levels, asks`overflow, asks`occupied, asks`bestIdx, asks.window
      ensures Valid() && (book, live) == CancelOrder(old(book), id)
      ensures pool.growths == old(pool.growths) && |pool.slots| == |old(pool.slots)|
    {
      hide Rep, RemoveAt, SlotFor, WellFormed, Settled, Find, SlotOf, SideOf;
      hide PriceLadder.Valid, SlotPool.Valid, IdIndex.Valid, TradeRing.Valid;
      FindIsLookup(id);
      CancelKeeps(book, id);
      ghost var idx := index.bound;
      ghost var m := Find(book.resting, id);
      if m.Some? {
        SlotHolds(idx, m.value);
      }
      var entry := index.Take(id);
      if entry.None? {
        assert index.bound == idx;
        return false;
      }
      if SideOf(entry.value) == Buy {
        Remove(bids, SlotOf(entry.value), idx, m.value);
      } else {
        Remove(asks, SlotOf(entry.value), idx, m.value);
      }
      live := true;
    }

    method Modify(id: OrderId, price: Price, qty: Quantity) returns (r: Outcome)
      requires Valid()
      modifies Repr()
      ensures Performed(old(book), Op.Modify(id, price, qty), r) && r.Reported?
      ensures fresh(Repr() - old(Repr()))
      ensures Provisioned(old(pool.growths), old(|pool.slots|), old(index.growths), old(index.table.Length))
      ensures ring.popped == old(ring.popped)
    {
      hide Rep, RemoveAt, SlotFor, WellFormed, Settled, Find, SlotOf, SideOf, Market.Submit;
      hide PriceLadder.Valid, SlotPool.Valid, IdIndex.Valid, TradeRing.Valid;
      FindIsLookup(id);
      RestingBounded();
      ghost var m := Find(book.resting, id);
      var entry := index.Find(id);
      if entry.None? {
        return Reported(Rejected(qty));
      }
      SlotHolds(index.bound, m.value);
      var side := SideOf(entry.value);
      var owner := pool.slots[SlotOf(entry.value)].value.owner;
      CancelKeeps(book, id);
      var _ := Cancel(id);
      if qty == 0 {
        return Reported(EMPTY_REPORT);
      }
      SubmitKeeps(book, policy, Taker(id, owner, side, Some(price)), qty);
      r := AddLimit(id, owner, side, price, qty);
    }

    // Reading -------------------------------------------------------------------------------

    // The orders at one price, from the head of their queue.
    method VisitLevel(ladder: PriceLadder, price: Price) returns (orders: seq<OrderView>)
      requires Core() && (ladder == bids || ladder == asks) && price in ladder.levels
      ensures orders == Views(Queue(book.resting, ladder.side, price))
    {
      hide SideRep, IndexAgrees, Queue, SlotSeq, Linked;
      hide SlotPool.Valid, IdIndex.Valid, TradeRing.Valid, PriceLadder.Valid;
      ghost var resting, idx, side := book.resting, index.bound, ladder.side;
      ghost var q := Queue(resting, side, price);
      orders := [];
      ghost var k := 0;
      var level := ladder.Load(price);
      WalkStarts(resting, idx, pool.slots, side, ladder.levels, price);
      var i := level.head;
      while i != NO_SLOT
        invariant 0 <= k <= |q| && orders == Views(q[..k])
        invariant i == Neighbour(SlotSeq(idx, q), k)
        decreases |q| - k
      {
        WalkNext(resting, idx, pool.slots, pool.held, side, ladder.levels, price, k);
        var r := pool.slots[i].value;
        orders := orders + [OrderView(r.id, r.owner, r.price, r.qty, ladder.side)];
        i := pool.slots[i].next;
        assert q[..k + 1] == q[..k] + [q[k]];
        k := k + 1;
      }
      WalkEnds(resting, idx, pool.slots, side, ladder.levels, price, k);
      assert q[..k] == q;
    }

    method VisitSide(ladder: PriceLadder) returns (orders: seq<OrderView>, ghost prices: seq<Price>)
      requires Core() && (ladder == bids || ladder == asks) && Settled(ladder.levels)
      ensures BestFirst(ladder.side, prices) && forall p :: p in prices <==> p in ladder.levels
      ensures orders == Views(Flatten(book.resting, ladder.side, prices))
    {
      hide Rep, Queue, BestFirst;
      hide SlotPool.Valid, IdIndex.Valid, TradeRing.Valid, PriceLadder.Valid;
      var visited := ladder.ForEachLevel();
      prices := visited;
      orders := [];
      var k := 0;
      while k < |visited|
        invariant 0 <= k <= |visited|
        invariant orders == Views(Flatten(book.resting, ladder.side, visited[..k]))
      {
        assert visited[k] in visited;
        var more := VisitLevel(ladder, visited[k]);
        assert visited[..k + 1][..k] == visited[..k];
        orders := orders + more;
        k := k + 1;
      }
      assert visited[..k] == visited;
    }

    // Every resting order in book order: the snapshot the reference book sorts.
    method ForEachResting() returns (orders: seq<OrderView>)
      requires Valid()
      ensures orders == Views(Sort(book.resting))
    {
      hide IndexAgrees, Queue, BestFirst, Sort, Flatten, Settled, SideRep;
      hide SlotPool.Valid, IdIndex.Valid, TradeRing.Valid, PriceLadder.Valid;
      var b, bidPrices := VisitSide(bids);
      var a, askPrices := VisitSide(asks);
      QueuesListed(book.resting, Buy, bids.levels, pool.slots, index.bound, bidPrices);
      QueuesListed(book.resting, Sell, asks.levels, pool.slots, index.bound, askPrices);
      LevelsAreSorted(book.resting, bidPrices, askPrices);
      orders := b + a;
    }

    method PopTrade() returns (t: Option<Trade>)
      requires Valid()
      modifies ring`tail, ring`contents, ring`popped
      ensures Valid()
      ensures t == if old(ring.contents) == [] then None else Some(old(ring.contents)[0])
      ensures ring.contents == if t.None? then [] else old(ring.contents)[1..]
      ensures ring.popped == if t.None? then old(ring.popped) else old(ring.popped) + [t.value]
    {
      hide Rep, WellFormed, Settled;
      hide SlotPool.Valid, IdIndex.Valid, TradeRing.Valid, PriceLadder.Valid;
      t := ring.Pop();
    }

    // Drains the ring, oldest trade first.
    method DrainTrades() returns (trades: seq<Trade>)
      requires Valid()
      modifies ring`tail, ring`contents, ring`popped
      ensures Valid() && ring.contents == [] && trades == old(ring.contents)
      ensures ring.popped == old(ring.popped) + trades
    {
      hide *;
      ghost var all, popped := ring.contents, ring.popped;
      trades := [];
      var t := PopTrade();
      while t.Some?
        invariant Valid()
        invariant if t.Some? then trades + [t.value] + ring.contents == all else trades == all && ring.contents == []
        invariant ring.popped == popped + trades + if t.Some? then [t.value] else []
        decreases |ring.contents|, t.Some?
      {
        trades := trades + [t.value];
        t := PopTrade();
      }
    }

    lemma RingHoldsLog()
      requires Valid() && ring.popped == []
      ensures ring.contents == book.log[..Min(|book.log|, ring.buffer.Length)]
    {
    }

    // The trades drained so far, and then those still buffered, are the whole log exactly when
    // no drop was counted.
    lemma DrainedIsLog()
      requires Valid()
      ensures ring.dropCount == 0 <==> ring.popped + ring.contents == book.log
    {
      NothingLost(ring.contents, ring.offered, ring.popped, ring.kept, ring.dropCount);
    }

    // The invariant checks ----------------------------------------------------------------

    // The checks of one level: its queue's links, prices, quantities, index entries and totals.
    method CheckLevel(ladder: PriceLadder, price: Price) returns (ok: bool, inQueue: nat)
      requires Valid() && (ladder == bids || ladder == asks) && price in ladder.levels
      ensures ok && inQueue == |Queue(book.resting, ladder.side, price)|
    {
      hide SideRep, IndexAgrees, Queue, SlotSeq, Linked, Settled, SlotOf, SideOf, Total;
      hide SlotPool.Valid, IdIndex.Valid, TradeRing.Valid, PriceLadder.Valid;
      ghost var resting, idx, side := book.resting, index.bound, ladder.side;
      ghost var q := Queue(resting, side, price);
      var level := ladder.Load(price);
      SettledAt(ladder.levels, price);
      WalkStarts(resting, idx, pool.slots, side, ladder.levels, price);
      ok := !level.Empty();
      var sum, prev, i: nat := 0, NO_SLOT, level.head;
      inQueue := 0;
      TotalOfNone(q);
      while i != NO_SLOT
        invariant 0 <= inQueue <= |q| && ok
        invariant i == Neighbour(SlotSeq(idx, q), inQueue) && prev == Neighbour(SlotSeq(idx, q), inQueue - 1)
        invariant sum == Total(q[..inQueue])
        decreases |q| - inQueue
      {
        WalkNext(resting, idx, pool.slots, pool.held, side, ladder.levels, price, inQueue);
        PositiveIn(book, q[inQueue]);
        var o := pool.slots[i].value;
        var indexed := index.Find(o.id);
        ok := ok && pool.slots[i].prev == prev && o.price == price && o.qty > 0
              && indexed.Some? && SlotOf(indexed.value) == i && SideOf(indexed.value) == ladder.side;
        sum := sum + o.qty;
        TotalOfMore(q[..inQueue], q[inQueue]);
        assert q[..inQueue + 1] == q[..inQueue] + [q[inQueue]];
        inQueue := inQueue + 1;
        prev := i;
        i := pool.slots[i].next;
      }
      WalkEnds(resting, idx, pool.slots, side, ladder.levels, price, inQueue);
      WalkTotals(resting, idx, pool.slots, side, ladder.levels, price);
      assert q[..inQueue] == q;
      ok := ok && prev == level.tail && sum == level.total && level.total > 0;
    }

    method CheckSide(ladder: PriceLadder) returns (ok: bool, counted: nat, ghost prices: seq<Price>)
      requires Valid() && (ladder == bids || ladder == asks)
      ensures ok && counted == |Flatten(book.resting, ladder.side, prices)|
      ensures BestFirst(ladder.side, prices) && forall p :: p in prices <==> p in ladder.levels
    {
      hide Rep, Queue, BestFirst, Settled, WellFormed;
      hide SlotPool.Valid, IdIndex.Valid, TradeRing.Valid, PriceLadder.Valid;
      ok := ladder.Check();
      var visited := ladder.ForEachLevel();
      prices := visited;
      counted := 0;
      var k := 0;
      while k < |visited|
        invariant 0 <= k <= |visited| && ok
        invariant counted == |Flatten(book.resting, ladder.side, visited[..k])|
      {
        assert visited[k] in visited;
        var good, inQueue := CheckLevel(ladder, visited[k]);
        assert visited[..k + 1][..k] == visited[..k];
        ok := ok && good;
        counted := counted + inQueue;
        k := k + 1;
      }
      assert visited[..k] == visited;
    }

    // Everything the source asserts after each operation: never false on a valid book.
    method CheckInvariants() returns (ok: bool)
      requires Valid()
      ensures ok
    {
      hide IndexAgrees, Queue, BestFirst, Sort, Flatten, Settled, SideRep, WellFormed;
      hide SlotPool.Valid, IdIndex.Valid, TradeRing.Valid, PriceLadder.Valid;
      var bidsOk, bidCount, bidPrices := CheckSide(bids);
      var asksOk, askCount, askPrices := CheckSide(asks);
      AllCounted(bidPrices, askPrices);
      RestingBounded();
      PoolSizes(pool);
      pool.ValidIsConsistent();
      ValidIndex(index);
      var poolOk := pool.Consistent();
      var indexOk := index.Consistent();
      var bid := bids.Best();
      var ask := asks.Best();
      var uncrossed := bid.None? || ask.None? || bid.value < ask.value;
      BestsUncrossed(bid, ask);
      ok := bidsOk && asksOk && bidCount + askCount == index.count && pool.live == bidCount + askCount
            && poolOk && indexOk && uncrossed;
    }

    lemma AllCounted(bidPrices: seq<Price>, askPrices: seq<Price>)
      requires Valid() && BestFirst(Buy, bidPrices) && BestFirst(Sell, askPrices)
      requires forall p :: p in bidPrices <==> p in bids.levels
      requires forall p :: p in askPrices <==> p in asks.levels
      ensures |Flatten(book.resting, Buy, bidPrices)| + |Flatten(book.resting, Sell, askPrices)| == |book.resting|
    {
      hide SideRep, Queue, BestFirst, Sort, Flatten, Settled, Entries, OnlyLive, ByArrival, DistinctIds;
      QueuesListed(book.resting, Buy, bids.levels, pool.slots, index.bound, bidPrices);
      QueuesListed(book.resting, Sell, asks.levels, pool.slots, index.bound, askPrices);
      LevelsAreSorted(book.resting, bidPrices, askPrices);
      SortLength(book.resting);
    }

    // The best bid is strictly below the best ask.
    lemma BestsUncrossed(bid: Option<Price>, ask: Option<Price>)
      requires Valid()
      requires bid.Some? ==> BestOf(Buy, bids.levels.Keys, bid.value)
      requires ask.Some? ==> BestOf(Sell, asks.levels.Keys, ask.value)
      ensures bid.Some? && ask.Some? ==> bid.value < ask.value
    {
      hide SideRep, IndexAgrees, Queue, WellFormed, Settled;
      if bid.Some? && ask.Some? {
        var i := OrderAt(book.resting, Buy, bids.levels, pool.slots, index.bound, bid.value);
        var j := OrderAt(book.resting, Sell, asks.levels, pool.slots, index.bound, ask.value);
        UncrossedAt(book, i, j);
      }
    }
  }

  // The pool's contents after a detach, as the change to the book it amounts to.
  lemma CutMade(
    resting: seq<Order>, idx: map<nat, nat>, slots: seq<Slot>, held: set<nat>, m: nat, slots': seq<Slot>,
    level: PriceLevel, level': PriceLevel)
    requires m < |resting| && Place(resting, m) < |SlotsAt(resting, idx, resting[m])|
    requires |slots'| == |slots|
    requires Linked(slots', RemoveAt(SlotsAt(resting, idx, resting[m]), Place(resting, m)))
    requires forall j :: 0 <= j < |slots| && j !in SlotsAt(resting, idx, resting[m]) ==> slots'[j] == slots[j]
    requires forall j :: 0 <= j < |slots| && j != SlotFor(idx, resting[m].id) ==> slots'[j].value == slots[j].value
    requires Ends(level', RemoveAt(SlotsAt(resting, idx, resting[m]), Place(resting, m)))
    requires level'.total == level.total - resting[m].qty
    ensures Cut(resting, idx, slots, held, m, slots') && CutLevel(resting, idx, m, level, level')
  {
  }

  // One state of a taker is strictly further on than another.
  ghost predicate Progress(before: Book, left0: nat, after: Book, left: nat) {
    || |after.resting| < |before.resting|
    || (|after.resting| == |before.resting| && left < left0)
  }

  lemma BestIsLevel(side: Side, levels: map<Price, PriceLevel>, best: Option<Price>)
    requires best.Some? ==> BestOf(side, levels.Keys, best.value)
    ensures best.Some? ==> best.value in levels
  {
  }

  lemma SettledBut(levels: map<Price, PriceLevel>, price: Price)
    requires SettledExcept(levels, price) && price in levels
    ensures !levels[price].Empty() ==> Settled(levels)
  {
  }

  lemma HaltedIsDone(t: Taker, s: Matching)
    ensures s.rep.stpHalted ==> Done(t, s)
  {
  }

  lemma NoneLeftIsDone(t: Taker, s: Matching)
    ensures s.left == 0 ==> Done(t, s)
  {
  }

  lemma RepSizes(
    resting: seq<Order>, idx: map<nat, nat>, slots: seq<Slot>, held: set<nat>,
    bids: map<Price, PriceLevel>, asks: map<Price, PriceLevel>, id: OrderId)
    requires Rep(resting, idx, slots, held, bids, asks)
    ensures |resting| == |held| == |idx|
    ensures Find(resting, id).None? <==> id !in idx
  {
    if Find(resting, id).Some? {
      assert EntryAt(resting[Find(resting, id).value], idx, slots, held);
    }
  }

  lemma PoolSizes(pool: SlotPool)
    requires pool.Valid()
    ensures |pool.held| == pool.live <= pool.used <= |pool.slots|
    ensures pool.live == pool.used ==> pool.free == []
    ensures forall x :: x in pool.held ==> x < pool.used
    ensures forall k :: 0 <= k < |pool.free| ==> pool.free[k] < pool.used
  {
  }

  lemma IndexSize(index: IdIndex)
    requires index.Valid()
    ensures index.count == |index.bound| && 0 < index.table.Length
  {
  }

  lemma EndsInSlot(slots: seq<Slot>, q: seq<nat>, slot: nat, level: PriceLevel)
    requires Linked(slots, q + [slot]) && Ends(level, q + [slot])
    ensures !level.Empty()
  {
    LastIsLinked(slots, q + [slot]);
  }

  lemma ArrivedBefore(b: Book)
    requires WellFormed(b)
    ensures forall i :: 0 <= i < |b.resting| ==> b.resting[i].arrival < b.nextArrival
  {
  }

  lemma SettledAfterAdd(readied: map<Price, PriceLevel>, price: Price, levels: map<Price, PriceLevel>)
    requires SettledExcept(readied, price) && price in levels && !levels[price].Empty()
    requires levels == readied[price := levels[price]]
    ensures Settled(levels)
  {
  }

  lemma SubmitIs(b: Book, policy: SelfTradePolicy, t: Taker, qty: Quantity)
    ensures Market.Submit(b, policy, t, qty) ==
            if qty == 0 || Find(b.resting, t.id).Some? then (b, Rejected(qty))
            else Rest(t, Market.Match(t, policy, Matching(b, qty, EMPTY_REPORT)))
  {
  }

  lemma StillAbsent(t: Taker, policy: SelfTradePolicy, s: Matching)
    requires WellFormed(s.book) && Find(s.book.resting, t.id).None?
    ensures Find(Market.Match(t, policy, s).book.resting, t.id).None?
  {
    MatchKeeps(t, policy, s);
    AbsentStaysAbsent(s.book.resting, Market.Match(t, policy, s).book.resting, t.id);
  }

  lemma SettledAt(levels: map<Price, PriceLevel>, price: Price)
    requires Settled(levels) && price in levels
    ensures !levels[price].Empty()
  {
  }

  lemma SettledButOne(before: map<Price, PriceLevel>, price: Price, levels: map<Price, PriceLevel>)
    requires Settled(before) && price in before && price in levels && levels == before[price := levels[price]]
    ensures SettledExcept(levels, price) && (!levels[price].Empty() ==> Settled(levels))
  {
  }

  lemma EntrySide(
    resting: seq<Order>, idx: map<nat, nat>, slots: seq<Slot>, held: set<nat>,
    bids: map<Price, PriceLevel>, asks: map<Price, PriceLevel>, m: nat)
    requires Rep(resting, idx, slots, held, bids, asks) && m < |resting|
    ensures resting[m].id in idx && SideOf(idx[resting[m].id]) == resting[m].side
    ensures SlotOf(idx[resting[m].id]) == SlotFor(idx, resting[m].id)
  {
    assert EntryAt(resting[m], idx, slots, held);
  }

  lemma WalkStarts(
    resting: seq<Order>, idx: map<nat, nat>, slots: seq<Slot>, side: Side, levels: map<Price, PriceLevel>, price: Price)
    requires SideRep(resting, side, levels, slots, idx) && price in levels
    ensures levels[price].head == Neighbour(SlotSeq(idx, Queue(resting, side, price)), 0)
  {
    hide Queue, Linked;
    assert LevelOk(resting, side, price, levels[price], slots, idx);
  }

  lemma WalkNext(
    resting: seq<Order>, idx: map<nat, nat>, slots: seq<Slot>, held: set<nat>,
    side: Side, levels: map<Price, PriceLevel>, price: Price, k: nat)
    requires IndexAgrees(resting, idx, slots, held) && SideRep(resting, side, levels, slots, idx) && price in levels
    requires Neighbour(SlotSeq(idx, Queue(resting, side, price)), k) != NO_SLOT
    ensures var q := Queue(resting, side, price);
            var i := Neighbour(SlotSeq(idx, q), k);
            && k < |q| && i < |slots| && slots[i].value == StoredOrder(q[k]) && At(q[k], side, price)
            && slots[i].prev == Neighbour(SlotSeq(idx, q), k - 1) && slots[i].next == Neighbour(SlotSeq(idx, q), k + 1)
            && q[k] in resting
            && q[k].id in idx && SlotOf(idx[q[k].id]) == i && SideOf(idx[q[k].id]) == side
  {
    hide Queue, Linked, IndexAgrees, SlotOf, SideOf;
    assert LevelOk(resting, side, price, levels[price], slots, idx);
    QueueSlot(resting, idx, slots, held, side, price, k);
    QueueEntry(resting, idx, slots, held, side, price, k);
    NeighboursLinked(slots, SlotSeq(idx, Queue(resting, side, price)), k);
    var j := QueueOrder(resting, side, price, k);
  }

  lemma QueueEntry(
    resting: seq<Order>, idx: map<nat, nat>, slots: seq<Slot>, held: set<nat>, side: Side, price: Price, k: nat)
    requires IndexAgrees(resting, idx, slots, held) && k < |Queue(resting, side, price)|
    ensures var id := Queue(resting, side, price)[k].id;
            id in idx && SideOf(idx[id]) == side && SlotOf(idx[id]) == SlotFor(idx, id)
  {
    hide Queue;
    var i := QueueOrder(resting, side, price, k);
    assert EntryAt(resting[i], idx, slots, held);
  }

  // At the end of a walk of a level, what was seen last and what was added up.
  lemma WalkTotals(
    resting: seq<Order>, idx: map<nat, nat>, slots: seq<Slot>, side: Side, levels: map<Price, PriceLevel>, price: Price)
    requires SideRep(resting, side, levels, slots, idx) && price in levels
    requires forall i :: 0 <= i < |resting| ==> resting[i].qty > 0
    ensures var q := Queue(resting, side, price);
            && levels[price].tail == Neighbour(SlotSeq(idx, q), |q| - 1)
            && levels[price].total == Total(q)
            && (q != [] ==> Total(q) > 0)
  {
    hide Queue, Linked;
    var q := Queue(resting, side, price);
    assert LevelOk(resting, side, price, levels[price], slots, idx);
    QueueMembers(resting, side, price);
    forall i | 0 <= i < |q| ensures q[i].qty > 0 {
      assert q[i] in q;
    }
    TotalBound(q);
  }

  lemma WalkEnds(
    resting: seq<Order>, idx: map<nat, nat>, slots: seq<Slot>, side: Side, levels: map<Price, PriceLevel>,
    price: Price, k: nat)
    requires SideRep(resting, side, levels, slots, idx) && price in levels
    requires k <= |Queue(resting, side, price)|
    requires Neighbour(SlotSeq(idx, Queue(resting, side, price)), k) == NO_SLOT
    ensures k == |Queue(resting, side, price)|
  {
    hide Queue, Linked;
    assert LevelOk(resting, side, price, levels[price], slots, idx);
    if k < |Queue(resting, side, price)| {
      NeighboursLinked(slots, SlotSeq(idx, Queue(resting, side, price)), k);
    }
  }

  lemma QueuesListed(
    resting: seq<Order>, side: Side, levels: map<Price, PriceLevel>, slots: seq<Slot>, idx: map<nat, nat>,
    prices: seq<Price>)
    requires SideRep(resting, side, levels, slots, idx) && forall p :: p in prices <==> p in levels
    ensures forall p: Price :: Queue(resting, side, p) != [] ==> p in prices
  {
  }

  lemma TotalOfNone(q: seq<Order>)
    ensures Total(q[..0]) == 0
  {
  }

  lemma PositiveIn(b: Book, o: Order)
    requires WellFormed(b)
    ensures o in b.resting ==> o.qty > 0
    ensures forall i :: 0 <= i < |b.resting| ==> b.resting[i].qty > 0
  {
  }

  lemma ValidIndex(index: IdIndex)
    requires index.Valid()
    ensures index.table.Length == Pow2(index.bits) && index.mask == Pow2(index.bits) - 1
    ensures Reachable(index.table[..], index.bits) && |Used(index.table[..])| == index.count == |index.bound|
  {
  }

  // Some order rests at the price of a settled level.
  lemma OrderAt(
    resting: seq<Order>, side: Side, levels: map<Price, PriceLevel>, slots: seq<Slot>, idx: map<nat, nat>, price: Price)
    returns (i: nat)
    requires SideRep(resting, side, levels, slots, idx) && price in levels && Settled(levels)
    ensures i < |resting| && resting[i].side == side && resting[i].price == price
  {
    hide Queue, LevelOk;
    assert LevelOk(resting, side, price, levels[price], slots, idx);
    EmptyLevel(resting, side, price, levels[price], slots, idx);
    i := QueueOrder(resting, side, price, 0);
  }

  lemma UncrossedAt(b: Book, i: nat, j: nat)
    requires WellFormed(b) && i < |b.resting| && j < |b.resting|
    requires b.resting[i].side == Buy && b.resting[j].side == Sell
    ensures b.resting[i].price < b.resting[j].price
  {
  }

  // What appending an order needs of the queue at its price.
  lemma ReadyToJoin(
    resting: seq<Order>, idx: map<nat, nat>, slots: seq<Slot>, held: set<nat>,
    bids: map<Price, PriceLevel>, asks: map<Price, PriceLevel>, o: Order)
    requires Rep(resting, idx, slots, held, bids, asks) && o.price in LevelsOf(o.side, bids, asks)
    ensures var q := SlotsAt(resting, idx, o);
            && Linked(slots, q) && Distinct(q) && (forall x :: x in q ==> x in held && x < |slots|)
            && Ends(LevelsOf(o.side, bids, asks)[o.price], q)
  {
    hide Queue, Linked, Distinct, DistinctIds, ByArrival, OnlyLive, Total, Entries;
    QueueSlotsDistinct(resting, idx, slots, held, o.side, o.price);
    assert LevelOk(resting, o.side, o.price, LevelsOf(o.side, bids, asks)[o.price], slots, idx);
  }

  // The pool's contents after an acquire and an append, as the change they amount to.
  lemma JoinMade(
    resting: seq<Order>, idx: map<nat, nat>, slots: seq<Slot>, held: set<nat>, o: Order, slot: nat, slots': seq<Slot>)
    requires |slots| <= |slots'| && slot < |slots'| && slot !in held
    requires slots'[slot].value == StoredOrder(o)
    requires Linked(slots', SlotsAt(resting, idx, o) + [slot])
    requires forall j :: 0 <= j < |slots| && j != slot && j !in SlotsAt(resting, idx, o) ==> slots'[j] == slots[j]
    requires forall j :: 0 <= j < |slots| && j != slot ==> slots'[j].value == slots[j].value
    ensures Joined(resting, idx, slots, held, o, slot, slots')
  {
  }

  // A fill removes the maker or uses up the taker.
  lemma FillProgress(t: Taker, s: Matching, m: nat)
    requires m < |s.book.resting| && s.left > 0
    ensures var s' := Fill(t, s, m);
            && s'.rep.stpHalted == s.rep.stpHalted
            && s'.left <= s.left
            && (|s'.book.resting| == |s.book.resting| - 1 || (|s'.book.resting| == |s.book.resting| && s'.left == 0))
  {
  }

  lemma EmptyRep(slots: seq<Slot>)
    ensures Rep([], map[], slots, {}, map[], map[])
  {
  }

  lemma EmptyBook()
    ensures WellFormed(EMPTY_BOOK) && Settled(map[])
  {
  }

  lemma HeldBounds(pool: SlotPool, slot: nat)
    requires pool.Valid() && slot in pool.held
    ensures slot < |pool.slots| && slot != NO_SLOT
  {
  }

  lemma NeighboursHeld(slots: seq<Slot>, q: seq<nat>, k: nat)
    requires Linked(slots, q) && Distinct(q) && k < |q|
    ensures q[k] < |slots|
    ensures k == 0 <==> slots[q[k]].prev == NO_SLOT
    ensures k == |q| - 1 <==> slots[q[k]].next == NO_SLOT
    ensures k > 0 ==> slots[q[k]].prev == q[k - 1] && q[k - 1] in q && q[k - 1] != q[k]
    ensures k < |q| - 1 ==> slots[q[k]].next == q[k + 1] && q[k + 1] in q && q[k + 1] != q[k]
  {
    NeighboursLinked(slots, q, k);
  }

  lemma FirstLast(q: seq<nat>)
    requires q != []
    ensures First(q) == q[0] && Last(q) == q[|q| - 1]
  {
  }
}
