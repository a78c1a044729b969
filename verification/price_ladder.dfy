// One side of the book: a flat window of price levels, with a sorted map for other prices.
module Ladder {
  import opened Types
  import opened Market
  import opened Links

  predicate InWindow(lo: nat, limit: nat, price: Price) {
    price >= lo && price - lo < limit
  }

  // Outside the window, on the side that beats every price inside it.
  predicate BeyondBestEdge(side: Side, lo: nat, limit: nat, price: Price) {
    if side.Buy? then price >= lo && price - lo >= limit else price < lo
  }

  // A window of levels prices centred on price, shifted to stay inside the price range.
  function CentredBase(price: Price, levels: nat): Price
    requires levels <= 0x1_0000_0000_0000_0000
  {
    if levels == 0 then price
    else
      var half := levels / 2;
      var highest := MAX_PRICE - (levels - 1);
      Min(if price >= half then price - half else 0, highest)
  }

  // How many prices a window placed at base covers: clipped at the largest price.
  function ClippedSpan(base: Price, capacity: nat): nat {
    var room := MAX_PRICE - base;
    if capacity == 0 || capacity - 1 <= room then capacity else room + 1
  }

  // A window centred on a price is never clipped, ends within the price range, and holds it:
  // half-way, unless it stands at an end of the range.
  lemma CentredWindow(price: Price, capacity: nat)
    requires 1 <= capacity <= 0x1_0000_0000_0000_0000
    ensures var base := CentredBase(price, capacity);
            && ClippedSpan(base, capacity) == capacity
            && base + capacity - 1 <= MAX_PRICE
            && InWindow(base, capacity, price)
            && (base == 0 || base + capacity - 1 == MAX_PRICE || price - base == capacity / 2)
  {
  }

  // A window placed anywhere stops at the largest price instead of wrapping round it.
  lemma ClippedWindow(base: Price, capacity: nat)
    ensures var span := ClippedSpan(base, capacity);
            && span <= capacity
            && (span > 0 ==> base + span - 1 <= MAX_PRICE)
            && (span < capacity ==> base + span - 1 == MAX_PRICE)
  {
  }

  ghost predicate BestOf(side: Side, keys: set<Price>, best: Price) {
    best in keys && forall q :: q in keys && q != best ==> Better(side, best, q)
  }

  lemma {:induction false} BestExists(side: Side, keys: set<Price>)
    requires keys != {}
    ensures exists best :: BestOf(side, keys, best)
    decreases keys
  {
    var p :| p in keys;
    if keys == {p} {
      assert BestOf(side, keys, p);
    } else {
      BestExists(side, keys - {p});
      assert forall q :: q in keys && q != p ==> q in keys - {p};
      var b :| BestOf(side, keys - {p}, b);
      if Better(side, p, b) {
        assert BestOf(side, keys, p);
      } else {
        assert BestOf(side, keys, b);
      }
    }
  }

  // Representation -------------------------------------------------------------------

  function WindowPrices(levels: map<Price, PriceLevel>, lo: nat, limit: nat): set<Price> {
    set p | p in levels && InWindow(lo, limit, p)
  }

  // Cell i of the window holds the level at its price, or nothing.
  ghost predicate CellFiled(levels: map<Price, PriceLevel>, lo: nat, limit: nat, i: nat, cell: PriceLevel) {
    if i < limit && lo + i <= MAX_PRICE && lo + i in levels then cell == levels[lo + i] else cell == NO_LEVEL
  }

  ghost predicate WindowFiled(levels: map<Price, PriceLevel>, lo: nat, limit: nat, win: seq<PriceLevel>) {
    && limit <= |win| && (limit > 0 ==> lo + limit - 1 <= MAX_PRICE)
    && forall i :: 0 <= i < |win| ==> CellFiled(levels, lo, limit, i, win[i])
  }

  ghost predicate OverflowFiled(levels: map<Price, PriceLevel>, lo: nat, limit: nat, overflow: map<Price, PriceLevel>) {
    && (forall p :: p in overflow <==> p in levels && !InWindow(lo, limit, p))
    && (forall p :: p in overflow ==> overflow[p] == levels[p])
  }

  ghost predicate BestTracked(
    side: Side, levels: map<Price, PriceLevel>, lo: nat, limit: nat, occupied: nat, bestIdx: nat)
  {
    && occupied == |WindowPrices(levels, lo, limit)|
    && (occupied > 0 ==> lo + bestIdx <= MAX_PRICE && BestOf(side, WindowPrices(levels, lo, limit), lo + bestIdx))
  }

  // The level at price is the only one allowed to be empty: the state between a ladder's
  // open and the book's append, and between the book's detach and a ladder's closed.
  ghost predicate SettledExcept(levels: map<Price, PriceLevel>, price: Price) {
    forall p :: p in levels && p != price ==> !levels[p].Empty()
  }

  ghost predicate Settled(levels: map<Price, PriceLevel>) {
    forall p :: p in levels ==> !levels[p].Empty()
  }

  // Opening -----------------------------------------------------------------------------

  lemma OpenedInWindow(
    side: Side, levels: map<Price, PriceLevel>, lo: nat, limit: nat, occupied: nat, bestIdx: nat, price: Price)
    requires BestTracked(side, levels, lo, limit, occupied, bestIdx)
    requires InWindow(lo, limit, price) && price !in levels
    ensures var i := price - lo;
            BestTracked(side, levels[price := NO_LEVEL], lo, limit, occupied + 1,
                        if occupied == 0 || (if side.Buy? then i > bestIdx else i < bestIdx) then i else bestIdx)
  {
    var levels' := levels[price := NO_LEVEL];
    assert WindowPrices(levels', lo, limit) == WindowPrices(levels, lo, limit) + {price};
  }

  lemma OutsideKeepsBest(
    side: Side, levels: map<Price, PriceLevel>, levels': map<Price, PriceLevel>,
    lo: nat, limit: nat, occupied: nat, bestIdx: nat, price: Price)
    requires BestTracked(side, levels, lo, limit, occupied, bestIdx)
    requires !InWindow(lo, limit, price)
    requires levels'.Keys == levels.Keys + {price} || levels'.Keys == levels.Keys - {price}
    ensures BestTracked(side, levels', lo, limit, occupied, bestIdx)
  {
    assert forall p :: p in levels' && InWindow(lo, limit, p) <==> p in levels && InWindow(lo, limit, p) by {
      assert forall p :: p in levels' <==> p in levels'.Keys;
      assert forall p :: p in levels <==> p in levels.Keys;
    }
    assert WindowPrices(levels', lo, limit) == WindowPrices(levels, lo, limit);
  }

  lemma StoredKeepsBest(
    side: Side, levels: map<Price, PriceLevel>, lo: nat, limit: nat, occupied: nat, bestIdx: nat,
    price: Price, level: PriceLevel)
    requires BestTracked(side, levels, lo, limit, occupied, bestIdx) && price in levels
    ensures BestTracked(side, levels[price := level], lo, limit, occupied, bestIdx)
  {
    assert WindowPrices(levels[price := level], lo, limit) == WindowPrices(levels, lo, limit);
  }

  // Closing -----------------------------------------------------------------------------

  lemma ClosedInWindow(
    side: Side, levels: map<Price, PriceLevel>, lo: nat, limit: nat, occupied: nat, bestIdx: nat,
    price: Price, bestIdx': nat)
    requires BestTracked(side, levels, lo, limit, occupied, bestIdx)
    requires InWindow(lo, limit, price) && price in levels
    requires occupied > 1 && price - lo == bestIdx ==>
               lo + bestIdx' <= MAX_PRICE && BestOf(side, WindowPrices(levels, lo, limit) - {price}, lo + bestIdx')
    requires !(occupied > 1 && price - lo == bestIdx) ==> bestIdx' == bestIdx
    ensures occupied > 0
    ensures BestTracked(side, levels - {price}, lo, limit, occupied - 1, bestIdx')
  {
    var levels' := levels - {price};
    var before, after := WindowPrices(levels, lo, limit), WindowPrices(levels', lo, limit);
    assert price in before;
    assert after == before - {price};
    if occupied > 1 && price - lo != bestIdx {
      assert lo + bestIdx in after;
      assert BestOf(side, before, lo + bestIdx);
    }
  }

  // While the window holds another level, some index is worse than the best one.
  lemma WorseExists(side: Side, levels: map<Price, PriceLevel>, lo: nat, limit: nat, occupied: nat, bestIdx: nat)
    returns (j: nat)
    requires BestTracked(side, levels, lo, limit, occupied, bestIdx) && occupied > 1
    ensures j < limit && lo + j <= MAX_PRICE && lo + j in levels
    ensures if side.Buy? then j < bestIdx else bestIdx < j
  {
    var before := WindowPrices(levels, lo, limit);
    assert BestOf(side, before, lo + bestIdx);
    var others := before - {lo + bestIdx};
    assert |others| == |before| - 1;
    var p :| p in others;
    assert p in before;
    j := p - lo;
  }

  lemma ScanFound(
    side: Side, levels: map<Price, PriceLevel>, lo: nat, limit: nat, occupied: nat, bestIdx: nat, j: nat)
    requires BestTracked(side, levels, lo, limit, occupied, bestIdx) && occupied > 1
    requires j < limit && lo + j <= MAX_PRICE && lo + j in levels
    requires if side.Buy? then j < bestIdx else bestIdx < j
    requires forall p: Price :: InWindow(lo, limit, p) && p in levels ==>
               if side.Buy? then !(lo + j < p < lo + bestIdx) else !(lo + bestIdx < p < lo + j)
    ensures BestOf(side, WindowPrices(levels, lo, limit) - {lo + bestIdx}, lo + j)
  {
    var before := WindowPrices(levels, lo, limit);
    assert BestOf(side, before, lo + bestIdx);
  }

  // Cells --------------------------------------------------------------------------------

  lemma StoredCell(
    levels: map<Price, PriceLevel>, lo: nat, limit: nat, win: seq<PriceLevel>, price: Price, level: PriceLevel)
    requires WindowFiled(levels, lo, limit, win) && InWindow(lo, limit, price)
    ensures price - lo < |win|
    ensures WindowFiled(levels[price := level], lo, limit, win[price - lo := level])
    ensures level == NO_LEVEL ==> WindowFiled(levels - {price}, lo, limit, win[price - lo := level])
    ensures price in levels ==> win[price - lo] == levels[price]
    ensures price !in levels ==> win[price - lo] == NO_LEVEL
  {
    assert CellFiled(levels, lo, limit, price - lo, win[price - lo]);
    var win' := win[price - lo := level];
    forall i | 0 <= i < |win'| ensures CellFiled(levels[price := level], lo, limit, i, win'[i]) {
      assert CellFiled(levels, lo, limit, i, win[i]);
    }
    forall i | 0 <= i < |win'| && level == NO_LEVEL ensures CellFiled(levels - {price}, lo, limit, i, win'[i]) {
      assert CellFiled(levels, lo, limit, i, win[i]);
    }
  }

  lemma OutsideCells(
    levels: map<Price, PriceLevel>, levels': map<Price, PriceLevel>, lo: nat, limit: nat, win: seq<PriceLevel>)
    requires WindowFiled(levels, lo, limit, win)
    requires forall p :: InWindow(lo, limit, p) ==>
               (p in levels' <==> p in levels) && (p in levels ==> levels'[p] == levels[p])
    ensures WindowFiled(levels', lo, limit, win)
  {
    forall i | 0 <= i < |win| ensures CellFiled(levels', lo, limit, i, win[i]) {
      assert CellFiled(levels, lo, limit, i, win[i]);
      if i < limit && lo + i <= MAX_PRICE {
        assert InWindow(lo, limit, lo + i);
      }
    }
  }

  // The first of a set of map keys: the map is sorted best price first.
  method FirstOf(side: Side, keys: set<Price>) returns (price: Price)
    requires keys != {}
    ensures BestOf(side, keys, price)
  {
    BestExists(side, keys);
    price :| price in keys && forall q :: q in keys && q != price ==> Better(side, price, q);
  }

  // Visiting levels best first ----------------------------------------------------------------

  ghost predicate BestFirst(side: Side, visited: seq<Price>) {
    forall i, j :: 0 <= i < j < |visited| ==> Better(side, visited[i], visited[j])
  }

  // Part of the levels was visited, best first, and each was better than all that are left.
  ghost predicate Visited(side: Side, visited: seq<Price>, levels: map<Price, PriceLevel>, left: set<Price>) {
    && left <= levels.Keys
    && (forall p :: p in levels.Keys <==> p in left || p in visited)
    && BestFirst(side, visited)
    && forall p, q :: p in visited && q in left ==> Better(side, p, q)
  }

  lemma NothingVisited(side: Side, levels: map<Price, PriceLevel>)
    ensures Visited(side, [], levels, levels.Keys)
  {
  }

  lemma VisitNext(side: Side, visited: seq<Price>, levels: map<Price, PriceLevel>, left: set<Price>, p: Price)
    requires Visited(side, visited, levels, left) && BestOf(side, left, p)
    ensures Visited(side, visited + [p], levels, left - {p})
  {
    forall q | q in visited ensures Better(side, q, p) {
    }
    assert forall j :: 0 <= j < |visited| ==> visited[j] in visited;
  }

  lemma AllVisited(side: Side, visited: seq<Price>, levels: map<Price, PriceLevel>)
    requires Visited(side, visited, levels, {})
    ensures BestFirst(side, visited) && forall p :: p in visited <==> p in levels
  {
    assert forall p :: p in levels <==> p in levels.Keys;
  }

  function WindowPart(levels: map<Price, PriceLevel>, lo: nat, limit: nat, from: nat, to: nat): set<Price> {
    set p | p in levels && InWindow(lo, limit, p) && from <= p - lo < to
  }

  // The ladder ------------------------------------------------------------------------------

  class PriceLadder {
    const side: Side
    const window: array<PriceLevel>         // allocated up front; an empty cell is an absent level
    var overflow: map<Price, PriceLevel>    // levels outside the window
    var lo: Price                           // window base
    var limit: nat                          // cells in use, 0 until placed
    var occupied: nat                       // levels in the window
    var bestIdx: nat                        // meaningful while occupied > 0
    var isPlaced: bool

    // What the ladder stands for: one sorted map from prices to levels.
    ghost var levels: map<Price, PriceLevel>

    ghost predicate Valid()
      reads this, window
    {
      && WindowFiled(levels, lo, limit, window[..])
      && OverflowFiled(levels, lo, limit, overflow)
      && BestTracked(side, levels, lo, limit, occupied, bestIdx)
      && (!isPlaced ==> limit == 0)
    }

    constructor (side: Side, windowLevels: nat)
      ensures Valid() && fresh(window) && this.side == side && window.Length == windowLevels
      ensures levels == map[] && !isPlaced
    {
      this.side := side;
      window := new PriceLevel[windowLevels](_ => NO_LEVEL);
      overflow, levels := map[], map[];
      lo, limit, occupied, bestIdx, isPlaced := 0, 0, 0, 0, false;
      new;
      assert WindowPrices(levels, lo, limit) == {};
    }

    // Fix the window, before any level opens.
    method Place(base: Price)
      requires Valid() && levels == map[]
      modifies this`lo, this`limit, this`isPlaced
      ensures Valid() && isPlaced && lo == base && limit == ClippedSpan(base, window.Length)
    {
      hide WindowFiled, CellFiled, BestTracked, ClippedSpan;
      PlacedEmpty(side, lo, limit, occupied, bestIdx, window[..], base);
      lo := base;
      var room := MAX_PRICE - base;
      limit := if window.Length == 0 || window.Length - 1 <= room then window.Length else room + 1;
      isPlaced := true;
    }

    // The level at price, opened if nothing rests there yet.
    method Open(price: Price)
      requires Valid() && Settled(levels)
      modifies this`levels, this`overflow, this`occupied, this`bestIdx
      ensures Valid() && levels == if price in old(levels) then old(levels) else old(levels)[price := NO_LEVEL]
    {
      hide WindowFiled, CellFiled, BestTracked, WindowPrices;
      if InWindow(lo, limit, price) {
        StoredCell(levels, lo, limit, window[..], price, NO_LEVEL);
        var i := price - lo;
        if window[i].Empty() {
          assert price !in levels;
          OpenedInWindow(side, levels, lo, limit, occupied, bestIdx, price);
          assert window[..][i := NO_LEVEL] == window[..];
          levels := levels[price := NO_LEVEL];
          occupied := occupied + 1;
          if occupied == 1 || (if side.Buy? then i > bestIdx else i < bestIdx) {
            bestIdx := i;
          }
        }
      } else if price !in overflow {
        OutsideCells(levels, levels[price := NO_LEVEL], lo, limit, window[..]);
        OutsideKeepsBest(side, levels, levels[price := NO_LEVEL], lo, limit, occupied, bestIdx, price);
        overflow := overflow[price := NO_LEVEL];
        levels := levels[price := NO_LEVEL];
      }
    }

    // Read through a reference to the level at price.
    function Load(price: Price): (level: PriceLevel)
      requires Valid() && price in levels
      reads this, window
      ensures level == levels[price]
    {
      if InWindow(lo, limit, price) then
        StoredCell(levels, lo, limit, window[..], price, NO_LEVEL);
        window[price - lo]
      else overflow[price]
    }

    // Write through a reference to the level at price.
    method Store(price: Price, level: PriceLevel)
      requires Valid() && price in levels
      modifies this`levels, this`overflow, window
      ensures Valid() && levels == old(levels)[price := level]
    {
      hide WindowFiled, CellFiled, BestTracked, WindowPrices;
      StoredKeepsBest(side, levels, lo, limit, occupied, bestIdx, price, level);
      if InWindow(lo, limit, price) {
        StoredCell(levels, lo, limit, window[..], price, level);
        ghost var before := window[..];
        window[price - lo] := level;
        assert window[..] == before[price - lo := level];
      } else {
        OutsideCells(levels, levels[price := level], lo, limit, window[..]);
        overflow := overflow[price := level];
      }
      levels := levels[price := level];
    }

    // The level at price, if anything rests there.
    method Find(price: Price) returns (level: Option<PriceLevel>)
      requires Valid() && (price in levels ==> !levels[price].Empty())
      ensures level == if price in levels then Some(levels[price]) else None
    {
      if InWindow(lo, limit, price) {
        StoredCell(levels, lo, limit, window[..], price, NO_LEVEL);
        var cell := window[price - lo];
        return if cell.Empty() then None else Some(cell);
      }
      return if price in overflow then Some(overflow[price]) else None;
    }

    // The best price of the side, wherever its level is filed.
    method Best() returns (price: Option<Price>)
      requires Valid()
      ensures price.None? <==> levels == map[]
      ensures price.Some? ==> BestOf(side, levels.Keys, price.value)
    {
      hide WindowFiled, CellFiled;
      price := None;
      if occupied > 0 {
        price := Some(lo + bestIdx);
      }
      if overflow != map[] {
        var first := FirstOf(side, overflow.Keys);
        if price.None? || Better(side, first, price.value) {
          price := Some(first);
        }
      }
      BestOverall(side, levels, lo, limit, overflow, occupied, bestIdx);
    }

    // Called once the level at price has become empty.
    method Closed(price: Price)
      requires Valid() && price in levels && levels[price] == NO_LEVEL && SettledExcept(levels, price)
      modifies this`levels, this`overflow, this`occupied, this`bestIdx
      ensures Valid() && levels == old(levels) - {price}
    {
      hide WindowFiled, CellFiled, BestTracked, WindowPrices, SettledExcept;
      if !InWindow(lo, limit, price) {
        OutsideCells(levels, levels - {price}, lo, limit, window[..]);
        OutsideKeepsBest(side, levels, levels - {price}, lo, limit, occupied, bestIdx, price);
        overflow := overflow - {price};
        levels := levels - {price};
        return;
      }
      StoredCell(levels, lo, limit, window[..], price, NO_LEVEL);
      var i := price - lo;
      assert window[..][i := NO_LEVEL] == window[..];
      ghost var bestIdx0 := bestIdx;
      OccupiedPositive(side, levels, lo, limit, occupied, bestIdx, price);
      if occupied > 1 && i == bestIdx {
        bestIdx := NextOccupied(i, price);
      }
      ClosedInWindow(side, levels, lo, limit, occupied, bestIdx0, price, bestIdx);
      occupied := occupied - 1;
      levels := levels - {price};
    }

    // The checks of the window: empty cells hold nothing, the rest are inside the window in
    // use and no better than the best index, and the map holds only what is outside.
    method Check() returns (ok: bool)
      requires Valid() && Settled(levels)
      ensures ok
    {
      hide WindowFiled, CellFiled, BestTracked, OverflowFiled, Settled, WindowPrices, WindowPart;
      var count, i := 0, 0;
      ok := true;
      NoPart(levels, lo, limit);
      while i < window.Length
        invariant 0 <= i <= window.Length && ok
        invariant count == |WindowPart(levels, lo, limit, 0, i)|
      {
        CountCell(side, levels, lo, limit, window[..], occupied, bestIdx, i);
        var level := window[i];
        if level.Empty() {
          ok := ok && level.total == 0 && level.tail == NO_SLOT;
        } else {
          ok := ok && i < limit && !(if side.Buy? then i > bestIdx else i < bestIdx);
          count := count + 1;
        }
        i := i + 1;
      }
      AllCells(side, levels, lo, limit, window[..], occupied, bestIdx);
      ok := ok && count == occupied;
      ok := ok && (occupied == 0 || !window[bestIdx].Empty());
      OverflowChecks(levels, lo, limit, overflow);
      ok := ok && (forall price :: price in overflow.Keys ==> !InWindow(lo, limit, price) && !overflow[price].Empty());
    }

    // Every level, best first: outside levels that beat the window, the window, the rest.
    method ForEachLevel() returns (visited: seq<Price>)
      requires Valid() && Settled(levels)
      ensures BestFirst(side, visited) && forall p :: p in visited <==> p in levels
    {
      hide WindowFiled, CellFiled, BestTracked, OverflowFiled, Settled, BestFirst, Visited, WindowPrices, BestOf;
      visited := [];
      ghost var inside := WindowPrices(levels, lo, limit);
      var outside := overflow.Keys;
      NothingVisited(side, levels);
      OutsideSplit(side, levels, lo, limit, overflow);
      var more := true;
      while outside != {} && more
        invariant outside <= overflow.Keys
        invariant Visited(side, visited, levels, outside + inside)
        invariant !more ==> Beaten(side, lo, limit, outside)
        invariant forall p :: p in outside ==> !InWindow(lo, limit, p)
        decreases outside, more
      {
        var p := FirstOf(side, outside);
        if BeyondBestEdge(side, lo, limit, p) {
          FirstBeyond(side, levels, lo, limit, outside, p);
          VisitNext(side, visited, levels, outside + inside, p);
          assert outside + inside - {p} == (outside - {p}) + inside;
          visited := visited + [p];
          outside := outside - {p};
        } else {
          FirstBeaten(side, lo, limit, outside, p);
          more := false;
        }
      }
      visited := VisitWindow(visited, outside);
      while outside != {}
        invariant Visited(side, visited, levels, outside)
        decreases outside
      {
        var p := FirstOf(side, outside);
        VisitNext(side, visited, levels, outside, p);
        visited := visited + [p];
        outside := outside - {p};
      }
      AllVisited(side, visited, levels);
    }

    // The window's part of ForEachLevel.
    method VisitWindow(before: seq<Price>, ghost outside: set<Price>) returns (visited: seq<Price>)
      requires Valid() && Settled(levels)
      requires Visited(side, before, levels, outside + WindowPrices(levels, lo, limit))
      requires outside <= overflow.Keys && Beaten(side, lo, limit, outside)
      ensures Visited(side, visited, levels, outside)
    {
      hide WindowFiled, CellFiled, BestTracked, OverflowFiled, Settled, BestFirst, Visited, WindowPrices,
           WindowPart, BestOf, Beaten;
      visited := before;
      WindowParts(side, levels, lo, limit, occupied, bestIdx);
      if occupied > 0 {
        if side.Buy? {
          var i := bestIdx + 1;
          while i > 0
            invariant 0 <= i <= bestIdx + 1
            invariant Visited(side, visited, levels, outside + WindowPart(levels, lo, limit, 0, i))
          {
            i := i - 1;
            VisitCell(side, levels, lo, limit, window[..], visited, outside, i, 0, i + 1);
            if !window[i].Empty() {
              visited := visited + [lo + i];
            }
          }
        } else {
          var i := bestIdx;
          while i < limit
            invariant bestIdx <= i <= limit
            invariant Visited(side, visited, levels, outside + WindowPart(levels, lo, limit, i, limit))
          {
            VisitCell(side, levels, lo, limit, window[..], visited, outside, i, i, limit);
            if !window[i].Empty() {
              visited := visited + [lo + i];
            }
            i := i + 1;
          }
        }
      }
      NoPart(levels, lo, limit);
      assert outside + {} == outside;
    }

    // The next occupied index worse than i. The caller guarantees one exists, so the scan
    // has no bounds check: that it stays inside the window is proved here.
    method NextOccupied(i: nat, ghost price: Price) returns (j: nat)
      requires Valid() && occupied > 1 && i == bestIdx && price == lo + i && SettledExcept(levels, price)
      ensures lo + j <= MAX_PRICE && BestOf(side, WindowPrices(levels, lo, limit) - {price}, lo + j)
    {
      hide BestTracked, WindowPrices, WindowFiled, CellFiled, SettledExcept, OverflowFiled, InWindow;
      ghost var target := WorseExists(side, levels, lo, limit, occupied, bestIdx);
      BestInside(side, levels, lo, limit, occupied, bestIdx);
      InsideWindow(levels, lo, limit, window[..]);
      if side.Buy? {
        j := i - 1;
        ScannedCell(levels, lo, limit, window[..], j, price);
        while window[j].Empty()
          invariant target <= j < i && limit <= window.Length
          invariant ScannedTo(levels, lo, j, i)
          invariant window[j].Empty() <==> lo + j !in levels
          decreases j
        {
          j := j - 1;
          ScannedCell(levels, lo, limit, window[..], j, price);
        }
        ScanFoundBelow(side, levels, lo, limit, occupied, i, j);
      } else {
        j := i + 1;
        ScannedCell(levels, lo, limit, window[..], j, price);
        while window[j].Empty()
          invariant i < j <= target && limit <= window.Length
          invariant ScannedTo(levels, lo, i, j)
          invariant window[j].Empty() <==> lo + j !in levels
          decreases target - j
        {
          j := j + 1;
          ScannedCell(levels, lo, limit, window[..], j, price);
        }
        ScanFoundAbove(side, levels, lo, limit, occupied, i, j);
      }
    }
  }

  // No level lies strictly between two indices of the window.
  ghost predicate ScannedTo(levels: map<Price, PriceLevel>, lo: nat, from: nat, to: nat) {
    forall p: Price :: p in levels ==> !(lo + from < p < lo + to)
  }

  lemma InsideWindow(levels: map<Price, PriceLevel>, lo: nat, limit: nat, win: seq<PriceLevel>)
    requires WindowFiled(levels, lo, limit, win)
    ensures limit <= |win| && (limit > 0 ==> lo + limit - 1 <= MAX_PRICE)
  {
  }

  // A cell of the window, other than the one at price, is empty when there is no level at it.
  lemma ScannedCell(levels: map<Price, PriceLevel>, lo: nat, limit: nat, win: seq<PriceLevel>, i: nat, price: Price)
    requires WindowFiled(levels, lo, limit, win) && SettledExcept(levels, price) && i < limit && lo + i != price
    ensures lo + i <= MAX_PRICE && (win[i].Empty() <==> lo + i !in levels)
  {
    assert CellFiled(levels, lo, limit, i, win[i]);
  }

  lemma ScanFoundBelow(
    side: Side, levels: map<Price, PriceLevel>, lo: nat, limit: nat, occupied: nat, bestIdx: nat, j: nat)
    requires BestTracked(side, levels, lo, limit, occupied, bestIdx) && occupied > 1 && side.Buy?
    requires j < bestIdx && j < limit && lo + bestIdx <= MAX_PRICE && lo + j in levels
             && ScannedTo(levels, lo, j, bestIdx)
    ensures BestOf(side, WindowPrices(levels, lo, limit) - {lo + bestIdx}, lo + j)
  {
    ScanFound(side, levels, lo, limit, occupied, bestIdx, j);
  }

  lemma ScanFoundAbove(
    side: Side, levels: map<Price, PriceLevel>, lo: nat, limit: nat, occupied: nat, bestIdx: nat, j: nat)
    requires BestTracked(side, levels, lo, limit, occupied, bestIdx) && occupied > 1 && side.Sell?
    requires bestIdx < j < limit && lo + j <= MAX_PRICE && lo + j in levels && ScannedTo(levels, lo, bestIdx, j)
    ensures BestOf(side, WindowPrices(levels, lo, limit) - {lo + bestIdx}, lo + j)
  {
    ScanFound(side, levels, lo, limit, occupied, bestIdx, j);
  }

  lemma BestInside(side: Side, levels: map<Price, PriceLevel>, lo: nat, limit: nat, occupied: nat, bestIdx: nat)
    requires BestTracked(side, levels, lo, limit, occupied, bestIdx) && occupied > 0
    ensures bestIdx < limit && lo + bestIdx <= MAX_PRICE && lo + bestIdx in levels
  {
    assert BestOf(side, WindowPrices(levels, lo, limit), lo + bestIdx);
  }

  lemma OutsideSplit(
    side: Side, levels: map<Price, PriceLevel>, lo: nat, limit: nat, overflow: map<Price, PriceLevel>)
    requires OverflowFiled(levels, lo, limit, overflow)
    ensures levels.Keys == overflow.Keys + WindowPrices(levels, lo, limit)
    ensures forall p :: p in overflow.Keys ==> !InWindow(lo, limit, p)
  {
  }

  // Every price of the window beats all of these.
  ghost predicate Beaten(side: Side, lo: nat, limit: nat, outside: set<Price>) {
    forall p, q :: p in outside && InWindow(lo, limit, q) ==> Better(side, q, p)
  }

  lemma FirstBeyond(
    side: Side, levels: map<Price, PriceLevel>, lo: nat, limit: nat, outside: set<Price>, p: Price)
    requires BestOf(side, outside, p) && BeyondBestEdge(side, lo, limit, p)
    ensures BestOf(side, outside + WindowPrices(levels, lo, limit), p)
    ensures p !in WindowPrices(levels, lo, limit)
  {
  }

  lemma FirstBeaten(side: Side, lo: nat, limit: nat, outside: set<Price>, p: Price)
    requires BestOf(side, outside, p) && !BeyondBestEdge(side, lo, limit, p) && !InWindow(lo, limit, p)
    ensures Beaten(side, lo, limit, outside)
  {
  }

  lemma WindowParts(side: Side, levels: map<Price, PriceLevel>, lo: nat, limit: nat, occupied: nat, bestIdx: nat)
    requires BestTracked(side, levels, lo, limit, occupied, bestIdx)
    ensures occupied == 0 ==> WindowPrices(levels, lo, limit) == {}
    ensures occupied > 0 ==> bestIdx < limit && WindowPrices(levels, lo, limit) ==
                             (if side.Buy? then WindowPart(levels, lo, limit, 0, bestIdx + 1)
                              else WindowPart(levels, lo, limit, bestIdx, limit))
  {
    if occupied > 0 {
      assert BestOf(side, WindowPrices(levels, lo, limit), lo + bestIdx);
    }
  }

  lemma NoPart(levels: map<Price, PriceLevel>, lo: nat, limit: nat)
    ensures WindowPart(levels, lo, limit, 0, 0) == WindowPart(levels, lo, limit, limit, limit) == {}
  {
  }

  // Visiting the best index of what is left of the window, from its best end.
  lemma VisitCell(
    side: Side, levels: map<Price, PriceLevel>, lo: nat, limit: nat, win: seq<PriceLevel>,
    visited: seq<Price>, outside: set<Price>, i: nat, from: nat, to: nat)
    requires WindowFiled(levels, lo, limit, win) && Settled(levels)
    requires Beaten(side, lo, limit, outside)
    requires Visited(side, visited, levels, outside + WindowPart(levels, lo, limit, from, to))
    requires from <= i < to <= limit && if side.Buy? then i + 1 == to else i == from
    ensures i < |win| && lo + i <= MAX_PRICE
    ensures Visited(side, if win[i].Empty() then visited else visited + [lo + i], levels,
                    outside + if side.Buy? then WindowPart(levels, lo, limit, from, i)
                              else WindowPart(levels, lo, limit, i + 1, to))
  {
    hide Visited;
    assert CellFiled(levels, lo, limit, i, win[i]);
    var p: Price := lo + i;
    assert InWindow(lo, limit, p);
    var left := outside + WindowPart(levels, lo, limit, from, to);
    var rest := if side.Buy? then WindowPart(levels, lo, limit, from, i) else WindowPart(levels, lo, limit, i + 1, to);
    if win[i].Empty() {
      assert WindowPart(levels, lo, limit, from, to) == rest;
    } else {
      assert WindowPart(levels, lo, limit, from, to) == rest + {p};
      assert p !in outside;
      assert BestOf(side, left, p);
      VisitNext(side, visited, levels, left, p);
      assert left - {p} == outside + rest;
    }
  }

  lemma CountCell(
    side: Side, levels: map<Price, PriceLevel>, lo: nat, limit: nat, win: seq<PriceLevel>, occupied: nat,
    bestIdx: nat, i: nat)
    requires WindowFiled(levels, lo, limit, win) && Settled(levels) && i < |win|
    requires BestTracked(side, levels, lo, limit, occupied, bestIdx)
    ensures |WindowPart(levels, lo, limit, 0, i + 1)| ==
            |WindowPart(levels, lo, limit, 0, i)| + if win[i].Empty() then 0 else 1
    ensures if win[i].Empty() then win[i] == NO_LEVEL
            else i < limit && !(if side.Buy? then i > bestIdx else i < bestIdx)
  {
    hide BestTracked;
    assert CellFiled(levels, lo, limit, i, win[i]);
    var before, after := WindowPart(levels, lo, limit, 0, i), WindowPart(levels, lo, limit, 0, i + 1);
    if win[i].Empty() {
      assert after == before;
    } else {
      var p: Price := lo + i;
      assert after == before + {p};
      NoBetterCell(side, levels, lo, limit, occupied, bestIdx, p);
    }
  }

  lemma NoBetterCell(
    side: Side, levels: map<Price, PriceLevel>, lo: nat, limit: nat, occupied: nat, bestIdx: nat, p: Price)
    requires BestTracked(side, levels, lo, limit, occupied, bestIdx)
    requires p in levels && InWindow(lo, limit, p)
    ensures !(if side.Buy? then p - lo > bestIdx else p - lo < bestIdx)
  {
    assert p in WindowPrices(levels, lo, limit);
  }

  lemma AllCells(
    side: Side, levels: map<Price, PriceLevel>, lo: nat, limit: nat, win: seq<PriceLevel>, occupied: nat, bestIdx: nat)
    requires WindowFiled(levels, lo, limit, win) && Settled(levels)
    requires BestTracked(side, levels, lo, limit, occupied, bestIdx)
    ensures |WindowPart(levels, lo, limit, 0, |win|)| == occupied
    ensures occupied > 0 ==> bestIdx < |win| && !win[bestIdx].Empty()
  {
    assert WindowPart(levels, lo, limit, 0, |win|) == WindowPrices(levels, lo, limit);
    if occupied > 0 {
      BestInside(side, levels, lo, limit, occupied, bestIdx);
      assert CellFiled(levels, lo, limit, bestIdx, win[bestIdx]);
    }
  }

  lemma OverflowChecks(levels: map<Price, PriceLevel>, lo: nat, limit: nat, overflow: map<Price, PriceLevel>)
    requires OverflowFiled(levels, lo, limit, overflow) && Settled(levels)
    ensures forall price :: price in overflow.Keys ==> !InWindow(lo, limit, price) && !overflow[price].Empty()
  {
  }

  lemma OccupiedPositive(
    side: Side, levels: map<Price, PriceLevel>, lo: nat, limit: nat, occupied: nat, bestIdx: nat, price: Price)
    requires BestTracked(side, levels, lo, limit, occupied, bestIdx)
    requires price in levels && InWindow(lo, limit, price)
    ensures occupied > 0
  {
    assert price in WindowPrices(levels, lo, limit);
  }

  lemma BestOverall(
    side: Side, levels: map<Price, PriceLevel>, lo: nat, limit: nat, overflow: map<Price, PriceLevel>,
    occupied: nat, bestIdx: nat)
    requires OverflowFiled(levels, lo, limit, overflow)
    requires BestTracked(side, levels, lo, limit, occupied, bestIdx)
    ensures levels == map[] <==> occupied == 0 && overflow == map[]
    ensures occupied > 0 ==> lo + bestIdx in levels
    ensures forall p :: occupied > 0 && p in levels && p != lo + bestIdx && p !in overflow ==>
              Better(side, lo + bestIdx, p)
    ensures forall p :: p in levels && occupied == 0 ==> p in overflow
  {
    var inside := WindowPrices(levels, lo, limit);
    if occupied > 0 {
      assert BestOf(side, inside, lo + bestIdx);
    }
    forall p | p in levels && p !in overflow ensures p in inside {
    }
    if p :| p in overflow {
      assert p in levels;
    }
    if levels != map[] {
      var p :| p in levels;
    }
  }

  lemma PlacedEmpty(
    side: Side, lo: nat, limit: nat, occupied: nat, bestIdx: nat, win: seq<PriceLevel>, base: Price)
    requires WindowFiled(map[], lo, limit, win)
    requires BestTracked(side, map[], lo, limit, occupied, bestIdx)
    ensures var span := ClippedSpan(base, |win|);
            && WindowFiled(map[], base, span, win)
            && BestTracked(side, map[], base, span, occupied, bestIdx)
            && span == if |win| == 0 || |win| - 1 <= MAX_PRICE - base then |win| else MAX_PRICE - base + 1
  {
    assert WindowPrices(map[], lo, limit) == {};
    assert WindowPrices(map[], base, ClippedSpan(base, |win|)) == {};
    forall i | 0 <= i < |win| ensures win[i] == NO_LEVEL {
      assert CellFiled(map[], lo, limit, i, win[i]);
    }
  }
}
