// How the engine's structures together stand for one flat sequence of resting orders, and
// what each change to them does to that sequence.
module BookState {
  import opened Types
  import opened Market
  import opened Queues
  import opened Pool
  import opened Links

  // An index entry: the slot shifted up one bit in 32, with the side in bit 0.
  function IndexValue(slot: nat, side: Side): nat {
    (slot * 2) % 0x1_0000_0000 + if side.Sell? then 1 else 0
  }

  function SlotOf(value: nat): nat {
    value / 2
  }

  function SideOf(value: nat): Side {
    if value % 2 == 1 then Sell else Buy
  }

  // Slot and side survive the packing exactly for slots below 2^31.
  lemma PackRoundTrip(slot: nat, side: Side)
    ensures SideOf(IndexValue(slot, side)) == side && IndexValue(slot, side) < 0x1_0000_0000
    ensures slot <= NO_SLOT ==> (SlotOf(IndexValue(slot, side)) == slot <==> slot < MAX_ORDERS)
  {
  }

  function StoredOrder(o: Order): RestingOrder {
    RestingOrder(o.id, o.price, o.qty, o.owner)
  }

  function SlotFor(idx: map<nat, nat>, id: nat): nat {
    if id in idx then SlotOf(idx[id]) else NO_SLOT
  }

  function SlotSeq(idx: map<nat, nat>, q: seq<Order>): seq<nat> {
    seq(|q|, i requires 0 <= i < |q| => SlotFor(idx, q[i].id))
  }

  // The index names the slot that holds exactly this order, and its side.
  ghost predicate EntryAt(o: Order, idx: map<nat, nat>, slots: seq<Slot>, held: set<nat>) {
    && o.id in idx && SideOf(idx[o.id]) == o.side
    && SlotOf(idx[o.id]) in held && SlotOf(idx[o.id]) < |slots|
    && slots[SlotOf(idx[o.id])].value == StoredOrder(o)
  }

  ghost predicate Entries(resting: seq<Order>, idx: map<nat, nat>, slots: seq<Slot>, held: set<nat>) {
    forall i :: 0 <= i < |resting| ==> EntryAt(resting[i], idx, slots, held)
  }

  ghost predicate OnlyLive(resting: seq<Order>, idx: map<nat, nat>) {
    forall id :: id in idx ==> exists i :: 0 <= i < |resting| && resting[i].id == id
  }

  ghost predicate IndexAgrees(resting: seq<Order>, idx: map<nat, nat>, slots: seq<Slot>, held: set<nat>) {
    && DistinctIds(resting) && ByArrival(resting)
    && Entries(resting, idx, slots, held)
    && OnlyLive(resting, idx)
    && |resting| == |idx| == |held|
  }

  // The level at a price holds the queue of the orders there: linked both ways through the
  // pool, with its ends and its total.
  ghost predicate LevelOk(
    resting: seq<Order>, side: Side, price: Price, level: PriceLevel, slots: seq<Slot>, idx: map<nat, nat>)
  {
    var q := Queue(resting, side, price);
    Linked(slots, SlotSeq(idx, q)) && Ends(level, SlotSeq(idx, q)) && level.total == Total(q)
  }

  ghost predicate SideRep(
    resting: seq<Order>, side: Side, levels: map<Price, PriceLevel>, slots: seq<Slot>, idx: map<nat, nat>)
  {
    && (forall p: Price :: Queue(resting, side, p) != [] ==> p in levels)
    && (forall p: Price :: p in levels ==> LevelOk(resting, side, p, levels[p], slots, idx))
  }

  ghost predicate Rep(
    resting: seq<Order>, idx: map<nat, nat>, slots: seq<Slot>, held: set<nat>,
    bids: map<Price, PriceLevel>, asks: map<Price, PriceLevel>)
  {
    && IndexAgrees(resting, idx, slots, held)
    && SideRep(resting, Buy, bids, slots, idx)
    && SideRep(resting, Sell, asks, slots, idx)
  }

  // Queues occupy slots apart ---------------------------------------------------------

  lemma QueueOrder(resting: seq<Order>, side: Side, price: Price, k: nat) returns (i: nat)
    requires k < |Queue(resting, side, price)|
    ensures i < |resting| && resting[i] == Queue(resting, side, price)[k] && At(resting[i], side, price)
  {
    QueueMembers(resting, side, price);
    var o := Queue(resting, side, price)[k];
    assert o in Queue(resting, side, price);
    i :| 0 <= i < |resting| && resting[i] == o;
  }

  // The k-th order of a queue sits in the k-th slot of its slot sequence.
  lemma QueueSlot(
    resting: seq<Order>, idx: map<nat, nat>, slots: seq<Slot>, held: set<nat>, side: Side, price: Price, k: nat)
    requires IndexAgrees(resting, idx, slots, held) && k < |Queue(resting, side, price)|
    ensures var q := Queue(resting, side, price);
            var s := SlotSeq(idx, q)[k];
            && s in held && s < |slots| && slots[s].value == StoredOrder(q[k])
            && q[k].id in idx && At(q[k], side, price)
  {
    hide Queue;
    var i := QueueOrder(resting, side, price, k);
    assert EntryAt(resting[i], idx, slots, held);
  }

  lemma SameOrder(resting: seq<Order>, side: Side, price: Price, j: nat, side': Side, price': Price, k: nat)
    requires DistinctIds(resting)
    requires j < |Queue(resting, side, price)| && k < |Queue(resting, side', price')|
    requires Queue(resting, side, price)[j].id == Queue(resting, side', price')[k].id
    ensures side == side' && price == price'
  {
    hide Queue;
    var a := QueueOrder(resting, side, price, j);
    var b := QueueOrder(resting, side', price', k);
  }

  lemma QueueSlotsDistinct(
    resting: seq<Order>, idx: map<nat, nat>, slots: seq<Slot>, held: set<nat>, side: Side, price: Price)
    requires IndexAgrees(resting, idx, slots, held)
    ensures var s := SlotSeq(idx, Queue(resting, side, price));
            Distinct(s) && forall x :: x in s ==> x in held && x < |slots|
  {
    hide Queue, IndexAgrees;
    var q := Queue(resting, side, price);
    var s := SlotSeq(idx, q);
    QueueIdsDistinct(resting, idx, slots, held, side, price);
    forall i, j | 0 <= i < j < |s| ensures s[i] != s[j] {
      QueueSlot(resting, idx, slots, held, side, price, i);
      QueueSlot(resting, idx, slots, held, side, price, j);
      assert q[i].id != q[j].id;
    }
    forall x | x in s ensures x in held && x < |slots| {
      var i :| 0 <= i < |s| && s[i] == x;
      QueueSlot(resting, idx, slots, held, side, price, i);
    }
  }

  lemma QueueIdsDistinct(
    resting: seq<Order>, idx: map<nat, nat>, slots: seq<Slot>, held: set<nat>, side: Side, price: Price)
    requires IndexAgrees(resting, idx, slots, held)
    ensures DistinctIds(Queue(resting, side, price)) && ByArrival(Queue(resting, side, price)) && DistinctIds(resting)
  {
    QueueOrdered(resting, side, price);
  }

  // Two different queues share no slot.
  lemma QueuesApart(
    resting: seq<Order>, idx: map<nat, nat>, slots: seq<Slot>, held: set<nat>,
    side: Side, price: Price, side': Side, price': Price)
    requires IndexAgrees(resting, idx, slots, held) && (side != side' || price != price')
    ensures forall x :: x in SlotSeq(idx, Queue(resting, side, price)) ==>
              x !in SlotSeq(idx, Queue(resting, side', price'))
  {
    hide Queue, IndexAgrees;
    var s, s' := SlotSeq(idx, Queue(resting, side, price)), SlotSeq(idx, Queue(resting, side', price'));
    QueueIdsDistinct(resting, idx, slots, held, side, price);
    forall x | x in s ensures x !in s' {
      var j :| 0 <= j < |s| && s[j] == x;
      QueueSlot(resting, idx, slots, held, side, price, j);
      forall k | 0 <= k < |s'| ensures s'[k] != x {
        QueueSlot(resting, idx, slots, held, side', price', k);
        if s'[k] == x {
          SameOrder(resting, side, price, j, side', price', k);
        }
      }
    }
  }

  // A level whose queue, slots and links are as before is as before.
  lemma LevelFrame(
    resting: seq<Order>, resting': seq<Order>, side: Side, price: Price, level: PriceLevel,
    slots: seq<Slot>, slots': seq<Slot>, idx: map<nat, nat>, idx': map<nat, nat>)
    requires LevelOk(resting, side, price, level, slots, idx)
    requires Queue(resting', side, price) == Queue(resting, side, price)
    requires SlotSeq(idx', Queue(resting, side, price)) == SlotSeq(idx, Queue(resting, side, price))
    requires |slots| <= |slots'|
    requires forall x :: x in SlotSeq(idx, Queue(resting, side, price)) && x < |slots| ==>
               slots'[x].prev == slots[x].prev && slots'[x].next == slots[x].next
    ensures LevelOk(resting', side, price, level, slots', idx')
  {
    hide Queue, SlotSeq;
    LinksFrame(slots, slots', SlotSeq(idx, Queue(resting, side, price)));
  }

  // Levels of a side ------------------------------------------------------------------

  lemma OpenedLevel(
    resting: seq<Order>, side: Side, levels: map<Price, PriceLevel>, slots: seq<Slot>, idx: map<nat, nat>, price: Price)
    requires SideRep(resting, side, levels, slots, idx) && price !in levels
    ensures SideRep(resting, side, levels[price := NO_LEVEL], slots, idx)
  {
    hide Queue, Linked;
    assert Queue(resting, side, price) == [];
    assert SlotSeq(idx, []) == [];
    NothingLinked(slots);
    assert LevelOk(resting, side, price, NO_LEVEL, slots, idx);
  }

  lemma NothingLinked(slots: seq<Slot>)
    ensures Linked(slots, [])
  {
  }

  // A level is empty exactly when its queue is, and then nothing is left in its cell.
  lemma EmptyLevel(
    resting: seq<Order>, side: Side, price: Price, level: PriceLevel, slots: seq<Slot>, idx: map<nat, nat>)
    requires LevelOk(resting, side, price, level, slots, idx)
    ensures level.Empty() <==> Queue(resting, side, price) == []
    ensures level.Empty() ==> level == NO_LEVEL
  {
    hide Queue;
    LastIsLinked(slots, SlotSeq(idx, Queue(resting, side, price)));
  }

  lemma ClosedLevel(
    resting: seq<Order>, side: Side, levels: map<Price, PriceLevel>, slots: seq<Slot>, idx: map<nat, nat>, price: Price)
    requires SideRep(resting, side, levels, slots, idx) && price in levels && levels[price].Empty()
    ensures levels[price] == NO_LEVEL
    ensures SideRep(resting, side, levels - {price}, slots, idx)
  {
    hide Queue, LevelOk;
    assert LevelOk(resting, side, price, levels[price], slots, idx);
    EmptyLevel(resting, side, price, levels[price], slots, idx);
  }
}
