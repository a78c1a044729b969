// The three changes the engine makes to its resting orders, each carried through the index,
// the pool and the ladders: one removed, one partly filled, one appended.
module BookSteps {
  import opened Types
  import opened Market
  import opened Queues
  import opened Pool
  import opened Links
  import opened BookState
  import opened Ladder

  function SlotsAt(resting: seq<Order>, idx: map<nat, nat>, o: Order): seq<nat> {
    SlotSeq(idx, Queue(resting, o.side, o.price))
  }

  // Removing -------------------------------------------------------------------------

  // The slots after an order was detached from its queue and its slot released.
  ghost predicate Cut(
    resting: seq<Order>, idx: map<nat, nat>, slots: seq<Slot>, held: set<nat>, m: nat, slots': seq<Slot>)
    requires m < |resting|
  {
    var o := resting[m];
    var s := SlotsAt(resting, idx, o);
    && |slots'| == |slots|
    && Place(resting, m) < |s|
    && Linked(slots', RemoveAt(s, Place(resting, m)))
    && (forall j :: j in held && j < |slots| && j !in s ==> slots'[j] == slots[j])
    && (forall j :: j in held && j < |slots| && j != SlotFor(idx, o.id) ==> slots'[j].value == slots[j].value)
  }

  ghost predicate CutLevel(
    resting: seq<Order>, idx: map<nat, nat>, m: nat, level: PriceLevel, level': PriceLevel)
    requires m < |resting|
  {
    var s := SlotsAt(resting, idx, resting[m]);
    Place(resting, m) < |s| && Ends(level', RemoveAt(s, Place(resting, m)))
    && level'.total == level.total - resting[m].qty
  }

  lemma OrderedRemoved(resting: seq<Order>, m: nat)
    requires DistinctIds(resting) && ByArrival(resting) && m < |resting|
    ensures DistinctIds(RemoveAt(resting, m)) && ByArrival(RemoveAt(resting, m))
  {
    hide RemoveAt;
    RemoveIndices(resting, m);
  }

  lemma EntriesRemoved(
    resting: seq<Order>, idx: map<nat, nat>, slots: seq<Slot>, held: set<nat>, m: nat, slots': seq<Slot>)
    requires DistinctIds(resting) && Entries(resting, idx, slots, held) && m < |resting|
    requires |slots'| == |slots|
    requires forall j :: j in held && j < |slots| && j != SlotFor(idx, resting[m].id) ==>
             slots'[j].value == slots[j].value
    ensures SlotFor(idx, resting[m].id) in held && resting[m].id in idx
    ensures Entries(RemoveAt(resting, m), idx - {resting[m].id}, slots', held - {SlotFor(idx, resting[m].id)})
  {
    hide RemoveAt, SlotOf, SideOf;
    var o := resting[m];
    var slot := SlotFor(idx, o.id);
    var resting', idx', held' := RemoveAt(resting, m), idx - {o.id}, held - {slot};
    RemoveIndices(resting, m);
    assert EntryAt(o, idx, slots, held);
    forall i | 0 <= i < |resting'| ensures EntryAt(resting'[i], idx', slots', held') {
      var j := if i < m then i else i + 1;
      assert EntryAt(resting[j], idx, slots, held) && resting'[i] == resting[j];
      assert resting[j].id != o.id;
    }
  }

  lemma LiveRemoved(resting: seq<Order>, idx: map<nat, nat>, m: nat)
    requires OnlyLive(resting, idx) && m < |resting| && resting[m].id in idx
    ensures OnlyLive(RemoveAt(resting, m), idx - {resting[m].id})
    ensures |idx - {resting[m].id as nat}| == |idx| - 1
  {
    hide RemoveAt;
    var resting', idx' := RemoveAt(resting, m), idx - {resting[m].id as nat};
    RemoveIndices(resting, m);
    forall id | id in idx' ensures exists i :: 0 <= i < |resting'| && resting'[i].id == id {
      var j :| 0 <= j < |resting| && resting[j].id == id;
      assert resting'[if j < m then j else j - 1].id == id;
    }
    assert idx'.Keys == idx.Keys - {resting[m].id};
    assert |idx'| == |idx'.Keys| == |idx.Keys| - 1;
  }

  lemma RemovedIndex(
    resting: seq<Order>, idx: map<nat, nat>, slots: seq<Slot>, held: set<nat>, m: nat, slots': seq<Slot>)
    requires IndexAgrees(resting, idx, slots, held) && m < |resting|
    requires |slots'| == |slots|
    requires forall j :: j in held && j < |slots| && j != SlotFor(idx, resting[m].id) ==>
             slots'[j].value == slots[j].value
    ensures IndexAgrees(RemoveAt(resting, m), idx - {resting[m].id}, slots', held - {SlotFor(idx, resting[m].id)})
  {
    hide RemoveAt, DistinctIds, ByArrival, Entries, OnlyLive, SlotFor;
    OrderedRemoved(resting, m);
    EntriesRemoved(resting, idx, slots, held, m, slots');
    LiveRemoved(resting, idx, m);
  }

  lemma RemovedSlots(idx: map<nat, nat>, q: seq<Order>, k: nat)
    requires k < |q| && DistinctIds(q)
    ensures SlotSeq(idx - {q[k].id as nat}, RemoveAt(q, k)) == RemoveAt(SlotSeq(idx, q), k)
  {
  }

  lemma OtherSlots(idx: map<nat, nat>, q: seq<Order>, id: nat)
    requires forall i :: 0 <= i < |q| ==> q[i].id != id
    ensures SlotSeq(idx - {id}, q) == SlotSeq(idx, q)
  {
  }

  // The level the removed order was in.
  lemma RemovedLevel(
    resting: seq<Order>, idx: map<nat, nat>, slots: seq<Slot>, held: set<nat>, m: nat, slots': seq<Slot>,
    level: PriceLevel, level': PriceLevel)
    requires IndexAgrees(resting, idx, slots, held) && m < |resting|
    requires Cut(resting, idx, slots, held, m, slots')
    requires LevelOk(resting, resting[m].side, resting[m].price, level, slots, idx)
    requires CutLevel(resting, idx, m, level, level')
    ensures LevelOk(RemoveAt(resting, m), resting[m].side, resting[m].price, level', slots',
                    idx - {resting[m].id as nat})
  {
    hide Queue, RemoveAt, Linked, IndexAgrees, SlotSeq;
    var o := resting[m];
    var q := Queue(resting, o.side, o.price);
    QueueRemove(resting, m, o.side, o.price);
    QueueIdsDistinct(resting, idx, slots, held, o.side, o.price);
    RemovedSlots(idx, q, Place(resting, m));
    TotalReplace(q, Place(resting, m), o);
  }

  // Any other level.
  lemma KeptLevel(
    resting: seq<Order>, idx: map<nat, nat>, slots: seq<Slot>, held: set<nat>, m: nat, slots': seq<Slot>,
    side: Side, price: Price, level: PriceLevel)
    requires IndexAgrees(resting, idx, slots, held) && m < |resting|
    requires Cut(resting, idx, slots, held, m, slots')
    requires !At(resting[m], side, price)
    requires LevelOk(resting, side, price, level, slots, idx)
    ensures LevelOk(RemoveAt(resting, m), side, price, level, slots', idx - {resting[m].id as nat})
  {
    hide Queue, RemoveAt, Linked, IndexAgrees, SlotSeq, LevelOk;
    var o := resting[m];
    var q := Queue(resting, side, price);
    QueueRemove(resting, m, side, price);
    QueueIdsDistinct(resting, idx, slots, held, side, price);
    forall i | 0 <= i < |q| ensures q[i].id != o.id {
      var j := QueueOrder(resting, side, price, i);
      assert j != m;
    }
    OtherSlots(idx, q, o.id);
    QueuesApart(resting, idx, slots, held, side, price, o.side, o.price);
    QueueSlotsDistinct(resting, idx, slots, held, side, price);
    LevelFrame(resting, RemoveAt(resting, m), side, price, level, slots, slots', idx, idx - {o.id as nat});
  }

  lemma RemovedSide(
    resting: seq<Order>, idx: map<nat, nat>, slots: seq<Slot>, held: set<nat>, m: nat, slots': seq<Slot>,
    side: Side, levels: map<Price, PriceLevel>, levels': map<Price, PriceLevel>)
    requires IndexAgrees(resting, idx, slots, held) && m < |resting|
    requires Cut(resting, idx, slots, held, m, slots')
    requires SideRep(resting, side, levels, slots, idx)
    requires if side != resting[m].side then levels' == levels
             else resting[m].price in levels && resting[m].price in levels'
                  && levels' == levels[resting[m].price := levels'[resting[m].price]]
                  && CutLevel(resting, idx, m, levels[resting[m].price], levels'[resting[m].price])
    ensures SideRep(RemoveAt(resting, m), side, levels', slots', idx - {resting[m].id as nat})
  {
    hide Queue, RemoveAt, LevelOk, IndexAgrees, SlotSeq, Cut, CutLevel;
    var o := resting[m];
    var resting' := RemoveAt(resting, m);
    forall p: Price | Queue(resting', side, p) != [] ensures p in levels' {
      QueueRemove(resting, m, side, p);
    }
    forall p: Price | p in levels' ensures LevelOk(resting', side, p, levels'[p], slots', idx - {o.id as nat}) {
      if At(o, side, p) {
        RemovedLevel(resting, idx, slots, held, m, slots', levels[p], levels'[p]);
      } else {
        KeptLevel(resting, idx, slots, held, m, slots', side, p, levels[p]);
      }
    }
  }

  function LevelsOf(side: Side, bids: map<Price, PriceLevel>, asks: map<Price, PriceLevel>): map<Price, PriceLevel> {
    if side.Buy? then bids else asks
  }

  // The ladder of one side was written at one price.
  ghost predicate WrittenAt(
    side: Side, price: Price, level': PriceLevel, bids: map<Price, PriceLevel>, asks: map<Price, PriceLevel>,
    bids': map<Price, PriceLevel>, asks': map<Price, PriceLevel>)
  {
    && price in LevelsOf(side, bids, asks)
    && LevelsOf(side, bids', asks') == LevelsOf(side, bids, asks)[price := level']
    && LevelsOf(Opposite(side), bids', asks') == LevelsOf(Opposite(side), bids, asks)
  }

  lemma RepRemoved(
    resting: seq<Order>, idx: map<nat, nat>, slots: seq<Slot>, held: set<nat>,
    bids: map<Price, PriceLevel>, asks: map<Price, PriceLevel>, m: nat,
    slots': seq<Slot>, level': PriceLevel, bids': map<Price, PriceLevel>, asks': map<Price, PriceLevel>)
    requires Rep(resting, idx, slots, held, bids, asks) && m < |resting|
    requires Cut(resting, idx, slots, held, m, slots')
    requires WrittenAt(resting[m].side, resting[m].price, level', bids, asks, bids', asks')
    requires CutLevel(resting, idx, m, LevelsOf(resting[m].side, bids, asks)[resting[m].price], level')
    ensures Rep(RemoveAt(resting, m), idx - {resting[m].id as nat}, slots', held - {SlotFor(idx, resting[m].id)},
                bids', asks')
  {
    hide IndexAgrees, SideRep, Cut, CutLevel, RemoveAt, SlotFor;
    assert forall j :: j in held && j < |slots| && j != SlotFor(idx, resting[m].id) ==>
           slots'[j].value == slots[j].value by {
      CutValues(resting, idx, slots, held, m, slots');
    }
    CutValues(resting, idx, slots, held, m, slots');
    RemovedIndex(resting, idx, slots, held, m, slots');
    RemovedSide(resting, idx, slots, held, m, slots', Buy, bids, bids');
    RemovedSide(resting, idx, slots, held, m, slots', Sell, asks, asks');
  }

  lemma CutValues(
    resting: seq<Order>, idx: map<nat, nat>, slots: seq<Slot>, held: set<nat>, m: nat, slots': seq<Slot>)
    requires m < |resting| && Cut(resting, idx, slots, held, m, slots')
    ensures |slots'| == |slots|
    ensures forall j :: j in held && j < |slots| && j != SlotFor(idx, resting[m].id) ==>
            slots'[j].value == slots[j].value
  {
  }

  // What detaching the order at index m needs of its queue.
  lemma ReadyToCut(
    resting: seq<Order>, idx: map<nat, nat>, slots: seq<Slot>, held: set<nat>,
    bids: map<Price, PriceLevel>, asks: map<Price, PriceLevel>, m: nat)
    requires Rep(resting, idx, slots, held, bids, asks) && m < |resting|
    ensures var o := resting[m];
            var q := SlotsAt(resting, idx, o);
            var slot := SlotFor(idx, o.id);
            && o.price in LevelsOf(o.side, bids, asks)
            && Linked(slots, q) && Distinct(q) && (forall x :: x in q ==> x in held && x < |slots|)
            && Place(resting, m) < |q| && q[Place(resting, m)] == slot
            && slot < |slots| && slot in held && slots[slot].value == StoredOrder(o) && o.id in idx
            && Ends(LevelsOf(o.side, bids, asks)[o.price], q)
            && LevelsOf(o.side, bids, asks)[o.price].total >= o.qty
  {
    hide Queue, Linked, SlotOf, SideOf, Distinct, DistinctIds, ByArrival, OnlyLive, Total;
    var o := resting[m];
    var q := Queue(resting, o.side, o.price);
    assert EntryAt(o, idx, slots, held);
    QueueRemove(resting, m, o.side, o.price);
    QueueSlotsDistinct(resting, idx, slots, held, o.side, o.price);
    assert LevelOk(resting, o.side, o.price, LevelsOf(o.side, bids, asks)[o.price], slots, idx);
    TotalReplace(q, Place(resting, m), o);
  }

  // Filling in part ---------------------------------------------------------------------

  lemma EntriesFilled(
    resting: seq<Order>, idx: map<nat, nat>, slots: seq<Slot>, held: set<nat>, m: nat, o: Order, slot: nat)
    requires DistinctIds(resting) && Entries(resting, idx, slots, held) && m < |resting|
    requires o == resting[m].(qty := o.qty) && slot == SlotFor(idx, o.id)
    ensures slot in held && slot < |slots|
    ensures Entries(resting[m := o], idx, slots[slot := slots[slot].(value := StoredOrder(o))], held)
  {
    hide SlotOf, SideOf;
    var resting' := resting[m := o];
    assert EntryAt(resting[m], idx, slots, held);
    var slots' := slots[slot := slots[slot].(value := StoredOrder(o))];
    forall i | 0 <= i < |resting'| ensures EntryAt(resting'[i], idx, slots', held) {
      assert EntryAt(resting[i], idx, slots, held);
      assert i != m ==> resting[i].id != o.id;
    }
  }

  lemma LiveFilled(resting: seq<Order>, idx: map<nat, nat>, m: nat, o: Order)
    requires OnlyLive(resting, idx) && m < |resting| && o.id == resting[m].id
    ensures OnlyLive(resting[m := o], idx)
  {
    var resting' := resting[m := o];
    forall id | id in idx ensures exists i :: 0 <= i < |resting'| && resting'[i].id == id {
      var j :| 0 <= j < |resting| && resting[j].id == id;
      assert resting'[j].id == id;
    }
  }

  lemma OrderedFilled(resting: seq<Order>, m: nat, o: Order)
    requires DistinctIds(resting) && ByArrival(resting) && m < |resting|
    requires o.id == resting[m].id && o.arrival == resting[m].arrival
    ensures DistinctIds(resting[m := o]) && ByArrival(resting[m := o])
  {
  }

  lemma FilledIndex(
    resting: seq<Order>, idx: map<nat, nat>, slots: seq<Slot>, held: set<nat>, m: nat, o: Order, slot: nat)
    requires IndexAgrees(resting, idx, slots, held) && m < |resting|
    requires o == resting[m].(qty := o.qty) && slot == SlotFor(idx, o.id)
    ensures slot in held && slot < |slots|
    ensures IndexAgrees(resting[m := o], idx, slots[slot := slots[slot].(value := StoredOrder(o))], held)
  {
    hide DistinctIds, ByArrival, Entries, OnlyLive, SlotFor;
    EntriesFilled(resting, idx, slots, held, m, o, slot);
    LiveFilled(resting, idx, m, o);
    OrderedFilled(resting, m, o);
  }

  lemma FilledSide(
    resting: seq<Order>, idx: map<nat, nat>, slots: seq<Slot>, m: nat, o: Order, slot: nat,
    side: Side, levels: map<Price, PriceLevel>, levels': map<Price, PriceLevel>)
    requires m < |resting| && o == resting[m].(qty := o.qty) && slot < |slots|
    requires SideRep(resting, side, levels, slots, idx)
    requires if side != o.side then levels' == levels
             else && o.price in levels
                  && levels' == levels[o.price := levels[o.price].(total := Filled(levels[o.price], resting[m], o))]
    ensures SideRep(resting[m := o], side, levels', slots[slot := slots[slot].(value := StoredOrder(o))], idx)
  {
    hide Queue, LevelOk, SlotSeq;
    var resting', slots' := resting[m := o], slots[slot := slots[slot].(value := StoredOrder(o))];
    forall p: Price | Queue(resting', side, p) != [] ensures p in levels' {
      QueueReplace(resting, m, o, side, p);
    }
    forall p: Price | p in levels' ensures LevelOk(resting', side, p, levels'[p], slots', idx) {
      FilledLevel(resting, idx, slots, m, o, slot, side, p, levels[p]);
    }
  }

  // A level's total after an order of it went from one quantity to another.
  function Filled(level: PriceLevel, before: Order, after: Order): nat {
    if level.total + after.qty >= before.qty then level.total + after.qty - before.qty else 0
  }

  lemma FilledLevel(
    resting: seq<Order>, idx: map<nat, nat>, slots: seq<Slot>, m: nat, o: Order, slot: nat,
    side: Side, price: Price, level: PriceLevel)
    requires m < |resting| && o == resting[m].(qty := o.qty) && slot < |slots|
    requires LevelOk(resting, side, price, level, slots, idx)
    ensures LevelOk(resting[m := o], side, price,
                    if At(o, side, price) then level.(total := Filled(level, resting[m], o)) else level,
                    slots[slot := slots[slot].(value := StoredOrder(o))], idx)
  {
    hide Queue, Linked, Total;
    var q := Queue(resting, side, price);
    var slots' := slots[slot := slots[slot].(value := StoredOrder(o))];
    QueueReplace(resting, m, o, side, price);
    LinksFrame(slots, slots', SlotSeq(idx, q));
    if At(o, side, price) {
      TotalReplace(q, Place(resting, m), o);
      assert SlotSeq(idx, q[Place(resting, m) := o]) == SlotSeq(idx, q);
    }
  }

  lemma RepFilled(
    resting: seq<Order>, idx: map<nat, nat>, slots: seq<Slot>, held: set<nat>,
    bids: map<Price, PriceLevel>, asks: map<Price, PriceLevel>, m: nat, o: Order,
    bids': map<Price, PriceLevel>, asks': map<Price, PriceLevel>)
    requires Rep(resting, idx, slots, held, bids, asks) && m < |resting| && o == resting[m].(qty := o.qty)
    requires o.price in LevelsOf(o.side, bids, asks)
    requires var level := LevelsOf(o.side, bids, asks)[o.price];
             WrittenAt(o.side, o.price, level.(total := Filled(level, resting[m], o)), bids, asks, bids', asks')
    ensures var slot := SlotFor(idx, o.id);
            slot in held && slot < |slots|
            && Rep(resting[m := o], idx, slots[slot := slots[slot].(value := StoredOrder(o))], held, bids', asks')
  {
    hide IndexAgrees, SideRep, SlotFor;
    var slot := SlotFor(idx, o.id);
    FilledIndex(resting, idx, slots, held, m, o, slot);
    FilledSide(resting, idx, slots, m, o, slot, Buy, bids, bids');
    FilledSide(resting, idx, slots, m, o, slot, Sell, asks, asks');
  }

  // Appending -----------------------------------------------------------------------------

  // The slots after a new order was appended to the queue at its price.
  ghost predicate Joined(
    resting: seq<Order>, idx: map<nat, nat>, slots: seq<Slot>, held: set<nat>, o: Order, slot: nat, slots': seq<Slot>)
  {
    var s := SlotsAt(resting, idx, o);
    && |slots| <= |slots'| && slot < |slots'| && slot !in held
    && slots'[slot].value == StoredOrder(o)
    && Linked(slots', s + [slot])
    && (forall j :: j in held && j < |slots| && j !in s ==> slots'[j] == slots[j])
    && (forall j :: j in held && j < |slots| ==> slots'[j].value == slots[j].value)
  }

  lemma EntriesAppended(
    resting: seq<Order>, idx: map<nat, nat>, slots: seq<Slot>, held: set<nat>, o: Order, slot: nat, slots': seq<Slot>)
    requires Entries(resting, idx, slots, held) && o.id !in idx
    requires |slots| <= |slots'| && slot < |slots'| && slot !in held && slots'[slot].value == StoredOrder(o)
    requires forall j :: j in held && j < |slots| ==> slots'[j].value == slots[j].value
    requires slot < MAX_ORDERS
    ensures Entries(resting + [o], idx[o.id := IndexValue(slot, o.side)], slots', held + {slot})
    ensures forall i :: 0 <= i < |resting| ==> resting[i].id != o.id
  {
    hide IndexValue, SlotOf, SideOf;
    PackRoundTrip(slot, o.side);
    var resting', idx', held' := resting + [o], idx[o.id as nat := IndexValue(slot, o.side)], held + {slot};
    forall i | 0 <= i < |resting'| ensures EntryAt(resting'[i], idx', slots', held') {
      assert i < |resting| ==> EntryAt(resting[i], idx, slots, held);
    }
    forall i | 0 <= i < |resting| ensures resting[i].id != o.id {
      assert EntryAt(resting[i], idx, slots, held);
    }
  }

  lemma LiveAppended(resting: seq<Order>, idx: map<nat, nat>, o: Order, value: nat)
    requires OnlyLive(resting, idx)
    ensures OnlyLive(resting + [o], idx[o.id := value])
  {
    var resting' := resting + [o];
    var idx' := idx[o.id as nat := value];
    forall id | id in idx' ensures exists i :: 0 <= i < |resting'| && resting'[i].id == id {
      if id == o.id {
        assert resting'[|resting|].id == id;
      } else {
        var j :| 0 <= j < |resting| && resting[j].id == id;
        assert resting'[j].id == id;
      }
    }
  }

  lemma OrderedAppended(resting: seq<Order>, o: Order)
    requires DistinctIds(resting) && ByArrival(resting)
    requires forall i :: 0 <= i < |resting| ==> resting[i].arrival < o.arrival && resting[i].id != o.id
    ensures DistinctIds(resting + [o]) && ByArrival(resting + [o])
  {
  }

  lemma AppendedIndex(
    resting: seq<Order>, idx: map<nat, nat>, slots: seq<Slot>, held: set<nat>, o: Order, slot: nat, slots': seq<Slot>)
    requires IndexAgrees(resting, idx, slots, held) && o.id !in idx
    requires forall i :: 0 <= i < |resting| ==> resting[i].arrival < o.arrival
    requires |slots| <= |slots'| && slot < |slots'| && slot !in held && slots'[slot].value == StoredOrder(o)
    requires forall j :: j in held && j < |slots| ==> slots'[j].value == slots[j].value
    requires slot < MAX_ORDERS
    ensures IndexAgrees(resting + [o], idx[o.id := IndexValue(slot, o.side)], slots', held + {slot})
  {
    hide DistinctIds, ByArrival, Entries, OnlyLive, IndexValue, StoredOrder;
    EntriesAppended(resting, idx, slots, held, o, slot, slots');
    LiveAppended(resting, idx, o, IndexValue(slot, o.side));
    OrderedAppended(resting, o);
    assert |held + {slot}| == |held| + 1;
  }

  lemma AppendedSlots(idx: map<nat, nat>, q: seq<Order>, id: nat, value: nat)
    requires forall i :: 0 <= i < |q| ==> q[i].id != id
    ensures SlotSeq(idx[id := value], q) == SlotSeq(idx, q)
  {
  }

  lemma OneMoreSlot(idx: map<nat, nat>, q: seq<Order>, o: Order)
    ensures SlotSeq(idx, q + [o]) == SlotSeq(idx, q) + [SlotFor(idx, o.id)]
  {
  }

  lemma AppendedLevel(
    resting: seq<Order>, idx: map<nat, nat>, slots: seq<Slot>, held: set<nat>, o: Order, slot: nat, slots': seq<Slot>,
    level: PriceLevel, level': PriceLevel)
    requires IndexAgrees(resting, idx, slots, held) && o.id !in idx && slot < MAX_ORDERS
    requires Joined(resting, idx, slots, held, o, slot, slots')
    requires LevelOk(resting, o.side, o.price, level, slots, idx)
    requires Ends(level', SlotsAt(resting, idx, o) + [slot]) && level'.total == level.total + o.qty
    ensures LevelOk(resting + [o], o.side, o.price, level', slots', idx[o.id := IndexValue(slot, o.side)])
  {
    hide Queue, Linked, IndexAgrees, SlotSeq, IndexValue, SlotOf, SideOf;
    var q := Queue(resting, o.side, o.price);
    var idx' := idx[o.id as nat := IndexValue(slot, o.side)];
    PackRoundTrip(slot, o.side);
    QueueAppend(resting, o, o.side, o.price);
    NotIndexed(resting, idx, slots, held, o.side, o.price, o.id);
    AppendedSlots(idx, q, o.id, IndexValue(slot, o.side));
    OneMoreSlot(idx', q, o);
    TotalOfMore(q, o);
  }

  lemma TotalOfMore(q: seq<Order>, o: Order)
    ensures Total(q + [o]) == Total(q) + o.qty
  {
    assert (q + [o])[..|q|] == q;
  }

  lemma NotIndexed(
    resting: seq<Order>, idx: map<nat, nat>, slots: seq<Slot>, held: set<nat>, side: Side, price: Price, id: nat)
    requires IndexAgrees(resting, idx, slots, held) && id !in idx
    ensures forall i :: 0 <= i < |Queue(resting, side, price)| ==> Queue(resting, side, price)[i].id != id
  {
    hide Queue, IndexAgrees;
    forall i | 0 <= i < |Queue(resting, side, price)| ensures Queue(resting, side, price)[i].id != id {
      QueueSlot(resting, idx, slots, held, side, price, i);
    }
  }

  lemma UnjoinedLevel(
    resting: seq<Order>, idx: map<nat, nat>, slots: seq<Slot>, held: set<nat>, o: Order, slot: nat, slots': seq<Slot>,
    value: nat, side: Side, price: Price, level: PriceLevel)
    requires IndexAgrees(resting, idx, slots, held) && o.id !in idx
    requires Joined(resting, idx, slots, held, o, slot, slots')
    requires !At(o, side, price) && LevelOk(resting, side, price, level, slots, idx)
    ensures LevelOk(resting + [o], side, price, level, slots', idx[o.id := value])
  {
    hide Queue, Linked, IndexAgrees, SlotSeq, LevelOk;
    var q := Queue(resting, side, price);
    QueueAppend(resting, o, side, price);
    NotIndexed(resting, idx, slots, held, side, price, o.id);
    AppendedSlots(idx, q, o.id, value);
    QueuesApart(resting, idx, slots, held, side, price, o.side, o.price);
    QueueSlotsDistinct(resting, idx, slots, held, side, price);
    LevelFrame(resting, resting + [o], side, price, level, slots, slots', idx, idx[o.id as nat := value]);
  }

  lemma AppendedSide(
    resting: seq<Order>, idx: map<nat, nat>, slots: seq<Slot>, held: set<nat>, o: Order, slot: nat, slots': seq<Slot>,
    side: Side, levels: map<Price, PriceLevel>, levels': map<Price, PriceLevel>)
    requires IndexAgrees(resting, idx, slots, held) && o.id !in idx && slot < MAX_ORDERS
    requires Joined(resting, idx, slots, held, o, slot, slots')
    requires SideRep(resting, side, levels, slots, idx)
    requires if side != o.side then levels' == levels
             else o.price in levels && o.price in levels' && levels' == levels[o.price := levels'[o.price]]
                  && Ends(levels'[o.price], SlotsAt(resting, idx, o) + [slot])
                  && levels'[o.price].total == levels[o.price].total + o.qty
    ensures SideRep(resting + [o], side, levels', slots', idx[o.id := IndexValue(slot, o.side)])
  {
    hide Queue, LevelOk, IndexAgrees, SlotSeq, Joined, IndexValue, Ends;
    var resting', value := resting + [o], IndexValue(slot, o.side);
    forall p: Price | Queue(resting', side, p) != [] ensures p in levels' {
      QueueAppend(resting, o, side, p);
    }
    forall p: Price | p in levels' ensures LevelOk(resting', side, p, levels'[p], slots', idx[o.id as nat := value]) {
      if At(o, side, p) {
        AppendedLevel(resting, idx, slots, held, o, slot, slots', levels[p], levels'[p]);
      } else {
        UnjoinedLevel(resting, idx, slots, held, o, slot, slots', value, side, p, levels[p]);
      }
    }
  }

  lemma RepAppended(
    resting: seq<Order>, idx: map<nat, nat>, slots: seq<Slot>, held: set<nat>,
    bids: map<Price, PriceLevel>, asks: map<Price, PriceLevel>, o: Order, slot: nat,
    slots': seq<Slot>, level': PriceLevel, bids': map<Price, PriceLevel>, asks': map<Price, PriceLevel>)
    requires Rep(resting, idx, slots, held, bids, asks) && o.id !in idx && slot < MAX_ORDERS
    requires forall i :: 0 <= i < |resting| ==> resting[i].arrival < o.arrival
    requires Joined(resting, idx, slots, held, o, slot, slots')
    requires WrittenAt(o.side, o.price, level', bids, asks, bids', asks')
    requires Ends(level', SlotsAt(resting, idx, o) + [slot])
    requires level'.total == LevelsOf(o.side, bids, asks)[o.price].total + o.qty
    ensures Rep(resting + [o], idx[o.id := IndexValue(slot, o.side)], slots', held + {slot}, bids', asks')
  {
    hide IndexAgrees, SideRep, Joined, Ends, IndexValue, SlotsAt;
    JoinedValues(resting, idx, slots, held, o, slot, slots');
    AppendedIndex(resting, idx, slots, held, o, slot, slots');
    AppendedSide(resting, idx, slots, held, o, slot, slots', Buy, bids, bids');
    AppendedSide(resting, idx, slots, held, o, slot, slots', Sell, asks, asks');
  }

  lemma JoinedValues(
    resting: seq<Order>, idx: map<nat, nat>, slots: seq<Slot>, held: set<nat>, o: Order, slot: nat, slots': seq<Slot>)
    requires Joined(resting, idx, slots, held, o, slot, slots')
    ensures |slots| <= |slots'| && slot < |slots'| && slot !in held && slots'[slot].value == StoredOrder(o)
    ensures forall j :: j in held && j < |slots| ==> slots'[j].value == slots[j].value
  {
  }

  // The next maker -------------------------------------------------------------------------

  lemma QueueOfOrder(resting: seq<Order>, i: nat)
    requires i < |resting|
    ensures Queue(resting, resting[i].side, resting[i].price) != []
  {
    QueueMembers(resting, resting[i].side, resting[i].price);
    assert resting[i] in Queue(resting, resting[i].side, resting[i].price);
  }

  // The order a taker hits next rests at the best price.
  lemma MakerAtBest(resting: seq<Order>, side: Side, levels: map<Price, PriceLevel>, price: Price, i: nat)
    requires ByArrival(resting) && i < |resting| && At(resting[i], side, price)
    requires forall p: Price :: Queue(resting, side, p) != [] ==> p in levels
    requires BestOf(side, levels.Keys, price)
    ensures var m := NextMaker(resting, side);
            m.Some? && At(resting[m.value], side, price) && FirstOnSide(resting, side, m.value)
  {
    hide Queue;
    var m := NextMaker(resting, side).value;
    QueueOfOrder(resting, m);
    assert resting[m].price in levels.Keys;
    assert i == m || Before(resting[m], resting[i]);
  }

  lemma HeadSlot(
    resting: seq<Order>, idx: map<nat, nat>, slots: seq<Slot>, held: set<nat>,
    side: Side, level: PriceLevel, price: Price, m: nat)
    requires IndexAgrees(resting, idx, slots, held) && FirstOnSide(resting, side, m) && resting[m].price == price
    requires LevelOk(resting, side, price, level, slots, idx)
    ensures Place(resting, m) == 0 && level.head == SlotFor(idx, resting[m].id)
    ensures EntryAt(resting[m], idx, slots, held)
  {
    hide Queue, Linked;
    MakerIsHead(resting, side, m);
    assert EntryAt(resting[m], idx, slots, held);
  }

  // The order a taker hits next is the head of the best level's queue.
  lemma HeadIsMaker(
    resting: seq<Order>, idx: map<nat, nat>, slots: seq<Slot>, held: set<nat>,
    side: Side, levels: map<Price, PriceLevel>, price: Price)
    requires IndexAgrees(resting, idx, slots, held) && SideRep(resting, side, levels, slots, idx)
    requires BestOf(side, levels.Keys, price) && !levels[price].Empty()
    ensures var m := NextMaker(resting, side);
            && m.Some? && m.value < |resting| && At(resting[m.value], side, price)
            && Place(resting, m.value) == 0
            && levels[price].head == SlotFor(idx, resting[m.value].id)
            && EntryAt(resting[m.value], idx, slots, held)
            && LevelOk(resting, side, price, levels[price], slots, idx)
  {
    hide Queue, LevelOk, Entries, OnlyLive, NextMaker, EntryAt, Place;
    EmptyLevel(resting, side, price, levels[price], slots, idx);
    var i := QueueOrder(resting, side, price, 0);
    MakerAtBest(resting, side, levels, price, i);
    HeadSlot(resting, idx, slots, held, side, levels[price], price, NextMaker(resting, side).value);
  }

  // A side with no levels has no orders.
  lemma NoMaker(
    resting: seq<Order>, side: Side, levels: map<Price, PriceLevel>, slots: seq<Slot>, idx: map<nat, nat>)
    requires SideRep(resting, side, levels, slots, idx) && levels == map[]
    ensures NextMaker(resting, side).None?
  {
    hide Queue;
    var m := NextMaker(resting, side);
    if m.Some? {
      QueueOfOrder(resting, m.value);
    }
  }
}
