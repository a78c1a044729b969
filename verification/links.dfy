// A price level's queue, threaded both ways through the slots of the pool.
module Links {
  import opened Types
  import opened Pool

  datatype PriceLevel = PriceLevel(total: nat, head: nat, tail: nat) {
    predicate Empty() {
      head == NO_SLOT
    }
  }

  const NO_LEVEL := PriceLevel(0, NO_SLOT, NO_SLOT)

  function First(q: seq<nat>): nat {
    if q == [] then NO_SLOT else q[0]
  }

  function Last(q: seq<nat>): nat {
    if q == [] then NO_SLOT else q[|q| - 1]
  }

  function Neighbour(q: seq<nat>, k: int): nat {
    if 0 <= k < |q| then q[k] else NO_SLOT
  }

  // The k-th slot of q points at its neighbours in q.
  ghost predicate LinkedAt(slots: seq<Slot>, q: seq<nat>, k: nat)
    requires k < |q|
  {
    && q[k] < |slots| && q[k] != NO_SLOT
    && slots[q[k]].prev == Neighbour(q, k - 1)
    && slots[q[k]].next == Neighbour(q, k + 1)
  }

  ghost predicate Linked(slots: seq<Slot>, q: seq<nat>) {
    forall k :: 0 <= k < |q| ==> LinkedAt(slots, q, k)
  }

  ghost predicate Ends(level: PriceLevel, q: seq<nat>) {
    level.head == First(q) && level.tail == Last(q)
  }

  // What append writes to the slots.
  function Appended(slots: seq<Slot>, tail: nat, slot: nat): seq<Slot>
    requires slot < |slots| && (tail == NO_SLOT || tail < |slots|)
  {
    var linked := slots[slot := slots[slot].(prev := tail, next := NO_SLOT)];
    if tail == NO_SLOT then linked else linked[tail := linked[tail].(next := slot)]
  }

  lemma LastIsLinked(slots: seq<Slot>, q: seq<nat>)
    requires Linked(slots, q)
    ensures Last(q) == NO_SLOT || (Last(q) < |slots| && Last(q) in q)
    ensures Last(q) == NO_SLOT <==> q == []
    ensures First(q) == NO_SLOT <==> q == []
  {
    if q != [] {
      assert LinkedAt(slots, q, 0) && LinkedAt(slots, q, |q| - 1);
    }
  }

  lemma AppendLinksAt(slots: seq<Slot>, q: seq<nat>, slot: nat, k: nat)
    requires Linked(slots, q) && Distinct(q) && k <= |q|
    requires slot < |slots| && slot != NO_SLOT && slot !in q
    requires Last(q) == NO_SLOT || Last(q) < |slots|
    requires Last(q) == NO_SLOT <==> q == []
    ensures LinkedAt(Appended(slots, Last(q), slot), q + [slot], k)
  {
    if k < |q| {
      assert LinkedAt(slots, q, k) && q[k] in q;
      assert k < |q| - 1 ==> q[k] != q[|q| - 1];
    }
  }

  lemma AppendLinks(slots: seq<Slot>, q: seq<nat>, slot: nat)
    requires Linked(slots, q) && Distinct(q)
    requires slot < |slots| && slot != NO_SLOT && slot !in q
    ensures Last(q) == NO_SLOT || Last(q) < |slots|
    ensures Last(q) == NO_SLOT <==> q == []
    ensures Linked(Appended(slots, Last(q), slot), q + [slot]) && Distinct(q + [slot])
    ensures forall j :: 0 <= j < |slots| && j != slot && j !in q ==> Appended(slots, Last(q), slot)[j] == slots[j]
    ensures forall j :: 0 <= j < |slots| ==> Appended(slots, Last(q), slot)[j].value == slots[j].value
  {
    LastIsLinked(slots, q);
    forall k | 0 <= k < |q + [slot]| ensures LinkedAt(Appended(slots, Last(q), slot), q + [slot], k) {
      AppendLinksAt(slots, q, slot, k);
    }
    forall k | 0 <= k < |q| ensures q[k] != slot {
      assert q[k] in q;
    }
  }

  // What detach writes to the slots, before the slot is released.
  function Unlinked(slots: seq<Slot>, slot: nat): seq<Slot>
    requires slot < |slots|
    requires slots[slot].prev == NO_SLOT || slots[slot].prev < |slots|
    requires slots[slot].next == NO_SLOT || slots[slot].next < |slots|
  {
    var s := slots[slot];
    var forward := if s.prev == NO_SLOT then slots else slots[s.prev := slots[s.prev].(next := s.next)];
    if s.next == NO_SLOT then forward else forward[s.next := forward[s.next].(prev := s.prev)]
  }

  lemma RemovedEnds(q: seq<nat>, k: nat)
    requires k < |q|
    ensures First(RemoveAt(q, k)) == if k == 0 then Neighbour(q, 1) else q[0]
    ensures Last(RemoveAt(q, k)) == if k == |q| - 1 then Neighbour(q, k - 1) else Last(q)
  {
  }

  lemma NeighboursLinked(slots: seq<Slot>, q: seq<nat>, k: nat)
    requires Linked(slots, q) && k < |q|
    ensures q[k] < |slots| && q[k] != NO_SLOT
    ensures slots[q[k]].prev == Neighbour(q, k - 1) && slots[q[k]].next == Neighbour(q, k + 1)
    ensures k > 0 ==> q[k - 1] < |slots| && q[k - 1] != NO_SLOT
    ensures k + 1 < |q| ==> q[k + 1] < |slots| && q[k + 1] != NO_SLOT
  {
    assert LinkedAt(slots, q, k);
    assert k > 0 ==> LinkedAt(slots, q, k - 1);
    assert k + 1 < |q| ==> LinkedAt(slots, q, k + 1);
  }

  lemma DetachLinksAt(slots: seq<Slot>, q: seq<nat>, k: nat, j: nat)
    requires Linked(slots, q) && Distinct(q) && k < |q| && j < |q| - 1
    requires q[k] < |slots|
    requires slots[q[k]].prev == NO_SLOT || slots[q[k]].prev < |slots|
    requires slots[q[k]].next == NO_SLOT || slots[q[k]].next < |slots|
    ensures LinkedAt(Unlinked(slots, q[k]), RemoveAt(q, k), j)
  {
    var i := if j < k then j else j + 1;
    NeighboursLinked(slots, q, k);
    NeighboursLinked(slots, q, i);
    var q' := RemoveAt(q, k);
    hide RemoveAt;
    RemoveIndices(q, k);
    assert q'[j] == q[i];
    assert Neighbour(q', j - 1) == if j == k then Neighbour(q, k - 1) else Neighbour(q, i - 1);
    assert Neighbour(q', j + 1) == if j + 1 == k then Neighbour(q, k + 1) else Neighbour(q, i + 1);
    assert i + 1 < k ==> q[i] != q[k - 1];
    assert k + 1 < i ==> q[i] != q[k + 1];
  }

  lemma DetachLinks(slots: seq<Slot>, q: seq<nat>, k: nat)
    requires Linked(slots, q) && Distinct(q) && k < |q|
    ensures q[k] < |slots|
    ensures slots[q[k]].prev == Neighbour(q, k - 1) && (slots[q[k]].prev == NO_SLOT || slots[q[k]].prev < |slots|)
    ensures slots[q[k]].next == Neighbour(q, k + 1) && (slots[q[k]].next == NO_SLOT || slots[q[k]].next < |slots|)
    ensures Linked(Unlinked(slots, q[k]), RemoveAt(q, k)) && Distinct(RemoveAt(q, k)) && q[k] !in RemoveAt(q, k)
    ensures forall j :: 0 <= j < |slots| && j !in q ==> Unlinked(slots, q[k])[j] == slots[j]
    ensures forall j :: 0 <= j < |slots| ==> Unlinked(slots, q[k])[j].value == slots[j].value
  {
    hide Linked, LinkedAt, RemoveAt;
    NeighboursLinked(slots, q, k);
    DetachedLinks(slots, q, k);
    RemoveIndices(q, k);
  }

  lemma DetachedLinks(slots: seq<Slot>, q: seq<nat>, k: nat)
    requires Linked(slots, q) && Distinct(q) && k < |q| && q[k] < |slots|
    requires slots[q[k]].prev == NO_SLOT || slots[q[k]].prev < |slots|
    requires slots[q[k]].next == NO_SLOT || slots[q[k]].next < |slots|
    ensures Linked(Unlinked(slots, q[k]), RemoveAt(q, k))
  {
    hide Unlinked, LinkedAt, Distinct, RemoveAt;
    forall j | 0 <= j < |RemoveAt(q, k)| ensures LinkedAt(Unlinked(slots, q[k]), RemoveAt(q, k), j) {
      DetachLinksAt(slots, q, k, j);
    }
  }

  // A queue is not affected by writes to slots outside it.
  lemma LinksFrame(slots: seq<Slot>, slots': seq<Slot>, q: seq<nat>)
    requires Linked(slots, q) && |slots| <= |slots'|
    requires forall j :: j in q && j < |slots| ==> slots'[j].prev == slots[j].prev && slots'[j].next == slots[j].next
    ensures Linked(slots', q)
  {
    forall k | 0 <= k < |q| ensures LinkedAt(slots', q, k) {
      assert LinkedAt(slots, q, k) && q[k] in q;
    }
  }
}
