// A pool of slots addressed by index, with an intrusive last-in first-out free list.
module Pool {
  import opened Types

  // What the book keeps of a resting order: the side is in the id index instead.
  datatype RestingOrder = RestingOrder(id: OrderId, price: Price, qty: Quantity, owner: ParticipantId)

  const BLANK := RestingOrder(0, 0, 0, 0)

  datatype Slot = Slot(value: RestingOrder, prev: nat, next: nat)

  // Chains of next links -----------------------------------------------------------

  // path starts at head and follows next links; the slot after its last one is end.
  ghost predicate Path(slots: seq<Slot>, head: nat, path: seq<nat>, end: nat) {
    && (forall k :: 0 <= k < |path| ==> path[k] < |slots| && path[k] != NO_SLOT)
    && (if path == [] then end == head else path[0] == head && slots[path[|path| - 1]].next == end)
    && (forall k :: 0 <= k < |path| - 1 ==> slots[path[k]].next == path[k + 1])
  }

  ghost predicate Distinct(s: seq<nat>) {
    forall i, j :: 0 <= i < j < |s| ==> s[i] != s[j]
  }

  // The chain from head ends, stays below used, and repeats no slot.
  ghost predicate FreeChain(slots: seq<Slot>, used: nat, head: nat, chain: seq<nat>) {
    && Path(slots, head, chain, NO_SLOT)
    && (forall k :: 0 <= k < |chain| ==> chain[k] < used)
    && Distinct(chain)
  }

  // Each slot has one successor, so a path is fixed by its head and its length...
  lemma {:induction false} PathPrefix(slots: seq<Slot>, head: nat, a: seq<nat>, endA: nat, b: seq<nat>, endB: nat)
    requires Path(slots, head, a, endA) && Path(slots, head, b, endB) && |a| <= |b|
    ensures a <= b
    ensures if |a| == |b| then endA == endB else b[|a|] == endA
  {
    if a != [] {
      var n := |a| - 1;
      assert Path(slots, head, a[..n], a[n]);
      PathPrefix(slots, head, a[..n], a[n], b, endB);
    }
  }

  // ...and a path that ends repeats no slot.
  lemma {:induction false} EndedPathRepeats(slots: seq<Slot>, head: nat, path: seq<nat>, i: nat, j: nat)
    requires Path(slots, head, path, NO_SLOT)
    requires i < j < |path|
    ensures path[i] != path[j]
    decreases |path| - j
  {
    assert slots[path[i]].next == path[i + 1];
    if j + 1 < |path| {
      assert slots[path[j]].next == path[j + 1];
      EndedPathRepeats(slots, head, path, i + 1, j + 1);
    }
  }

  lemma EndedPathDistinct(slots: seq<Slot>, head: nat, path: seq<nat>)
    requires Path(slots, head, path, NO_SLOT)
    ensures Distinct(path)
  {
    forall i, j | 0 <= i < j < |path| ensures path[i] != path[j] {
      EndedPathRepeats(slots, head, path, i, j);
    }
  }

  function Below(n: nat): (s: set<nat>)
    ensures forall i: nat :: i in s <==> i < n
    ensures |s| == n
  {
    if n == 0 then {} else Below(n - 1) + {n - 1}
  }

  function Members(s: seq<nat>): set<nat> {
    set i | i in s
  }

  lemma {:induction false} MembersSize(s: seq<nat>)
    requires Distinct(s)
    ensures |Members(s)| == |s|
  {
    if s != [] {
      var n := |s| - 1;
      MembersSize(s[..n]);
      assert s == s[..n] + [s[n]];
      assert s[n] !in s[..n];
      assert Members(s) == Members(s[..n]) + {s[n]};
    }
  }

  lemma SubsetSize(a: set<nat>, b: set<nat>)
    requires a <= b
    ensures |a| <= |b|
    ensures |b - a| == |b| - |a|
  {
    assert b == a + (b - a);
  }

  lemma ChainFits(slots: seq<Slot>, used: nat, head: nat, chain: seq<nat>)
    requires FreeChain(slots, used, head, chain)
    ensures |chain| <= used
  {
    MembersSize(chain);
    SubsetSize(Members(chain), Below(used));
  }

  lemma WalkInside(slots: seq<Slot>, used: nat, head: nat, chain: seq<nat>, walked: seq<nat>, i: nat)
    requires FreeChain(slots, used, head, chain)
    requires Path(slots, head, walked, i) && i != NO_SLOT
    ensures i < used && |walked| < used
  {
    ChainFits(slots, used, head, chain);
    if |chain| <= |walked| {
      PathPrefix(slots, head, chain, NO_SLOT, walked, i);
    } else {
      PathPrefix(slots, head, walked, i, chain, NO_SLOT);
    }
  }

  // The pool's state ------------------------------------------------------------------

  // Free and held slots partition [0, used), and the free list threads the free ones.
  ghost predicate Partitioned(
    slots: seq<Slot>, used: nat, live: nat, head: nat, free: seq<nat>, held: set<nat>)
  {
    && 0 < |slots| && used <= |slots| && used <= NO_SLOT
    && FreeChain(slots, used, head, free)
    && held == Below(used) - Members(free)
    && |free| + live == used
    && |held| == live
  }

  lemma HeldAreUsed(slots: seq<Slot>, used: nat, live: nat, head: nat, free: seq<nat>, held: set<nat>)
    requires Partitioned(slots, used, live, head, free, held)
    ensures forall i :: i in held ==> i < used <= |slots| && i < NO_SLOT && i !in free
  {
  }

  lemma Sizes(slots: seq<Slot>, used: nat, live: nat, head: nat, free: seq<nat>, held: set<nat>)
    requires Partitioned(slots, used, live, head, free, held)
    ensures |free| + live == used <= |slots| && 0 < |slots|
    ensures head != NO_SLOT <==> free != []
  {
  }

  lemma ChainTail(slots: seq<Slot>, used: nat, head: nat, chain: seq<nat>)
    requires FreeChain(slots, used, head, chain) && chain != []
    ensures head == chain[0] && head < used && head < |slots| && head != NO_SLOT && head !in chain[1..]
    ensures FreeChain(slots, used, slots[head].next, chain[1..])
  {
    var rest := chain[1..];
    assert forall k :: 0 <= k < |rest| ==> rest[k] == chain[k + 1];
    if rest == [] {
      assert chain[|chain| - 1] == head;
    } else {
      assert slots[chain[0]].next == chain[1];
    }
  }

  lemma ChainCons(slots: seq<Slot>, used: nat, i: nat, chain: seq<nat>)
    requires i < |slots| && i < used && i != NO_SLOT && i !in chain
    requires FreeChain(slots, used, slots[i].next, chain)
    ensures FreeChain(slots, used, i, [i] + chain)
  {
    var longer := [i] + chain;
    assert forall k :: 1 <= k < |longer| ==> longer[k] == chain[k - 1];
  }

  // A chain is not affected by writes to slots it does not go through.
  lemma ChainFrame(slots: seq<Slot>, used: nat, head: nat, chain: seq<nat>, i: nat, slot: Slot)
    requires FreeChain(slots, used, head, chain) && i < |slots| && i !in chain
    ensures FreeChain(slots[i := slot], used, head, chain)
  {
    assert forall k :: 0 <= k < |chain| ==> chain[k] != i;
  }

  lemma MembersTail(s: seq<nat>)
    requires s != []
    ensures Members(s) == Members(s[1..]) + {s[0]}
    ensures s[0] in Members(s[1..]) <==> s[0] in s[1..]
  {
    assert s == [s[0]] + s[1..];
  }

  lemma ReusedSlot(slots: seq<Slot>, used: nat, live: nat, head: nat, free: seq<nat>, held: set<nat>)
    requires Partitioned(slots, used, live, head, free, held) && free != []
    ensures head == free[0] && head < used && head < |slots| && head !in held && head != NO_SLOT
    ensures Partitioned(slots[head := slots[head].(prev := NO_SLOT, next := NO_SLOT)], used, live + 1,
                        slots[head].next, free[1..], held + {head})
  {
    hide FreeChain, Members;
    ChainTail(slots, used, head, free);
    ChainFrame(slots, used, slots[head].next, free[1..], head, slots[head].(prev := NO_SLOT, next := NO_SLOT));
    MembersTail(free);
    assert held + {head} == Below(used) - Members(free[1..]);
  }

  lemma FreshSlot(slots: seq<Slot>, used: nat, live: nat, head: nat, held: set<nat>, longer: seq<Slot>)
    requires Partitioned(slots, used, live, head, [], held) && used < |longer| && used < NO_SLOT
    ensures live == used && used !in held && head == NO_SLOT
    ensures Partitioned(longer[used := longer[used].(prev := NO_SLOT, next := NO_SLOT)], used + 1, live + 1,
                        NO_SLOT, [], held + {used})
  {
    assert Members([]) == {};
    assert held == Below(used);
    assert held + {used} == Below(used + 1);
  }

  lemma ReleasedSlot(
    slots: seq<Slot>, used: nat, live: nat, head: nat, free: seq<nat>, held: set<nat>, i: nat)
    requires Partitioned(slots, used, live, head, free, held) && i in held
    ensures 0 < live && i < used
    ensures Partitioned(slots[i := slots[i].(prev := NO_SLOT, next := head)], used, live - 1, i, [i] + free, held - {i})
  {
    hide FreeChain;
    HeldAreUsed(slots, used, live, head, free, held);
    var slots' := slots[i := slots[i].(prev := NO_SLOT, next := head)];
    ChainFrame(slots, used, head, free, i, slots'[i]);
    ChainCons(slots', used, i, free);
    assert Members([i] + free) == Members(free) + {i};
    assert held - {i} == Below(used) - Members([i] + free);
    assert |held - {i}| == |held| - 1;
  }

  // Writing a held slot leaves the free list alone.
  lemma WrittenSlot(
    slots: seq<Slot>, used: nat, live: nat, head: nat, free: seq<nat>, held: set<nat>, i: nat, slot: Slot)
    requires Partitioned(slots, used, live, head, free, held) && i in held
    ensures i < |slots|
    ensures Partitioned(slots[i := slot], used, live, head, free, held)
  {
    hide FreeChain;
    HeldAreUsed(slots, used, live, head, free, held);
    ChainFrame(slots, used, head, free, i, slot);
  }

  class SlotPool {
    var slots: seq<Slot>
    var used: nat       // slots [0, used) were handed out at least once
    var live: nat
    var freeHead: nat
    var growths: nat

    ghost var free: seq<nat>    // the free list, next to be reused first
    ghost var held: set<nat>    // slots handed out and not released

    ghost predicate Valid()
      reads this
    {
      Partitioned(slots, used, live, freeHead, free, held)
    }

    constructor (capacity: nat)
      ensures Valid() && held == {} && used == live == growths == 0 && free == []
      ensures |slots| == (if capacity == 0 then 1 else capacity)
    {
      slots := seq(if capacity == 0 then 1 else capacity, _ => Slot(BLANK, NO_SLOT, NO_SLOT));
      used, live, growths, freeHead := 0, 0, 0, NO_SLOT;
      free, held := [], {};
    }

    // Doubles the block; every index and value survives.
    method Grow()
      requires 0 < |slots| < NO_SLOT
      modifies this`slots, this`growths
      ensures |slots| == Min(2 * old(|slots|), NO_SLOT)
      ensures forall j :: 0 <= j < |old(slots)| ==> slots[j] == old(slots)[j]
      ensures growths == old(growths) + 1
    {
      var bigger := if |slots| > NO_SLOT / 2 then NO_SLOT else |slots| * 2;
      slots := slots + seq(bigger - |slots|, _ => Slot(BLANK, NO_SLOT, NO_SLOT));
      growths := growths + 1;
    }

    // The state after slot i is handed out, from the state before.
    ghost predicate Handed(slots0: seq<Slot>, live0: nat, held0: set<nat>, i: nat)
      reads this
    {
      && i !in held0 && held == held0 + {i} && live == live0 + 1 && i < used
      && |slots0| <= |slots| && i < |slots|
      && (forall j :: 0 <= j < |slots0| && j != i ==> slots[j] == slots0[j])
      && slots[i].prev == slots[i].next == NO_SLOT
      && (live0 < |slots0| ==> |slots| == |slots0|)
    }

    // The slot freed last, or else a slot never used before. The pool grows exactly when
    // every slot it has is live.
    method Acquire() returns (i: nat)
      requires Valid() && live < NO_SLOT
      modifies this
      ensures Valid()
      ensures Handed(old(slots), old(live), old(held), i)
      ensures i == if old(free) != [] then old(free)[0] else old(used)
      ensures free == if old(free) != [] then old(free)[1..] else []
      ensures used == if old(used) <= old(live) then live else old(used)
      ensures growths == old(growths) + if old(live) == |old(slots)| then 1 else 0
    {
      hide Partitioned, Handed;
      Sizes(slots, used, live, freeHead, free, held);
      if freeHead != NO_SLOT {
        i := TakeFree();
      } else {
        i := TakeNew();
      }
    }

    method TakeFree() returns (i: nat)
      requires Valid() && freeHead != NO_SLOT
      modifies this`slots, this`live, this`freeHead, this`free, this`held
      ensures Valid() && Handed(old(slots), old(live), old(held), i)
      ensures old(free) != [] && i == old(free)[0] && free == old(free)[1..]
    {
      hide Partitioned;
      Sizes(slots, used, live, freeHead, free, held);
      ReusedSlot(slots, used, live, freeHead, free, held);
      i := freeHead;
      freeHead := slots[i].next;
      free := free[1..];
      slots := slots[i := slots[i].(prev := NO_SLOT, next := NO_SLOT)];
      live := live + 1;
      held := held + {i};
    }

    method TakeNew() returns (i: nat)
      requires Valid() && freeHead == NO_SLOT && live < NO_SLOT
      modifies this`slots, this`live, this`used, this`held, this`growths
      ensures Valid() && Handed(old(slots), old(live), old(held), i)
      ensures i == old(used) == old(live) && used == live && free == []
      ensures growths == old(growths) + if old(live) == |old(slots)| then 1 else 0
    {
      hide Partitioned;
      Sizes(slots, used, live, freeHead, free, held);
      ghost var before := slots;
      if used == |slots| {
        Grow();
      }
      FreshSlot(before, used, live, freeHead, held, slots);
      i := used;
      used := used + 1;
      slots := slots[i := slots[i].(prev := NO_SLOT, next := NO_SLOT)];
      live := live + 1;
      held := held + {i};
    }

    method Release(i: nat)
      requires Valid() && i in held
      modifies this
      ensures Valid()
      ensures held == old(held) - {i} && free == [i] + old(free) && used == old(used) && live == old(live) - 1
      ensures |slots| == |old(slots)|
      ensures forall j :: 0 <= j < |slots| && j != i ==> slots[j] == old(slots)[j]
      ensures growths == old(growths)
    {
      hide Partitioned;
      ReleasedSlot(slots, used, live, freeHead, free, held, i);
      HeldAreUsed(slots, used, live, freeHead, free, held);
      slots := slots[i := slots[i].(prev := NO_SLOT, next := freeHead)];
      freeHead := i;
      live := live - 1;
      free := [i] + free;
      held := held - {i};
    }

    // Writes through operator[], which reach held slots only.
    method Write(i: nat, slot: Slot)
      requires Valid() && i in held
      modifies this`slots
      ensures Valid() && i < |slots| && slots == old(slots)[i := slot]
    {
      hide Partitioned;
      WrittenSlot(slots, used, live, freeHead, free, held, i, slot);
      slots := slots[i := slot];
    }

    // The free chain is in range, repeats no slot and, with the live slots, accounts for
    // every slot used: true of a pool in any state exactly when such a chain is there.
    method Consistent() returns (ok: bool)
      requires used <= |slots| && used <= NO_SLOT
      ensures ok <==> exists chain :: FreeChain(slots, used, freeHead, chain) && |chain| + live == used
    {
      var freeCount := 0;
      var i: nat := freeHead;
      ghost var walked: seq<nat> := [];
      while i != NO_SLOT
        invariant |walked| == freeCount <= used
        invariant Path(slots, freeHead, walked, i)
        invariant forall k :: 0 <= k < |walked| ==> walked[k] < used
        decreases used - freeCount
      {
        if i >= used || freeCount + 1 > used {
          forall chain ensures !FreeChain(slots, used, freeHead, chain) {
            if FreeChain(slots, used, freeHead, chain) {
              WalkInside(slots, used, freeHead, chain, walked, i);
            }
          }
          return false;
        }
        freeCount := freeCount + 1;
        walked := walked + [i];
        i := slots[i].next;
      }
      EndedPathDistinct(slots, freeHead, walked);
      assert FreeChain(slots, used, freeHead, walked);
      forall chain | FreeChain(slots, used, freeHead, chain) ensures |chain| == freeCount {
        if |chain| <= |walked| {
          PathPrefix(slots, freeHead, chain, NO_SLOT, walked, NO_SLOT);
        } else {
          PathPrefix(slots, freeHead, walked, NO_SLOT, chain, NO_SLOT);
        }
      }
      ok := freeCount + live == used;
    }

    // A pool kept by its own operations is consistent.
    lemma ValidIsConsistent()
      requires Valid()
      ensures exists chain :: FreeChain(slots, used, freeHead, chain) && |chain| + live == used
    {
      assert FreeChain(slots, used, freeHead, free);
    }
  }
}
