// The per-book arena of map nodes: blocks carved from slabs and recycled through one free
// list per 16-byte size class. Addresses are numbers, and 0 is the null pointer.
module Arena {
  import opened Types

  const GRANULE := 16
  const MAX_BLOCK := 256
  const SLAB_BYTES := 65536
  const CLASSES := 17

  datatype Slab = Slab(at: nat, bytes: nat)

  function SizeClass(bytes: nat): (c: nat)
    requires bytes <= MAX_BLOCK
    ensures 1 <= c < CLASSES && bytes <= c * GRANULE
    ensures bytes > 0 ==> c * GRANULE < bytes + GRANULE
  {
    if bytes == 0 then 1 else (bytes + GRANULE - 1) / GRANULE
  }

  predicate Apart(a: nat, sizeA: nat, b: nat, sizeB: nat) {
    a + sizeA <= b || b + sizeB <= a
  }

  // A block lies in a slab, after its header.
  predicate Inside(at: nat, size: nat, slab: Slab) {
    slab.at + GRANULE <= at && at + size <= slab.at + slab.bytes
  }

  ghost predicate InSlab(slabs: seq<Slab>, at: nat, size: nat) {
    exists i :: 0 <= i < |slabs| && Inside(at, size, slabs[i])
  }

  ghost predicate SlabsOk(slabs: seq<Slab>) {
    && (forall i :: 0 <= i < |slabs| ==> slabs[i].at > 0 && slabs[i].at % GRANULE == 0 && slabs[i].bytes >= GRANULE)
    && (forall i, j :: 0 <= i < |slabs| && 0 <= j < |slabs| && i != j ==>
          Apart(slabs[i].at, slabs[i].bytes, slabs[j].at, slabs[j].bytes))
  }

  // What the system allocator gives: aligned, and overlapping no slab the arena has.
  ghost predicate FreshRegion(slabs: seq<Slab>, at: nat, bytes: nat) {
    at > 0 && at % GRANULE == 0 && forall i :: 0 <= i < |slabs| ==> Apart(at, bytes, slabs[i].at, slabs[i].bytes)
  }

  // The blocks carved so far, by address and size class: aligned, in a slab, and never
  // overlapping one another.
  ghost predicate BlocksOk(slabs: seq<Slab>, blocks: map<nat, nat>) {
    && (forall a :: a in blocks ==>
          a > 0 && a % GRANULE == 0 && 1 <= blocks[a] < CLASSES && InSlab(slabs, a, blocks[a] * GRANULE))
    && (forall a, b :: a in blocks && b in blocks && a != b ==>
          Apart(a, blocks[a] * GRANULE, b, blocks[b] * GRANULE))
  }

  // The unused tail of the newest slab, which no block reaches into.
  ghost predicate TailOk(slabs: seq<Slab>, blocks: map<nat, nat>, cursor: nat, limit: nat) {
    && cursor <= limit && cursor % GRANULE == 0
    && (slabs == [] ==> cursor == limit == 0)
    && (slabs != [] ==>
          var s := slabs[|slabs| - 1];
          s.at + GRANULE <= cursor && limit == s.at + s.bytes)
    && (forall a :: a in blocks ==> Apart(a, blocks[a] * GRANULE, cursor, limit - cursor))
  }

  function At(chain: seq<nat>, k: nat): nat {
    if k < |chain| then chain[k] else 0
  }

  ghost predicate LinkAt(next: map<nat, nat>, chain: seq<nat>, k: nat)
    requires k < |chain|
  {
    chain[k] > 0 && chain[k] in next && next[chain[k]] == At(chain, k + 1)
  }

  // The chain of free blocks of one class, from its head.
  ghost predicate ChainOk(next: map<nat, nat>, head: nat, chain: seq<nat>) {
    head == At(chain, 0) && forall k :: 0 <= k < |chain| ==> LinkAt(next, chain, k)
  }

  // A block is live, or on the free list of its class, and there once.
  ghost predicate ListsOk(blocks: map<nat, nat>, live: set<nat>, free: seq<seq<nat>>) {
    && |free| == CLASSES && live <= blocks.Keys
    && (forall a :: a in blocks ==> blocks[a] < CLASSES)
    && (forall c :: 0 <= c < CLASSES ==> Unrepeated(free[c]))
    && (forall c, a :: 0 <= c < CLASSES && a in free[c] ==> a in blocks && blocks[a] == c && a !in live)
    && (forall a :: a in blocks && a !in live ==> a in free[blocks[a]])
  }

  ghost predicate Unrepeated(s: seq<nat>) {
    forall i, j :: 0 <= i < j < |s| ==> s[i] != s[j]
  }

  function SlabBytes(slabs: seq<Slab>): nat {
    if slabs == [] then 0 else SlabBytes(slabs[..|slabs| - 1]) + slabs[|slabs| - 1].bytes
  }

  // The bytes of all carved blocks, added in any order.
  ghost function CarvedBytes(blocks: map<nat, nat>): nat
    decreases blocks.Keys
  {
    if blocks == map[] then 0
    else
      var a :| a in blocks;
      blocks[a] * GRANULE + CarvedBytes(blocks - {a})
  }

  lemma {:induction false} CarvedRemove(blocks: map<nat, nat>, a: nat)
    requires a in blocks
    ensures CarvedBytes(blocks) == blocks[a] * GRANULE + CarvedBytes(blocks - {a})
    decreases blocks.Keys
  {
    var b :| b in blocks && CarvedBytes(blocks) == blocks[b] * GRANULE + CarvedBytes(blocks - {b});
    if a != b {
      CarvedRemove(blocks - {b}, a);
      CarvedRemove(blocks - {a}, b);
      assert blocks - {b} - {a} == blocks - {a} - {b};
    }
  }

  lemma CarvedAdd(blocks: map<nat, nat>, a: nat, c: nat)
    requires a !in blocks
    ensures CarvedBytes(blocks[a := c]) == CarvedBytes(blocks) + c * GRANULE
  {
    CarvedRemove(blocks[a := c], a);
    assert blocks[a := c] - {a} == blocks;
  }

  // Every slab byte is a header, a carved block, abandoned, or the unused tail; and under 256
  // bytes are abandoned for each slab retired.
  ghost predicate Accounted(
    slabs: seq<Slab>, blocks: map<nat, nat>, slabTotal: nat, abandoned: nat, cursor: nat, limit: nat)
  {
    && slabTotal == SlabBytes(slabs)
    && slabTotal + cursor == GRANULE * |slabs| + CarvedBytes(blocks) + abandoned + limit
    && (slabs == [] ==> abandoned == 0)
    && (slabs != [] ==> abandoned <= (MAX_BLOCK - 1) * (|slabs| - 1))
  }

  lemma SlabAdded(
    slabs: seq<Slab>, blocks: map<nat, nat>, slabTotal: nat, abandoned: nat, cursor: nat, limit: nat, at: nat,
    bytes: nat)
    requires SlabsOk(slabs) && BlocksOk(slabs, blocks) && TailOk(slabs, blocks, cursor, limit)
    requires Accounted(slabs, blocks, slabTotal, abandoned, cursor, limit)
    requires FreshRegion(slabs, at, bytes) && bytes >= GRANULE && limit - cursor < MAX_BLOCK
    ensures var slabs' := slabs + [Slab(at, bytes)];
            && SlabsOk(slabs') && BlocksOk(slabs', blocks) && TailOk(slabs', blocks, at + GRANULE, at + bytes)
            && Accounted(slabs', blocks, slabTotal + bytes, abandoned + limit - cursor, at + GRANULE, at + bytes)
  {
    var slabs' := slabs + [Slab(at, bytes)];
    assert slabs'[..|slabs|] == slabs;
    forall a | a in blocks
      ensures InSlab(slabs', a, blocks[a] * GRANULE) && Apart(a, blocks[a] * GRANULE, at + GRANULE, bytes - GRANULE)
    {
      var i :| 0 <= i < |slabs| && Inside(a, blocks[a] * GRANULE, slabs[i]);
      assert slabs'[i] == slabs[i];
      assert Inside(a, blocks[a] * GRANULE, slabs'[i]);
    }
  }

  lemma CarvedInSlab(slabs: seq<Slab>, blocks: map<nat, nat>, cursor: nat, limit: nat, size: nat)
    requires SlabsOk(slabs) && TailOk(slabs, blocks, cursor, limit) && 0 < size <= limit - cursor
    ensures cursor > 0 && cursor % GRANULE == 0 && InSlab(slabs, cursor, size)
  {
    var n := |slabs| - 1;
    assert Inside(cursor, size, slabs[n]);
  }

  lemma CarvedApart(slabs: seq<Slab>, blocks: map<nat, nat>, cursor: nat, limit: nat, size: nat)
    requires BlocksOk(slabs, blocks) && TailOk(slabs, blocks, cursor, limit) && 0 < size <= limit - cursor
    ensures cursor !in blocks
    ensures forall a :: a in blocks ==> Apart(a, blocks[a] * GRANULE, cursor, size)
    ensures forall a :: a in blocks ==> Apart(a, blocks[a] * GRANULE, cursor + size, limit - (cursor + size))
  {
  }

  lemma BlockCarved(
    slabs: seq<Slab>, blocks: map<nat, nat>, slabTotal: nat, abandoned: nat, cursor: nat, limit: nat, c: nat)
    requires SlabsOk(slabs) && BlocksOk(slabs, blocks) && TailOk(slabs, blocks, cursor, limit)
    requires Accounted(slabs, blocks, slabTotal, abandoned, cursor, limit)
    requires 1 <= c < CLASSES && c * GRANULE <= limit - cursor
    ensures cursor !in blocks && cursor > 0
    ensures BlocksOk(slabs, blocks[cursor := c]) && TailOk(slabs, blocks[cursor := c], cursor + c * GRANULE, limit)
    ensures Accounted(slabs, blocks[cursor := c], slabTotal, abandoned, cursor + c * GRANULE, limit)
  {
    hide InSlab, SlabsOk, CarvedBytes, SlabBytes;
    CarvedInSlab(slabs, blocks, cursor, limit, c * GRANULE);
    CarvedApart(slabs, blocks, cursor, limit, c * GRANULE);
    CarvedAdd(blocks, cursor, c);
  }

  // Live blocks hold their ground: no two overlap, and none reaches into a free block, a slab
  // header, or the unused tail.
  lemma LiveBlocksApart(slabs: seq<Slab>, blocks: map<nat, nat>, cursor: nat, limit: nat, a: nat, b: nat, i: nat)
    requires SlabsOk(slabs) && BlocksOk(slabs, blocks) && TailOk(slabs, blocks, cursor, limit)
    requires a in blocks && b in blocks && a != b && i < |slabs|
    ensures Apart(a, blocks[a] * GRANULE, b, blocks[b] * GRANULE)
    ensures Apart(a, blocks[a] * GRANULE, slabs[i].at, GRANULE)
    ensures Apart(a, blocks[a] * GRANULE, cursor, limit - cursor)
  {
    var j :| 0 <= j < |slabs| && Inside(a, blocks[a] * GRANULE, slabs[j]);
    assert i != j ==> Apart(slabs[i].at, slabs[i].bytes, slabs[j].at, slabs[j].bytes);
  }

  lemma ChainTaken(next: map<nat, nat>, head: nat, chain: seq<nat>)
    requires ChainOk(next, head, chain) && chain != []
    ensures head == chain[0] && head in next && ChainOk(next, next[head], chain[1..])
  {
    var rest := chain[1..];
    assert LinkAt(next, chain, 0);
    forall k | 0 <= k < |rest| ensures LinkAt(next, rest, k) {
      assert LinkAt(next, chain, k + 1);
    }
  }

  lemma ChainPut(next: map<nat, nat>, head: nat, chain: seq<nat>, p: nat)
    requires ChainOk(next, head, chain) && p !in chain && p > 0
    ensures ChainOk(next[p := head], p, [p] + chain)
  {
    var longer, next' := [p] + chain, next[p := head];
    forall k | 0 <= k < |longer| ensures LinkAt(next', longer, k) {
      if k > 0 {
        assert LinkAt(next, chain, k - 1) && chain[k - 1] in chain;
      }
    }
  }

  lemma ChainElsewhere(next: map<nat, nat>, head: nat, chain: seq<nat>, p: nat, to: nat)
    requires ChainOk(next, head, chain) && p !in chain
    ensures ChainOk(next[p := to], head, chain)
  {
    var next' := next[p := to];
    forall k | 0 <= k < |chain| ensures LinkAt(next', chain, k) {
      assert LinkAt(next, chain, k) && chain[k] in chain;
    }
  }

  class NodeArena {
    const heads: array<nat>         // head of each class's free list, 0 when it is empty
    var next: map<nat, nat>         // the link stored in each free block
    var slabs: seq<Slab>            // the chain of slab headers, newest last
    var cursor: nat                 // unused tail of the newest slab
    var limit: nat
    var slabTotal: nat

    ghost var blocks: map<nat, nat> // every block ever carved, and its size class
    ghost var live: set<nat>        // blocks handed out and not given back
    ghost var free: seq<seq<nat>>   // the free list of each class, next to be reused first
    ghost var abandoned: nat        // bytes left over in retired slabs

    ghost predicate Valid()
      reads this, heads
    {
      && SlabsOk(slabs) && BlocksOk(slabs, blocks) && TailOk(slabs, blocks, cursor, limit)
      && Accounted(slabs, blocks, slabTotal, abandoned, cursor, limit)
      && ListsOk(blocks, live, free)
      && heads.Length == CLASSES
      && forall c :: 0 <= c < CLASSES ==> ChainOk(next, heads[c], free[c])
    }

    // A slab for reserve bytes, at the address the system gives, if any are asked for.
    constructor (reserve: nat, system: nat)
      requires FreshRegion([], system, if reserve + GRANULE > SLAB_BYTES then reserve + GRANULE else SLAB_BYTES)
      ensures Valid() && fresh(heads) && live == {} && blocks == map[]
      ensures slabTotal == if reserve == 0 then 0
                           else if reserve + GRANULE > SLAB_BYTES then reserve + GRANULE
                           else SLAB_BYTES
      ensures reserve > 0 ==> limit - cursor >= reserve
    {
      heads := new nat[CLASSES](_ => 0);
      next, slabs, cursor, limit, slabTotal := map[], [], 0, 0, 0;
      blocks, live, free, abandoned := map[], {}, seq(CLASSES, _ => []), 0;
      new;
      if reserve > 0 {
        AddSlab(if reserve + GRANULE > SLAB_BYTES then reserve + GRANULE else SLAB_BYTES, system);
      }
    }

    method AddSlab(bytes: nat, system: nat)
      requires Valid() && bytes >= GRANULE && limit - cursor < MAX_BLOCK && FreshRegion(slabs, system, bytes)
      modifies this`slabs, this`cursor, this`limit, this`slabTotal, this`abandoned
      ensures Valid() && cursor == system + GRANULE && limit == system + bytes
      ensures slabs == old(slabs) + [Slab(system, bytes)] && slabTotal == old(slabTotal) + bytes
    {
      hide SlabsOk, BlocksOk, TailOk, Accounted, ListsOk, ChainOk;
      SlabAdded(slabs, blocks, slabTotal, abandoned, cursor, limit, system, bytes);
      TailOrdered(slabs, blocks, cursor, limit);
      abandoned := abandoned + (limit - cursor);
      slabs := slabs + [Slab(system, bytes)];
      slabTotal := slabTotal + bytes;
      cursor, limit := system + GRANULE, system + bytes;
    }

    // A new block from the newest slab, adding a slab when it does not fit.
    method Carve(c: nat, system: nat) returns (p: nat)
      requires Valid() && 1 <= c < CLASSES && FreshRegion(slabs, system, SLAB_BYTES)
      modifies this`slabs, this`cursor, this`limit, this`slabTotal, this`abandoned, this`blocks, this`live
      ensures Valid() && p !in old(blocks) && p > 0
      ensures blocks == old(blocks)[p := c] && live == old(live) + {p}
      ensures slabs == old(slabs) || slabs == old(slabs) + [Slab(system, SLAB_BYTES)]
      ensures slabs == old(slabs) <==> old(limit - cursor) >= c * GRANULE
    {
      hide SlabsOk, BlocksOk, TailOk, Accounted, ListsOk, ChainOk;
      TailOrdered(slabs, blocks, cursor, limit);
      var bytes := c * GRANULE;
      if limit - cursor < bytes {
        AddSlab(SLAB_BYTES, system);
      }
      BlockCarved(slabs, blocks, slabTotal, abandoned, cursor, limit, c);
      p := cursor;
      ListedLive(blocks, live, free, p, c);
      cursor := cursor + bytes;
      blocks := blocks[p := c];
      live := live + {p};
    }

    // A block of at least `bytes` bytes: the one of its class freed last, or else a new one.
    // Larger requests go to the system allocator.
    method Allocate(bytes: nat, system: nat) returns (p: nat)
      requires Valid() && FreshRegion(slabs, system, if bytes > SLAB_BYTES then bytes else SLAB_BYTES)
      modifies this, heads
      ensures Valid()
      ensures bytes > MAX_BLOCK ==> p == system && live == old(live) && blocks == old(blocks) && slabs == old(slabs)
      ensures bytes <= MAX_BLOCK ==>
                var c := SizeClass(bytes);
                && p !in old(live) && live == old(live) + {p} && p in blocks && blocks[p] == c
                && p % GRANULE == 0 && bytes <= c * GRANULE
                && (if old(free)[c] != [] then p == old(free)[c][0] && blocks == old(blocks) && slabs == old(slabs)
                    else p !in old(blocks) && blocks == old(blocks)[p := c])
    {
      if bytes > MAX_BLOCK {
        return system;
      }
      var c := SizeClass(bytes);
      p := AllocateClass(c, system);
      assert p in blocks;
    }

    method AllocateClass(c: nat, system: nat) returns (p: nat)
      requires Valid() && 1 <= c < CLASSES && FreshRegion(slabs, system, SLAB_BYTES)
      modifies this, heads
      ensures Valid() && p !in old(live) && live == old(live) + {p} && p in blocks && blocks[p] == c
      ensures if old(free)[c] != [] then p == old(free)[c][0] && blocks == old(blocks) && slabs == old(slabs)
              else p !in old(blocks) && blocks == old(blocks)[p := c]
    {
      hide SlabsOk, BlocksOk, TailOk, Accounted, ListsOk, ChainOk;
      FreeFacts(slabs, blocks, live, free, next, heads[c], c);
      if heads[c] != 0 {
        p := heads[c];
        Reused(blocks, live, free, c);
        ChainTaken(next, p, free[c]);
        heads[c] := next[p];
        live := live + {p};
        free := free[c := free[c][1..]];
      } else {
        p := Carve(c, system);
      }
    }

    // Gives a block back, with the size it was asked for.
    method Deallocate(p: nat, bytes: nat)
      requires Valid()
      requires bytes <= MAX_BLOCK ==> p in live && blocks[p] == SizeClass(bytes)
      modifies this`next, this`free, this`live, heads
      ensures Valid()
      ensures if bytes > MAX_BLOCK then live == old(live) && free == old(free)
              else live == old(live) - {p} && free == old(free)[SizeClass(bytes) := [p] + old(free)[SizeClass(bytes)]]
    {
      if bytes > MAX_BLOCK {
        return;
      }
      var c := SizeClass(bytes);
      Release(p, c);
    }

    method Release(p: nat, c: nat)
      requires Valid() && p in live && blocks[p] == c && 1 <= c < CLASSES
      modifies this`next, this`free, this`live, heads
      ensures Valid() && live == old(live) - {p} && free == old(free)[c := [p] + old(free)[c]]
    {
      hide SlabsOk, BlocksOk, TailOk, Accounted, ListsOk, ChainOk;
      Freed(slabs, blocks, live, free, p, c);
      ghost var next0, heads0 := next, heads[..];
      forall d | 0 <= d < CLASSES
        ensures ChainOk(next0[p := heads0[c]], if d == c then p else heads0[d],
                        if d == c then [p] + free[c] else free[d])
      {
        if d == c {
          ChainPut(next0, heads0[c], free[c], p);
        } else {
          ChainElsewhere(next0, heads0[d], free[d], p, heads0[c]);
        }
      }
      next := next[p := heads[c]];
      heads[c] := p;
      live := live - {p};
      free := free[c := [p] + free[c]];
    }
  }

  lemma TailOrdered(slabs: seq<Slab>, blocks: map<nat, nat>, cursor: nat, limit: nat)
    requires TailOk(slabs, blocks, cursor, limit)
    ensures cursor <= limit
  {
  }

  lemma ListedLive(blocks: map<nat, nat>, live: set<nat>, free: seq<seq<nat>>, p: nat, c: nat)
    requires ListsOk(blocks, live, free) && p !in blocks && c < CLASSES
    ensures ListsOk(blocks[p := c], live + {p}, free)
  {
  }

  lemma FreeFacts(
    slabs: seq<Slab>, blocks: map<nat, nat>, live: set<nat>, free: seq<seq<nat>>, next: map<nat, nat>, head: nat,
    c: nat)
    requires BlocksOk(slabs, blocks) && ListsOk(blocks, live, free) && c < CLASSES && ChainOk(next, head, free[c])
    ensures |free| == CLASSES && live <= blocks.Keys
    ensures head != 0 <==> free[c] != []
    ensures head != 0 ==> head == free[c][0]
  {
    assert free[c] != [] ==> LinkAt(next, free[c], 0);
  }

  lemma Reused(blocks: map<nat, nat>, live: set<nat>, free: seq<seq<nat>>, c: nat)
    requires ListsOk(blocks, live, free) && c < CLASSES && free[c] != []
    ensures var p := free[c][0];
            && p !in live && p in blocks && blocks[p] == c
            && ListsOk(blocks, live + {p}, free[c := free[c][1..]])
  {
    var p, rest := free[c][0], free[c][1..];
    assert p in free[c];
    assert free[c] == [p] + rest;
    assert p !in rest;
    var free' := free[c := rest];
    assert Unrepeated(free[c]);
    assert Unrepeated(rest);
    forall a | a in blocks && a !in live + {p} ensures a in free'[blocks[a]] {
      assert a in free[blocks[a]];
    }
  }

  lemma Freed(slabs: seq<Slab>, blocks: map<nat, nat>, live: set<nat>, free: seq<seq<nat>>, p: nat, c: nat)
    requires BlocksOk(slabs, blocks) && ListsOk(blocks, live, free) && p in live && blocks[p] == c && c < CLASSES
    ensures |free| == CLASSES && p > 0 && (forall d :: 0 <= d < CLASSES ==> p !in free[d])
    ensures ListsOk(blocks, live - {p}, free[c := [p] + free[c]])
  {
    assert p !in free[c];
    var free' := free[c := [p] + free[c]];
    forall d, a | 0 <= d < CLASSES && a in free'[d] ensures a in blocks && blocks[a] == d && a !in live - {p} {
    }
  }
}
