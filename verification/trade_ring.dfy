// The fixed-capacity ring of trades the caller drains.
module Ring {
  import opened Types
  import opened Bits

  function RoundUpFrom(p: nat, n: nat): (r: nat)
    requires p > 0
    ensures r >= n
    decreases n - p
  {
    if p < n then RoundUpFrom(2 * p, n) else p
  }

  lemma {:induction false} RoundUpIsPow2(k: nat, n: nat)
    ensures Pow2(k) > 0 && IsPow2(RoundUpFrom(Pow2(k), n))
    decreases n - Pow2(k)
  {
    PowPositive(k);
    PowStep(k);
    if Pow2(k) < n {
      RoundUpIsPow2(k + 1, n);
    }
  }

  lemma {:induction false} RoundUpLeast(k: nat, n: nat, j: nat)
    requires n <= Pow2(j) && k <= j
    ensures Pow2(k) > 0 && RoundUpFrom(Pow2(k), n) <= Pow2(j)
    decreases j - k
  {
    PowPositive(k);
    PowStep(k);
    PowGrows(k, j);
    if Pow2(k) < n && k < j {
      RoundUpLeast(k + 1, n, j);
    }
  }

  // The smallest power of two that is at least n.
  method RoundUpPow2(n: nat) returns (p: nat)
    requires n <= 0x8000_0000_0000_0000
    ensures n <= p <= 0x8000_0000_0000_0000 && IsPow2(p) && p == RoundUpFrom(1, n)
    ensures p == 1 || p < 2 * n
  {
    p := 1;
    ghost var k := 0;
    PowTop();
    while p < n
      invariant p == Pow2(k) && p > 0 && k <= 63
      invariant p == 1 || p < 2 * n
      invariant RoundUpFrom(p, n) == RoundUpFrom(1, n)
      decreases n - p
    {
      p := p * 2;
      k := k + 1;
    }
    PowGrows(k, 63);
  }

  // The trades at the places from tail to head, oldest first.
  ghost predicate Buffered(buffer: seq<Trade>, tail: nat, contents: seq<Trade>) {
    && 0 < |buffer|
    && |contents| <= |buffer|
    && forall k :: 0 <= k < |contents| ==> buffer[Spot(tail + k, |buffer|)] == contents[k]
  }

  lemma PushedTrade(buffer: seq<Trade>, tail: nat, contents: seq<Trade>, head: nat, trade: Trade)
    requires Buffered(buffer, tail, contents) && |contents| < |buffer|
    requires Spot(head, |buffer|) == Spot(tail + |contents|, |buffer|)
    ensures Buffered(buffer[Spot(head, |buffer|) := trade], tail, contents + [trade])
  {
    hide Spot;
    var after, more := buffer[Spot(head, |buffer|) := trade], contents + [trade];
    forall k | 0 <= k < |more| ensures after[Spot(tail + k, |buffer|)] == more[k] {
      if k < |contents| {
        PlacesDiffer(tail, k, |contents|, |buffer|);
        assert buffer[Spot(tail + k, |buffer|)] == contents[k];
      }
    }
  }

  lemma PoppedTrade(buffer: seq<Trade>, tail: nat, contents: seq<Trade>, tail': nat)
    requires Buffered(buffer, tail, contents) && contents != []
    requires Spot(tail', |buffer|) == Spot(tail + 1, |buffer|)
    ensures buffer[Spot(tail, |buffer|)] == contents[0]
    ensures Buffered(buffer, tail', contents[1..])
  {
    hide Spot;
    assert buffer[Spot(tail + 0, |buffer|)] == contents[0];
    var rest := contents[1..];
    forall k | 0 <= k < |rest| ensures buffer[Spot(tail' + k, |buffer|)] == rest[k] {
      SpotShift(tail', tail + 1, k, |buffer|);
      assert buffer[Spot(tail + (k + 1), |buffer|)] == contents[k + 1];
    }
  }

  class TradeRing {
    const buffer: array<Trade>
    const mask: nat
    var head: nat
    var tail: nat
    var dropCount: nat

    ghost var contents: seq<Trade>      // buffered, oldest first
    ghost var offered: seq<Trade>       // every trade ever pushed, kept or dropped
    ghost var popped: seq<Trade>        // every trade ever popped
    ghost var kept: seq<nat>            // which of the offered trades were kept

    ghost predicate Valid()
      reads this, buffer
    {
      && Shaped(buffer[..], mask, head, tail, contents)
      && Delivered(contents, offered, popped, kept, dropCount)
      && Undrained(contents, offered, popped, buffer.Length)
    }

    constructor (capacity: nat)
      requires capacity <= 0x8000_0000_0000_0000
      ensures Valid() && fresh(buffer)
      ensures contents == offered == popped == [] && dropCount == 0
      ensures buffer.Length == RoundUpFrom(1, if capacity == 0 then 1 else capacity)
    {
      var size := RoundUpPow2(if capacity == 0 then 1 else capacity);
      buffer := new Trade[size](_ => Trade(0, 0, 0, 0, 0, Buy));
      mask := size - 1;
      head, tail, dropCount := 0, 0, 0;
      contents, offered, popped, kept := [], [], [], [];
    }

    // False when full: the trade is dropped and counted.
    method Push(trade: Trade) returns (ok: bool)
      requires Valid()
      modifies this, buffer
      ensures Valid() && ok == (|old(contents)| < buffer.Length)
      ensures contents == if ok then old(contents) + [trade] else old(contents)
      ensures dropCount == if ok then old(dropCount) else old(dropCount) + 1
      ensures offered == old(offered) + [trade] && popped == old(popped)
    {
      hide Spot, Pow2, IsPow2, And, Buffered, Delivered;
      ShapedFacts(buffer[..], mask, head, tail, contents);
      UndrainedPush(contents, offered, popped, buffer.Length, trade);
      if Gap(head, tail) == buffer.Length {
        Dropped(contents, offered, popped, kept, dropCount, trade);
        dropCount := dropCount + 1;
        offered := offered + [trade];
        return false;
      }
      Pushed(buffer[..], mask, head, tail, contents, trade);
      Kept(contents, offered, popped, kept, dropCount, trade);
      ghost var before := buffer[..];
      buffer[And(head, mask)] := trade;
      assert buffer[..] == before[And(head, mask) := trade];
      head := Next(head);
      contents := contents + [trade];
      kept := kept + [|offered|];
      offered := offered + [trade];
      return true;
    }

    // The oldest trade buffered, if there is one.
    method Pop() returns (out: Option<Trade>)
      requires Valid()
      modifies this`tail, this`contents, this`popped
      ensures Valid()
      ensures out == if old(contents) == [] then None else Some(old(contents)[0])
      ensures contents == if old(contents) == [] then [] else old(contents)[1..]
      ensures popped == if old(contents) == [] then old(popped) else old(popped) + [old(contents)[0]]
    {
      hide Spot, Pow2, IsPow2, And, Buffered, Delivered;
      ShapedFacts(buffer[..], mask, head, tail, contents);
      if head == tail {
        return None;
      }
      Popped(buffer[..], mask, head, tail, contents);
      assert popped + contents == (popped + [contents[0]]) + contents[1..];
      Moved(contents, offered, popped, kept, dropCount);
      out := Some(buffer[And(tail, mask)]);
      tail := Next(tail);
      popped := popped + [contents[0]];
      contents := contents[1..];
    }
  }

  ghost predicate Shaped(buffer: seq<Trade>, mask: nat, head: nat, tail: nat, contents: seq<Trade>) {
    && IsPow2(|buffer|) && |buffer| <= 0x8000_0000_0000_0000 && mask == |buffer| - 1
    && head < WRAP && tail < WRAP && Gap(head, tail) == |contents|
    && Buffered(buffer, tail, contents)
  }

  // Popped and then buffered trades are those kept, in order, of the ones offered; and
  // every trade offered was popped, is buffered, or was counted as dropped.
  ghost predicate Delivered(
    contents: seq<Trade>, offered: seq<Trade>, popped: seq<Trade>, kept: seq<nat>, dropCount: nat)
  {
    && |kept| == |popped + contents| && |offered| == |kept| + dropCount
    && (forall i, j :: 0 <= i < j < |kept| ==> kept[i] < kept[j])
    && (forall i :: 0 <= i < |kept| ==> kept[i] < |offered| && offered[kept[i]] == (popped + contents)[i])
  }

  // Indices that rise strictly are at least their places, and when none is missing, at most.
  lemma {:induction false} AtLeast(kept: seq<nat>, i: nat)
    requires i < |kept|
    requires forall i, j :: 0 <= i < j < |kept| ==> kept[i] < kept[j]
    ensures kept[i] >= i
  {
    if i > 0 {
      AtLeast(kept, i - 1);
    }
  }

  lemma {:induction false} AtMost(kept: seq<nat>, n: nat, i: nat)
    requires i < n == |kept|
    requires forall i, j :: 0 <= i < j < |kept| ==> kept[i] < kept[j]
    requires forall i :: 0 <= i < |kept| ==> kept[i] < n
    ensures kept[i] <= i
    decreases n - i
  {
    if i + 1 < n {
      AtMost(kept, n, i + 1);
    }
  }

  // If no trade was dropped, popped and then buffered trades are all those offered.
  lemma NothingLost(contents: seq<Trade>, offered: seq<Trade>, popped: seq<Trade>, kept: seq<nat>, dropCount: nat)
    requires Delivered(contents, offered, popped, kept, dropCount)
    ensures dropCount == 0 <==> popped + contents == offered
  {
    if dropCount == 0 {
      forall i | 0 <= i < |kept| ensures kept[i] == i {
        AtLeast(kept, i);
        AtMost(kept, |kept|, i);
      }
    }
  }

  // Until a trade is popped the ring holds the first trades offered, up to its capacity.
  ghost predicate Undrained(contents: seq<Trade>, offered: seq<Trade>, popped: seq<Trade>, capacity: nat) {
    popped == [] ==> contents == offered[..Min(|offered|, capacity)]
  }

  lemma UndrainedPush(contents: seq<Trade>, offered: seq<Trade>, popped: seq<Trade>, capacity: nat, trade: Trade)
    requires Undrained(contents, offered, popped, capacity) && |contents| <= capacity
    ensures Undrained(if |contents| < capacity then contents + [trade] else contents,
                      offered + [trade], popped, capacity)
  {
    if popped == [] && |contents| < capacity {
      assert contents == offered;
    }
  }

  lemma ShapedFacts(buffer: seq<Trade>, mask: nat, head: nat, tail: nat, contents: seq<Trade>)
    requires Shaped(buffer, mask, head, tail, contents)
    ensures |contents| <= |buffer| && 0 < |buffer|
    ensures And(head, mask) == Spot(head, |buffer|) && And(tail, mask) == Spot(tail, |buffer|)
    ensures head == tail <==> contents == []
  {
    MaskOf(head, |buffer|);
    MaskOf(tail, |buffer|);
  }

  lemma Pushed(buffer: seq<Trade>, mask: nat, head: nat, tail: nat, contents: seq<Trade>, trade: Trade)
    requires Shaped(buffer, mask, head, tail, contents) && |contents| < |buffer|
    ensures And(head, mask) < |buffer|
    ensures Shaped(buffer[And(head, mask) := trade], mask, Next(head), tail, contents + [trade])
  {
    hide Spot, Pow2, IsPow2, And, Buffered;
    ShapedFacts(buffer, mask, head, tail, contents);
    CursorPlace(head, tail, |contents|, |buffer|);
    PushedTrade(buffer, tail, contents, head, trade);
  }

  lemma Popped(buffer: seq<Trade>, mask: nat, head: nat, tail: nat, contents: seq<Trade>)
    requires Shaped(buffer, mask, head, tail, contents) && contents != []
    ensures And(tail, mask) < |buffer| && buffer[And(tail, mask)] == contents[0]
    ensures Shaped(buffer, mask, head, Next(tail), contents[1..])
  {
    hide Spot, Pow2, IsPow2, And, Buffered;
    ShapedFacts(buffer, mask, head, tail, contents);
    NextPlace(tail, |buffer|);
    PoppedTrade(buffer, tail, contents, Next(tail));
  }

  lemma Dropped(
    contents: seq<Trade>, offered: seq<Trade>, popped: seq<Trade>, kept: seq<nat>, dropCount: nat, trade: Trade)
    requires Delivered(contents, offered, popped, kept, dropCount)
    ensures Delivered(contents, offered + [trade], popped, kept, dropCount + 1)
  {
  }

  lemma Kept(
    contents: seq<Trade>, offered: seq<Trade>, popped: seq<Trade>, kept: seq<nat>, dropCount: nat, trade: Trade)
    requires Delivered(contents, offered, popped, kept, dropCount)
    ensures Delivered(contents + [trade], offered + [trade], popped, kept + [|offered|], dropCount)
  {
    assert popped + (contents + [trade]) == (popped + contents) + [trade];
  }

  lemma Moved(contents: seq<Trade>, offered: seq<Trade>, popped: seq<Trade>, kept: seq<nat>, dropCount: nat)
    requires Delivered(contents, offered, popped, kept, dropCount) && contents != []
    ensures Delivered(contents[1..], offered, popped + [contents[0]], kept, dropCount)
  {
    assert popped + contents == (popped + [contents[0]]) + contents[1..];
  }
}
