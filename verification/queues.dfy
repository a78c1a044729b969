// One price level's queue, as the orders at that side and price in arrival order.
module Queues {
  import opened Types
  import opened Market

  predicate At(o: Order, side: Side, price: Price) {
    o.side == side && o.price == price
  }

  function Queue(resting: seq<Order>, side: Side, price: Price): seq<Order> {
    if resting == [] then []
    else
      var n := |resting| - 1;
      Queue(resting[..n], side, price) + if At(resting[n], side, price) then [resting[n]] else []
  }

  lemma {:induction false} QueueMembers(resting: seq<Order>, side: Side, price: Price)
    ensures forall o :: o in Queue(resting, side, price) <==> o in resting && At(o, side, price)
    ensures |Queue(resting, side, price)| <= |resting|
  {
    if resting != [] {
      var n := |resting| - 1;
      QueueMembers(resting[..n], side, price);
      assert resting == resting[..n] + [resting[n]];
    }
  }

  function Total(q: seq<Order>): nat {
    if q == [] then 0 else Total(q[..|q| - 1]) + q[|q| - 1].qty
  }

  lemma {:induction false} QueueConcat(a: seq<Order>, b: seq<Order>, side: Side, price: Price)
    ensures Queue(a + b, side, price) == Queue(a, side, price) + Queue(b, side, price)
    decreases |b|
  {
    if b == [] {
      assert a + b == a;
    } else {
      var n := |b| - 1;
      assert (a + b)[..|a + b| - 1] == a + b[..n];
      QueueConcat(a, b[..n], side, price);
    }
  }

  lemma QueueOne(o: Order, side: Side, price: Price)
    ensures Queue([o], side, price) == if At(o, side, price) then [o] else []
  {
    assert [o][..0] == [];
  }

  // The place in its queue of the order at index m.
  function Place(resting: seq<Order>, m: nat): nat
    requires m < |resting|
  {
    |Queue(resting[..m], resting[m].side, resting[m].price)|
  }

  lemma QueueSplit(resting: seq<Order>, m: nat, o: Order, side: Side, price: Price)
    requires m < |resting|
    ensures Queue(resting[m := o], side, price) ==
            Queue(resting[..m], side, price) + (if At(o, side, price) then [o] else [])
            + Queue(resting[m + 1..], side, price)
  {
    var a, b := resting[..m], resting[m + 1..];
    assert resting[m := o] == (a + [o]) + b;
    QueueConcat(a + [o], b, side, price);
    QueueConcat(a, [o], side, price);
    QueueOne(o, side, price);
  }

  lemma MiddleOf<T>(x: seq<T>, o: T, y: seq<T>)
    ensures (x + [o] + y)[|x|] == o
    ensures RemoveAt(x + [o] + y, |x|) == x + y
    ensures forall o' :: (x + [o] + y)[|x| := o'] == x + [o'] + y
  {
  }

  lemma RemoveIs<T>(s: seq<T>, i: nat)
    requires i < |s|
    ensures RemoveAt(s, i) == s[..i] + s[i + 1..]
  {
  }

  lemma NothingBetween<T>(x: seq<T>, y: seq<T>)
    ensures x + [] + y == x + y
  {
  }

  // Removing one order removes it from its own queue and leaves every other queue alone.
  lemma QueueRemove(resting: seq<Order>, m: nat, side: Side, price: Price)
    requires m < |resting|
    ensures var q := Queue(resting, side, price);
            var q' := Queue(RemoveAt(resting, m), side, price);
            if At(resting[m], side, price)
            then Place(resting, m) < |q| && q[Place(resting, m)] == resting[m] && q' == RemoveAt(q, Place(resting, m))
            else q' == q
  {
    hide Queue, RemoveAt;
    assert resting[m := resting[m]] == resting;
    RemoveIs(resting, m);
    QueueSplit(resting, m, resting[m], side, price);
    QueueConcat(resting[..m], resting[m + 1..], side, price);
    NothingBetween(Queue(resting[..m], side, price), Queue(resting[m + 1..], side, price));
    MiddleOf(Queue(resting[..m], side, price), resting[m], Queue(resting[m + 1..], side, price));
  }

  // Replacing an order by one at the same side and price replaces it in place.
  lemma QueueReplace(resting: seq<Order>, m: nat, o: Order, side: Side, price: Price)
    requires m < |resting| && At(o, resting[m].side, resting[m].price)
    ensures var q := Queue(resting, side, price);
            var q' := Queue(resting[m := o], side, price);
            if At(resting[m], side, price)
            then Place(resting, m) < |q| && q[Place(resting, m)] == resting[m] && q' == q[Place(resting, m) := o]
            else q' == q
  {
    hide Queue;
    assert resting[m := resting[m]] == resting;
    QueueSplit(resting, m, resting[m], side, price);
    QueueSplit(resting, m, o, side, price);
    MiddleOf(Queue(resting[..m], side, price), resting[m], Queue(resting[m + 1..], side, price));
  }

  lemma QueueAppend(resting: seq<Order>, o: Order, side: Side, price: Price)
    ensures Queue(resting + [o], side, price) ==
            Queue(resting, side, price) + if At(o, side, price) then [o] else []
  {
    QueueConcat(resting, [o], side, price);
    QueueOne(o, side, price);
  }

  // A queue keeps the arrival order, and holds each id once.
  lemma {:induction false} QueueOrdered(resting: seq<Order>, side: Side, price: Price)
    requires ByArrival(resting) && DistinctIds(resting)
    ensures ByArrival(Queue(resting, side, price)) && DistinctIds(Queue(resting, side, price))
  {
    if resting != [] {
      var n := |resting| - 1;
      var q := Queue(resting[..n], side, price);
      QueueOrdered(resting[..n], side, price);
      QueueMembers(resting[..n], side, price);
      assert Queue(resting, side, price) == q + if At(resting[n], side, price) then [resting[n]] else [];
      hide Queue;
      forall j | 0 <= j < |q| ensures q[j].arrival < resting[n].arrival && q[j].id != resting[n].id {
        assert q[j] in q;
        assert q[j] in resting[..n];
      }
    }
  }

  lemma HeadIsMember<T>(s: seq<T>)
    ensures s != [] ==> s[0] in s
  {
  }

  // The order a taker hits next is the head of the queue at its price.
  lemma MakerIsHead(resting: seq<Order>, side: Side, m: nat)
    requires ByArrival(resting) && DistinctIds(resting)
    requires FirstOnSide(resting, side, m)
    ensures Place(resting, m) == 0
    ensures var q := Queue(resting, side, resting[m].price); |q| > 0 && q[0] == resting[m]
  {
    var price := resting[m].price;
    QueueRemove(resting, m, side, price);
    QueueMembers(resting[..m], side, price);
    HeadIsMember(Queue(resting[..m], side, price));
  }

  lemma {:induction false} TotalConcat(a: seq<Order>, b: seq<Order>)
    ensures Total(a + b) == Total(a) + Total(b)
    decreases |b|
  {
    if b == [] {
      assert a + b == a;
    } else {
      assert (a + b)[..|a + b| - 1] == a + b[..|b| - 1];
      TotalConcat(a, b[..|b| - 1]);
    }
  }

  lemma TotalReplace(q: seq<Order>, k: nat, o: Order)
    requires k < |q|
    ensures Total(q[k := o]) == Total(q) - q[k].qty + o.qty
    ensures Total(RemoveAt(q, k)) == Total(q) - q[k].qty
  {
    assert q == (q[..k] + [q[k]]) + q[k + 1..];
    assert q[k := o] == (q[..k] + [o]) + q[k + 1..];
    TotalConcat(q[..k] + [q[k]], q[k + 1..]);
    TotalConcat(q[..k], [q[k]]);
    TotalConcat(q[..k] + [o], q[k + 1..]);
    TotalConcat(q[..k], [o]);
    TotalConcat(q[..k], q[k + 1..]);
    assert [q[k]][..0] == [] && [o][..0] == [];
  }

  lemma {:induction false} TotalBound(q: seq<Order>)
    ensures |q| <= Total(q) + |q|
    ensures Total(q) <= |q| * 0xFFFF_FFFF
    ensures (forall i :: 0 <= i < |q| ==> q[i].qty > 0) ==> |q| <= Total(q)
  {
    if q != [] {
      TotalBound(q[..|q| - 1]);
    }
  }
}
