// Level by level, best price first, the queues of a book are its orders in book order.
module BookOrder {
  import opened Types
  import opened Market
  import opened Queues
  import opened Snapshot
  import opened Ladder

  // The queues at some prices, one after the other.
  function Flatten(resting: seq<Order>, side: Side, prices: seq<Price>): seq<Order> {
    if prices == [] then []
    else Flatten(resting, side, prices[..|prices| - 1]) + Queue(resting, side, prices[|prices| - 1])
  }

  lemma {:induction false} FlattenMembers(resting: seq<Order>, side: Side, prices: seq<Price>)
    ensures forall o :: o in Flatten(resting, side, prices) <==> o in resting && o.side == side && o.price in prices
  {
    if prices != [] {
      var n := |prices| - 1;
      FlattenMembers(resting, side, prices[..n]);
      QueueMembers(resting, side, prices[n]);
      assert prices == prices[..n] + [prices[n]];
    }
  }

  lemma JoinOrdered(a: seq<Order>, b: seq<Order>)
    requires InBookOrder(a) && InBookOrder(b)
    requires forall x, y :: x in a && y in b ==> Ahead(x, y)
    ensures InBookOrder(a + b)
  {
    var s := a + b;
    forall i, j | 0 <= i < j < |s| ensures Ahead(s[i], s[j]) {
      if i < |a| <= j {
        assert a[i] in a && b[j - |a|] in b;
      }
    }
  }

  lemma QueueInBookOrder(resting: seq<Order>, side: Side, price: Price)
    requires ByArrival(resting) && DistinctIds(resting)
    ensures InBookOrder(Queue(resting, side, price))
  {
    var q := Queue(resting, side, price);
    QueueOrdered(resting, side, price);
    QueueMembers(resting, side, price);
    forall i, j | 0 <= i < j < |q| ensures Ahead(q[i], q[j]) {
      assert q[i] in q && q[j] in q;
    }
  }

  lemma {:induction false} FlattenOrdered(resting: seq<Order>, side: Side, prices: seq<Price>)
    requires ByArrival(resting) && DistinctIds(resting) && BestFirst(side, prices)
    ensures InBookOrder(Flatten(resting, side, prices))
  {
    if prices != [] {
      var n := |prices| - 1;
      var a, b := Flatten(resting, side, prices[..n]), Queue(resting, side, prices[n]);
      FlattenOrdered(resting, side, prices[..n]);
      QueueInBookOrder(resting, side, prices[n]);
      FlattenMembers(resting, side, prices[..n]);
      QueueMembers(resting, side, prices[n]);
      forall x, y | x in a && y in b ensures Ahead(x, y) {
        var i :| 0 <= i < n && prices[..n][i] == x.price;
        assert Better(side, prices[i], prices[n]);
      }
      JoinOrdered(a, b);
    }
  }

  lemma ArrivalsDistinct(resting: seq<Order>)
    requires ByArrival(resting)
    ensures DistinctArrivals(resting)
  {
  }

  lemma {:induction false} SortLength(s: seq<Order>)
    ensures |Sort(s)| == |s|
  {
    if s != [] {
      SortLength(s[1..]);
      InsertLength(s[0], Sort(s[1..]));
    }
  }

  lemma {:induction false} InsertLength(o: Order, s: seq<Order>)
    ensures |Insert(o, s)| == |s| + 1
  {
    if s != [] && !Ahead(o, s[0]) {
      InsertLength(o, s[1..]);
    }
  }

  // Visiting the bids and then the asks, each best level first and each level's queue from
  // its head, is visiting the resting orders as the reference book sorts them.
  lemma LevelsAreSorted(resting: seq<Order>, bids: seq<Price>, asks: seq<Price>)
    requires ByArrival(resting) && DistinctIds(resting)
    requires BestFirst(Buy, bids) && BestFirst(Sell, asks)
    requires forall p: Price :: Queue(resting, Buy, p) != [] ==> p in bids
    requires forall p: Price :: Queue(resting, Sell, p) != [] ==> p in asks
    ensures Flatten(resting, Buy, bids) + Flatten(resting, Sell, asks) == Sort(resting)
  {
    hide Queue, Flatten, Sort;
    var a, b := Flatten(resting, Buy, bids), Flatten(resting, Sell, asks);
    FlattenOrdered(resting, Buy, bids);
    FlattenOrdered(resting, Sell, asks);
    FlattenMembers(resting, Buy, bids);
    FlattenMembers(resting, Sell, asks);
    JoinOrdered(a, b);
    ArrivalsDistinct(resting);
    SortSorts(resting);
    forall o ensures o in a + b <==> o in resting {
      if o in resting {
        QueueMembers(resting, o.side, o.price);
        HeadIsMember(Queue(resting, o.side, o.price));
      }
    }
    BookOrderUnique(a + b, Sort(resting));
  }

  // What a caller is shown of the resting orders: each of them, with its own fields, bids
  // before asks, better prices first, and the older first at a price.
  lemma ViewsShow(resting: seq<Order>)
    requires ByArrival(resting)
    ensures var q, v := Sort(resting), Views(Sort(resting));
            && |v| == |q| == |resting|
            && (forall o :: o in q <==> o in resting)
            && (forall i :: 0 <= i < |v| ==>
                  && v[i].id == q[i].id && v[i].owner == q[i].owner && v[i].price == q[i].price
                  && v[i].qty == q[i].qty && v[i].side == q[i].side)
            && (forall i, j :: 0 <= i < j < |v| ==>
                  if v[i].side != v[j].side then v[i].side.Buy?
                  else if v[i].price != v[j].price then
                    if v[i].side.Buy? then v[i].price > v[j].price else v[i].price < v[j].price
                  else q[i].arrival < q[j].arrival)
  {
    ArrivalsDistinct(resting);
    SortSorts(resting);
    SortLength(resting);
    hide Sort;
  }

  // What the differential test compares of them.
  lemma RowsShow(v: seq<OrderView>)
    ensures |Rows(v)| == |v|
    ensures forall i :: 0 <= i < |v| ==>
              Rows(v)[i].side == v[i].side && Rows(v)[i].price == v[i].price && Rows(v)[i].id == v[i].id
              && Rows(v)[i].qty == v[i].qty
  {
  }
}
