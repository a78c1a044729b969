// The order in which a book shows its queue: bids then asks, best price first, oldest first.
module Snapshot {
  import opened Types
  import opened Market
  import Queues

  predicate Ahead(a: Order, b: Order) {
    if a.side != b.side then a.side.Buy?
    else if a.price != b.price then Better(a.side, a.price, b.price)
    else a.arrival < b.arrival
  }

  ghost predicate InBookOrder(s: seq<Order>) {
    forall i, j :: 0 <= i < j < |s| ==> Ahead(s[i], s[j])
  }

  ghost predicate SameMembers(a: seq<Order>, b: seq<Order>) {
    forall o :: o in a <==> o in b
  }

  // Orders with different arrival numbers, as a book's always are.
  ghost predicate DistinctArrivals(s: seq<Order>) {
    forall i, j :: 0 <= i < |s| && 0 <= j < |s| && i != j ==> s[i].arrival != s[j].arrival
  }

  // The library sort the reference book calls, with Ahead as its comparison.
  function Insert(o: Order, s: seq<Order>): seq<Order> {
    if s == [] || Ahead(o, s[0]) then [o] + s else [s[0]] + Insert(o, s[1..])
  }

  function Sort(s: seq<Order>): seq<Order> {
    if s == [] then [] else Insert(s[0], Sort(s[1..]))
  }

  lemma {:induction false} InsertMembers(o: Order, s: seq<Order>)
    ensures forall x :: x in Insert(o, s) <==> x == o || x in s
  {
    if s != [] && !Ahead(o, s[0]) {
      InsertMembers(o, s[1..]);
      assert s == [s[0]] + s[1..];
    }
  }

  lemma {:induction false} InsertOrdered(o: Order, s: seq<Order>)
    requires InBookOrder(s)
    requires forall x :: x in s ==> x.arrival != o.arrival
    ensures InBookOrder(Insert(o, s))
  {
    if s != [] {
      var rest := Insert(o, s[1..]);
      InsertMembers(o, s[1..]);
      if !Ahead(o, s[0]) {
        InsertOrdered(o, s[1..]);
        forall j | 0 <= j < |rest| ensures Ahead(s[0], rest[j]) {
          assert rest[j] in rest;
        }
      }
    }
  }

  // The sort gives the members of s in book order.
  lemma {:induction false} SortSorts(s: seq<Order>)
    requires DistinctArrivals(s)
    ensures InBookOrder(Sort(s)) && SameMembers(Sort(s), s)
  {
    if s != [] {
      SortSorts(s[1..]);
      InsertMembers(s[0], Sort(s[1..]));
      assert s == [s[0]] + s[1..];
      forall x | x in Sort(s[1..]) ensures x.arrival != s[0].arrival {
        var j :| 1 <= j < |s| && s[j] == x;
      }
      InsertOrdered(s[0], Sort(s[1..]));
    }
  }

  // Book order leaves no choice: two sequences of the same orders in book order are equal.
  lemma {:induction false} BookOrderUnique(a: seq<Order>, b: seq<Order>)
    requires InBookOrder(a) && InBookOrder(b) && SameMembers(a, b)
    ensures a == b
  {
    if a == [] {
      Queues.HeadIsMember(b);
    } else {
      assert a[0] in b && a[0] in a;
      assert b[0] in a && b[0] in b;
      assert a[0] == b[0];
      var a', b' := a[1..], b[1..];
      forall o ensures o in a' <==> o in b' {
        if o in a' {
          var i :| 1 <= i < |a| && a[i] == o;
          assert o in b && Ahead(a[0], o);
        }
        if o in b' {
          var i :| 1 <= i < |b| && b[i] == o;
          assert o in a && Ahead(b[0], o);
        }
      }
      BookOrderUnique(a', b');
    }
  }

  // What a caller sees of resting orders, which is all but their arrival.
  function ViewOf(o: Order): OrderView {
    OrderView(o.id, o.owner, o.price, o.qty, o.side)
  }

  function Views(s: seq<Order>): seq<OrderView> {
    seq(|s|, i requires 0 <= i < |s| => ViewOf(s[i]))
  }

  // What the differential test compares of them.
  function RowOf(v: OrderView): Row {
    Row(v.side, v.price, v.id, v.qty)
  }

  function Rows(s: seq<OrderView>): seq<Row> {
    seq(|s|, i requires 0 <= i < |s| => RowOf(s[i]))
  }
}
