// The deliberately naive book: one flat vector of resting orders and linear scans.
module Reference {
  import opened Types
  import opened Market
  import opened Snapshot

  class ReferenceBook {
    var resting: seq<Order>
    var tradeLog: seq<Trade>
    const policy: SelfTradePolicy
    var nextArrival: nat
    var nextSeq: nat

    ghost function State(): Book
      reads this
    {
      Book(resting, tradeLog, nextArrival, nextSeq)
    }

    constructor (policy: SelfTradePolicy)
      ensures State() == EMPTY_BOOK && this.policy == policy
    {
      this.policy := policy;
      resting, tradeLog, nextArrival, nextSeq := [], [], 1, 1;
    }

    method FindOrder(id: OrderId) returns (m: Option<nat>)
      ensures m == Find(resting, id)
    {
      var i := 0;
      while i < |resting|
        invariant 0 <= i <= |resting|
        invariant forall j :: 0 <= j < i ==> resting[j].id != id
      {
        if resting[i].id == id {
          return Some(i);
        }
        i := i + 1;
      }
      return None;
    }

    // The index of the order a taker hits next, whatever its limit.
    method FindMaker(takerSide: Side) returns (best: Option<nat>)
      ensures best == NextMaker(resting, Opposite(takerSide))
    {
      var makerSide := Opposite(takerSide);
      best := None;
      var i := 0;
      while i < |resting|
        invariant 0 <= i <= |resting|
        invariant best == NextMaker(resting[..i], makerSide)
      {
        assert resting[..i + 1][..i] == resting[..i];
        var r := resting[i];
        if r.side == makerSide {
          if best.None? {
            best := Some(i);
          } else {
            var b := resting[best.value];
            var betterPrice := if makerSide.Sell? then r.price < b.price else r.price > b.price;
            if betterPrice || (r.price == b.price && r.arrival < b.arrival) {
              best := Some(i);
            }
          }
        }
        i := i + 1;
      }
      assert resting[..i] == resting;
    }

    // Trade with the maker at index m: the rest of Submit's loop body.
    method Execute(id: OrderId, side: Side, left: Quantity, rep: ExecReport, m: nat, ghost t: Taker)
      returns (left': Quantity, rep': ExecReport)
      requires m < |resting| && t.id == id && t.side == side
      modifies this
      ensures Matching(State(), left', rep') == Fill(t, Matching(old(State()), left, rep), m)
      ensures rep'.stpHalted == rep.stpHalted
      ensures |resting| < old(|resting|) || (|resting| == old(|resting|) && (left' < left || left == 0))
    {
      var maker := resting[m];
      hide RemoveAt;
      RemoveReplaced(resting, m, maker.(qty := 0));
      var traded := if left < maker.qty then left else maker.qty;
      left' := left - traded;
      resting := resting[m := maker.(qty := maker.qty - traded)];
      var trade := Trade(nextSeq, maker.id, id, maker.price, traded, side);
      rep' := if rep.tradeCount == 0 then rep.(firstSeq := nextSeq) else rep;
      nextSeq := nextSeq + 1;
      rep' := rep'.(tradeCount := rep'.tradeCount + 1, filled := rep'.filled + traded);
      tradeLog := tradeLog + [trade];
      if resting[m].qty == 0 {
        resting := RemoveAt(resting, m);
      }
    }

    method Submit(id: OrderId, owner: ParticipantId, side: Side, price: Price, qty: Quantity, isMarket: bool)
      returns (rep: ExecReport)
      modifies this
      ensures (State(), rep)
           == Market.Submit(old(State()), policy, Taker(id, owner, side, if isMarket then None else Some(price)), qty)
    {
      hide Match, Step, NextMaker, Find, RemoveAt, Fill;
      rep := EMPTY_REPORT;
      var live := FindOrder(id);
      if qty == 0 || live.Some? {
        rep := rep.(accepted := false, remaining := qty);
        return;
      }
      ghost var t := Taker(id, owner, side, if isMarket then None else Some(price));
      ghost var start := Matching(State(), qty, rep);
      var left: Quantity := qty;
      while left > 0
        invariant Match(t, policy, Matching(State(), left, rep)) == Match(t, policy, start)
        invariant !rep.stpHalted
        decreases |resting|, left
      {
        ghost var s := Matching(State(), left, rep);
        var m := FindMaker(side);
        if m.None? { break; }
        var maker := resting[m.value];
        if !isMarket {
          var crosses := if side.Buy? then maker.price <= price else maker.price >= price;
          if !crosses { break; }
        }
        MatchUnfolds(t, policy, s, m.value);
        var self := policy != Allow && owner != ANONYMOUS && owner == maker.owner;
        if self {
          if policy == CancelIncoming {
            rep := rep.(stpHalted := true);
            break;
          }
          rep := rep.(stpCancelled := rep.stpCancelled + maker.qty);
          resting := RemoveAt(resting, m.value);
          assert Matching(State(), left, rep) == DropMaker(s, m.value);
          continue;
        }
        left, rep := Execute(id, side, left, rep, m.value, t);
      }
      MatchEnds(t, policy, Matching(State(), left, rep));
      rep := rep.(remaining := left);
      if !isMarket && left > 0 && !rep.stpHalted {
        resting := resting + [Order(id, owner, price, left, side, nextArrival)];
        nextArrival := nextArrival + 1;
        rep := rep.(rested := true);
      }
    }

    method AddLimit(id: OrderId, owner: ParticipantId, side: Side, price: Price, qty: Quantity)
      returns (rep: ExecReport)
      modifies this
      ensures (State(), rep) == Market.Submit(old(State()), policy, Taker(id, owner, side, Some(price)), qty)
    {
      rep := Submit(id, owner, side, price, qty, false);
    }

    method AddMarket(id: OrderId, owner: ParticipantId, side: Side, qty: Quantity) returns (rep: ExecReport)
      modifies this
      ensures (State(), rep) == Market.Submit(old(State()), policy, Taker(id, owner, side, None), qty)
    {
      rep := Submit(id, owner, side, 0, qty, true);
    }

    method CancelOrder(id: OrderId) returns (live: bool)
      modifies this
      ensures (State(), live) == Market.CancelOrder(old(State()), id)
    {
      var i := 0;
      while i < |resting|
        invariant 0 <= i <= |resting|
        invariant State() == old(State())
        invariant forall j :: 0 <= j < i ==> resting[j].id != id
      {
        if resting[i].id == id {
          assert Find(resting, id) == Some(i);
          resting := RemoveAt(resting, i);
          return true;
        }
        i := i + 1;
      }
      return false;
    }

    method ModifyOrder(id: OrderId, price: Price, qty: Quantity) returns (rep: ExecReport)
      modifies this
      ensures (State(), rep) == Market.ModifyOrder(old(State()), policy, id, price, qty)
    {
      rep := EMPTY_REPORT;
      var m := FindOrder(id);
      if m.None? {
        rep := rep.(accepted := false, remaining := qty);
        return;
      }
      var side, owner := resting[m.value].side, resting[m.value].owner;
      var _ := CancelOrder(id);
      if qty == 0 {
        return;
      }
      rep := AddLimit(id, owner, side, price, qty);
    }

    // The resting orders in queue order.
    method QueueSnapshot() returns (out: seq<Order>)
      requires WellFormed(State())
      ensures InBookOrder(out) && SameMembers(out, resting)
    {
      SortSorts(resting);
      out := Sort(resting);
    }
  }
}
