// What every run of the market keeps, and what one taker can and cannot do.
module MarketProperties {
  import opened Types
  import opened Market
  import opened Queues

  // Orders only shrink during matching ------------------------------------------

  // o is an order of before with, at most, some of its quantity gone.
  ghost predicate From(before: seq<Order>, o: Order) {
    var m := Find(before, o.id);
    m.Some? && before[m.value] == o.(qty := before[m.value].qty) && o.qty <= before[m.value].qty
  }

  ghost predicate Shrunk(before: seq<Order>, after: seq<Order>) {
    forall j :: 0 <= j < |after| ==> From(before, after[j])
  }

  lemma FindOwn(resting: seq<Order>, j: nat)
    requires DistinctIds(resting) && j < |resting|
    ensures Find(resting, resting[j].id) == Some(j)
  {
    var m := Find(resting, resting[j].id);
    assert m.Some? && resting[m.value].id == resting[j].id;
  }

  lemma ShrunkByRemove(resting: seq<Order>, m: nat)
    requires DistinctIds(resting) && m < |resting|
    ensures Shrunk(resting, RemoveAt(resting, m)) && DistinctIds(RemoveAt(resting, m))
    ensures Find(RemoveAt(resting, m), resting[m].id).None?
  {
    forall j | 0 <= j < |resting| - 1 ensures From(resting, RemoveAt(resting, m)[j]) {
      FindOwn(resting, if j < m then j else j + 1);
    }
  }

  lemma ShrunkByReplace(resting: seq<Order>, m: nat, o: Order)
    requires DistinctIds(resting) && m < |resting|
    requires resting[m] == o.(qty := resting[m].qty) && o.qty <= resting[m].qty
    ensures Shrunk(resting, resting[m := o]) && DistinctIds(resting[m := o])
  {
    var after := resting[m := o];
    forall j | 0 <= j < |after| ensures From(resting, after[j]) {
      FindOwn(resting, j);
    }
  }

  lemma ShrunkTransitive(a: seq<Order>, b: seq<Order>, c: seq<Order>)
    requires Shrunk(a, b) && Shrunk(b, c)
    ensures Shrunk(a, c)
  {
  }

  lemma ShrunkUncrossed(before: seq<Order>, after: seq<Order>)
    requires Shrunk(before, after) && Uncrossed(before)
    ensures Uncrossed(after)
  {
    forall i, j | 0 <= i < |after| && 0 <= j < |after| && after[i].side.Buy? && after[j].side.Sell?
      ensures after[i].price < after[j].price
    {
      assert From(before, after[i]) && From(before, after[j]);
    }
  }

  lemma ShrunkReflexive(resting: seq<Order>)
    requires DistinctIds(resting)
    ensures Shrunk(resting, resting)
  {
    forall j | 0 <= j < |resting| ensures From(resting, resting[j]) {
      FindOwn(resting, j);
    }
  }

  lemma OthersRemain(resting: seq<Order>, m: nat)
    requires DistinctIds(resting) && m < |resting|
    ensures forall o :: o in RemoveAt(resting, m) <==> o in resting && o != resting[m]
  {
    var rest := RemoveAt(resting, m);
    forall o | o in resting && o != resting[m] ensures o in rest {
      var j :| 0 <= j < |resting| && resting[j] == o;
      assert rest[if j < m then j else j - 1] == o;
    }
    forall o | o in rest ensures o in resting && o != resting[m] {
      var j :| 0 <= j < |rest| && rest[j] == o;
      assert resting[if j < m then j else j + 1] == o;
    }
  }

  lemma RemoveKeeps(b: Book, m: nat)
    requires WellFormed(b) && m < |b.resting|
    ensures WellFormed(b.(resting := RemoveAt(b.resting, m)))
  {
    hide RemoveAt;
    ShrunkByRemove(b.resting, m);
    ShrunkUncrossed(b.resting, RemoveAt(b.resting, m));
    RemoveIndices(b.resting, m);
    hide Shrunk, Uncrossed;
  }

  lemma ReplaceKeeps(b: Book, m: nat, o: Order)
    requires WellFormed(b) && m < |b.resting|
    requires b.resting[m] == o.(qty := b.resting[m].qty) && 0 < o.qty <= b.resting[m].qty
    ensures WellFormed(b.(resting := b.resting[m := o]))
  {
    ShrunkByReplace(b.resting, m, o);
    ShrunkUncrossed(b.resting, b.resting[m := o]);
  }

  lemma PrintKeeps(b: Book, trade: Trade)
    requires WellFormed(b) && trade.sequence == b.nextSeq
    ensures WellFormed(b.(log := b.log + [trade], nextSeq := b.nextSeq + 1))
  {
  }

  lemma WellFormedIds(b: Book)
    requires WellFormed(b)
    ensures DistinctIds(b.resting)
    ensures forall j :: 0 <= j < |b.resting| ==> b.resting[j].qty > 0
  {
  }

  lemma ArrivalsRise(b: Book)
    requires WellFormed(b)
    ensures ByArrival(b.resting)
  {
  }

  lemma StepKeeps(t: Taker, policy: SelfTradePolicy, s: Matching)
    requires WellFormed(s.book) && !Done(t, s)
    ensures var s' := Step(t, policy, s);
            && WellFormed(s'.book)
            && Shrunk(s.book.resting, s'.book.resting)
            && s'.book.nextArrival == s.book.nextArrival
            && s.book.log <= s'.book.log
  {
    hide WellFormed, Shrunk, RemoveAt, NextMaker;
    var m := NextMaker(s.book.resting, Opposite(t.side)).value;
    WellFormedIds(s.book);
    var maker := s.book.resting[m];
    var traded := Min(s.left, maker.qty);
    ShrunkReflexive(s.book.resting);
    ShrunkByRemove(s.book.resting, m);
    RemoveKeeps(s.book, m);
    if traded < maker.qty {
      ShrunkByReplace(s.book.resting, m, AfterFill(maker, traded));
      ReplaceKeeps(s.book, m, AfterFill(maker, traded));
    }
    if !SelfTrade(policy, t.owner, maker.owner) {
      PrintKeeps(s.book.(resting := Fill(t, s, m).book.resting), TradeFor(t, s, m));
    }
  }

  // One step from the order the taker hits next, as MatchUnfolds, and what it keeps.
  lemma HitKeeps(t: Taker, policy: SelfTradePolicy, s: Matching, m: nat)
    requires WellFormed(s.book) && s.left > 0 && !s.rep.stpHalted
    requires NextMaker(s.book.resting, Opposite(t.side)) == Some(m) && Crosses(t, s.book.resting[m].price)
    ensures var s' := if !SelfTrade(policy, t.owner, s.book.resting[m].owner) then Fill(t, s, m)
                      else if policy.CancelIncoming? then s.(rep := s.rep.(stpHalted := true))
                      else Market.DropMaker(s, m);
            Match(t, policy, s) == Match(t, policy, s') && WellFormed(s'.book)
  {
    hide Match, WellFormed;
    MatchUnfolds(t, policy, s, m);
    StepKeeps(t, policy, s);
  }

  // Matching keeps the book well-formed, adds no order, and never reorders one.
  lemma {:induction false} MatchKeeps(t: Taker, policy: SelfTradePolicy, s: Matching)
    requires WellFormed(s.book)
    ensures var s' := Match(t, policy, s);
            && WellFormed(s'.book)
            && Shrunk(s.book.resting, s'.book.resting)
            && s'.book.nextArrival == s.book.nextArrival
            && s.book.log <= s'.book.log
    decreases |s.book.resting|, s.left, !s.rep.stpHalted
  {
    if Done(t, s) {
      ShrunkReflexive(s.book.resting);
    } else {
      hide WellFormed, Shrunk;
      StepKeeps(t, policy, s);
      MatchKeeps(t, policy, Step(t, policy, s));
      ShrunkTransitive(s.book.resting, Step(t, policy, s).book.resting, Match(t, policy, s).book.resting);
    }
  }

  // Matching stops only when the taker is done...
  lemma {:induction false} MatchIsDone(t: Taker, policy: SelfTradePolicy, s: Matching)
    ensures Done(t, Match(t, policy, s))
    decreases |s.book.resting|, s.left, !s.rep.stpHalted
  {
    hide Match, Step, Done;
    if Done(t, s) {
      MatchEnds(t, policy, s);
    } else {
      StepSmaller(t, policy, s);
      MatchOnce(t, policy, s);
      MatchIsDone(t, policy, Step(t, policy, s));
    }
  }

  // ...which is: nothing left, halted, or every far order left is priced beyond its limit.
  lemma MatchStops(t: Taker, policy: SelfTradePolicy, s: Matching)
    ensures var s' := Match(t, policy, s);
            && Done(t, s')
            && (WellFormed(s.book) && s'.left > 0 && !s'.rep.stpHalted ==>
                  forall j :: 0 <= j < |s'.book.resting| && s'.book.resting[j].side != t.side ==>
                    && t.limit.Some?
                    && if t.side.Buy? then s'.book.resting[j].price > t.limit.value
                       else s'.book.resting[j].price < t.limit.value)
  {
    hide Match, WellFormed, Done;
    MatchIsDone(t, policy, s);
    var s' := Match(t, policy, s);
    if WellFormed(s.book) && s'.left > 0 && !s'.rep.stpHalted {
      MatchKeeps(t, policy, s);
      LeftoverDoesNotCross(t, s');
    }
  }

  // Well-formedness in every reachable state -------------------------------------

  // An order that crosses nothing on the other side can rest, with the newest arrival.
  lemma AppendKeeps(b: Book, o: Order)
    requires WellFormed(b) && o.arrival == b.nextArrival && o.qty > 0 && Find(b.resting, o.id).None?
    requires forall j :: 0 <= j < |b.resting| && b.resting[j].side != o.side ==>
               if o.side.Buy? then b.resting[j].price > o.price else b.resting[j].price < o.price
    ensures WellFormed(b.(resting := b.resting + [o], nextArrival := b.nextArrival + 1))
  {
    var resting := b.resting + [o];
    assert DistinctIds(resting) && ByArrival(resting);
    forall i, j | 0 <= i < |resting| && 0 <= j < |resting| && resting[i].side.Buy? && resting[j].side.Sell?
      ensures resting[i].price < resting[j].price
    {
      assert i < |b.resting| || j < |b.resting|;
    }
  }

  lemma RestKeeps(t: Taker, s: Matching)
    requires WellFormed(s.book) && Done(t, s) && Find(s.book.resting, t.id).None?
    ensures WellFormed(Rest(t, s).0)
  {
    hide WellFormed, Done, Find, NextMaker;
    if t.limit.Some? && s.left > 0 && !s.rep.stpHalted {
      LeftoverDoesNotCross(t, s);
      AppendKeeps(s.book, Order(t.id, t.owner, t.limit.value, s.left, t.side, s.book.nextArrival));
    }
  }

  // Every order on the far side that is left behind is priced beyond the limit of what rests.
  lemma LeftoverDoesNotCross(t: Taker, s: Matching)
    requires WellFormed(s.book) && Done(t, s) && s.left > 0 && !s.rep.stpHalted
    ensures forall j :: 0 <= j < |s.book.resting| && s.book.resting[j].side != t.side ==>
              && !Crosses(t, s.book.resting[j].price)
              && t.limit.Some?
              && if t.side.Buy? then s.book.resting[j].price > t.limit.value
                 else s.book.resting[j].price < t.limit.value
  {
    var m := NextMaker(s.book.resting, Opposite(t.side));
    forall j | 0 <= j < |s.book.resting| && s.book.resting[j].side != t.side
      ensures !Crosses(t, s.book.resting[j].price)
    {
      assert m.Some?;
      assert j == m.value || Before(s.book.resting[m.value], s.book.resting[j]);
    }
  }

  lemma SubmitKeeps(b: Book, policy: SelfTradePolicy, t: Taker, qty: Quantity)
    requires WellFormed(b)
    ensures WellFormed(Submit(b, policy, t, qty).0)
    ensures |Submit(b, policy, t, qty).0.resting| <= |b.resting| + 1
  {
    if qty > 0 && Find(b.resting, t.id).None? {
      var s := Matching(b, qty, EMPTY_REPORT);
      MatchKeeps(t, policy, s);
      MatchStops(t, policy, s);
      MatchShrinks(t, policy, s);
      AbsentStaysAbsent(b.resting, Match(t, policy, s).book.resting, t.id);
      hide WellFormed, Shrunk, Match, Done;
      RestKeeps(t, Match(t, policy, s));
    }
  }

  lemma {:induction false} MatchShrinks(t: Taker, policy: SelfTradePolicy, s: Matching)
    ensures |Match(t, policy, s).book.resting| <= |s.book.resting|
    decreases |s.book.resting|, s.left, !s.rep.stpHalted
  {
    hide Match, Step, Done;
    if Done(t, s) {
      MatchEnds(t, policy, s);
    } else {
      StepSmaller(t, policy, s);
      MatchOnce(t, policy, s);
      MatchShrinks(t, policy, Step(t, policy, s));
    }
  }

  lemma AbsentStaysAbsent(before: seq<Order>, after: seq<Order>, id: OrderId)
    requires Shrunk(before, after) && Find(before, id).None?
    ensures Find(after, id).None?
  {
    forall j | 0 <= j < |after| ensures after[j].id != id {
      assert From(before, after[j]);
    }
  }

  lemma CancelKeeps(b: Book, id: OrderId)
    requires WellFormed(b)
    ensures WellFormed(CancelOrder(b, id).0)
    ensures Find(CancelOrder(b, id).0.resting, id).None?
    ensures CancelOrder(b, id).1 ==> |CancelOrder(b, id).0.resting| == |b.resting| - 1
    ensures Shrunk(b.resting, CancelOrder(b, id).0.resting)
  {
    var m := Find(b.resting, id);
    assert WellFormed(b) ==> DistinctIds(b.resting);
    hide WellFormed, Shrunk, DistinctIds;
    if m.Some? {
      ShrunkByRemove(b.resting, m.value);
      RemoveKeeps(b, m.value);
    } else {
      ShrunkReflexive(b.resting);
    }
  }

  lemma ApplyKeeps(b: Book, policy: SelfTradePolicy, op: Op)
    requires WellFormed(b)
    ensures WellFormed(Apply(b, policy, op).0)
  {
    hide WellFormed, Submit, CancelOrder;
    match op
    case AddLimit(id, owner, side, price, qty) => SubmitKeeps(b, policy, Taker(id, owner, side, Some(price)), qty);
    case AddMarket(id, owner, side, qty) => SubmitKeeps(b, policy, Taker(id, owner, side, None), qty);
    case Cancel(id) => CancelKeeps(b, id);
    case Modify(id, price, qty) =>
      var m := Find(b.resting, id);
      if m.Some? {
        var was := b.resting[m.value];
        CancelKeeps(b, id);
        SubmitKeeps(CancelOrder(b, id).0, policy, Taker(id, was.owner, was.side, Some(price)), qty);
      }
  }

  // Under every policy, every reachable book is well-formed: in particular the best bid stays
  // strictly below the best ask, ids are unique, and the k-th trade has sequence number k.
  lemma {:induction false} RunKeeps(policy: SelfTradePolicy, ops: seq<Op>)
    ensures WellFormed(Run(policy, ops).0)
  {
    if ops != [] {
      RunKeeps(policy, ops[..|ops| - 1]);
      ApplyKeeps(Run(policy, ops[..|ops| - 1]).0, policy, ops[|ops| - 1]);
    }
  }
}
