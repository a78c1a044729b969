// Price-time priority and self-trade prevention, for every fill of every order.
module Priority {
  import opened Types
  import opened Market
  import opened MarketProperties

  // The states of one match -------------------------------------------------------------

  // Matching from s passes through at.
  ghost predicate Reaches(t: Taker, policy: SelfTradePolicy, s: Matching, at: Matching)
    decreases |s.book.resting|, s.left, !s.rep.stpHalted
  {
    s == at || (!Done(t, s) && Reaches(t, policy, Step(t, policy, s), at))
  }

  lemma {:induction false} ReachesEnd(t: Taker, policy: SelfTradePolicy, s: Matching)
    ensures Reaches(t, policy, s, Match(t, policy, s))
    decreases |s.book.resting|, s.left, !s.rep.stpHalted
  {
    if !Done(t, s) {
      ReachesEnd(t, policy, Step(t, policy, s));
    }
  }

  lemma ReachesNext(t: Taker, policy: SelfTradePolicy, s: Matching, at: Matching)
    requires !Done(t, s) && Reaches(t, policy, Step(t, policy, s), at)
    ensures Reaches(t, policy, s, at)
  {
  }

  // Every state passed through is well formed, has only orders of the first one in it, and
  // has the rest of the matching still to do.
  lemma {:induction false} ReachedKeeps(t: Taker, policy: SelfTradePolicy, s: Matching, at: Matching)
    requires WellFormed(s.book) && Reaches(t, policy, s, at)
    ensures WellFormed(at.book) && Shrunk(s.book.resting, at.book.resting)
    ensures Match(t, policy, at) == Match(t, policy, s)
    decreases |s.book.resting|, s.left, !s.rep.stpHalted
  {
    if s == at {
      ShrunkReflexive(s.book.resting);
    } else {
      var s1 := Step(t, policy, s);
      StepKeeps(t, policy, s);
      MatchOnce(t, policy, s);
      ReachedKeeps(t, policy, s1, at);
      hide *;
      ShrunkTransitive(s.book.resting, s1.book.resting, at.book.resting);
    }
  }

  // Fills by maker --------------------------------------------------------------------

  function QtyOf(resting: seq<Order>, id: OrderId): nat {
    var m := Find(resting, id);
    if m.None? then 0 else resting[m.value].qty
  }

  // The quantity trades of log take from one maker.
  function TradedWith(log: seq<Trade>, id: OrderId): nat {
    if log == [] then 0
    else TradedWith(log[..|log| - 1], id) + if log[|log| - 1].makerId == id then log[|log| - 1].qty else 0
  }

  // Self-trade prevention cancels o rather than let the taker hit it.
  predicate Preventable(t: Taker, policy: SelfTradePolicy, o: Order) {
    policy.CancelResting? && o.side != t.side && t.owner != ANONYMOUS && o.owner == t.owner
  }

  lemma FindElsewhere(resting: seq<Order>, m: nat, id: OrderId)
    requires DistinctIds(resting) && m < |resting| && resting[m].id != id
    ensures QtyOf(RemoveAt(resting, m), id) == QtyOf(resting, id)
  {
    var k, k' := Find(resting, id), Find(RemoveAt(resting, m), id);
    if k.Some? {
      var i := if k.value < m then k.value else k.value - 1;
      ShrunkByRemove(resting, m);
      assert RemoveAt(resting, m)[i].id == id;
      FindOwn(RemoveAt(resting, m), i);
    } else {
      forall j | 0 <= j < |resting| - 1 ensures RemoveAt(resting, m)[j].id != id {
        assert resting[if j < m then j else j + 1].id != id;
      }
    }
  }

  lemma QtyAfterFill(resting: seq<Order>, m: nat, traded: nat, id: OrderId)
    requires DistinctIds(resting) && m < |resting| && traded <= resting[m].qty
    ensures var after := resting[m := AfterFill(resting[m], traded)];
            QtyOf(after, id) == QtyOf(resting, id) - if resting[m].id == id then traded else 0
  {
    var after := resting[m := AfterFill(resting[m], traded)];
    ShrunkByReplace(resting, m, AfterFill(resting[m], traded));
    var k := Find(resting, id);
    if k.Some? {
      FindOwn(after, k.value);
      FindOwn(resting, k.value);
      FindOwn(resting, m);
    } else {
      forall j | 0 <= j < |after| ensures after[j].id != id {
        assert resting[j].id != id;
      }
    }
  }

  // How one order o of the book stands after taker t has done with it: it gave up exactly
  // what it traded, or, if self-trade prevention cancels it, it is untouched or gone, untraded.
  ghost predicate Accounted(t: Taker, policy: SelfTradePolicy, o: Order, s: Matching, s': Matching) {
    if Preventable(t, policy, o) then
      && QtyOf(s'.book.resting, o.id) in {0, QtyOf(s.book.resting, o.id)}
      && TradedWith(s'.book.log, o.id) == TradedWith(s.book.log, o.id)
    else
      QtyOf(s.book.resting, o.id) + TradedWith(s.book.log, o.id)
      == QtyOf(s'.book.resting, o.id) + TradedWith(s'.book.log, o.id)
  }

  lemma TradedWithOne(log: seq<Trade>, trade: Trade, id: OrderId)
    ensures TradedWith(log + [trade], id) == TradedWith(log, id) + if trade.makerId == id then trade.qty else 0
  {
    assert (log + [trade])[..|log|] == log;
  }

  lemma QtyOwn(resting: seq<Order>, m: nat, id: OrderId)
    requires DistinctIds(resting) && m < |resting|
    ensures QtyOf(resting, resting[m].id) == resting[m].qty
    ensures QtyOf(RemoveAt(resting, m), id) == if resting[m].id == id then 0 else QtyOf(resting, id)
  {
    FindOwn(resting, m);
    ShrunkByRemove(resting, m);
    if resting[m].id != id {
      FindElsewhere(resting, m, id);
    }
  }

  lemma StepAccounts(t: Taker, policy: SelfTradePolicy, s: Matching, o: Order)
    requires WellFormed(s.book) && !Done(t, s)
    requires Find(s.book.resting, o.id).Some? ==> s.book.resting[Find(s.book.resting, o.id).value].(qty := o.qty) == o
    ensures Accounted(t, policy, o, s, Step(t, policy, s))
  {
    var m := NextMaker(s.book.resting, Opposite(t.side)).value;
    var maker := s.book.resting[m];
    var traded := Min(s.left, maker.qty);
    assert DistinctIds(s.book.resting);
    FindOwn(s.book.resting, m);
    hide WellFormed, DistinctIds, QtyOf, TradedWith, RemoveAt, Find, Done;
    QtyAfterFill(s.book.resting, m, traded, o.id);
    QtyOwn(s.book.resting, m, o.id);
    TradedWithOne(s.book.log, TradeFor(t, s, m), o.id);
  }

  lemma AccountedTransitive(t: Taker, policy: SelfTradePolicy, o: Order, a: Matching, b: Matching, c: Matching)
    requires Accounted(t, policy, o, a, b) && Accounted(t, policy, o, b, c)
    ensures Accounted(t, policy, o, a, c)
  {
  }

  lemma SameOrder(before: seq<Order>, after: seq<Order>, o: Order)
    requires Shrunk(before, after)
    requires Find(before, o.id).Some? ==> before[Find(before, o.id).value].(qty := o.qty) == o
    ensures Find(after, o.id).Some? ==> after[Find(after, o.id).value].(qty := o.qty) == o
  {
    if Find(after, o.id).Some? {
      assert From(before, after[Find(after, o.id).value]);
    }
  }

  // Each state passed through has taken from a maker exactly what the trades so far took.
  lemma {:induction false} ReachedAccounts(t: Taker, policy: SelfTradePolicy, s: Matching, at: Matching, o: Order)
    requires WellFormed(s.book) && Reaches(t, policy, s, at)
    requires Find(s.book.resting, o.id).Some? ==> s.book.resting[Find(s.book.resting, o.id).value].(qty := o.qty) == o
    ensures Accounted(t, policy, o, s, at)
    decreases |s.book.resting|, s.left, !s.rep.stpHalted
  {
    if s != at {
      var s1 := Step(t, policy, s);
      StepKeeps(t, policy, s);
      StepAccounts(t, policy, s, o);
      SameOrder(s.book.resting, s1.book.resting, o);
      ReachedAccounts(t, policy, s1, at, o);
      hide *;
      AccountedTransitive(t, policy, o, s, s1, at);
    }
  }

  // Matching takes from a maker exactly what it trades with it. The only other way a maker
  // loses quantity is to be cancelled whole, untraded, under CancelResting by an order of its
  // own owner. So under Allow and CancelIncoming nothing leaves the book except by being filled.
  lemma MatchAccounts(t: Taker, policy: SelfTradePolicy, s: Matching, o: Order)
    requires WellFormed(s.book)
    requires Find(s.book.resting, o.id).Some? ==> s.book.resting[Find(s.book.resting, o.id).value].(qty := o.qty) == o
    ensures Accounted(t, policy, o, s, Match(t, policy, s))
  {
    ReachesEnd(t, policy, s);
    ReachedAccounts(t, policy, s, Match(t, policy, s), o);
  }

  // The same for a whole order, and every maker in the book it meets.
  lemma SubmitAccounts(b: Book, policy: SelfTradePolicy, t: Taker, qty: Quantity, i: nat)
    requires WellFormed(b) && i < |b.resting|
    ensures var b' := Submit(b, policy, t, qty).0;
            var o := b.resting[i];
            if Preventable(t, policy, o)
            then QtyOf(b'.resting, o.id) in {0, o.qty as nat} && TradedWith(b'.log, o.id) == TradedWith(b.log, o.id)
            else o.qty + TradedWith(b.log, o.id) == QtyOf(b'.resting, o.id) + TradedWith(b'.log, o.id)
  {
    var s := Matching(b, qty, EMPTY_REPORT);
    var o := b.resting[i];
    FindOwn(b.resting, i);
    if qty > 0 && Find(b.resting, t.id).None? {
      MatchAccounts(t, policy, s, o);
      var s' := Match(t, policy, s);
      hide Match, WellFormed, TradedWith;
      if t.limit.Some? && s'.left > 0 && !s'.rep.stpHalted {
        FindInLonger(s'.book.resting,
                     Order(t.id, t.owner, t.limit.value, s'.left, t.side, s'.book.nextArrival), o.id);
      }
    }
  }

  lemma {:induction false} FindInLonger(resting: seq<Order>, o: Order, id: OrderId)
    requires o.id != id
    ensures Find(resting + [o], id) == Find(resting, id)
  {
    if resting != [] {
      assert (resting + [o])[1..] == resting[1..] + [o];
      FindInLonger(resting[1..], o, id);
    }
  }

  // Priority at the time of each trade ---------------------------------------------------

  // The trade the taker is entitled to in the state it prints in: against the order that is
  // first by price and arrival of all that rest on the far side then, if the taker accepts
  // its price and need not avoid its owner; at that price, for all that both sides have.
  ghost predicate Justified(t: Taker, policy: SelfTradePolicy, at: Matching, trade: Trade) {
    Find(at.book.resting, trade.makerId).Some? &&
    var m := Find(at.book.resting, trade.makerId).value;
    var maker := at.book.resting[m];
    && maker.side != t.side && FirstOnSide(at.book.resting, maker.side, m)
    && (t.limit.Some? ==> if t.side.Buy? then maker.price <= t.limit.value else maker.price >= t.limit.value)
    && (policy != Allow && t.owner != ANONYMOUS ==> maker.owner != t.owner)
    && trade.price == maker.price
    && 0 < trade.qty == Min(at.left, maker.qty)
    && trade.takerId == t.id && trade.takerSide == t.side
  }

  lemma StepPrints(t: Taker, policy: SelfTradePolicy, s: Matching)
    requires !Done(t, s)
    ensures var m := NextMaker(s.book.resting, Opposite(t.side)).value;
            Step(t, policy, s).book.log ==
            s.book.log + if SelfTrade(policy, t.owner, s.book.resting[m].owner) then [] else [TradeFor(t, s, m)]
  {
  }

  // The state at one trade of a match: the log holds exactly the trades before it, and the
  // trade is the one the taker is entitled to in that state.
  ghost predicate TradesAt(t: Taker, policy: SelfTradePolicy, s: Matching, log: seq<Trade>, k: nat, at: Matching)
    requires k < |log|
  {
    Reaches(t, policy, s, at) && at.book.log == log[..k] && Justified(t, policy, at, log[k])
  }

  lemma TradesNow(t: Taker, policy: SelfTradePolicy, s: Matching, log: seq<Trade>, k: nat)
    requires WellFormed(s.book) && !Done(t, s)
    requires k == |s.book.log| < |Step(t, policy, s).book.log| && Step(t, policy, s).book.log <= log
    ensures TradesAt(t, policy, s, log, k, s)
  {
    var m := NextMaker(s.book.resting, Opposite(t.side)).value;
    FindOwn(s.book.resting, m);
    StepPrints(t, policy, s);
    assert log[k] == Step(t, policy, s).book.log[k] == TradeFor(t, s, m);
  }

  lemma TradesLater(t: Taker, policy: SelfTradePolicy, s: Matching, log: seq<Trade>, k: nat, at: Matching)
    requires !Done(t, s) && k < |log| && TradesAt(t, policy, Step(t, policy, s), log, k, at)
    ensures TradesAt(t, policy, s, log, k, at)
  {
    ReachesNext(t, policy, s, at);
  }

  lemma {:induction false} TradeHasState(t: Taker, policy: SelfTradePolicy, s: Matching, k: nat) returns (at: Matching)
    requires WellFormed(s.book)
    requires |s.book.log| <= k < |Match(t, policy, s).book.log|
    ensures TradesAt(t, policy, s, Match(t, policy, s).book.log, k, at)
    decreases |s.book.resting|, s.left, !s.rep.stpHalted
  {
    hide *;
    if Done(t, s) {
      MatchEnds(t, policy, s);
    } else {
      var s1 := Step(t, policy, s);
      StepKeeps(t, policy, s);
      StepPrints(t, policy, s);
      MatchOnce(t, policy, s);
      MatchKeeps(t, policy, s1);
      StepSmaller(t, policy, s);
      var log := Match(t, policy, s1).book.log;
      if k < |s1.book.log| {
        at := s;
        TradesNow(t, policy, s, log, k);
      } else {
        at := TradeHasState(t, policy, s1, k);
        TradesLater(t, policy, s, log, k, at);
      }
    }
  }

  // At each trade of a match the maker is first by price and arrival of all orders resting on
  // the far side. What rests then is what rested before less what the trades up to then took,
  // and less what self-trade prevention cancelled.
  lemma MatchJustified(t: Taker, policy: SelfTradePolicy, s: Matching, k: nat) returns (at: Matching)
    requires WellFormed(s.book)
    requires |s.book.log| <= k < |Match(t, policy, s).book.log|
    ensures TradesAt(t, policy, s, Match(t, policy, s).book.log, k, at)
    ensures forall i :: 0 <= i < |s.book.resting| ==> Accounted(t, policy, s.book.resting[i], s, at)
    ensures Shrunk(s.book.resting, at.book.resting)
  {
    at := TradeHasState(t, policy, s, k);
    ReachedKeeps(t, policy, s, at);
    forall i | 0 <= i < |s.book.resting| ensures Accounted(t, policy, s.book.resting[i], s, at) {
      FindOwn(s.book.resting, i);
      ReachedAccounts(t, policy, s, at, s.book.resting[i]);
    }
  }

  lemma SubmitLog(b: Book, policy: SelfTradePolicy, t: Taker, qty: Quantity)
    requires WellFormed(b)
    ensures var log := Submit(b, policy, t, qty).0.log;
            && b.log <= log
            && (|log| > |b.log| ==> log == Match(t, policy, Matching(b, qty, EMPTY_REPORT)).book.log)
  {
    MatchKeeps(t, policy, Matching(b, qty, EMPTY_REPORT));
  }

  // The same for each trade of a submission.
  lemma SubmitJustified(b: Book, policy: SelfTradePolicy, t: Taker, qty: Quantity, k: nat) returns (at: Matching)
    requires WellFormed(b)
    requires |b.log| <= k < |Submit(b, policy, t, qty).0.log|
    ensures TradesAt(t, policy, Matching(b, qty, EMPTY_REPORT), Submit(b, policy, t, qty).0.log, k, at)
    ensures forall i :: 0 <= i < |b.resting| ==>
              Accounted(t, policy, b.resting[i], Matching(b, qty, EMPTY_REPORT), at)
    ensures Shrunk(b.resting, at.book.resting)
  {
    SubmitLog(b, policy, t, qty);
    hide *;
    at := MatchJustified(t, policy, Matching(b, qty, EMPTY_REPORT), k);
  }

  // Nothing of higher priority than a maker that traded is left in the book afterwards.
  lemma NoneLeftAhead(t: Taker, policy: SelfTradePolicy, s: Matching, k: nat, i: nat)
    requires WellFormed(s.book) && i < |s.book.resting|
    requires |s.book.log| <= k < |Match(t, policy, s).book.log|
    ensures var after := Match(t, policy, s).book;
            var maker := Find(s.book.resting, after.log[k].makerId);
            && maker.Some?
            && (s.book.resting[i].side == Opposite(t.side) && Before(s.book.resting[i], s.book.resting[maker.value]) ==>
                  Find(after.resting, s.book.resting[i].id).None?)
  {
    hide Match, WellFormed, Accounted, Reaches;
    var at := TradeHasState(t, policy, s, k);
    ReachedKeeps(t, policy, s, at);
    MatchKeeps(t, policy, at);
    WellFormedIds(s.book);
    FirstIsAhead(t, policy, s.book.resting, at, Match(t, policy, s).book.log[k], i);
    var o := s.book.resting[i];
    if Find(at.book.resting, o.id).None? {
      AbsentStaysAbsent(at.book.resting, Match(t, policy, s).book.resting, o.id);
    }
  }

  lemma FirstIsAhead(
    t: Taker, policy: SelfTradePolicy, before: seq<Order>, at: Matching, trade: Trade, i: nat)
    requires Shrunk(before, at.book.resting) && Justified(t, policy, at, trade)
    requires DistinctIds(before) && i < |before|
    ensures var maker := Find(before, trade.makerId);
            && maker.Some?
            && (before[i].side == Opposite(t.side) && Before(before[i], before[maker.value]) ==>
                  Find(at.book.resting, before[i].id).None?)
  {
    var m := Find(at.book.resting, trade.makerId).value;
    assert From(before, at.book.resting[m]);
    var j := Find(at.book.resting, before[i].id);
    if j.Some? {
      assert From(before, at.book.resting[j.value]);
      FindOwn(before, i);
    }
  }

  // The same for a whole order: nothing trades through what is left in the book.
  lemma SubmitLeavesNoneAhead(b: Book, policy: SelfTradePolicy, t: Taker, qty: Quantity, k: nat, i: nat)
    requires WellFormed(b) && i < |b.resting|
    requires |b.log| <= k < |Submit(b, policy, t, qty).0.log|
    ensures var after := Submit(b, policy, t, qty).0;
            var maker := Find(b.resting, after.log[k].makerId);
            && maker.Some?
            && (b.resting[i].side == Opposite(t.side) && Before(b.resting[i], b.resting[maker.value]) ==>
                  Find(after.resting, b.resting[i].id).None?)
  {
    var s := Matching(b, qty, EMPTY_REPORT);
    SubmitLog(b, policy, t, qty);
    NoneLeftAhead(t, policy, s, k, i);
    var s' := Match(t, policy, s);
    hide Match, WellFormed;
    if t.limit.Some? && s'.left > 0 && !s'.rep.stpHalted {
      assert b.resting[i].id != t.id;
      FindInLonger(s'.book.resting,
                   Order(t.id, t.owner, t.limit.value, s'.left, t.side, s'.book.nextArrival), b.resting[i].id);
    }
  }

  // The order of the trades ----------------------------------------------------------------

  // The maker of one trade comes before the maker of another.
  ghost predicate MakersInOrder(resting: seq<Order>, a: Trade, b: Trade) {
    var m, n := Find(resting, a.makerId), Find(resting, b.makerId);
    m.Some? && n.Some? && Before(resting[m.value], resting[n.value])
  }

  lemma OrderInLarger(before: seq<Order>, after: seq<Order>, a: Trade, b: Trade)
    requires Shrunk(before, after) && MakersInOrder(after, a, b)
    ensures MakersInOrder(before, a, b)
  {
    assert From(before, after[Find(after, a.makerId).value]);
    assert From(before, after[Find(after, b.makerId).value]);
  }

  // A trade after which the taker goes on took all its maker had.
  lemma GoesOnWithout(t: Taker, policy: SelfTradePolicy, s: Matching, m: nat)
    requires !Done(t, s) && !Done(t, Step(t, policy, s))
    requires NextMaker(s.book.resting, Opposite(t.side)) == Some(m)
    requires |Step(t, policy, s).book.log| > |s.book.log|
    ensures Step(t, policy, s).book.resting == RemoveAt(s.book.resting, m)
    ensures Step(t, policy, s).book.log == s.book.log + [TradeFor(t, s, m)]
  {
  }

  lemma FirstBeforeLater(t: Taker, policy: SelfTradePolicy, s: Matching, at: Matching, later: Trade, m: nat)
    requires WellFormed(s.book) && NextMaker(s.book.resting, Opposite(t.side)) == Some(m) && m < |s.book.resting|
    requires Shrunk(RemoveAt(s.book.resting, m), at.book.resting) && Justified(t, policy, at, later)
    ensures MakersInOrder(s.book.resting, TradeFor(t, s, m), later)
  {
    FindOwn(s.book.resting, m);
    ShrunkByRemove(s.book.resting, m);
    var maker := at.book.resting[Find(at.book.resting, later.makerId).value];
    assert From(RemoveAt(s.book.resting, m), maker);
    var n := Find(RemoveAt(s.book.resting, m), maker.id).value;
    assert From(s.book.resting, RemoveAt(s.book.resting, m)[n]);
  }

  // The trades of a match are with makers in strict order of price and arrival.
  lemma {:induction false} MatchInOrder(t: Taker, policy: SelfTradePolicy, s: Matching, j: nat, k: nat)
    requires WellFormed(s.book)
    requires |s.book.log| <= j < k < |Match(t, policy, s).book.log|
    ensures MakersInOrder(s.book.resting, Match(t, policy, s).book.log[j], Match(t, policy, s).book.log[k])
    decreases |s.book.resting|, s.left, !s.rep.stpHalted
  {
    hide *;
    if Done(t, s) {
      MatchEnds(t, policy, s);
    } else {
      var s1 := Step(t, policy, s);
      StepKeeps(t, policy, s);
      StepPrints(t, policy, s);
      MatchOnce(t, policy, s);
      MatchKeeps(t, policy, s1);
      StepSmaller(t, policy, s);
      var log := Match(t, policy, s1).book.log;
      if j >= |s1.book.log| {
        MatchInOrder(t, policy, s1, j, k);
        OrderInLarger(s.book.resting, s1.book.resting, log[j], log[k]);
      } else {
        if Done(t, s1) {
          MatchEnds(t, policy, s1);
        }
        var m := HasMaker(t, s);
        GoesOnWithout(t, policy, s, m);
        var at := TradeHasState(t, policy, s1, k);
        StateFacts(t, policy, s1, log, k, at);
        ReachedKeeps(t, policy, s1, at);
        FirstBeforeLater(t, policy, s, at, log[k], m);
        assert log[j] == s1.book.log[j];
      }
    }
  }

  lemma HasMaker(t: Taker, s: Matching) returns (m: nat)
    requires !Done(t, s)
    ensures NextMaker(s.book.resting, Opposite(t.side)) == Some(m) && m < |s.book.resting|
  {
    m := NextMaker(s.book.resting, Opposite(t.side)).value;
  }

  lemma StateFacts(t: Taker, policy: SelfTradePolicy, s: Matching, log: seq<Trade>, k: nat, at: Matching)
    requires k < |log| && TradesAt(t, policy, s, log, k, at)
    ensures Reaches(t, policy, s, at) && Justified(t, policy, at, log[k])
  {
  }

  // The same for a whole order: best price first, and at a price the oldest first.
  lemma SubmitInOrder(b: Book, policy: SelfTradePolicy, t: Taker, qty: Quantity, j: nat, k: nat)
    requires WellFormed(b)
    requires |b.log| <= j < k < |Submit(b, policy, t, qty).0.log|
    ensures MakersInOrder(b.resting, Submit(b, policy, t, qty).0.log[j], Submit(b, policy, t, qty).0.log[k])
  {
    SubmitLog(b, policy, t, qty);
    hide *;
    MatchInOrder(t, policy, Matching(b, qty, EMPTY_REPORT), j, k);
  }

  // Whole runs -----------------------------------------------------------------------------

  datatype Submission = Submission(book: Book, taker: Taker, qty: Quantity)

  // What an operation submits, and the book it meets: a modify cancels first.
  function SubmissionOf(b: Book, op: Op): Option<Submission> {
    match op
    case AddLimit(id, owner, side, price, qty) => Some(Submission(b, Taker(id, owner, side, Some(price)), qty))
    case AddMarket(id, owner, side, qty) => Some(Submission(b, Taker(id, owner, side, None), qty))
    case Cancel(_) => None
    case Modify(id, price, qty) =>
      var m := Find(b.resting, id);
      if m.None? || qty == 0 then None
      else
        var was := b.resting[m.value];
        Some(Submission(CancelOrder(b, id).0, Taker(id, was.owner, was.side, Some(price)), qty))
  }

  // An operation prints what its submission prints.
  lemma ApplySubmits(b: Book, policy: SelfTradePolicy, op: Op)
    requires WellFormed(b)
    ensures var sub := SubmissionOf(b, op);
            if sub.None? then Apply(b, policy, op).0.log == b.log
            else && WellFormed(sub.value.book) && sub.value.book.log == b.log
                 && Apply(b, policy, op) == Submit(sub.value.book, policy, sub.value.taker, sub.value.qty)
  {
    hide Submit, WellFormed, CancelOrder, Find, Shrunk;
    if op.Cancel? || op.Modify? {
      CancelKeeps(b, op.id);
      CancelPrintsNothing(b, op.id);
    }
  }

  lemma CancelPrintsNothing(b: Book, id: OrderId)
    ensures CancelOrder(b, id).0.log == b.log
  {
  }

  // Operation i of a run prints trade k of its log, in the state at.
  ghost predicate PrintsAt(policy: SelfTradePolicy, ops: seq<Op>, k: nat, i: nat, at: Matching)
    requires k < |Run(policy, ops).0.log| && i < |ops|
  {
    var sub := SubmissionOf(Run(policy, ops[..i]).0, ops[i]);
    && sub.Some?
    && sub.value.book.log <= at.book.log
    && TradesAt(sub.value.taker, policy, Matching(sub.value.book, sub.value.qty, EMPTY_REPORT),
                Run(policy, ops).0.log, k, at)
  }

  lemma PrintsEarlier(policy: SelfTradePolicy, ops: seq<Op>, n: nat, k: nat, i: nat, at: Matching)
    requires n <= |ops| && i < n && k < |Run(policy, ops[..n]).0.log|
    requires Run(policy, ops[..n]).0.log <= Run(policy, ops).0.log
    requires PrintsAt(policy, ops[..n], k, i, at)
    ensures PrintsAt(policy, ops, k, i, at)
  {
    hide Run, SubmissionOf, Reaches, Justified;
    assert ops[..n][..i] == ops[..i];
    assert Run(policy, ops[..n]).0.log[..k] == Run(policy, ops).0.log[..k];
  }

  lemma RunAppliesLast(policy: SelfTradePolicy, ops: seq<Op>)
    requires ops != []
    ensures Run(policy, ops).0 == Apply(Run(policy, ops[..|ops| - 1]).0, policy, ops[|ops| - 1]).0
  {
  }

  // In every run under every policy, each trade printed is with the order that is first by
  // price and arrival of all those resting on the far side at that moment.
  lemma {:induction false} RunJustified(policy: SelfTradePolicy, ops: seq<Op>, k: nat) returns (i: nat, at: Matching)
    requires k < |Run(policy, ops).0.log|
    ensures i < |ops| && PrintsAt(policy, ops, k, i, at)
  {
    if ops == [] {
      assert false;
    } else {
      hide Run, Apply, Submit, SubmissionOf, WellFormed, TradesAt, Accounted, Shrunk;
      var n := |ops| - 1;
      var b := Run(policy, ops[..n]).0;
      RunAppliesLast(policy, ops);
      RunKeeps(policy, ops[..n]);
      ApplySubmits(b, policy, ops[n]);
      var sub := SubmissionOf(b, ops[n]);
      if sub.Some? {
        SubmitLog(sub.value.book, policy, sub.value.taker, sub.value.qty);
      }
      if k < |b.log| {
        i, at := RunJustified(policy, ops[..n], k);
        PrintsEarlier(policy, ops, n, k, i, at);
      } else {
        i := n;
        at := SubmitJustified(sub.value.book, policy, sub.value.taker, sub.value.qty, k);
      }
    }
  }
}
