// Who trades how much, in closed form: each far-side order gets what is left of the taker
// after the orders ahead of it. Nothing here refers to the steps of matching.
module Allocation {
  import opened Types
  import opened Market
  import opened MarketProperties
  import Queues
  import opened Priority

  // The taker's limit reaches an order on the other side.
  predicate Reachable(t: Taker, o: Order) {
    o.side != t.side && (t.limit.Some? ==> if t.side.Buy? then o.price <= t.limit.value else o.price >= t.limit.value)
  }

  // The taker must not trade with this order.
  predicate Own(t: Taker, policy: SelfTradePolicy, o: Order) {
    policy != Allow && t.owner != ANONYMOUS && o.owner == t.owner
  }

  // x is served before o: a better price, or the same price and older.
  predicate Leads(x: Order, o: Order) {
    && x.side == o.side
    && ((if o.side.Buy? then x.price > o.price else x.price < o.price) || (x.price == o.price && x.arrival < o.arrival))
  }

  // What x takes of the taker before o gets its turn.
  function Lead(t: Taker, policy: SelfTradePolicy, x: Order, o: Order): nat {
    if Leads(x, o) && !Own(t, policy, x) then x.qty else 0
  }

  // The quantity the taker can trade with before it comes to o.
  function Ahead(resting: seq<Order>, t: Taker, policy: SelfTradePolicy, o: Order): nat {
    if resting == [] then 0
    else
      var n := |resting| - 1;
      Ahead(resting[..n], t, policy, o) + Lead(t, policy, resting[n], o)
  }

  // Under CancelIncoming the taker stops before o, at an order of its own owner.
  ghost predicate Blocked(resting: seq<Order>, t: Taker, policy: SelfTradePolicy, o: Order) {
    policy.CancelIncoming? && exists x :: x in resting && Own(t, policy, x) && (x == o || Leads(x, o))
  }

  // What o trades with a taker of this quantity.
  ghost function Allotted(resting: seq<Order>, t: Taker, policy: SelfTradePolicy, qty: nat, o: Order): nat {
    var ahead := Ahead(resting, t, policy, o);
    if !Reachable(t, o) || Own(t, policy, o) || Blocked(resting, t, policy, o) || qty <= ahead then 0
    else Min(qty - ahead, o.qty)
  }

  // CancelResting takes o out of the book: the taker comes to it with quantity left.
  predicate Cancelled(resting: seq<Order>, t: Taker, policy: SelfTradePolicy, qty: nat, o: Order) {
    policy.CancelResting? && Reachable(t, o) && Own(t, policy, o) && Ahead(resting, t, policy, o) < qty
  }

  // What is left of o in the book.
  ghost function Remaining(resting: seq<Order>, t: Taker, policy: SelfTradePolicy, qty: nat, o: Order): (r: nat)
    ensures r <= o.qty
  {
    if Cancelled(resting, t, policy, qty, o) then 0 else o.qty - Allotted(resting, t, policy, qty, o)
  }

  // CancelIncoming stops the taker: it comes to an order of its own owner with quantity left.
  ghost predicate Halted(resting: seq<Order>, t: Taker, policy: SelfTradePolicy, qty: nat) {
    policy.CancelIncoming? &&
    exists o :: o in resting && Reachable(t, o) && Own(t, policy, o) && Ahead(resting, t, policy, o) < qty
  }

  // Sums -----------------------------------------------------------------------------------

  lemma {:induction false} AheadConcat(a: seq<Order>, b: seq<Order>, t: Taker, policy: SelfTradePolicy, o: Order)
    ensures Ahead(a + b, t, policy, o) == Ahead(a, t, policy, o) + Ahead(b, t, policy, o)
    decreases |b|
  {
    hide Lead;
    if b == [] {
      assert a + b == a;
    } else {
      assert (a + b)[..|a + b| - 1] == a + b[..|b| - 1];
      AheadConcat(a, b[..|b| - 1], t, policy, o);
    }
  }

  lemma AheadOne(x: Order, t: Taker, policy: SelfTradePolicy, o: Order)
    ensures Ahead([x], t, policy, o) == Lead(t, policy, x, o)
  {
    hide Lead;
    assert [x][..0] == [];
  }

  lemma AheadWithout(resting: seq<Order>, m: nat, t: Taker, policy: SelfTradePolicy, o: Order)
    requires m < |resting|
    ensures Ahead(resting, t, policy, o)
         == Ahead(RemoveAt(resting, m), t, policy, o) + Lead(t, policy, resting[m], o)
  {
    hide Ahead, Lead;
    var a, b := resting[..m], resting[m + 1..];
    assert resting == a + ([resting[m]] + b);
    AheadConcat(a, [resting[m]] + b, t, policy, o);
    AheadConcat([resting[m]], b, t, policy, o);
    AheadOne(resting[m], t, policy, o);
    AheadConcat(a, b, t, policy, o);
  }

  lemma {:induction false} NoneAhead(resting: seq<Order>, t: Taker, policy: SelfTradePolicy, o: Order)
    requires forall x :: x in resting ==> !Leads(x, o)
    ensures Ahead(resting, t, policy, o) == 0
  {
    if resting != [] {
      NoneAhead(resting[..|resting| - 1], t, policy, o);
    }
  }

  // The first order ------------------------------------------------------------------------

  // The order the taker hits next leads every other order of its side.
  lemma FirstLeads(t: Taker, s: Matching) returns (m: nat)
    requires WellFormed(s.book) && !Done(t, s)
    ensures NextMaker(s.book.resting, Opposite(t.side)) == Some(m) && m < |s.book.resting|
    ensures Reachable(t, s.book.resting[m]) && s.book.resting[m].qty > 0 && s.left > 0
    ensures forall x :: x in s.book.resting && x.side != t.side && x != s.book.resting[m] ==>
              Leads(s.book.resting[m], x)
    ensures forall x :: x in s.book.resting ==> !Leads(x, s.book.resting[m])
  {
    m := NextMaker(s.book.resting, Opposite(t.side)).value;
  }

  // Whoever stops on its own reaches no order that is left.
  lemma DoneReachesNone(t: Taker, s: Matching)
    requires WellFormed(s.book) && Done(t, s) && s.left > 0 && !s.rep.stpHalted
    ensures forall o :: o in s.book.resting ==> !Reachable(t, o)
  {
    LeftoverDoesNotCross(t, s);
  }

  // One step -------------------------------------------------------------------------------

  // Taking out the first order, for its whole quantity if the taker may trade with it, leaves
  // every other order with the same in prospect.
  lemma SameProspect(resting: seq<Order>, m: nat, t: Taker, policy: SelfTradePolicy, left: nat, o: Order)
    requires DistinctIds(resting) && m < |resting| && o in resting && o != resting[m]
    requires resting[m].side != t.side
    requires forall x :: x in resting && x.side != t.side && x != resting[m] ==> Leads(resting[m], x)
    requires Own(t, policy, resting[m]) ==> policy.CancelResting?
    requires !Own(t, policy, resting[m]) ==> resting[m].qty <= left
    ensures var left' := if Own(t, policy, resting[m]) then left else left - resting[m].qty;
            Remaining(resting, t, policy, left, o) == Remaining(RemoveAt(resting, m), t, policy, left', o)
  {
    AheadWithout(resting, m, t, policy, o);
    OthersRemain(resting, m);
    hide Ahead, RemoveAt;
    if Reachable(t, o) {
      assert Leads(resting[m], o);
      assert Blocked(resting, t, policy, o) <==> Blocked(RemoveAt(resting, m), t, policy, o);
    }
  }

  lemma FirstShare(resting: seq<Order>, m: nat, t: Taker, policy: SelfTradePolicy, left: nat)
    requires m < |resting| && Reachable(t, resting[m]) && left > 0
    requires forall x :: x in resting ==> !Leads(x, resting[m])
    ensures Own(t, policy, resting[m]) && policy.CancelResting? ==> Remaining(resting, t, policy, left, resting[m]) == 0
    ensures !Own(t, policy, resting[m]) ==>
              Remaining(resting, t, policy, left, resting[m]) == resting[m].qty - Min(left, resting[m].qty)
  {
    NoneAhead(resting, t, policy, resting[m]);
    hide Ahead;
  }

  // An order the taker is used up before it comes to, or stopped before, stays as it is.
  lemma NotReached(resting: seq<Order>, m: nat, t: Taker, policy: SelfTradePolicy, left: nat, o: Order)
    requires m < |resting| && o in resting
    requires Reachable(t, o) ==> o == resting[m] || Leads(resting[m], o)
    requires if Own(t, policy, resting[m]) then policy.CancelIncoming? else left <= resting[m].qty && o != resting[m]
    ensures Remaining(resting, t, policy, left, o) == o.qty
  {
    AheadWithout(resting, m, t, policy, o);
    hide Ahead, RemoveAt;
    if Reachable(t, o) && Own(t, policy, resting[m]) {
      assert Blocked(resting, t, policy, o);
    }
  }

  lemma StepIs(t: Taker, policy: SelfTradePolicy, s: Matching, m: nat)
    requires !Done(t, s) && NextMaker(s.book.resting, Opposite(t.side)) == Some(m) && m < |s.book.resting|
    ensures var s', maker := Step(t, policy, s), s.book.resting[m];
            if Own(t, policy, maker) && policy.CancelIncoming? then
              s'.book == s.book && s'.left == s.left && s'.rep.stpHalted
            else if Own(t, policy, maker) then
              s'.book.resting == RemoveAt(s.book.resting, m) && s'.left == s.left && !s'.rep.stpHalted
            else if maker.qty <= s.left then
              s'.book.resting == RemoveAt(s.book.resting, m) && s'.left == s.left - maker.qty && !s'.rep.stpHalted
            else
              && s'.book.resting == s.book.resting[m := maker.(qty := maker.qty - s.left)]
              && s'.left == 0 && !s'.rep.stpHalted
  {
    hide RemoveAt, NextMaker;
  }

  lemma QtyIn(resting: seq<Order>, o: Order)
    requires DistinctIds(resting) && o in resting
    ensures QtyOf(resting, o.id) == o.qty
  {
    var j :| 0 <= j < |resting| && resting[j] == o;
    FindOwn(resting, j);
  }

  lemma DoneRemains(t: Taker, policy: SelfTradePolicy, s: Matching, o: Order)
    requires WellFormed(s.book) && Done(t, s) && !s.rep.stpHalted && o in s.book.resting
    ensures Remaining(s.book.resting, t, policy, s.left, o) == o.qty
  {
    hide Done;
    if s.left > 0 {
      DoneReachesNone(t, s);
    }
  }

  lemma DoneAlready(t: Taker, s: Matching)
    requires s.left == 0 || s.rep.stpHalted
    ensures Done(t, s)
  {
  }

  lemma GoneForGood(t: Taker, policy: SelfTradePolicy, s: Matching, resting: seq<Order>, m: nat)
    requires WellFormed(s.book) && DistinctIds(resting)
    requires m < |resting| && s.book.resting == RemoveAt(resting, m)
    ensures QtyOf(Match(t, policy, s).book.resting, resting[m].id) == 0
  {
    hide Match, WellFormed;
    MatchKeeps(t, policy, s);
    ShrunkByRemove(resting, m);
    AbsentStaysAbsent(s.book.resting, Match(t, policy, s).book.resting, resting[m].id);
  }

  lemma QtyAfterLastFill(resting: seq<Order>, m: nat, left: nat, o: Order)
    requires DistinctIds(resting) && o in resting && m < |resting| && left <= resting[m].qty
    ensures QtyOf(resting[m := resting[m].(qty := resting[m].qty - left)], o.id)
         == o.qty - if o == resting[m] then left else 0
  {
    QtyIn(resting, o);
    QtyAfterFill(resting, m, left, o.id);
    var j :| 0 <= j < |resting| && resting[j] == o;
  }

  // Whole matches --------------------------------------------------------------------------

  // After a match each order has left what the closed form says.
  lemma {:induction false} MatchLeaves(t: Taker, policy: SelfTradePolicy, s: Matching, o: Order)
    requires WellFormed(s.book) && !s.rep.stpHalted && o in s.book.resting
    ensures QtyOf(Match(t, policy, s).book.resting, o.id) == Remaining(s.book.resting, t, policy, s.left, o)
    decreases |s.book.resting|, s.left
  {
    hide Match, Step, WellFormed, DistinctIds, Done, NextMaker, Remaining, RemoveAt, QtyOf, Find, Leads;
    var resting := s.book.resting;
    WellFormedIds(s.book);
    QtyIn(resting, o);
    if Done(t, s) {
      MatchEnds(t, policy, s);
      DoneRemains(t, policy, s, o);
    } else {
      var m := FirstLeads(t, s);
      var s1 := Step(t, policy, s);
      StepIs(t, policy, s, m);
      StepKeeps(t, policy, s);
      MatchOnce(t, policy, s);
      FirstShare(resting, m, t, policy, s.left);
      if s1.book.resting == RemoveAt(resting, m) {
        if o == resting[m] {
          GoneForGood(t, policy, s1, resting, m);
        } else {
          OthersRemain(resting, m);
          MatchLeaves(t, policy, s1, o);
          SameProspect(resting, m, t, policy, s.left, o);
        }
      } else {
        DoneAlready(t, s1);
        MatchEnds(t, policy, s1);
        if s1.rep.stpHalted || o != resting[m] {
          NotReached(resting, m, t, policy, s.left, o);
        }
        if !s1.rep.stpHalted {
          QtyAfterLastFill(resting, m, s.left, o);
        }
      }
    }
  }

  lemma SameHalt(resting: seq<Order>, m: nat, t: Taker, policy: SelfTradePolicy, left: nat)
    requires DistinctIds(resting) && m < |resting| && resting[m].side != t.side
    requires forall x :: x in resting && x.side != t.side && x != resting[m] ==> Leads(resting[m], x)
    requires Own(t, policy, resting[m]) ==> policy.CancelResting?
    requires !Own(t, policy, resting[m]) ==> resting[m].qty <= left
    ensures var left' := if Own(t, policy, resting[m]) then left else left - resting[m].qty;
            Halted(resting, t, policy, left) <==> Halted(RemoveAt(resting, m), t, policy, left')
  {
    OthersRemain(resting, m);
    forall o { AheadWithout(resting, m, t, policy, o); }
    hide Ahead, RemoveAt;
  }

  lemma NoHalt(resting: seq<Order>, m: nat, t: Taker, policy: SelfTradePolicy, left: nat)
    requires m < |resting| && !Own(t, policy, resting[m]) && left <= resting[m].qty
    requires forall x :: x in resting && x.side != t.side && x != resting[m] ==> Leads(resting[m], x)
    ensures !Halted(resting, t, policy, left)
  {
    forall o { AheadWithout(resting, m, t, policy, o); }
    hide Ahead, RemoveAt;
  }

  lemma DoneNoHalt(t: Taker, policy: SelfTradePolicy, s: Matching)
    requires WellFormed(s.book) && Done(t, s) && !s.rep.stpHalted
    ensures !Halted(s.book.resting, t, policy, s.left)
  {
    hide Done;
    if s.left > 0 {
      DoneReachesNone(t, s);
    }
  }

  // A match is halted exactly when the closed form says.
  lemma {:induction false} MatchHalts(t: Taker, policy: SelfTradePolicy, s: Matching)
    requires WellFormed(s.book) && !s.rep.stpHalted
    ensures Match(t, policy, s).rep.stpHalted <==> Halted(s.book.resting, t, policy, s.left)
    decreases |s.book.resting|, s.left
  {
    hide Match, Step, WellFormed, DistinctIds, Done, NextMaker, RemoveAt, Leads, Ahead, Find;
    var resting := s.book.resting;
    WellFormedIds(s.book);
    if Done(t, s) {
      MatchEnds(t, policy, s);
      DoneNoHalt(t, policy, s);
    } else {
      var m := FirstLeads(t, s);
      var s1 := Step(t, policy, s);
      StepIs(t, policy, s, m);
      StepKeeps(t, policy, s);
      MatchOnce(t, policy, s);
      NoneAhead(resting, t, policy, resting[m]);
      if s1.rep.stpHalted {
        DoneAlready(t, s1);
        MatchEnds(t, policy, s1);
        assert resting[m] in resting;
      } else if s1.book.resting == RemoveAt(resting, m) {
        MatchHalts(t, policy, s1);
        SameHalt(resting, m, t, policy, s.left);
      } else {
        DoneAlready(t, s1);
        MatchEnds(t, policy, s1);
        NoHalt(resting, m, t, policy, s.left);
      }
    }
  }

  // Whole submissions ------------------------------------------------------------------------

  lemma SubmitMatches(b: Book, policy: SelfTradePolicy, t: Taker, qty: Quantity)
    requires qty > 0 && Find(b.resting, t.id).None?
    ensures Submit(b, policy, t, qty) == Rest(t, Match(t, policy, Matching(b, qty, EMPTY_REPORT)))
  {
  }

  // Every order resting before trades with an accepted taker, and keeps, what the closed form
  // says: what is left of the taker after the orders ahead of it, if the taker reaches it.
  lemma SubmitAllocates(b: Book, policy: SelfTradePolicy, t: Taker, qty: Quantity, i: nat)
    requires WellFormed(b) && i < |b.resting| && qty > 0 && Find(b.resting, t.id).None?
    ensures var b', o := Submit(b, policy, t, qty).0, b.resting[i];
            && QtyOf(b'.resting, o.id) == Remaining(b.resting, t, policy, qty, o)
            && TradedWith(b'.log, o.id) == TradedWith(b.log, o.id) + Allotted(b.resting, t, policy, qty, o)
  {
    var s := Matching(b, qty, EMPTY_REPORT);
    var o := b.resting[i];
    MatchLeaves(t, policy, s, o);
    SubmitAccounts(b, policy, t, qty, i);
    SubmitMatches(b, policy, t, qty);
    assert t.id != o.id;
    var s' := Match(t, policy, s);
    hide Match, WellFormed, Submit, TradedWith, Ahead, Blocked, Find;
    if t.limit.Some? && s'.left > 0 && !s'.rep.stpHalted {
      FindInLonger(s'.book.resting,
                   Order(t.id, t.owner, t.limit.value, s'.left, t.side, s'.book.nextArrival), o.id);
      QtyInLonger(s'.book.resting,
                  Order(t.id, t.owner, t.limit.value, s'.left, t.side, s'.book.nextArrival), o.id);
    }
  }

  lemma QtyInLonger(resting: seq<Order>, o: Order, id: OrderId)
    requires o.id != id
    ensures QtyOf(resting + [o], id) == QtyOf(resting, id)
  {
    FindInLonger(resting, o, id);
  }

  // An accepted taker is halted exactly when it comes to an order of its own owner under
  // CancelIncoming.
  lemma SubmitHalts(b: Book, policy: SelfTradePolicy, t: Taker, qty: Quantity)
    requires WellFormed(b) && qty > 0 && Find(b.resting, t.id).None?
    ensures Submit(b, policy, t, qty).1.stpHalted <==> Halted(b.resting, t, policy, qty)
  {
    SubmitMatches(b, policy, t, qty);
    hide Match, WellFormed, Submit, Halted, Find;
    MatchHalts(t, policy, Matching(b, qty, EMPTY_REPORT));
  }

  // The book left behind ------------------------------------------------------------------------

  // The first n orders with what is left of each, in their order, without those used up.
  ghost function Remains(resting: seq<Order>, t: Taker, policy: SelfTradePolicy, qty: nat, n: nat): seq<Order>
    requires n <= |resting|
  {
    if n == 0 then []
    else
      var o := resting[n - 1];
      var left := Remaining(resting, t, policy, qty, o);
      Remains(resting, t, policy, qty, n - 1) + if left == 0 then [] else [o.(qty := left)]
  }

  ghost predicate RemainsOf(resting: seq<Order>, t: Taker, policy: SelfTradePolicy, qty: nat, i: nat, x: Order)
    requires i < |resting|
  {
    var left := Remaining(resting, t, policy, qty, resting[i]);
    left > 0 && x == resting[i].(qty := left)
  }

  lemma {:induction false} RemainsMembers(resting: seq<Order>, t: Taker, policy: SelfTradePolicy, qty: nat, n: nat)
    requires n <= |resting| && ByArrival(resting)
    ensures forall x :: x in Remains(resting, t, policy, qty, n) <==>
                        exists i: nat :: i < n && RemainsOf(resting, t, policy, qty, i, x)
    ensures ByArrival(Remains(resting, t, policy, qty, n))
  {
    if n > 0 {
      hide Remaining;
      RemainsMembers(resting, t, policy, qty, n - 1);
      var before, all := Remains(resting, t, policy, qty, n - 1), Remains(resting, t, policy, qty, n);
      forall x ensures x in all <==> exists i: nat :: i < n && RemainsOf(resting, t, policy, qty, i, x) {
        assert x in all <==> x in before || RemainsOf(resting, t, policy, qty, n - 1, x);
      }
      forall j | 0 <= j < |before| ensures before[j].arrival < resting[n - 1].arrival {
        assert before[j] in before;
      }
    }
  }

  lemma {:induction false} SameByArrival(a: seq<Order>, b: seq<Order>)
    requires ByArrival(a) && ByArrival(b) && forall x :: x in a <==> x in b
    ensures a == b
  {
    if a == [] {
      Queues.HeadIsMember(b);
    } else {
      var n, k := |a| - 1, |b| - 1;
      assert a[n] in b;
      assert b[k] in a;
      assert a[n] == b[k];
      forall x ensures x in a[..n] <==> x in b[..k] {
        assert x in a <==> x in b;
      }
      SameByArrival(a[..n], b[..k]);
    }
  }

  // After a match the book holds what remains of each order, in the order of before.
  lemma MatchBook(t: Taker, policy: SelfTradePolicy, s: Matching)
    requires WellFormed(s.book) && !s.rep.stpHalted
    ensures Match(t, policy, s).book.resting == Remains(s.book.resting, t, policy, s.left, |s.book.resting|)
  {
    hide Match, Remains, Remaining;
    var before, after := s.book.resting, Match(t, policy, s).book.resting;
    MatchKeeps(t, policy, s);
    RemainsMembers(before, t, policy, s.left, |before|);
    forall x ensures x in after <==> exists i: nat :: i < |before| && RemainsOf(before, t, policy, s.left, i, x) {
      if x in after {
        var i := StillThere(t, policy, s, x);
      }
      if i: nat :| i < |before| && RemainsOf(before, t, policy, s.left, i, x) {
        IsThere(t, policy, s, i);
      }
    }
    hide WellFormed, Shrunk, RemainsOf;
    SameByArrival(after, Remains(before, t, policy, s.left, |before|)) by {
      assert WellFormed(Match(t, policy, s).book);
      ArrivalsRise(Match(t, policy, s).book);
    }
  }

  lemma StillThere(t: Taker, policy: SelfTradePolicy, s: Matching, x: Order) returns (i: nat)
    requires WellFormed(s.book) && !s.rep.stpHalted && x in Match(t, policy, s).book.resting
    ensures i < |s.book.resting| && RemainsOf(s.book.resting, t, policy, s.left, i, x)
  {
    hide Match, Remaining;
    var before, after := s.book.resting, Match(t, policy, s).book.resting;
    MatchKeeps(t, policy, s);
    var j :| 0 <= j < |after| && after[j] == x;
    assert From(before, after[j]);
    i := Find(before, x.id).value;
    MatchLeaves(t, policy, s, before[i]);
    QtyIn(after, x);
  }

  lemma IsThere(t: Taker, policy: SelfTradePolicy, s: Matching, i: nat)
    requires WellFormed(s.book) && !s.rep.stpHalted && i < |s.book.resting|
    ensures var left := Remaining(s.book.resting, t, policy, s.left, s.book.resting[i]);
            left > 0 ==> s.book.resting[i].(qty := left) in Match(t, policy, s).book.resting
  {
    hide Match, Remaining;
    var before, after := s.book.resting, Match(t, policy, s).book.resting;
    MatchKeeps(t, policy, s);
    MatchLeaves(t, policy, s, before[i]);
    FindOwn(before, i);
    var j := Find(after, before[i].id);
    if j.Some? {
      assert From(before, after[j.value]);
    }
  }

  // After an accepted submission the book is that, and then what the taker rests.
  lemma SubmitBook(b: Book, policy: SelfTradePolicy, t: Taker, qty: Quantity)
    requires WellFormed(b) && qty > 0 && Find(b.resting, t.id).None?
    ensures var (b', rep) := Submit(b, policy, t, qty);
            b'.resting == Remains(b.resting, t, policy, qty, |b.resting|) +
                          if t.limit.None? || rep.remaining == 0 || rep.stpHalted then []
                          else [Order(t.id, t.owner, t.limit.value, rep.remaining, t.side, b.nextArrival)]
  {
    var s := Matching(b, qty, EMPTY_REPORT);
    SubmitMatches(b, policy, t, qty);
    MatchBook(t, policy, s);
    MatchKeeps(t, policy, s);
    hide Match, WellFormed, Submit, Remains, Find;
  }

  // The trades printed -----------------------------------------------------------------------

  lemma {:induction false} NoTradeWith(log: seq<Trade>, from: nat, id: OrderId)
    requires from <= |log| && forall j :: from <= j < |log| ==> log[j].makerId != id
    ensures TradedWith(log, id) == TradedWith(log[..from], id)
    decreases |log|
  {
    if from == |log| {
      assert log[..from] == log;
    } else {
      assert log[..|log| - 1][..from] == log[..from];
      NoTradeWith(log[..|log| - 1], from, id);
    }
  }

  lemma {:induction false} OneTradeWith(log: seq<Trade>, from: nat, k: nat, id: OrderId)
    requires from <= k < |log| && log[k].makerId == id
    requires forall j :: from <= j < |log| && j != k ==> log[j].makerId != id
    ensures TradedWith(log, id) == TradedWith(log[..from], id) + log[k].qty
    decreases |log|
  {
    var init := log[..|log| - 1];
    assert init[..from] == log[..from];
    if k == |log| - 1 {
      NoTradeWith(init, from, id);
    } else {
      OneTradeWith(init, from, k, id);
    }
  }

  lemma {:induction false} TradeFound(log: seq<Trade>, from: nat, id: OrderId) returns (k: nat)
    requires from <= |log| && TradedWith(log, id) != TradedWith(log[..from], id)
    ensures from <= k < |log| && log[k].makerId == id
    decreases |log|
  {
    assert log[..|log|] == log;
    k := |log| - 1;
    if log[k].makerId != id {
      assert log[..k][..from] == log[..from];
      k := TradeFound(log[..k], from, id);
    }
  }

  // Each trade of a submission in full: one for each order with something allotted, at that
  // order's price and for all that it is allotted.
  lemma SubmitTrades(b: Book, policy: SelfTradePolicy, t: Taker, qty: Quantity, k: nat)
    requires WellFormed(b)
    requires |b.log| <= k < |Submit(b, policy, t, qty).0.log|
    ensures var trade := Submit(b, policy, t, qty).0.log[k];
            var m := Find(b.resting, trade.makerId);
            && m.Some?
            && var maker := b.resting[m.value];
               var share := Allotted(b.resting, t, policy, qty, maker);
               share > 0 && trade == Trade(k + 1, maker.id, t.id, maker.price, share, t.side)
  {
    hide Submit, Reaches, Accounted, Allotted, FirstOnSide, Find;
    var log := Submit(b, policy, t, qty).0.log;
    SubmitLog(b, policy, t, qty);
    PrintsMeansAccepted(b, policy, t, qty);
    var at := SubmitJustified(b, policy, t, qty, k);
    SubmitNumbers(b, policy, t, qty, k);
    var m := Find(b.resting, log[k].makerId);
    MakerFrom(b.resting, at.book.resting, log[k].makerId);
    forall j | |b.log| <= j < |log| && j != k ensures log[j].makerId != log[k].makerId {
      SubmitInOrder(b, policy, t, qty, if j < k then j else k, if j < k then k else j);
      StrictlyOrdered(b.resting, log[if j < k then j else k], log[if j < k then k else j]);
    }
    OneTradeWith(log, |b.log|, k, log[k].makerId);
    assert log[..|b.log|] == b.log;
    SubmitAllocates(b, policy, t, qty, m.value);
  }

  lemma PrintsMeansAccepted(b: Book, policy: SelfTradePolicy, t: Taker, qty: Quantity)
    requires |Submit(b, policy, t, qty).0.log| > |b.log|
    ensures qty > 0 && Find(b.resting, t.id).None?
  {
  }

  lemma SubmitNumbers(b: Book, policy: SelfTradePolicy, t: Taker, qty: Quantity, k: nat)
    requires WellFormed(b) && |b.log| <= k < |Submit(b, policy, t, qty).0.log|
    ensures Submit(b, policy, t, qty).0.log[k].sequence == k + 1
  {
    hide Submit;
    SubmitKeeps(b, policy, t, qty);
  }

  lemma MakerFrom(before: seq<Order>, after: seq<Order>, id: OrderId)
    requires Shrunk(before, after) && Find(after, id).Some?
    ensures Find(before, id).Some?
    ensures var x, o := after[Find(after, id).value], before[Find(before, id).value];
            o.id == id && x == o.(qty := x.qty)
  {
    assert From(before, after[Find(after, id).value]);
  }

  lemma StrictlyOrdered(resting: seq<Order>, a: Trade, b: Trade)
    requires MakersInOrder(resting, a, b)
    ensures a.makerId != b.makerId
  {
  }

  // And no such order is passed over.
  lemma SubmitTradesAll(b: Book, policy: SelfTradePolicy, t: Taker, qty: Quantity, i: nat) returns (k: nat)
    requires WellFormed(b) && i < |b.resting| && qty > 0 && Find(b.resting, t.id).None?
    requires Allotted(b.resting, t, policy, qty, b.resting[i]) > 0
    ensures |b.log| <= k < |Submit(b, policy, t, qty).0.log|
    ensures Submit(b, policy, t, qty).0.log[k].makerId == b.resting[i].id
  {
    hide Submit, Allotted;
    var log := Submit(b, policy, t, qty).0.log;
    SubmitLog(b, policy, t, qty);
    SubmitAllocates(b, policy, t, qty, i);
    assert log[..|b.log|] == b.log;
    k := TradeFound(log, |b.log|, b.resting[i].id);
  }
}
