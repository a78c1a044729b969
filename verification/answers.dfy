// What a caller is told and what it finds afterwards, in the fields of orders, trades and
// reports alone.
module Answers {
  import opened Types
  import opened Market
  import opened MarketProperties
  import opened Conservation
  import opened Priority

  ghost predicate Live(b: Book, id: OrderId) {
    exists i :: 0 <= i < |b.resting| && b.resting[i].id == id
  }

  lemma LiveIsFound(b: Book, id: OrderId)
    requires WellFormed(b)
    ensures Find(b.resting, id).Some? <==> Live(b, id)
    ensures forall o :: o in b.resting && o.id == id ==>
              Find(b.resting, id).Some? && o == b.resting[Find(b.resting, id).value]
  {
    forall o | o in b.resting && o.id == id
      ensures Find(b.resting, id).Some? && o == b.resting[Find(b.resting, id).value]
    {
      var j :| 0 <= j < |b.resting| && b.resting[j] == o;
      FindOwn(b.resting, j);
    }
  }

  // Submitting -----------------------------------------------------------------------------

  // An order is accepted if it has a quantity and an id that is not live. A refused one
  // changes nothing and is told its whole quantity.
  lemma SubmitAccepts(b: Book, policy: SelfTradePolicy, t: Taker, qty: Quantity)
    ensures var (b', rep) := Submit(b, policy, t, qty);
            && (rep.accepted <==> qty > 0 && !Live(b, t.id))
            && (!rep.accepted ==> b' == b && rep == ExecReport(0, 0, 0, qty, 0, false, false, false))
  {
    MatchFlags(t, policy, Matching(b, qty, EMPTY_REPORT));
    hide Match;
  }

  // A limit order rests exactly when it has something left and was not halted: then last of
  // all, with what is left. No other order is added.
  lemma SubmitRests(b: Book, policy: SelfTradePolicy, t: Taker, qty: Quantity)
    requires WellFormed(b)
    ensures var (b', rep) := Submit(b, policy, t, qty);
            && (rep.rested <==> rep.accepted && t.limit.Some? && rep.remaining > 0 && !rep.stpHalted)
            && (rep.rested ==>
                  && b'.resting != []
                  && b'.resting[|b'.resting| - 1]
                     == Order(t.id, t.owner, t.limit.value, rep.remaining, t.side, b.nextArrival)
                  && Shrunk(b.resting, b'.resting[..|b'.resting| - 1])
                  && b'.nextArrival == b.nextArrival + 1)
            && (!rep.rested ==> Shrunk(b.resting, b'.resting) && b'.nextArrival == b.nextArrival)
  {
    var s := Matching(b, qty, EMPTY_REPORT);
    MatchFlags(t, policy, s);
    MatchKeeps(t, policy, s);
    ShrunkReflexive(b.resting);
    hide Match, WellFormed, Shrunk, Find;
  }

  // A taker never pays more, or gets less, than its limit.
  lemma TradesWithinLimit(b: Book, policy: SelfTradePolicy, t: Taker, qty: Quantity, k: nat)
    requires WellFormed(b) && t.limit.Some?
    requires |b.log| <= k < |Submit(b, policy, t, qty).0.log|
    ensures var price := Submit(b, policy, t, qty).0.log[k].price;
            if t.side.Buy? then price <= t.limit.value else price >= t.limit.value
  {
    hide Submit, WellFormed, Reaches, Accounted;
    var at := SubmitJustified(b, policy, t, qty, k);
  }

  // And it trades on as long as it may: with quantity left and not halted, it has left only
  // orders beyond its limit on the far side, and none at all if it has no limit.
  lemma StopsAtLimit(b: Book, policy: SelfTradePolicy, t: Taker, qty: Quantity)
    requires WellFormed(b)
    ensures var (b', rep) := Submit(b, policy, t, qty);
            rep.accepted && rep.remaining > 0 && !rep.stpHalted ==>
              forall o :: o in b'.resting && o.side != t.side ==>
                t.limit.Some? && if t.side.Buy? then o.price > t.limit.value else o.price < t.limit.value
  {
    SubmitAccepts(b, policy, t, qty);
    MatchStops(t, policy, Matching(b, qty, EMPTY_REPORT));
    hide Match, WellFormed, Done;
  }

  // Self-trade prevention --------------------------------------------------------------------

  // Unless the policy allows it, no owner trades with itself.
  lemma NeverWithOwn(b: Book, policy: SelfTradePolicy, t: Taker, qty: Quantity, k: nat)
    requires WellFormed(b) && policy != Allow && t.owner != ANONYMOUS
    requires |b.log| <= k < |Submit(b, policy, t, qty).0.log|
    ensures var maker := Find(b.resting, Submit(b, policy, t, qty).0.log[k].makerId);
            maker.Some? && b.resting[maker.value].owner != t.owner
  {
    hide Submit, WellFormed, Reaches, Accounted, Find;
    var at := SubmitJustified(b, policy, t, qty, k);
    ghost var id := Submit(b, policy, t, qty).0.log[k].makerId;
    FoundFrom(b.resting, at.book.resting, id);
  }

  lemma FoundFrom(before: seq<Order>, after: seq<Order>, id: OrderId)
    requires Shrunk(before, after) && Find(after, id).Some?
    ensures Find(before, id).Some?
    ensures before[Find(before, id).value].owner == after[Find(after, id).value].owner
  {
    assert From(before, after[Find(after, id).value]);
  }

  // An order that loses more than it trades is one of the taker's own on the far side, under
  // CancelResting; it loses everything, and trades nothing.
  lemma OnlyOwnIsCancelled(b: Book, policy: SelfTradePolicy, t: Taker, qty: Quantity, i: nat)
    requires WellFormed(b) && i < |b.resting|
    ensures var b', o := Submit(b, policy, t, qty).0, b.resting[i];
            QtyOf(b'.resting, o.id) + TradedWith(b'.log, o.id) != o.qty + TradedWith(b.log, o.id) ==>
              && policy.CancelResting? && t.owner != ANONYMOUS && o.owner == t.owner && o.side != t.side
              && QtyOf(b'.resting, o.id) == 0 && TradedWith(b'.log, o.id) == TradedWith(b.log, o.id)
  {
    hide Submit, WellFormed, TradedWith, QtyOf;
    SubmitAccounts(b, policy, t, qty, i);
  }

  // The order the taker would hit next is its own, and its limit reaches it.
  ghost predicate FacesOwn(t: Taker, resting: seq<Order>) {
    exists m: nat ::
      && m < |resting| && FirstOnSide(resting, Opposite(t.side), m)
      && t.owner != ANONYMOUS && resting[m].owner == t.owner
      && (t.limit.Some? ==> if t.side.Buy? then resting[m].price <= t.limit.value
                            else resting[m].price >= t.limit.value)
  }

  lemma {:induction false} MatchHaltsAtOwn(t: Taker, policy: SelfTradePolicy, s: Matching)
    requires WellFormed(s.book) && !s.rep.stpHalted
    ensures var s' := Match(t, policy, s);
            s'.rep.stpHalted ==> policy.CancelIncoming? && s'.left > 0 && FacesOwn(t, s'.book.resting)
    decreases |s.book.resting|, s.left
  {
    hide Match, Step, WellFormed, Done, Shrunk, FacesOwn;
    if Done(t, s) {
      MatchEnds(t, policy, s);
    } else {
      var s1 := Step(t, policy, s);
      MatchOnce(t, policy, s);
      StepKeeps(t, policy, s);
      StepHaltsAtOwn(t, policy, s);
      if s1.rep.stpHalted {
        HaltedIsOver(t, s1);
        MatchEnds(t, policy, s1);
      } else {
        MatchHaltsAtOwn(t, policy, s1);
      }
    }
  }

  lemma HaltedIsOver(t: Taker, s: Matching)
    requires s.rep.stpHalted
    ensures Done(t, s)
  {
  }

  lemma StepHaltsAtOwn(t: Taker, policy: SelfTradePolicy, s: Matching)
    requires WellFormed(s.book) && !Done(t, s)
    ensures var s' := Step(t, policy, s);
            if s'.rep.stpHalted then policy.CancelIncoming? && s'.left > 0 && FacesOwn(t, s'.book.resting)
            else |s'.book.resting| < |s.book.resting| || (|s'.book.resting| == |s.book.resting| && s'.left < s.left)
  {
    hide WellFormed;
    var m := NextMaker(s.book.resting, Opposite(t.side)).value;
    ArrivalsRise(s.book);
    assert FirstOnSide(s.book.resting, Opposite(t.side), m);
  }

  // A taker is halted exactly when, under CancelIncoming, it has quantity left and the first
  // order left on the far side is its own and within its limit.
  lemma HaltsAtOwn(b: Book, policy: SelfTradePolicy, t: Taker, qty: Quantity)
    requires WellFormed(b)
    ensures var (b', rep) := Submit(b, policy, t, qty);
            rep.stpHalted <==>
              rep.accepted && policy.CancelIncoming? && rep.remaining > 0 && FacesOwn(t, b'.resting)
  {
    SubmitAccepts(b, policy, t, qty);
    StopsAtLimit(b, policy, t, qty);
    MatchHaltsAtOwn(t, policy, Matching(b, qty, EMPTY_REPORT));
    hide Match, WellFormed;
  }

  // Cancelling and modifying -------------------------------------------------------------------

  // A cancel answers whether the id was live, takes exactly that order out, and leaves
  // everything else as it was.
  lemma CancelAnswers(b: Book, id: OrderId)
    requires WellFormed(b)
    ensures var (b', live) := CancelOrder(b, id);
            && (live <==> Live(b, id))
            && (forall o :: o in b'.resting <==> o in b.resting && o.id != id)
            && ByArrival(b'.resting)
            && b'.log == b.log && b'.nextArrival == b.nextArrival && b'.nextSeq == b.nextSeq
  {
    CancelKeeps(b, id);
    LiveIsFound(b, id);
    WellFormedIds(b);
    hide WellFormed, Find, RemoveAt, Shrunk, Live, DistinctIds;
    if Find(b.resting, id).Some? {
      OthersRemain(b.resting, Find(b.resting, id).value);
    } else {
      NotLive(b, id);
    }
    ArrivalsRise(CancelOrder(b, id).0);
  }

  lemma NotLive(b: Book, id: OrderId)
    requires !Live(b, id)
    ensures forall o :: o in b.resting ==> o.id != id
  {
  }

  // A modify is accepted exactly when the id is live, whatever the quantity: to zero it is a
  // cancel, else the order is submitted again with its id, owner and side, at the new price.
  lemma ModifyAnswers(b: Book, policy: SelfTradePolicy, id: OrderId, price: Price, qty: Quantity)
    requires WellFormed(b)
    ensures var (b', rep) := ModifyOrder(b, policy, id, price, qty);
            && (rep.accepted <==> Live(b, id))
            && (!Live(b, id) ==> b' == b && rep == ExecReport(0, 0, 0, qty, 0, false, false, false))
            && (Live(b, id) && qty == 0 ==>
                  b' == CancelOrder(b, id).0 && rep == ExecReport(0, 0, 0, 0, 0, false, true, false))
            && (qty > 0 ==> forall o :: o in b.resting && o.id == id ==>
                  (b', rep) == Submit(CancelOrder(b, id).0, policy, Taker(id, o.owner, o.side, Some(price)), qty))
  {
    hide Submit, CancelOrder, WellFormed, Find, Shrunk, Live;
    LiveIsFound(b, id);
    var m := Find(b.resting, id);
    if m.Some? && qty > 0 {
      var was := b.resting[m.value];
      CancelKeeps(b, id);
      LiveIsFound(CancelOrder(b, id).0, id);
      SubmitAccepts(CancelOrder(b, id).0, policy, Taker(id, was.owner, was.side, Some(price)), qty);
    } else if m.None? {
      NotLive(b, id);
    }
  }

  // What the modified order leaves in the book is new: it has lost its place.
  lemma ModifiedRestsLast(b: Book, policy: SelfTradePolicy, id: OrderId, price: Price, qty: Quantity, o: Order)
    requires WellFormed(b) && o in b.resting && o.id == id
    ensures var (b', rep) := ModifyOrder(b, policy, id, price, qty);
            && (rep.rested <==> rep.remaining > 0 && !rep.stpHalted)
            && (rep.rested ==>
                  && b'.resting != []
                  && b'.resting[|b'.resting| - 1] == Order(id, o.owner, price, rep.remaining, o.side, b.nextArrival))
  {
    ModifyAnswers(b, policy, id, price, qty);
    CancelKeeps(b, id);
    CancelAnswers(b, id);
    SubmitRests(CancelOrder(b, id).0, policy, Taker(id, o.owner, o.side, Some(price)), qty);
    hide Submit, CancelOrder, ModifyOrder, WellFormed, Shrunk;
  }

  // Every operation ------------------------------------------------------------------------------

  // An operation that adds needs a quantity and a free id; one that changes an order needs it
  // to be live. One that is not accepted changes nothing.
  lemma ApplyAccepts(b: Book, policy: SelfTradePolicy, op: Op)
    requires WellFormed(b)
    ensures var (b', rep) := Apply(b, policy, op);
            && (rep.accepted <==> if op.AddLimit? || op.AddMarket? then op.qty > 0 && !Live(b, op.id)
                                  else Live(b, op.id))
            && (!rep.accepted ==> b' == b)
  {
    match op
    case AddLimit(id, owner, side, price, qty) => SubmitAccepts(b, policy, Taker(id, owner, side, Some(price)), qty);
    case AddMarket(id, owner, side, qty) => SubmitAccepts(b, policy, Taker(id, owner, side, None), qty);
    case Cancel(id) => CancelAnswers(b, id);
    case Modify(id, price, qty) => ModifyAnswers(b, policy, id, price, qty);
  }
}
