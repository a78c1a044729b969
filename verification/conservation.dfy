// Quantity is neither made nor lost, and no counter outgrows its width.
module Conservation {
  import opened Types
  import opened Market
  import opened Queues
  import opened MarketProperties

  function Volume(resting: seq<Order>, side: Side): nat {
    if resting == [] then 0
    else
      var n := |resting| - 1;
      Volume(resting[..n], side) + if resting[n].side == side then resting[n].qty else 0
  }

  function Traded(log: seq<Trade>): nat {
    if log == [] then 0 else Traded(log[..|log| - 1]) + log[|log| - 1].qty
  }

  lemma {:induction false} VolumeConcat(a: seq<Order>, b: seq<Order>, side: Side)
    ensures Volume(a + b, side) == Volume(a, side) + Volume(b, side)
    decreases |b|
  {
    if b == [] {
      assert a + b == a;
    } else {
      assert (a + b)[..|a + b| - 1] == a + b[..|b| - 1];
      VolumeConcat(a, b[..|b| - 1], side);
    }
  }

  lemma VolumeOne(o: Order, side: Side)
    ensures Volume([o], side) == if o.side == side then o.qty else 0
  {
    assert [o][..0] == [];
  }

  lemma VolumeSplit(resting: seq<Order>, m: nat, o: Order, side: Side)
    requires m < |resting|
    ensures Volume(resting[m := o], side) ==
            Volume(RemoveAt(resting, m), side) + if o.side == side then o.qty else 0
  {
    hide Volume;
    var a, b := resting[..m], resting[m + 1..];
    assert resting[m := o] == a + ([o] + b);
    VolumeConcat(a, [o] + b, side);
    VolumeConcat([o], b, side);
    VolumeOne(o, side);
    VolumeConcat(a, b, side);
  }

  lemma VolumeAt(resting: seq<Order>, m: nat, side: Side)
    requires m < |resting|
    ensures Volume(resting, side) ==
            Volume(RemoveAt(resting, m), side) + if resting[m].side == side then resting[m].qty else 0
  {
    assert resting[m := resting[m]] == resting;
    VolumeSplit(resting, m, resting[m], side);
  }

  lemma {:induction false} VolumeBound(resting: seq<Order>, side: Side)
    ensures Volume(resting, side) <= |resting| * 0xFFFF_FFFF
  {
    if resting != [] {
      VolumeBound(resting[..|resting| - 1], side);
    }
  }

  lemma {:induction false} TradedConcat(a: seq<Trade>, b: seq<Trade>)
    ensures Traded(a + b) == Traded(a) + Traded(b)
    decreases |b|
  {
    if b == [] {
      assert a + b == a;
    } else {
      assert (a + b)[..|a + b| - 1] == a + b[..|b| - 1];
      TradedConcat(a, b[..|b| - 1]);
    }
  }

  lemma TradedOne(a: seq<Trade>, trade: Trade)
    ensures Traded(a + [trade]) == Traded(a) + trade.qty
  {
    assert (a + [trade])[..|a|] == a;
  }

  // What matching moves between two of its states.
  ghost predicate Balanced(far: Side, s: Matching, s': Matching) {
    && s.left + s.rep.filled == s'.left + s'.rep.filled
    && Volume(s.book.resting, far) + s.rep.filled + s.rep.stpCancelled
       == Volume(s'.book.resting, far) + s'.rep.filled + s'.rep.stpCancelled
    && Volume(s.book.resting, Opposite(far)) == Volume(s'.book.resting, Opposite(far))
    && Traded(s.book.log) + s'.rep.filled == Traded(s'.book.log) + s.rep.filled
    && s.rep.filled <= s'.rep.filled && s.rep.stpCancelled <= s'.rep.stpCancelled
  }

  lemma DropConserves(s: Matching, m: nat)
    requires m < |s.book.resting|
    ensures Balanced(s.book.resting[m].side, s, DropMaker(s, m))
  {
    hide Volume, Traded;
    VolumeAt(s.book.resting, m, Buy);
    VolumeAt(s.book.resting, m, Sell);
  }

  lemma FillVolume(resting: seq<Order>, m: nat, traded: nat, side: Side)
    requires m < |resting| && traded <= resting[m].qty
    ensures Volume(resting[m := AfterFill(resting[m], traded)], side) ==
            Volume(resting, side) - if resting[m].side == side then traded else 0
  {
    hide Volume;
    VolumeAt(resting, m, side);
    VolumeSplit(resting, m, AfterFill(resting[m], traded), side);
  }

  lemma FillConserves(t: Taker, s: Matching, m: nat)
    requires m < |s.book.resting|
    ensures Balanced(s.book.resting[m].side, s, Fill(t, s, m))
  {
    hide Volume, Traded;
    var resting := s.book.resting;
    var traded := Min(s.left, resting[m].qty);
    TradedOne(s.book.log, TradeFor(t, s, m));
    if traded == resting[m].qty {
      VolumeAt(resting, m, Buy);
      VolumeAt(resting, m, Sell);
    } else {
      FillVolume(resting, m, traded, Buy);
      FillVolume(resting, m, traded, Sell);
    }
  }

  lemma StepConserves(t: Taker, policy: SelfTradePolicy, s: Matching)
    requires !Done(t, s)
    ensures Balanced(Opposite(t.side), s, Step(t, policy, s))
  {
    var m := NextMaker(s.book.resting, Opposite(t.side)).value;
    hide Fill, DropMaker;
    FillConserves(t, s, m);
    DropConserves(s, m);
  }

  // Far-side volume falls by exactly what was filled and what self-trade prevention
  // cancelled; near-side volume does not change; the log grows by what was filled.
  lemma {:induction false} MatchConserves(t: Taker, policy: SelfTradePolicy, s: Matching)
    ensures Balanced(Opposite(t.side), s, Match(t, policy, s))
    decreases |s.book.resting|, s.left, !s.rep.stpHalted
  {
    if !Done(t, s) {
      StepConserves(t, policy, s);
      MatchOnce(t, policy, s);
      MatchConserves(t, policy, Step(t, policy, s));
      hide *;
      BalancedTransitive(Opposite(t.side), s, Step(t, policy, s), Match(t, policy, s));
    }
  }

  lemma BalancedTransitive(far: Side, a: Matching, b: Matching, c: Matching)
    requires Balanced(far, a, b) && Balanced(far, b, c)
    ensures Balanced(far, a, c)
  {
    hide Volume, Traded;
  }

  // Each order, on its own side, adds what it rests and takes what it fills.
  lemma SubmitConserves(b: Book, policy: SelfTradePolicy, t: Taker, qty: Quantity)
    ensures var (b', rep) := Submit(b, policy, t, qty);
            var far := Opposite(t.side);
            && (!rep.accepted ==> b' == b && rep.filled == rep.stpCancelled == 0 && !rep.rested)
            && rep.filled + rep.remaining == qty
            && Volume(b.resting, far) == Volume(b'.resting, far) + rep.filled + rep.stpCancelled
            && Volume(b'.resting, t.side) == Volume(b.resting, t.side) + (if rep.rested then rep.remaining else 0)
            && Traded(b'.log) == Traded(b.log) + rep.filled
  {
    if qty > 0 && Find(b.resting, t.id).None? {
      var s := Matching(b, qty, EMPTY_REPORT);
      MatchConserves(t, policy, s);
      MatchFlags(t, policy, s);
      var s' := Match(t, policy, s);
      hide Match, Volume, Traded;
      if t.limit.Some? && s'.left > 0 && !s'.rep.stpHalted {
        var o := Order(t.id, t.owner, t.limit.value, s'.left, t.side, s'.book.nextArrival);
        VolumeConcat(s'.book.resting, [o], Buy);
        VolumeConcat(s'.book.resting, [o], Sell);
        VolumeOne(o, Buy);
        VolumeOne(o, Sell);
      }
    }
  }

  lemma {:induction false} MatchFlags(t: Taker, policy: SelfTradePolicy, s: Matching)
    ensures Match(t, policy, s).rep.accepted == s.rep.accepted && Match(t, policy, s).rep.rested == s.rep.rested
    decreases |s.book.resting|, s.left, !s.rep.stpHalted
  {
    if !Done(t, s) {
      MatchFlags(t, policy, Step(t, policy, s));
    }
  }

  // The ledger of a run: what was accepted, and every way quantity leaves besides trading.
  datatype Ledger = Ledger(accepted: nat, cancelled: nat, stpCancelled: nat, dropped: nat)

  function Enter(l: Ledger, rep: ExecReport, qty: Quantity): Ledger {
    if !rep.accepted then l
    else l.(accepted := l.accepted + qty,
            stpCancelled := l.stpCancelled + rep.stpCancelled,
            dropped := l.dropped + if rep.rested then 0 else rep.remaining)
  }

  function Withdraw(l: Ledger, b: Book, id: OrderId): Ledger {
    var m := Find(b.resting, id);
    if m.None? then l else l.(cancelled := l.cancelled + b.resting[m.value].qty)
  }

  // Book one operation, from its report and the book before it.
  function Account(l: Ledger, b: Book, rep: ExecReport, op: Op): Ledger {
    match op
    case AddLimit(_, _, _, _, qty) => Enter(l, rep, qty)
    case AddMarket(_, _, _, qty) => Enter(l, rep, qty)
    case Cancel(id) => Withdraw(l, b, id)
    case Modify(id, _, qty) => if Find(b.resting, id).None? then l else Enter(Withdraw(l, b, id), rep, qty)
  }

  function RunLedger(policy: SelfTradePolicy, ops: seq<Op>): Ledger {
    if ops == [] then Ledger(0, 0, 0, 0)
    else
      var n := |ops| - 1;
      var (b, _) := Run(policy, ops[..n]);
      Account(RunLedger(policy, ops[..n]), b, Apply(b, policy, ops[n]).1, ops[n])
  }

  ghost predicate Settles(l: Ledger, b: Book) {
    l.accepted == Volume(b.resting, Buy) + Volume(b.resting, Sell) + 2 * Traded(b.log)
                  + l.cancelled + l.stpCancelled + l.dropped
  }

  lemma SubmitSettles(l: Ledger, b: Book, policy: SelfTradePolicy, t: Taker, qty: Quantity)
    requires Settles(l, b)
    ensures Settles(Enter(l, Submit(b, policy, t, qty).1, qty), Submit(b, policy, t, qty).0)
  {
    hide Volume, Traded, Submit;
    SubmitConserves(b, policy, t, qty);
  }

  lemma CancelSettles(l: Ledger, b: Book, id: OrderId)
    requires Settles(l, b)
    ensures Settles(Withdraw(l, b, id), CancelOrder(b, id).0)
  {
    hide Volume, Traded;
    var m := Find(b.resting, id);
    if m.Some? {
      VolumeAt(b.resting, m.value, Buy);
      VolumeAt(b.resting, m.value, Sell);
    }
  }

  lemma ApplySettles(l: Ledger, b: Book, policy: SelfTradePolicy, op: Op)
    requires Settles(l, b)
    ensures Settles(Account(l, b, Apply(b, policy, op).1, op), Apply(b, policy, op).0)
  {
    hide Settles, Submit, CancelOrder, Withdraw;
    match op
    case AddLimit(id, owner, side, price, qty) => SubmitSettles(l, b, policy, Taker(id, owner, side, Some(price)), qty);
    case AddMarket(id, owner, side, qty) => SubmitSettles(l, b, policy, Taker(id, owner, side, None), qty);
    case Cancel(id) => CancelSettles(l, b, id);
    case Modify(id, price, qty) =>
      var m := Find(b.resting, id);
      if m.Some? {
        var was := b.resting[m.value];
        CancelSettles(l, b, id);
        var t := Taker(id, was.owner, was.side, Some(price));
        SubmitSettles(Withdraw(l, b, id), CancelOrder(b, id).0, policy, t, qty);
      }
  }

  // Over any run: accepted quantity is what rests, twice what traded, and what was
  // cancelled, stopped by self-trade prevention, or dropped.
  lemma {:induction false} RunConserves(policy: SelfTradePolicy, ops: seq<Op>)
    ensures Settles(RunLedger(policy, ops), Run(policy, ops).0)
  {
    if ops != [] {
      var n := |ops| - 1;
      RunConserves(policy, ops[..n]);
      hide Settles, Apply, Account;
      ApplySettles(RunLedger(policy, ops[..n]), Run(policy, ops[..n]).0, policy, ops[n]);
    }
  }

  // Counters ------------------------------------------------------------------------

  // What the counters of a report say about the log between two states of a taker.
  ghost predicate Counted(t: Taker, s: Matching, s': Matching) {
    && s.book.log <= s'.book.log
    && s'.rep.tradeCount - s.rep.tradeCount == |s'.book.log| - |s.book.log| == s'.book.nextSeq - s.book.nextSeq
    && s'.rep.tradeCount - s.rep.tradeCount <= s'.rep.filled - s.rep.filled
    && s'.rep.firstSeq == (if s.rep.tradeCount == 0 && |s'.book.log| > |s.book.log|
                           then s.book.nextSeq else s.rep.firstSeq)
    && forall k :: |s.book.log| <= k < |s'.book.log| ==> s'.book.log[k].takerId == t.id
  }

  lemma StepCounts(t: Taker, policy: SelfTradePolicy, s: Matching)
    requires WellFormed(s.book) && !Done(t, s)
    ensures Counted(t, s, Step(t, policy, s))
  {
    var m := NextMaker(s.book.resting, Opposite(t.side)).value;
    assert s.book.resting[m].qty > 0;
    hide WellFormed;
  }

  lemma CountedTransitive(t: Taker, a: Matching, b: Matching, c: Matching)
    requires Counted(t, a, b) && Counted(t, b, c)
    ensures Counted(t, a, c)
  {
    forall k | |a.book.log| <= k < |c.book.log| ensures c.book.log[k].takerId == t.id {
      assert k < |b.book.log| ==> c.book.log[k] == b.book.log[k];
    }
  }

  lemma {:induction false} MatchCounts(t: Taker, policy: SelfTradePolicy, s: Matching)
    requires WellFormed(s.book)
    ensures Counted(t, s, Match(t, policy, s))
    decreases |s.book.resting|, s.left, !s.rep.stpHalted
  {
    if !Done(t, s) {
      StepKeeps(t, policy, s);
      StepCounts(t, policy, s);
      MatchOnce(t, policy, s);
      MatchCounts(t, policy, Step(t, policy, s));
      hide *;
      CountedTransitive(t, s, Step(t, policy, s), Match(t, policy, s));
    }
  }

  // The log entries numbered [firstSeq, firstSeq + tradeCount) are exactly the fills of the
  // order the report belongs to, and firstSeq is 0 when there are none.
  lemma ReportNamesItsFills(b: Book, policy: SelfTradePolicy, t: Taker, qty: Quantity)
    requires WellFormed(b)
    ensures var (b', rep) := Submit(b, policy, t, qty);
            && b.log <= b'.log
            && |b'.log| == |b.log| + rep.tradeCount
            && rep.firstSeq == (if rep.tradeCount == 0 then 0 else |b.log| + 1)
            && forall k :: |b.log| <= k < |b'.log| ==>
                 b'.log[k].takerId == t.id && b'.log[k].sequence == k + 1
  {
    SubmitKeeps(b, policy, t, qty);
    if qty > 0 && Find(b.resting, t.id).None? {
      MatchCounts(t, policy, Matching(b, qty, EMPTY_REPORT));
    }
  }

  // On a book of at most 2^31 orders every counter fits the width the source gives it: the
  // 32-bit counters of a report, its 64-bit cancelled volume, and every level total.
  lemma CountersFit(b: Book, policy: SelfTradePolicy, t: Taker, qty: Quantity, price: Price)
    requires WellFormed(b) && |b.resting| <= MAX_ORDERS
    ensures var rep := Submit(b, policy, t, qty).1;
            && rep.tradeCount <= rep.filled <= qty < 0x1_0000_0000
            && rep.stpCancelled < 0x8000_0000_0000_0000
    ensures Total(Queue(b.resting, t.side, price)) < 0x8000_0000_0000_0000
  {
    SubmitConserves(b, policy, t, qty);
    VolumeBound(b.resting, Opposite(t.side));
    if qty > 0 && Find(b.resting, t.id).None? {
      MatchCounts(t, policy, Matching(b, qty, EMPTY_REPORT));
    }
    TotalBound(Queue(b.resting, t.side, price));
    QueueMembers(b.resting, t.side, price);
  }
}
