// The differential test: run the engine and the reference book on the same operations, and
// shrink a sequence on which they disagree.
module Harness {
  import opened Types
  import opened Bits
  import opened Market
  import opened MarketProperties
  import opened Snapshot
  import opened Reference
  import opened Ring
  import opened Engine

  // Everything observable about a run.
  datatype Observed = Observed(trades: seq<Trade>, reports: seq<ExecReport>, queue: seq<Row>)

  function Observe(policy: SelfTradePolicy, ops: seq<Op>): Observed {
    var (b, reports) := Run(policy, ops);
    Observed(b.log, reports, Rows(Views(Sort(b.resting))))
  }

  // How many trades the ring of a configuration holds.
  function RingCapacity(cfg: Config): nat {
    RoundUpFrom(1, if cfg.tradeCapacity == 0 then 1 else cfg.tradeCapacity)
  }

  // That is the smallest power of two that is at least the capacity asked for, and at least 1.
  lemma RingCapacityIs(cfg: Config)
    ensures IsPow2(RingCapacity(cfg)) && cfg.tradeCapacity <= RingCapacity(cfg)
    ensures forall p :: IsPow2(p) && cfg.tradeCapacity <= p ==> RingCapacity(cfg) <= p
  {
    var n := if cfg.tradeCapacity == 0 then 1 else cfg.tradeCapacity;
    assert Pow2(0) == 1;
    forall p | IsPow2(p) && cfg.tradeCapacity <= p ensures RingCapacity(cfg) <= p {
      var k: nat :| p == Pow2(k);
      PowPositive(k);
      RoundUpLeast(0, n, k);
    }
    RoundUpIsPow2(0, n);
  }

  // No operation of the run finds 2^31 orders resting and adds one more.
  ghost predicate Fits(policy: SelfTradePolicy, ops: seq<Op>) {
    forall k :: 0 <= k <= |ops| ==> |Run(policy, ops[..k]).0.resting| <= MAX_ORDERS
  }

  ghost predicate WithinProvision(policy: SelfTradePolicy, ops: seq<Op>, provision: nat) {
    forall k :: 0 <= k <= |ops| ==> |Run(policy, ops[..k]).0.resting| <= provision
  }

  lemma RunNext(policy: SelfTradePolicy, ops: seq<Op>, k: nat)
    requires k < |ops|
    ensures var (b, reports) := Run(policy, ops[..k]);
            var (b', rep) := Apply(b, policy, ops[k]);
            Run(policy, ops[..k + 1]) == (b', reports + [rep])
  {
    hide Apply;
    assert ops[..k + 1][..k] == ops[..k];
  }

  method RunReference(ops: seq<Op>, policy: SelfTradePolicy) returns (obs: Observed)
    ensures obs == Observe(policy, ops)
  {
    hide Apply, Market.Submit, Market.CancelOrder, Market.ModifyOrder, WellFormed, Sort;
    var book := new ReferenceBook(policy);
    var reports: seq<ExecReport> := [];
    var i := 0;
    while i < |ops|
      invariant 0 <= i <= |ops| && book.policy == policy
      invariant (book.State(), reports) == Run(policy, ops[..i])
    {
      RunNext(policy, ops, i);
      var rep := ApplyReference(book, ops[i]);
      reports := reports + [rep];
      i := i + 1;
    }
    assert ops[..i] == ops;
    RunKeeps(policy, ops);
    var queue := book.QueueSnapshot();
    SnapshotIsSort(book.State(), queue);
    obs := Observed(book.tradeLog, reports, Rows(Views(queue)));
  }

  method ApplyReference(book: ReferenceBook, op: Op) returns (rep: ExecReport)
    modifies book
    ensures (book.State(), rep) == Apply(old(book.State()), book.policy, op)
  {
    hide Market.Submit, Market.CancelOrder, Market.ModifyOrder;
    match op
    case AddLimit(id, owner, side, price, qty) => rep := book.AddLimit(id, owner, side, price, qty);
    case AddMarket(id, owner, side, qty) => rep := book.AddMarket(id, owner, side, qty);
    case Cancel(id) =>
      var live := book.CancelOrder(id);
      rep := EMPTY_REPORT.(accepted := live);
    case Modify(id, price, qty) => rep := book.ModifyOrder(id, price, qty);
  }

  lemma SnapshotIsSort(b: Book, queue: seq<Order>)
    requires WellFormed(b) && InBookOrder(queue) && SameMembers(queue, b.resting)
    ensures queue == Sort(b.resting)
  {
    SortSorts(b.resting);
    BookOrderUnique(queue, Sort(b.resting));
  }

  method ApplyEngine(book: OrderBook, op: Op) returns (r: Outcome)
    requires book.Valid()
    modifies book.Repr()
    ensures book.Performed(old(book.book), op, r)
    ensures r.Reported? ==> fresh(book.Repr() - old(book.Repr()))
    ensures r.Reported? ==> book.Provisioned(old(book.pool.growths), old(|book.pool.slots|),
                                             old(book.index.growths), old(book.index.table.Length))
    ensures book.ring.popped == old(book.ring.popped)
  {
    hide OrderBook.Core, WellFormed, Ladder.Settled, Market.Submit, Market.ModifyOrder;
    match op
    case AddLimit(id, owner, side, price, qty) => r := book.AddLimit(id, owner, side, price, qty);
    case AddMarket(id, owner, side, qty) => r := book.AddMarket(id, owner, side, qty);
    case Cancel(id) =>
      book.RestingBounded();
      CancelShrinks(book.book, id);
      var live := book.Cancel(id);
      r := Reported(EMPTY_REPORT.(accepted := live));
    case Modify(id, price, qty) => r := book.Modify(id, price, qty);
  }

  lemma CancelShrinks(b: Book, id: OrderId)
    ensures |CancelOrder(b, id).0.resting| <= |b.resting|
  {
  }

  // Applies one operation, and checks the invariants after it.
  method PlayNext(book: OrderBook, op: Op, ghost provision: nat) returns (r: Outcome)
    requires book.Valid()
    requires provision <= |book.pool.slots| && 2 * provision <= book.index.table.Length
    modifies book.Repr()
    ensures r.LengthError? <==> |Apply(old(book.book), book.policy, op).0.resting| > MAX_ORDERS
    ensures r.Reported? ==> book.Valid() && (book.book, r.rep) == Apply(old(book.book), book.policy, op)
    ensures r.Reported? ==> fresh(book.Repr() - old(book.Repr()))
    ensures r.Reported? ==> provision <= |book.pool.slots| && 2 * provision <= book.index.table.Length
    ensures r.Reported? && |book.book.resting| <= provision ==>
              book.pool.growths == old(book.pool.growths) && book.index.growths == old(book.index.growths)
    ensures book.ring.popped == old(book.ring.popped)
  {
    hide OrderBook.Core, WellFormed, Ladder.Settled, Apply;
    r := ApplyEngine(book, op);
    if r.Reported? {
      var ok := book.CheckInvariants();
      assert ok;
    }
  }

  // Applies the operations to a new book, until one throws.
  method Play(book: OrderBook, ops: seq<Op>, ghost provision: nat) returns (r: Option<seq<ExecReport>>)
    requires book.Valid() && book.book == EMPTY_BOOK && book.ring.popped == []
    requires book.pool.growths == book.index.growths == 0
    requires provision <= |book.pool.slots| && 2 * provision <= book.index.table.Length
    modifies book.Repr()
    ensures r.Some? <==> Fits(book.policy, ops)
    ensures r.Some? ==> book.Valid() && (book.book, r.value) == Run(book.policy, ops) && book.ring.popped == []
    ensures r.Some? && WithinProvision(book.policy, ops, provision) ==> book.pool.growths == book.index.growths == 0
  {
    hide OrderBook.Core, OrderBook.Valid, Apply, Run;
    var reports: seq<ExecReport> := [];
    var i := 0;
    NothingRun(book.policy, ops);
    while i < |ops|
      invariant 0 <= i <= |ops| && book.Valid() && fresh(book.Repr() - old(book.Repr()))
      invariant (book.book, reports) == Run(book.policy, ops[..i])
      invariant forall k :: 0 <= k <= i ==> |Run(book.policy, ops[..k]).0.resting| <= MAX_ORDERS
      invariant book.ring.popped == []
      invariant provision <= |book.pool.slots| && 2 * provision <= book.index.table.Length
      invariant (forall k :: 0 <= k <= i ==> |Run(book.policy, ops[..k]).0.resting| <= provision) ==>
                  book.pool.growths == book.index.growths == 0
    {
      RunNext(book.policy, ops, i);
      var r := PlayNext(book, ops[i], provision);
      if r.LengthError? {
        return None;
      }
      reports := reports + [r.rep];
      i := i + 1;
    }
    assert ops[..i] == ops;
    r := Some(reports);
  }

  lemma NothingRun(policy: SelfTradePolicy, ops: seq<Op>)
    ensures ops[..0] == [] && Run(policy, []) == (EMPTY_BOOK, [])
  {
  }

  // The engine shows what the reference semantics show, whatever the window, the base price
  // and the provisioned sizes, except for trades its ring had no room for. It throws exactly
  // when an operation would leave more than 2^31 orders resting.
  method RunEngine(ops: seq<Op>, cfg: Config) returns (obs: Option<Observed>, ghost growths: nat)
    requires cfg.Sized()
    ensures obs.Some? <==> Fits(cfg.selfTrade, ops)
    ensures obs.Some? ==>
              var all := Observe(cfg.selfTrade, ops);
              obs.value == all.(trades := all.trades[..Min(|all.trades|, RingCapacity(cfg))])
    ensures obs.Some? &&
            WithinProvision(cfg.selfTrade, ops, if cfg.expectedOrders > 0 then cfg.expectedOrders else 1024) ==>
              growths == 0
  {
    hide OrderBook.Core, WellFormed, Ladder.Settled, Run, Sort, Fits, WithinProvision;
    var book := new OrderBook(cfg);
    var reports := Play(book, ops, cfg.Provision());
    if reports.None? {
      return None, 0;
    }
    growths := book.pool.growths + book.index.growths;
    book.RingHoldsLog();
    var trades := book.DrainTrades();
    var queue := book.ForEachResting();
    obs := Some(Observed(trades, reports.value, Rows(queue)));
  }

  // True when the two disagree. They do exactly when a run prints more trades than the
  // engine's ring holds, since the harness drains the ring only at the end.
  method Diverges(ops: seq<Op>, cfg: Config) returns (d: Option<bool>)
    requires cfg.Sized()
    ensures d.Some? <==> Fits(cfg.selfTrade, ops)
    ensures d.Some? ==> (d.value <==> |Run(cfg.selfTrade, ops).0.log| > RingCapacity(cfg))
  {
    hide Run, Sort, Fits, RingCapacity;
    var engine, _ := RunEngine(ops, cfg);
    if engine.None? {
      return None;
    }
    var reference := RunReference(ops, cfg.selfTrade);
    d := Some(engine.value != reference);
  }

  // Two sellers and a buyer who takes from both: two trades, which a ring for one cannot hold.
  const TWO_TRADES := [
    Op.AddLimit(1, ANONYMOUS, Sell, 100, 1),
    Op.AddLimit(2, ANONYMOUS, Sell, 100, 1),
    Op.AddMarket(3, ANONYMOUS, Buy, 2)]

  // Rest, and nothing to match.
  lemma RestsUnmatched(b: Book, policy: SelfTradePolicy, t: Taker, qty: Quantity)
    requires qty > 0 && t.limit.Some? && Find(b.resting, t.id).None? && NoneOnSide(b.resting, Opposite(t.side))
    ensures Market.Submit(b, policy, t, qty).0 == b.(
              resting := b.resting + [Order(t.id, t.owner, t.limit.value, qty, t.side, b.nextArrival)],
              nextArrival := b.nextArrival + 1)
  {
    var s := Matching(b, qty, EMPTY_REPORT);
    var m := NextMaker(b.resting, Opposite(t.side));
    assert m.None?;
    MatchEnds(t, policy, s);
  }

  // On such a run the two books do disagree, under every policy.
  lemma SmallRingDiverges(cfg: Config)
    requires cfg.tradeCapacity <= 1
    ensures Fits(cfg.selfTrade, TWO_TRADES)
    ensures |Run(cfg.selfTrade, TWO_TRADES).0.log| == 2 > RingCapacity(cfg)
  {
    hide Run, Market.Match, NextMaker;
    var policy := cfg.selfTrade;
    var ops := TWO_TRADES;
    NothingRun(policy, ops);
    RunNext(policy, ops, 0);
    RunNext(policy, ops, 1);
    RunNext(policy, ops, 2);
    var a := Order(1, ANONYMOUS, 100, 1, Sell, 1);
    var b := Order(2, ANONYMOUS, 100, 1, Sell, 2);
    RestsUnmatched(EMPTY_BOOK, policy, Taker(1, ANONYMOUS, Sell, Some(100)), 1);
    var book1 := Book([a], [], 2, 1);
    assert Run(policy, ops[..1]).0 == book1;
    RestsUnmatched(book1, policy, Taker(2, ANONYMOUS, Sell, Some(100)), 1);
    var book2 := Book([a, b], [], 3, 1);
    assert Run(policy, ops[..2]).0 == book2;
    TakesBoth(policy);
    assert ops[..3] == ops;
  }

  lemma TakesBoth(policy: SelfTradePolicy)
    ensures var a, b := Order(1, ANONYMOUS, 100, 1, Sell, 1), Order(2, ANONYMOUS, 100, 1, Sell, 2);
            var after := Market.Submit(Book([a, b], [], 3, 1), policy, Taker(3, ANONYMOUS, Buy, None), 2).0;
            |after.log| == 2 && after.resting == []
  {
    var a, b := Order(1, ANONYMOUS, 100, 1, Sell, 1), Order(2, ANONYMOUS, 100, 1, Sell, 2);
    var t := Taker(3, ANONYMOUS, Buy, None);
    var s := Matching(Book([a, b], [], 3, 1), 2, EMPTY_REPORT);
    assert NextMaker([a, b], Sell) == Some(0) by {
      assert FirstOnSide([a, b], Sell, 0);
    }
    var s1 := Step(t, policy, s);
    MatchOnce(t, policy, s);
    assert s1.book.resting == [b];
    assert NextMaker([b], Sell) == Some(0);
    MatchOnce(t, policy, s1);
    var s2 := Step(t, policy, s1);
    assert s2.book.resting == [];
    MatchEnds(t, policy, s2);
  }

  // Shrinking ----------------------------------------------------------------------------

  function Without<T>(s: seq<T>, i: nat, n: nat): (r: seq<T>)
    requires i + n <= |s|
    ensures |r| == |s| - n
  {
    s[..i] + s[i + n..]
  }

  // a is b with some of its elements left out.
  ghost predicate Subsequence<T>(a: seq<T>, b: seq<T>) {
    exists at: seq<nat> :: Picks(a, b, at)
  }

  ghost predicate Picks<T>(a: seq<T>, b: seq<T>, at: seq<nat>) {
    && |at| == |a|
    && (forall i :: 0 <= i < |at| ==> at[i] < |b| && b[at[i]] == a[i])
    && (forall i, j :: 0 <= i < j < |at| ==> at[i] < at[j])
  }

  // No single removal that leaves something still fails.
  ghost predicate OneMinimal<T>(failing: seq<T>, fails: seq<T> -> bool) {
    forall i :: 0 <= i < |failing| && |failing| > 1 ==> !fails(Without(failing, i, 1))
  }

  // The indices below n.
  function Indices(n: nat): seq<nat> {
    seq(n, i => i)
  }

  lemma PicksAll<T>(s: seq<T>)
    ensures Picks(s, s, Indices(|s|))
  {
  }

  lemma PicksWithout<T>(a: seq<T>, b: seq<T>, at: seq<nat>, i: nat, n: nat)
    requires Picks(a, b, at) && i + n <= |a|
    ensures Picks(Without(a, i, n), b, Without(at, i, n))
  {
  }

  // Greedy delta debugging, for any test: what it returns still fails if its input did, is a
  // non-empty subsequence of a non-empty input, and fails no more after any single removal.
  method Shrink<T>(input: seq<T>, fails: seq<T> -> bool) returns (failing: seq<T>)
    ensures Subsequence(failing, input)
    ensures input != [] ==> failing != []
    ensures fails(input) ==> fails(failing)
    ensures OneMinimal(failing, fails)
  {
    failing := input;
    ghost var at := Indices(|input|);
    PicksAll(input);
    var progress := true;
    while progress && |failing| > 1
      invariant Picks(failing, input, at)
      invariant input != [] ==> failing != []
      invariant fails(input) ==> fails(failing)
      invariant !progress ==> OneMinimal(failing, fails)
      decreases |failing|, progress
    {
      progress := false;
      ghost var before := failing;
      var chunk := |failing| / 2;
      var more := true;
      while more && chunk >= 1
        invariant Picks(failing, input, at)
        invariant input != [] ==> failing != []
        invariant fails(input) ==> fails(failing)
        invariant if progress then |failing| < |before| else failing == before
        invariant more ==> chunk >= 1
        invariant !more && !progress ==> OneMinimal(failing, fails)
        decreases more, chunk
      {
        var i := 0;
        while i + chunk <= |failing|
          invariant Picks(failing, input, at)
          invariant input != [] ==> failing != []
          invariant fails(input) ==> fails(failing)
          invariant if progress then |failing| < |before| else failing == before
          invariant !progress && |failing| > chunk ==>
                      forall j :: 0 <= j < i && j + chunk <= |failing| ==> !fails(Without(failing, j, chunk))
          decreases |failing| - i
        {
          var candidate := Without(failing, i, chunk);
          if candidate != [] && fails(candidate) {
            PicksWithout(failing, input, at, i, chunk);
            at := Without(at, i, chunk);
            failing := candidate;
            progress := true;
          } else {
            i := i + 1;
          }
        }
        if chunk == 1 {
          more := false;
        } else {
          chunk := chunk / 2;
        }
      }
    }
  }
}
