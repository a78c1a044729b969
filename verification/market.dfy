// What the book means, as pure functions over one flat sequence of resting orders in
// arrival order. ReferenceBook and OrderBook are both proved equal to these functions.
module Market {
  import opened Types

  datatype Book = Book(resting: seq<Order>, log: seq<Trade>, nextArrival: nat, nextSeq: nat)

  const EMPTY_BOOK := Book([], [], 1, 1)

  // a is a strictly better price than b for an order resting on side.
  predicate Better(side: Side, a: Price, b: Price) {
    if side.Buy? then a > b else a < b
  }

  // Price priority, then time priority, between two orders of one side.
  predicate Before(a: Order, b: Order) {
    Better(a.side, a.price, b.price) || (a.price == b.price && a.arrival < b.arrival)
  }

  ghost predicate FirstOnSide(resting: seq<Order>, side: Side, m: nat) {
    && m < |resting|
    && resting[m].side == side
    && forall j :: 0 <= j < |resting| && resting[j].side == side && j != m ==> Before(resting[m], resting[j])
  }

  ghost predicate NoneOnSide(resting: seq<Order>, side: Side) {
    forall j :: 0 <= j < |resting| ==> resting[j].side != side
  }

  // Arrival numbers grow along the sequence.
  ghost predicate ByArrival(resting: seq<Order>) {
    forall i, j :: 0 <= i < j < |resting| ==> resting[i].arrival < resting[j].arrival
  }

  ghost predicate DistinctIds(resting: seq<Order>) {
    forall i, j :: 0 <= i < j < |resting| ==> resting[i].id != resting[j].id
  }

  // Every bid is strictly below every ask.
  ghost predicate Uncrossed(resting: seq<Order>) {
    forall i, j :: 0 <= i < |resting| && 0 <= j < |resting| && resting[i].side.Buy? && resting[j].side.Sell? ==>
      resting[i].price < resting[j].price
  }

  // The k-th trade ever printed carries sequence number k, counting from one.
  ghost predicate Sequenced(b: Book) {
    b.nextSeq == |b.log| + 1 && forall k :: 0 <= k < |b.log| ==> b.log[k].sequence == k + 1
  }

  ghost predicate WellFormed(b: Book) {
    && DistinctIds(b.resting)
    && ByArrival(b.resting)
    && (forall i :: 0 <= i < |b.resting| ==> b.resting[i].arrival < b.nextArrival && b.resting[i].qty > 0)
    && Uncrossed(b.resting)
    && Sequenced(b)
  }

  // The order a taker hits next, found the way the reference book scans for it.
  function NextMaker(resting: seq<Order>, side: Side): (m: Option<nat>)
    ensures m.None? ==> NoneOnSide(resting, side)
    ensures m.Some? ==> m.value < |resting| && resting[m.value].side == side
    ensures m.Some? && ByArrival(resting) ==> FirstOnSide(resting, side, m.value)
  {
    if resting == [] then None else
      var n := |resting| - 1;
      var best := NextMaker(resting[..n], side);
      if resting[n].side != side then best
      else if best.None? || Before(resting[n], resting[best.value]) then Some(n)
      else best
  }

  function Find(resting: seq<Order>, id: OrderId): (m: Option<nat>)
    ensures m.None? <==> forall j :: 0 <= j < |resting| ==> resting[j].id != id
    ensures m.Some? ==> m.value < |resting| && resting[m.value].id == id
    ensures m.Some? ==> forall j :: 0 <= j < m.value ==> resting[j].id != id
  {
    if resting == [] then None
    else if resting[0].id == id then Some(0)
    else
      var rest := Find(resting[1..], id);
      if rest.None? then None else Some(rest.value + 1)
  }

  // Matching ------------------------------------------------------------------

  datatype Taker = Taker(id: OrderId, owner: ParticipantId, side: Side, limit: Option<Price>)

  datatype Matching = Matching(book: Book, left: Quantity, rep: ExecReport)

  predicate Crosses(t: Taker, price: Price) {
    t.limit.None? || if t.side.Buy? then price <= t.limit.value else price >= t.limit.value
  }

  predicate SelfTrade(policy: SelfTradePolicy, taker: ParticipantId, maker: ParticipantId) {
    !policy.Allow? && taker != ANONYMOUS && taker == maker
  }

  predicate Done(t: Taker, s: Matching) {
    || s.left == 0
    || s.rep.stpHalted
    || var m := NextMaker(s.book.resting, Opposite(t.side));
       m.None? || !Crosses(t, s.book.resting[m.value].price)
  }

  function AfterFill(maker: Order, traded: nat): Order
    requires traded <= maker.qty
  {
    maker.(qty := maker.qty - traded)
  }

  // Remove the maker without a trade.
  function DropMaker(s: Matching, m: nat): Matching
    requires m < |s.book.resting|
  {
    s.(book := s.book.(resting := RemoveAt(s.book.resting, m)),
       rep := s.rep.(stpCancelled := s.rep.stpCancelled + s.book.resting[m].qty))
  }

  function TradeFor(t: Taker, s: Matching, m: nat): Trade
    requires m < |s.book.resting|
  {
    var maker := s.book.resting[m];
    Trade(s.book.nextSeq, maker.id, t.id, maker.price, Min(s.left, maker.qty), t.side)
  }

  // One fill: the trade prints at the maker's price, and a maker with nothing left goes.
  function Fill(t: Taker, s: Matching, m: nat): Matching
    requires m < |s.book.resting|
  {
    var maker := s.book.resting[m];
    var traded := Min(s.left, maker.qty);
    var resting := if traded == maker.qty then RemoveAt(s.book.resting, m)
                   else s.book.resting[m := AfterFill(maker, traded)];
    Matching(
      Book(resting, s.book.log + [TradeFor(t, s, m)], s.book.nextArrival, s.book.nextSeq + 1),
      s.left - traded,
      s.rep.(firstSeq := if s.rep.tradeCount == 0 then s.book.nextSeq else s.rep.firstSeq,
             tradeCount := s.rep.tradeCount + 1,
             filled := s.rep.filled + traded))
  }

  // What a taker does to the order it hits next.
  function Step(t: Taker, policy: SelfTradePolicy, s: Matching): Matching
    requires !Done(t, s)
  {
    var m := NextMaker(s.book.resting, Opposite(t.side)).value;
    if SelfTrade(policy, t.owner, s.book.resting[m].owner) then
      if policy.CancelIncoming? then s.(rep := s.rep.(stpHalted := true)) else DropMaker(s, m)
    else Fill(t, s, m)
  }

  function Match(t: Taker, policy: SelfTradePolicy, s: Matching): Matching
    decreases |s.book.resting|, s.left, !s.rep.stpHalted
  {
    if Done(t, s) then s else Match(t, policy, Step(t, policy, s))
  }

  lemma MatchEnds(t: Taker, policy: SelfTradePolicy, s: Matching)
    requires Done(t, s)
    ensures Match(t, policy, s) == s
  {
  }

  lemma MatchOnce(t: Taker, policy: SelfTradePolicy, s: Matching)
    requires !Done(t, s)
    ensures Match(t, policy, s) == Match(t, policy, Step(t, policy, s))
  {
  }

  lemma StepSmaller(t: Taker, policy: SelfTradePolicy, s: Matching)
    requires !Done(t, s)
    ensures var s' := Step(t, policy, s);
            || |s'.book.resting| < |s.book.resting|
            || (|s'.book.resting| == |s.book.resting| && s'.left < s.left)
            || (s'.book.resting == s.book.resting && s'.left == s.left && !s.rep.stpHalted && s'.rep.stpHalted)
  {
  }

  // One step of matching, from the order the taker hits next.
  lemma MatchUnfolds(t: Taker, policy: SelfTradePolicy, s: Matching, m: nat)
    requires s.left > 0 && !s.rep.stpHalted
    requires NextMaker(s.book.resting, Opposite(t.side)) == Some(m) && Crosses(t, s.book.resting[m].price)
    ensures var s' := if !SelfTrade(policy, t.owner, s.book.resting[m].owner) then Fill(t, s, m)
                      else if policy.CancelIncoming? then s.(rep := s.rep.(stpHalted := true))
                      else DropMaker(s, m);
            Match(t, policy, s) == Match(t, policy, s')
  {
    MatchOnce(t, policy, s);
  }

  // Operations ----------------------------------------------------------------

  function Rejected(qty: Quantity): ExecReport {
    EMPTY_REPORT.(accepted := false, remaining := qty)
  }

  // Rest what a limit order has left, unless self-trade prevention halted it.
  function Rest(t: Taker, s: Matching): (Book, ExecReport) {
    var rep := s.rep.(remaining := s.left);
    if t.limit.Some? && s.left > 0 && !rep.stpHalted then
      var order := Order(t.id, t.owner, t.limit.value, s.left, t.side, s.book.nextArrival);
      (s.book.(resting := s.book.resting + [order], nextArrival := s.book.nextArrival + 1), rep.(rested := true))
    else (s.book, rep)
  }

  // A taker with no limit is a market order: it takes any price and never rests.
  function Submit(b: Book, policy: SelfTradePolicy, t: Taker, qty: Quantity): (Book, ExecReport) {
    if qty == 0 || Find(b.resting, t.id).Some? then (b, Rejected(qty))
    else Rest(t, Match(t, policy, Matching(b, qty, EMPTY_REPORT)))
  }

  function CancelOrder(b: Book, id: OrderId): (Book, bool) {
    var m := Find(b.resting, id);
    if m.None? then (b, false) else (b.(resting := RemoveAt(b.resting, m.value)), true)
  }

  // Cancel plus add: the id and the owner stay, the place in the queue does not.
  function ModifyOrder(b: Book, policy: SelfTradePolicy, id: OrderId, price: Price, qty: Quantity): (Book, ExecReport) {
    var m := Find(b.resting, id);
    if m.None? then (b, Rejected(qty))
    else
      var was := b.resting[m.value];
      var cancelled := CancelOrder(b, id).0;
      if qty == 0 then (cancelled, EMPTY_REPORT)
      else Submit(cancelled, policy, Taker(id, was.owner, was.side, Some(price)), qty)
  }

  function Apply(b: Book, policy: SelfTradePolicy, op: Op): (Book, ExecReport) {
    match op
    case AddLimit(id, owner, side, price, qty) => Submit(b, policy, Taker(id, owner, side, Some(price)), qty)
    case AddMarket(id, owner, side, qty) => Submit(b, policy, Taker(id, owner, side, None), qty)
    case Cancel(id) =>
      var (b', live) := CancelOrder(b, id);
      (b', EMPTY_REPORT.(accepted := live))
    case Modify(id, price, qty) => ModifyOrder(b, policy, id, price, qty)
  }

  // A whole run from the empty book, and the report of each operation.
  function Run(policy: SelfTradePolicy, ops: seq<Op>): (r: (Book, seq<ExecReport>))
    ensures |r.1| == |ops|
  {
    if ops == [] then (EMPTY_BOOK, [])
    else
      var n := |ops| - 1;
      var (b, reports) := Run(policy, ops[..n]);
      var (b', rep) := Apply(b, policy, ops[n]);
      (b', reports + [rep])
  }
}
