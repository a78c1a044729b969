// The vocabulary of the book: identifiers, orders, trades and execution reports.
module Types {
  // The source's integer widths. The counters of an ExecReport and level totals are unbounded
  // here; Conservation.CountersFit proves that they fit the source's. Sequence and arrival
  // numbers are unbounded too: the k-th trade has number k.
  type OrderId = x: nat | x < 0x1_0000_0000_0000_0000
  type Price = x: nat | x < 0x1_0000_0000_0000_0000
  type Quantity = x: nat | x < 0x1_0000_0000
  type ParticipantId = x: nat | x < 0x1_0000_0000

  const MAX_PRICE: Price := 0xFFFF_FFFF_FFFF_FFFF
  const ANONYMOUS: ParticipantId := 0

  // The slot index that means "no slot".
  const NO_SLOT: nat := 0xFFFF_FFFF

  // An index entry packs a slot and a side in 32 bits, which caps a book here.
  const MAX_ORDERS: nat := 0x8000_0000

  datatype Option<+T> = None | Some(value: T)

  datatype Side = Buy | Sell

  function Opposite(side: Side): Side {
    if side.Buy? then Sell else Buy
  }

  datatype SelfTradePolicy = Allow | CancelResting | CancelIncoming

  // A resting order as the reference book stores it. A lower arrival is older.
  datatype Order = Order(id: OrderId, owner: ParticipantId, price: Price, qty: Quantity, side: Side, arrival: nat)

  datatype Trade = Trade(
    sequence: nat, makerId: OrderId, takerId: OrderId, price: Price, qty: Quantity, takerSide: Side)

  datatype ExecReport = ExecReport(
    firstSeq: nat, tradeCount: nat, filled: nat, remaining: Quantity, stpCancelled: nat,
    rested: bool, accepted: bool, stpHalted: bool)

  const EMPTY_REPORT := ExecReport(0, 0, 0, 0, 0, false, true, false)

  // One operation of a run.
  datatype Op =
    | AddLimit(id: OrderId, owner: ParticipantId, side: Side, price: Price, qty: Quantity)
    | AddMarket(id: OrderId, owner: ParticipantId, side: Side, qty: Quantity)
    | Cancel(id: OrderId)
    | Modify(id: OrderId, price: Price, qty: Quantity)

  // An order as the engine shows it to a caller.
  datatype OrderView = OrderView(id: OrderId, owner: ParticipantId, price: Price, qty: Quantity, side: Side)

  // A resting order as the differential test compares it.
  datatype Row = Row(side: Side, price: Price, id: OrderId, qty: Quantity)

  function Min(a: nat, b: nat): nat {
    if a <= b then a else b
  }

  function RemoveAt<T>(s: seq<T>, i: nat): (r: seq<T>)
    requires i < |s|
    ensures |r| == |s| - 1
  {
    s[..i] + s[i + 1..]
  }

  lemma RemoveReplaced<T>(s: seq<T>, i: nat, x: T)
    requires i < |s|
    ensures RemoveAt(s[i := x], i) == RemoveAt(s, i)
  {
  }

  lemma RemoveIndices<T>(s: seq<T>, i: nat)
    requires i < |s|
    ensures forall j :: 0 <= j < |s| - 1 ==> RemoveAt(s, i)[j] == s[if j < i then j else j + 1]
  {
  }
}
