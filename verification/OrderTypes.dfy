/** Domain types of the matching engine. Prices and quantities are unbounded integers. */
module OrderTypes {

  datatype Option<+T> = None | Some(value: T)

  datatype Side = Buy | Sell

  datatype OrderType = Limit | Market | StopLossLimit | StopLossMarket

  /** An order as it arrives. `id` is overwritten when the book takes it in. */
  datatype Order = Order(
    account: string, side: Side, orderType: OrderType, limitPrice: int,
    stopTrigger: Option<int>, quantity: nat, id: nat)

  datatype RestingOrder = RestingOrder(id: nat, account: string, limitPrice: int, remaining: nat)

  datatype Trade = Trade(buyer: string, seller: string, price: int, quantity: nat, isBuyAggressor: bool)

  datatype SubmissionOutcome = SubmissionOutcome(trades: seq<Trade>, assignedId: nat)

  datatype OrderStatus =
    | RestingLimit(side: Side, limitPrice: int, remaining: nat)
    | PendingStop(stopSide: Side, trigger: int, quantity: nat)
    | NotFound

  predicate IsStop(o: Order) {
    o.orderType == StopLossLimit || o.orderType == StopLossMarket
  }

  /** What the book demands of a caller: a stop order carries its trigger price. */
  predicate WellFormed(o: Order) {
    IsStop(o) ==> o.stopTrigger.Some?
  }

  function Opposite(side: Side): Side {
    if side == Buy then Sell else Buy
  }

  /** `p` has strictly better price priority than `q` on `side` of the book. */
  predicate Better(side: Side, p: int, q: int) {
    if side == Buy then p > q else p < q
  }

  function Min(a: nat, b: nat): nat {
    if a <= b then a else b
  }
}
