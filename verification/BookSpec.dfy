/**
 The order book seen as two sequences of resting orders, each in priority order (best price first,
 arrival order within a price). This is the simple form that the book with its two maps of queues
 (module OrderBook) is proved to refine.
 */
module BookSpec {
  import opened OrderTypes

  datatype Book = Book(
    bids: seq<RestingOrder>, asks: seq<RestingOrder>,
    pending: seq<Order>, last: Option<int>, nextId: nat)

  const EmptyBook := Book([], [], [], None, 1)

  function Resting(b: Book, side: Side): seq<RestingOrder> {
    if side == Buy then b.bids else b.asks
  }

  function WithResting(b: Book, side: Side, queue: seq<RestingOrder>): Book {
    if side == Buy then b.(bids := queue) else b.(asks := queue)
  }

  /** One execution, with the two orders it is between; `resting` is as it was just before. */
  datatype Fill = Fill(aggressor: Order, resting: RestingOrder, quantity: nat)

  function TradeOf(f: Fill): Trade {
    if f.aggressor.side == Buy
    then Trade(f.aggressor.account, f.resting.account, f.resting.limitPrice, f.quantity, true)
    else Trade(f.resting.account, f.aggressor.account, f.resting.limitPrice, f.quantity, false)
  }

  function TradesOf(fills: seq<Fill>): (trades: seq<Trade>)
    ensures |trades| == |fills|
  {
    seq(|fills|, i requires 0 <= i < |fills| => TradeOf(fills[i]))
  }

  predicate Crosses(o: Order, price: int) {
    o.orderType == Market || !Better(Opposite(o.side), o.limitPrice, price)
  }

  datatype Sweep = Sweep(fills: seq<Fill>, queue: seq<RestingOrder>, remainder: nat)

  /** Greedily consumes a prefix of the opposite side, stopping at the limit price. */
  function Consume(queue: seq<RestingOrder>, o: Order, quantity: nat): Sweep {
    if quantity == 0 || queue == [] || !Crosses(o, queue[0].limitPrice) then
      Sweep([], queue, quantity)
    else
      var executed := Min(quantity, queue[0].remaining);
      var fill := Fill(o, queue[0], executed);
      if executed < queue[0].remaining then
        Sweep([fill], [queue[0].(remaining := queue[0].remaining - executed)] + queue[1..], 0)
      else
        var rest := Consume(queue[1..], o, quantity - executed);
        Sweep([fill] + rest.fills, rest.queue, rest.remainder)
  }

  /** Joins the queue behind every order of the same or a better price. */
  function Enqueue(side: Side, queue: seq<RestingOrder>, r: RestingOrder): seq<RestingOrder> {
    if queue == [] || Better(side, r.limitPrice, queue[0].limitPrice) then [r] + queue
    else [queue[0]] + Enqueue(side, queue[1..], r)
  }

  datatype Leftover = Leftover(id: nat, quantity: nat)

  /** What a step did: the new book, the executions, and the market remainders it dropped. */
  datatype Effect = Effect(book: Book, fills: seq<Fill>, dropped: seq<Leftover>)

  function LastPrice(fills: seq<Fill>, before: Option<int>): Option<int> {
    if fills == [] then before else Some(fills[|fills| - 1].resting.limitPrice)
  }

  /** A live (limit or market) order meets the book and records the last traded price. */
  function MatchLive(b: Book, o: Order): Effect {
    var opposite := Opposite(o.side);
    var sweep := Consume(Resting(b, opposite), o, o.quantity);
    var b1 := WithResting(b, opposite, sweep.queue).(last := LastPrice(sweep.fills, b.last));
    if sweep.remainder == 0 then
      Effect(b1, sweep.fills, [])
    else if o.orderType == Limit then
      var r := RestingOrder(o.id, o.account, o.limitPrice, sweep.remainder);
      Effect(WithResting(b1, o.side, Enqueue(o.side, Resting(b1, o.side), r)), sweep.fills, [])
    else
      Effect(b1, sweep.fills, [Leftover(o.id, sweep.remainder)])
  }

  predicate Triggered(o: Order, price: int)
    requires o.stopTrigger.Some?
  {
    if o.side == Buy then price >= o.stopTrigger.value else price <= o.stopTrigger.value
  }

  predicate Eligible(o: Order, last: Option<int>) {
    last.Some? && o.stopTrigger.Some? && Triggered(o, last.value)
  }

  /** Position of the first eligible stop, or the length of the pool when there is none. */
  function FirstEligible(pending: seq<Order>, last: Option<int>): (i: nat)
    ensures i <= |pending|
    ensures forall j :: 0 <= j < i ==> !Eligible(pending[j], last)
    ensures i < |pending| ==> Eligible(pending[i], last)
  {
    if pending == [] || Eligible(pending[0], last) then 0
    else 1 + FirstEligible(pending[1..], last)
  }

  function Remove<T>(s: seq<T>, i: nat): seq<T>
    requires i < |s|
  {
    s[..i] + s[i + 1..]
  }

  function GoLive(o: Order): Order {
    match o.orderType
    case StopLossMarket => o.(orderType := Market)
    case StopLossLimit => o.(orderType := Limit)
    case _ => o
  }

  /** Takes stop number `i` out of the pool and sends it to the book as a live order. */
  function Fire(b: Book, i: nat): Effect
    requires i < |b.pending|
  {
    MatchLive(b.(pending := Remove(b.pending, i)), GoLive(b.pending[i]))
  }

  /** Fires eligible stops, first in the pool first, until none is eligible. */
  function Cascade(b: Book): Effect
    decreases |b.pending|
  {
    var i := FirstEligible(b.pending, b.last);
    if i == |b.pending| then Effect(b, [], [])
    else
      var fired := Fire(b, i);
      var rest := Cascade(fired.book);
      Effect(rest.book, fired.fills + rest.fills, fired.dropped + rest.dropped)
  }

  /** Intake of an order that already carries its id, before any stop is looked at. */
  function TakeIn(b: Book, o: Order): Effect {
    if IsStop(o) then Effect(b.(pending := b.pending + [o]), [], []) else MatchLive(b, o)
  }

  function Submit(b: Book, o: Order): Effect {
    var first := TakeIn(b.(nextId := b.nextId + 1), o.(id := b.nextId));
    var rest := Cascade(first.book);
    Effect(rest.book, first.fills + rest.fills, first.dropped + rest.dropped)
  }

  predicate HasResting(queue: seq<RestingOrder>, id: nat) {
    exists i :: 0 <= i < |queue| && queue[i].id == id
  }

  predicate HasPending(pending: seq<Order>, id: nat) {
    exists i :: 0 <= i < |pending| && pending[i].id == id
  }

  function DropResting(queue: seq<RestingOrder>, id: nat): seq<RestingOrder> {
    if queue == [] then []
    else (if queue[0].id == id then [] else [queue[0]]) + DropResting(queue[1..], id)
  }

  function DropPending(pending: seq<Order>, id: nat): seq<Order> {
    if pending == [] then []
    else if pending[0].id == id then pending[1..]
    else [pending[0]] + DropPending(pending[1..], id)
  }

  predicate Known(b: Book, id: nat) {
    HasResting(b.bids, id) || HasResting(b.asks, id) || HasPending(b.pending, id)
  }

  function Cancel(b: Book, id: nat): Book {
    if HasResting(b.bids, id) then b.(bids := DropResting(b.bids, id))
    else if HasResting(b.asks, id) then b.(asks := DropResting(b.asks, id))
    else b.(pending := DropPending(b.pending, id))
  }

  datatype Command = SubmitOrder(order: Order) | CancelOrder(id: nat)

  predicate WellFormedCommand(c: Command) {
    c.SubmitOrder? ==> WellFormed(c.order)
  }

  predicate WellFormedCommands(cs: seq<Command>) {
    forall i :: 0 <= i < |cs| ==> WellFormedCommand(cs[i])
  }

  function Apply(b: Book, c: Command): Effect {
    match c
    case SubmitOrder(o) => Submit(b, o)
    case CancelOrder(id) => Effect(Cancel(b, id), [], [])
  }

  /** The book after a run of commands. */
  function Run(b: Book, cs: seq<Command>): Book {
    if cs == [] then b else Apply(Run(b, cs[..|cs| - 1]), cs[|cs| - 1]).book
  }
}
