/**
 Who traded: over any run, every account is named as buyer and as seller for exactly what its own orders
 were filled for. Orders are known by the id they were given, the first submission being number 1.
 */
module AccountLedger {
  import opened OrderTypes
  import opened BookSpec
  import opened BookInvariants
  import opened Matching
  import opened Conservation

  /** The orders submitted in a run; order `k` of the list was given the id `k + 1`. */
  function SubmittedOrders(cs: seq<Command>): seq<Order> {
    if cs == [] then []
    else
      var c := cs[|cs| - 1];
      SubmittedOrders(cs[..|cs| - 1]) + (if c.SubmitOrder? then [c.order] else [])
  }

  /** Order number `id` is the given account's, on the given side. */
  ghost predicate Owns(orders: seq<Order>, id: nat, account: string, side: Side) {
    1 <= id <= |orders| && orders[id - 1].account == account && orders[id - 1].side == side
  }

  /** A resting order shows the account, side and limit that were submitted under its id. */
  ghost predicate RestsAsSubmitted(orders: seq<Order>, side: Side, r: RestingOrder) {
    Owns(orders, r.id, r.account, side) && orders[r.id - 1].limitPrice == r.limitPrice
  }

  ghost predicate QueueAsSubmitted(orders: seq<Order>, side: Side, queue: seq<RestingOrder>) {
    forall i :: 0 <= i < |queue| ==> RestsAsSubmitted(orders, side, queue[i])
  }

  /** An armed stop stands in the pool with everything it was submitted with, under its id. */
  ghost predicate ArmedAsSubmitted(orders: seq<Order>, o: Order) {
    1 <= o.id <= |orders| && o == orders[o.id - 1].(id := o.id)
  }

  ghost predicate BookAsSubmitted(orders: seq<Order>, b: Book) {
    && QueueAsSubmitted(orders, Buy, b.bids)
    && QueueAsSubmitted(orders, Sell, b.asks)
    && forall i :: 0 <= i < |b.pending| ==> ArmedAsSubmitted(orders, b.pending[i])
  }

  /** A live order still has the account, side and limit that were submitted under its id. */
  ghost predicate LiveAsSubmitted(orders: seq<Order>, o: Order) {
    Owns(orders, o.id, o.account, o.side) && orders[o.id - 1].limitPrice == o.limitPrice
  }

  /** A fill between two submitted orders of opposite sides. */
  ghost predicate FillAsSubmitted(orders: seq<Order>, f: Fill) {
    && Owns(orders, f.aggressor.id, f.aggressor.account, f.aggressor.side)
    && RestsAsSubmitted(orders, Opposite(f.aggressor.side), f.resting)
  }

  ghost predicate FillsAsSubmitted(orders: seq<Order>, fills: seq<Fill>) {
    forall k :: 0 <= k < |fills| ==> FillAsSubmitted(orders, fills[k])
  }

  // ----- every step -----

  lemma {:induction false} ConsumeAsSubmitted(orders: seq<Order>, queue: seq<RestingOrder>, o: Order, quantity: nat)
    requires QueueAsSubmitted(orders, Opposite(o.side), queue) && LiveAsSubmitted(orders, o)
    ensures QueueAsSubmitted(orders, Opposite(o.side), Consume(queue, o, quantity).queue)
    ensures FillsAsSubmitted(orders, Consume(queue, o, quantity).fills)
  {
    hide Crosses;
    if quantity == 0 || queue == [] || !Crosses(o, queue[0].limitPrice) {
    } else if queue[0].remaining <= quantity {
      ConsumeAsSubmitted(orders, queue[1..], o, quantity - queue[0].remaining);
    }
  }

  lemma EnqueueAsSubmitted(orders: seq<Order>, side: Side, queue: seq<RestingOrder>, r: RestingOrder)
    requires QueueAsSubmitted(orders, side, queue) && RestsAsSubmitted(orders, side, r)
    ensures QueueAsSubmitted(orders, side, Enqueue(side, queue, r))
  {
    hide Enqueue, RestsAsSubmitted;
    var after := Enqueue(side, queue, r);
    EnqueueMembers(side, queue, r);
    forall i | 0 <= i < |after| ensures RestsAsSubmitted(orders, side, after[i]) {
      assert after[i] in after;
    }
  }

  lemma MatchLiveAsSubmitted(orders: seq<Order>, b: Book, o: Order)
    requires BookAsSubmitted(orders, b) && LiveAsSubmitted(orders, o)
    ensures BookAsSubmitted(orders, MatchLive(b, o).book) && FillsAsSubmitted(orders, MatchLive(b, o).fills)
  {
    hide Consume, Enqueue, QueueAsSubmitted, FillsAsSubmitted, ArmedAsSubmitted;
    var opposite := Opposite(o.side);
    var s := Consume(Resting(b, opposite), o, o.quantity);
    ConsumeAsSubmitted(orders, Resting(b, opposite), o, o.quantity);
    EnqueueAsSubmitted(
      orders, o.side, Resting(b, o.side), RestingOrder(o.id, o.account, o.limitPrice, s.remainder));
  }

  lemma FireAsSubmitted(orders: seq<Order>, b: Book, i: nat)
    requires BookAsSubmitted(orders, b) && i < |b.pending|
    ensures BookAsSubmitted(orders, Fire(b, i).book) && FillsAsSubmitted(orders, Fire(b, i).fills)
  {
    hide MatchLive, QueueAsSubmitted, FillsAsSubmitted;
    MatchLiveAsSubmitted(orders, b.(pending := Remove(b.pending, i)), GoLive(b.pending[i]));
  }

  lemma FillsTogether(orders: seq<Order>, p: seq<Fill>, q: seq<Fill>)
    requires FillsAsSubmitted(orders, p) && FillsAsSubmitted(orders, q)
    ensures FillsAsSubmitted(orders, p + q)
  {
  }

  lemma {:induction false} CascadeAsSubmitted(orders: seq<Order>, b: Book)
    requires BookAsSubmitted(orders, b)
    ensures BookAsSubmitted(orders, Cascade(b).book) && FillsAsSubmitted(orders, Cascade(b).fills)
    decreases |b.pending|
  {
    hide BookAsSubmitted, FillsAsSubmitted, MatchLive, Eligible;
    var i := FirstEligible(b.pending, b.last);
    if i == |b.pending| {
      NoFillsYet(orders);
    } else {
      MatchLivePool(b.(pending := Remove(b.pending, i)), GoLive(b.pending[i]));
      FireAsSubmitted(orders, b, i);
      CascadeAsSubmitted(orders, Fire(b, i).book);
      FillsTogether(orders, Fire(b, i).fills, Cascade(Fire(b, i).book).fills);
    }
  }

  lemma NoFillsYet(orders: seq<Order>)
    ensures FillsAsSubmitted(orders, [])
  {
  }

  /** Further submissions take nothing from what is known of earlier ones. */
  lemma MoreOrders(orders: seq<Order>, o: Order, b: Book, fills: seq<Fill>)
    requires BookAsSubmitted(orders, b) && FillsAsSubmitted(orders, fills)
    ensures BookAsSubmitted(orders + [o], b) && FillsAsSubmitted(orders + [o], fills)
  {
    assert forall k :: 0 <= k < |orders| ==> (orders + [o])[k] == orders[k];
  }

  lemma TakeInAsSubmitted(orders: seq<Order>, b: Book, o: Order)
    requires BookAsSubmitted(orders, b) && 1 <= o.id <= |orders| && o == orders[o.id - 1].(id := o.id)
    ensures BookAsSubmitted(orders, TakeIn(b, o).book) && FillsAsSubmitted(orders, TakeIn(b, o).fills)
  {
    hide MatchLive, QueueAsSubmitted, FillsAsSubmitted;
    NoFillsYet(orders);
    if !IsStop(o) { MatchLiveAsSubmitted(orders, b, o); }
  }

  lemma SubmitAsSubmitted(orders: seq<Order>, b: Book, o: Order)
    requires BookAsSubmitted(orders, b) && b.nextId == |orders| + 1
    ensures BookAsSubmitted(orders + [o], Submit(b, o).book) && FillsAsSubmitted(orders + [o], Submit(b, o).fills)
  {
    hide TakeIn, Cascade, FillsAsSubmitted, QueueAsSubmitted, ArmedAsSubmitted;
    var all, b0, o0 := orders + [o], b.(nextId := b.nextId + 1), o.(id := b.nextId);
    NoFillsYet(orders);
    MoreOrders(orders, o, b0, []);
    assert all[|orders|] == o;
    TakeInAsSubmitted(all, b0, o0);
    CascadeAsSubmitted(all, TakeIn(b0, o0).book);
    FillsTogether(all, TakeIn(b0, o0).fills, Cascade(TakeIn(b0, o0).book).fills);
  }

  lemma CancelAsSubmitted(orders: seq<Order>, b: Book, id: nat)
    requires BookAsSubmitted(orders, b)
    ensures BookAsSubmitted(orders, Cancel(b, id))
  {
    hide RestsAsSubmitted, ArmedAsSubmitted, DropResting, DropPending;
    var bids, asks := DropResting(b.bids, id), DropResting(b.asks, id);
    DropRestingMembers(b.bids, id);
    DropRestingMembers(b.asks, id);
    forall i | 0 <= i < |bids| ensures RestsAsSubmitted(orders, Buy, bids[i]) { assert bids[i] in bids; }
    forall i | 0 <= i < |asks| ensures RestsAsSubmitted(orders, Sell, asks[i]) { assert asks[i] in asks; }
    var i := DropPendingIsRemove(b.pending, id);
  }

  // ----- every run -----

  /** What the submissions of a run return, one after the other. */
  function ReturnedTrades(cs: seq<Command>): seq<Trade> {
    if cs == [] then []
    else
      var c := cs[|cs| - 1];
      ReturnedTrades(cs[..|cs| - 1])
      + (if c.SubmitOrder? then TradesOf(Submit(Run(EmptyBook, cs[..|cs| - 1]), c.order).fills) else [])
  }

  lemma TradesTogether(p: seq<Fill>, q: seq<Fill>)
    ensures TradesOf(p + q) == TradesOf(p) + TradesOf(q)
  {
  }

  lemma {:induction false} ReturnedTradesAreTheFills(cs: seq<Command>)
    requires WellFormedCommands(cs)
    ensures ReturnedTrades(cs) == TradesOf(RunLedger(cs).fills)
  {
    hide Submit, TradesOf, Inv;
    if cs == [] {
      NoTrades();
    } else {
      var before, c := cs[..|cs| - 1], cs[|cs| - 1];
      ReturnedTradesAreTheFills(before);
      match c {
        case SubmitOrder(o) => TradesTogether(RunLedger(before).fills, Submit(RunLedger(before).book, o).fills);
        case CancelOrder(_) => assert ReturnedTrades(before) + [] == ReturnedTrades(before);
      }
    }
  }

  lemma NoTrades()
    ensures TradesOf([]) == []
  {
  }

  /** Every order on a reachable book rests or is armed as it was submitted, and so were both orders of every fill. */
  lemma {:induction false} RunsKeepOrdersAsSubmitted(cs: seq<Command>)
    requires WellFormedCommands(cs)
    ensures BookAsSubmitted(SubmittedOrders(cs), Run(EmptyBook, cs))
    ensures FillsAsSubmitted(SubmittedOrders(cs), RunLedger(cs).fills)
    ensures Run(EmptyBook, cs).nextId == |SubmittedOrders(cs)| + 1
  {
    hide Submit, Cancel, Inv, BookAsSubmitted, FillsAsSubmitted;
    if cs == [] {
      NothingSubmitted();
    } else {
      var before, c := cs[..|cs| - 1], cs[|cs| - 1];
      var orders, l := SubmittedOrders(before), RunLedger(before);
      RunsKeepOrdersAsSubmitted(before);
      match c {
        case SubmitOrder(o) =>
          SubmitKeeps(l.book, o);
          SubmitAsSubmitted(orders, l.book, o);
          MoreOrders(orders, o, l.book, l.fills);
          FillsTogether(orders + [o], l.fills, Submit(l.book, o).fills);
        case CancelOrder(id) =>
          CancelKeeps(l.book, id);
          CancelAsSubmitted(orders, l.book, id);
          assert orders + [] == orders;
      }
    }
  }

  lemma NothingSubmitted()
    ensures BookAsSubmitted([], EmptyBook) && FillsAsSubmitted([], []) && Run(EmptyBook, []) == EmptyBook
  {
  }

  // ----- the account ledger -----

  /** Quantity of the trades that name the account as buyer, and as seller. */
  function Bought(trades: seq<Trade>, account: string): nat {
    if trades == [] then 0
    else (if trades[0].buyer == account then trades[0].quantity else 0) + Bought(trades[1..], account)
  }

  function Sold(trades: seq<Trade>, account: string): nat {
    if trades == [] then 0
    else (if trades[0].seller == account then trades[0].quantity else 0) + Sold(trades[1..], account)
  }

  /** The ids of an account's orders on one side. */
  ghost function IdsOf(orders: seq<Order>, account: string, side: Side): iset<nat> {
    iset id: nat | Owns(orders, id, account, side)
  }

  /** What these orders were filled for, arriving or resting. */
  ghost function FilledFor(fills: seq<Fill>, who: iset<nat>): nat {
    FilledAsAggressor(fills, who) + FilledResting(fills, who)
  }

  lemma HeadOfTrades(fills: seq<Fill>, account: string)
    requires fills != []
    ensures var t, rest := TradeOf(fills[0]), TradesOf(fills[1..]);
      && Bought(TradesOf(fills), account) == (if t.buyer == account then t.quantity else 0) + Bought(rest, account)
      && Sold(TradesOf(fills), account) == (if t.seller == account then t.quantity else 0) + Sold(rest, account)
  {
    hide TradeOf;
    assert TradesOf(fills)[1..] == TradesOf(fills[1..]);
  }

  lemma HeadOfFills(fills: seq<Fill>, who: iset<nat>)
    requires fills != []
    ensures FilledFor(fills, who)
         == (if fills[0].aggressor.id in who then fills[0].quantity else 0)
            + (if fills[0].resting.id in who then fills[0].quantity else 0)
            + FilledFor(fills[1..], who)
  {
  }

  lemma {:induction false} TradesNameTheOwners(orders: seq<Order>, fills: seq<Fill>, account: string)
    requires FillsAsSubmitted(orders, fills)
    ensures Bought(TradesOf(fills), account) == FilledFor(fills, IdsOf(orders, account, Buy))
    ensures Sold(TradesOf(fills), account) == FilledFor(fills, IdsOf(orders, account, Sell))
  {
    if fills != [] {
      hide Bought, Sold, FilledFor, TradesOf, FillsAsSubmitted;
      FillsTail(orders, fills);
      TradesNameTheOwners(orders, fills[1..], account);
      HeadOfTrades(fills, account);
      HeadOfFills(fills, IdsOf(orders, account, Buy));
      HeadOfFills(fills, IdsOf(orders, account, Sell));
    }
  }

  lemma FillsTail(orders: seq<Order>, fills: seq<Fill>)
    requires FillsAsSubmitted(orders, fills) && fills != []
    ensures FillAsSubmitted(orders, fills[0]) && FillsAsSubmitted(orders, fills[1..])
  {
  }

  /** Over any run, an account bought what its Buy orders were filled for and sold what its Sell orders were. */
  lemma AccountsTradeWhatTheirOrdersFilled(cs: seq<Command>, account: string)
    requires WellFormedCommands(cs)
    ensures var orders, fills := SubmittedOrders(cs), RunLedger(cs).fills;
      && Bought(ReturnedTrades(cs), account) == FilledFor(fills, IdsOf(orders, account, Buy))
      && Sold(ReturnedTrades(cs), account) == FilledFor(fills, IdsOf(orders, account, Sell))
  {
    hide TradesOf, FillsAsSubmitted, FilledFor;
    RunsKeepOrdersAsSubmitted(cs);
    ReturnedTradesAreTheFills(cs);
    TradesNameTheOwners(SubmittedOrders(cs), RunLedger(cs).fills, account);
  }

  /** One account, one side: submitted = traded + resting or armed + cancelled + dropped. */
  lemma AccountsBalance(cs: seq<Command>, account: string)
    requires WellFormedCommands(cs)
    ensures var l, buys := RunLedger(cs), IdsOf(SubmittedOrders(cs), account, Buy);
      Sum(l.submitted, buys)
        == Bought(ReturnedTrades(cs), account) + Live(l.book, buys) + Sum(l.cancelled, buys) + Sum(l.dropped, buys)
    ensures var l, sells := RunLedger(cs), IdsOf(SubmittedOrders(cs), account, Sell);
      Sum(l.submitted, sells)
        == Sold(ReturnedTrades(cs), account) + Live(l.book, sells) + Sum(l.cancelled, sells) + Sum(l.dropped, sells)
  {
    hide Sum, Live, IdsOf, FilledAsAggressor, FilledResting;
    AccountsTradeWhatTheirOrdersFilled(cs, account);
    RunsConserveQuantity(cs, IdsOf(SubmittedOrders(cs), account, Buy));
    RunsConserveQuantity(cs, IdsOf(SubmittedOrders(cs), account, Sell));
  }

  /** A trade against the two submitted orders it is between: names, price, quantity and aggressor. */
  ghost predicate TellsItsOrders(t: Trade, quantity: nat, arriving: Order, resting: Order) {
    && arriving.side != resting.side
    && t.price == resting.limitPrice && t.quantity == quantity
    && (t.isBuyAggressor <==> arriving.side == Buy)
    && t.buyer == (if arriving.side == Buy then arriving.account else resting.account)
    && t.seller == (if arriving.side == Buy then resting.account else arriving.account)
  }

  lemma EveryTradeTellsItsOrders(cs: seq<Command>, k: nat)
    requires WellFormedCommands(cs) && k < |ReturnedTrades(cs)|
    ensures |RunLedger(cs).fills| == |ReturnedTrades(cs)|
    ensures var f, orders := RunLedger(cs).fills[k], SubmittedOrders(cs);
      && 1 <= f.aggressor.id <= |orders| && 1 <= f.resting.id <= |orders|
      && TellsItsOrders(ReturnedTrades(cs)[k], f.quantity, orders[f.aggressor.id - 1], orders[f.resting.id - 1])
  {
    hide FillsAsSubmitted, RunLedger, ReturnedTrades, SubmittedOrders, TradesOf, TellsItsOrders, BookAsSubmitted, Run,
      WellFormedCommands;
    ReturnedTradesAreTheFills(cs);
    RunsKeepOrdersAsSubmitted(cs);
    OneTradeTellsItsOrders(SubmittedOrders(cs), RunLedger(cs).fills, k);
  }

  lemma OneTradeTellsItsOrders(orders: seq<Order>, fills: seq<Fill>, k: nat)
    requires FillsAsSubmitted(orders, fills) && k < |fills|
    ensures var f := fills[k];
      && 1 <= f.aggressor.id <= |orders| && 1 <= f.resting.id <= |orders|
      && TellsItsOrders(TradesOf(fills)[k], f.quantity, orders[f.aggressor.id - 1], orders[f.resting.id - 1])
  {
    assert FillAsSubmitted(orders, fills[k]);
  }
}
