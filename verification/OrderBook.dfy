/**
 The order book as the engine runs it: two sorted maps of queues, a pool of armed stops, the last
 traded price and the id counter, updated in place. Every method is proved against module BookSpec.
 */
module OrderBook {
  import opened OrderTypes
  import opened BookSpec
  import opened BookInvariants
  import opened OrderLifecycle
  import opened PriceLevels
  import opened Depth
  import opened StopCascade

  // ----- one turn of the inner matching loop, on the queue -----

  ghost function Prepend(fills: seq<Fill>, s: Sweep): Sweep {
    Sweep(fills + s.fills, s.queue, s.remainder)
  }

  function Reduced(r: RestingOrder, executed: nat): RestingOrder
    requires executed <= r.remaining
  {
    r.(remaining := r.remaining - executed)
  }

  /** `all` is the sweep that the loops have to produce: what is done, then the sweep of what is left. */
  ghost predicate Sweeping(all: Sweep, fills: seq<Fill>, queue: seq<RestingOrder>, o: Order, quantity: nat) {
    all == Prepend(fills, Consume(queue, o, quantity))
  }

  lemma SweepStarts(queue: seq<RestingOrder>, o: Order, quantity: nat)
    ensures Sweeping(Consume(queue, o, quantity), [], queue, o, quantity) && TradesOf([]) == []
  {
  }

  /**
   One turn moves one fill from what is still to be swept (`level` and everything behind it) to what has been
   done.
   */
  lemma MatchStep(all: Sweep, fills: seq<Fill>, level: seq<RestingOrder>, tail: seq<RestingOrder>, o: Order,
      quantity: nat)
    requires level != [] && quantity > 0 && Crosses(o, level[0].limitPrice)
    requires Sweeping(all, fills, level + tail, o, quantity)
    ensures var executed := Min(quantity, level[0].remaining);
      var fill := Fill(o, level[0], executed);
      var left := if executed == level[0].remaining then level[1..] else [Reduced(level[0], executed)] + level[1..];
      && Sweeping(all, fills + [fill], left + tail, o, quantity - executed)
      && TradesOf(fills + [fill]) == TradesOf(fills) + [TradeOf(fill)]
  {
    hide Crosses, TradesOf;
    var executed := Min(quantity, level[0].remaining);
    var fill := Fill(o, level[0], executed);
    TradesOfAppend(fills, [fill]);
    TradesOfOne(fill);
    assert (level + tail)[0] == level[0] && (level + tail)[1..] == level[1..] + tail;
    if executed == level[0].remaining {
      WholeOrderSwept(fills, fill, Consume(level[1..] + tail, o, quantity - executed));
    } else {
      var left := [Reduced(level[0], executed)] + (level[1..] + tail);
      assert [Reduced(level[0], executed)] + level[1..] + tail == left;
      assert Consume(left, o, 0) == Sweep([], left, 0);
      assert fills + [fill] + [] == fills + [fill];
    }
  }

  lemma WholeOrderSwept(fills: seq<Fill>, fill: Fill, rest: Sweep)
    ensures Prepend(fills, Sweep([fill] + rest.fills, rest.queue, rest.remainder)) == Prepend(fills + [fill], rest)
  {
    assert fills + ([fill] + rest.fills) == (fills + [fill]) + rest.fills;
  }

  lemma TradesOfOne(fill: Fill)
    ensures TradesOf([fill]) == [TradeOf(fill)]
  {
  }

  lemma TradesOfAppend(p: seq<Fill>, q: seq<Fill>)
    ensures TradesOf(p + q) == TradesOf(p) + TradesOf(q)
  {
  }

  class OrderBookCore {
    var nextOrderSequenceNumber: nat
    var restingBuyOrders: Levels
    var restingSellOrders: Levels
    var pendingStopOrders: seq<Order>
    var lastTradedPrice: Option<int>

    ghost predicate Keyed()
      reads this
    {
      WellKeyed(restingBuyOrders) && WellKeyed(restingSellOrders)
    }

    /** The book as two priority queues. */
    ghost function View(): Book
      reads this
    {
      Book(Flatten(Buy, restingBuyOrders), Flatten(Sell, restingSellOrders),
           pendingStopOrders, lastTradedPrice, nextOrderSequenceNumber)
    }

    ghost predicate Valid()
      reads this
    {
      Keyed() && Inv(View())
    }

    constructor ()
      ensures Valid() && View() == EmptyBook
    {
      nextOrderSequenceNumber := 1;
      restingBuyOrders := map[];
      restingSellOrders := map[];
      pendingStopOrders := [];
      lastTradedPrice := None;
      new;
      EmptyBookInv();
    }

    method SubmitIncomingOrder(incoming: Order) returns (outcome: SubmissionOutcome)
      requires Valid() && WellFormed(incoming)
      modifies this
      ensures Valid()
      ensures View() == Submit(old(View()), incoming).book
      ensures outcome.trades == TradesOf(Submit(old(View()), incoming).fills)
      ensures outcome.assignedId == old(View()).nextId
    {
      hide Cascade, MatchLive, Sides, DistinctIds, Quiescent, Flatten, WellKeyed, TradesOf;
      ghost var before := View();
      ghost var first := TakeIn(before.(nextId := before.nextId + 1), incoming.(id := before.nextId));
      TakeInKeeps(before, incoming);
      SubmitKeeps(before, incoming);

      var assignedId := AllocateNextOrderSequenceNumber();
      var order := incoming.(id := assignedId);
      var trades: seq<Trade> := [];
      if order.orderType == StopLossLimit || order.orderType == StopLossMarket {
        pendingStopOrders := pendingStopOrders + [order];
      } else {
        trades := MatchAndRecordLastPrice(order);
      }
      var cascaded := TriggerAnyEligiblePendingStopOrders();
      TradesOfAppend(first.fills, Cascade(first.book).fills);
      outcome := SubmissionOutcome(trades + cascaded, assignedId);
    }

    method AllocateNextOrderSequenceNumber() returns (id: nat)
      requires Keyed()
      modifies this`nextOrderSequenceNumber
      ensures Keyed() && id == old(nextOrderSequenceNumber)
      ensures View() == old(View()).(nextId := id + 1)
    {
      id := nextOrderSequenceNumber;
      nextOrderSequenceNumber := nextOrderSequenceNumber + 1;
    }

    method MatchAndRecordLastPrice(order: Order) returns (trades: seq<Trade>)
      requires Keyed()
      modifies this`restingBuyOrders, this`restingSellOrders, this`lastTradedPrice
      ensures Keyed()
      ensures View() == MatchLive(old(View()), order).book
      ensures trades == TradesOf(MatchLive(old(View()), order).fills)
    {
      hide Consume, Enqueue, Flatten, WellKeyed;
      if order.side == Buy {
        trades := MatchIncomingBuyOrder(order);
      } else {
        trades := MatchIncomingSellOrder(order);
      }
      if trades != [] {
        lastTradedPrice := Some(trades[|trades| - 1].price);
      }
    }

    /** Consumes the sell side from its lowest price up, then rests what is left of a limit order. */
    method MatchIncomingBuyOrder(incoming: Order) returns (trades: seq<Trade>)
      requires Keyed() && incoming.side == Buy
      modifies this`restingBuyOrders, this`restingSellOrders
      ensures Keyed()
      ensures var e := MatchLive(old(View()), incoming);
        View() == e.book.(last := lastTradedPrice) && trades == TradesOf(e.fills)
      ensures NamesBothSides(incoming, trades, MatchLive(old(View()), incoming).fills)
    {
      hide Consume, Enqueue, Flatten, TradesOf, Sweeping, NamesBothSides;
      trades := [];
      var quantity: nat := incoming.quantity;
      ghost var all := Consume(Flatten(Sell, restingSellOrders), incoming, quantity);
      ghost var fills: seq<Fill> := [];
      SweepStarts(Flatten(Sell, restingSellOrders), incoming, quantity);
      while restingSellOrders.Keys != {}
            && (incoming.orderType == Market || BestPrice(Sell, restingSellOrders.Keys) <= incoming.limitPrice)
            && quantity > 0
        invariant WellKeyed(restingSellOrders) && restingBuyOrders == old(restingBuyOrders)
        invariant Sweeping(all, fills, Flatten(Sell, restingSellOrders), incoming, quantity)
        invariant trades == TradesOf(fills)
        decreases quantity, restingSellOrders.Keys
      {
        var best := BestPrice(Sell, restingSellOrders.Keys);
        var level := restingSellOrders[best];
        ghost var tail := Flatten(Sell, restingSellOrders - {best});
        ghost var quantityBefore := quantity;
        FlattenBest(Sell, restingSellOrders, level);
        while quantity > 0 && level != []
          invariant AllAt(level, best)
          invariant Sweeping(all, fills, level + tail, incoming, quantity)
          invariant trades == TradesOf(fills)
          invariant quantity <= quantityBefore
          modifies {}
          decreases quantity + |level|
        {
          var oldest := level[0];
          var executed := Min(quantity, oldest.remaining);
          MatchStep(all, fills, level, tail, incoming, quantity);
          trades := trades + [Trade(incoming.account, oldest.account, best, executed, true)];
          fills := fills + [Fill(incoming, oldest, executed)];
          quantity := quantity - executed;
          level := [Reduced(oldest, executed)] + level[1..];
          if level[0].remaining == 0 {
            level := level[1..];
          }
        }
        LevelWorked(Sell, restingSellOrders, best, level);
        restingSellOrders := restingSellOrders[best := level];
        if level == [] {
          restingSellOrders := restingSellOrders - {best};
        }
      }
      SweepEnds(all, fills, Sell, restingSellOrders, incoming, quantity);
      if quantity > 0 && incoming.orderType == Limit {
        RestRemainingBuyOrder(incoming, quantity);
      }
      SweepTrades(old(View()), incoming);
    }

    /** The mirror image: consumes the buy side from its highest price down. */
    method MatchIncomingSellOrder(incoming: Order) returns (trades: seq<Trade>)
      requires Keyed() && incoming.side == Sell
      modifies this`restingBuyOrders, this`restingSellOrders
      ensures Keyed()
      ensures var e := MatchLive(old(View()), incoming);
        View() == e.book.(last := lastTradedPrice) && trades == TradesOf(e.fills)
      ensures NamesBothSides(incoming, trades, MatchLive(old(View()), incoming).fills)
    {
      hide Consume, Enqueue, Flatten, TradesOf, Sweeping, NamesBothSides;
      trades := [];
      var quantity: nat := incoming.quantity;
      ghost var all := Consume(Flatten(Buy, restingBuyOrders), incoming, quantity);
      ghost var fills: seq<Fill> := [];
      SweepStarts(Flatten(Buy, restingBuyOrders), incoming, quantity);
      while restingBuyOrders.Keys != {}
            && (incoming.orderType == Market || BestPrice(Buy, restingBuyOrders.Keys) >= incoming.limitPrice)
            && quantity > 0
        invariant WellKeyed(restingBuyOrders) && restingSellOrders == old(restingSellOrders)
        invariant Sweeping(all, fills, Flatten(Buy, restingBuyOrders), incoming, quantity)
        invariant trades == TradesOf(fills)
        decreases quantity, restingBuyOrders.Keys
      {
        var best := BestPrice(Buy, restingBuyOrders.Keys);
        var level := restingBuyOrders[best];
        ghost var tail := Flatten(Buy, restingBuyOrders - {best});
        ghost var quantityBefore := quantity;
        FlattenBest(Buy, restingBuyOrders, level);
        while quantity > 0 && level != []
          invariant AllAt(level, best)
          invariant Sweeping(all, fills, level + tail, incoming, quantity)
          invariant trades == TradesOf(fills)
          invariant quantity <= quantityBefore
          modifies {}
          decreases quantity + |level|
        {
          var oldest := level[0];
          var executed := Min(quantity, oldest.remaining);
          MatchStep(all, fills, level, tail, incoming, quantity);
          trades := trades + [Trade(oldest.account, incoming.account, best, executed, false)];
          fills := fills + [Fill(incoming, oldest, executed)];
          quantity := quantity - executed;
          level := [Reduced(oldest, executed)] + level[1..];
          if level[0].remaining == 0 {
            level := level[1..];
          }
        }
        LevelWorked(Buy, restingBuyOrders, best, level);
        restingBuyOrders := restingBuyOrders[best := level];
        if level == [] {
          restingBuyOrders := restingBuyOrders - {best};
        }
      }
      SweepEnds(all, fills, Buy, restingBuyOrders, incoming, quantity);
      if quantity > 0 && incoming.orderType == Limit {
        RestRemainingSellOrder(incoming, quantity);
      }
      SweepTrades(old(View()), incoming);
    }

    method RestRemainingBuyOrder(remaining: Order, quantity: nat)
      requires Keyed()
      modifies this`restingBuyOrders
      ensures Keyed()
      ensures var r := RestingOrder(remaining.id, remaining.account, remaining.limitPrice, quantity);
        View() == old(View()).(bids := Enqueue(Buy, old(View()).bids, r))
    {
      var r := RestingOrder(remaining.id, remaining.account, remaining.limitPrice, quantity);
      FlattenAddOrder(Buy, restingBuyOrders, r);
      restingBuyOrders := AddOrder(restingBuyOrders, r);
    }

    method RestRemainingSellOrder(remaining: Order, quantity: nat)
      requires Keyed()
      modifies this`restingSellOrders
      ensures Keyed()
      ensures var r := RestingOrder(remaining.id, remaining.account, remaining.limitPrice, quantity);
        View() == old(View()).(asks := Enqueue(Sell, old(View()).asks, r))
    {
      var r := RestingOrder(remaining.id, remaining.account, remaining.limitPrice, quantity);
      FlattenAddOrder(Sell, restingSellOrders, r);
      restingSellOrders := AddOrder(restingSellOrders, r);
    }

    /** Fires stops until a full scan of the pool finds none to fire. */
    method TriggerAnyEligiblePendingStopOrders() returns (trades: seq<Trade>)
      requires Keyed()
      requires forall i :: 0 <= i < |pendingStopOrders| ==> pendingStopOrders[i].stopTrigger.Some?
      modifies this`restingBuyOrders, this`restingSellOrders, this`pendingStopOrders, this`lastTradedPrice
      ensures Keyed()
      ensures View() == Cascade(old(View())).book
      ensures trades == TradesOf(Cascade(old(View())).fills)
      ensures lastTradedPrice.Some? ==>
        forall k :: 0 <= k < |pendingStopOrders| ==> !Touches(lastTradedPrice.value, pendingStopOrders[k])
    {
      hide MatchLive, Cascade, Flatten, WellKeyed, TradesOf, Remove, Touches;
      trades := [];
      ghost var all := Cascade(View());
      ghost var fills: seq<Fill> := [];
      while lastTradedPrice.Some?
        invariant Keyed()
        invariant forall i :: 0 <= i < |pendingStopOrders| ==> pendingStopOrders[i].stopTrigger.Some?
        invariant all.book == Cascade(View()).book && all.fills == fills + Cascade(View()).fills
        invariant trades == TradesOf(fills)
        decreases |pendingStopOrders|
      {
        var i := FirstTriggered(pendingStopOrders, lastTradedPrice.value);
        if i == |pendingStopOrders| { break; }
        RemoveMembers(pendingStopOrders, i);
        ghost var fired := Fire(View(), i);
        CascadeTurn(View(), i, fills);
        var triggered := pendingStopOrders[i];
        pendingStopOrders := Remove(pendingStopOrders, i);
        var produced := MatchAndRecordLastPrice(GoLive(triggered));
        trades, fills := trades + produced, fills + fired.fills;
      }
      CascadeDone(View());
      assert fills + [] == fills;
    }

    /** Position of the first stop that the price triggers, or the length of the pool. */
    static method FirstTriggered(pending: seq<Order>, price: int) returns (i: nat)
      requires forall k :: 0 <= k < |pending| ==> pending[k].stopTrigger.Some?
      ensures i == FirstEligible(pending, Some(price))
      ensures i <= |pending| && (i < |pending| ==> Touches(price, pending[i]))
      ensures forall k :: 0 <= k < i ==> !Touches(price, pending[k])
    {
      i := 0;
      while i < |pending| && !Triggered(pending[i], price)
        invariant i <= |pending|
        invariant forall k :: 0 <= k < i ==> !Triggered(pending[k], price)
      {
        i := i + 1;
      }
    }

    // ----- cancel and query -----

    method CancelOrder(id: nat) returns (cancelled: bool)
      requires Valid()
      modifies this
      ensures Valid()
      ensures View() == Cancel(old(View()), id)
      ensures cancelled <==> Known(old(View()), id)
    {
      hide Flatten, WellKeyed, Sides, Quiescent, ArmedPool, DropResting, DropPending;
      ghost var before := View();
      CancelKeeps(before, id);
      assert Held(before, id) <= 1;
      var left: Levels;
      left, cancelled := RemoveFromRestingMap(Buy, restingBuyOrders, id);
      restingBuyOrders := left;
      if cancelled { return; }
      left, cancelled := RemoveFromRestingMap(Sell, restingSellOrders, id);
      restingSellOrders := left;
      if cancelled { return; }
      var i := PositionOf(pendingStopOrders, id);
      DropPendingAt(pendingStopOrders, i, id);
      cancelled := i < |pendingStopOrders|;
      if cancelled { pendingStopOrders := Remove(pendingStopOrders, i); }
    }

    static method PositionOf(pending: seq<Order>, id: nat) returns (i: nat)
      ensures i <= |pending| && (i < |pending| ==> pending[i].id == id)
      ensures forall k :: 0 <= k < i ==> pending[k].id != id
    {
      i := 0;
      while i < |pending| && pending[i].id != id
        invariant i <= |pending|
        invariant forall k :: 0 <= k < i ==> pending[k].id != id
      {
        i := i + 1;
      }
    }

    /** Scans the levels from the lowest price up and stops at the first one that holds the id. */
    static method RemoveFromRestingMap(ghost side: Side, m: Levels, id: nat) returns (left: Levels, removed: bool)
      requires WellKeyed(m) && RestingCount(Flatten(side, m), id) <= 1
      ensures WellKeyed(left) && Flatten(side, left) == DropResting(Flatten(side, m), id)
      ensures removed <==> HasResting(Flatten(side, m), id)
      ensures !removed ==> left == m
    {
      left, removed := m, false;
      FlattenHas(side, m, id);
      var toVisit := m.Keys;
      while toVisit != {}
        invariant toVisit <= m.Keys
        invariant forall p :: p in m && p !in toVisit ==> !HasResting(m[p], id)
      {
        var p := BestPrice(Sell, toVisit);
        toVisit := toVisit - {p};
        var kept := Retain(m[p], id);
        RestingHas(m[p], id);
        if |kept| != |m[p]| {
          RestingHas(m[p], id);
          FlattenDrop(side, m, p, id);
          DropKeepsKeys(m, p, id);
          left, removed := if kept == [] then m - {p} else m[p := kept], true;
          return;
        }
      }
      RestingHas(Flatten(side, m), id);
      DropRestingAbsent(Flatten(side, m), id);
    }

    static method Retain(queue: seq<RestingOrder>, id: nat) returns (kept: seq<RestingOrder>)
      ensures kept == DropResting(queue, id)
      ensures |kept| == |queue| - RestingCount(queue, id)
    {
      kept := [];
      var i := 0;
      while i < |queue|
        invariant i <= |queue|
        invariant kept == DropResting(queue[..i], id)
      {
        if queue[i].id != id { kept := kept + [queue[i]]; }
        assert queue[..i + 1] == queue[..i] + [queue[i]];
        DropRestingAppend(queue[..i], [queue[i]], id);
        i := i + 1;
      }
      assert queue[..i] == queue;
      DropRestingLength(queue, id);
    }

    method QueryOrderStatus(id: nat) returns (status: OrderStatus)
      requires Valid()
      ensures status == Query(View(), id)
    {
      hide Flatten, WellKeyed, Sides, Quiescent, FindResting, FindPending;
      assert Held(View(), id) <= 1;
      var found := FindInRestingMap(Buy, restingBuyOrders, id);
      if found.Some? { return RestingLimit(Buy, found.value.0, found.value.1); }
      found := FindInRestingMap(Sell, restingSellOrders, id);
      if found.Some? { return RestingLimit(Sell, found.value.0, found.value.1); }
      var i := PositionOf(pendingStopOrders, id);
      FindPendingAt(pendingStopOrders, i, id);
      if i < |pendingStopOrders| {
        var o := pendingStopOrders[i];
        return PendingStop(o.side, o.stopTrigger.value, o.quantity);
      }
      return NotFound;
    }

    static method FindInRestingMap(ghost side: Side, m: Levels, id: nat) returns (found: Option<(int, nat)>)
      requires WellKeyed(m) && RestingCount(Flatten(side, m), id) <= 1
      ensures found == match FindResting(Flatten(side, m), id)
                       case Some(r) => Some((r.limitPrice, r.remaining))
                       case None => None
    {
      FlattenHas(side, m, id);
      var toVisit := m.Keys;
      while toVisit != {}
        invariant toVisit <= m.Keys
        invariant forall p :: p in m && p !in toVisit ==> !HasResting(m[p], id)
      {
        var p := BestPrice(Sell, toVisit);
        toVisit := toVisit - {p};
        var r := FindResting(m[p], id);
        if r.Some? {
          FlattenMembers(side, m, r.value);
          FoundIsUnique(Flatten(side, m), id, r.value);
          return Some((p, r.value.remaining));
        }
      }
      return None;
    }

    // ----- depth -----

    /** Both sides from the lowest price up, buy side first, each line with its side flag. */
    method CurrentBookDepthSnapshot() returns (snapshot: seq<(bool, DepthLevel)>)
      requires Keyed()
      ensures snapshot == Flagged(true, Reversed(DepthOf(View().bids))) + Flagged(false, DepthOf(View().asks))
      ensures var bids, asks := DepthOf(View().bids), DepthOf(View().asks);
        && |snapshot| == |bids| + |asks|
        && (forall i :: 0 <= i < |bids| ==> snapshot[i] == (true, bids[|bids| - 1 - i]))
        && (forall i :: 0 <= i < |asks| ==> snapshot[|bids| + i] == (false, asks[i]))
    {
      hide DepthOf, Flatten, Flagged, Reversed;
      var bids := LevelsAscending(restingBuyOrders);
      var asks := LevelsAscending(restingSellOrders);
      LevelListReversed(Buy, restingBuyOrders);
      LevelListIsDepth(Buy, restingBuyOrders);
      LevelListIsDepth(Sell, restingSellOrders);
      snapshot := Flagged(true, bids) + Flagged(false, asks);
      LinesAt(DepthOf(View().bids), DepthOf(View().asks));
    }

    static method LevelsAscending(m: Levels) returns (levels: seq<DepthLevel>)
      ensures levels == LevelList(Sell, m)
    {
      levels := [];
      var left := m;
      while left.Keys != {}
        invariant left.Keys <= m.Keys && forall p :: p in left ==> left[p] == m[p]
        invariant LevelList(Sell, m) == levels + LevelList(Sell, left)
        decreases left.Keys
      {
        var p := BestPrice(Sell, left.Keys);
        levels := levels + [DepthLevel(p, Total(left[p]))];
        left := left - {p};
      }
    }
  }

  function Flagged(isBid: bool, levels: seq<DepthLevel>): (lines: seq<(bool, DepthLevel)>)
    ensures |lines| == |levels|
  {
    seq(|levels|, i requires 0 <= i < |levels| => (isBid, levels[i]))
  }

  lemma LinesAt(bids: seq<DepthLevel>, asks: seq<DepthLevel>)
    ensures var lines := Flagged(true, Reversed(bids)) + Flagged(false, asks);
      && |lines| == |bids| + |asks|
      && (forall i :: 0 <= i < |bids| ==> lines[i] == (true, bids[|bids| - 1 - i]))
      && (forall i :: 0 <= i < |asks| ==> lines[|bids| + i] == (false, asks[i]))
  {
    hide Reversed;
    ReversedAt(bids);
  }

  /** The queue worked on goes back to its level, and the level goes when it is empty. */
  lemma LevelWorked(side: Side, m: Levels, p: int, level: seq<RestingOrder>)
    requires WellKeyed(m) && IsBest(side, m.Keys, p) && AllAt(level, p)
    ensures var m' := if level == [] then m[p := level] - {p} else m[p := level];
      && WellKeyed(m')
      && Flatten(side, m') == level + Flatten(side, m - {p})
      && (if level == [] then m'.Keys < m.Keys else m'.Keys == m.Keys)
  {
    hide Flatten;
    OnlyOneBest(side, m.Keys, p);
    FlattenBest(side, m, level);
    if level == [] {
      assert m[p := level] - {p} == m - {p};
      assert [] + Flatten(side, m - {p}) == Flatten(side, m - {p});
    }
  }

  lemma RemoveMembers(pending: seq<Order>, i: nat)
    requires i < |pending|
    ensures |Remove(pending, i)| == |pending| - 1
    ensures forall k :: 0 <= k < |Remove(pending, i)| ==> Remove(pending, i)[k] in pending
  {
  }

  lemma CascadeDone(b: Book)
    requires b.last.None? || FirstEligible(b.pending, b.last) == |b.pending|
    ensures Cascade(b) == Effect(b, [], [])
  {
  }

  lemma CascadeTurn(b: Book, i: nat, fills: seq<Fill>)
    requires i == FirstEligible(b.pending, b.last) < |b.pending|
    ensures var fired := Fire(b, i);
      && Cascade(b).book == Cascade(fired.book).book
      && fills + Cascade(b).fills == (fills + fired.fills) + Cascade(fired.book).fills
      && TradesOf(fills + fired.fills) == TradesOf(fills) + TradesOf(fired.fills)
  {
    hide MatchLive, Eligible, TradesOf, Cascade;
    var fired := Fire(b, i);
    CascadeUnfolds(b, i);
    TradesOfAppend(fills, fired.fills);
    assert fills + (fired.fills + Cascade(fired.book).fills) == (fills + fired.fills) + Cascade(fired.book).fills;
  }

  lemma CascadeUnfolds(b: Book, i: nat)
    requires i == FirstEligible(b.pending, b.last) < |b.pending|
    ensures Cascade(b).book == Cascade(Fire(b, i).book).book
    ensures Cascade(b).fills == Fire(b, i).fills + Cascade(Fire(b, i).book).fills
  {
    hide MatchLive, Eligible;
    MatchLivePool(b.(pending := Remove(b.pending, i)), GoLive(b.pending[i]));
  }

  lemma NothingToConsume(side: Side, m: Levels, o: Order, quantity: nat)
    requires WellKeyed(m) && side == Opposite(o.side)
    requires m.Keys == {} || quantity == 0 || !Crosses(o, BestPrice(side, m.Keys))
    ensures Consume(Flatten(side, m), o, quantity) == Sweep([], Flatten(side, m), quantity)
  {
    FlattenPrices(side, m);
  }

  /** Each trade of an arriving order, field by field: its account on its own side, the resting price. */
  ghost predicate NamesBothSides(o: Order, trades: seq<Trade>, fills: seq<Fill>) {
    && |trades| == |fills|
    && forall k :: 0 <= k < |trades| ==>
         && trades[k].price == fills[k].resting.limitPrice
         && trades[k].quantity == fills[k].quantity
         && (trades[k].isBuyAggressor <==> o.side == Buy)
         && trades[k].buyer == (if o.side == Buy then o.account else fills[k].resting.account)
         && trades[k].seller == (if o.side == Buy then fills[k].resting.account else o.account)
  }

  /** Every fill is the arriving order's. */
  ghost predicate AllBy(fills: seq<Fill>, o: Order) {
    forall k :: 0 <= k < |fills| ==> fills[k].aggressor == o
  }

  lemma {:induction false} SweepAggressor(queue: seq<RestingOrder>, o: Order, quantity: nat)
    ensures AllBy(Consume(queue, o, quantity).fills, o)
  {
    hide Crosses;
    if quantity == 0 || queue == [] || !Crosses(o, queue[0].limitPrice) {
    } else if queue[0].remaining <= quantity {
      SweepAggressor(queue[1..], o, quantity - queue[0].remaining);
    }
  }

  lemma SweepTrades(b: Book, o: Order)
    ensures NamesBothSides(o, TradesOf(MatchLive(b, o).fills), MatchLive(b, o).fills)
  {
    hide Consume, Enqueue;
    SweepAggressor(Resting(b, Opposite(o.side)), o, o.quantity);
    assert AllBy(MatchLive(b, o).fills, o);
  }

  lemma SweepEnds(all: Sweep, fills: seq<Fill>, side: Side, m: Levels, o: Order, quantity: nat)
    requires WellKeyed(m) && side == Opposite(o.side)
    requires m.Keys == {} || quantity == 0 || !Crosses(o, BestPrice(side, m.Keys))
    requires Sweeping(all, fills, Flatten(side, m), o, quantity)
    ensures all == Sweep(fills, Flatten(side, m), quantity)
  {
    hide Flatten, Consume, WellKeyed;
    NothingToConsume(side, m, o, quantity);
    assert fills + [] == fills;
  }

  lemma {:induction false} DropPendingAt(pending: seq<Order>, i: nat, id: nat)
    requires i <= |pending| && (i < |pending| ==> pending[i].id == id)
    requires forall k :: 0 <= k < i ==> pending[k].id != id
    ensures DropPending(pending, id) == if i < |pending| then Remove(pending, i) else pending
  {
    if i > 0 {
      DropPendingAt(pending[1..], i - 1, id);
      if i < |pending| { RemoveInTail(pending, i); } else { assert [pending[0]] + pending[1..] == pending; }
    } else if pending != [] {
      assert pending[..0] + pending[1..] == pending[1..];
    }
  }

  lemma RemoveInTail(pending: seq<Order>, i: nat)
    requires 0 < i < |pending|
    ensures Remove(pending, i) == [pending[0]] + Remove(pending[1..], i - 1)
  {
    assert pending[..i] == [pending[0]] + pending[1..][..i - 1];
    assert pending[1..][i..] == pending[i + 1..];
  }

  lemma {:induction false} FindPendingAt(pending: seq<Order>, i: nat, id: nat)
    requires i <= |pending| && (i < |pending| ==> pending[i].id == id)
    requires forall k :: 0 <= k < i ==> pending[k].id != id
    ensures FindPending(pending, id) == if i < |pending| then Some(pending[i]) else None
  {
    if i > 0 { FindPendingAt(pending[1..], i - 1, id); }
  }

  lemma {:induction false} DropRestingLength(queue: seq<RestingOrder>, id: nat)
    ensures |DropResting(queue, id)| == |queue| - RestingCount(queue, id)
  {
    if queue != [] { DropRestingLength(queue[1..], id); }
  }
}
