/** What one sweep does, said without following the sweep: prefix, quantities, and where it stops. */
module Matching {
  import opened OrderTypes
  import opened BookSpec
  import opened BookInvariants

  /** Quantity resting ahead of position `i`. */
  ghost function Ahead(queue: seq<RestingOrder>, i: nat): nat
    requires i <= |queue|
  {
    if i == 0 then 0 else queue[0].remaining + Ahead(queue[1..], i - 1)
  }

  /** Total quantity an order could trade against at its limit, whatever the order of the queue. */
  ghost function Liquidity(queue: seq<RestingOrder>, o: Order): nat {
    if queue == [] then 0
    else (if Crosses(o, queue[0].limitPrice) then queue[0].remaining else 0) + Liquidity(queue[1..], o)
  }

  ghost function Executed(fills: seq<Fill>): nat {
    if fills == [] then 0 else fills[0].quantity + Executed(fills[1..])
  }

  /** Position `i` is reached: its price crosses and the orders ahead do not use the quantity up. */
  ghost predicate Reached(queue: seq<RestingOrder>, o: Order, quantity: nat, i: nat)
    requires i < |queue|
  {
    Crosses(o, queue[i].limitPrice) && Ahead(queue, i) < quantity
  }

  lemma {:induction false} FillAt(queue: seq<RestingOrder>, o: Order, quantity: nat, i: nat)
    requires Positive(queue) && i < |Consume(queue, o, quantity).fills|
    ensures i < |queue| && Reached(queue, o, quantity, i)
    ensures Consume(queue, o, quantity).fills[i]
         == Fill(o, queue[i], Min(queue[i].remaining, quantity - Ahead(queue, i)))
  {
    if i > 0 {
      FillAt(queue[1..], o, quantity - queue[0].remaining, i - 1);
    }
  }

  lemma {:induction false} SweepStopsAt(queue: seq<RestingOrder>, o: Order, quantity: nat)
    requires Positive(queue)
    ensures var n := |Consume(queue, o, quantity).fills|;
      n <= |queue| && (n < |queue| ==> !Reached(queue, o, quantity, n))
  {
    if quantity == 0 || queue == [] || !Crosses(o, queue[0].limitPrice) {
    } else if quantity < queue[0].remaining {
      if |queue| > 1 { AheadStep(queue, 0); }
    } else {
      SweepStopsAt(queue[1..], o, quantity - queue[0].remaining);
    }
  }

  /** The queue once `n` orders were reached and the last of them traded `traded`. */
  ghost function After(queue: seq<RestingOrder>, n: nat, traded: nat): seq<RestingOrder>
    requires n <= |queue|
  {
    if n > 0 && traded < queue[n - 1].remaining
    then [queue[n - 1].(remaining := queue[n - 1].remaining - traded)] + queue[n..]
    else queue[n..]
  }

  ghost function LastTraded(fills: seq<Fill>): nat {
    if fills == [] then 0 else fills[|fills| - 1].quantity
  }

  lemma {:induction false} LeftAfterSweep(queue: seq<RestingOrder>, o: Order, quantity: nat)
    requires Positive(queue)
    ensures var s := Consume(queue, o, quantity);
      |s.fills| <= |queue| && s.queue == After(queue, |s.fills|, LastTraded(s.fills))
  {
    hide Crosses;
    if quantity == 0 || queue == [] || !Crosses(o, queue[0].limitPrice) {
    } else if quantity < queue[0].remaining {
    } else {
      var left := quantity - queue[0].remaining;
      LeftAfterSweep(queue[1..], o, left);
      var fills := Consume(queue[1..], o, left).fills;
      AfterTail(queue, |fills|, if fills == [] then queue[0].remaining else LastTraded(fills));
    }
  }

  lemma AfterTail(queue: seq<RestingOrder>, n: nat, traded: nat)
    requires n < |queue| && (n == 0 ==> traded == queue[0].remaining)
    ensures After(queue, n + 1, traded) == After(queue[1..], n, traded)
  {
    assert queue[1..][n..] == queue[n + 1..];
  }

  /**
   The fills are those of a prefix of the queue, each as large as what the orders ahead leave;
   the queue keeps the rest of the last order reached and everything behind it; and the prefix is
   the longest one that is reached.
   */
  lemma SweepFillsAPrefix(queue: seq<RestingOrder>, o: Order, quantity: nat)
    requires Positive(queue)
    ensures var s := Consume(queue, o, quantity);
      var n := |s.fills|;
      && n <= |queue|
      && (forall i :: 0 <= i < n ==>
            && Reached(queue, o, quantity, i)
            && s.fills[i] == Fill(o, queue[i], Min(queue[i].remaining, quantity - Ahead(queue, i))))
      && (n < |queue| ==> !Reached(queue, o, quantity, n))
      && s.queue == After(queue, n, LastTraded(s.fills))
  {
    SweepStopsAt(queue, o, quantity);
    LeftAfterSweep(queue, o, quantity);
    forall i | 0 <= i < |Consume(queue, o, quantity).fills|
      ensures Reached(queue, o, quantity, i)
      ensures Consume(queue, o, quantity).fills[i]
           == Fill(o, queue[i], Min(queue[i].remaining, quantity - Ahead(queue, i)))
    {
      FillAt(queue, o, quantity, i);
    }
  }

  /** Price-time priority: whoever is ahead of a filled order is filled completely. */
  lemma AheadIsFilledFirst(queue: seq<RestingOrder>, o: Order, quantity: nat, i: nat, j: nat)
    requires Positive(queue)
    requires i < j < |Consume(queue, o, quantity).fills|
    ensures i < |queue| && Consume(queue, o, quantity).fills[i].resting == queue[i]
    ensures Consume(queue, o, quantity).fills[i].quantity == queue[i].remaining
  {
    SweepFillsAPrefix(queue, o, quantity);
    AheadGrows(queue, i + 1, j);
    AheadStep(queue, i);
  }

  lemma {:induction false} AheadStep(queue: seq<RestingOrder>, i: nat)
    requires i < |queue|
    ensures Ahead(queue, i + 1) == Ahead(queue, i) + queue[i].remaining
  {
    if i > 0 { AheadStep(queue[1..], i - 1); }
  }

  lemma {:induction false} AheadGrows(queue: seq<RestingOrder>, i: nat, j: nat)
    requires i <= j <= |queue|
    ensures Ahead(queue, i) <= Ahead(queue, j)
  {
    if i < j {
      AheadGrows(queue, i, j - 1);
      AheadStep(queue, j - 1);
    }
  }

  /**
   On a sorted side the sweep trades all it can: the executed quantity is the order's quantity or
   all the liquidity at its limit, whichever is less, and nothing that crosses is left if any of the
   order is left.
   */
  lemma {:induction false} SweepTradesAllItCan(queue: seq<RestingOrder>, o: Order, quantity: nat)
    requires Sorted(Opposite(o.side), queue) && Positive(queue)
    ensures var s := Consume(queue, o, quantity);
      && Executed(s.fills) == Min(quantity, Liquidity(queue, o))
      && s.remainder == quantity - Executed(s.fills)
      && Liquidity(s.queue, o) == Liquidity(queue, o) - Executed(s.fills)
  {
    if quantity == 0 || queue == [] {
    } else if !Crosses(o, queue[0].limitPrice) {
      NoLiquidityBehind(queue, o);
    } else if quantity < queue[0].remaining {
      var s := Consume(queue, o, quantity);
      assert s.queue[1..] == queue[1..];
      assert s.fills[1..] == [];
    } else {
      SweepTradesAllItCan(queue[1..], o, quantity - queue[0].remaining);
      var s := Consume(queue, o, quantity);
      assert s.fills[1..] == Consume(queue[1..], o, quantity - queue[0].remaining).fills;
    }
  }

  lemma {:induction false} NoLiquidityBehind(queue: seq<RestingOrder>, o: Order)
    requires Sorted(Opposite(o.side), queue)
    requires queue != [] ==> !Crosses(o, queue[0].limitPrice)
    ensures Liquidity(queue, o) == 0
  {
    if queue != [] { NoLiquidityBehind(queue[1..], o); }
  }

  /** Time priority: a newcomer stands behind all orders of its price or better, ahead of the rest. */
  lemma {:induction false} EnqueueKeepsArrivalOrder(side: Side, queue: seq<RestingOrder>, r: RestingOrder)
    returns (k: nat)
    requires Sorted(side, queue)
    ensures k <= |queue|
    ensures Enqueue(side, queue, r) == queue[..k] + [r] + queue[k..]
    ensures forall i :: 0 <= i < |queue| ==> (i < k <==> !Better(side, r.limitPrice, queue[i].limitPrice))
  {
    if queue == [] || Better(side, r.limitPrice, queue[0].limitPrice) {
      k := 0;
    } else {
      var k' := EnqueueKeepsArrivalOrder(side, queue[1..], r);
      k := k' + 1;
      assert queue[..k] == [queue[0]] + queue[1..][..k'];
    }
  }

  /** Price protection: a limit order never trades beyond its limit, and whatever it does not trade rests in full. */
  ghost predicate HonoursLimit(e: Effect, o: Order) {
    && (forall k :: 0 <= k < |e.fills| ==>
          var price := e.fills[k].resting.limitPrice;
          if o.side == Buy then price <= o.limitPrice else price >= o.limitPrice)
    && e.dropped == []
    && Executed(e.fills) <= o.quantity
    && (Executed(e.fills) < o.quantity ==>
          RestingOrder(o.id, o.account, o.limitPrice, o.quantity - Executed(e.fills)) in Resting(e.book, o.side))
  }

  lemma FillsWithinLimit(queue: seq<RestingOrder>, o: Order, quantity: nat)
    requires Positive(queue) && o.orderType == Limit
    ensures forall k :: 0 <= k < |Consume(queue, o, quantity).fills| ==>
      var price := Consume(queue, o, quantity).fills[k].resting.limitPrice;
      if o.side == Buy then price <= o.limitPrice else price >= o.limitPrice
  {
    hide Consume;
    forall k | 0 <= k < |Consume(queue, o, quantity).fills|
      ensures Crosses(o, Consume(queue, o, quantity).fills[k].resting.limitPrice)
    {
      FillAt(queue, o, quantity, k);
    }
  }

  lemma LimitOrdersHonourTheirLimit(b: Book, o: Order)
    requires Sides(b.bids, b.asks) && o.orderType == Limit
    ensures HonoursLimit(MatchLive(b, o), o)
  {
    hide Consume, Enqueue, Liquidity, Executed;
    var queue := Resting(b, Opposite(o.side));
    var s := Consume(queue, o, o.quantity);
    FillsWithinLimit(queue, o, o.quantity);
    SweepTradesAllItCan(queue, o, o.quantity);
    if s.remainder > 0 {
      var r := RestingOrder(o.id, o.account, o.limitPrice, s.remainder);
      EnqueueMembers(o.side, Resting(b, o.side), r);
      assert r in Resting(MatchLive(b, o).book, o.side);
    }
  }

  /** A market order takes whatever price there is, never rests, and drops what the other side cannot fill. */
  lemma MarketOrdersNeverRest(b: Book, o: Order)
    requires Sides(b.bids, b.asks) && o.orderType == Market
    ensures var e := MatchLive(b, o);
      && Resting(e.book, o.side) == Resting(b, o.side)
      && Executed(e.fills) == Min(o.quantity, Ahead(Resting(b, Opposite(o.side)), |Resting(b, Opposite(o.side))|))
      && e.dropped == (if Executed(e.fills) < o.quantity then [Leftover(o.id, o.quantity - Executed(e.fills))] else [])
  {
    SweepTradesAllItCan(Resting(b, Opposite(o.side)), o, o.quantity);
    AllIsLiquid(Resting(b, Opposite(o.side)), o);
  }

  lemma {:induction false} AllIsLiquid(queue: seq<RestingOrder>, o: Order)
    requires o.orderType == Market
    ensures Liquidity(queue, o) == Ahead(queue, |queue|)
  {
    if queue != [] { AllIsLiquid(queue[1..], o); }
  }
}
