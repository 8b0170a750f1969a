/** What becomes of an order under its id: looked up, cancelled, and gone for good. */
module OrderLifecycle {
  import opened OrderTypes
  import opened BookSpec
  import opened BookInvariants

  function FindResting(queue: seq<RestingOrder>, id: nat): (found: Option<RestingOrder>)
    ensures found.Some? <==> HasResting(queue, id)
    ensures found.Some? ==> found.value in queue && found.value.id == id
  {
    if queue == [] then None
    else if queue[0].id == id then Some(queue[0])
    else
      assert queue == [queue[0]] + queue[1..];
      FindResting(queue[1..], id)
  }

  function FindPending(pending: seq<Order>, id: nat): (found: Option<Order>)
    ensures found.Some? <==> HasPending(pending, id)
    ensures found.Some? ==> found.value in pending && found.value.id == id
  {
    if pending == [] then None
    else if pending[0].id == id then Some(pending[0])
    else
      assert pending == [pending[0]] + pending[1..];
      FindPending(pending[1..], id)
  }

  function Query(b: Book, id: nat): OrderStatus
    requires ArmedPool(b.pending)
  {
    match FindResting(b.bids, id)
    case Some(r) => RestingLimit(Buy, r.limitPrice, r.remaining)
    case None =>
      match FindResting(b.asks, id)
      case Some(r) => RestingLimit(Sell, r.limitPrice, r.remaining)
      case None =>
        match FindPending(b.pending, id)
        case Some(o) => PendingStop(o.side, o.stopTrigger.value, o.quantity)
        case None => NotFound
  }

  /** A cancellation succeeds exactly when a status query finds the order. */
  lemma CancellableIffFound(b: Book, id: nat)
    requires ArmedPool(b.pending)
    ensures Known(b, id) <==> Query(b, id) != NotFound
  {
  }

  /** `after` is `before` without its one element at position `i`, order otherwise kept. */
  ghost predicate WithoutOne<T>(before: seq<T>, after: seq<T>, i: nat) {
    i < |before| && after == before[..i] + before[i + 1..]
  }

  lemma {:induction false} DropRestingRemovesOne(queue: seq<RestingOrder>, id: nat) returns (i: nat)
    requires RestingCount(queue, id) == 1
    ensures i < |queue| && queue[i].id == id && WithoutOne(queue, DropResting(queue, id), i)
  {
    if queue[0].id == id {
      i := 0;
      DropRestingAbsent(queue[1..], id);
    } else {
      var k := DropRestingRemovesOne(queue[1..], id);
      i := k + 1;
    }
  }

  lemma {:induction false} DropRestingAbsent(queue: seq<RestingOrder>, id: nat)
    requires RestingCount(queue, id) == 0
    ensures DropResting(queue, id) == queue
  {
    if queue != [] { DropRestingAbsent(queue[1..], id); }
  }

  /** Exactly the named order goes; the other two collections and all other positions stay. */
  lemma CancelRemovesExactlyOne(b: Book, id: nat) returns (i: nat)
    requires Inv(b) && Known(b, id)
    ensures var c := Cancel(b, id);
      && c.last == b.last && c.nextId == b.nextId
      && if HasResting(b.bids, id) then
           WithoutOne(b.bids, c.bids, i) && b.bids[i].id == id && c.asks == b.asks && c.pending == b.pending
         else if HasResting(b.asks, id) then
           WithoutOne(b.asks, c.asks, i) && b.asks[i].id == id && c.bids == b.bids && c.pending == b.pending
         else
           WithoutOne(b.pending, c.pending, i) && b.pending[i].id == id && c.bids == b.bids && c.asks == b.asks
  {
    RestingHas(b.bids, id);
    RestingHas(b.asks, id);
    assert Held(b, id) <= 1;
    if HasResting(b.bids, id) {
      i := DropRestingRemovesOne(b.bids, id);
    } else if HasResting(b.asks, id) {
      i := DropRestingRemovesOne(b.asks, id);
    } else {
      i := DropPendingIsRemove(b.pending, id);
    }
  }

  /** Cancelling an unknown id changes nothing. */
  lemma CancelUnknownIsANoOp(b: Book, id: nat)
    requires !Known(b, id)
    ensures Cancel(b, id) == b
  {
    var i := DropPendingIsRemove(b.pending, id);
  }

  /** Once an id that was handed out is not found, no later run of commands brings it back. */
  lemma {:induction false} GoneForGood(b: Book, cs: seq<Command>, id: nat)
    requires Inv(b) && WellFormedCommands(cs)
    requires id < b.nextId && Query(b, id) == NotFound
    ensures Inv(Run(b, cs)) && Query(Run(b, cs), id) == NotFound
  {
    KnownIsHeld(b, id);
    if cs == [] {
    } else {
      var before := cs[..|cs| - 1];
      GoneForGood(b, before, id);
      RunKeepsInv(b, before);
      KnownIsHeld(Run(b, before), id);
      ApplyKeeps(Run(b, before), cs[|cs| - 1]);
      KnownIsHeld(Run(b, cs), id);
    }
  }

  // ----- what a status says -----

  lemma {:induction false} FoundAt(queue: seq<RestingOrder>, i: nat)
    requires i < |queue| && RestingCount(queue, queue[i].id) <= 1
    ensures FindResting(queue, queue[i].id) == Some(queue[i])
  {
    if i > 0 {
      RestingHas(queue[1..], queue[i].id);
      assert queue[1..][i - 1] == queue[i];
      FoundAt(queue[1..], i - 1);
    }
  }

  lemma {:induction false} ArmedFoundAt(pending: seq<Order>, i: nat)
    requires i < |pending| && PendingCount(pending, pending[i].id) <= 1
    ensures FindPending(pending, pending[i].id) == Some(pending[i])
  {
    if i > 0 {
      PendingHas(pending[1..], pending[i].id);
      assert pending[1..][i - 1] == pending[i];
      ArmedFoundAt(pending[1..], i - 1);
    }
  }

  /** An order with these terms stands on this side of the book. */
  ghost predicate StandsAt(queue: seq<RestingOrder>, id: nat, limit: int, remaining: nat) {
    exists i :: 0 <= i < |queue| && queue[i].id == id && queue[i].limitPrice == limit && queue[i].remaining == remaining
  }

  ghost predicate IsArmed(pending: seq<Order>, id: nat, side: Side, trigger: int, quantity: nat) {
    exists i :: 0 <= i < |pending| && pending[i].id == id && pending[i].side == side
                && pending[i].stopTrigger == Some(trigger) && pending[i].quantity == quantity
  }

  lemma StandsMeansFound(queue: seq<RestingOrder>, id: nat, limit: int, remaining: nat)
    requires RestingCount(queue, id) <= 1
    ensures StandsAt(queue, id, limit, remaining) <==>
      FindResting(queue, id).Some? && FindResting(queue, id).value.limitPrice == limit
      && FindResting(queue, id).value.remaining == remaining
  {
    if StandsAt(queue, id, limit, remaining) {
      var i :| 0 <= i < |queue| && queue[i].id == id && queue[i].limitPrice == limit && queue[i].remaining == remaining;
      FoundAt(queue, i);
    }
  }

  lemma ArmedMeansFound(pending: seq<Order>, id: nat, side: Side, trigger: int, quantity: nat)
    requires PendingCount(pending, id) <= 1
    ensures IsArmed(pending, id, side, trigger, quantity) <==>
      FindPending(pending, id).Some? && FindPending(pending, id).value.side == side
      && FindPending(pending, id).value.stopTrigger == Some(trigger)
      && FindPending(pending, id).value.quantity == quantity
  {
    if IsArmed(pending, id, side, trigger, quantity) {
      var i :| 0 <= i < |pending| && pending[i].id == id && pending[i].side == side
               && pending[i].stopTrigger == Some(trigger) && pending[i].quantity == quantity;
      ArmedFoundAt(pending, i);
    }
  }

  /** A resting status names side, limit and remaining quantity of the one order that has the id. */
  lemma RestingStatusIsExact(b: Book, id: nat, side: Side, limit: int, remaining: nat)
    requires Inv(b)
    ensures Query(b, id) == RestingLimit(side, limit, remaining) <==> StandsAt(Resting(b, side), id, limit, remaining)
  {
    hide Sides, Quiescent, FindResting, FindPending, StandsAt, RestingCount, PendingCount;
    assert Held(b, id) <= 1;
    StandsMeansFound(Resting(b, side), id, limit, remaining);
    RestingHas(b.bids, id);
    RestingHas(b.asks, id);
  }

  /** An armed status names side, trigger and quantity of the one armed stop that has the id. */
  lemma ArmedStatusIsExact(b: Book, id: nat, side: Side, trigger: int, quantity: nat)
    requires Inv(b)
    ensures Query(b, id) == PendingStop(side, trigger, quantity) <==> IsArmed(b.pending, id, side, trigger, quantity)
  {
    hide Sides, Quiescent, FindResting, FindPending, IsArmed, RestingCount, PendingCount;
    assert Held(b, id) <= 1;
    ArmedMeansFound(b.pending, id, side, trigger, quantity);
    RestingHas(b.bids, id);
    RestingHas(b.asks, id);
    PendingHas(b.pending, id);
    ArmedTriggers(b.pending, id);
  }

  lemma ArmedTriggers(pending: seq<Order>, id: nat)
    requires ArmedPool(pending)
    ensures FindPending(pending, id).Some? ==> FindPending(pending, id).value.stopTrigger.Some?
  {
  }
}
