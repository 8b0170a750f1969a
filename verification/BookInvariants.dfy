/** What every reachable book keeps, and the small lemmas it rests on. */
module BookInvariants {
  import opened OrderTypes
  import opened BookSpec

  // ----- the invariant -----

  ghost predicate Sorted(side: Side, queue: seq<RestingOrder>) {
    forall i, j :: 0 <= i < j < |queue| ==> !Better(side, queue[j].limitPrice, queue[i].limitPrice)
  }

  ghost predicate Positive(queue: seq<RestingOrder>) {
    forall i :: 0 <= i < |queue| ==> queue[i].remaining > 0
  }

  ghost predicate Uncrossed(bids: seq<RestingOrder>, asks: seq<RestingOrder>) {
    forall i, j :: 0 <= i < |bids| && 0 <= j < |asks| ==> bids[i].limitPrice < asks[j].limitPrice
  }

  /** How often `id` occurs in a queue, in the pool of stops, and in the whole book. */
  ghost function RestingCount(queue: seq<RestingOrder>, id: nat): nat {
    if queue == [] then 0 else (if queue[0].id == id then 1 else 0) + RestingCount(queue[1..], id)
  }

  ghost function PendingCount(pending: seq<Order>, id: nat): nat {
    if pending == [] then 0 else (if pending[0].id == id then 1 else 0) + PendingCount(pending[1..], id)
  }

  ghost function Held(b: Book, id: nat): nat {
    RestingCount(b.bids, id) + RestingCount(b.asks, id) + PendingCount(b.pending, id)
  }

  /** No id is held twice, and every id held has been handed out. */
  ghost predicate DistinctIds(b: Book) {
    forall id: nat :: Held(b, id) <= 1 && (id >= b.nextId ==> Held(b, id) == 0)
  }

  ghost predicate ArmedPool(pending: seq<Order>) {
    && (forall i :: 0 <= i < |pending| ==> IsStop(pending[i]) && pending[i].stopTrigger.Some?)
    && (forall i, j :: 0 <= i < j < |pending| ==> pending[i].id < pending[j].id)
  }

  ghost predicate Sides(bids: seq<RestingOrder>, asks: seq<RestingOrder>) {
    && Sorted(Buy, bids) && Sorted(Sell, asks)
    && Positive(bids) && Positive(asks)
    && Uncrossed(bids, asks)
  }

  /** The invariant while a cascade is running: everything but "no armed stop is eligible". */
  ghost predicate Consistent(b: Book) {
    Sides(b.bids, b.asks) && DistinctIds(b) && ArmedPool(b.pending)
  }

  ghost predicate Quiescent(b: Book) {
    forall i :: 0 <= i < |b.pending| ==> !Eligible(b.pending[i], b.last)
  }

  ghost predicate Inv(b: Book) {
    Consistent(b) && Quiescent(b)
  }

  // ----- one sweep of the opposite side -----

  /** What is left is a suffix of the queue, its first order perhaps reduced. */
  ghost predicate SuffixOf(left: seq<RestingOrder>, queue: seq<RestingOrder>) {
    && |left| <= |queue|
    && forall i :: 0 <= i < |left| ==>
        var was := queue[|queue| - |left| + i];
        && left[i].limitPrice == was.limitPrice
        && 0 < left[i].remaining <= was.remaining
  }

  lemma {:induction false} ConsumeLeavesSuffix(queue: seq<RestingOrder>, o: Order, quantity: nat)
    requires Positive(queue)
    ensures SuffixOf(Consume(queue, o, quantity).queue, queue)
  {
    hide SuffixOf, Crosses;
    if quantity == 0 || queue == [] || !Crosses(o, queue[0].limitPrice) {
      SuffixOfItself(queue);
    } else if queue[0].remaining <= quantity {
      var tail := queue[1..];
      var left := Consume(tail, o, quantity - queue[0].remaining).queue;
      ConsumeLeavesSuffix(tail, o, quantity - queue[0].remaining);
      SuffixOfTail(left, queue);
    } else {
      SuffixReduced(queue, quantity);
    }
  }

  lemma SuffixOfItself(queue: seq<RestingOrder>)
    requires Positive(queue)
    ensures SuffixOf(queue, queue)
  {
  }

  lemma SuffixReduced(queue: seq<RestingOrder>, executed: nat)
    requires Positive(queue) && queue != [] && executed < queue[0].remaining
    ensures SuffixOf([queue[0].(remaining := queue[0].remaining - executed)] + queue[1..], queue)
  {
  }

  lemma SuffixOfTail(left: seq<RestingOrder>, queue: seq<RestingOrder>)
    requires queue != [] && SuffixOf(left, queue[1..])
    ensures SuffixOf(left, queue)
  {
    assert forall j :: 0 < j < |queue| ==> queue[j] == queue[1..][j - 1];
  }

  lemma {:induction false} ConsumeStops(queue: seq<RestingOrder>, o: Order, quantity: nat)
    ensures var s := Consume(queue, o, quantity);
      s.remainder > 0 ==> s.queue == [] || !Crosses(o, s.queue[0].limitPrice)
  {
    if quantity == 0 || queue == [] || !Crosses(o, queue[0].limitPrice) {
    } else if queue[0].remaining <= quantity {
      ConsumeStops(queue[1..], o, quantity - queue[0].remaining);
    }
  }

  lemma {:induction false} ConsumeCount(queue: seq<RestingOrder>, o: Order, quantity: nat, id: nat)
    ensures RestingCount(Consume(queue, o, quantity).queue, id) <= RestingCount(queue, id)
  {
    if quantity == 0 || queue == [] || !Crosses(o, queue[0].limitPrice) {
    } else if queue[0].remaining <= quantity {
      ConsumeCount(queue[1..], o, quantity - queue[0].remaining, id);
    } else {
      assert Consume(queue, o, quantity).queue[1..] == queue[1..];
    }
  }

  lemma SuffixKeepsSides(bids: seq<RestingOrder>, asks: seq<RestingOrder>, left: seq<RestingOrder>)
    requires Sides(bids, asks)
    ensures SuffixOf(left, bids) ==> Sides(left, asks)
    ensures SuffixOf(left, asks) ==> Sides(bids, left)
  {
  }

  // ----- an order joins its own side -----

  lemma {:induction false} EnqueueMembers(side: Side, queue: seq<RestingOrder>, r: RestingOrder)
    ensures forall x :: x in Enqueue(side, queue, r) <==> x in queue || x == r
  {
    if queue == [] || Better(side, r.limitPrice, queue[0].limitPrice) {
    } else {
      EnqueueMembers(side, queue[1..], r);
      assert queue == [queue[0]] + queue[1..];
    }
  }

  lemma {:induction false} EnqueueSorted(side: Side, queue: seq<RestingOrder>, r: RestingOrder)
    requires Sorted(side, queue)
    ensures Sorted(side, Enqueue(side, queue, r))
  {
    if queue == [] || Better(side, r.limitPrice, queue[0].limitPrice) {
    } else {
      EnqueueSorted(side, queue[1..], r);
      EnqueueMembers(side, queue[1..], r);
      var tail := Enqueue(side, queue[1..], r);
      forall j | 0 <= j < |tail| ensures !Better(side, tail[j].limitPrice, queue[0].limitPrice) {
        assert tail[j] in tail;
        if tail[j] != r {
          var k :| 1 <= k < |queue| && queue[k] == tail[j];
        }
      }
    }
  }

  lemma {:induction false} EnqueueCount(side: Side, queue: seq<RestingOrder>, r: RestingOrder, id: nat)
    ensures RestingCount(Enqueue(side, queue, r), id)
         == RestingCount(queue, id) + (if r.id == id then 1 else 0)
  {
    var after := Enqueue(side, queue, r);
    if queue == [] || Better(side, r.limitPrice, queue[0].limitPrice) {
      assert after[1..] == queue;
    } else {
      EnqueueCount(side, queue[1..], r, id);
      assert after[1..] == Enqueue(side, queue[1..], r);
    }
  }

  lemma EnqueueKeepsSides(bids: seq<RestingOrder>, asks: seq<RestingOrder>, o: Order, r: RestingOrder)
    requires Sides(bids, asks)
    requires o.orderType == Limit && r.limitPrice == o.limitPrice && r.remaining > 0
    requires var queue := if o.side == Buy then asks else bids;
      queue == [] || !Crosses(o, queue[0].limitPrice)
    ensures o.side == Buy ==> Sides(Enqueue(Buy, bids, r), asks)
    ensures o.side == Sell ==> Sides(bids, Enqueue(Sell, asks, r))
  {
    var own, other := if o.side == Buy then bids else asks, if o.side == Buy then asks else bids;
    var after := Enqueue(o.side, own, r);
    EnqueueMembers(o.side, own, r);
    EnqueueSorted(o.side, own, r);
    forall i | 0 <= i < |after|
      ensures after[i].remaining > 0
      ensures after[i] in own || after[i] == r
    {
      assert after[i] in after;
    }
    forall i, j | 0 <= i < |after| && 0 <= j < |other|
      ensures Better(o.side, other[j].limitPrice, after[i].limitPrice)
    {
      assert !Better(Opposite(o.side), other[j].limitPrice, other[0].limitPrice);
      if after[i] in own {
        var k :| 0 <= k < |own| && own[k] == after[i];
      }
    }
  }

  // ----- a live order -----

  lemma MatchLiveKeepsSides(b: Book, o: Order)
    requires Sides(b.bids, b.asks)
    ensures var b' := MatchLive(b, o).book;
      Sides(b'.bids, b'.asks) && b'.pending == b.pending && b'.nextId == b.nextId
  {
    var s := Consume(Resting(b, Opposite(o.side)), o, o.quantity);
    var b1 := WithResting(b, Opposite(o.side), s.queue);
    ConsumeLeavesSuffix(Resting(b, Opposite(o.side)), o, o.quantity);
    ConsumeStops(Resting(b, Opposite(o.side)), o, o.quantity);
    SuffixKeepsSides(b.bids, b.asks, s.queue);
    if s.remainder > 0 && o.orderType == Limit {
      EnqueueKeepsSides(b1.bids, b1.asks, o, RestingOrder(o.id, o.account, o.limitPrice, s.remainder));
    }
  }

  lemma MatchLiveCount(b: Book, o: Order, id: nat)
    ensures Held(MatchLive(b, o).book, id) <= Held(b, id) + (if o.id == id then 1 else 0)
  {
    hide Consume, Enqueue, RestingCount;
    var s := Consume(Resting(b, Opposite(o.side)), o, o.quantity);
    ConsumeCount(Resting(b, Opposite(o.side)), o, o.quantity, id);
    EnqueueCount(o.side, Resting(b, o.side), RestingOrder(o.id, o.account, o.limitPrice, s.remainder), id);
  }

  lemma MatchLivePool(b: Book, o: Order)
    ensures MatchLive(b, o).book.pending == b.pending
    ensures MatchLive(b, o).book.nextId == b.nextId
  {
  }

  // ----- the pool of stops -----

  lemma {:induction false} PendingCountAppend(p: seq<Order>, q: seq<Order>, id: nat)
    ensures PendingCount(p + q, id) == PendingCount(p, id) + PendingCount(q, id)
  {
    if p == [] {
      assert p + q == q;
    } else {
      assert (p + q)[1..] == p[1..] + q;
      PendingCountAppend(p[1..], q, id);
    }
  }

  lemma RemoveCount(p: seq<Order>, i: nat, id: nat)
    requires i < |p|
    ensures PendingCount(p, id) == PendingCount(Remove(p, i), id) + (if p[i].id == id then 1 else 0)
  {
    assert p == p[..i] + p[i..];
    assert p[i..][1..] == p[i + 1..];
    PendingCountAppend(p[..i], p[i..], id);
    PendingCountAppend(p[..i], p[i + 1..], id);
  }

  lemma {:induction false} PendingHas(pending: seq<Order>, id: nat)
    ensures HasPending(pending, id) <==> PendingCount(pending, id) > 0
  {
    if pending != [] {
      PendingHas(pending[1..], id);
      if HasPending(pending, id) && pending[0].id != id {
        var i :| 0 <= i < |pending| && pending[i].id == id;
        assert pending[1..][i - 1].id == id;
      }
    }
  }

  lemma {:induction false} RestingHas(queue: seq<RestingOrder>, id: nat)
    ensures HasResting(queue, id) <==> RestingCount(queue, id) > 0
  {
    if queue != [] {
      RestingHas(queue[1..], id);
      if HasResting(queue, id) && queue[0].id != id {
        var i :| 0 <= i < |queue| && queue[i].id == id;
        assert queue[1..][i - 1].id == id;
      }
    }
  }

  lemma KnownIsHeld(b: Book, id: nat)
    ensures Known(b, id) <==> Held(b, id) > 0
  {
    RestingHas(b.bids, id);
    RestingHas(b.asks, id);
    PendingHas(b.pending, id);
  }

  // ----- the cascade -----

  /** A stop leaves the pool for good: it goes live under its own id, which nothing else holds. */
  lemma FireKeeps(b: Book, i: nat)
    requires Consistent(b) && i < |b.pending|
    ensures Consistent(Fire(b, i).book)
    ensures forall id: nat :: Held(Fire(b, i).book, id) <= Held(b, id)
    ensures Fire(b, i).book.pending == Remove(b.pending, i)
    ensures Fire(b, i).book.nextId == b.nextId
  {
    var b0 := b.(pending := Remove(b.pending, i));
    var o := GoLive(b.pending[i]);
    MatchLiveKeepsSides(b0, o);
    forall id: nat ensures Held(Fire(b, i).book, id) <= Held(b, id) {
      RemoveCount(b.pending, i, id);
      MatchLiveCount(b0, o, id);
    }
  }

  lemma {:induction false} CascadeKeeps(b: Book)
    requires Consistent(b)
    ensures Inv(Cascade(b).book)
    ensures forall id: nat :: Held(Cascade(b).book, id) <= Held(b, id)
    ensures Cascade(b).book.nextId == b.nextId
    decreases |b.pending|
  {
    var i := FirstEligible(b.pending, b.last);
    if i == |b.pending| {
    } else {
      FireKeeps(b, i);
      CascadeKeeps(Fire(b, i).book);
    }
  }

  // ----- whole commands -----

  lemma TakeInKeeps(b: Book, o: Order)
    requires Inv(b) && WellFormed(o)
    ensures var first := TakeIn(b.(nextId := b.nextId + 1), o.(id := b.nextId)).book;
      && Consistent(first)
      && first.nextId == b.nextId + 1
      && forall id: nat :: id != b.nextId ==> Held(first, id) <= Held(b, id)
  {
    var b0 := b.(nextId := b.nextId + 1);
    var o0 := o.(id := b.nextId);
    var first := TakeIn(b0, o0).book;
    assert Held(b, b.nextId) == 0;
    forall id: nat ensures Held(first, id) <= Held(b, id) + (if id == b.nextId then 1 else 0) {
      MatchLiveCount(b0, o0, id);
      PendingCountAppend(b.pending, [o0], id);
    }
    if IsStop(o) {
      forall i | 0 <= i < |b.pending| ensures b.pending[i].id < b.nextId {
        PendingHas(b.pending, b.pending[i].id);
        assert Held(b, b.pending[i].id) > 0;
      }
    } else {
      MatchLiveKeepsSides(b0, o0);
    }
  }

  lemma SubmitKeeps(b: Book, o: Order)
    requires Inv(b) && WellFormed(o)
    ensures Inv(Submit(b, o).book)
    ensures Submit(b, o).book.nextId == b.nextId + 1
    ensures forall id: nat :: id != b.nextId ==> Held(Submit(b, o).book, id) <= Held(b, id)
  {
    hide Cascade, TakeIn, Sides, DistinctIds, ArmedPool;
    TakeInKeeps(b, o);
    CascadeKeeps(TakeIn(b.(nextId := b.nextId + 1), o.(id := b.nextId)).book);
  }

  lemma {:induction false} DropRestingMembers(queue: seq<RestingOrder>, id: nat)
    ensures forall x :: x in DropResting(queue, id) <==> x in queue && x.id != id
  {
    if queue != [] {
      DropRestingMembers(queue[1..], id);
      assert queue == [queue[0]] + queue[1..];
    }
  }

  lemma {:induction false} DropRestingSorted(side: Side, queue: seq<RestingOrder>, id: nat)
    requires Sorted(side, queue)
    ensures Sorted(side, DropResting(queue, id))
  {
    if queue != [] {
      DropRestingSorted(side, queue[1..], id);
      DropRestingMembers(queue[1..], id);
      var rest := DropResting(queue[1..], id);
      forall j | 0 <= j < |rest| ensures !Better(side, rest[j].limitPrice, queue[0].limitPrice) {
        assert rest[j] in rest;
        var k :| 1 <= k < |queue| && queue[k] == rest[j];
      }
    }
  }

  lemma {:induction false} DropRestingCount(queue: seq<RestingOrder>, id: nat, other: nat)
    ensures RestingCount(DropResting(queue, id), other)
         == if other == id then 0 else RestingCount(queue, other)
  {
    if queue != [] {
      DropRestingCount(queue[1..], id, other);
      if queue[0].id == id {
        assert DropResting(queue, id) == DropResting(queue[1..], id);
      } else {
        assert DropResting(queue, id)[1..] == DropResting(queue[1..], id);
      }
    }
  }

  lemma {:induction false} DropPendingIsRemove(pending: seq<Order>, id: nat) returns (i: nat)
    ensures i <= |pending|
    ensures i == |pending| <==> !HasPending(pending, id)
    ensures i == |pending| ==> DropPending(pending, id) == pending
    ensures i < |pending| ==> pending[i].id == id && DropPending(pending, id) == Remove(pending, i)
  {
    if pending == [] || pending[0].id == id {
      i := 0;
    } else {
      var k := DropPendingIsRemove(pending[1..], id);
      PendingHas(pending, id);
      PendingHas(pending[1..], id);
      i := k + 1;
    }
  }

  lemma DropRestingKeepsSides(bids: seq<RestingOrder>, asks: seq<RestingOrder>, id: nat)
    requires Sides(bids, asks)
    ensures Sides(DropResting(bids, id), asks) && Sides(bids, DropResting(asks, id))
  {
    var left, right := DropResting(bids, id), DropResting(asks, id);
    DropRestingSorted(Buy, bids, id);
    DropRestingSorted(Sell, asks, id);
    DropRestingMembers(bids, id);
    DropRestingMembers(asks, id);
    forall i | 0 <= i < |left| ensures left[i] in bids { assert left[i] in left; }
    forall i | 0 <= i < |right| ensures right[i] in asks { assert right[i] in right; }
  }

  lemma CancelCount(b: Book, id: nat, other: nat)
    requires Held(b, id) <= 1
    ensures Held(Cancel(b, id), other) == if other == id then 0 else Held(b, other)
  {
    RestingHas(b.bids, id);
    RestingHas(b.asks, id);
    PendingHas(b.pending, id);
    DropRestingCount(b.bids, id, other);
    DropRestingCount(b.asks, id, other);
    var i := DropPendingIsRemove(b.pending, id);
    if i < |b.pending| { RemoveCount(b.pending, i, other); }
  }

  lemma CancelKeepsPool(b: Book, id: nat)
    requires ArmedPool(b.pending) && Quiescent(b)
    ensures ArmedPool(Cancel(b, id).pending) && Quiescent(Cancel(b, id))
  {
    hide DropPending;
    var i := DropPendingIsRemove(b.pending, id);
  }

  lemma CancelKeepsSides(b: Book, id: nat)
    requires Sides(b.bids, b.asks)
    ensures Sides(Cancel(b, id).bids, Cancel(b, id).asks)
  {
    DropRestingKeepsSides(b.bids, b.asks, id);
  }

  lemma CancelKeeps(b: Book, id: nat)
    requires Inv(b)
    ensures Inv(Cancel(b, id))
    ensures forall other: nat :: Held(Cancel(b, id), other) == if other == id then 0 else Held(b, other)
    ensures Cancel(b, id).nextId == b.nextId
  {
    CancelKeepsPool(b, id);
    CancelKeepsSides(b, id);
    forall other: nat
      ensures Held(Cancel(b, id), other) == if other == id then 0 else Held(b, other)
    {
      CancelCount(b, id, other);
    }
    assert DistinctIds(Cancel(b, id));
  }

  lemma ApplyKeeps(b: Book, c: Command)
    requires Inv(b) && WellFormedCommand(c)
    ensures Inv(Apply(b, c).book)
    ensures b.nextId <= Apply(b, c).book.nextId
    ensures forall id: nat :: id < b.nextId && Held(b, id) == 0 ==> Held(Apply(b, c).book, id) == 0
  {
    match c
    case SubmitOrder(o) => SubmitKeeps(b, o);
    case CancelOrder(id) => CancelKeeps(b, id);
  }

  lemma EmptyBookInv()
    ensures Inv(EmptyBook)
    ensures forall id: nat :: Held(EmptyBook, id) == 0
  {
  }

  /** Every book reached by any run of commands from a book that keeps the invariant. */
  lemma {:induction false} RunKeepsInv(b: Book, cs: seq<Command>)
    requires Inv(b) && WellFormedCommands(cs)
    ensures Inv(Run(b, cs))
    ensures b.nextId <= Run(b, cs).nextId
  {
    if cs == [] {
    } else {
      RunKeepsInv(b, cs[..|cs| - 1]);
      ApplyKeeps(Run(b, cs[..|cs| - 1]), cs[|cs| - 1]);
    }
  }

  /** The reachable books: started empty, then any run of submissions and cancellations. */
  lemma ReachableBooksKeepInv(cs: seq<Command>)
    requires WellFormedCommands(cs)
    ensures Inv(Run(EmptyBook, cs))
  {
    EmptyBookInv();
    RunKeepsInv(EmptyBook, cs);
  }
}
