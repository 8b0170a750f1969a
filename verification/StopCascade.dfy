/** The cascade of triggered stops, firing by firing. */
module StopCascade {
  import opened OrderTypes
  import opened BookSpec
  import opened BookInvariants
  import opened Matching

  /** One turn of the cascade: the book it found, and the position of the stop it fired. */
  datatype Firing = Firing(before: Book, index: nat)

  ghost function Firings(b: Book): seq<Firing>
    decreases |b.pending|
  {
    var i := FirstEligible(b.pending, b.last);
    if i == |b.pending| then [] else [Firing(b, i)] + Firings(Fire(b, i).book)
  }

  ghost predicate InRange(f: Firing) {
    f.index < |f.before.pending|
  }

  ghost function Stop(f: Firing): Order
    requires InRange(f)
  {
    f.before.pending[f.index]
  }

  ghost function BookAfterFiring(f: Firing): Book
    requires InRange(f)
  {
    Fire(f.before, f.index).book
  }

  /** The price touches the stop's trigger: from above for a sell stop, from below for a buy stop. */
  predicate Touches(price: int, o: Order) {
    o.stopTrigger.Some? && (if o.side == Buy then o.stopTrigger.value <= price else price <= o.stopTrigger.value)
  }

  /** Fires the lowest id among the stops whose trigger the last price of that moment touches. */
  ghost predicate FiresLowestEligible(f: Firing) {
    && InRange(f)
    && f.before.last.Some?
    && Touches(f.before.last.value, Stop(f))
    && forall o :: o in f.before.pending && Touches(f.before.last.value, o) ==> Stop(f).id <= o.id
  }

  lemma EligibleMeansTouched(o: Order, last: Option<int>)
    ensures Eligible(o, last) <==> last.Some? && Touches(last.value, o)
  {
  }

  /** The firings follow one another from `b` to `end`. */
  ghost predicate Chained(b: Book, firings: seq<Firing>, end: Book) {
    && (forall k :: 0 <= k < |firings| ==> InRange(firings[k]))
    && (if firings == [] then end == b
        else firings[0].before == b && BookAfterFiring(firings[|firings| - 1]) == end)
    && (forall k :: 0 < k < |firings| ==> firings[k].before == BookAfterFiring(firings[k - 1]))
  }

  lemma RemoveAt(pending: seq<Order>, i: nat, k: nat)
    requires i < |pending| && k < |Remove(pending, i)|
    ensures |Remove(pending, i)| == |pending| - 1
    ensures Remove(pending, i)[k] == pending[if k < i then k else k + 1]
  {
  }

  lemma RemoveShorter(pending: seq<Order>, i: nat)
    requires i < |pending|
    ensures |Remove(pending, i)| == |pending| - 1
  {
  }

  lemma FirePool(b: Book, i: nat)
    requires i < |b.pending| && ArmedPool(b.pending)
    ensures Fire(b, i).book.pending == Remove(b.pending, i)
    ensures ArmedPool(Remove(b.pending, i))
    ensures forall o :: o in Remove(b.pending, i) ==> o in b.pending && o.id != b.pending[i].id
  {
    hide MatchLive, Remove, ArmedPool;
    MatchLivePool(b.(pending := Remove(b.pending, i)), GoLive(b.pending[i]));
    RemoveKeepsPool(b.pending, i);
  }

  lemma RemoveKeepsPool(pending: seq<Order>, i: nat)
    requires i < |pending| && ArmedPool(pending)
    ensures ArmedPool(Remove(pending, i))
    ensures forall o :: o in Remove(pending, i) ==> o in pending && o.id != pending[i].id
  {
    hide Remove;
    var rest := Remove(pending, i);
    RemoveShorter(pending, i);
    forall k | 0 <= k < |rest| ensures rest[k] == pending[if k < i then k else k + 1] { RemoveAt(pending, i, k); }
    forall o | o in rest ensures o in pending && o.id != pending[i].id {
      var k :| 0 <= k < |rest| && rest[k] == o;
      assert o == pending[if k < i then k else k + 1];
    }
  }

  lemma FirstEligibleIsLowest(b: Book)
    requires ArmedPool(b.pending) && FirstEligible(b.pending, b.last) < |b.pending|
    ensures FiresLowestEligible(Firing(b, FirstEligible(b.pending, b.last)))
  {
    var i := FirstEligible(b.pending, b.last);
    forall o | o in b.pending && Eligible(o, b.last) ensures b.pending[i].id <= o.id {
      var j :| 0 <= j < |b.pending| && b.pending[j] == o;
    }
  }

  /** Each turn fires the lowest eligible id, the turns follow one another, and none is left at the end. */
  lemma {:induction false} CascadeFiresLowestFirst(b: Book)
    requires ArmedPool(b.pending)
    ensures Chained(b, Firings(b), Cascade(b).book)
    ensures forall k :: 0 <= k < |Firings(b)| ==> FiresLowestEligible(Firings(b)[k])
    ensures Quiescent(Cascade(b).book)
    ensures |Firings(b)| + |Cascade(b).book.pending| == |b.pending|
    decreases |b.pending|
  {
    hide Fire, ArmedPool, Eligible, Chained, FiresLowestEligible;
    var i := FirstEligible(b.pending, b.last);
    if i == |b.pending| {
      NothingChained(b);
    } else {
      FirePool(b, i);
      FirstEligibleIsLowest(b);
      var next := Fire(b, i).book;
      CascadeFiresLowestFirst(next);
      ChainedOn(b, i, Firings(next), Cascade(next).book);
    }
  }

  lemma NothingChained(b: Book)
    ensures Chained(b, [], b)
  {
  }

  lemma ChainedOn(b: Book, i: nat, firings: seq<Firing>, end: Book)
    requires i < |b.pending| && Chained(Fire(b, i).book, firings, end)
    ensures Chained(b, [Firing(b, i)] + firings, end)
  {
    hide Fire;
    var all := [Firing(b, i)] + firings;
    assert forall k :: 0 < k < |all| ==> all[k] == firings[k - 1];
  }

  /** Nothing is fired twice: the stop a firing takes is in no later pool. */
  lemma {:induction false} NoStopFiresTwice(b: Book, j: nat, k: nat)
    requires ArmedPool(b.pending) && j < k < |Firings(b)|
    ensures InRange(Firings(b)[j]) && InRange(Firings(b)[k])
    ensures Stop(Firings(b)[j]).id != Stop(Firings(b)[k]).id
    decreases |b.pending|
  {
    hide Fire, ArmedPool, Eligible, Chained, Quiescent;
    CascadeFiresLowestFirst(b);
    assert FiresLowestEligible(Firings(b)[j]) && FiresLowestEligible(Firings(b)[k]);
    var i := FirstEligible(b.pending, b.last);
    var next := Fire(b, i).book;
    FirePool(b, i);
    assert Firings(b)[k] == Firings(next)[k - 1];
    if j == 0 {
      LaterPoolsAreSmaller(next, k - 1);
    } else {
      NoStopFiresTwice(next, j - 1, k - 1);
    }
  }

  lemma {:induction false} LaterPoolsAreSmaller(b: Book, k: nat)
    requires ArmedPool(b.pending) && k < |Firings(b)|
    ensures forall o :: o in Firings(b)[k].before.pending ==> o in b.pending
    decreases |b.pending|
  {
    hide Fire, ArmedPool, Eligible;
    if k > 0 {
      var i := FirstEligible(b.pending, b.last);
      FirePool(b, i);
      LaterPoolsAreSmaller(Fire(b, i).book, k - 1);
    }
  }

  lemma MatchLiveLastPrice(b: Book, o: Order)
    ensures MatchLive(b, o).book.last == LastPrice(MatchLive(b, o).fills, b.last)
    ensures MatchLive(b, o).book.pending == b.pending
  {
  }

  lemma {:induction false} CascadeLastPrice(b: Book)
    ensures Cascade(b).book.last == LastPrice(Cascade(b).fills, b.last)
    decreases |b.pending|
  {
    hide MatchLive;
    var i := FirstEligible(b.pending, b.last);
    if i < |b.pending| {
      MatchLiveLastPrice(b.(pending := Remove(b.pending, i)), GoLive(b.pending[i]));
      CascadeLastPrice(Fire(b, i).book);
    }
  }

  /** The last traded price is the price of the last trade returned, or unchanged if there is none. */
  lemma LastPriceIsTheLastTrade(b: Book, o: Order)
    ensures var e := Submit(b, o);
      var trades := TradesOf(e.fills);
      e.book.last == if trades == [] then b.last else Some(trades[|trades| - 1].price)
  {
    hide MatchLive, Cascade;
    var b0, o0 := b.(nextId := b.nextId + 1), o.(id := b.nextId);
    MatchLiveLastPrice(b0, o0);
    CascadeLastPrice(TakeIn(b0, o0).book);
  }

  /** The trades of a cascade are the trades of its firings, in order. */
  lemma {:induction false} CascadeTradesAreTheFirings(b: Book)
    requires ArmedPool(b.pending)
    ensures Cascade(b).fills == FillsOf(Firings(b))
    decreases |b.pending|
  {
    hide Fire, ArmedPool, Eligible;
    var i := FirstEligible(b.pending, b.last);
    if i < |b.pending| {
      FirePool(b, i);
      CascadeTradesAreTheFirings(Fire(b, i).book);
      assert Firings(b)[1..] == Firings(Fire(b, i).book);
    }
  }

  ghost function FillsOf(firings: seq<Firing>): seq<Fill> {
    if firings == [] then []
    else (if InRange(firings[0]) then Fire(firings[0].before, firings[0].index).fills else [])
         + FillsOf(firings[1..])
  }

  /**
   A triggered stop-limit honours its own limit and rests under the id it was armed with; a stop-market never
   rests.
   */
  lemma FiredStopsKeepTheirTerms(b: Book, i: nat)
    requires Consistent(b) && i < |b.pending|
    ensures var stop := b.pending[i];
      var e := Fire(b, i);
      if stop.orderType == StopLossLimit then HonoursLimit(e, stop)
      else
        && Resting(e.book, stop.side) == Resting(b, stop.side)
        && e.dropped == (
             if Executed(e.fills) < stop.quantity then [Leftover(stop.id, stop.quantity - Executed(e.fills))] else [])
  {
    hide MatchLive;
    var b0, o := b.(pending := Remove(b.pending, i)), GoLive(b.pending[i]);
    if o.orderType == Limit { LimitOrdersHonourTheirLimit(b0, o); } else { MarketOrdersNeverRest(b0, o); }
  }

  /** In every reachable book, armed buy stops lie above the last traded price and armed sell stops below it. */
  lemma ArmedStopsAreOutOfReach(cs: seq<Command>, i: nat)
    requires WellFormedCommands(cs) && i < |Run(EmptyBook, cs).pending|
    ensures var b := Run(EmptyBook, cs);
      && b.pending[i].stopTrigger.Some?
      && (b.last.Some? ==>
            if b.pending[i].side == Buy then b.last.value < b.pending[i].stopTrigger.value
            else b.pending[i].stopTrigger.value < b.last.value)
  {
    hide Run;
    ReachableBooksKeepInv(cs);
    assert !Eligible(Run(EmptyBook, cs).pending[i], Run(EmptyBook, cs).last);
  }

  /** What a cascade fires was touched by the last price of that moment, written out in prices. */
  lemma FiredStopsWereTouched(b: Book, k: nat)
    requires ArmedPool(b.pending) && k < |Firings(b)|
    ensures var f := Firings(b)[k];
      && InRange(f) && f.before.last.Some? && Stop(f).stopTrigger.Some?
      && var price, trigger := f.before.last.value, Stop(f).stopTrigger.value;
         if Stop(f).side == Buy then price >= trigger else price <= trigger
  {
    hide Firings, ArmedPool, Cascade, Chained, Quiescent;
    CascadeFiresLowestFirst(b);
    assert FiresLowestEligible(Firings(b)[k]);
  }

  /** One turn: a stop of the pool is fired if and only if the last price touches the trigger of some stop. */
  lemma FiresIffTouched(b: Book)
    requires ArmedPool(b.pending)
    ensures Firings(b) != [] <==>
      b.last.Some? && exists i :: 0 <= i < |b.pending| && Touches(b.last.value, b.pending[i])
  {
    hide Fire;
    var i := FirstEligible(b.pending, b.last);
    forall k | 0 <= k < |b.pending|
      ensures Eligible(b.pending[k], b.last) <==> b.last.Some? && Touches(b.last.value, b.pending[k])
    {
      EligibleMeansTouched(b.pending[k], b.last);
    }
  }

  /** After the cascade no trigger is touched: buy triggers lie above the last price, sell triggers below it. */
  lemma LeftStopsAreUntouched(b: Book, i: nat)
    requires ArmedPool(b.pending) && i < |Cascade(b).book.pending| && Cascade(b).book.last.Some?
    ensures !Touches(Cascade(b).book.last.value, Cascade(b).book.pending[i])
  {
    hide Cascade, Chained, Firings, ArmedPool, Eligible;
    CascadeFiresLowestFirst(b);
    EligibleMeansTouched(Cascade(b).book.pending[i], Cascade(b).book.last);
  }
}
