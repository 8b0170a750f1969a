/**
 Quantity accounting over whole runs. Every sum is taken over the orders whose id is in `who`, so
 one theorem speaks of a single order (`iset{id}`) and of the whole book (all ids) alike.
 */
module Conservation {
  import opened OrderTypes
  import opened BookSpec
  import opened BookInvariants
  import opened Matching
  import opened OrderLifecycle

  // ----- the sums -----

  ghost function Share(id: nat, quantity: nat, who: iset<nat>): nat {
    if id in who then quantity else 0
  }

  ghost function RestingQty(queue: seq<RestingOrder>, who: iset<nat>): nat {
    if queue == [] then 0 else Share(queue[0].id, queue[0].remaining, who) + RestingQty(queue[1..], who)
  }

  ghost function ArmedQty(pending: seq<Order>, who: iset<nat>): nat {
    if pending == [] then 0 else Share(pending[0].id, pending[0].quantity, who) + ArmedQty(pending[1..], who)
  }

  ghost function Live(b: Book, who: iset<nat>): nat {
    RestingQty(b.bids, who) + RestingQty(b.asks, who) + ArmedQty(b.pending, who)
  }

  /** Filled while arriving (limit, market or triggered stop). */
  ghost function FilledAsAggressor(fills: seq<Fill>, who: iset<nat>): nat {
    if fills == [] then 0
    else Share(fills[0].aggressor.id, fills[0].quantity, who) + FilledAsAggressor(fills[1..], who)
  }

  ghost function FilledResting(fills: seq<Fill>, who: iset<nat>): nat {
    if fills == [] then 0
    else Share(fills[0].resting.id, fills[0].quantity, who) + FilledResting(fills[1..], who)
  }

  ghost function Sum(ls: seq<Leftover>, who: iset<nat>): nat {
    if ls == [] then 0 else Share(ls[0].id, ls[0].quantity, who) + Sum(ls[1..], who)
  }

  /** Everything a step took out of the live quantity. */
  ghost function Spent(e: Effect, who: iset<nat>): nat {
    FilledAsAggressor(e.fills, who) + FilledResting(e.fills, who) + Sum(e.dropped, who)
  }

  // ----- sums of concatenations -----

  lemma {:induction false} FillsAppend(p: seq<Fill>, q: seq<Fill>, who: iset<nat>)
    ensures FilledAsAggressor(p + q, who) == FilledAsAggressor(p, who) + FilledAsAggressor(q, who)
    ensures FilledResting(p + q, who) == FilledResting(p, who) + FilledResting(q, who)
  {
    if p == [] {
      assert p + q == q;
    } else {
      assert (p + q)[1..] == p[1..] + q;
      FillsAppend(p[1..], q, who);
    }
  }

  lemma {:induction false} SumAppend(p: seq<Leftover>, q: seq<Leftover>, who: iset<nat>)
    ensures Sum(p + q, who) == Sum(p, who) + Sum(q, who)
  {
    if p == [] {
      assert p + q == q;
    } else {
      assert (p + q)[1..] == p[1..] + q;
      SumAppend(p[1..], q, who);
    }
  }

  lemma SumOne(l: Leftover, who: iset<nat>)
    ensures Sum([l], who) == Share(l.id, l.quantity, who)
  {
    assert [l][1..] == [];
  }

  lemma {:induction false} ArmedAppend(p: seq<Order>, q: seq<Order>, who: iset<nat>)
    ensures ArmedQty(p + q, who) == ArmedQty(p, who) + ArmedQty(q, who)
  {
    if p == [] {
      assert p + q == q;
    } else {
      assert (p + q)[1..] == p[1..] + q;
      ArmedAppend(p[1..], q, who);
    }
  }

  lemma ArmedRemove(p: seq<Order>, i: nat, who: iset<nat>)
    requires i < |p|
    ensures ArmedQty(p, who) == ArmedQty(Remove(p, i), who) + Share(p[i].id, p[i].quantity, who)
  {
    assert p == p[..i] + p[i..];
    assert p[i..][1..] == p[i + 1..];
    ArmedAppend(p[..i], p[i..], who);
    ArmedAppend(p[..i], p[i + 1..], who);
  }

  // ----- one live order -----

  lemma RestingHead(r: RestingOrder, queue: seq<RestingOrder>, who: iset<nat>)
    ensures RestingQty([r] + queue, who) == Share(r.id, r.remaining, who) + RestingQty(queue, who)
  {
    assert ([r] + queue)[1..] == queue;
  }

  lemma FillsHead(f: Fill, fills: seq<Fill>, who: iset<nat>)
    ensures FilledAsAggressor([f] + fills, who)
        == Share(f.aggressor.id, f.quantity, who) + FilledAsAggressor(fills, who)
    ensures FilledResting([f] + fills, who) == Share(f.resting.id, f.quantity, who) + FilledResting(fills, who)
  {
    assert ([f] + fills)[1..] == fills;
  }

  lemma NoFills(who: iset<nat>)
    ensures FilledAsAggressor([], who) == 0 && FilledResting([], who) == 0
  {
  }

  lemma {:induction false} ConsumeConserves(queue: seq<RestingOrder>, o: Order, quantity: nat, who: iset<nat>)
    ensures var s := Consume(queue, o, quantity);
      && RestingQty(queue, who) == RestingQty(s.queue, who) + FilledResting(s.fills, who)
      && s.remainder <= quantity
      && FilledAsAggressor(s.fills, who) == Share(o.id, quantity - s.remainder, who)
  {
    hide Crosses, RestingQty, FilledResting, FilledAsAggressor;
    var s := Consume(queue, o, quantity);
    NoFills(who);
    if quantity == 0 || queue == [] || !Crosses(o, queue[0].limitPrice) {
    } else if quantity < queue[0].remaining {
      RestingHead(queue[0], queue[1..], who);
      RestingHead(s.queue[0], queue[1..], who);
      FillsHead(s.fills[0], [], who);
      assert queue == [queue[0]] + queue[1..] && s.fills == [s.fills[0]] + [];
    } else {
      var rest := Consume(queue[1..], o, quantity - queue[0].remaining);
      ConsumeConserves(queue[1..], o, quantity - queue[0].remaining, who);
      RestingHead(queue[0], queue[1..], who);
      FillsHead(s.fills[0], rest.fills, who);
      assert queue == [queue[0]] + queue[1..];
    }
  }

  lemma {:induction false} EnqueueQty(side: Side, queue: seq<RestingOrder>, r: RestingOrder, who: iset<nat>)
    ensures RestingQty(Enqueue(side, queue, r), who) == RestingQty(queue, who) + Share(r.id, r.remaining, who)
  {
    var after := Enqueue(side, queue, r);
    if queue == [] || Better(side, r.limitPrice, queue[0].limitPrice) {
      assert after[1..] == queue;
    } else {
      EnqueueQty(side, queue[1..], r, who);
      assert after[1..] == Enqueue(side, queue[1..], r);
    }
  }

  lemma LiveWith(b: Book, side: Side, queue: seq<RestingOrder>, last: Option<int>, who: iset<nat>)
    ensures Live(WithResting(b, side, queue).(last := last), who)
         == Live(b, who) - RestingQty(Resting(b, side), who) + RestingQty(queue, who)
  {
  }

  lemma MatchLiveConserves(b: Book, o: Order, who: iset<nat>)
    ensures var e := MatchLive(b, o);
      Live(b, who) + Share(o.id, o.quantity, who) == Live(e.book, who) + Spent(e, who)
  {
    hide Consume, Enqueue, Live, RestingQty, FilledAsAggressor, FilledResting;
    var other := Opposite(o.side);
    var s := Consume(Resting(b, other), o, o.quantity);
    var last := LastPrice(s.fills, b.last);
    var b1 := WithResting(b, other, s.queue).(last := last);
    var r := RestingOrder(o.id, o.account, o.limitPrice, s.remainder);
    ConsumeConserves(Resting(b, other), o, o.quantity, who);
    LiveWith(b, other, s.queue, last, who);
    EnqueueQty(o.side, Resting(b1, o.side), r, who);
    LiveWith(b1, o.side, Enqueue(o.side, Resting(b1, o.side), r), last, who);
    SumOne(Leftover(o.id, s.remainder), who);
  }

  // ----- the cascade and whole commands -----

  lemma FireConserves(b: Book, i: nat, who: iset<nat>)
    requires i < |b.pending|
    ensures Live(b, who) == Live(Fire(b, i).book, who) + Spent(Fire(b, i), who)
  {
    ArmedRemove(b.pending, i, who);
    MatchLiveConserves(b.(pending := Remove(b.pending, i)), GoLive(b.pending[i]), who);
  }

  lemma SpentAppend(e: Effect, f: Effect, book: Book, who: iset<nat>)
    ensures Spent(Effect(book, e.fills + f.fills, e.dropped + f.dropped), who) == Spent(e, who) + Spent(f, who)
  {
    FillsAppend(e.fills, f.fills, who);
    SumAppend(e.dropped, f.dropped, who);
  }

  lemma {:induction false} CascadeConserves(b: Book, who: iset<nat>)
    ensures Live(b, who) == Live(Cascade(b).book, who) + Spent(Cascade(b), who)
    decreases |b.pending|
  {
    hide MatchLive, Live, Spent;
    var i := FirstEligible(b.pending, b.last);
    if i == |b.pending| {
      NothingSpent(b, who);
    } else {
      FireConserves(b, i, who);
      MatchLivePool(b.(pending := Remove(b.pending, i)), GoLive(b.pending[i]));
      CascadeConserves(Fire(b, i).book, who);
      SpentAppend(Fire(b, i), Cascade(Fire(b, i).book), Cascade(b).book, who);
    }
  }

  lemma NothingSpent(b: Book, who: iset<nat>)
    ensures Spent(Effect(b, [], []), who) == 0
  {
  }

  lemma SubmitConserves(b: Book, o: Order, who: iset<nat>)
    ensures var e := Submit(b, o);
      Live(b, who) + Share(b.nextId, o.quantity, who) == Live(e.book, who) + Spent(e, who)
  {
    hide MatchLive, Cascade, Spent;
    var b0, o0 := b.(nextId := b.nextId + 1), o.(id := b.nextId);
    var first := TakeIn(b0, o0);
    if IsStop(o) {
      ArmedAppend(b.pending, [o0], who);
      assert ArmedQty([o0], who) == Share(o0.id, o0.quantity, who);
      NothingSpent(first.book, who);
    } else {
      MatchLiveConserves(b0, o0, who);
    }
    CascadeConserves(first.book, who);
    SpentAppend(first, Cascade(first.book), Submit(b, o).book, who);
  }

  /** What a cancellation takes off the book. */
  ghost function Cancelled(b: Book, id: nat): seq<Leftover>
    requires ArmedPool(b.pending)
  {
    match Query(b, id)
    case RestingLimit(_, _, remaining) => [Leftover(id, remaining)]
    case PendingStop(_, _, quantity) => [Leftover(id, quantity)]
    case NotFound => []
  }

  lemma {:induction false} DropRestingQty(queue: seq<RestingOrder>, id: nat, who: iset<nat>)
    requires RestingCount(queue, id) <= 1
    ensures RestingQty(queue, who) == RestingQty(DropResting(queue, id), who)
              + (match FindResting(queue, id) case Some(r) => Share(id, r.remaining, who) case None => 0)
  {
    if queue == [] {
    } else if queue[0].id == id {
      DropRestingAbsent(queue[1..], id);
      assert DropResting(queue, id) == queue[1..];
    } else {
      DropRestingQty(queue[1..], id, who);
      assert DropResting(queue, id)[1..] == DropResting(queue[1..], id);
    }
  }

  lemma {:induction false} DropPendingQty(pending: seq<Order>, id: nat, who: iset<nat>)
    ensures ArmedQty(pending, who) == ArmedQty(DropPending(pending, id), who)
              + (match FindPending(pending, id) case Some(o) => Share(id, o.quantity, who) case None => 0)
  {
    if pending == [] || pending[0].id == id {
    } else {
      DropPendingQty(pending[1..], id, who);
      assert DropPending(pending, id)[1..] == DropPending(pending[1..], id);
    }
  }

  lemma CancelConserves(b: Book, id: nat, who: iset<nat>)
    requires Inv(b)
    ensures Live(b, who) == Live(Cancel(b, id), who) + Sum(Cancelled(b, id), who)
  {
    hide Sides, Quiescent;
    assert Held(b, id) <= 1;
    DropRestingQty(b.bids, id, who);
    DropRestingQty(b.asks, id, who);
    DropPendingQty(b.pending, id, who);
    forall l: Leftover ensures Sum([l], who) == Share(l.id, l.quantity, who) { SumOne(l, who); }
  }

  // ----- whole runs -----

  /** All that happened in a run, and the book it ended with. */
  datatype Ledger = Ledger(
    book: Book, submitted: seq<Leftover>, fills: seq<Fill>, dropped: seq<Leftover>, cancelled: seq<Leftover>)

  ghost function Post(l: Ledger, c: Command): Ledger
    requires Inv(l.book)
  {
    match c
    case SubmitOrder(o) =>
      var e := Submit(l.book, o);
      Ledger(e.book, l.submitted + [Leftover(l.book.nextId, o.quantity)],
             l.fills + e.fills, l.dropped + e.dropped, l.cancelled)
    case CancelOrder(id) =>
      l.(book := Cancel(l.book, id), cancelled := l.cancelled + Cancelled(l.book, id))
  }

  ghost function RunLedger(cs: seq<Command>): (l: Ledger)
    requires WellFormedCommands(cs)
    ensures l.book == Run(EmptyBook, cs) && Inv(l.book)
  {
    ReachableBooksKeepInv(cs);
    if cs == [] then Ledger(EmptyBook, [], [], [], [])
    else Post(RunLedger(cs[..|cs| - 1]), cs[|cs| - 1])
  }

  ghost predicate Balanced(l: Ledger, who: iset<nat>) {
    Sum(l.submitted, who)
      == FilledAsAggressor(l.fills, who) + FilledResting(l.fills, who)
         + Live(l.book, who) + Sum(l.cancelled, who) + Sum(l.dropped, who)
  }

  lemma PostKeepsBalance(l: Ledger, c: Command, who: iset<nat>)
    requires Inv(l.book) && Balanced(l, who)
    ensures Balanced(Post(l, c), who)
  {
    hide Sides, DistinctIds, Quiescent, Submit, Cancel, Cancelled, Live;
    match c
    case SubmitOrder(o) =>
      var e := Submit(l.book, o);
      SubmitConserves(l.book, o, who);
      SumAppend(l.submitted, [Leftover(l.book.nextId, o.quantity)], who);
      SumOne(Leftover(l.book.nextId, o.quantity), who);
      FillsAppend(l.fills, e.fills, who);
      SumAppend(l.dropped, e.dropped, who);
    case CancelOrder(id) =>
      CancelConserves(l.book, id, who);
      SumAppend(l.cancelled, Cancelled(l.book, id), who);
  }

  /** For any set of orders, over any run: nothing submitted is lost or counted twice. */
  lemma {:induction false} RunsConserveQuantity(cs: seq<Command>, who: iset<nat>)
    requires WellFormedCommands(cs)
    ensures Balanced(RunLedger(cs), who)
  {
    if cs == [] {
      assert Live(EmptyBook, who) == 0;
    } else {
      RunsConserveQuantity(cs[..|cs| - 1], who);
      PostKeepsBalance(RunLedger(cs[..|cs| - 1]), cs[|cs| - 1], who);
    }
  }

  lemma {:induction false} EveryFillHasTwoSides(fills: seq<Fill>, who: iset<nat>)
    requires forall id: nat :: id in who
    ensures FilledAsAggressor(fills, who) == Executed(fills) == FilledResting(fills, who)
  {
    if fills != [] { EveryFillHasTwoSides(fills[1..], who); }
  }

  /** In total: submitted = 2 x executed + resting + armed + cancelled + dropped. */
  lemma TotalsBalance(cs: seq<Command>, all: iset<nat>)
    requires WellFormedCommands(cs) && forall id: nat :: id in all
    ensures var l := RunLedger(cs);
      Sum(l.submitted, all) == 2 * Executed(l.fills) + Live(l.book, all) + Sum(l.cancelled, all) + Sum(l.dropped, all)
  {
    RunsConserveQuantity(cs, all);
    EveryFillHasTwoSides(RunLedger(cs).fills, all);
  }
}
