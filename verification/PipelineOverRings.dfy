/**
 The request pipeline over the ring buffers themselves: both threads move one atomic ring access at a
 time, with cached indices and index loads that may be behind. Every move is a turn of module
 Pipeline, whose queues are what the rings hold, or changes nothing there.
 */
module PipelineOverRings {
  import opened Words
  import opened SpscRing
  import Pipeline

  type NetAt<L, R> = Pipeline.NetAt<L, R>
  type CoreAt<L, R> = Pipeline.CoreAt<L, R>
  type Ingress<L> = Pipeline.Ingress<L>
  type Egress<R> = Pipeline.Egress<R>
  type Handler<!C, !L, !R> = Pipeline.Handler<C, L, R>

  const RingSize := Size(10, Pipeline.WordBits)

  /** A ring with the history of what went through it. */
  datatype Channel<T> = Channel(ring: Ring<T>, history: History<T>)

  datatype State<C, L, R> = State(
    net: NetAt<L, R>, nextRequestId: nat, core: CoreAt<L, R>, book: C,
    accepted: seq<L>, answered: seq<R>,
    ingress: Channel<Ingress<L>>, egress: Channel<Egress<R>>)

  /** `load` picks what an index load returns, if the move makes one. */
  datatype Move<L> = AcceptLine(line: L) | SkipConnection | NetMove(load: nat) | CoreMove(load: nat)

  ghost predicate ChannelInv<T>(c: Channel<T>) {
    RingInv(RingSize, c.ring, c.history)
  }

  ghost function Held<T>(c: Channel<T>): seq<T>
    requires ChannelInv(c)
  {
    InvOrders(RingSize, c.ring, c.history);
    Queue(c.ring, c.history)
  }

  function Initial<C, L, R>(book: C): State<C, L, R> {
    State(Pipeline.Accepting, 0, Pipeline.PoppingIngress, book, [], [],
          Channel(InitialRing(RingSize), History([], 0)), Channel(InitialRing(RingSize), History([], 0)))
  }

  // ----- one access to a ring -----

  /** The next access of a blocking push: start a try, or go on with the one that is running. */
  function PushAccess<T>(c: Channel<T>, value: T, load: nat): Action<T> {
    if c.ring.producer.PIdle? then CallTryPush(value) else ProducerStep(load)
  }

  function PopAccess<T>(c: Channel<T>, load: nat): Action<T> {
    if c.ring.consumer.CIdle? then CallTryPop else ConsumerStep(load)
  }

  ghost function Accessed<T>(c: Channel<T>, a: Action<T>): (r: (Channel<T>, Event<T>))
    requires ChannelInv(c) && Enabled(c.ring, a)
    ensures ChannelInv(r.0) && FifoStep(Capacity(RingSize), Held(c), r.1, Held(r.0))
  {
    StepRefinesFifo(RingSize, c.ring, c.history, a);
    var n := Next(RingSize, c.ring, c.history, a);
    (Channel(n.0, n.2), n.1)
  }

  /** A thread inside a push is pushing `value`; a thread elsewhere is not inside a try. */
  ghost predicate ProducerAtWork<T>(c: Channel<T>, pushing: bool, value: T) {
    !c.ring.producer.PIdle? ==> pushing && c.ring.producer.value == value
  }

  lemma PushAccessShape<T>(c: Channel<T>, value: T, load: nat)
    requires ChannelInv(c) && ProducerAtWork(c, true, value) && Enabled(c.ring, PushAccess(c, value, load))
    ensures var (c', e) := Accessed(c, PushAccess(c, value, load));
      && c'.ring.consumer == c.ring.consumer
      && (e.Quiet? || e == Pushed(value) || e.RejectedFull?)
      && ProducerAtWork(c', e.Quiet?, value)
  {
    hide RingInv, FifoStep, WrappingAdd, SlotIndex, LooksFull, Queue;
  }

  lemma PopAccessShape<T>(c: Channel<T>, load: nat)
    requires ChannelInv(c) && Enabled(c.ring, PopAccess(c, load))
    ensures var (c', e) := Accessed(c, PopAccess(c, load));
      && c'.ring.producer == c.ring.producer
      && (e.Quiet? || e.Popped? || e.FoundEmpty?)
      && (c'.ring.consumer.CIdle? || e.Quiet?)
  {
    hide RingInv, FifoStep, WrappingAdd, SlotIndex, LooksEmpty, Queue;
  }

  // ----- the two threads -----

  ghost predicate MoveEnabled<C, L, R>(s: State<C, L, R>, m: Move<L>) {
    match m
    case AcceptLine(_) => s.net.Accepting?
    case SkipConnection => s.net.Accepting?
    case NetMove(load) =>
      && (s.net.PushingIngress? ==> Enabled(s.ingress.ring, PushAccess(s.ingress, s.net.item, load)))
      && (s.net.PoppingEgress? ==> Enabled(s.egress.ring, PopAccess(s.egress, load)))
    case CoreMove(load) =>
      && (s.core.PoppingIngress? ==> Enabled(s.ingress.ring, PopAccess(s.ingress, load)))
      && (s.core.PushingEgress? ==> Enabled(s.egress.ring, PushAccess(s.egress, s.core.result, load)))
  }

  /** Both rings are sound, and each thread is inside a try only where it pushes or pops. */
  ghost predicate ThreadsInv<C, L, R>(s: State<C, L, R>) {
    && ChannelInv(s.ingress) && ChannelInv(s.egress)
    && (!s.ingress.ring.producer.PIdle? ==>
          s.net.PushingIngress? && s.ingress.ring.producer.value == s.net.item)
    && (!s.ingress.ring.consumer.CIdle? ==> s.core.PoppingIngress?)
    && (!s.egress.ring.producer.PIdle? ==>
          s.core.PushingEgress? && s.egress.ring.producer.value == s.core.result)
    && (!s.egress.ring.consumer.CIdle? ==> s.net.PoppingEgress?)
  }

  ghost function NetTurn<C, L, R>(s: State<C, L, R>, load: nat): State<C, L, R>
    requires ThreadsInv(s) && MoveEnabled(s, NetMove(load))
  {
    match s.net
    case Accepting => s
    case PushingIngress(item) =>
      var (ingress, event) := Accessed(s.ingress, PushAccess(s.ingress, item, load));
      s.(ingress := ingress, net := if event.Pushed? then Pipeline.PoppingEgress(item.requestId) else s.net)
    case PoppingEgress(id) =>
      var (egress, event) := Accessed(s.egress, PopAccess(s.egress, load));
      s.(egress := egress, net := if event.Popped? then Pipeline.Writing(id, event.value) else s.net)
    case Writing(_, answer) =>
      s.(net := Pipeline.Accepting, answered := s.answered + [answer.response])
  }

  ghost function CoreTurn<C, L, R>(s: State<C, L, R>, load: nat, handle: Handler<C, L, R>): State<C, L, R>
    requires ThreadsInv(s) && MoveEnabled(s, CoreMove(load))
  {
    match s.core
    case PoppingIngress =>
      var (ingress, event) := Accessed(s.ingress, PopAccess(s.ingress, load));
      s.(ingress := ingress, core := if event.Popped? then Pipeline.Handling(event.value) else s.core)
    case Handling(item) =>
      var done := handle(s.book, item.line);
      s.(book := done.0, core := Pipeline.PushingEgress(Pipeline.Egress(item.requestId, done.1)))
    case PushingEgress(result) =>
      var (egress, event) := Accessed(s.egress, PushAccess(s.egress, result, load));
      s.(egress := egress, core := if event.Pushed? then Pipeline.PoppingIngress else s.core)
  }

  ghost function Moved<C, L, R>(s: State<C, L, R>, m: Move<L>, handle: Handler<C, L, R>): State<C, L, R>
    requires ThreadsInv(s) && MoveEnabled(s, m)
  {
    match m
    case AcceptLine(line) =>
      s.(net := Pipeline.PushingIngress(Pipeline.Ingress(s.nextRequestId, line)),
         nextRequestId := (s.nextRequestId + 1) % Pow2(Pipeline.WordBits),
         accepted := s.accepted + [line])
    case SkipConnection => s
    case NetMove(load) => NetTurn(s, load)
    case CoreMove(load) => CoreTurn(s, load, handle)
  }

  // ----- what the rings stand for -----

  /** The same state with each ring seen as the queue it holds. */
  ghost function Abs<C, L, R>(s: State<C, L, R>): Pipeline.State<C, L, R>
    requires ThreadsInv(s)
  {
    Pipeline.State(s.net, s.nextRequestId, Held(s.ingress), Held(s.egress), s.core, s.book, s.accepted, s.answered)
  }

  /** Replacing a ring by a queue is sound: a move is a turn of the abstract pipeline, or nothing. */
  lemma NetMoveIsATurn<C, L, R>(s: State<C, L, R>, load: nat)
    requires ThreadsInv(s) && MoveEnabled(s, NetMove(load))
    ensures ThreadsInv(NetTurn(s, load))
    ensures Abs(NetTurn(s, load)) == Abs(s) || Abs(NetTurn(s, load)) == Pipeline.NetTurn(Abs(s))
  {
    hide RingInv, Enabled, Accessed, Queue, Capacity;
    CapacityIsTheConstant();
    match s.net
    case Accepting =>
    case PushingIngress(item) => PushAccessShape(s.ingress, item, load);
    case PoppingEgress(id) => PopAccessShape(s.egress, load);
    case Writing(_, answer) =>
  }

  lemma CoreMoveIsATurn<C, L, R>(s: State<C, L, R>, load: nat, handle: Handler<C, L, R>)
    requires ThreadsInv(s) && MoveEnabled(s, CoreMove(load))
    ensures ThreadsInv(CoreTurn(s, load, handle))
    ensures Abs(CoreTurn(s, load, handle)) == Abs(s)
         || Abs(CoreTurn(s, load, handle)) == Pipeline.CoreTurn(Abs(s), handle)
  {
    hide RingInv, Enabled, Accessed, Queue, Capacity;
    CapacityIsTheConstant();
    match s.core
    case PoppingIngress => PopAccessShape(s.ingress, load);
    case Handling(item) =>
    case PushingEgress(result) => PushAccessShape(s.egress, result, load);
  }

  lemma CapacityIsTheConstant()
    ensures Capacity(RingSize) == Pipeline.RingBufferCapacity
  {
    assert Pow2(5) == 32;
    Pow2Splits(5, 5);
  }

  ghost predicate Inv<C, L, R>(s: State<C, L, R>, book0: C, handle: Handler<C, L, R>) {
    ThreadsInv(s) && Pipeline.PipelineInv(Abs(s), book0, handle)
  }

  lemma MoveKeepsInv<C, L, R>(s: State<C, L, R>, m: Move<L>, book0: C, handle: Handler<C, L, R>)
    requires Inv(s, book0, handle) && MoveEnabled(s, m)
    ensures Inv(Moved(s, m, handle), book0, handle)
  {
    hide ChannelInv, Held, NetTurn, CoreTurn, Pipeline.PipelineInv, Pipeline.NetTurn, Pipeline.CoreTurn;
    match m
    case AcceptLine(line) => Pipeline.StepKeepsInv(Abs(s), Pipeline.Accept(line), book0, handle);
    case SkipConnection =>
    case NetMove(load) =>
      NetMoveIsATurn(s, load);
      Pipeline.NetKeepsInv(Abs(s), book0, handle);
    case CoreMove(load) =>
      CoreMoveIsATurn(s, load, handle);
      Pipeline.CoreKeepsInv(Abs(s), book0, handle);
  }

  // ----- every interleaving -----

  ghost predicate Feasible<C, L, R>(book0: C, moves: seq<Move<L>>, handle: Handler<C, L, R>)
    decreases |moves|, 0
  {
    moves == [] ||
    var before := moves[..|moves| - 1];
    Feasible(book0, before, handle) && MoveEnabled(After(book0, before, handle), moves[|moves| - 1])
  }

  ghost function After<C, L, R>(book0: C, moves: seq<Move<L>>, handle: Handler<C, L, R>): (s: State<C, L, R>)
    requires Feasible(book0, moves, handle)
    ensures Inv(s, book0, handle)
    decreases |moves|, 1
  {
    if moves == [] then
      InitialInv<C, L, R>(book0, handle);
      Initial(book0)
    else
      var before := After(book0, moves[..|moves| - 1], handle);
      MoveKeepsInv(before, moves[|moves| - 1], book0, handle);
      Moved(before, moves[|moves| - 1], handle)
  }

  lemma InitialInv<C, L, R>(book0: C, handle: Handler<C, L, R>)
    ensures Inv(Initial<C, L, R>(book0), book0, handle)
  {
    hide RingInv, Queue, InitialRing;
    InitialRingInv<Ingress<L>>(RingSize);
    InitialRingInv<Egress<R>>(RingSize);
    InitialIsIdle<Ingress<L>>();
    InitialIsIdle<Egress<R>>();
  }

  lemma InitialIsIdle<T>()
    ensures Idle(InitialRing<T>(RingSize))
  {
  }

  /**
   In every interleaving of single ring accesses: a push whose index load is up to date is never
   refused, and a pop that takes an answer takes the one to the request being waited for.
   */
  lemma NoPushIsRefused<C, L, R>(book0: C, moves: seq<Move<L>>, handle: Handler<C, L, R>, load: nat)
    requires Feasible(book0, moves, handle)
    ensures var s := After(book0, moves, handle);
      && (s.net.PushingIngress? && MoveEnabled(s, NetMove(load)) ==>
            var event := Accessed(s.ingress, PushAccess(s.ingress, s.net.item, load)).1;
            event.RejectedFull? ==> !event.latest)
      && (s.core.PushingEgress? && MoveEnabled(s, CoreMove(load)) ==>
            var event := Accessed(s.egress, PushAccess(s.egress, s.core.result, load)).1;
            event.RejectedFull? ==> !event.latest)
      && (s.net.PoppingEgress? && MoveEnabled(s, NetMove(load)) ==>
            var event := Accessed(s.egress, PopAccess(s.egress, load)).1;
            event.Popped? ==> event.value.requestId == s.net.requestId)
  {
    hide RingInv, Enabled, Accessed, Queue, Capacity, Feasible, After;
    CapacityIsTheConstant();
  }

  /**
   At most one request is between the threads, and an answer about to be written is to the request it is
   written for.
   */
  lemma OneRequestInFlight<C, L, R>(book0: C, moves: seq<Move<L>>, handle: Handler<C, L, R>)
    requires Feasible(book0, moves, handle)
    ensures var s := After(book0, moves, handle);
      && |Held(s.ingress)| + |Held(s.egress)| + (if s.core.PoppingIngress? then 0 else 1) <= 1
      && (s.net.Writing? ==> s.net.answer.requestId == s.net.requestId)
  {
    hide RingInv, Queue, Feasible, After;
  }

  /** The answers written are those of the single-threaded program, in accept order; the book is its book. */
  lemma AnswersAreSequential<C, L, R>(book0: C, moves: seq<Move<L>>, handle: Handler<C, L, R>)
    requires Feasible(book0, moves, handle)
    ensures var s := After(book0, moves, handle);
      && |s.answered| <= |s.accepted| <= |s.answered| + 1
      && s.answered == Pipeline.Responses(book0, s.accepted[..|s.answered|], handle)
      && (s.net.Accepting? ==>
            && s.answered == Pipeline.Responses(book0, s.accepted, handle)
            && s.book == Pipeline.Book(book0, s.accepted, handle))
  {
    hide ThreadsInv, Held, Feasible, After;
    var s := After(book0, moves, handle);
    if s.net.Accepting? { assert s.accepted[..|s.answered|] == s.accepted; }
  }

  /** Requests are numbered in accept order, as words; the request in flight carries the number of the last one. */
  ghost predicate Numbered<C, L, R>(s: State<C, L, R>) {
    && s.nextRequestId == |s.accepted| % Pow2(Pipeline.WordBits)
    && (s.net.PushingIngress? || s.net.PoppingEgress? || s.net.Writing? ==>
          |s.accepted| > 0
          && var id := (|s.accepted| - 1) % Pow2(Pipeline.WordBits);
             && (s.net.PushingIngress? ==> s.net.item.requestId == id)
             && (s.net.PoppingEgress? ==> s.net.requestId == id)
             && (s.net.Writing? ==> s.net.requestId == id))
  }

  lemma MoveKeepsNumbers<C, L, R>(s: State<C, L, R>, m: Move<L>, handle: Handler<C, L, R>)
    requires ThreadsInv(s) && MoveEnabled(s, m) && Numbered(s)
    ensures Numbered(Moved(s, m, handle))
  {
    hide ThreadsInv, MoveEnabled, Accessed, Pow2;
    if m.AcceptLine? { WrappedNext(|s.accepted|, Pow2(Pipeline.WordBits)); }
  }

  lemma {:induction false} RequestIdsCountUp<C, L, R>(book0: C, moves: seq<Move<L>>, handle: Handler<C, L, R>)
    requires Feasible(book0, moves, handle)
    ensures Numbered(After(book0, moves, handle))
    decreases |moves|
  {
    hide ThreadsInv, MoveEnabled, Moved, Numbered, Pipeline.PipelineInv;
    if moves == [] {
      NothingNumbered<C, L, R>(book0);
    } else {
      RequestIdsCountUp(book0, moves[..|moves| - 1], handle);
      MoveKeepsNumbers(After(book0, moves[..|moves| - 1], handle), moves[|moves| - 1], handle);
    }
  }

  lemma NothingNumbered<C, L, R>(book0: C)
    ensures Numbered(Initial<C, L, R>(book0))
  {
    ModIs(0, Pow2(Pipeline.WordBits), 0, 0);
  }
}
