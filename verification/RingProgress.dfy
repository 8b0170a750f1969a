/**
 Progress of the request pipeline over the rings: as long as the thread that can act sees published
 counters, each of its ring accesses brings the request in flight nearer to its answer.
 */
module RingProgress {
  import opened SpscRing
  import Pipeline
  import opened PipelineOverRings

  /** Accesses that a push still has to make when it is not refused, and a pop when it finds something. */
  function PushLeft<T>(c: Channel<T>): nat {
    match c.ring.producer
    case PIdle => 4
    case PRefresh(_) => 3
    case PWrite(_) => 2
    case PPublish(_) => 1
  }

  function PopLeft<T>(c: Channel<T>): nat {
    match c.ring.consumer
    case CIdle => 4
    case CRefresh => 3
    case CRead => 2
    case CPublish(_) => 1
  }

  /** The load, if the access makes one, returns what was published last. */
  predicate SeesHead<T>(c: Channel<T>, load: nat) {
    load == |c.ring.heads| - 1
  }

  predicate SeesTail<T>(c: Channel<T>, load: nat) {
    load == |c.ring.tails| - 1
  }

  lemma PushAccessProgress<T>(c: Channel<T>, value: T, load: nat)
    requires ChannelInv(c) && ProducerAtWork(c, true, value) && SeesHead(c, load)
    requires |Held(c)| < Capacity(RingSize)
    ensures Enabled(c.ring, PushAccess(c, value, load))
    ensures var (c', e) := Accessed(c, PushAccess(c, value, load));
      e == Pushed(value) || (e.Quiet? && PushLeft(c') < PushLeft(c))
  {
    hide SlotsHold, ConsumerInv, WrappingAdd, SlotIndex, LooksFull, Queue, Capacity, CountsStores, Word;
    var a := PushAccess(c, value, load);
    PushAccessShape(c, value, load);
    var e := Accessed(c, a).1;
    assert FifoStep(Capacity(RingSize), Held(c), e, Held(Accessed(c, a).0));
  }

  lemma PopAccessProgress<T>(c: Channel<T>, load: nat)
    requires ChannelInv(c) && SeesTail(c, load) && Held(c) != []
    ensures Enabled(c.ring, PopAccess(c, load))
    ensures var (c', e) := Accessed(c, PopAccess(c, load));
      e.Popped? || (e.Quiet? && PopLeft(c') < PopLeft(c))
  {
    hide SlotsHold, ProducerInv, WrappingAdd, SlotIndex, LooksEmpty, Queue, Capacity, CountsStores, Word;
    var a := PopAccess(c, load);
    PopAccessShape(c, load);
    var e := Accessed(c, a).1;
    assert FifoStep(Capacity(RingSize), Held(c), e, Held(Accessed(c, a).0));
  }

  /** A pop on an empty ring finds nothing, whatever it loads. */
  lemma PopOfNothing<T>(c: Channel<T>, load: nat)
    requires ChannelInv(c) && Held(c) == [] && Enabled(c.ring, PopAccess(c, load))
    ensures var (c', e) := Accessed(c, PopAccess(c, load)); !e.Popped? && Held(c') == []
  {
    hide RingInv, Enabled, Accessed, Queue;
    var (c', e) := Accessed(c, PopAccess(c, load));
    PopAccessShape(c, load);
  }

  // ----- which thread can act -----

  ghost predicate NetActs<C, L, R>(s: State<C, L, R>)
    requires ThreadsInv(s)
  {
    s.net.PushingIngress? || s.net.Writing? || (s.net.PoppingEgress? && Held(s.egress) != [])
  }

  ghost predicate CoreActs<C, L, R>(s: State<C, L, R>)
    requires ThreadsInv(s)
  {
    s.net.PoppingEgress? && Held(s.egress) == []
  }

  /** Accesses left in the try of the thread that can act. */
  ghost function AccessesLeft<C, L, R>(s: State<C, L, R>): (n: nat)
    requires ThreadsInv(s)
    ensures n <= 4
  {
    match s.net
    case Accepting => 0
    case Writing(_, _) => 0
    case PushingIngress(_) => PushLeft(s.ingress)
    case PoppingEgress(_) =>
      if Held(s.egress) != [] then PopLeft(s.egress)
      else
        match s.core
        case PoppingIngress => PopLeft(s.ingress)
        case Handling(_) => 0
        case PushingEgress(_) => PushLeft(s.egress)
  }

  /** First the turns that the request still has to make, then the accesses within the present turn. */
  ghost predicate Nearer<C, L, R>(s': State<C, L, R>, s: State<C, L, R>)
    requires ThreadsInv(s) && ThreadsInv(s')
  {
    || Pipeline.TurnsLeft(Abs(s')) < Pipeline.TurnsLeft(Abs(s))
    || (Pipeline.TurnsLeft(Abs(s')) == Pipeline.TurnsLeft(Abs(s)) && AccessesLeft(s') < AccessesLeft(s))
  }

  ghost predicate AsNear<C, L, R>(s': State<C, L, R>, s: State<C, L, R>)
    requires ThreadsInv(s) && ThreadsInv(s')
  {
    Pipeline.TurnsLeft(Abs(s')) == Pipeline.TurnsLeft(Abs(s)) && AccessesLeft(s') == AccessesLeft(s)
  }

  /** The counters that the thread's next load is up to date with. */
  ghost predicate NetSees<C, L, R>(s: State<C, L, R>, load: nat) {
    (s.net.PushingIngress? ==> SeesHead(s.ingress, load)) && (s.net.PoppingEgress? ==> SeesTail(s.egress, load))
  }

  ghost predicate CoreSees<C, L, R>(s: State<C, L, R>, load: nat) {
    (s.core.PoppingIngress? ==> SeesTail(s.ingress, load)) && (s.core.PushingEgress? ==> SeesHead(s.egress, load))
  }

  lemma NetMoveIsNearer<C, L, R>(s: State<C, L, R>, book0: C, handle: Handler<C, L, R>, load: nat)
    requires Inv(s, book0, handle) && NetActs(s) && NetSees(s, load)
    ensures MoveEnabled(s, NetMove(load)) && ThreadsInv(NetTurn(s, load)) && Nearer(NetTurn(s, load), s)
  {
    hide RingInv, Enabled, Accessed, Queue, Capacity, Pipeline.Responses, Pipeline.Book;
    CapacityIsTheConstant();
    match s.net
    case PushingIngress(item) =>
      PushAccessProgress(s.ingress, item, load);
      NetMoveIsATurn(s, load);
    case PoppingEgress(id) =>
      PopAccessProgress(s.egress, load);
      NetMoveIsATurn(s, load);
    case Writing(_, _) => NetMoveIsATurn(s, load);
  }

  lemma CoreMoveIsNearer<C, L, R>(s: State<C, L, R>, book0: C, handle: Handler<C, L, R>, load: nat)
    requires Inv(s, book0, handle) && CoreActs(s) && CoreSees(s, load)
    ensures MoveEnabled(s, CoreMove(load)) && ThreadsInv(CoreTurn(s, load, handle))
    ensures Nearer(CoreTurn(s, load, handle), s)
  {
    hide RingInv, Enabled, Accessed, Queue, Capacity, Pipeline.Responses, Pipeline.Book;
    CapacityIsTheConstant();
    match s.core
    case PoppingIngress =>
      PopAccessProgress(s.ingress, load);
      CoreMoveIsATurn(s, load, handle);
    case Handling(_) => CoreMoveIsATurn(s, load, handle);
    case PushingEgress(result) =>
      PushAccessProgress(s.egress, result, load);
      CoreMoveIsATurn(s, load, handle);
  }

  lemma WaitingNetChangesNothing<C, L, R>(s: State<C, L, R>, book0: C, handle: Handler<C, L, R>, load: nat)
    requires Inv(s, book0, handle) && !NetActs(s) && MoveEnabled(s, NetMove(load))
    ensures ThreadsInv(NetTurn(s, load)) && AsNear(NetTurn(s, load), s)
  {
    hide RingInv, Enabled, Accessed, Queue, Pipeline.Responses, Pipeline.Book;
    NetMoveIsATurn(s, load);
    match s.net
    case Accepting =>
    case PoppingEgress(id) =>
      PopOfNothing(s.egress, load);
      PopAccessShape(s.egress, load);
  }

  lemma WaitingCoreChangesNothing<C, L, R>(s: State<C, L, R>, book0: C, handle: Handler<C, L, R>, load: nat)
    requires Inv(s, book0, handle) && !CoreActs(s) && MoveEnabled(s, CoreMove(load))
    ensures ThreadsInv(CoreTurn(s, load, handle)) && AsNear(CoreTurn(s, load, handle), s)
  {
    hide RingInv, Enabled, Accessed, Queue, Pipeline.Responses, Pipeline.Book;
    CoreMoveIsATurn(s, load, handle);
    PopOfNothing(s.ingress, load);
    PopAccessShape(s.ingress, load);
  }

  /**
   In every interleaving, outside the accept: exactly one thread can act. A move of that thread with an
   up-to-date load brings the request nearer to its answer, and a move of the other thread, whatever it
   loads, takes nothing back; so the answer is written after a bounded number of the former.
   */
  lemma EveryActingMoveIsProgress<C, L, R>(
      book0: C, moves: seq<Move<L>>, handle: Handler<C, L, R>, load: nat)
    requires PipelineOverRings.Feasible(book0, moves, handle)
    ensures var s := PipelineOverRings.After(book0, moves, handle);
      && (!s.net.Accepting? ==> (NetActs(s) <==> !CoreActs(s)))
      && (NetActs(s) && NetSees(s, load) ==>
            MoveEnabled(s, NetMove(load)) && ThreadsInv(NetTurn(s, load)) && Nearer(NetTurn(s, load), s))
      && (CoreActs(s) && CoreSees(s, load) ==>
            MoveEnabled(s, CoreMove(load)) && ThreadsInv(CoreTurn(s, load, handle))
            && Nearer(CoreTurn(s, load, handle), s))
      && (!NetActs(s) && MoveEnabled(s, NetMove(load)) ==>
            ThreadsInv(NetTurn(s, load)) && AsNear(NetTurn(s, load), s))
      && (!CoreActs(s) && MoveEnabled(s, CoreMove(load)) ==>
            ThreadsInv(CoreTurn(s, load, handle)) && AsNear(CoreTurn(s, load, handle), s))
  {
    hide ThreadsInv, MoveEnabled, NetTurn, CoreTurn, Nearer, AsNear, Held, PipelineOverRings.Feasible,
        PipelineOverRings.After, NetSees, CoreSees;
    var s := PipelineOverRings.After(book0, moves, handle);
    if NetActs(s) && NetSees(s, load) { NetMoveIsNearer(s, book0, handle, load); }
    if CoreActs(s) && CoreSees(s, load) { CoreMoveIsNearer(s, book0, handle, load); }
    if !NetActs(s) && MoveEnabled(s, NetMove(load)) { WaitingNetChangesNothing(s, book0, handle, load); }
    if !CoreActs(s) && MoveEnabled(s, CoreMove(load)) { WaitingCoreChangesNothing(s, book0, handle, load); }
  }
}
