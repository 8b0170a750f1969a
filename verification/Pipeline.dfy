/**
 The request pipeline: a network thread and a matching-core thread joined only by two bounded
 single-producer/single-consumer queues (module SpscRing gives each its first-in-first-out
 behaviour). The state `C`, the request line `L`, the response `R` and the handler are parameters.
 */
module Pipeline {
  import opened Words

  const RingBufferCapacity: nat := 1024

  const WordBits: nat := 64

  datatype Ingress<L> = Ingress(requestId: nat, line: L)

  datatype Egress<R> = Egress(requestId: nat, response: R)

  datatype NetAt<L, R> =
    | Accepting
    | PushingIngress(item: Ingress<L>)
    | PoppingEgress(requestId: nat)
    | Writing(requestId: nat, answer: Egress<R>)

  datatype CoreAt<L, R> = PoppingIngress | Handling(item: Ingress<L>) | PushingEgress(result: Egress<R>)

  datatype State<C, L, R> = State(
    net: NetAt<L, R>, nextRequestId: nat,
    ingress: seq<Ingress<L>>, egress: seq<Egress<R>>,
    core: CoreAt<L, R>, book: C,
    accepted: seq<L>, answered: seq<R>)

  /** What a thread does next. A read that fails or a blank line leaves the accept loop where it is. */
  datatype Action<L> = Accept(line: L) | SkipConnection | NetStep | CoreStep

  type Handler<!C, !L, !R> = (C, L) -> (C, R)

  function Initial<C, L, R>(book: C): State<C, L, R> {
    State(Accepting, 0, [], [], PoppingIngress, book, [], [])
  }

  predicate Enabled<C, L, R>(s: State<C, L, R>, a: Action<L>) {
    (a.Accept? || a.SkipConnection?) ==> s.net.Accepting?
  }

  /** One turn of the network thread past the accept; a full or an empty queue makes it spin. */
  function NetTurn<C, L, R>(s: State<C, L, R>): State<C, L, R> {
    match s.net
    case Accepting => s
    case PushingIngress(item) =>
      if |s.ingress| == RingBufferCapacity then s
      else s.(ingress := s.ingress + [item], net := PoppingEgress(item.requestId))
    case PoppingEgress(id) =>
      if s.egress == [] then s
      else s.(egress := s.egress[1..], net := Writing(id, s.egress[0]))
    case Writing(_, answer) =>
      s.(net := Accepting, answered := s.answered + [answer.response])
  }

  function CoreTurn<C, L, R>(s: State<C, L, R>, handle: Handler<C, L, R>): State<C, L, R> {
    match s.core
    case PoppingIngress =>
      if s.ingress == [] then s
      else s.(ingress := s.ingress[1..], core := Handling(s.ingress[0]))
    case Handling(item) =>
      var done := handle(s.book, item.line);
      s.(book := done.0, core := PushingEgress(Egress(item.requestId, done.1)))
    case PushingEgress(result) =>
      if |s.egress| == RingBufferCapacity then s
      else s.(egress := s.egress + [result], core := PoppingIngress)
  }

  function Step<C, L, R>(s: State<C, L, R>, a: Action<L>, handle: Handler<C, L, R>): State<C, L, R>
    requires Enabled(s, a)
  {
    match a
    case Accept(line) =>
      s.(net := PushingIngress(Ingress(s.nextRequestId, line)),
         nextRequestId := (s.nextRequestId + 1) % Pow2(WordBits),
         accepted := s.accepted + [line])
    case SkipConnection => s
    case NetStep => NetTurn(s)
    case CoreStep => CoreTurn(s, handle)
  }

  // ----- what the single-threaded program would do -----

  ghost function Book<C, L, R>(book: C, lines: seq<L>, handle: Handler<C, L, R>): C {
    if lines == [] then book else handle(Book(book, lines[..|lines| - 1], handle), lines[|lines| - 1]).0
  }

  ghost function Responses<C, L, R>(book: C, lines: seq<L>, handle: Handler<C, L, R>): (rs: seq<R>)
    ensures |rs| == |lines|
  {
    if lines == [] then []
    else Responses(book, lines[..|lines| - 1], handle)
         + [handle(Book(book, lines[..|lines| - 1], handle), lines[|lines| - 1]).1]
  }

  // ----- the invariant -----

  /** The accepted request that is not answered yet. */
  ghost predicate InFlight<C, L, R>(s: State<C, L, R>) {
    !s.net.Accepting?
  }

  ghost function Done<C, L, R>(s: State<C, L, R>): seq<L>
    requires |s.answered| <= |s.accepted|
  {
    s.accepted[..|s.answered|]
  }

  ghost predicate Resting<C, L, R>(s: State<C, L, R>) {
    s.ingress == [] && s.egress == [] && s.core == PoppingIngress
  }

  /** Where request `id` may be while the network thread waits for its answer. */
  ghost predicate Travelling<C, L, R>(s: State<C, L, R>, book: C, id: nat, line: L, handle: Handler<C, L, R>) {
    var answer := Egress(id, handle(book, line).1);
    || (s.book == book && s.ingress == [Ingress(id, line)] && s.egress == [] && s.core == PoppingIngress)
    || (s.book == book && s.ingress == [] && s.egress == [] && s.core == Handling(Ingress(id, line)))
    || (s.book == handle(book, line).0 && s.ingress == [] && s.egress == [] && s.core == PushingEgress(answer))
    || (s.book == handle(book, line).0 && s.ingress == [] && s.egress == [answer] && s.core == PoppingIngress)
  }

  ghost predicate PipelineInv<C, L, R>(s: State<C, L, R>, book0: C, handle: Handler<C, L, R>) {
    && |s.accepted| == |s.answered| + (if InFlight(s) then 1 else 0)
    && s.answered == Responses(book0, Done(s), handle)
    && var before := Book(book0, Done(s), handle);
       var line := if InFlight(s) then [s.accepted[|s.accepted| - 1]] else [];
       match s.net
       case Accepting => Resting(s) && s.book == before
       case PushingIngress(item) => Resting(s) && s.book == before && item.line == line[0]
       case PoppingEgress(id) => Travelling(s, before, id, line[0], handle)
       case Writing(id, answer) =>
         Resting(s) && s.book == handle(before, line[0]).0 && answer == Egress(id, handle(before, line[0]).1)
  }

  lemma NetKeepsInv<C, L, R>(s: State<C, L, R>, book0: C, handle: Handler<C, L, R>)
    requires PipelineInv(s, book0, handle)
    ensures PipelineInv(NetTurn(s), book0, handle)
  {
    var s' := NetTurn(s);
    if s.net.Writing? {
      assert s'.accepted[..|s'.answered|] == s.accepted;
      assert s.accepted[..|s.accepted| - 1] == Done(s);
    }
  }

  lemma CoreKeepsInv<C, L, R>(s: State<C, L, R>, book0: C, handle: Handler<C, L, R>)
    requires PipelineInv(s, book0, handle)
    ensures PipelineInv(CoreTurn(s, handle), book0, handle)
  {
  }

  lemma StepKeepsInv<C, L, R>(s: State<C, L, R>, a: Action<L>, book0: C, handle: Handler<C, L, R>)
    requires PipelineInv(s, book0, handle) && Enabled(s, a)
    ensures PipelineInv(Step(s, a, handle), book0, handle)
  {
    match a
    case Accept(line) =>
      var s' := Step(s, a, handle);
      assert Done(s') == Done(s);
    case SkipConnection =>
    case NetStep => NetKeepsInv(s, book0, handle);
    case CoreStep => CoreKeepsInv(s, book0, handle);
  }

  // ----- every interleaving -----

  ghost predicate Feasible<C, L, R>(book0: C, actions: seq<Action<L>>, handle: Handler<C, L, R>)
    decreases |actions|, 0
  {
    actions == [] ||
    var before := actions[..|actions| - 1];
    Feasible(book0, before, handle) && Enabled(After(book0, before, handle), actions[|actions| - 1])
  }

  ghost function After<C, L, R>(book0: C, actions: seq<Action<L>>, handle: Handler<C, L, R>): (s: State<C, L, R>)
    requires Feasible(book0, actions, handle)
    ensures PipelineInv(s, book0, handle)
    decreases |actions|, 1
  {
    if actions == [] then Initial(book0)
    else
      var before := After(book0, actions[..|actions| - 1], handle);
      StepKeepsInv(before, actions[|actions| - 1], book0, handle);
      Step(before, actions[|actions| - 1], handle)
  }

  /** How many requests are somewhere between the two threads. */
  ghost function Between<C, L, R>(s: State<C, L, R>): nat {
    |s.ingress| + |s.egress| + (if s.core.PoppingIngress? then 0 else 1)
  }

  /**
   In every interleaving: at most one request is between the threads, no push finds its queue full,
   and the answer about to be written is the core's answer to the request it is written for.
   */
  lemma OneRequestInFlight<C, L, R>(book0: C, actions: seq<Action<L>>, handle: Handler<C, L, R>)
    requires Feasible(book0, actions, handle)
    ensures var s := After(book0, actions, handle);
      && Between(s) <= 1
      && (s.net.PushingIngress? ==> |s.ingress| < RingBufferCapacity)
      && (s.core.PushingEgress? ==> |s.egress| < RingBufferCapacity)
      && (s.net.Writing? ==> s.net.answer.requestId == s.net.requestId)
      && (s.net.PoppingEgress? && s.egress != [] ==> s.egress[0].requestId == s.net.requestId)
  {
  }

  /** The answers written are those of the sequential program, in accept order; the book is its book. */
  lemma AnswersAreSequential<C, L, R>(book0: C, actions: seq<Action<L>>, handle: Handler<C, L, R>)
    requires Feasible(book0, actions, handle)
    ensures var s := After(book0, actions, handle);
      && |s.answered| <= |s.accepted| <= |s.answered| + 1
      && s.answered == Responses(book0, s.accepted[..|s.answered|], handle)
      && (s.net.Accepting? ==>
          s.answered == Responses(book0, s.accepted, handle) && s.book == Book(book0, s.accepted, handle))
  {
    var s := After(book0, actions, handle);
    if s.net.Accepting? { assert s.accepted[..|s.answered|] == s.accepted; }
  }

  /** No deadlock: outside the accept, one of the two threads can make a turn that changes something. */
  lemma SomeThreadCanMove<C, L, R>(book0: C, actions: seq<Action<L>>, handle: Handler<C, L, R>)
    requires Feasible(book0, actions, handle)
    ensures var s := After(book0, actions, handle);
      s.net.Accepting? || NetTurn(s) != s || CoreTurn(s, handle) != s
  {
    var s := After(book0, actions, handle);
    match s.net
    case Accepting =>
    case PushingIngress(item) => assert NetTurn(s).net != s.net;
    case Writing(_, _) => assert NetTurn(s).net != s.net;
    case PoppingEgress(id) =>
      if s.egress != [] { assert NetTurn(s).net != s.net; } else { assert CoreTurn(s, handle).core != s.core; }
  }

  /** Turns that a request still has to make before its answer is written. */
  ghost function TurnsLeft<C, L, R>(s: State<C, L, R>): nat {
    match s.net
    case Accepting => 0
    case PushingIngress(_) => 6
    case Writing(_, _) => 1
    case PoppingEgress(_) =>
      if s.egress != [] then 2
      else match s.core
        case PoppingIngress => 5
        case Handling(_) => 4
        case PushingEgress(_) => 3
  }

  /** Every turn that changes something brings the request one turn nearer to its answer. */
  lemma EveryTurnIsProgress<C, L, R>(book0: C, actions: seq<Action<L>>, handle: Handler<C, L, R>)
    requires Feasible(book0, actions, handle)
    ensures var s := After(book0, actions, handle);
      && (NetTurn(s) != s ==> TurnsLeft(NetTurn(s)) == TurnsLeft(s) - 1)
      && (CoreTurn(s, handle) != s ==> TurnsLeft(CoreTurn(s, handle)) == TurnsLeft(s) - 1)
  {
    hide After, Feasible;
    NetTurnIsProgress(After(book0, actions, handle), book0, handle);
    CoreTurnIsProgress(After(book0, actions, handle), book0, handle);
  }

  lemma NetTurnIsProgress<C, L, R>(s: State<C, L, R>, book0: C, handle: Handler<C, L, R>)
    requires PipelineInv(s, book0, handle)
    ensures NetTurn(s) != s ==> TurnsLeft(NetTurn(s)) == TurnsLeft(s) - 1
  {
    hide Responses, Book;
  }

  lemma CoreTurnIsProgress<C, L, R>(s: State<C, L, R>, book0: C, handle: Handler<C, L, R>)
    requires PipelineInv(s, book0, handle)
    ensures CoreTurn(s, handle) != s ==> TurnsLeft(CoreTurn(s, handle)) == TurnsLeft(s) - 1
  {
    hide Responses, Book;
  }
}
