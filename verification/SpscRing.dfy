/**
 The lock-free single-producer/single-consumer ring buffer, one atomic access per step.

 An index that the other thread loads is kept with everything ever stored to it, so that a load may
 return any stored value not older than the one it returned before (an acquire load that is behind).
 All counters are machine words of `w` bits and wrap; the buffer has `2^k` slots, `k < w`.
 */
module SpscRing {
  import opened OrderTypes
  import opened Words

  datatype Size = Size(k: nat, w: nat)

  ghost predicate ValidSize(z: Size) {
    z.k < z.w
  }

  function Capacity(z: Size): (c: nat)
    ensures c >= 1
  {
    Pow2(z.k)
  }

  function Modulus(z: Size): nat { Pow2(z.w) }

  function WrappingAdd(z: Size, a: nat, b: nat): nat { (a + b) % Modulus(z) }

  function WrappingSub(z: Size, a: nat, b: nat): nat { (a - b) % Modulus(z) }

  function SlotIndex(z: Size, index: nat): nat { And(index, Capacity(z) - 1) }

  datatype Slot<T> = Uninitialised | Live(value: T)

  datatype ProducerAt<T> = PIdle | PRefresh(value: T) | PWrite(value: T) | PPublish(value: T)

  datatype ConsumerAt<T> = CIdle | CRefresh | CRead | CPublish(value: T)

  datatype Ring<T> = Ring(
    slots: seq<Slot<T>>,
    heads: seq<nat>, tails: seq<nat>,
    localTail: nat, cachedHead: nat, headSeen: nat, producer: ProducerAt<T>,
    localHead: nat, cachedTail: nat, tailSeen: nat, consumer: ConsumerAt<T>)

  /** What a thread does next; `load` picks the stored value that its index load returns. */
  datatype Action<T> = CallTryPush(value: T) | ProducerStep(load: nat) | CallTryPop | ConsumerStep(load: nat)

  /** How a call returned, if the step ended one; `latest` says whether the refresh load was up to date. */
  datatype Event<T> =
    | Quiet
    | Pushed(value: T)
    | RejectedFull(value: T, latest: bool)
    | Popped(value: T)
    | FoundEmpty(latest: bool)

  predicate Enabled<T>(r: Ring<T>, a: Action<T>) {
    match a
    case CallTryPush(_) => r.producer.PIdle?
    case CallTryPop => r.consumer.CIdle?
    case ProducerStep(load) => !r.producer.PIdle? && r.headSeen <= load < |r.heads|
    case ConsumerStep(load) => !r.consumer.CIdle? && r.tailSeen <= load < |r.tails|
  }

  function Unwritten<T>(n: nat): (slots: seq<Slot<T>>)
    ensures |slots| == n && forall i :: 0 <= i < n ==> slots[i] == Uninitialised
  {
    seq(n, _ => Uninitialised)
  }

  function InitialRing<T>(z: Size): Ring<T> {
    Ring(Unwritten(Capacity(z)), [0], [0], 0, 0, 0, PIdle, 0, 0, 0, CIdle)
  }

  predicate LooksFull<T>(z: Size, r: Ring<T>) {
    WrappingSub(z, r.localTail, r.cachedHead) == Capacity(z)
  }

  predicate LooksEmpty<T>(r: Ring<T>) {
    r.localHead == r.cachedTail
  }

  function StepProducer<T>(z: Size, r: Ring<T>, load: nat): (Ring<T>, Event<T>)
    requires load < |r.heads|
    requires r.producer.PWrite? ==> SlotIndex(z, r.localTail) < |r.slots|
  {
    match r.producer
    case PIdle => (r, Quiet)
    case PRefresh(v) =>
      var r1 := r.(cachedHead := r.heads[load], headSeen := load);
      if LooksFull(z, r1) then (r1.(producer := PIdle), RejectedFull(v, load == |r.heads| - 1))
      else (r1.(producer := PWrite(v)), Quiet)
    case PWrite(v) =>
      (r.(slots := r.slots[SlotIndex(z, r.localTail) := Live(v)],
          localTail := WrappingAdd(z, r.localTail, 1), producer := PPublish(v)), Quiet)
    case PPublish(v) =>
      (r.(tails := r.tails + [r.localTail], producer := PIdle), Pushed(v))
  }

  function StepConsumer<T>(z: Size, r: Ring<T>, load: nat): (Ring<T>, Event<T>)
    requires load < |r.tails|
    requires r.consumer.CRead? ==>
      SlotIndex(z, r.localHead) < |r.slots| && r.slots[SlotIndex(z, r.localHead)].Live?
  {
    match r.consumer
    case CIdle => (r, Quiet)
    case CRefresh =>
      var r1 := r.(cachedTail := r.tails[load], tailSeen := load);
      if LooksEmpty(r1) then (r1.(consumer := CIdle), FoundEmpty(load == |r.tails| - 1))
      else (r1.(consumer := CRead), Quiet)
    case CRead =>
      var slot := SlotIndex(z, r.localHead);
      (r.(slots := r.slots[slot := Uninitialised],
          localHead := WrappingAdd(z, r.localHead, 1), consumer := CPublish(r.slots[slot].value)), Quiet)
    case CPublish(v) =>
      (r.(heads := r.heads + [r.localHead], consumer := CIdle), Popped(v))
  }

  // ----- the invariant -----

  /** All values written into slots so far, and how many of them were read out again. */
  datatype History<T> = History(written: seq<T>, taken: nat)

  /** The word that shows the count `n`, and the slot of position `n`. */
  ghost function Word(z: Size, n: nat): nat { n % Modulus(z) }

  ghost function SlotOf(z: Size, n: nat): nat { n % Capacity(z) }

  ghost predicate CountsStores(z: Size, stores: seq<nat>) {
    |stores| > 0 && forall n :: 0 <= n < |stores| ==> stores[n] == Word(z, n)
  }

  /** Which slots are live: exactly those of the values written and not yet taken. */
  ghost predicate SlotsHold<T>(z: Size, slots: seq<Slot<T>>, h: History<T>) {
    && |slots| == Capacity(z)
    && h.taken <= |h.written| <= h.taken + Capacity(z)
    && (forall i :: h.taken <= i < |h.written| ==> slots[SlotOf(z, i)] == Live(h.written[i]))
    && (forall i :: |h.written| <= i < h.taken + Capacity(z) ==> slots[SlotOf(z, i)] == Uninitialised)
  }

  ghost predicate ProducerInv<T>(z: Size, r: Ring<T>, h: History<T>) {
    && CountsStores(z, r.heads) && r.headSeen < |r.heads|
    && r.cachedHead == Word(z, r.headSeen)
    && r.localTail == Word(z, |h.written|)
    && |r.tails| - 1 == |h.written| - (if r.producer.PPublish? then 1 else 0)
    && |h.written| <= r.headSeen + Capacity(z)
    && (r.producer.PWrite? ==> |h.written| < r.headSeen + Capacity(z))
    && (r.producer.PPublish? ==> |h.written| > 0 && r.producer.value == h.written[|h.written| - 1])
  }

  ghost predicate ConsumerInv<T>(z: Size, r: Ring<T>, h: History<T>) {
    && CountsStores(z, r.tails) && r.tailSeen < |r.tails|
    && r.cachedTail == Word(z, r.tailSeen)
    && r.localHead == Word(z, h.taken)
    && |r.heads| - 1 == h.taken - (if r.consumer.CPublish? then 1 else 0)
    && h.taken <= r.tailSeen
    && (r.consumer.CRead? ==> h.taken < r.tailSeen)
    && (r.consumer.CPublish? ==> 0 < h.taken <= |h.written| && r.consumer.value == h.written[h.taken - 1])
  }

  ghost predicate RingInv<T>(z: Size, r: Ring<T>, h: History<T>) {
    && ValidSize(z)
    && SlotsHold(z, r.slots, h)
    && ProducerInv(z, r, h)
    && ConsumerInv(z, r, h)
  }

  /** The bounded queue that the buffer is: published, and not yet published as taken. */
  ghost function Queue<T>(r: Ring<T>, h: History<T>): seq<T>
    requires 1 <= |r.heads| <= |r.tails| <= |h.written| + 1
  {
    h.written[|r.heads| - 1..|r.tails| - 1]
  }

  /** A bounded queue of the given capacity, seen from outside. */
  ghost predicate FifoStep<T>(capacity: nat, q: seq<T>, e: Event<T>, q': seq<T>) {
    match e
    case Quiet => q' == q
    case Pushed(v) => |q| < capacity && q' == q + [v]
    case RejectedFull(_, latest) => q' == q && (latest ==> |q| == capacity)
    case Popped(v) => q != [] && v == q[0] && q' == q[1..]
    case FoundEmpty(latest) => q' == q && (latest ==> q == [])
  }

  // ----- arithmetic of the counters -----

  lemma CapacityFits(z: Size)
    requires ValidSize(z)
    ensures 0 < Capacity(z) < Modulus(z)
  {
    Pow2Grows(z.k, z.w);
  }

  lemma SlotOfCounter(z: Size, n: nat)
    requires ValidSize(z)
    ensures SlotIndex(z, Word(z, n)) == SlotOf(z, n) < Capacity(z)
    ensures WrappingAdd(z, Word(z, n), 1) == Word(z, n + 1)
  {
    MaskIsRemainder(n % Modulus(z), z.k);
    Pow2Splits(z.k, z.w - z.k);
    ModOfMultiple(n, Pow2(z.k), Pow2(z.w - z.k));
    WrappedNext(n, Modulus(z));
  }

  /** The check on wrapped words tells exactly whether the buffer is full as last seen. */
  lemma FullCheck<T>(z: Size, r: Ring<T>, h: History<T>, seen: nat)
    requires ValidSize(z) && seen <= |h.written| <= seen + Capacity(z)
    requires r.localTail == Word(z, |h.written|) && r.cachedHead == Word(z, seen)
    ensures LooksFull(z, r) <==> |h.written| == seen + Capacity(z)
  {
    CapacityFits(z);
    WrappedDifference(|h.written|, seen, Modulus(z));
  }

  lemma EmptyCheck<T>(z: Size, r: Ring<T>, h: History<T>, seen: nat)
    requires ValidSize(z) && h.taken <= seen <= h.taken + Capacity(z)
    requires r.localHead == Word(z, h.taken) && r.cachedTail == Word(z, seen)
    ensures LooksEmpty(r) <==> h.taken == seen
  {
    CapacityFits(z);
    WrappedEqual(seen, h.taken, Modulus(z));
  }

  lemma DistinctSlots(z: Size, i: nat, j: nat)
    requires i < j < i + Capacity(z)
    ensures SlotOf(z, i) != SlotOf(z, j)
  {
    WrappedEqual(j, i, Capacity(z));
  }

  /** One lap later comes the same slot again. */
  lemma SameSlot(z: Size, n: nat)
    ensures SlotOf(z, n + Capacity(z)) == SlotOf(z, n)
  {
    var c := Capacity(z);
    var q := n / c;
    assert n + c == c * (q + 1) + n % c by { assert c * (q + 1) == c * q + c; }
    ModIs(n + c, c, q + 1, n % c);
  }

  lemma SlotInRange(z: Size, n: nat)
    ensures SlotOf(z, n) < Capacity(z)
  {
  }

  // ----- the slots -----

  lemma WriteSlot<T>(z: Size, slots: seq<Slot<T>>, h: History<T>, v: T)
    requires SlotsHold(z, slots, h) && |h.written| < h.taken + Capacity(z)
    ensures SlotOf(z, |h.written|) < |slots|
    ensures slots[SlotOf(z, |h.written|)] == Uninitialised
    ensures SlotsHold(z, slots[SlotOf(z, |h.written|) := Live(v)], History(h.written + [v], h.taken))
  {
    var c, n := Capacity(z), |h.written|;
    SlotInRange(z, n);
    hide SlotOf, Capacity;
    var after := slots[SlotOf(z, n) := Live(v)];
    forall i | h.taken <= i < n + 1 ensures after[SlotOf(z, i)] == Live((h.written + [v])[i]) {
      if i < n { SlotInRange(z, i); DistinctSlots(z, i, n); }
    }
    forall i | n + 1 <= i < h.taken + c ensures after[SlotOf(z, i)] == Uninitialised {
      SlotInRange(z, i);
      DistinctSlots(z, n, i);
    }
  }

  lemma TakeSlot<T>(z: Size, slots: seq<Slot<T>>, h: History<T>)
    requires SlotsHold(z, slots, h) && h.taken < |h.written|
    ensures SlotOf(z, h.taken) < |slots|
    ensures slots[SlotOf(z, h.taken)] == Live(h.written[h.taken])
    ensures SlotsHold(z, slots[SlotOf(z, h.taken) := Uninitialised], History(h.written, h.taken + 1))
  {
    var c, n := Capacity(z), h.taken;
    SlotInRange(z, n);
    hide SlotOf, Capacity;
    var after := slots[SlotOf(z, n) := Uninitialised];
    forall i | n + 1 <= i < |h.written| ensures after[SlotOf(z, i)] == Live(h.written[i]) {
      SlotInRange(z, i);
      DistinctSlots(z, n, i);
    }
    forall i | |h.written| <= i < n + 1 + c ensures after[SlotOf(z, i)] == Uninitialised {
      SlotInRange(z, i);
      if i < n + c { DistinctSlots(z, n, i); } else { SameSlot(z, n); }
    }
  }

  // ----- every step -----

  ghost function Next<T>(z: Size, r: Ring<T>, h: History<T>, a: Action<T>): (Ring<T>, Event<T>, History<T>)
    requires RingInv(z, r, h) && Enabled(r, a)
  {
    SafeAccess(z, r, h);
    match a
    case CallTryPush(v) => (r.(producer := if LooksFull(z, r) then PRefresh(v) else PWrite(v)), Quiet, h)
    case CallTryPop => (r.(consumer := if LooksEmpty(r) then CRefresh else CRead), Quiet, h)
    case ProducerStep(load) =>
      var s := StepProducer(z, r, load);
      (s.0, s.1, if r.producer.PWrite? then h.(written := h.written + [r.producer.value]) else h)
    case ConsumerStep(load) =>
      var s := StepConsumer(z, r, load);
      (s.0, s.1, if r.consumer.CRead? then h.(taken := h.taken + 1) else h)
  }

  /** No live slot is overwritten and no uninitialised slot is read. */
  lemma SafeAccess<T>(z: Size, r: Ring<T>, h: History<T>)
    requires RingInv(z, r, h)
    ensures SlotIndex(z, r.localTail) < |r.slots| && SlotIndex(z, r.localHead) < |r.slots|
    ensures r.producer.PWrite? ==> r.slots[SlotIndex(z, r.localTail)] == Uninitialised
    ensures r.consumer.CRead? ==> r.slots[SlotIndex(z, r.localHead)].Live?
  {
    hide Word, SlotOf, SlotIndex, Capacity, WrappingAdd;
    SlotOfCounter(z, |h.written|);
    SlotOfCounter(z, h.taken);
  }

  lemma ConsumerFrame<T>(z: Size, r: Ring<T>, h: History<T>, r': Ring<T>, h': History<T>)
    requires ConsumerInv(z, r, h) && h.written <= h'.written && h'.taken == h.taken
    requires r'.heads == r.heads && r'.tails == r.tails && r'.localHead == r.localHead
    requires r'.cachedTail == r.cachedTail && r'.tailSeen == r.tailSeen && r'.consumer == r.consumer
    ensures ConsumerInv(z, r', h')
  {
  }

  lemma ProducerFrame<T>(z: Size, r: Ring<T>, h: History<T>, r': Ring<T>, h': History<T>)
    requires ProducerInv(z, r, h) && h'.written == h.written
    requires r'.heads == r.heads && r'.tails == r.tails && r'.localTail == r.localTail
    requires r'.cachedHead == r.cachedHead && r'.headSeen == r.headSeen && r'.producer == r.producer
    ensures ProducerInv(z, r', h')
  {
  }

  lemma SlotsBounds<T>(z: Size, slots: seq<Slot<T>>, h: History<T>)
    requires SlotsHold(z, slots, h)
    ensures h.taken <= |h.written| <= h.taken + Capacity(z)
  {
  }

  lemma CallPushKeepsInv<T>(z: Size, r: Ring<T>, h: History<T>, v: T)
    requires RingInv(z, r, h) && r.producer.PIdle?
    ensures RingInv(z, r.(producer := if LooksFull(z, r) then PRefresh(v) else PWrite(v)), h)
  {
    hide SlotsHold, LooksFull, Word, Capacity;
    SlotsBounds(z, r.slots, h);
    FullCheck(z, r, h, r.headSeen);
    ConsumerFrame(z, r, h, r.(producer := if LooksFull(z, r) then PRefresh(v) else PWrite(v)), h);
  }

  lemma CallPopKeepsInv<T>(z: Size, r: Ring<T>, h: History<T>)
    requires RingInv(z, r, h) && r.consumer.CIdle?
    ensures RingInv(z, r.(consumer := if LooksEmpty(r) then CRefresh else CRead), h)
  {
    hide SlotsHold, LooksEmpty, Word, Capacity;
    SlotsBounds(z, r.slots, h);
    EmptyCheck(z, r, h, r.tailSeen);
    ProducerFrame(z, r, h, r.(consumer := if LooksEmpty(r) then CRefresh else CRead), h);
  }

  lemma RefreshedProducer<T>(z: Size, r: Ring<T>, h: History<T>, load: nat)
    requires ValidSize(z) && ProducerInv(z, r, h) && r.producer.PRefresh? && r.headSeen <= load < |r.heads|
    requires load <= |h.written| <= load + Capacity(z)
    ensures ProducerInv(z, StepProducer(z, r, load).0, h)
    ensures StepProducer(z, r, load).1.RejectedFull? ==> |h.written| == load + Capacity(z)
  {
    hide LooksFull, Capacity, Word, SlotIndex, WrappingAdd, WrappingSub, SlotOf, And, Pow2, Modulus;
    FullCheck(z, r.(cachedHead := r.heads[load], headSeen := load), h, load);
  }

  lemma RefreshedProducerFifo<T>(z: Size, r: Ring<T>, h: History<T>, load: nat)
    requires load < |r.heads| <= |r.tails| == |h.written| + 1 && r.producer.PRefresh?
    requires StepProducer(z, r, load).1.RejectedFull? ==> |h.written| == load + Capacity(z)
    ensures var s := StepProducer(z, r, load);
      Queue(s.0, h) == Queue(r, h) && FifoStep(Capacity(z), Queue(r, h), s.1, Queue(s.0, h))
  {
    hide LooksFull, Capacity, SlotIndex, WrappingAdd, WrappingSub, And, Pow2, Modulus;
  }

  lemma ProducerRefresh<T>(z: Size, r: Ring<T>, h: History<T>, load: nat)
    requires RingInv(z, r, h) && Enabled(r, ProducerStep(load)) && r.producer.PRefresh?
    ensures var s := StepProducer(z, r, load);
      RingInv(z, s.0, h) && FifoStep(Capacity(z), Queue(r, h), s.1, Queue(s.0, h))
  {
    hide SlotsHold, LooksFull, Capacity, CountsStores, FifoStep, Queue, SlotIndex, WrappingAdd, WrappingSub, Word,
        And, Pow2, Modulus;
    SlotsBounds(z, r.slots, h);
    ProducerBounds(z, r, h);
    ConsumerBounds(z, r, h);
    RefreshedProducer(z, r, h, load);
    RefreshedProducerFifo(z, r, h, load);
    hide ProducerInv;
    ConsumerFrame(z, r, h, StepProducer(z, r, load).0, h);
  }

  lemma ProducerWroteInv<T>(z: Size, r: Ring<T>, h: History<T>, load: nat)
    requires ValidSize(z) && ProducerInv(z, r, h) && load < |r.heads| && r.producer.PWrite?
    requires SlotIndex(z, r.localTail) < |r.slots|
    ensures ProducerInv(z, StepProducer(z, r, load).0, h.(written := h.written + [r.producer.value]))
  {
    hide Word, SlotOf, SlotIndex, WrappingAdd, Capacity;
    SlotOfCounter(z, |h.written|);
  }

  lemma WriteRoom<T>(z: Size, r: Ring<T>, h: History<T>)
    requires ProducerInv(z, r, h) && ConsumerInv(z, r, h) && r.producer.PWrite?
    ensures |h.written| < h.taken + Capacity(z) && 1 <= |r.heads| <= |r.tails| <= |h.written| + 1
  {
    hide Word, Capacity, CountsStores;
  }

  /** What is written but not published is not in the queue yet. */
  lemma SameQueue<T>(r: Ring<T>, r': Ring<T>, h: History<T>, v: T)
    requires 1 <= |r.heads| <= |r.tails| <= |h.written| + 1 && r'.heads == r.heads && r'.tails == r.tails
    ensures Queue(r', h.(written := h.written + [v])) == Queue(r, h)
  {
  }

  lemma ProducerWriteSlots<T>(z: Size, r: Ring<T>, h: History<T>, load: nat)
    requires ValidSize(z) && SlotsHold(z, r.slots, h) && |h.written| < h.taken + Capacity(z)
    requires load < |r.heads| && r.producer.PWrite? && r.localTail == Word(z, |h.written|)
    ensures SlotIndex(z, r.localTail) < |r.slots|
    ensures SlotsHold(z, StepProducer(z, r, load).0.slots, h.(written := h.written + [r.producer.value]))
  {
    hide Word, SlotOf, SlotIndex, WrappingAdd, Capacity, SlotsHold, And, Pow2, Modulus;
    SlotOfCounter(z, |h.written|);
    WriteSlot(z, r.slots, h, r.producer.value);
  }

  lemma ProducerWrite<T>(z: Size, r: Ring<T>, h: History<T>, load: nat)
    requires RingInv(z, r, h) && Enabled(r, ProducerStep(load)) && r.producer.PWrite?
    requires SlotIndex(z, r.localTail) < |r.slots|
    ensures var s := StepProducer(z, r, load);
      var h' := h.(written := h.written + [r.producer.value]);
      RingInv(z, s.0, h') && s.1 == Quiet && Queue(s.0, h') == Queue(r, h)
  {
    hide SlotsHold, CountsStores, Word, SlotOf, SlotIndex, WrappingAdd, Capacity, ConsumerInv, And, Pow2, Modulus,
        Queue;
    var h' := h.(written := h.written + [r.producer.value]);
    WriteRoom(z, r, h);
    SameQueue(r, StepProducer(z, r, load).0, h, r.producer.value);
    ProducerWriteSlots(z, r, h, load);
    ProducerWroteInv(z, r, h, load);
    hide ProducerInv;
    ConsumerFrame(z, r, h, StepProducer(z, r, load).0, h');
  }

  lemma ConsumerBounds<T>(z: Size, r: Ring<T>, h: History<T>)
    requires ConsumerInv(z, r, h)
    ensures |r.heads| - 1 <= h.taken < |r.tails|
  {
  }

  lemma PublishedProducer<T>(z: Size, r: Ring<T>, h: History<T>, load: nat)
    requires ProducerInv(z, r, h) && r.producer.PPublish? && load < |r.heads| && CountsStores(z, r.tails)
    ensures ProducerInv(z, StepProducer(z, r, load).0, h)
    ensures CountsStores(z, StepProducer(z, r, load).0.tails)
  {
    hide Capacity, Word, SlotIndex, WrappingAdd, CountsStores;
    StoresGrow(z, r.tails);
  }

  lemma PublishedProducerFifo<T>(z: Size, r: Ring<T>, h: History<T>, load: nat)
    requires r.producer.PPublish? && load < |r.heads| <= |r.tails| == |h.written| < |r.heads| + Capacity(z)
    requires r.producer.value == h.written[|h.written| - 1]
    ensures var s := StepProducer(z, r, load);
      |s.0.tails| <= |h.written| + 1 && FifoStep(Capacity(z), Queue(r, h), s.1, Queue(s.0, h))
  {
    hide Capacity, SlotIndex, WrappingAdd;
    var s := StepProducer(z, r, load);
    SliceGrows(h.written, |r.heads| - 1, |r.tails| - 1);
    assert Queue(s.0, h) == Queue(r, h) + [r.producer.value];
    assert |Queue(r, h)| == |r.tails| - |r.heads|;
  }

  lemma ProducerPublish<T>(z: Size, r: Ring<T>, h: History<T>, load: nat)
    requires RingInv(z, r, h) && Enabled(r, ProducerStep(load)) && r.producer.PPublish?
    ensures var s := StepProducer(z, r, load);
      RingInv(z, s.0, h) && FifoStep(Capacity(z), Queue(r, h), s.1, Queue(s.0, h))
  {
    hide SlotsHold, Capacity, CountsStores, FifoStep, Queue, SlotIndex, WrappingAdd, Word;
    SlotsBounds(z, r.slots, h);
    ProducerBounds(z, r, h);
    ConsumerBounds(z, r, h);
    PublishedProducer(z, r, h, load);
    PublishedProducerFifo(z, r, h, load);
    hide ProducerInv;
    ConsumerSeesMore(z, r, h, StepProducer(z, r, load).0);
  }

  lemma StoresGrow(z: Size, stores: seq<nat>)
    requires CountsStores(z, stores)
    ensures CountsStores(z, stores + [Word(z, |stores|)])
  {
    hide Word;
  }

  lemma SliceGrows<T>(s: seq<T>, i: nat, j: nat)
    requires i <= j < |s|
    ensures s[i..j + 1] == s[i..j] + [s[j]]
  {
  }

  lemma SliceShrinks<T>(s: seq<T>, i: nat, j: nat)
    requires i < j <= |s|
    ensures s[i..j] == [s[i]] + s[i + 1..j]
  {
  }

  /** The consumer's part does not mind one more published counter. */
  lemma ConsumerSeesMore<T>(z: Size, r: Ring<T>, h: History<T>, r': Ring<T>)
    requires ConsumerInv(z, r, h) && r' == r.(tails := r'.tails, producer := r'.producer)
    requires r.tails <= r'.tails && CountsStores(z, r'.tails)
    ensures ConsumerInv(z, r', h)
  {
  }

  lemma ProducerSeesMore<T>(z: Size, r: Ring<T>, h: History<T>, r': Ring<T>)
    requires ProducerInv(z, r, h) && r' == r.(heads := r'.heads, consumer := r'.consumer)
    requires r.heads <= r'.heads && CountsStores(z, r'.heads)
    ensures ProducerInv(z, r', h)
  {
  }

  lemma RefreshedConsumer<T>(z: Size, r: Ring<T>, h: History<T>, load: nat)
    requires ValidSize(z) && ConsumerInv(z, r, h) && r.consumer.CRefresh? && r.tailSeen <= load < |r.tails|
    requires h.taken <= load <= h.taken + Capacity(z)
    ensures ConsumerInv(z, StepConsumer(z, r, load).0, h)
    ensures StepConsumer(z, r, load).1.FoundEmpty? ==> h.taken == load
  {
    hide LooksEmpty, Capacity, Word, SlotIndex, WrappingAdd, WrappingSub, SlotOf, And, Pow2, Modulus;
    EmptyCheck(z, r.(cachedTail := r.tails[load], tailSeen := load), h, load);
  }

  lemma RefreshedConsumerFifo<T>(z: Size, r: Ring<T>, h: History<T>, load: nat)
    requires h.taken + 1 == |r.heads| <= |r.tails| <= |h.written| + 1 && load < |r.tails| && r.consumer.CRefresh?
    requires StepConsumer(z, r, load).1.FoundEmpty? ==> h.taken == load
    ensures var s := StepConsumer(z, r, load);
      Queue(s.0, h) == Queue(r, h) && FifoStep(Capacity(z), Queue(r, h), s.1, Queue(s.0, h))
  {
    hide LooksEmpty, Capacity, SlotIndex, WrappingAdd, And, Pow2, Modulus;
  }

  lemma ConsumerRefresh<T>(z: Size, r: Ring<T>, h: History<T>, load: nat)
    requires RingInv(z, r, h) && Enabled(r, ConsumerStep(load)) && r.consumer.CRefresh?
    ensures var s := StepConsumer(z, r, load);
      RingInv(z, s.0, h) && FifoStep(Capacity(z), Queue(r, h), s.1, Queue(s.0, h))
  {
    hide SlotsHold, LooksEmpty, Capacity, CountsStores, FifoStep, Queue, SlotIndex, WrappingAdd, Word, And, Pow2,
        Modulus;
    SlotsBounds(z, r.slots, h);
    ProducerBounds(z, r, h);
    ConsumerBounds(z, r, h);
    RefreshedConsumer(z, r, h, load);
    RefreshedConsumerFifo(z, r, h, load);
    hide ConsumerInv;
    ProducerFrame(z, r, h, StepConsumer(z, r, load).0, h);
  }

  lemma ConsumerReadInv<T>(z: Size, r: Ring<T>, h: History<T>, load: nat)
    requires ValidSize(z) && ConsumerInv(z, r, h) && load < |r.tails| && r.consumer.CRead? && h.taken < |h.written|
    requires SlotIndex(z, r.localHead) < |r.slots| && r.slots[SlotIndex(z, r.localHead)] == Live(h.written[h.taken])
    ensures ConsumerInv(z, StepConsumer(z, r, load).0, h.(taken := h.taken + 1))
  {
    hide Word, SlotOf, SlotIndex, WrappingAdd, Capacity, And, Pow2, Modulus;
    SlotOfCounter(z, h.taken);
  }

  lemma ConsumerReadSlots<T>(z: Size, r: Ring<T>, h: History<T>, load: nat)
    requires ValidSize(z) && SlotsHold(z, r.slots, h) && h.taken < |h.written|
    requires load < |r.tails| && r.consumer.CRead? && r.localHead == Word(z, h.taken)
    ensures SlotIndex(z, r.localHead) < |r.slots| && r.slots[SlotIndex(z, r.localHead)] == Live(h.written[h.taken])
    ensures SlotsHold(z, StepConsumer(z, r, load).0.slots, h.(taken := h.taken + 1))
  {
    hide Word, SlotOf, SlotIndex, WrappingAdd, Capacity, SlotsHold, And, Pow2, Modulus;
    SlotOfCounter(z, h.taken);
    TakeSlot(z, r.slots, h);
  }

  lemma ConsumerRead<T>(z: Size, r: Ring<T>, h: History<T>, load: nat)
    requires RingInv(z, r, h) && Enabled(r, ConsumerStep(load)) && r.consumer.CRead?
    requires SlotIndex(z, r.localHead) < |r.slots| && r.slots[SlotIndex(z, r.localHead)].Live?
    ensures var s := StepConsumer(z, r, load);
      var h' := h.(taken := h.taken + 1);
      RingInv(z, s.0, h') && s.1 == Quiet && Queue(s.0, h') == Queue(r, h)
  {
    hide SlotsHold, CountsStores, Word, SlotOf, SlotIndex, WrappingAdd, Capacity, And, Pow2, Modulus;
    ProducerBounds(z, r, h);
    ConsumerReadSlots(z, r, h, load);
    ConsumerReadInv(z, r, h, load);
    hide ConsumerInv;
    ProducerFrame(z, r, h, StepConsumer(z, r, load).0, h.(taken := h.taken + 1));
  }

  lemma PublishedConsumer<T>(z: Size, r: Ring<T>, h: History<T>, load: nat)
    requires ConsumerInv(z, r, h) && r.consumer.CPublish? && load < |r.tails| && CountsStores(z, r.heads)
    ensures ConsumerInv(z, StepConsumer(z, r, load).0, h)
    ensures CountsStores(z, StepConsumer(z, r, load).0.heads)
  {
    hide Word, SlotIndex, WrappingAdd, CountsStores;
    StoresGrow(z, r.heads);
  }

  lemma PublishedConsumerFifo<T>(z: Size, r: Ring<T>, h: History<T>, load: nat)
    requires r.consumer.CPublish? && load < |r.tails| && 1 <= |r.heads| == h.taken < |r.tails| <= |h.written| + 1
    requires r.consumer.value == h.written[h.taken - 1]
    ensures var s := StepConsumer(z, r, load);
      |s.0.heads| <= |r.tails| && FifoStep(Capacity(z), Queue(r, h), s.1, Queue(s.0, h))
  {
    hide Capacity, SlotIndex, WrappingAdd;
    var s := StepConsumer(z, r, load);
    SliceShrinks(h.written, |r.heads| - 1, |r.tails| - 1);
    assert Queue(r, h) == [r.consumer.value] + Queue(s.0, h);
  }

  lemma ConsumerPublish<T>(z: Size, r: Ring<T>, h: History<T>, load: nat)
    requires RingInv(z, r, h) && Enabled(r, ConsumerStep(load)) && r.consumer.CPublish?
    ensures var s := StepConsumer(z, r, load);
      RingInv(z, s.0, h) && FifoStep(Capacity(z), Queue(r, h), s.1, Queue(s.0, h))
  {
    hide SlotsHold, Capacity, CountsStores, FifoStep, Queue, SlotIndex, WrappingAdd, Word;
    SlotsBounds(z, r.slots, h);
    ProducerBounds(z, r, h);
    ConsumerBounds(z, r, h);
    PublishedConsumer(z, r, h, load);
    PublishedConsumerFifo(z, r, h, load);
    hide ConsumerInv;
    ProducerSeesMore(z, r, h, StepConsumer(z, r, load).0);
  }

  lemma ProducerBounds<T>(z: Size, r: Ring<T>, h: History<T>)
    requires ProducerInv(z, r, h)
    ensures |r.tails| - 1 <= |h.written|
  {
  }

  /** Every step of either thread is a step of a bounded queue. */
  lemma StepRefinesFifo<T>(z: Size, r: Ring<T>, h: History<T>, a: Action<T>)
    requires RingInv(z, r, h) && Enabled(r, a)
    ensures var n := Next(z, r, h, a);
      RingInv(z, n.0, n.2) && FifoStep(Capacity(z), Queue(r, h), n.1, Queue(n.0, n.2))
  {
    hide SlotsHold, ProducerInv, ConsumerInv, StepProducer, StepConsumer, SlotIndex;
    SafeAccess(z, r, h);
    match a
    case CallTryPush(v) => CallPushKeepsInv(z, r, h, v);
    case CallTryPop => CallPopKeepsInv(z, r, h);
    case ProducerStep(load) =>
      if r.producer.PRefresh? { ProducerRefresh(z, r, h, load); }
      else if r.producer.PWrite? { ProducerWrite(z, r, h, load); }
      else { ProducerPublish(z, r, h, load); }
    case ConsumerStep(load) =>
      if r.consumer.CRefresh? { ConsumerRefresh(z, r, h, load); }
      else if r.consumer.CRead? { ConsumerRead(z, r, h, load); }
      else { ConsumerPublish(z, r, h, load); }
  }

  // ----- whole runs -----

  lemma InitialRingInv<T>(z: Size)
    requires ValidSize(z)
    ensures RingInv(z, InitialRing<T>(z), History([], 0))
    ensures Queue(InitialRing<T>(z), History([], 0)) == []
  {
    CapacityFits(z);
    ModIs(0, Modulus(z), 0, 0);
    var r := InitialRing<T>(z);
    forall i | 0 <= i < Capacity(z) ensures r.slots[SlotOf(z, i)] == Uninitialised { SlotInRange(z, i); }
  }

  /** A run so far, with the values that calls have reported as pushed and as popped. */
  datatype Trace<T> = Trace(ring: Ring<T>, history: History<T>, pushed: seq<T>, popped: seq<T>)

  ghost predicate Feasible<T>(z: Size, actions: seq<Action<T>>)
    requires ValidSize(z)
    decreases |actions|, 0
  {
    actions == [] ||
    var before := actions[..|actions| - 1];
    Feasible(z, before) && Enabled(After(z, before).ring, actions[|actions| - 1])
  }

  ghost function After<T>(z: Size, actions: seq<Action<T>>): (t: Trace<T>)
    requires ValidSize(z) && Feasible(z, actions)
    ensures RingInv(z, t.ring, t.history)
    decreases |actions|, 1
  {
    if actions == [] then
      InitialRingInv<T>(z);
      Trace(InitialRing(z), History([], 0), [], [])
    else
      Extend(z, After(z, actions[..|actions| - 1]), actions[|actions| - 1])
  }

  ghost function Extend<T>(z: Size, t: Trace<T>, a: Action<T>): (t': Trace<T>)
    requires RingInv(z, t.ring, t.history) && Enabled(t.ring, a)
    ensures RingInv(z, t'.ring, t'.history)
  {
    StepRefinesFifo(z, t.ring, t.history, a);
    var n := Next(z, t.ring, t.history, a);
    Trace(n.0, n.2,
          t.pushed + (if n.1.Pushed? then [n.1.value] else []),
          t.popped + (if n.1.Popped? then [n.1.value] else []))
  }

  ghost predicate InOrder<T>(z: Size, t: Trace<T>)
    requires RingInv(z, t.ring, t.history)
  {
    InvOrders(z, t.ring, t.history);
    t.pushed == t.popped + Queue(t.ring, t.history)
  }

  lemma ExtendInOrder<T>(z: Size, t: Trace<T>, a: Action<T>)
    requires RingInv(z, t.ring, t.history) && Enabled(t.ring, a) && InOrder(z, t)
    ensures InOrder(z, Extend(z, t, a))
  {
    hide RingInv, Next, Enabled, Queue;
    StepRefinesFifo(z, t.ring, t.history, a);
    var n := Next(z, t.ring, t.history, a);
    InvOrders(z, t.ring, t.history);
    InvOrders(z, n.0, n.2);
    assert FifoStep(Capacity(z), Queue(t.ring, t.history), n.1, Queue(n.0, n.2));
  }

  lemma InvOrders<T>(z: Size, r: Ring<T>, h: History<T>)
    requires RingInv(z, r, h)
    ensures 1 <= |r.heads| <= |r.tails| <= |h.written| + 1
    ensures |Queue(r, h)| <= Capacity(z)
  {
    hide SlotOf, Word;
  }

  /** In every interleaving, values come out in the order they went in, none lost, none twice. */
  lemma {:induction false} PoppedIsAPrefixOfPushed<T>(z: Size, actions: seq<Action<T>>)
    requires ValidSize(z) && Feasible(z, actions)
    ensures var t := After(z, actions);
      && InOrder(z, t)
      && t.popped <= t.pushed
      && 1 <= |t.ring.heads| <= |t.ring.tails| <= |t.history.written| + 1
      && |Queue(t.ring, t.history)| <= Capacity(z)
    decreases |actions|
  {
    hide RingInv, Extend, Enabled, Queue;
    var t := After(z, actions);
    InvOrders(z, t.ring, t.history);
    if actions == [] {
      InitialRingInv<T>(z);
    } else {
      PoppedIsAPrefixOfPushed(z, actions[..|actions| - 1]);
      ExtendInOrder(z, After(z, actions[..|actions| - 1]), actions[|actions| - 1]);
    }
  }

  // ----- one call run to its end without interruption -----

  predicate Idle<T>(r: Ring<T>) {
    r.producer.PIdle? && r.consumer.CIdle?
  }

  ghost predicate IdleInv<T>(z: Size, r: Ring<T>, h: History<T>) {
    RingInv(z, r, h) && Idle(r)
  }

  /** The value comes back when the push was rejected. */
  function SoloPush<T>(z: Size, r: Ring<T>, v: T): (Ring<T>, Option<T>)
    requires |r.heads| > 0 && SlotIndex(z, r.localTail) < |r.slots|
  {
    var newest := |r.heads| - 1;
    var r1 := r.(producer := if LooksFull(z, r) then PRefresh(v) else PWrite(v));
    var s := if r1.producer.PRefresh? then StepProducer(z, r1, newest) else (r1, Quiet);
    if s.1.RejectedFull? then (s.0, Some(v))
    else
      var written := StepProducer(z, s.0, newest).0;
      (StepProducer(z, written, newest).0, None)
  }

  ghost function Contents<T>(h: History<T>): seq<T>
    requires h.taken <= |h.written|
  {
    h.written[h.taken..]
  }

  lemma IdleFacts<T>(z: Size, r: Ring<T>, h: History<T>)
    requires RingInv(z, r, h) && Idle(r)
    ensures |r.heads| == h.taken + 1 && |r.tails| == |h.written| + 1 && h.taken <= |h.written|
    ensures Queue(r, h) == Contents(h)
    ensures SlotIndex(z, r.localTail) < |r.slots| && SlotIndex(z, r.localHead) < |r.slots|
  {
    hide SlotOf, SlotIndex, Word, Capacity;
    SafeAccess(z, r, h);
    assert h.written[..|h.written|] == h.written;
  }

  lemma PWriteHasRoom<T>(z: Size, r: Ring<T>, h: History<T>)
    requires RingInv(z, r, h) && r.producer.PWrite? && r.consumer.CIdle?
    ensures h.taken <= |h.written| < h.taken + Capacity(z)
    ensures SlotIndex(z, r.localTail) < |r.slots|
  {
    hide SlotOf, SlotIndex, Word, Capacity;
    SafeAccess(z, r, h);
  }

  lemma WriteAndPublish<T>(z: Size, r: Ring<T>, h: History<T>)
    requires RingInv(z, r, h) && r.producer.PWrite? && r.consumer.CIdle?
    ensures |r.heads| > 0 && SlotIndex(z, r.localTail) < |r.slots|
    ensures var w := StepProducer(z, r, |r.heads| - 1).0;
      IdleInv(z, StepProducer(z, w, |r.heads| - 1).0, h.(written := h.written + [r.producer.value]))
  {
    hide RingInv, SlotIndex, WrappingAdd;
    HeadSeenInRange(z, r, h);
    PWriteHasRoom(z, r, h);
    var newest := |r.heads| - 1;
    ProducerWrite(z, r, h, newest);
    HeadSeenInRange(z, StepProducer(z, r, newest).0, h.(written := h.written + [r.producer.value]));
    ProducerPublish(z, StepProducer(z, r, newest).0, h.(written := h.written + [r.producer.value]), newest);
  }

  lemma SoloPushIsFifo<T>(z: Size, r: Ring<T>, h: History<T>, v: T)
    requires RingInv(z, r, h) && Idle(r)
    ensures |r.heads| > 0 && SlotIndex(z, r.localTail) < |r.slots| && h.taken <= |h.written|
    ensures var s := SoloPush(z, r, v);
      if |Contents(h)| == Capacity(z)
      then s.1 == Some(v) && IdleInv(z, s.0, h)
      else s.1 == None && IdleInv(z, s.0, h.(written := h.written + [v])) && |Contents(h)| < Capacity(z)
  {
    hide RingInv, SlotIndex, Capacity, WrappingAdd, LooksFull;
    IdleFacts(z, r, h);
    HeadSeenInRange(z, r, h);
    CallPushKeepsInv(z, r, h, v);
    var newest := |r.heads| - 1;
    var r1 := r.(producer := if LooksFull(z, r) then PRefresh(v) else PWrite(v));
    if r1.producer.PRefresh? {
      ProducerRefresh(z, r1, h, newest);
      var r2 := StepProducer(z, r1, newest).0;
      if r2.producer.PWrite? {
        PWriteHasRoom(z, r2, h);
        WriteAndPublish(z, r2, h);
      } else {
        IdleFacts(z, r2, h);
      }
    } else {
      PWriteHasRoom(z, r1, h);
      WriteAndPublish(z, r1, h);
    }
  }

  lemma HeadSeenInRange<T>(z: Size, r: Ring<T>, h: History<T>)
    requires RingInv(z, r, h)
    ensures r.headSeen < |r.heads| && r.tailSeen < |r.tails|
  {
  }

  ghost predicate LiveAtHead<T>(z: Size, r: Ring<T>) {
    SlotIndex(z, r.localHead) < |r.slots| && r.slots[SlotIndex(z, r.localHead)].Live?
  }

  ghost function SoloPop<T>(z: Size, r: Ring<T>): (Ring<T>, Option<T>)
    requires |r.tails| > 0
  {
    var newest := |r.tails| - 1;
    var r1 := r.(consumer := if LooksEmpty(r) then CRefresh else CRead);
    var s := if r1.consumer.CRefresh? then StepConsumer(z, r1, newest) else (r1, Quiet);
    if s.1.FoundEmpty? || !LiveAtHead(z, s.0) then (s.0, None)
    else
      var read := StepConsumer(z, s.0, newest).0;
      (StepConsumer(z, read, newest).0, Some(read.consumer.value))
  }

  lemma CReadHasValue<T>(z: Size, r: Ring<T>, h: History<T>)
    requires RingInv(z, r, h) && r.consumer.CRead? && r.producer.PIdle?
    ensures h.taken < |h.written|
    ensures LiveAtHead(z, r) && r.slots[SlotIndex(z, r.localHead)] == Live(h.written[h.taken])
  {
    hide SlotIndex, Word, Capacity, SlotOf;
    TakeSlot(z, r.slots, h);
    SlotOfCounter(z, h.taken);
  }

  lemma ReadAndPublish<T>(z: Size, r: Ring<T>, h: History<T>)
    requires RingInv(z, r, h) && r.consumer.CRead? && r.producer.PIdle?
    ensures |r.tails| > 0 && LiveAtHead(z, r) && h.taken < |h.written|
    ensures var read := StepConsumer(z, r, |r.tails| - 1).0;
      && read.consumer == CPublish(h.written[h.taken])
      && IdleInv(z, StepConsumer(z, read, |r.tails| - 1).0, h.(taken := h.taken + 1))
  {
    hide RingInv, SlotIndex, WrappingAdd;
    HeadSeenInRange(z, r, h);
    CReadHasValue(z, r, h);
    var newest := |r.tails| - 1;
    ConsumerRead(z, r, h, newest);
    HeadSeenInRange(z, StepConsumer(z, r, newest).0, h.(taken := h.taken + 1));
    ConsumerPublish(z, StepConsumer(z, r, newest).0, h.(taken := h.taken + 1), newest);
  }

  lemma SoloPopIsFifo<T>(z: Size, r: Ring<T>, h: History<T>)
    requires RingInv(z, r, h) && Idle(r)
    ensures |r.tails| > 0 && h.taken <= |h.written|
    ensures var s := SoloPop(z, r);
      if Contents(h) == [] then s.1 == None && IdleInv(z, s.0, h)
      else s.1 == Some(Contents(h)[0]) && IdleInv(z, s.0, h.(taken := h.taken + 1))
  {
    hide RingInv, SlotIndex, Capacity, WrappingAdd, LooksEmpty, LiveAtHead, Word, SlotOf;
    IdleFacts(z, r, h);
    HeadSeenInRange(z, r, h);
    CallPopKeepsInv(z, r, h);
    var newest := |r.tails| - 1;
    if LooksEmpty(r) {
      var r1 := r.(consumer := CRefresh);
      ConsumerRefresh(z, r1, h, newest);
      var r2 := StepConsumer(z, r1, newest).0;
      if r2.consumer.CRead? {
        ReadAndPublish(z, r2, h);
      } else {
        IdleFacts(z, r2, h);
      }
    } else {
      ReadAndPublish(z, r.(consumer := CRead), h);
    }
  }

  // ----- the same calls on the fields of the buffer -----

  /** After a look at the published head, full as seen is full. */
  lemma RefreshedHead<T>(z: Size, r: Ring<T>, h: History<T>)
    requires IdleInv(z, r, h)
    ensures |r.heads| > 0 && h.taken <= |h.written|
    ensures var r' := r.(cachedHead := r.heads[|r.heads| - 1], headSeen := |r.heads| - 1);
      IdleInv(z, r', h) && (LooksFull(z, r') <==> |Contents(h)| == Capacity(z))
  {
    hide SlotsHold, LooksFull, Capacity, Word, SlotIndex;
    var r' := r.(cachedHead := r.heads[|r.heads| - 1], headSeen := |r.heads| - 1);
    SlotsBounds(z, r.slots, h);
    FullCheck(z, r', h, h.taken);
    ConsumerFrame(z, r, h, r', h);
  }

  lemma NotFullAsSeen<T>(z: Size, r: Ring<T>, h: History<T>)
    requires IdleInv(z, r, h)
    ensures h.taken <= |h.written| && (!LooksFull(z, r) ==> |Contents(h)| < Capacity(z))
  {
    hide SlotsHold, LooksFull, Capacity, Word, SlotIndex;
    SlotsBounds(z, r.slots, h);
    FullCheck(z, r, h, r.headSeen);
  }

  ghost function AfterPublish<T>(z: Size, r: Ring<T>, v: T): Ring<T>
    requires SlotIndex(z, r.localTail) < |r.slots|
  {
    r.(slots := r.slots[SlotIndex(z, r.localTail) := Live(v)],
       localTail := WrappingAdd(z, r.localTail, 1), tails := r.tails + [WrappingAdd(z, r.localTail, 1)])
  }

  lemma Published<T>(z: Size, r: Ring<T>, h: History<T>, v: T)
    requires IdleInv(z, r, h) && !LooksFull(z, r)
    ensures SlotIndex(z, r.localTail) < |r.slots| == Capacity(z)
    ensures IdleInv(z, AfterPublish(z, r, v), h.(written := h.written + [v]))
  {
    hide RingInv, SlotIndex, WrappingAdd, LooksFull;
    var r1 := r.(producer := PWrite(v));
    CallPushKeepsInv(z, r, h, v);
    WriteAndPublish(z, r1, h);
    SlotCount(z, r, h);
    var w := StepProducer(z, r1, |r.heads| - 1).0;
    assert StepProducer(z, w, |r.heads| - 1).0 == AfterPublish(z, r, v);
  }

  lemma SlotCount<T>(z: Size, r: Ring<T>, h: History<T>)
    requires RingInv(z, r, h)
    ensures |r.slots| == Capacity(z)
  {
  }

  lemma ContentsGrow<T>(h: History<T>, v: T)
    requires h.taken <= |h.written|
    ensures Contents(h.(written := h.written + [v])) == Contents(h) + [v]
  {
  }

  /** After a look at the published tail, empty as seen is empty. */
  lemma RefreshedTail<T>(z: Size, r: Ring<T>, h: History<T>)
    requires IdleInv(z, r, h)
    ensures |r.tails| > 0 && h.taken <= |h.written|
    ensures var r' := r.(cachedTail := r.tails[|r.tails| - 1], tailSeen := |r.tails| - 1);
      IdleInv(z, r', h) && (LooksEmpty(r') <==> Contents(h) == [])
  {
    hide SlotsHold, LooksEmpty, Capacity, Word, SlotIndex;
    var r' := r.(cachedTail := r.tails[|r.tails| - 1], tailSeen := |r.tails| - 1);
    SlotsBounds(z, r.slots, h);
    EmptyCheck(z, r', h, |h.written|);
    ProducerFrame(z, r, h, r', h);
  }

  lemma NotEmptyAsSeen<T>(z: Size, r: Ring<T>, h: History<T>)
    requires IdleInv(z, r, h)
    ensures h.taken <= |h.written| && (!LooksEmpty(r) ==> Contents(h) != [])
  {
    hide SlotsHold, LooksEmpty, Capacity, Word, SlotIndex;
    SlotsBounds(z, r.slots, h);
    EmptyCheck(z, r, h, r.tailSeen);
  }

  ghost function AfterTake<T>(z: Size, r: Ring<T>): Ring<T>
    requires SlotIndex(z, r.localHead) < |r.slots|
  {
    r.(slots := r.slots[SlotIndex(z, r.localHead) := Uninitialised],
       localHead := WrappingAdd(z, r.localHead, 1), heads := r.heads + [WrappingAdd(z, r.localHead, 1)])
  }

  lemma Taken<T>(z: Size, r: Ring<T>, h: History<T>)
    requires IdleInv(z, r, h) && !LooksEmpty(r)
    ensures SlotIndex(z, r.localHead) < |r.slots| == Capacity(z) && h.taken < |h.written|
    ensures r.slots[SlotIndex(z, r.localHead)] == Live(h.written[h.taken])
    ensures IdleInv(z, AfterTake(z, r), h.(taken := h.taken + 1))
  {
    hide RingInv, SlotIndex, WrappingAdd, LooksEmpty;
    var r1 := r.(consumer := CRead);
    CallPopKeepsInv(z, r, h);
    CReadHasValue(z, r1, h);
    ReadAndPublish(z, r1, h);
    SlotCount(z, r, h);
    var w := StepConsumer(z, r1, |r.tails| - 1).0;
    assert StepConsumer(z, w, |r.tails| - 1).0 == AfterTake(z, r);
  }

  lemma ContentsShrink<T>(h: History<T>)
    requires h.taken < |h.written|
    ensures Contents(h) == [h.written[h.taken]] + Contents(h.(taken := h.taken + 1))
  {
  }

  lemma NoContents<T>()
    ensures Contents<T>(History([], 0)) == []
  {
  }

  lemma DropStarts<T>(z: Size, r: Ring<T>, h: History<T>)
    requires RingInv(z, r, h) && Idle(r)
    ensures ValidSize(z) && SlotsHold(z, r.slots, h)
    ensures h.taken <= |h.written| <= h.taken + Capacity(z)
    ensures |r.heads| > 0 && r.heads[|r.heads| - 1] == Word(z, h.taken)
    ensures |r.tails| > 0 && r.tails[|r.tails| - 1] == Word(z, |h.written|)
  {
    hide Word, Capacity, SlotOf;
  }

  /** Counters at most one capacity apart are equal as words only when they are equal. */
  lemma OneWord(z: Size, n: nat, m: nat, from: nat)
    requires ValidSize(z) && from <= n <= m <= from + Capacity(z)
    ensures Word(z, n) == Word(z, m) <==> n == m
  {
    CapacityFits(z);
    WrappedEqual(m, n, Modulus(z));
  }

  lemma NoSlotLive<T>(z: Size, slots: seq<Slot<T>>, h: History<T>)
    requires SlotsHold(z, slots, h) && h.taken == |h.written|
    ensures forall j :: 0 <= j < |slots| ==> slots[j] == Uninitialised
  {
    forall j | 0 <= j < |slots| ensures slots[j] == Uninitialised {
      var i := h.taken + (j - h.taken) % Capacity(z);
      ModAdd(j - h.taken, h.taken, Capacity(z));
      ModIs(j, Capacity(z), 0, j);
      assert SlotOf(z, i) == j;
    }
  }

  // ----- the buffer itself, and its destructor -----

  method FreshSlots<T>(n: nat) returns (slots: array<Slot<T>>)
    ensures fresh(slots) && slots[..] == Unwritten(n)
  {
    slots := new Slot<T>[n](_ => Uninitialised);
    assert |slots[..]| == n;
    assert forall i :: 0 <= i < n ==> slots[..][i] == Unwritten<T>(n)[i];
  }

  /** The shared store with both handles, at moments when no call is in progress. */
  class SpscRingBuffer<T> {
    const size: Size
    const capacityMask: nat
    const slots: array<Slot<T>>
    var headIndex: nat
    var tailIndex: nat
    var localTailIndex: nat
    var cachedHeadIndex: nat
    var localHeadIndex: nat
    var cachedTailIndex: nat
    ghost var heads: seq<nat>
    ghost var tails: seq<nat>
    ghost var headSeen: nat
    ghost var tailSeen: nat
    ghost var history: History<T>

    ghost function View(): Ring<T>
      reads this, slots
    {
      Ring(slots[..], heads, tails, localTailIndex, cachedHeadIndex, headSeen, PIdle,
           localHeadIndex, cachedTailIndex, tailSeen, CIdle)
    }

    /** The words in memory are the newest of those ever stored. */
    ghost predicate Current()
      reads this
    {
      && capacityMask == Capacity(size) - 1
      && |heads| > 0 && headIndex == heads[|heads| - 1]
      && |tails| > 0 && tailIndex == tails[|tails| - 1]
    }

    ghost predicate Valid()
      reads this, slots
    {
      Current() && history.taken <= |history.written| && RingInv(size, View(), history)
    }

    constructor (size: Size)
      requires ValidSize(size)
      ensures Valid() && Contents(history) == [] && this.size == size
      ensures fresh(slots)
    {
      hide RingInv, Capacity, Contents, Unwritten;
      this.size := size;
      capacityMask := Capacity(size) - 1;
      var unwritten := FreshSlots<T>(Capacity(size));
      slots := unwritten;
      headIndex, tailIndex := 0, 0;
      localTailIndex, cachedHeadIndex := 0, 0;
      localHeadIndex, cachedTailIndex := 0, 0;
      heads, tails, headSeen, tailSeen, history := [0], [0], 0, 0, History([], 0);
      new;
      InitialRingInv<T>(size);
      NoContents<T>();
      assert View() == InitialRing<T>(size);
    }

    /** Gives the value back when the buffer is full; otherwise it joins the queue. */
    method TryPush(value: T) returns (rejected: Option<T>)
      requires Valid()
      modifies this, slots
      ensures Valid()
      ensures rejected == if |old(Contents(history))| == Capacity(size) then Some(value) else None
      ensures Contents(history) == old(Contents(history)) + (if rejected.Some? then [] else [value])
    {
      hide RingInv, WrappingAdd, WrappingSub, Capacity, Contents;
      if WrappingSub(size, localTailIndex, cachedHeadIndex) == capacityMask + 1 {
        RefreshedHead(size, View(), history);
        cachedHeadIndex := headIndex;
        headSeen := |heads| - 1;
        if WrappingSub(size, localTailIndex, cachedHeadIndex) == capacityMask + 1 {
          return Some(value);
        }
      }
      NotFullAsSeen(size, View(), history);
      WriteAndPublishValue(value);
      return None;
    }

    /** The slot first, the published counter last. */
    method WriteAndPublishValue(value: T)
      requires Valid() && !LooksFull(size, View())
      modifies this, slots
      ensures Valid() && Contents(history) == old(Contents(history)) + [value]
    {
      hide RingInv, WrappingAdd, WrappingSub, Capacity, Contents, LooksFull;
      Published(size, View(), history, value);
      ContentsGrow(history, value);
      ghost var expected := AfterPublish(size, View(), value);
      slots[And(localTailIndex, capacityMask)] := Live(value);
      localTailIndex := WrappingAdd(size, localTailIndex, 1);
      tailIndex := localTailIndex;
      tails := tails + [localTailIndex];
      history := history.(written := history.written + [value]);
      assert View() == expected;
    }

    /** Moves the oldest value out, if there is one. */
    method TryPop() returns (popped: Option<T>)
      requires Valid()
      modifies this, slots
      ensures Valid()
      ensures popped == if old(Contents(history)) == [] then None else Some(old(Contents(history))[0])
      ensures Contents(history) == if popped.None? then old(Contents(history)) else old(Contents(history))[1..]
    {
      hide RingInv, WrappingAdd, And, Capacity, Contents;
      if localHeadIndex == cachedTailIndex {
        RefreshedTail(size, View(), history);
        cachedTailIndex := tailIndex;
        tailSeen := |tails| - 1;
        if localHeadIndex == cachedTailIndex { return None; }
      }
      NotEmptyAsSeen(size, View(), history);
      var value := TakeAndPublishValue();
      return Some(value);
    }

    /** The slot first, the published counter last. */
    method TakeAndPublishValue() returns (value: T)
      requires Valid() && !LooksEmpty(View())
      modifies this, slots
      ensures Valid() && old(Contents(history)) != [] && value == old(Contents(history))[0]
      ensures Contents(history) == old(Contents(history))[1..]
    {
      hide RingInv, WrappingAdd, Capacity, Contents, LooksEmpty;
      Taken(size, View(), history);
      ContentsShrink(history);
      ghost var expected := AfterTake(size, View());
      var slotIndex := And(localHeadIndex, capacityMask);
      value := slots[slotIndex].value;
      slots[slotIndex] := Uninitialised;
      localHeadIndex := WrappingAdd(size, localHeadIndex, 1);
      headIndex := localHeadIndex;
      heads := heads + [localHeadIndex];
      history := history.(taken := history.taken + 1);
      assert View() == expected;
    }

    /** Drops exactly the values that were pushed and not popped, each once, in order. */
    method Drop() returns (dropped: seq<T>)
      requires Valid()
      modifies slots
      ensures dropped == old(Contents(history))
      ensures forall i :: 0 <= i < slots.Length ==> slots[i] == Uninitialised
    {
      dropped := DropLive(size, View(), history, slots, headIndex, tailIndex);
    }
  }

  /** The destructor's loop, on the slots and the two published counters of a ring at rest. */
  method DropLive<T>(z: Size, ghost r: Ring<T>, ghost h: History<T>, slots: array<Slot<T>>, head: nat, tail: nat)
    returns (dropped: seq<T>)
    requires AtRest(z, r, h, slots[..], head, tail)
    modifies slots
    ensures h.taken <= |h.written| && dropped == Contents(h)
    ensures forall i :: 0 <= i < slots.Length ==> slots[i] == Uninitialised
  {
    hide Word, SlotOf, And, Capacity, WrappingAdd, WrappingSub, SlotsHold, RingInv, Pow2, Modulus;
    DropStarts(z, r, h);
    dropped := [];
    var capacityMask := slots.Length - 1;
    MaskOfSlots(z, slots[..], h);
    var cursor := head;
    ghost var n := h.taken;
    OneWord(z, n, |h.written|, h.taken);
    while cursor != tail
      invariant cursor == tail <==> n == |h.written|
      invariant h.taken <= n <= |h.written|
      invariant cursor == Word(z, n) && tail == Word(z, |h.written|)
      invariant SlotsHold(z, slots[..], History(h.written, n))
      invariant dropped == h.written[h.taken..n]
      decreases |h.written| - n
    {
      SlotDropped(z, slots[..], h, n, cursor);
      SliceGrows(h.written, h.taken, n);
      OneWord(z, n + 1, |h.written|, h.taken);
      ghost var after := slots[..][SlotIndex(z, cursor) := Uninitialised];
      var slotIndex := And(cursor, capacityMask);
      dropped := dropped + [slots[slotIndex].value];
      slots[slotIndex] := Uninitialised;
      assert slots[..] == after;
      cursor := WrappingAdd(z, cursor, 1);
      n := n + 1;
    }
    NoSlotLive(z, slots[..], History(h.written, n));
  }

  /** One slot of the destructor's loop. */
  lemma SlotDropped<T>(z: Size, slots: seq<Slot<T>>, h: History<T>, n: nat, cursor: nat)
    requires ValidSize(z) && n < |h.written| && cursor == Word(z, n)
    requires SlotsHold(z, slots, History(h.written, n))
    ensures SlotIndex(z, cursor) < |slots| && slots[SlotIndex(z, cursor)] == Live(h.written[n])
    ensures SlotsHold(z, slots[SlotIndex(z, cursor) := Uninitialised], History(h.written, n + 1))
    ensures WrappingAdd(z, cursor, 1) == Word(z, n + 1)
  {
    hide Word, SlotOf, SlotIndex, Capacity, WrappingAdd, SlotsHold, And, Pow2, Modulus;
    TakeSlot(z, slots, History(h.written, n));
    SlotOfCounter(z, n);
  }

  lemma MaskOfSlots<T>(z: Size, slots: seq<Slot<T>>, h: History<T>)
    requires SlotsHold(z, slots, h)
    ensures |slots| == Capacity(z)
  {
  }

  /** Memory as both handles leave it behind when neither is inside a call. */
  ghost predicate AtRest<T>(z: Size, r: Ring<T>, h: History<T>, slots: seq<Slot<T>>, head: nat, tail: nat) {
    && IdleInv(z, r, h) && slots == r.slots
    && |r.heads| > 0 && head == r.heads[|r.heads| - 1]
    && |r.tails| > 0 && tail == r.tails[|r.tails| - 1]
  }

  /**
   After any interleaving that ends with both threads outside a call, the destructor run on what is
   in memory drops the rest: every value pushed was popped once or is dropped once, in order.
   */
  method DropAfterRun<T>(z: Size, ghost actions: seq<Action<T>>, slots: array<Slot<T>>, head: nat, tail: nat)
    returns (dropped: seq<T>)
    requires ValidSize(z) && Feasible(z, actions)
    requires var t := After(z, actions); Idle(t.ring) && AtRest(z, t.ring, t.history, slots[..], head, tail)
    modifies slots
    ensures var t := After(z, actions); t.pushed == t.popped + dropped
  {
    hide RingInv, Feasible, After, Queue, AtRest;
    PoppedOrLeft(z, actions);
    dropped := DropLive(z, After(z, actions).ring, After(z, actions).history, slots, head, tail);
  }

  lemma PoppedOrLeft<T>(z: Size, actions: seq<Action<T>>)
    requires ValidSize(z) && Feasible(z, actions) && Idle(After(z, actions).ring)
    ensures var t := After(z, actions);
      t.history.taken <= |t.history.written| && t.pushed == t.popped + Contents(t.history)
  {
    hide RingInv, Feasible, After, Queue;
    var t := After(z, actions);
    PoppedIsAPrefixOfPushed(z, actions);
    IdleFacts(z, t.ring, t.history);
  }
}
