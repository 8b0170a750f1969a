/** Pseudo-random scripts for the replay harness: any seed gives a script that the harness accepts. */
module ScriptGenerator {
  import opened OrderTypes
  import opened SplitMix
  import opened ReplayHarness

  const Accounts := ["acctA", "acctB", "acctC", "acctD"]
  const Prices := [80, 90, 100, 110, 120]

  function RolledType(roll: nat, side: Side): OrderType {
    if roll <= 6 then Limit
    else if roll <= 8 then Market
    else if roll == 9 && side == Buy then StopLossLimit
    else StopLossMarket
  }

  /** Of ten rolls, seven give a limit order, two a market order and one a stop, with a limit on the Buy side alone. */
  lemma TheMixInTenRolls(side: Side)
    ensures |set r: nat | r < 10 && RolledType(r, side) == Limit| == 7
    ensures |set r: nat | r < 10 && RolledType(r, side) == Market| == 2
    ensures |set r: nat | r < 10 && RolledType(r, side) == StopLossLimit| == (if side == Buy then 1 else 0)
    ensures |set r: nat | r < 10 && RolledType(r, side) == StopLossMarket| == (if side == Buy then 0 else 1)
  {
    assert (set r: nat | r < 10 && RolledType(r, side) == Limit) == {0, 1, 2, 3, 4, 5, 6};
    assert (set r: nat | r < 10 && RolledType(r, side) == Market) == {7, 8};
    assert (set r: nat | r < 10 && RolledType(r, side) == StopLossLimit) == (if side == Buy then {9} else {});
    assert (set r: nat | r < 10 && RolledType(r, side) == StopLossMarket) == (if side == Buy then {} else {9});
  }

  /** Orders of the mix: known accounts and prices, a small quantity, a trigger exactly on stops. */
  predicate InTheMix(o: Order) {
    && o.account in Accounts && o.limitPrice in Prices && 1 <= o.quantity <= 20
    && (o.stopTrigger.Some? <==> IsStop(o)) && (o.stopTrigger.Some? ==> o.stopTrigger.value in Prices)
    && (o.orderType == StopLossLimit ==> o.side == Buy)
  }

  predicate OrdersInTheMix(ops: seq<ScriptedOperation>) {
    forall i :: 0 <= i < |ops| && ops[i].Submission? ==> InTheMix(ops[i].order)
  }

  lemma ScriptSnoc(ops: seq<ScriptedOperation>, op: ScriptedOperation)
    requires ValidScript(ops) && OrdersInTheMix(ops)
    requires match op
      case Submission(o, _) => WellFormed(o) && InTheMix(o)
      case CancelPreviousSubmission(index, _) => index < SubmissionCount(ops)
    ensures ValidScript(ops + [op]) && OrdersInTheMix(ops + [op])
    ensures SubmissionCount(ops + [op]) == SubmissionCount(ops) + (if op.Submission? then 1 else 0)
  {
    assert (ops + [op])[..|ops|] == ops;
  }

  // ----- the script as a function of the seed -----

  /** Draw number `k` from a state, reduced to a range. */
  function Roll(state: Word64, k: nat, bound: nat): (r: nat)
    requires bound > 0
    ensures r < bound
  {
    Draw(state, k) % bound
  }

  function DrawnSide(state: Word64): Side {
    if Roll(state, 0, 2) == 0 then Buy else Sell
  }

  function DrawnType(state: Word64): OrderType {
    RolledType(Roll(state, 1, 10), DrawnSide(state))
  }

  function IsStopType(t: OrderType): bool {
    t == StopLossLimit || t == StopLossMarket
  }

  /** Side, type, account, price and quantity take one draw each, the trigger of a stop a sixth. */
  function DrawnOrder(state: Word64): Order {
    Order(
      Accounts[Roll(state, 2, |Accounts|)], DrawnSide(state), DrawnType(state), Prices[Roll(state, 3, |Prices|)],
      if IsStopType(DrawnType(state)) then Some(Prices[Roll(state, 5, |Prices|)]) else None,
      1 + Roll(state, 4, 20), 0)
  }

  function DrawsOfOrder(state: Word64): nat {
    if IsStopType(DrawnType(state)) then 6 else 5
  }

  /** Until there is a submission to cancel, no draw decides between cancelling and submitting. */
  function Cancels(state: Word64, submissions: nat): bool {
    submissions > 0 && Roll(state, 0, 100) < 15
  }

  function OrderState(state: Word64, submissions: nat): Word64 {
    StateAfter(state, if submissions > 0 then 1 else 0)
  }

  function DrawnOperation(state: Word64, submissions: nat, clock: nat -> nat): ScriptedOperation {
    if Cancels(state, submissions) then CancelPreviousSubmission(Roll(state, 1, submissions), clock)
    else Submission(DrawnOrder(OrderState(state, submissions)), clock)
  }

  function StateAfterOperation(state: Word64, submissions: nat): Word64 {
    if Cancels(state, submissions) then StateAfter(state, 2)
    else
      var from := OrderState(state, submissions);
      StateAfter(from, DrawsOfOrder(from))
  }

  /** The script that a state gives, after so many submissions. */
  function Script(state: Word64, submissions: nat, count: nat, clock: nat -> nat): (ops: seq<ScriptedOperation>)
    ensures |ops| == count
    decreases count
  {
    if count == 0 then []
    else
      var op := DrawnOperation(state, submissions, clock);
      var submitted := if op.Submission? then 1 else 0;
      [op] + Script(StateAfterOperation(state, submissions), submissions + submitted, count - 1, clock)
  }

  lemma ScriptUnfolds(state: Word64, submissions: nat, count: nat, clock: nat -> nat)
    requires count > 0
    ensures var op := DrawnOperation(state, submissions, clock);
      var submitted := if op.Submission? then 1 else 0;
      Script(state, submissions, count, clock)
        == [op] + Script(StateAfterOperation(state, submissions), submissions + submitted, count - 1, clock)
  {
    hide DrawnOperation, StateAfterOperation;
  }

  /** A longer script of the same seed starts with the shorter one. */
  lemma {:induction false} ScriptsExtend(state: Word64, submissions: nat, n: nat, m: nat, clock: nat -> nat)
    requires n <= m
    ensures Script(state, submissions, n, clock) == Script(state, submissions, m, clock)[..n]
    decreases n
  {
    hide DrawnOperation, StateAfterOperation, Script;
    if n > 0 {
      var op, next := DrawnOperation(state, submissions, clock), StateAfterOperation(state, submissions);
      var submitted := submissions + (if op.Submission? then 1 else 0);
      ScriptUnfolds(state, submissions, n, clock);
      ScriptUnfolds(state, submissions, m, clock);
      ScriptsExtend(next, submitted, n - 1, m - 1, clock);
      assert ([op] + Script(next, submitted, m - 1, clock))[..n]
          == [op] + Script(next, submitted, m - 1, clock)[..n - 1];
    } else {
      assert Script(state, submissions, 0, clock) == [];
    }
  }

  /** One draw after `k` draws. */
  lemma DrawOn(state: Word64, k: nat)
    ensures Draw(StateAfter(state, k), 0) == Draw(state, k)
    ensures StateAfter(StateAfter(state, k), 1) == StateAfter(state, k + 1)
  {
    hide Draw, StateAfter;
    ShiftedDraw(state, k, 0);
    StatesCompose(state, k, 1);
  }

  method RollNext(rng: SplitMix64, ghost from: Word64, ghost k: nat, bound: nat) returns (r: nat)
    requires bound > 0 && rng.state == StateAfter(from, k)
    modifies rng
    ensures r == Roll(from, k, bound) && rng.state == StateAfter(from, k + 1)
  {
    hide Draw, StateAfter;
    DrawOn(from, k);
    r := rng.NextInRange(bound);
  }

  lemma NoDraws(state: Word64)
    ensures StateAfter(state, 0) == state
  {
  }

  // ----- the generator -----

  method RandomOrder(rng: SplitMix64) returns (o: Order)
    modifies rng
    ensures o == DrawnOrder(old(rng.state)) && rng.state == StateAfter(old(rng.state), DrawsOfOrder(old(rng.state)))
    ensures WellFormed(o) && InTheMix(o)
  {
    hide Roll, StateAfter;
    ghost var from := rng.state;
    NoDraws(from);
    var sideRoll := RollNext(rng, from, 0, 2);
    var side := if sideRoll == 0 then Buy else Sell;
    var roll := RollNext(rng, from, 1, 10);
    var orderType := RolledType(roll, side);
    var account := RollNext(rng, from, 2, |Accounts|);
    var price := RollNext(rng, from, 3, |Prices|);
    var quantity := RollNext(rng, from, 4, 20);
    var trigger := None;
    if orderType == StopLossLimit || orderType == StopLossMarket {
      var triggerIndex := RollNext(rng, from, 5, |Prices|);
      trigger := Some(Prices[triggerIndex]);
    }
    o := Order(Accounts[account], side, orderType, Prices[price], trigger, 1 + quantity, 0);
  }

  method RandomOperation(rng: SplitMix64, submissions: nat, clock: nat -> nat) returns (op: ScriptedOperation)
    modifies rng
    ensures op == DrawnOperation(old(rng.state), submissions, clock)
    ensures rng.state == StateAfterOperation(old(rng.state), submissions)
    ensures match op
      case Submission(o, _) => WellFormed(o) && InTheMix(o)
      case CancelPreviousSubmission(index, _) => index < submissions
  {
    hide Roll, StateAfter, DrawnOrder, DrawsOfOrder, InTheMix;
    ghost var from := rng.state;
    NoDraws(from);
    var shouldCancel := false;
    if submissions > 0 {
      var roll := RollNext(rng, from, 0, 100);
      shouldCancel := roll < 15;
    }
    if shouldCancel {
      var index := RollNext(rng, from, 1, submissions);
      op := CancelPreviousSubmission(index, clock);
    } else {
      var order := RandomOrder(rng);
      op := Submission(order, clock);
    }
  }

  /** The seed alone determines the script, and every script is one that the harness accepts. */
  method GeneratePseudoRandomOperationSequence(seed: Word64, count: nat, clock: nat -> nat)
    returns (ops: seq<ScriptedOperation>)
    ensures ops == Script(seed, 0, count, clock)
    ensures |ops| == count && ValidScript(ops) && OrdersInTheMix(ops)
    ensures count > 0 ==> ops[0].Submission?
  {
    hide ValidScript, OrdersInTheMix, InTheMix, SubmissionCount, DrawnOperation, StateAfterOperation;
    var rng := new SplitMix64(seed);
    ops := [];
    var submissions := 0;
    EmptyScript();
    for n := 0 to count
      invariant |ops| == n && ValidScript(ops) && OrdersInTheMix(ops) && submissions == SubmissionCount(ops)
      invariant n == 0 ==> submissions == 0
      invariant n > 0 ==> ops[0].Submission?
      invariant ops + Script(rng.state, submissions, count - n, clock) == Script(seed, 0, count, clock)
    {
      var op := RandomOperation(rng, submissions, clock);
      ScriptSnoc(ops, op);
      ops := ops + [op];
      if op.Submission? { submissions := submissions + 1; }
    }
  }

  lemma EmptyScript()
    ensures ValidScript([]) && OrdersInTheMix([]) && SubmissionCount([]) == 0
  {
  }
}
