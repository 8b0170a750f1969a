/** Scripted runs against a live book, and the claim that replaying their log gives the same book. */
module ReplayHarness {
  import opened OrderTypes
  import opened BookSpec
  import opened BookInvariants
  import opened PriceLevels
  import opened OrderBook
  import opened WriteAheadLog
  import opened Replay
  import opened CrashSafety
  import opened WalBackedBook

  /** A scripted step; a cancellation names an earlier submission by its position among submissions. */
  datatype ScriptedOperation =
    | Submission(order: Order, clock: nat -> nat)
    | CancelPreviousSubmission(submissionIndex: nat, clock: nat -> nat)

  function SubmissionCount(ops: seq<ScriptedOperation>): nat {
    if ops == [] then 0
    else SubmissionCount(ops[..|ops| - 1]) + (if ops[|ops| - 1].Submission? then 1 else 0)
  }

  /** Every cancellation refers to a submission before it, and every order is well formed. */
  predicate ValidScript(ops: seq<ScriptedOperation>) {
    ops == [] ||
    var before, op := ops[..|ops| - 1], ops[|ops| - 1];
    && ValidScript(before)
    && match op
       case Submission(o, _) => WellFormed(o)
       case CancelPreviousSubmission(index, _) => index < SubmissionCount(before)
  }

  /** The commands a script comes to: submission number k is given the id k + 1. */
  function CommandOf(op: ScriptedOperation): Stamped {
    match op
    case Submission(o, clock) => Stamped(SubmitOrder(o), clock)
    case CancelPreviousSubmission(index, clock) => Stamped(CancelOrder(index + 1), clock)
  }

  function Resolved(ops: seq<ScriptedOperation>): seq<Stamped> {
    if ops == [] then [] else Resolved(ops[..|ops| - 1]) + [CommandOf(ops[|ops| - 1])]
  }

  lemma ResolvedSnoc(ops: seq<ScriptedOperation>, i: nat)
    requires i < |ops|
    ensures Resolved(ops[..i + 1]) == Resolved(ops[..i]) + [CommandOf(ops[i])]
    ensures SubmissionCount(ops[..i + 1]) == SubmissionCount(ops[..i]) + (if ops[i].Submission? then 1 else 0)
  {
    assert ops[..i + 1][..i] == ops[..i];
  }

  lemma {:induction false} PrefixesAreValid(ops: seq<ScriptedOperation>, i: nat)
    requires ValidScript(ops) && i < |ops|
    ensures ValidScript(ops[..i + 1])
    decreases |ops|
  {
    if i + 1 < |ops| {
      PrefixesAreValid(ops[..|ops| - 1], i);
      assert ops[..|ops| - 1][..i + 1] == ops[..i + 1];
    } else {
      assert ops[..i + 1] == ops;
    }
  }

  lemma ValidStep(ops: seq<ScriptedOperation>, i: nat)
    requires ValidScript(ops) && i < |ops|
    ensures ops[i].Submission? ==> WellFormed(ops[i].order)
    ensures ops[i].CancelPreviousSubmission? ==> ops[i].submissionIndex < SubmissionCount(ops[..i])
  {
    PrefixesAreValid(ops, i);
    assert ops[..i + 1][..i] == ops[..i];
    assert ops[..i + 1][i] == ops[i];
  }

  lemma {:induction false} ScriptsAreWellFormed(ops: seq<ScriptedOperation>)
    requires ValidScript(ops)
    ensures WellFormedCommands(Commands(Resolved(ops)))
  {
    if ops != [] {
      var before := ops[..|ops| - 1];
      ScriptsAreWellFormed(before);
      var rs := Resolved(ops);
      forall i | 0 <= i < |rs| ensures WellFormedCommand(Commands(rs)[i]) {
        if i < |rs| - 1 { assert Commands(rs)[i] == Commands(Resolved(before))[i]; }
      }
    }
  }

  method ExecuteScriptedOperations(c: Codec, wal: WalBackedOrderBook, ops: seq<ScriptedOperation>)
    returns (ids: seq<nat>)
    requires ValidScript(ops) && wal.InStep(c, [])
    modifies wal.book, wal.walWriter
    ensures wal.InStep(c, LogOf(Resolved(ops))) && wal.book.View() == BookAfter(Resolved(ops))
    ensures |ids| == SubmissionCount(ops) && forall k :: 0 <= k < |ids| ==> ids[k] == k + 1
  {
    hide ValidScript, RecordsOf, LogOf, Log, BookAfter, Submit, Cancel, Inv, ReplayFrom, Replayable,
      WalBackedOrderBook.InStep, WalBackedOrderBook.Valid, OrderBookCore.View, OrderBookCore.Valid;
    ids := [];
    var i := 0;
    NothingReplayed();
    wal.InStepMeans(c, []);
    while i < |ops|
      invariant i <= |ops|
      invariant wal.InStep(c, LogOf(Resolved(ops[..i])))
      invariant wal.book.View().nextId == SubmissionCount(ops[..i]) + 1
      invariant |ids| == SubmissionCount(ops[..i]) && forall k :: 0 <= k < |ids| ==> ids[k] == k + 1
    {
      ValidStep(ops, i);
      ResolvedSnoc(ops, i);
      wal.InStepMeans(c, LogOf(Resolved(ops[..i])));
      LogOfSnoc(Resolved(ops[..i]), CommandOf(ops[i]));
      ReplayRederivesTheRun(Resolved(ops[..i]));
      match ops[i] {
        case Submission(order, clock) =>
          NextIdAfterSubmit(wal.book.View(), order);
          var outcome := wal.SubmitIncomingOrder(c, order, clock, Healthy, LogOf(Resolved(ops[..i])));
          ids := ids + [outcome.value.assignedId];
        case CancelPreviousSubmission(index, clock) =>
          NextIdAfterCancel(wal.book.View(), ids[index]);
          var wasCancelled := wal.CancelOrder(c, ids[index], clock, Healthy, LogOf(Resolved(ops[..i])));
      }
      i := i + 1;
    }
    assert ops[..i] == ops;
    wal.InStepMeans(c, LogOf(Resolved(ops)));
    ReplayRederivesTheRun(Resolved(ops));
  }

  lemma NextIdAfterSubmit(b: Book, o: Order)
    requires Inv(b) && WellFormed(o)
    ensures Submit(b, o).book.nextId == b.nextId + 1
  {
    SubmitKeeps(b, o);
  }

  lemma NextIdAfterCancel(b: Book, id: nat)
    ensures Cancel(b, id).nextId == b.nextId
  {
  }

  /** Runs a script live, reads its log back and replays it: the two books are equal in every field. */
  method AssertDeterministicReplayMatchesLiveBook(c: Codec, ops: seq<ScriptedOperation>)
    returns (live: WalBackedOrderBook, replayed: OrderBookCore)
    requires Faithful(c) && ValidScript(ops)
    ensures fresh(live.book) && fresh(replayed)
    ensures live.book.restingBuyOrders == replayed.restingBuyOrders
    ensures live.book.restingSellOrders == replayed.restingSellOrders
    ensures live.book.pendingStopOrders == replayed.pendingStopOrders
    ensures live.book.lastTradedPrice == replayed.lastTradedPrice
    ensures live.book.nextOrderSequenceNumber == replayed.nextOrderSequenceNumber
  {
    hide ValidScript, ReplayFrom, LogOf, Lines, ParseFrom, BookAfter;
    live := WalBackedOrderBook.CreateFreshWithNewWalFile(c);
    var ids := ExecuteScriptedOperations(c, live, ops);
    ScriptsAreWellFormed(ops);
    LogsAreReplayable(Resolved(ops));
    ReadIntactLog(c, LogOf(Resolved(ops)));
    var read := ReadAllEventRecords(c, live.walWriter.bytes);
    var trades;
    replayed, trades := ReplayIntoFreshOrderBook(read.value);
    ReplayRederivesTheRun(Resolved(ops));
    FlattenDeterminesLevels(Buy, live.book.restingBuyOrders, replayed.restingBuyOrders);
    FlattenDeterminesLevels(Sell, live.book.restingSellOrders, replayed.restingSellOrders);
  }
}
