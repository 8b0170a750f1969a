/**
 The order book behind its write-ahead log: each command changes the book in memory first and is
 logged second. How much the disk still takes is a parameter, so that one contract speaks of success,
 of a failing append and of a crash in the middle of a line.
 */
module WalBackedBook {
  import opened OrderTypes
  import opened BookSpec
  import opened BookInvariants
  import opened OrderLifecycle
  import opened OrderBook
  import opened Utf8
  import opened WriteAheadLog
  import opened Replay
  import opened CrashSafety

  datatype Disk = Healthy | RoomFor(bytes: nat)

  function Kept(disk: Disk, data: seq<Byte>): seq<Byte> {
    if disk.RoomFor? && disk.bytes < |data| then data[..disk.bytes] else data
  }

  predicate Fits(disk: Disk, data: seq<Byte>) {
    disk.RoomFor? ==> |data| <= disk.bytes
  }

  function Left(disk: Disk, data: seq<Byte>): Disk
    requires Fits(disk, data)
  {
    if disk.RoomFor? then RoomFor(disk.bytes - |data|) else Healthy
  }

  datatype IoResult<+T> = Ok(value: T) | IoError

  class WriteAheadLogWriter {
    var bytes: seq<Byte>

    constructor (existing: seq<Byte>)
      ensures bytes == existing
    {
      bytes := existing;
    }

    /** Appends one line; an append that does not fit leaves the part that did. */
    method AppendEvent(c: Codec, r: WalRecord, disk: Disk) returns (durable: bool, left: Disk)
      modifies this
      ensures bytes == old(bytes) + Kept(disk, Line(c, r))
      ensures durable <==> Fits(disk, Line(c, r))
      ensures durable ==> left == Left(disk, Line(c, r))
    {
      var line := c.encode(r) + [LF];
      durable := Fits(disk, line);
      if durable {
        bytes := bytes + line;
        left := Left(disk, line);
      } else {
        bytes := bytes + line[..disk.bytes];
        left := RoomFor(0);
      }
    }
  }

  lemma KeptAppend(disk: Disk, p: seq<Byte>, q: seq<Byte>)
    requires Fits(disk, p)
    ensures Kept(disk, p + q) == p + Kept(Left(disk, p), q)
    ensures Fits(disk, p + q) <==> Fits(Left(disk, p), q)
    ensures Fits(disk, p + q) ==> Left(disk, p + q) == Left(Left(disk, p), q)
  {
  }

  lemma KeptSplit(disk: Disk, p: seq<Byte>, q: seq<Byte>)
    ensures Fits(disk, p) ==> Kept(disk, p + q) == Kept(disk, p) + Kept(Left(disk, p), q)
    ensures Fits(disk, p) ==> (Fits(disk, p + q) <==> Fits(Left(disk, p), q))
    ensures !Fits(disk, p) ==> Kept(disk, p + q) == Kept(disk, p) && !Fits(disk, p + q)
  {
  }

  lemma AllKept(disk: Disk, data: seq<Byte>)
    requires Fits(disk, data)
    ensures Kept(disk, data) == data
  {
  }

  /** Records `[..j]` are durable and record `j` is appended next: it fits, or the file ends inside it. */
  lemma AppendStep(c: Codec, disk: Disk, records: seq<WalRecord>, j: nat, room: Disk)
    requires j < |records| && Fits(disk, Log(c, records[..j])) && room == Left(disk, Log(c, records[..j]))
    ensures var done, line := Log(c, records[..j]), Line(c, records[j]);
      if Fits(room, line) then
        && Log(c, records[..j + 1]) == done + Kept(room, line)
        && Fits(disk, Log(c, records[..j + 1])) && Left(room, line) == Left(disk, Log(c, records[..j + 1]))
      else
        !Fits(disk, Log(c, records)) && Kept(disk, Log(c, records)) == done + Kept(room, line)
  {
    hide Log, Line;
    var done, line, rest := Log(c, records[..j]), Line(c, records[j]), Log(c, records[j + 1..]);
    LogOne(c, records[j]);
    assert records[..j + 1] == records[..j] + [records[j]];
    LogAppend(c, records[..j], [records[j]]);
    KeptAppend(disk, done, line);
    assert records == records[..j] + ([records[j]] + records[j + 1..]);
    LogAppend(c, records[..j], [records[j]] + records[j + 1..]);
    LogAppend(c, [records[j]], records[j + 1..]);
    KeptAppend(disk, done, line + rest);
    if !Fits(room, line) {
      assert !Fits(room, line + rest) && Kept(room, line + rest) == Kept(room, line);
    }
  }

  lemma LogOne(c: Codec, r: WalRecord)
    ensures Log(c, [r]) == Line(c, r)
  {
    assert [r][1..] == [] && Line(c, r) + [] == Line(c, r);
  }

  /** The bytes that a command writes when all of its appends succeed. */
  ghost function DataOf(c: Codec, b: Book, s: Stamped): seq<Byte> {
    Log(c, RecordsOf(b, s))
  }

  lemma SubmitData(c: Codec, b: Book, order: Order, clock: nat -> nat)
    ensures DataOf(c, b, Stamped(SubmitOrder(order), clock))
         == Line(c, OrderAcceptedFrom(b.nextId, order, clock(0)))
            + Log(c, TradeRecords(TradesOf(Submit(b, order).fills), clock))
  {
    hide Submit, TradesOf, Log, Line;
    LogOne(c, OrderAcceptedFrom(b.nextId, order, clock(0)));
    LogAppend(c, [OrderAcceptedFrom(b.nextId, order, clock(0))], TradeRecords(TradesOf(Submit(b, order).fills), clock));
  }

  lemma CancelData(c: Codec, b: Book, id: nat, clock: nat -> nat)
    ensures DataOf(c, b, Stamped(BookSpec.CancelOrder(id), clock))
        == Line(c, OrderCancelled(id, Known(b, id), clock(0)))
  {
    hide Log, Line;
    LogOne(c, OrderCancelled(id, Known(b, id), clock(0)));
  }

  class WalBackedOrderBook {
    const book: OrderBookCore
    const walWriter: WriteAheadLogWriter

    ghost predicate Valid()
      reads this, book
    {
      book.Valid()
    }

    /** The file is an intact log of these records, and memory is what they replay to. */
    ghost predicate InStep(c: Codec, log: seq<WalRecord>)
      reads this, book, walWriter
    {
      Valid() && Replayable(log) && book.View() == BookOf(log) && walWriter.bytes == Log(c, log)
    }

    lemma InStepMeans(c: Codec, log: seq<WalRecord>)
      requires InStep(c, log)
      ensures Valid() && Inv(book.View())
      ensures Replayable(log) && book.View() == BookOf(log) && walWriter.bytes == Log(c, log)
    {
    }

    /** After a command whose records are all in the file. */
    lemma StepDone(c: Codec, log: seq<WalRecord>, s: Stamped)
      requires Valid() && Replayable(log) && WellFormedCommand(s.command)
      requires book.View() == Apply(BookOf(log), s.command).book
      requires walWriter.bytes == Log(c, log) + DataOf(c, BookOf(log), s)
      ensures InStep(c, log + RecordsOf(BookOf(log), s))
    {
      hide RecordsOf, BookOf, Apply, Log, Replayable;
      StaysInStep(c, log, s);
    }

    constructor Wrap(book: OrderBookCore, walWriter: WriteAheadLogWriter)
      requires book.Valid()
      ensures Valid() && this.book == book && this.walWriter == walWriter
    {
      this.book, this.walWriter := book, walWriter;
    }

    /** A fresh book and a fresh file. */
    static method CreateFreshWithNewWalFile(c: Codec) returns (wal: WalBackedOrderBook)
      ensures fresh(wal) && fresh(wal.book) && fresh(wal.walWriter)
      ensures wal.InStep(c, [])
    {
      var book := new OrderBookCore();
      var writer := new WriteAheadLogWriter([]);
      wal := new WalBackedOrderBook.Wrap(book, writer);
      NothingReplayed();
    }

    method SubmitIncomingOrder(c: Codec, order: Order, clock: nat -> nat, disk: Disk, ghost log: seq<WalRecord>)
      returns (result: IoResult<SubmissionOutcome>)
      requires Valid() && WellFormed(order)
      modifies book, walWriter
      ensures Valid()
      ensures book.View() == Submit(old(book.View()), order).book
      ensures var data := DataOf(c, old(book.View()), Stamped(SubmitOrder(order), clock));
        && walWriter.bytes == old(walWriter.bytes) + Kept(disk, data)
        && (result.Ok? <==> Fits(disk, data))
      ensures result.Ok? ==>
        && result.value.trades == TradesOf(Submit(old(book.View()), order).fills)
        && result.value.assignedId == old(book.View()).nextId
      ensures old(InStep(c, log)) && result.Ok? ==>
        InStep(c, log + RecordsOf(old(book.View()), Stamped(SubmitOrder(order), clock)))
    {
      hide BookOf, Replayable, InStep, RecordsOf, TradeRecords, DataOf, OrderBookCore.View, OrderBookCore.Valid;
      hide Submit, TradesOf, Kept, Fits, Left, Log, Line;
      ghost var s, inStep := Stamped(SubmitOrder(order), clock), InStep(c, log);
      if inStep { InStepMeans(c, log); }
      SubmitData(c, book.View(), order, clock);
      var outcome := book.SubmitIncomingOrder(order);
      var accepted := OrderAcceptedFrom(outcome.assignedId, order, clock(0));
      KeptSplit(disk, Line(c, accepted), Log(c, TradeRecords(outcome.trades, clock)));
      var durable, room := walWriter.AppendEvent(c, accepted, disk);
      if !durable { return IoError; }
      durable := AppendTradeExecutions(c, outcome.trades, clock, room);
      if durable {
        AllKept(disk, DataOf(c, old(book.View()), s));
        if inStep { StepDone(c, log, s); }
      }
      return if durable then Ok(outcome) else IoError;
    }

    method AppendTradeExecutions(c: Codec, trades: seq<Trade>, clock: nat -> nat, disk: Disk) returns (durable: bool)
      modifies walWriter
      ensures var log := Log(c, TradeRecords(trades, clock));
        walWriter.bytes == old(walWriter.bytes) + Kept(disk, log) && (durable <==> Fits(disk, log))
    {
      hide Kept, Fits, Left, Log, Line;
      ghost var records := TradeRecords(trades, clock);
      NothingLogged(c, disk, records);
      var room := disk;
      var i := 0;
      while i < |trades|
        invariant i <= |trades|
        invariant Fits(disk, Log(c, records[..i])) && room == Left(disk, Log(c, records[..i]))
        invariant walWriter.bytes == old(walWriter.bytes) + Log(c, records[..i])
      {
        AppendStep(c, disk, records, i, room);
        durable, room := walWriter.AppendEvent(c, TradeExecuted(trades[i], clock(i + 1)), room);
        if !durable { return; }
        i := i + 1;
      }
      assert records[..i] == records;
      AllKept(disk, Log(c, records));
      durable := true;
    }

    method CancelOrder(c: Codec, id: nat, clock: nat -> nat, disk: Disk, ghost log: seq<WalRecord>)
      returns (result: IoResult<bool>)
      requires Valid()
      modifies book, walWriter
      ensures Valid()
      ensures book.View() == Cancel(old(book.View()), id)
      ensures var data := DataOf(c, old(book.View()), Stamped(BookSpec.CancelOrder(id), clock));
        && walWriter.bytes == old(walWriter.bytes) + Kept(disk, data)
        && (result.Ok? <==> Fits(disk, data))
      ensures result.Ok? ==> result.value == Known(old(book.View()), id)
      ensures old(InStep(c, log)) && result.Ok? ==>
        InStep(c, log + RecordsOf(old(book.View()), Stamped(BookSpec.CancelOrder(id), clock)))
    {
      hide BookOf, Replayable, InStep, RecordsOf, DataOf, OrderBookCore.View, OrderBookCore.Valid;
      hide Cancel, Kept, Fits, Left, Log, Line;
      ghost var s, inStep := Stamped(BookSpec.CancelOrder(id), clock), InStep(c, log);
      if inStep { InStepMeans(c, log); }
      CancelData(c, book.View(), id, clock);
      var wasCancelled := book.CancelOrder(id);
      var durable, room := walWriter.AppendEvent(c, OrderCancelled(id, wasCancelled, clock(0)), disk);
      if durable {
        AllKept(disk, DataOf(c, old(book.View()), s));
        if inStep { StepDone(c, log, s); }
      }
      return if durable then Ok(wasCancelled) else IoError;
    }

    /** Startup: replays what the file holds, then reopens the file for appending behind all of it. */
    static method OpenRecoveringIfPresent(c: Codec, existing: seq<Byte>)
      returns (result: ReadResult<WalBackedOrderBook>)
      requires ReadAll(c, existing).Records? ==> Replayable(ReadAll(c, existing).value)
      ensures result.Records? <==> Recover(c, existing).Records?
      ensures result.Failed? ==> result.error == Recover(c, existing).error
      ensures result.Records? ==>
        && fresh(result.value) && fresh(result.value.book) && fresh(result.value.walWriter)
        && result.value.Valid()
        && result.value.book.View() == Recover(c, existing).value
        && result.value.walWriter.bytes == existing
    {
      hide ReplayFrom, Lines, ParseFrom, OrderBook.OrderBookCore.View;
      var book: OrderBookCore;
      if |existing| > 0 {
        var read := ReadAllEventRecords(c, existing);
        match read
        case Failed(e) => return Failed(e);
        case Records(records) =>
          var trades;
          book, trades := ReplayIntoFreshOrderBook(records);
      } else {
        book := new OrderBookCore();
        EmptyFile(c);
      }
      var writer := new WriteAheadLogWriter(existing);
      var wal := new WalBackedOrderBook.Wrap(book, writer);
      return Records(wal);
    }
  }

  lemma EmptyFile(c: Codec)
    ensures Recover(c, []) == Records(EmptyBook)
  {
  }

  /** One more command whose append succeeded keeps memory and file in step. */
  lemma StaysInStep(c: Codec, log: seq<WalRecord>, s: Stamped)
    requires Replayable(log) && WellFormedCommand(s.command)
    ensures var longer := log + RecordsOf(BookOf(log), s);
      && Replayable(longer)
      && BookOf(longer) == Apply(BookOf(log), s.command).book
      && Log(c, longer) == Log(c, log) + Log(c, RecordsOf(BookOf(log), s))
  {
    hide RecordsOf, BookOf, Apply, Log;
    var records := RecordsOf(BookOf(log), s);
    assert records[..|records|] == records;
    BookOfLonger(log, s, |records|);
    RecordsAreReplayable(BookOf(log), s);
    LogAppend(c, log, records);
  }

  /** What a run logs can be replayed: the orders it accepted were well formed. */
  lemma {:induction false} LogsAreReplayable(cs: seq<Stamped>)
    requires WellFormedCommands(Commands(cs))
    ensures Replayable(LogOf(cs))
  {
    hide RecordsOf, BookAfter;
    if cs != [] {
      var before, s := cs[..|cs| - 1], cs[|cs| - 1];
      assert forall i :: 0 <= i < |before| ==> Commands(before)[i] == Commands(cs)[i];
      LogsAreReplayable(before);
      assert Commands(cs)[|cs| - 1] == s.command;
      RecordsAreReplayable(BookAfter(before), s);
    }
  }

  lemma RecordsAreReplayable(b: Book, s: Stamped)
    requires WellFormedCommand(s.command)
    ensures Replayable(RecordsOf(b, s))
  {
    hide Submit, TradesOf;
  }

  /** Recovery from any intact log: its book comes back, and further commands stay in step. */
  method RecoverCleanLog(c: Codec, log: seq<WalRecord>) returns (wal: WalBackedOrderBook)
    requires Faithful(c) && Replayable(log)
    ensures fresh(wal) && fresh(wal.book) && fresh(wal.walWriter)
    ensures wal.InStep(c, log)
  {
    hide ReplayFrom, Lines, ParseFrom;
    ReadIntactLog(c, log);
    var result := WalBackedOrderBook.OpenRecoveringIfPresent(c, Log(c, log));
    wal := result.value;
  }

  lemma NothingLogged(c: Codec, disk: Disk, records: seq<WalRecord>)
    ensures Log(c, records[..0]) == [] && Fits(disk, []) && Left(disk, []) == disk
  {
  }

  lemma ReadRecordsAreReplayable(log: seq<WalRecord>, next: Stamped, m: nat)
    requires Replayable(log) && WellFormedCommand(next.command)
    requires m <= |RecordsOf(BookOf(log), next)|
    ensures Replayable(log + RecordsOf(BookOf(log), next)[..m])
  {
    hide BookOf, RecordsOf;
    RecordsAreReplayable(BookOf(log), next);
  }

  /**
   Startup after a crash: from any intact log and any part of what the command in flight writes, the
   process comes up with everything acknowledged, with or without that command; it refuses to start
   exactly when the file ends inside a multi-byte character. When the crash left no torn tail, memory and
   file are in step again, so that further commands and further crashes are covered alike.
   */
  method RecoverAfterCrash(c: Codec, log: seq<WalRecord>, next: Stamped, n: nat)
    returns (result: ReadResult<WalBackedOrderBook>, ghost m: nat)
    requires Faithful(c) && Replayable(log) && WellFormedCommand(next.command)
    requires n <= |Log(c, RecordsOf(BookOf(log), next))|
    ensures m <= |RecordsOf(BookOf(log), next)|
    ensures var bytes := Log(c, log) + Log(c, RecordsOf(BookOf(log), next))[..n];
      if IsUtf8(TornTail(bytes)) then
        && result.Records?
        && fresh(result.value) && fresh(result.value.book) && fresh(result.value.walWriter)
        && result.value.Valid()
        && result.value.book.View() == Outcome(c, log, next, n)
        && result.value.walWriter.bytes == bytes
        && (TornTail(bytes) == [] ==> result.value.InStep(c, log + RecordsOf(BookOf(log), next)[..m]))
      else
        result == Failed(NotUtf8)
  {
    hide ReplayFrom, RecordsOf, ReadAll, TornTail, IsUtf8, Log, Outcome, Replayable;
    m := ReadAfterACrash(c, log, next, n);
    RecoveryAfterACrash(c, log, next, n);
    ReadRecordsAreReplayable(log, next, m);
    result := WalBackedOrderBook.OpenRecoveringIfPresent(c, Log(c, log) + Log(c, RecordsOf(BookOf(log), next))[..n]);
  }

  /** What the log tells of a submission: the order field by field under its id, then its trades one by one. */
  lemma SubmissionIsLoggedAsIs(b: Book, o: Order, clock: nat -> nat)
    ensures var records := RecordsOf(b, Stamped(SubmitOrder(o), clock));
      var trades := TradesOf(Submit(b, o).fills);
      && |records| == 1 + |trades| && records[0].OrderAccepted?
      && records[0].assignedId == b.nextId && records[0].account == o.account && records[0].side == o.side
      && records[0].orderType == o.orderType && records[0].limitPrice == o.limitPrice
      && records[0].stopTrigger == o.stopTrigger && records[0].quantity == o.quantity
      && records[0].epochMillis == clock(0)
      && forall k :: 0 <= k < |trades| ==>
           && records[k + 1].TradeExecuted? && records[k + 1].trade == trades[k]
           && records[k + 1].epochMillis == clock(k + 1)
  {
    hide Submit, TradesOf;
  }

  /** What the log tells of a cancellation: the id, and whether a status query would have found the order. */
  lemma CancellationIsLoggedAsIs(b: Book, id: nat, clock: nat -> nat)
    requires ArmedPool(b.pending)
    ensures var records := RecordsOf(b, Stamped(BookSpec.CancelOrder(id), clock));
      && |records| == 1 && records[0].OrderCancelled?
      && records[0].cancelledId == id && records[0].epochMillis == clock(0)
      && (records[0].wasCancelled <==> Query(b, id) != NotFound)
  {
    CancellableIffFound(b, id);
  }
}
