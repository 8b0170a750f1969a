/** What a run of commands logs, and what recovery makes of a log that a crash cut off anywhere. */
module CrashSafety {
  import opened OrderTypes
  import opened BookSpec
  import opened Utf8
  import opened WriteAheadLog
  import opened Replay

  /** A command with the clock readings taken while it is logged, in order. */
  datatype Stamped = Stamped(command: Command, clock: nat -> nat)

  function Commands(cs: seq<Stamped>): seq<Command> {
    seq(|cs|, i requires 0 <= i < |cs| => cs[i].command)
  }

  function TradeRecords(trades: seq<Trade>, clock: nat -> nat): (records: seq<WalRecord>)
    ensures |records| == |trades|
  {
    seq(|trades|, i requires 0 <= i < |trades| => TradeExecuted(trades[i], clock(i + 1)))
  }

  /** The records of one command: what was asked, then the trades it produced. */
  function RecordsOf(b: Book, s: Stamped): (records: seq<WalRecord>)
    ensures |records| >= 1
  {
    match s.command
    case SubmitOrder(o) =>
      [OrderAcceptedFrom(b.nextId, o, s.clock(0))] + TradeRecords(TradesOf(Submit(b, o).fills), s.clock)
    case CancelOrder(id) => [OrderCancelled(id, Known(b, id), s.clock(0))]
  }

  function BookAfter(cs: seq<Stamped>): Book {
    Run(EmptyBook, Commands(cs))
  }

  /** The records of a whole run from the empty book, no append failing. */
  function LogOf(cs: seq<Stamped>): seq<WalRecord> {
    if cs == [] then []
    else LogOf(cs[..|cs| - 1]) + RecordsOf(BookAfter(cs[..|cs| - 1]), cs[|cs| - 1])
  }

  lemma BookAfterSnoc(cs: seq<Stamped>, s: Stamped)
    ensures BookAfter(cs + [s]) == Apply(BookAfter(cs), s.command).book
  {
    hide Apply;
    var all := Commands(cs + [s]);
    assert all[..|cs|] == Commands(cs);
    assert all[|cs|] == s.command;
  }

  lemma LogOfSnoc(cs: seq<Stamped>, s: Stamped)
    ensures LogOf(cs + [s]) == LogOf(cs) + RecordsOf(BookAfter(cs), s)
  {
    hide RecordsOf, BookAfter;
    assert (cs + [s])[..|cs|] == cs;
  }

  // ----- replay of a run's log -----

  function LoggedTrades(records: seq<WalRecord>): seq<Trade> {
    if records == [] then []
    else (if records[0].TradeExecuted? then [records[0].trade] else []) + LoggedTrades(records[1..])
  }

  function LoggedIds(records: seq<WalRecord>): seq<nat> {
    if records == [] then []
    else (if records[0].OrderAccepted? then [records[0].assignedId] else []) + LoggedIds(records[1..])
  }

  lemma {:induction false} LoggedTradesAppend(p: seq<WalRecord>, q: seq<WalRecord>)
    ensures LoggedTrades(p + q) == LoggedTrades(p) + LoggedTrades(q)
  {
    if p == [] {
      assert p + q == q;
    } else {
      var head := if p[0].TradeExecuted? then [p[0].trade] else [];
      assert (p + q)[0] == p[0] && (p + q)[1..] == p[1..] + q;
      LoggedTradesAppend(p[1..], q);
      assert head + (LoggedTrades(p[1..]) + LoggedTrades(q)) == (head + LoggedTrades(p[1..])) + LoggedTrades(q);
    }
  }

  lemma {:induction false} LoggedIdsAppend(p: seq<WalRecord>, q: seq<WalRecord>)
    ensures LoggedIds(p + q) == LoggedIds(p) + LoggedIds(q)
  {
    if p == [] {
      assert p + q == q;
    } else {
      var head := if p[0].OrderAccepted? then [p[0].assignedId] else [];
      assert (p + q)[0] == p[0] && (p + q)[1..] == p[1..] + q;
      LoggedIdsAppend(p[1..], q);
      assert head + (LoggedIds(p[1..]) + LoggedIds(q)) == (head + LoggedIds(p[1..])) + LoggedIds(q);
    }
  }

  /** Trade records are an audit trail only: replaying them does nothing. */
  lemma {:induction false} TradeRecordsReplay(b: Book, records: seq<WalRecord>)
    requires forall i :: 0 <= i < |records| ==> records[i].TradeExecuted?
    ensures ReplayFrom(b, records) == Replayed(b, [], [])
    ensures LoggedIds(records) == []
  {
    if records != [] { TradeRecordsReplay(b, records[1..]); }
  }

  lemma {:induction false} TradeRecordsLogged(trades: seq<Trade>, clock: nat -> nat, from: nat)
    requires from <= |trades|
    ensures LoggedTrades(TradeRecords(trades, clock)[from..]) == trades[from..]
    decreases |trades| - from
  {
    if from < |trades| {
      TradeRecordsLogged(trades, clock, from + 1);
      assert TradeRecords(trades, clock)[from..][1..] == TradeRecords(trades, clock)[from + 1..];
    }
  }

  lemma SubmitIgnoresGivenId(b: Book, o: Order)
    ensures Submit(b, o.(id := 0)) == Submit(b, o)
  {
  }

  /** Replaying any non-empty part of one command's records redoes the command, once. */
  lemma ReplayOneCommand(b: Book, s: Stamped, m: nat)
    requires 1 <= m <= |RecordsOf(b, s)|
    ensures ReplayFrom(b, RecordsOf(b, s)[..m]).book == Apply(b, s.command).book
    ensures ReplayFrom(b, RecordsOf(b, s)[..m]).trades
         == (if s.command.SubmitOrder? then TradesOf(Submit(b, s.command.order).fills) else [])
    ensures ReplayFrom(b, RecordsOf(b, s)[..m]).ids == (if s.command.SubmitOrder? then [b.nextId] else [])
  {
    hide Submit, Cancel;
    var records := RecordsOf(b, s)[..m];
    var first := ReplayOne(b, records[0]);
    TradeRecordsReplay(first.book, records[1..]);
    if s.command.SubmitOrder? { SubmitIgnoresGivenId(b, s.command.order); }
    assert first.trades + [] == first.trades && first.ids + [] == first.ids;
  }

  lemma RecordsLogged(b: Book, s: Stamped)
    ensures LoggedTrades(RecordsOf(b, s))
         == (if s.command.SubmitOrder? then TradesOf(Submit(b, s.command.order).fills) else [])
    ensures LoggedIds(RecordsOf(b, s)) == (if s.command.SubmitOrder? then [b.nextId] else [])
  {
    hide Submit, TradesOf;
    var records := RecordsOf(b, s);
    if s.command.SubmitOrder? {
      var trades := TradesOf(Submit(b, s.command.order).fills);
      assert records[1..] == TradeRecords(trades, s.clock);
      assert records[1..][0..] == records[1..] && trades[0..] == trades;
      TradeRecordsLogged(trades, s.clock, 0);
      TradeRecordsReplay(b, records[1..]);
    }
  }

  /**
   Replaying the log of any run gives the identical full state, hands every order exactly its logged
   id, and produces exactly the logged trades.
   */
  lemma {:induction false} ReplayRederivesTheRun(cs: seq<Stamped>)
    ensures var replayed := ReplayFrom(EmptyBook, LogOf(cs));
      && replayed.book == BookAfter(cs)
      && replayed.trades == LoggedTrades(LogOf(cs))
      && replayed.ids == LoggedIds(LogOf(cs))
  {
    hide ReplayFrom, RecordsOf, LoggedTrades, LoggedIds, Apply, TradesOf, Submit;
    if cs == [] {
      NothingReplayed();
    } else {
      var before, s := cs[..|cs| - 1], cs[|cs| - 1];
      var b := BookAfter(before);
      assert cs == before + [s];
      BookAfterSnoc(before, s);
      LogOfSnoc(before, s);
      ReplayRederivesTheRun(before);
      ReplayAppend(EmptyBook, LogOf(before), RecordsOf(b, s));
      assert RecordsOf(b, s)[..|RecordsOf(b, s)|] == RecordsOf(b, s);
      ReplayOneCommand(b, s, |RecordsOf(b, s)|);
      RecordsLogged(b, s);
      LoggedTradesAppend(LogOf(before), RecordsOf(b, s));
      LoggedIdsAppend(LogOf(before), RecordsOf(b, s));
    }
  }

  lemma NothingReplayed()
    ensures ReplayFrom(EmptyBook, []) == Replayed(EmptyBook, [], [])
    ensures LoggedTrades([]) == [] && LoggedIds([]) == []
    ensures LogOf([]) == [] && BookAfter([]) == EmptyBook
  {
  }

  // ----- crash and recovery -----

  /** Recovery: read the file, replay what was read. */
  ghost function Recover(c: Codec, bytes: seq<Byte>): ReadResult<Book> {
    match ReadAll(c, bytes)
    case Records(records) => Records(ReplayFrom(EmptyBook, records).book)
    case Failed(e) => Failed(e)
  }

  /** What follows the last line terminator. */
  function TornTail(bytes: seq<Byte>): seq<Byte>
    decreases |bytes|
  {
    var i := FirstLf(bytes);
    if i == |bytes| then bytes else TornTail(bytes[i + 1..])
  }

  lemma TornTailNoLf(tail: seq<Byte>)
    requires LF !in tail
    ensures TornTail(tail) == tail
  {
    FirstLfAfter(tail, []);
    assert tail + [] == tail;
  }

  lemma TornTailStep(line: seq<Byte>, rest: seq<Byte>)
    requires LF !in line
    ensures TornTail(line + [LF] + rest) == TornTail(rest)
  {
    FirstLfAfter(line, [LF] + rest);
    assert line + [LF] + rest == line + ([LF] + rest);
    assert (line + [LF] + rest)[|line| + 1..] == rest;
  }

  lemma {:induction false} TornTailOfLog(c: Codec, records: seq<WalRecord>, tail: seq<Byte>)
    requires Faithful(c) && LF !in tail
    ensures TornTail(Log(c, records) + tail) == tail
  {
    hide TornTail;
    if records == [] {
      assert [] + tail == tail;
      TornTailNoLf(tail);
    } else {
      var line, rest := c.encode(records[0]), Log(c, records[1..]) + tail;
      assert FaithfulOn(c, records[0]);
      TornTailStep(line, rest);
      assert Log(c, records) + tail == line + [LF] + rest;
      TornTailOfLog(c, records[1..], tail);
    }
  }

  /** Any cut through the bytes of some records: whole records, then a part of the next one. */
  lemma {:induction false} CutLog(c: Codec, records: seq<WalRecord>, n: nat) returns (j: nat, k: nat)
    requires n < |Log(c, records)|
    ensures j < |records| && k <= |c.encode(records[j])|
    ensures Log(c, records)[..n] == Log(c, records[..j]) + c.encode(records[j])[..k]
    ensures j == 0 ==> k == n
    ensures j > 0 ==> n > |c.encode(records[0])|
  {
    var line := Line(c, records[0]);
    if n < |line| {
      j, k := 0, n;
      assert Log(c, records)[..n] == c.encode(records[0])[..n];
      assert [] + c.encode(records[0])[..n] == c.encode(records[0])[..n];
    } else {
      var j', k' := CutLog(c, records[1..], n - |line|);
      j, k := j' + 1, k';
      assert Log(c, records)[..n] == line + Log(c, records[1..])[..n - |line|];
      assert records[..j][1..] == records[1..][..j'];
      assert line + (Log(c, records[1..][..j']) + c.encode(records[j])[..k])
          == (line + Log(c, records[1..][..j'])) + c.encode(records[j])[..k];
    }
  }

  /** The book that an intact log stands for. */
  function BookOf(records: seq<WalRecord>): Book {
    ReplayFrom(EmptyBook, records).book
  }

  /** The books a recovery may come to: that of the log, with or without the command in flight. */
  ghost function Outcome(c: Codec, log: seq<WalRecord>, next: Stamped, n: nat): Book {
    if n < |c.encode(RecordsOf(BookOf(log), next)[0])| then BookOf(log)
    else Apply(BookOf(log), next.command).book
  }

  /** Some whole records of a command behind a log: none changes nothing, any number redoes the command. */
  lemma BookOfLonger(log: seq<WalRecord>, next: Stamped, m: nat)
    requires m <= |RecordsOf(BookOf(log), next)|
    ensures BookOf(log + RecordsOf(BookOf(log), next)[..m])
         == if m == 0 then BookOf(log) else Apply(BookOf(log), next.command).book
  {
    hide ReplayFrom, RecordsOf, Apply;
    var records := RecordsOf(BookOf(log), next)[..m];
    ReplayAppend(EmptyBook, log, records);
    if m == 0 {
      assert log + [] == log;
    } else {
      ReplayOneCommand(BookOf(log), next, m);
    }
  }

  /**
   What is read after a crash: the records of the log and `m` whole records of the command in flight,
   or nothing at all. A file that ends with a terminator is itself an intact log, that of these records.
   */
  lemma ReadAfterACrash(c: Codec, log: seq<WalRecord>, next: Stamped, n: nat) returns (m: nat)
    requires Faithful(c)
    requires n <= |Log(c, RecordsOf(BookOf(log), next))|
    ensures var records := RecordsOf(BookOf(log), next);
      var bytes := Log(c, log) + Log(c, records)[..n];
      && m <= |records|
      && (m == 0 <==> n < |c.encode(records[0])|)
      && ReadAll(c, bytes) == (if IsUtf8(TornTail(bytes)) then Records(log + records[..m]) else Failed(NotUtf8))
      && (TornTail(bytes) == [] ==> bytes == Log(c, log + records[..m]))
  {
    hide RecordsOf, ReadAll, IsUtf8, BookOf;
    var records := RecordsOf(BookOf(log), next);
    if n == |Log(c, records)| {
      m := |records|;
      WholeLog(c, log, records);
      assert records[..m] == records && Log(c, records)[..n] == Log(c, records);
    } else {
      var j, k := CutLog(c, records, n);
      TornLog(c, log, records, j, k);
      m := if k == |c.encode(records[j])| then j + 1 else j;
    }
  }

  lemma WholeLog(c: Codec, acknowledged: seq<WalRecord>, records: seq<WalRecord>)
    requires Faithful(c) && records != []
    ensures var bytes := Log(c, acknowledged) + Log(c, records);
      && IsUtf8(TornTail(bytes))
      && ReadAll(c, bytes) == Records(acknowledged + records)
      && bytes == Log(c, acknowledged + records)
    ensures |Log(c, records)| >= |c.encode(records[0])|
  {
    hide ReadAll, TornTail;
    LogAppend(c, acknowledged, records);
    ReadIntactLog(c, acknowledged + records);
    TornTailOfLog(c, acknowledged + records, []);
    assert Log(c, acknowledged + records) + [] == Log(c, acknowledged + records);
    EmptyIsUtf8();
  }

  lemma TornLog(c: Codec, acknowledged: seq<WalRecord>, records: seq<WalRecord>, j: nat, k: nat)
    requires Faithful(c) && j < |records| && k <= |c.encode(records[j])|
    ensures var bytes := Log(c, acknowledged) + (Log(c, records[..j]) + c.encode(records[j])[..k]);
      && ReadAll(c, bytes) == (
        if !IsUtf8(TornTail(bytes)) then Failed(NotUtf8)
        else if k == |c.encode(records[j])| then Records(acknowledged + records[..j + 1])
        else Records(acknowledged + records[..j]))
      && (TornTail(bytes) == [] ==>
            k < |c.encode(records[j])| && bytes == Log(c, acknowledged + records[..j]))
  {
    hide ReadAll, TornTail, IsUtf8;
    EmptyLineUnparsed(c, records[j]);
    var kept, fragment := acknowledged + records[..j], c.encode(records[j])[..k];
    LogAppend(c, acknowledged, records[..j]);
    assert Log(c, acknowledged) + (Log(c, records[..j]) + fragment) == Log(c, kept) + fragment;
    assert FaithfulOn(c, records[j]);
    TornTailOfLog(c, kept, fragment);
    ReadTornLog(c, kept, records[j], k);
    assert kept + [records[j]] == acknowledged + records[..j + 1];
    assert Log(c, kept) + [] == Log(c, kept);
  }

  /**
   Crash safety. The file holds any intact log and the first `n` bytes that the command in flight
   writes, cut anywhere. Unless the cut falls inside a multi-byte character, recovery gives the book of
   that log, or that book with the command in flight applied, the latter exactly when the whole first
   record of that command is in the file.
   */
  lemma RecoveryAfterACrash(c: Codec, log: seq<WalRecord>, next: Stamped, n: nat)
    requires Faithful(c)
    requires n <= |Log(c, RecordsOf(BookOf(log), next))|
    ensures var bytes := Log(c, log) + Log(c, RecordsOf(BookOf(log), next))[..n];
      Recover(c, bytes) == if IsUtf8(TornTail(bytes)) then Records(Outcome(c, log, next, n)) else Failed(NotUtf8)
  {
    hide ReplayFrom, RecordsOf, Apply, ReadAll, IsUtf8, TornTail, Log;
    var m := ReadAfterACrash(c, log, next, n);
    BookOfLonger(log, next, m);
  }

  // ----- any number of crashes -----

  /** A command that was acknowledged, or in flight when the process died, `kept` whole records of it in the file. */
  datatype Event = Acknowledged(s: Stamped) | CrashedDuring(s: Stamped, kept: nat)

  /** The file after a history of commands, crashes that left no torn tail, and recoveries. */
  function HistoryLog(history: seq<Event>): seq<WalRecord> {
    if history == [] then []
    else
      var log, e := HistoryLog(history[..|history| - 1]), history[|history| - 1];
      var records := RecordsOf(BookOf(log), e.s);
      log + (if e.CrashedDuring? && e.kept < |records| then records[..e.kept] else records)
  }

  /** All acknowledged commands, and of those in flight at a crash the ones that left a record. */
  function Survivors(history: seq<Event>): seq<Command> {
    if history == [] then []
    else
      var e := history[|history| - 1];
      Survivors(history[..|history| - 1]) + (if e.CrashedDuring? && e.kept == 0 then [] else [e.s.command])
  }

  lemma RunOn(cs: seq<Command>, c: Command)
    ensures Run(EmptyBook, cs + [c]) == Apply(Run(EmptyBook, cs), c).book
  {
    hide Apply;
    assert (cs + [c])[..|cs|] == cs;
  }

  /** Whatever crashed on the way, the file stands for the run of the commands that survived. */
  lemma {:induction false} HistoriesKeepSurvivors(history: seq<Event>)
    ensures BookOf(HistoryLog(history)) == Run(EmptyBook, Survivors(history))
  {
    hide RecordsOf, Apply, Run;
    if history == [] {
      NothingReplayed();
      NothingRun();
    } else {
      var before, e := history[..|history| - 1], history[|history| - 1];
      var records := RecordsOf(BookOf(HistoryLog(before)), e.s);
      var m := if e.CrashedDuring? && e.kept < |records| then e.kept else |records|;
      HistoriesKeepSurvivors(before);
      assert records[..|records|] == records;
      BookOfLonger(HistoryLog(before), e.s, m);
      RunOn(Survivors(before), e.s.command);
      assert Survivors(before) + [] == Survivors(before);
    }
  }

  lemma NothingRun()
    ensures Run(EmptyBook, []) == EmptyBook
  {
  }

  /** One more crash that leaves no torn tail makes one more such history. */
  lemma CleanCrashesGoOn(c: Codec, history: seq<Event>, next: Stamped, n: nat) returns (m: nat)
    requires Faithful(c)
    requires n <= |Log(c, RecordsOf(BookOf(HistoryLog(history)), next))|
    ensures var bytes := Log(c, HistoryLog(history)) + Log(c, RecordsOf(BookOf(HistoryLog(history)), next))[..n];
      TornTail(bytes) == [] ==> bytes == Log(c, HistoryLog(history + [CrashedDuring(next, m)]))
  {
    hide RecordsOf, ReadAll, TornTail, IsUtf8, BookOf, Log;
    m := ReadAfterACrash(c, HistoryLog(history), next, n);
    var after, records := history + [CrashedDuring(next, m)], RecordsOf(BookOf(HistoryLog(history)), next);
    assert after[..|history|] == history;
    assert m == |records| ==> records[..m] == records;
  }

  /**
   After any number of crashes and recoveries, a further crash at any byte: recovery gives the run of
   all acknowledged commands, with those commands in flight that left a whole record, the last one
   included, or it fails because the file ends inside a multi-byte character.
   */
  lemma AnyNumberOfCrashes(c: Codec, history: seq<Event>, next: Stamped, n: nat)
    requires Faithful(c)
    requires n <= |Log(c, RecordsOf(BookOf(HistoryLog(history)), next))|
    ensures var records := RecordsOf(BookOf(HistoryLog(history)), next);
      var bytes := Log(c, HistoryLog(history)) + Log(c, records)[..n];
      var last := if n < |c.encode(records[0])| then [] else [next.command];
      Recover(c, bytes) == if IsUtf8(TornTail(bytes)) then Records(Run(EmptyBook, Survivors(history) + last))
                           else Failed(NotUtf8)
  {
    hide RecordsOf, Recover, TornTail, IsUtf8, BookOf, Log, Run, Apply;
    RecoveryAfterACrash(c, HistoryLog(history), next, n);
    HistoriesKeepSurvivors(history);
    RunOn(Survivors(history), next.command);
    assert Survivors(history) + [] == Survivors(history);
  }

  lemma EmptyIsUtf8()
    ensures IsUtf8([])
  {
  }

  /** With an ASCII serialisation no cut is inside a character, so recovery always succeeds. */
  lemma AsciiLogsAlwaysRecover(c: Codec, log: seq<WalRecord>, next: Stamped, n: nat)
    requires Faithful(c) && forall r :: IsAscii(c.encode(r))
    requires n <= |Log(c, RecordsOf(BookOf(log), next))|
    ensures Recover(c, Log(c, log) + Log(c, RecordsOf(BookOf(log), next))[..n])
         == Records(Outcome(c, log, next, n))
  {
    hide RecordsOf, Recover, Outcome, IsUtf8, TornTail, BookOf;
    var records := RecordsOf(BookOf(log), next);
    RecoveryAfterACrash(c, log, next, n);
    LogIsAscii(c, log);
    LogIsAscii(c, records);
    TornTailIsAscii(Log(c, log) + Log(c, records)[..n]);
    AsciiIsUtf8(TornTail(Log(c, log) + Log(c, records)[..n]));
  }

  lemma {:induction false} LogIsAscii(c: Codec, records: seq<WalRecord>)
    requires forall r :: IsAscii(c.encode(r))
    ensures IsAscii(Log(c, records))
  {
    if records != [] {
      LogIsAscii(c, records[1..]);
      assert IsAscii(c.encode(records[0]));
    }
  }

  lemma {:induction false} TornTailIsAscii(bytes: seq<Byte>)
    requires IsAscii(bytes)
    ensures IsAscii(TornTail(bytes))
    decreases |bytes|
  {
    var i := FirstLf(bytes);
    if i < |bytes| { TornTailIsAscii(bytes[i + 1..]); }
  }

  /**
   A cut right after the lead byte of a multi-byte character makes recovery fail, although every
   acknowledged record is intact: the torn line is not skipped, because reading it as text fails
   before any line is parsed.
   */
  lemma CutInsideACharacterDefeatsRecovery(c: Codec, log: seq<WalRecord>, next: Stamped, n: nat)
    requires Faithful(c)
    requires 0 < n <= |c.encode(RecordsOf(BookOf(log), next)[0])|
    requires c.encode(RecordsOf(BookOf(log), next)[0])[n - 1] >= 0xC0
    ensures Recover(c, Log(c, log) + Log(c, RecordsOf(BookOf(log), next))[..n]) == Failed(NotUtf8)
  {
    hide RecordsOf, ReplayFrom, Lines, ParseFrom;
    var first := RecordsOf(BookOf(log), next)[0];
    assert Log(c, RecordsOf(BookOf(log), next))[..n] == c.encode(first)[..n];
    CutAfterLeadByte(c.encode(first)[..n]);
    ReadTornLog(c, log, first, n);
  }
}
