/**
 The pipeline with the order book behind its log as the core's state: what a crash at any move of either
 thread leaves, and what recovery makes of it.
 */
module DurablePipeline {
  import opened OrderTypes
  import opened BookSpec
  import opened Utf8
  import opened WriteAheadLog
  import opened Replay
  import opened CrashSafety
  import opened WalBackedBook
  import Pipeline
  import opened PipelineOverRings

  /** What the matching core owns: the book in memory and the bytes of its log. */
  datatype Engine = Engine(book: Book, file: seq<Byte>)

  function StartedFrom(c: Codec, log: seq<WalRecord>): Engine {
    Engine(BookOf(log), Log(c, log))
  }

  /** A line is a command, or something that neither changes the book nor is logged (a query, an error). */
  type Decoder<!L> = L -> Option<Stamped>

  ghost function Served<L>(c: Codec, decode: Decoder<L>, e: Engine, line: L): Engine {
    match decode(line)
    case None => e
    case Some(s) => Engine(Apply(e.book, s.command).book, e.file + DataOf(c, e.book, s))
  }

  /** Memory first, then the log, then the response. */
  ghost function Serving<L, R>(c: Codec, decode: Decoder<L>, respond: (Engine, L) -> R): Handler<Engine, L, R> {
    (e: Engine, line: L) => (Served(c, decode, e, line), respond(e, line))
  }

  function CommandsIn<L>(decode: Decoder<L>, lines: seq<L>): seq<Command> {
    if lines == [] then []
    else
      CommandsIn(decode, lines[..|lines| - 1])
      + (match decode(lines[|lines| - 1]) case Some(s) => [s.command] case None => [])
  }

  /** The log after these lines were served. */
  function LogAfter<L>(decode: Decoder<L>, log: seq<WalRecord>, lines: seq<L>): seq<WalRecord> {
    if lines == [] then log
    else
      var before := LogAfter(decode, log, lines[..|lines| - 1]);
      match decode(lines[|lines| - 1])
      case Some(s) => before + RecordsOf(BookOf(before), s)
      case None => before
  }

  lemma RunSnoc(b: Book, cs: seq<Command>, c: Command)
    ensures Run(b, cs + [c]) == Apply(Run(b, cs), c).book
  {
    hide Apply;
    assert (cs + [c])[..|cs|] == cs;
  }

  lemma RunNothing(b: Book)
    ensures Run(b, []) == b
  {
  }

  /** The log stands for the run of the commands among the lines. */
  lemma {:induction false} LogAfterStandsFor<L>(decode: Decoder<L>, log: seq<WalRecord>, lines: seq<L>)
    ensures BookOf(LogAfter(decode, log, lines)) == Run(BookOf(log), CommandsIn(decode, lines))
  {
    hide BookOf, Run, Apply, RecordsOf;
    if lines == [] {
      RunNothing(BookOf(log));
    } else {
      var before := LogAfter(decode, log, lines[..|lines| - 1]);
      LogAfterStandsFor(decode, log, lines[..|lines| - 1]);
      match decode(lines[|lines| - 1]) {
        case Some(s) =>
          var records := RecordsOf(BookOf(before), s);
          assert records[..|records|] == records;
          BookOfLonger(before, s, |records|);
          RunSnoc(BookOf(log), CommandsIn(decode, lines[..|lines| - 1]), s.command);
        case None =>
          var cs := CommandsIn(decode, lines[..|lines| - 1]);
          assert cs + [] == cs;
      }
    }
  }

  /** What the core owns after these lines: the book that its log stands for, and that log. */
  lemma {:induction false} EngineAfter<L, R>(
      c: Codec, decode: Decoder<L>, respond: (Engine, L) -> R, log: seq<WalRecord>, lines: seq<L>)
    ensures Pipeline.Book(StartedFrom(c, log), lines, Serving(c, decode, respond))
         == StartedFrom(c, LogAfter(decode, log, lines))
  {
    hide BookOf, Apply, RecordsOf, Log;
    if lines != [] {
      var before, line := LogAfter(decode, log, lines[..|lines| - 1]), lines[|lines| - 1];
      EngineAfter(c, decode, respond, log, lines[..|lines| - 1]);
      var e := StartedFrom(c, before);
      assert Serving(c, decode, respond)(e, line).0 == Served(c, decode, e, line);
      match decode(line) {
        case Some(s) =>
          var records := RecordsOf(BookOf(before), s);
          assert records[..|records|] == records;
          BookOfLonger(before, s, |records|);
          LogAppend(c, before, records);
        case None =>
      }
    }
  }

  /** How far the core is: with all answered requests, or with the one in flight as well. */
  lemma CoreIsAt<C, L, R>(s: State<C, L, R>, book0: C, handle: Handler<C, L, R>) returns (k: nat)
    requires Inv(s, book0, handle)
    ensures |s.answered| <= k <= |s.accepted| <= |s.answered| + 1
    ensures s.book == Pipeline.Book(book0, s.accepted[..k], handle)
    ensures s.core.Handling? ==>
      k == |s.answered| && |s.accepted| == k + 1 && s.core.item.line == s.accepted[k]
  {
    hide ChannelInv, Held, Pipeline.Responses;
    var n := |s.answered|;
    assert Pipeline.Done(Abs(s)) == s.accepted[..n];
    if s.net.Accepting? {
      k := n;
      assert s.book == Pipeline.Book(book0, s.accepted[..n], handle);
    } else {
      var before, line := Pipeline.Book(book0, s.accepted[..n], handle), s.accepted[n];
      k := if s.net.PushingIngress? || (s.net.PoppingEgress? && (s.core.Handling? || Held(s.ingress) != [])) then n
           else n + 1;
      assert s.accepted[..n + 1][..n] == s.accepted[..n] && s.accepted[..n + 1][n] == line;
      assert Pipeline.Book(book0, s.accepted[..n + 1], handle) == handle(before, line).0;
      assert s.book == before || s.book == handle(before, line).0;
    }
  }

  /** The file when the process dies: all that was logged, and `n` bytes of what the core is writing. */
  ghost function FileAtCrash<L, R>(c: Codec, decode: Decoder<L>, s: State<Engine, L, R>, n: nat): seq<Byte> {
    if s.core.Handling? && decode(s.core.item.line).Some? then
      var data := DataOf(c, s.book.book, decode(s.core.item.line).value);
      s.book.file + (if n < |data| then data[..n] else data)
    else s.book.file
  }

  /**
   Started from any intact log, in every interleaving of single ring accesses, and killed at any move and
   any byte: the recovered book is the run of the commands among the first `k` requests, where `k` covers
   every request answered and nothing beyond the one in flight; or the file ends inside a multi-byte
   character and recovery fails.
   */
  lemma AnsweredCommandsSurvive<L, R>(
      c: Codec, log: seq<WalRecord>, decode: Decoder<L>, respond: (Engine, L) -> R, moves: seq<Move<L>>, n: nat)
    returns (k: nat)
    requires Faithful(c) && Feasible(StartedFrom(c, log), moves, Serving(c, decode, respond))
    ensures var s := After(StartedFrom(c, log), moves, Serving(c, decode, respond));
      var file := FileAtCrash(c, decode, s, n);
      && |s.answered| <= k <= |s.accepted| <= |s.answered| + 1
      && Recover(c, file) == (
           if IsUtf8(TornTail(file)) then Records(Run(BookOf(log), CommandsIn(decode, s.accepted[..k])))
           else Failed(NotUtf8))
  {
    hide Serving, Feasible, After, BookOf, Run, Apply, RecordsOf, Recover, TornTail, IsUtf8, Log, ThreadsInv;
    var handle := Serving(c, decode, respond);
    var s := After(StartedFrom(c, log), moves, handle);
    k := CoreIsAt(s, StartedFrom(c, log), handle);
    var lines := s.accepted[..k];
    var written := LogAfter(decode, log, lines);
    EngineAfter(c, decode, respond, log, lines);
    LogAfterStandsFor(decode, log, lines);
    if s.core.Handling? && decode(s.core.item.line).Some? {
      var next := decode(s.core.item.line).value;
      var data := DataOf(c, BookOf(written), next);
      var m := if n < |data| then n else |data|;
      assert data[..|data|] == data;
      RecoveryAfterACrash(c, written, next, m);
      if m >= |c.encode(RecordsOf(BookOf(written), next)[0])| {
        k := k + 1;
        OneMoreLine(decode, s.accepted, k);
        RunSnoc(BookOf(log), CommandsIn(decode, lines), next.command);
      }
    } else {
      IntactFile(c, written);
    }
  }

  lemma OneMoreLine<L>(decode: Decoder<L>, lines: seq<L>, k: nat)
    requires 0 < k <= |lines|
    ensures CommandsIn(decode, lines[..k])
         == CommandsIn(decode, lines[..k - 1])
            + (match decode(lines[k - 1]) case Some(s) => [s.command] case None => [])
  {
    assert lines[..k][..k - 1] == lines[..k - 1];
  }

  lemma IntactFile(c: Codec, log: seq<WalRecord>)
    requires Faithful(c)
    ensures Recover(c, Log(c, log)) == Records(BookOf(log)) && IsUtf8(TornTail(Log(c, log)))
  {
    hide ReadAll, TornTail, Log, ReplayFrom;
    ReadIntactLog(c, log);
    TornTailOfLog(c, log, []);
    assert Log(c, log) + [] == Log(c, log);
    EmptyIsUtf8();
  }
}
