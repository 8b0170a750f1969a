/**
 The write-ahead log: one serialised record per line, read back tolerating a torn last line, and
 replayed by re-issuing the logged commands.
 */
module WriteAheadLog {
  import opened OrderTypes
  import opened Utf8

  datatype WalRecord =
    | OrderAccepted(
        assignedId: nat, account: string, side: Side, orderType: OrderType, limitPrice: int,
        stopTrigger: Option<int>, quantity: nat, epochMillis: nat)
    | OrderCancelled(cancelledId: nat, wasCancelled: bool, epochMillis: nat)
    | TradeExecuted(trade: Trade, epochMillis: nat)

  function OrderAcceptedFrom(assignedId: nat, o: Order, epochMillis: nat): WalRecord {
    OrderAccepted(assignedId, o.account, o.side, o.orderType, o.limitPrice, o.stopTrigger, o.quantity, epochMillis)
  }

  /**
   How records and lines correspond: the serialiser, the parser, and which lines count as blank.
   Nothing below depends on the text format itself, only on what `Faithful` says of it.
   */
  datatype Codec = Codec(
    encode: WalRecord -> seq<Byte>, parse: seq<Byte> -> Option<WalRecord>, blank: seq<Byte> -> bool)

  const LF: Byte := 10
  const CR: Byte := 13

  ghost predicate FaithfulOn(c: Codec, r: WalRecord) {
    && LF !in c.encode(r) && CR !in c.encode(r)
    && IsUtf8(c.encode(r))
    && !c.blank(c.encode(r))
    && c.parse(c.encode(r)) == Some(r)
    && forall k :: 0 <= k < |c.encode(r)| ==> c.parse(c.encode(r)[..k]) == None
  }

  ghost predicate Faithful(c: Codec) {
    forall r :: FaithfulOn(c, r)
  }

  function Line(c: Codec, r: WalRecord): seq<Byte> {
    c.encode(r) + [LF]
  }

  /** The bytes of a log with these records. */
  function Log(c: Codec, records: seq<WalRecord>): seq<Byte> {
    if records == [] then [] else Line(c, records[0]) + Log(c, records[1..])
  }

  lemma {:induction false} LogAppend(c: Codec, p: seq<WalRecord>, q: seq<WalRecord>)
    ensures Log(c, p + q) == Log(c, p) + Log(c, q)
  {
    if p == [] {
      assert p + q == q;
    } else {
      assert (p + q)[1..] == p[1..] + q;
      LogAppend(c, p[1..], q);
    }
  }

  // ----- reading -----

  datatype ReadError = NotUtf8 | CorruptLine(lineNumber: nat)

  datatype ReadResult<+T> = Records(value: T) | Failed(error: ReadError)

  function StripCr(line: seq<Byte>): seq<Byte> {
    if line != [] && line[|line| - 1] == CR then line[..|line| - 1] else line
  }

  function FirstLf(bytes: seq<Byte>): (i: nat)
    ensures i <= |bytes| && (i < |bytes| ==> bytes[i] == LF)
    ensures forall j :: 0 <= j < i ==> bytes[j] != LF
  {
    if bytes == [] || bytes[0] == LF then 0 else 1 + FirstLf(bytes[1..])
  }

  /** Lines without their terminators; a last line without a terminator counts when it is not empty. */
  function Lines(bytes: seq<Byte>): seq<seq<Byte>>
    decreases |bytes|
  {
    if bytes == [] then []
    else
      var i := FirstLf(bytes);
      if i == |bytes| then [bytes] else [StripCr(bytes[..i])] + Lines(bytes[i + 1..])
  }

  /** Parses the lines from number `i` on; only the very last line may fail to parse. */
  function ParseFrom(c: Codec, lines: seq<seq<Byte>>, i: nat): ReadResult<seq<WalRecord>>
    requires i <= |lines|
    decreases |lines| - i
  {
    if i == |lines| then Records([])
    else if c.blank(lines[i]) then ParseFrom(c, lines, i + 1)
    else
      match c.parse(lines[i])
      case None => if i == |lines| - 1 then Records([]) else Failed(CorruptLine(i + 1))
      case Some(r) =>
        match ParseFrom(c, lines, i + 1)
        case Records(rest) => Records([r] + rest)
        case Failed(e) => Failed(e)
  }

  ghost predicate AllUtf8(lines: seq<seq<Byte>>) {
    forall i :: 0 <= i < |lines| ==> IsUtf8(lines[i])
  }

  ghost function ReadAll(c: Codec, bytes: seq<Byte>): ReadResult<seq<WalRecord>> {
    if AllUtf8(Lines(bytes)) then ParseFrom(c, Lines(bytes), 0) else Failed(NotUtf8)
  }

  method ReadAllEventRecords(c: Codec, bytes: seq<Byte>) returns (result: ReadResult<seq<WalRecord>>)
    ensures result == ReadAll(c, bytes)
  {
    var allLines := ReadLines(bytes);
    match allLines
    case Failed(e) => result := Failed(e);
    case Records(lines) => result := ParseLines(c, lines);
  }

  method ReadLines(bytes: seq<Byte>) returns (result: ReadResult<seq<seq<Byte>>>)
    ensures result == if AllUtf8(Lines(bytes)) then Records(Lines(bytes)) else Failed(NotUtf8)
  {
    hide IsUtf8, StripCr;
    var allLines: seq<seq<Byte>> := [];
    var left := bytes;
    while left != []
      invariant Lines(bytes) == allLines + Lines(left)
      invariant AllUtf8(allLines)
      decreases |left|
    {
      var i := FirstLf(left);
      var line := if i == |left| then left else StripCr(left[..i]);
      if !IsUtf8(line) {
        assert Lines(bytes)[|allLines|] == line;
        return Failed(NotUtf8);
      }
      allLines := allLines + [line];
      left := if i == |left| then [] else left[i + 1..];
    }
    assert allLines == Lines(bytes);
    result := Records(allLines);
  }

  method ParseLines(c: Codec, lines: seq<seq<Byte>>) returns (result: ReadResult<seq<WalRecord>>)
    ensures result == ParseFrom(c, lines, 0)
  {
    var records: seq<WalRecord> := [];
    var n := 0;
    OntoNone(ParseFrom(c, lines, 0));
    while n < |lines|
      invariant n <= |lines|
      invariant ParseFrom(c, lines, 0) == Onto(records, ParseFrom(c, lines, n))
    {
      if !c.blank(lines[n]) {
        match c.parse(lines[n])
        case Some(r) =>
          OntoOnto(records, r, ParseFrom(c, lines, n + 1));
          records := records + [r];
        case None =>
          if n != |lines| - 1 { return Failed(CorruptLine(n + 1)); }
      }
      n := n + 1;
    }
    assert records + [] == records;
    result := Records(records);
  }

  ghost function Onto(records: seq<WalRecord>, rest: ReadResult<seq<WalRecord>>): ReadResult<seq<WalRecord>> {
    match rest
    case Records(value) => Records(records + value)
    case Failed(e) => Failed(e)
  }

  lemma OntoNone(rest: ReadResult<seq<WalRecord>>)
    ensures Onto([], rest) == rest
  {
    if rest.Records? { assert [] + rest.value == rest.value; }
  }

  lemma OntoOnto(records: seq<WalRecord>, r: WalRecord, rest: ReadResult<seq<WalRecord>>)
    ensures Onto(records, Onto([r], rest)) == Onto(records + [r], rest)
  {
    if rest.Records? { assert records + ([r] + rest.value) == records + [r] + rest.value; }
  }

  // ----- what reading gives back -----

  /** The lines of an intact log followed by a fragment without a terminator. */
  ghost function ExpectedLines(c: Codec, records: seq<WalRecord>, tail: seq<Byte>): seq<seq<Byte>> {
    if records == [] then (if tail == [] then [] else [tail])
    else [c.encode(records[0])] + ExpectedLines(c, records[1..], tail)
  }

  lemma {:induction false} FirstLfAfter(line: seq<Byte>, rest: seq<Byte>)
    requires LF !in line && (rest != [] ==> rest[0] == LF)
    ensures FirstLf(line + rest) == |line|
  {
    if line == [] {
      assert line + rest == rest;
    } else {
      assert line == [line[0]] + line[1..];
      assert (line + rest)[1..] == line[1..] + rest;
      FirstLfAfter(line[1..], rest);
    }
  }

  lemma LinesStep(line: seq<Byte>, rest: seq<Byte>)
    requires LF !in line && CR !in line
    ensures Lines(line + [LF] + rest) == [line] + Lines(rest)
  {
    var bytes := line + [LF] + rest;
    FirstLfAfter(line, [LF] + rest);
    assert bytes == line + ([LF] + rest);
    assert bytes[..|line|] == line && bytes[|line| + 1..] == rest;
    assert StripCr(line) == line;
  }

  lemma LinesOfTail(tail: seq<Byte>)
    requires LF !in tail
    ensures Lines(tail) == if tail == [] then [] else [tail]
  {
    FirstLfAfter(tail, []);
    assert tail + [] == tail;
  }

  lemma {:induction false} LinesOfLog(c: Codec, records: seq<WalRecord>, tail: seq<Byte>)
    requires Faithful(c) && LF !in tail
    ensures Lines(Log(c, records) + tail) == ExpectedLines(c, records, tail)
  {
    hide Lines, IsUtf8;
    if records == [] {
      assert [] + tail == tail;
      LinesOfTail(tail);
    } else {
      var line, rest := c.encode(records[0]), Log(c, records[1..]) + tail;
      assert FaithfulOn(c, records[0]);
      LinesStep(line, rest);
      assert Log(c, records) + tail == line + [LF] + rest;
      LinesOfLog(c, records[1..], tail);
    }
  }

  ghost function TailRecord(c: Codec, tail: seq<Byte>): seq<WalRecord> {
    if tail == [] then [] else match c.parse(tail) case Some(r) => [r] case None => []
  }

  /** What is read back is the records, then what the fragment at the end adds. */
  lemma {:induction false} ParseExpected(c: Codec, lines: seq<seq<Byte>>, i: nat, records: seq<WalRecord>,
      tail: seq<Byte>)
    requires Faithful(c) && i <= |lines|
    requires lines[i..] == ExpectedLines(c, records, tail)
    requires c.blank(tail) ==> c.parse(tail) == None
    ensures ParseFrom(c, lines, i) == Records(records + TailRecord(c, tail))
    decreases |records|
  {
    if records == [] {
      assert records + TailRecord(c, tail) == TailRecord(c, tail);
      assert |lines[i..]| == |lines| - i;
      if tail != [] {
        assert lines[i..][0] == tail;
        assert |lines| == i + 1;
        assert TailRecord(c, tail) + [] == TailRecord(c, tail);
      }
    } else {
      assert FaithfulOn(c, records[0]);
      assert lines[i..][0] == lines[i];
      assert lines[i + 1..] == ExpectedLines(c, records[1..], tail);
      ParseExpected(c, lines, i + 1, records[1..], tail);
      assert [records[0]] + (records[1..] + TailRecord(c, tail)) == records + TailRecord(c, tail);
    }
  }

  lemma {:induction false} ExpectedUtf8(c: Codec, records: seq<WalRecord>, tail: seq<Byte>)
    requires Faithful(c)
    ensures AllUtf8(ExpectedLines(c, records, tail)) <==> IsUtf8(tail)
  {
    var lines := ExpectedLines(c, records, tail);
    if records == [] {
      if tail != [] { assert lines[0] == tail; }
    } else {
      ExpectedUtf8(c, records[1..], tail);
      assert FaithfulOn(c, records[0]);
      assert lines[1..] == ExpectedLines(c, records[1..], tail);
      if AllUtf8(lines) {
        forall i | 0 <= i < |lines[1..]| ensures IsUtf8(lines[1..][i]) { assert lines[1..][i] == lines[i + 1]; }
      }
      if AllUtf8(lines[1..]) {
        forall i | 0 <= i < |lines| ensures IsUtf8(lines[i]) { if i > 0 { assert lines[i] == lines[1..][i - 1]; } }
      }
    }
  }

  /**
   Reading a log whose last append broke off after `k` bytes of its line (terminator not written):
   the torn record is dropped, or kept when all of it but the terminator is there. The read fails
   exactly when the fragment is not UTF-8, that is, when it ends inside a multi-byte character.
   */
  lemma ReadTornLog(c: Codec, records: seq<WalRecord>, torn: WalRecord, k: nat)
    requires Faithful(c) && k <= |c.encode(torn)|
    ensures ReadAll(c, Log(c, records) + c.encode(torn)[..k])
         == if !IsUtf8(c.encode(torn)[..k]) then Failed(NotUtf8)
            else if k == |c.encode(torn)| then Records(records + [torn])
            else Records(records)
  {
    var tail := c.encode(torn)[..k];
    assert FaithfulOn(c, torn);
    assert c.encode(torn)[..|c.encode(torn)|] == c.encode(torn);
    LinesOfLog(c, records, tail);
    ExpectedUtf8(c, records, tail);
    var lines := Lines(Log(c, records) + tail);
    assert lines[0..] == lines;
    ParseExpected(c, lines, 0, records, tail);
    assert records + [] == records;
    if tail == [] && k == |c.encode(torn)| {
      assert c.encode(torn) == tail;
      EmptyLineUnparsed(c, torn);
    }
  }

  lemma EmptyLineUnparsed(c: Codec, r: WalRecord)
    requires Faithful(c)
    ensures c.encode(r) != []
  {
    var other := OrderCancelled(if r.OrderCancelled? then r.cancelledId + 1 else 0, true, 0);
    assert FaithfulOn(c, r) && FaithfulOn(c, other);
    assert c.encode(other)[..0] == [];
    assert c.parse([]) == None || c.parse([]) == Some(other);
  }

  lemma ReadIntactLog(c: Codec, records: seq<WalRecord>)
    requires Faithful(c)
    ensures ReadAll(c, Log(c, records)) == Records(records)
  {
    var anyRecord := OrderCancelled(0, true, 0);
    ReadTornLog(c, records, anyRecord, 0);
    EmptyLineUnparsed(c, anyRecord);
    assert Log(c, records) + c.encode(anyRecord)[..0] == Log(c, records);
  }

  // ----- what reading makes of any file -----

  /** A line may end with carriage return and line feed as well. */
  lemma CrLfEndsALine(line: seq<Byte>, rest: seq<Byte>)
    requires LF !in line
    ensures Lines(line + [CR, LF] + rest) == [line] + Lines(rest)
  {
    var bytes, whole := line + [CR, LF] + rest, line + [CR];
    FirstLfAfter(whole, [LF] + rest);
    assert bytes == whole + ([LF] + rest);
    assert bytes[..|whole|] == whole && bytes[|whole| + 1..] == rest;
    assert StripCr(whole) == line;
  }

  /** Neither blank nor a record. */
  predicate Unreadable(c: Codec, line: seq<Byte>) {
    !c.blank(line) && c.parse(line) == None
  }

  /** The records of the lines that are records, in order. */
  function RecordsIn(c: Codec, lines: seq<seq<Byte>>): seq<WalRecord> {
    if lines == [] then []
    else
      var r := c.parse(lines[0]);
      (if !c.blank(lines[0]) && r.Some? then [r.value] else []) + RecordsIn(c, lines[1..])
  }

  /** Blank lines are skipped, and a last line that cannot be read is dropped. */
  lemma {:induction false} ReadableLinesAreRead(c: Codec, lines: seq<seq<Byte>>, i: nat)
    requires i <= |lines| && forall k :: i <= k < |lines| - 1 ==> !Unreadable(c, lines[k])
    ensures ParseFrom(c, lines, i) == Records(RecordsIn(c, lines[i..]))
    decreases |lines| - i
  {
    if i < |lines| {
      ReadableLinesAreRead(c, lines, i + 1);
      assert lines[i..][0] == lines[i] && lines[i..][1..] == lines[i + 1..];
      if i == |lines| - 1 { assert lines[i + 1..] == []; }
      assert [] + RecordsIn(c, lines[i + 1..]) == RecordsIn(c, lines[i + 1..]);
    }
  }

  /** Any other line that cannot be read is an error, and the first such line is named, counting from one. */
  lemma {:induction false} FirstUnreadableLineIsNamed(c: Codec, lines: seq<seq<Byte>>, i: nat, n: nat)
    requires i <= n < |lines| - 1 && Unreadable(c, lines[n])
    requires forall k :: i <= k < n ==> !Unreadable(c, lines[k])
    ensures ParseFrom(c, lines, i) == Failed(CorruptLine(n + 1))
    decreases n - i
  {
    if i < n { FirstUnreadableLineIsNamed(c, lines, i + 1, n); }
  }
}
