/** Appending behind a torn last line, and what a second recovery makes of it. */
module SecondRecovery {
  import opened OrderTypes
  import opened Utf8
  import opened WriteAheadLog

  ghost function Encodings(c: Codec, records: seq<WalRecord>): (lines: seq<seq<Byte>>)
    ensures |lines| == |records|
  {
    seq(|records|, i requires 0 <= i < |records| => c.encode(records[i]))
  }

  lemma {:induction false} LinesOfLogThen(c: Codec, records: seq<WalRecord>, rest: seq<Byte>)
    requires Faithful(c)
    ensures Lines(Log(c, records) + rest) == Encodings(c, records) + Lines(rest)
  {
    hide Lines, IsUtf8;
    if records == [] {
      assert [] + rest == rest;
    } else {
      var line, behind := c.encode(records[0]), Log(c, records[1..]) + rest;
      assert FaithfulOn(c, records[0]);
      LinesStep(line, behind);
      assert Log(c, records) + rest == line + [LF] + behind;
      LinesOfLogThen(c, records[1..], rest);
      assert [line] + (Encodings(c, records[1..]) + Lines(rest)) == Encodings(c, records) + Lines(rest);
    }
  }

  /** Well-formed lines are parsed one by one, then the rest is. */
  lemma {:induction false} ParseThrough(c: Codec, lines: seq<seq<Byte>>, i: nat, records: seq<WalRecord>)
    requires Faithful(c) && i + |records| <= |lines|
    requires forall k :: 0 <= k < |records| ==> lines[i + k] == c.encode(records[k])
    ensures ParseFrom(c, lines, i) == Onto(records, ParseFrom(c, lines, i + |records|))
    decreases |records|
  {
    if records == [] {
      OntoNone(ParseFrom(c, lines, i));
    } else {
      assert FaithfulOn(c, records[0]) && lines[i + 0] == c.encode(records[0]);
      forall k | 0 <= k < |records| - 1 ensures lines[i + 1 + k] == c.encode(records[1..][k]) {
        assert lines[i + (k + 1)] == c.encode(records[k + 1]);
      }
      ParseThrough(c, lines, i + 1, records[1..]);
      OntoCons(records, ParseFrom(c, lines, i + |records|));
    }
  }

  lemma OntoCons(records: seq<WalRecord>, rest: ReadResult<seq<WalRecord>>)
    requires records != []
    ensures Onto(records, rest) == Onto([records[0]], Onto(records[1..], rest))
  {
    assert records == [records[0]] + records[1..];
    OntoOnto([], records[0], Onto(records[1..], rest));
    if rest.Records? { assert [records[0]] + (records[1..] + rest.value) == records + rest.value; }
  }

  /** The line that the fragment and the first record appended behind it make together. */
  ghost function Joined(c: Codec, torn: WalRecord, k: nat, more: seq<WalRecord>): seq<Byte>
    requires k <= |c.encode(torn)| && more != []
  {
    c.encode(torn)[..k] + c.encode(more[0])
  }

  /** What reading such a file gives. */
  ghost function JoinedRead(c: Codec, records: seq<WalRecord>, joined: seq<Byte>,
      more: seq<WalRecord>): ReadResult<seq<WalRecord>>
    requires more != []
  {
    if c.blank(joined) then Records(records + more[1..])
    else
      match c.parse(joined)
      case Some(r) => Records(records + [r] + more[1..])
      case None => if |more| == 1 then Records(records) else Failed(CorruptLine(|records| + 1))
  }

  lemma JoinedLines(c: Codec, records: seq<WalRecord>, torn: WalRecord, k: nat, more: seq<WalRecord>)
    requires Faithful(c) && k <= |c.encode(torn)| && more != []
    ensures Lines(Log(c, records) + c.encode(torn)[..k] + Log(c, more))
         == Encodings(c, records) + [Joined(c, torn, k, more)] + Encodings(c, more[1..])
  {
    hide Lines, IsUtf8;
    var fragment, joined, tail := c.encode(torn)[..k], Joined(c, torn, k, more), Log(c, more[1..]);
    assert FaithfulOn(c, torn) && FaithfulOn(c, more[0]);
    assert fragment + Log(c, more) == joined + [LF] + tail;
    LinesStep(joined, tail);
    assert Log(c, records) + fragment + Log(c, more) == Log(c, records) + (joined + [LF] + tail);
    LinesOfLogThen(c, records, joined + [LF] + tail);
    assert tail + [] == tail;
    LinesOfLogThen(c, more[1..], []);
    NoLines();
    assert Encodings(c, more[1..]) + [] == Encodings(c, more[1..]);
    assert Encodings(c, records) + ([joined] + Encodings(c, more[1..]))
        == Encodings(c, records) + [joined] + Encodings(c, more[1..]);
  }

  lemma NoLines()
    ensures Lines([]) == []
  {
  }

  lemma JoinedUtf8(c: Codec, records: seq<WalRecord>, torn: WalRecord, k: nat, more: seq<WalRecord>)
    requires Faithful(c) && k <= |c.encode(torn)| && more != [] && IsUtf8(c.encode(torn)[..k])
    ensures AllUtf8(Encodings(c, records) + [Joined(c, torn, k, more)] + Encodings(c, more[1..]))
  {
    hide IsUtf8;
    assert FaithfulOn(c, more[0]);
    AppendUtf8(c.encode(torn)[..k], c.encode(more[0]));
    var lines := Encodings(c, records) + [Joined(c, torn, k, more)] + Encodings(c, more[1..]);
    forall i | 0 <= i < |lines| ensures IsUtf8(lines[i]) {
      if i < |records| {
        assert FaithfulOn(c, records[i]);
      } else if i > |records| {
        assert FaithfulOn(c, more[i - |records|]);
      }
    }
  }

  lemma JoinedParse(c: Codec, records: seq<WalRecord>, joined: seq<Byte>, more: seq<WalRecord>)
    requires Faithful(c) && more != []
    ensures ParseFrom(c, Encodings(c, records) + [joined] + Encodings(c, more[1..]), 0)
        == JoinedRead(c, records, joined, more)
  {
    var lines, n := Encodings(c, records) + [joined] + Encodings(c, more[1..]), |records|;
    ParseThrough(c, lines, 0, records);
    ParseThrough(c, lines, n + 1, more[1..]);
    assert |lines| == n + |more|;
    assert more[1..] + [] == more[1..];
    assert lines[n] == joined;
    assert ParseFrom(c, lines, n + 1) == Records(more[1..]);
    if c.parse(joined).Some? {
      assert records + ([c.parse(joined).value] + more[1..]) == records + [c.parse(joined).value] + more[1..];
    }
    assert records + [] == records;
  }

  /** Reading a file in which records were appended behind a fragment that a crash had left. */
  lemma ReadBehindTornTail(c: Codec, records: seq<WalRecord>, torn: WalRecord, k: nat, more: seq<WalRecord>)
    requires Faithful(c) && k <= |c.encode(torn)| && IsUtf8(c.encode(torn)[..k]) && more != []
    ensures ReadAll(c, Log(c, records) + c.encode(torn)[..k] + Log(c, more))
         == JoinedRead(c, records, Joined(c, torn, k, more), more)
  {
    hide Lines, ParseFrom, JoinedRead, IsUtf8, AllUtf8;
    JoinedLines(c, records, torn, k, more);
    JoinedUtf8(c, records, torn, k, more);
    JoinedParse(c, records, Joined(c, torn, k, more), more);
  }

  /**
   After a first recovery that succeeded, the file reads back as what memory stands for (the records
   kept by that recovery, then those appended since) exactly when there was no fragment, or when the
   fragment was dropped and the joined line happens to parse as the record appended behind it.
   */
  lemma SecondRecoveryIsRightIff(c: Codec, records: seq<WalRecord>, torn: WalRecord, k: nat, more: seq<WalRecord>)
    requires Faithful(c) && k <= |c.encode(torn)| && IsUtf8(c.encode(torn)[..k]) && more != []
    ensures var kept := if k == |c.encode(torn)| then records + [torn] else records;
      var joined := Joined(c, torn, k, more);
      && ReadAll(c, Log(c, records) + c.encode(torn)[..k]) == Records(kept)
      && (ReadAll(c, Log(c, records) + c.encode(torn)[..k] + Log(c, more)) == Records(kept + more) <==>
            k == 0 || (k < |c.encode(torn)| && !c.blank(joined) && c.parse(joined) == Some(more[0])))
  {
    hide ReadAll, IsUtf8;
    var joined := Joined(c, torn, k, more);
    ReadTornLog(c, records, torn, k);
    ReadBehindTornTail(c, records, torn, k, more);
    assert more == [more[0]] + more[1..];
    EmptyLineUnparsed(c, torn);
    if k == 0 {
      assert FaithfulOn(c, more[0]);
      assert joined == c.encode(more[0]);
      assert records + [more[0]] + more[1..] == records + more;
    } else if k < |c.encode(torn)| && c.parse(joined).Some? {
      var r := c.parse(joined).value;
      assert (records + [r] + more[1..])[|records|] == r && (records + more)[|records|] == more[0];
      assert records + [more[0]] + more[1..] == records + more;
    }
  }

  /** As with JSON objects: what a part of a line and a whole line make together is not a line. */
  ghost predicate NeverJoins(c: Codec) {
    forall torn, k: nat, r {:trigger c.encode(torn)[..k] + c.encode(r)} ::
      0 < k < |c.encode(torn)| ==> c.parse(c.encode(torn)[..k] + c.encode(r)) == None
  }

  /** For such a format the file reads back right exactly when the crash left no torn tail. */
  lemma OnlyACleanTailReadsBackRight(c: Codec, records: seq<WalRecord>, torn: WalRecord, k: nat, more: seq<WalRecord>)
    requires Faithful(c) && NeverJoins(c)
    requires k <= |c.encode(torn)| && IsUtf8(c.encode(torn)[..k]) && more != []
    ensures var kept := if k == |c.encode(torn)| then records + [torn] else records;
      ReadAll(c, Log(c, records) + c.encode(torn)[..k] + Log(c, more)) == Records(kept + more) <==> k == 0
  {
    hide ReadAll, IsUtf8, Faithful;
    SecondRecoveryIsRightIff(c, records, torn, k, more);
  }
}
