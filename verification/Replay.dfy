/** Recovery by replay, the audit trail it re-derives, and time-windowed depth replay. */
module Replay {
  import opened OrderTypes
  import opened BookSpec
  import opened BookInvariants
  import opened PriceLevels
  import opened Depth
  import opened OrderBook
  import opened WriteAheadLog

  // ----- replaying records -----

  function OrderOf(r: WalRecord): Order
    requires r.OrderAccepted?
  {
    Order(r.account, r.side, r.orderType, r.limitPrice, r.stopTrigger, r.quantity, 0)
  }

  predicate Replayable(records: seq<WalRecord>) {
    forall i :: 0 <= i < |records| && records[i].OrderAccepted? ==> WellFormed(OrderOf(records[i]))
  }

  /** What a replay reconstructs: the book, the trades and the ids it hands out on the way. */
  datatype Replayed = Replayed(book: Book, trades: seq<Trade>, ids: seq<nat>)

  function ReplayOne(b: Book, r: WalRecord): Replayed {
    match r
    case OrderAccepted(_, _, _, _, _, _, _, _) =>
      var e := Submit(b, OrderOf(r));
      Replayed(e.book, TradesOf(e.fills), [b.nextId])
    case OrderCancelled(id, _, _) => Replayed(Cancel(b, id), [], [])
    case TradeExecuted(_, _) => Replayed(b, [], [])
  }

  /** Continues a replay from `b`. */
  function ReplayFrom(b: Book, records: seq<WalRecord>): Replayed
    decreases |records|
  {
    if records == [] then Replayed(b, [], [])
    else
      var first := ReplayOne(b, records[0]);
      var rest := ReplayFrom(first.book, records[1..]);
      Replayed(rest.book, first.trades + rest.trades, first.ids + rest.ids)
  }

  /** replay(p ++ q) is q continued from replay(p). */
  lemma {:induction false} ReplayAppend(b: Book, p: seq<WalRecord>, q: seq<WalRecord>)
    ensures var first := ReplayFrom(b, p);
      var rest := ReplayFrom(first.book, q);
      ReplayFrom(b, p + q) == Replayed(rest.book, first.trades + rest.trades, first.ids + rest.ids)
    decreases |p|
  {
    hide ReplayOne;
    if p == [] {
      assert p + q == q;
    } else {
      var one := ReplayOne(b, p[0]);
      assert (p + q)[1..] == p[1..] + q;
      ReplayAppend(one.book, p[1..], q);
      var mid := ReplayFrom(one.book, p[1..]);
      var rest := ReplayFrom(mid.book, q);
      assert one.trades + (mid.trades + rest.trades) == (one.trades + mid.trades) + rest.trades;
      assert one.ids + (mid.ids + rest.ids) == (one.ids + mid.ids) + rest.ids;
    }
  }

  lemma ReplayOneKeeps(b: Book, r: WalRecord)
    requires Inv(b) && (r.OrderAccepted? ==> WellFormed(OrderOf(r)))
    ensures Inv(ReplayOne(b, r).book)
  {
    match r
    case OrderAccepted(_, _, _, _, _, _, _, _) => SubmitKeeps(b, OrderOf(r));
    case OrderCancelled(id, _, _) => CancelKeeps(b, id);
    case TradeExecuted(_, _) =>
  }

  lemma {:induction false} ReplayKeeps(b: Book, records: seq<WalRecord>)
    requires Inv(b) && Replayable(records)
    ensures Inv(ReplayFrom(b, records).book)
    decreases |records|
  {
    hide Inv, ReplayOne;
    if records != [] {
      ReplayOneKeeps(b, records[0]);
      ReplayKeeps(ReplayOne(b, records[0]).book, records[1..]);
    }
  }

  lemma ReplaySnoc(records: seq<WalRecord>, i: nat)
    requires i < |records|
    ensures var before := ReplayFrom(EmptyBook, records[..i]);
      var one := ReplayOne(before.book, records[i]);
      ReplayFrom(EmptyBook, records[..i + 1])
        == Replayed(one.book, before.trades + one.trades, before.ids + one.ids)
  {
    hide ReplayOne;
    var before := ReplayFrom(EmptyBook, records[..i]);
    assert records[..i + 1] == records[..i] + [records[i]];
    ReplayAppend(EmptyBook, records[..i], [records[i]]);
    var one := ReplayOne(before.book, records[i]);
    assert one.trades + [] == one.trades && one.ids + [] == one.ids;
  }

  /** One record re-issued as a command against the book being rebuilt. */
  method ReissueCommand(book: OrderBookCore, r: WalRecord) returns (trades: seq<Trade>)
    requires book.Valid() && (r.OrderAccepted? ==> WellFormed(OrderOf(r)))
    modifies book
    ensures book.Valid()
    ensures var one := ReplayOne(old(book.View()), r); book.View() == one.book && trades == one.trades
  {
    hide Submit, Cancel, Inv, WellKeyed, Flatten;
    trades := [];
    match r
    case OrderAccepted(_, _, _, _, _, _, _, _) =>
      var outcome := book.SubmitIncomingOrder(OrderOf(r));
      trades := outcome.trades;
    case OrderCancelled(id, _, _) =>
      var wasCancelled := book.CancelOrder(id);
    case TradeExecuted(_, _) =>
  }

  method ReplayIntoFreshOrderBook(records: seq<WalRecord>) returns (book: OrderBookCore, trades: seq<Trade>)
    requires Replayable(records)
    ensures fresh(book) && book.Valid()
    ensures book.View() == ReplayFrom(EmptyBook, records).book
    ensures trades == ReplayFrom(EmptyBook, records).trades
  {
    hide ReplayOne, ReplayFrom, Inv, WellKeyed, Flatten;
    book := new OrderBookCore();
    trades := [];
    var i := 0;
    ReplayNothing(records);
    while i < |records|
      invariant i <= |records| && fresh(book) && book.Valid()
      invariant book.View() == ReplayFrom(EmptyBook, records[..i]).book
      invariant trades == ReplayFrom(EmptyBook, records[..i]).trades
    {
      var produced := ReissueCommand(book, records[i]);
      ReplaySnoc(records, i);
      trades := trades + produced;
      i := i + 1;
    }
    assert records[..i] == records;
  }

  lemma ReplayNothing(records: seq<WalRecord>)
    ensures ReplayFrom(EmptyBook, records[..0]) == Replayed(EmptyBook, [], [])
  {
  }

  // ----- time-windowed depth replay -----

  datatype DomSnapshot = DomSnapshot(
    epochMillis: nat, walEventIndex: nat, bidsBestFirst: seq<DepthLevel>, asksBestFirst: seq<DepthLevel>)

  predicate InWindow(r: WalRecord, start: nat, end: nat) {
    !r.TradeExecuted? && start <= r.epochMillis <= end
  }

  /** The depth of a book rebuilt from scratch out of the records up to and including number `i`. */
  function SnapshotAt(records: seq<WalRecord>, i: nat): DomSnapshot
    requires i < |records|
  {
    var book := ReplayFrom(EmptyBook, records[..i + 1]).book;
    DomSnapshot(records[i].epochMillis, i, DepthOf(book.bids), DepthOf(book.asks))
  }

  /** The snapshots of the first `n` records that fall into the window. */
  function SnapshotsInWindow(records: seq<WalRecord>, n: nat, start: nat, end: nat): seq<DomSnapshot>
    requires n <= |records|
  {
    if n == 0 then []
    else SnapshotsInWindow(records, n - 1, start, end)
         + (if InWindow(records[n - 1], start, end) then [SnapshotAt(records, n - 1)] else [])
  }

  /** Inserts in front of the first line that is worse: one turn of a stable sort, best price first. */
  function InsertLevel(side: Side, x: DepthLevel, levels: seq<DepthLevel>): seq<DepthLevel> {
    if levels == [] || Better(side, x.price, levels[0].price) then [x] + levels
    else [levels[0]] + InsertLevel(side, x, levels[1..])
  }

  function SortLevels(side: Side, levels: seq<DepthLevel>): seq<DepthLevel> {
    if levels == [] then [] else InsertLevel(side, levels[0], SortLevels(side, levels[1..]))
  }

  ghost predicate BestFirst(side: Side, levels: seq<DepthLevel>) {
    forall i, j :: 0 <= i < j < |levels| ==> Better(side, levels[i].price, levels[j].price)
  }

  lemma {:induction false} SortSorted(side: Side, levels: seq<DepthLevel>)
    requires BestFirst(side, levels)
    ensures SortLevels(side, levels) == levels
  {
    if levels != [] { SortSorted(side, levels[1..]); }
  }

  lemma {:induction false} SortWithBestLast(side: Side, levels: seq<DepthLevel>, x: DepthLevel)
    requires forall i :: 0 <= i < |levels| ==> Better(side, x.price, levels[i].price)
    ensures SortLevels(side, levels + [x]) == [x] + SortLevels(side, levels)
  {
    if levels != [] {
      assert (levels + [x])[0] == levels[0] && (levels + [x])[1..] == levels[1..] + [x];
      SortWithBestLast(side, levels[1..], x);
      var sorted := SortLevels(side, levels[1..]);
      assert ([x] + sorted)[1..] == sorted;
    } else {
      assert levels + [x] == [x];
    }
  }

  /** Sorting an ascending list descending turns it round. */
  lemma {:induction false} SortReversed(side: Side, levels: seq<DepthLevel>)
    requires BestFirst(side, levels)
    ensures SortLevels(side, Reversed(levels)) == levels
  {
    if levels != [] {
      SortReversed(side, levels[1..]);
      ReversedMembers(levels[1..]);
      forall i | 0 <= i < |Reversed(levels[1..])|
        ensures Better(side, levels[0].price, Reversed(levels[1..])[i].price)
      {
        assert Reversed(levels[1..])[i] in levels[1..];
      }
      SortWithBestLast(side, Reversed(levels[1..]), levels[0]);
    }
  }

  lemma {:induction false} ReversedMembers<T>(s: seq<T>)
    ensures forall x :: x in Reversed(s) ==> x in s
  {
    if s != [] {
      ReversedMembers(s[1..]);
      assert s == [s[0]] + s[1..];
    }
  }

  /** The lines of one side of a depth snapshot. */
  function LinesOf(isBid: bool, lines: seq<(bool, DepthLevel)>): seq<DepthLevel> {
    if lines == [] then []
    else (if lines[0].0 == isBid then [lines[0].1] else []) + LinesOf(isBid, lines[1..])
  }

  lemma {:induction false} LinesOfFlagged(isBid: bool, flag: bool, levels: seq<DepthLevel>,
      tail: seq<(bool, DepthLevel)>)
    ensures LinesOf(isBid, Flagged(flag, levels) + tail)
         == (if flag == isBid then levels else []) + LinesOf(isBid, tail)
  {
    if levels == [] {
      assert Flagged(flag, levels) + tail == tail;
    } else {
      assert (Flagged(flag, levels) + tail)[1..] == Flagged(flag, levels[1..]) + tail;
      LinesOfFlagged(isBid, flag, levels[1..], tail);
    }
  }

  lemma SnapshotSides(bids: seq<RestingOrder>, asks: seq<RestingOrder>)
    requires Sides(bids, asks)
    ensures var lines := Flagged(true, Reversed(DepthOf(bids))) + Flagged(false, DepthOf(asks));
      && SortLevels(Buy, LinesOf(true, lines)) == DepthOf(bids)
      && SortLevels(Sell, LinesOf(false, lines)) == DepthOf(asks)
  {
    hide LinesOf, SortLevels, Flagged, Reversed;
    var bidLines, askLines := Reversed(DepthOf(bids)), DepthOf(asks);
    DepthShape(Buy, bids);
    DepthShape(Sell, asks);
    assert Flagged(false, askLines) + [] == Flagged(false, askLines);
    forall isBid ensures LinesOf(isBid, []) == [] { NoLines(isBid); }
    LinesOfFlagged(true, true, bidLines, Flagged(false, askLines));
    LinesOfFlagged(true, false, askLines, []);
    LinesOfFlagged(false, true, bidLines, Flagged(false, askLines));
    LinesOfFlagged(false, false, askLines, []);
    assert bidLines + [] == bidLines && askLines + [] == askLines && [] + askLines == askLines;
    SortReversed(Buy, DepthOf(bids));
    SortSorted(Sell, askLines);
  }

  lemma NoLines(isBid: bool)
    ensures LinesOf(isBid, []) == []
  {
  }

  /** Record number `i` is a submission or a cancellation stamped within the window, both ends included. */
  predicate IsCommandWithin(records: seq<WalRecord>, i: nat, start: nat, end: nat) {
    && i < |records|
    && (records[i].OrderAccepted? || records[i].OrderCancelled?)
    && start <= records[i].epochMillis && records[i].epochMillis <= end
  }

  /** One snapshot for each such record of the first `n`, in log order, stamped like it. */
  ghost predicate CoversWindow(snapshots: seq<DomSnapshot>, records: seq<WalRecord>, n: nat, start: nat, end: nat) {
    && (forall k :: 0 <= k < |snapshots| ==>
          var i := snapshots[k].walEventIndex;
          i < n && IsCommandWithin(records, i, start, end) && snapshots[k] == SnapshotAt(records, i)
          && snapshots[k].epochMillis == records[i].epochMillis)
    && (forall j, k :: 0 <= j < k < |snapshots| ==> snapshots[j].walEventIndex < snapshots[k].walEventIndex)
    && (forall i: nat :: i < n && IsCommandWithin(records, i, start, end) ==> HasSnapshot(snapshots, i))
  }

  ghost predicate HasSnapshot(snapshots: seq<DomSnapshot>, i: nat) {
    exists k :: 0 <= k < |snapshots| && snapshots[k].walEventIndex == i
  }

  lemma HasSnapshotSnoc(snapshots: seq<DomSnapshot>, s: DomSnapshot, i: nat)
    ensures HasSnapshot(snapshots + [s], i) <==> HasSnapshot(snapshots, i) || s.walEventIndex == i
  {
    if HasSnapshot(snapshots, i) {
      var k :| 0 <= k < |snapshots| && snapshots[k].walEventIndex == i;
      assert (snapshots + [s])[k].walEventIndex == i;
    }
    assert (snapshots + [s])[|snapshots|] == s;
  }

  lemma {:induction false} WindowIsCovered(records: seq<WalRecord>, n: nat, start: nat, end: nat)
    requires n <= |records|
    ensures CoversWindow(SnapshotsInWindow(records, n, start, end), records, n, start, end)
  {
    hide SnapshotAt, HasSnapshot;
    if n > 0 {
      var before, s := SnapshotsInWindow(records, n - 1, start, end), SnapshotAt(records, n - 1);
      var after := SnapshotsInWindow(records, n, start, end);
      WindowIsCovered(records, n - 1, start, end);
      SnapshotTime(records, n - 1);
      forall i: nat | i < n && IsCommandWithin(records, i, start, end) ensures HasSnapshot(after, i) {
        HasSnapshotSnoc(before, s, i);
        assert before + [] == before;
      }
    }
  }

  /** One pass over the whole log, taking a snapshot after each command inside the window. */
  method ReplayCollectingDepthSnapshotsInWindow(records: seq<WalRecord>, start: nat, end: nat)
    returns (snapshots: seq<DomSnapshot>)
    requires Replayable(records)
    ensures snapshots == SnapshotsInWindow(records, |records|, start, end)
    ensures CoversWindow(snapshots, records, |records|, start, end)
  {
    hide ReplayOne, ReplayFrom, WellKeyed, Flatten, SortLevels, LinesOf, DepthOf, Flagged, Reversed, DistinctIds,
        ArmedPool, Quiescent, Sides;
    var book := new OrderBookCore();
    snapshots := [];
    var i := 0;
    ReplayNothing(records);
    while i < |records|
      invariant i <= |records| && fresh(book) && book.Valid()
      invariant book.View() == ReplayFrom(EmptyBook, records[..i]).book
      invariant snapshots == SnapshotsInWindow(records, i, start, end)
    {
      var produced := ReissueCommand(book, records[i]);
      ReplaySnoc(records, i);
      if InWindow(records[i], start, end) {
        var depth := book.CurrentBookDepthSnapshot();
        SnapshotSides(book.View().bids, book.View().asks);
        snapshots := snapshots + [DomSnapshot(
          records[i].epochMillis, i, SortLevels(Buy, LinesOf(true, depth)), SortLevels(Sell, LinesOf(false, depth)))];
      }
      i := i + 1;
    }
    WindowIsCovered(records, |records|, start, end);
  }

  /** Every snapshot is an exact, uncrossed depth, strictly best first on both sides. */
  lemma SnapshotsAreExact(records: seq<WalRecord>, i: nat)
    requires Replayable(records) && i < |records|
    ensures var s := SnapshotAt(records, i);
      var book := ReplayFrom(EmptyBook, records[..i + 1]).book;
      && IsDepth(Buy, book.bids, s.bidsBestFirst) && IsDepth(Sell, book.asks, s.asksBestFirst)
      && (s.bidsBestFirst != [] && s.asksBestFirst != [] ==> s.bidsBestFirst[0].price < s.asksBestFirst[0].price)
  {
    hide ReplayFrom, DistinctIds, ArmedPool, Quiescent;
    var book := ReplayFrom(EmptyBook, records[..i + 1]).book;
    EmptyBookInv();
    ReplayKeeps(EmptyBook, records[..i + 1]);
    DepthIsExact(Buy, book.bids);
    DepthIsExact(Sell, book.asks);
    DepthHead(book.bids);
    DepthHead(book.asks);
  }

  function FilterByTime(snapshots: seq<DomSnapshot>, start: nat, end: nat): seq<DomSnapshot> {
    if snapshots == [] then []
    else FilterByTime(snapshots[..|snapshots| - 1], start, end)
         + (if start <= snapshots[|snapshots| - 1].epochMillis <= end then [snapshots[|snapshots| - 1]] else [])
  }

  /** A narrower window gives exactly the snapshots of the wider one that fall into it. */
  lemma {:induction false} NarrowerWindowIsAFilter(
      records: seq<WalRecord>, n: nat, start: nat, end: nat, innerStart: nat, innerEnd: nat)
    requires n <= |records| && start <= innerStart && innerEnd <= end
    ensures FilterByTime(SnapshotsInWindow(records, n, start, end), innerStart, innerEnd)
         == SnapshotsInWindow(records, n, innerStart, innerEnd)
  {
    hide SnapshotAt, FilterByTime;
    NothingFiltered(innerStart, innerEnd);
    if n > 0 {
      NarrowerWindowIsAFilter(records, n - 1, start, end, innerStart, innerEnd);
      SnapshotTime(records, n - 1);
      var before, s := SnapshotsInWindow(records, n - 1, start, end), SnapshotAt(records, n - 1);
      FilterSnoc(before, s, innerStart, innerEnd);
      assert before + [] == before;
    }
  }

  lemma NothingFiltered(start: nat, end: nat)
    ensures FilterByTime([], start, end) == []
  {
  }

  lemma FilterSnoc(snapshots: seq<DomSnapshot>, s: DomSnapshot, start: nat, end: nat)
    ensures FilterByTime(snapshots + [s], start, end)
         == FilterByTime(snapshots, start, end) + (if start <= s.epochMillis <= end then [s] else [])
  {
    assert (snapshots + [s])[..|snapshots|] == snapshots;
  }

  lemma SnapshotTime(records: seq<WalRecord>, i: nat)
    requires i < |records|
    ensures SnapshotAt(records, i).epochMillis == records[i].epochMillis && SnapshotAt(records, i).walEventIndex == i
  {
  }
}
