/** Order-flow footprints: bought and sold volume per price bucket and candle, computed in one batch. */
module Footprint {
  import opened OrderTypes
  import opened PriceLevels
  import opened TickTape
  import opened ValueArea
  import Candles
  import ColumnarTickStore

  datatype Cell = Cell(buy: nat, sell: nat)

  type Cells = map<int, Cell>

  datatype FootprintLevel = FootprintLevel(start: int, buy: nat, sell: nat)

  datatype CandleFootprint = CandleFootprint(start: nat, levels: seq<FootprintLevel>, totalBuy: nat, totalSell: nat)

  function SideOf(cells: Cells, byBuyer: bool): Buckets {
    map k | k in cells :: if byBuyer then cells[k].buy else cells[k].sell
  }

  /** The cells of one candle: the touched buckets, with the quantity each side aggressed there. */
  ghost predicate AreCellsOf(cells: Cells, ticks: seq<Tick>, size: nat)
    requires size > 0
  {
    && (forall k :: k in cells <==> Touched(ticks, size, k))
    && (forall k :: k in cells ==> cells[k] == CellOf(ticks, size, k))
    && Volume(SideOf(cells, true), cells.Keys) == TotalQuantity(Aggressed(ticks, true))
    && Volume(SideOf(cells, false), cells.Keys) == TotalQuantity(Aggressed(ticks, false))
  }

  function CellOf(ticks: seq<Tick>, size: nat, k: int): Cell
    requires size > 0
  {
    Cell(BucketVolume(Aggressed(ticks, true), size, k), BucketVolume(Aggressed(ticks, false), size, k))
  }

  function Filled(cells: Cells, k: int, t: Tick): Cells {
    var c := if k in cells then cells[k] else Cell(0, 0);
    cells[k := if t.isBuyAggressor then c.(buy := c.buy + t.quantity) else c.(sell := c.sell + t.quantity)]
  }

  lemma SideVolume(cells: Cells, k: int, t: Tick, byBuyer: bool)
    ensures Volume(SideOf(Filled(cells, k, t), byBuyer), Filled(cells, k, t).Keys)
         == Volume(SideOf(cells, byBuyer), cells.Keys) + (if t.isBuyAggressor == byBuyer then t.quantity else 0)
  {
    hide Volume;
    var m, added := SideOf(cells, byBuyer), if t.isBuyAggressor == byBuyer then t.quantity else 0;
    VolumeUpdate(m, k, added);
    assert m.Keys == cells.Keys;
    assert SideOf(Filled(cells, k, t), byBuyer).Keys == Filled(cells, k, t).Keys;
    assert SideOf(Filled(cells, k, t), byBuyer) == m[k := (if k in m then m[k] else 0) + added];
  }

  lemma SideQuantity(ticks: seq<Tick>, t: Tick, size: nat, k: int, byBuyer: bool)
    requires size > 0
    ensures TotalQuantity(Aggressed(ticks + [t], byBuyer))
         == TotalQuantity(Aggressed(ticks, byBuyer)) + (if t.isBuyAggressor == byBuyer then t.quantity else 0)
    ensures BucketVolume(Aggressed(ticks + [t], byBuyer), size, k)
         == BucketVolume(Aggressed(ticks, byBuyer), size, k)
            + (if t.isBuyAggressor == byBuyer && BucketStart(t.price, size) == k then t.quantity else 0)
  {
    hide TotalQuantity, BucketVolume, Aggressed, BucketStart;
    AggressedSnoc(ticks, t, byBuyer);
    AggressedQuantity(ticks, t, byBuyer);
    TouchedSnoc(Aggressed(ticks, byBuyer), t, size, k);
  }

  lemma {:induction false} UntouchedCell(ticks: seq<Tick>, size: nat, k: int)
    requires size > 0 && !Touched(ticks, size, k)
    ensures CellOf(ticks, size, k) == Cell(0, 0)
  {
    if ticks != [] {
      hide BucketStart, BucketVolume, Aggressed, Touched;
      var before, t := ticks[..|ticks| - 1], ticks[|ticks| - 1];
      assert ticks == before + [t];
      TouchedSnoc(before, t, size, k);
      UntouchedCell(before, size, k);
      SideQuantity(before, t, size, k, true);
      SideQuantity(before, t, size, k, false);
    }
  }

  lemma CellsSnoc(cells: Cells, ticks: seq<Tick>, t: Tick, size: nat)
    requires size > 0 && AreCellsOf(cells, ticks, size)
    ensures AreCellsOf(Filled(cells, BucketStart(t.price, size), t), ticks + [t], size)
  {
    hide BucketStart, Touched, BucketVolume, Aggressed, TotalQuantity, Volume;
    var at := BucketStart(t.price, size);
    var after := Filled(cells, at, t);
    forall k
      ensures k in after <==> Touched(ticks + [t], size, k)
      ensures k in after ==> after[k] == CellOf(ticks + [t], size, k)
    {
      TouchedSnoc(ticks, t, size, k);
      SideQuantity(ticks, t, size, k, true);
      SideQuantity(ticks, t, size, k, false);
      if k !in cells { UntouchedCell(ticks, size, k); }
    }
    SideVolume(cells, at, t, true);
    SideVolume(cells, at, t, false);
    SideQuantity(ticks, t, size, at, true);
    SideQuantity(ticks, t, size, at, false);
  }

  // ----- all candles -----

  type Candlewise = map<int, Cells>

  ghost predicate IsCandleCells(m: Candlewise, ticks: seq<Tick>, size: nat, interval: nat, start: int)
    requires size > 0 && interval > 0
  {
    && (start in m <==> InCandle(ticks, interval, start) != [])
    && AreCellsOf(if start in m then m[start] else map[], InCandle(ticks, interval, start), size)
  }

  ghost predicate AreFootprintsOf(m: Candlewise, ticks: seq<Tick>, size: nat, interval: nat)
    requires size > 0 && interval > 0
  {
    forall start {:trigger IsCandleCells(m, ticks, size, interval, start)} ::
        IsCandleCells(m, ticks, size, interval, start)
  }

  lemma FootprintsSnoc(m: Candlewise, ticks: seq<Tick>, t: Tick, size: nat, interval: nat)
    requires size > 0 && interval > 0 && AreFootprintsOf(m, ticks, size, interval)
    ensures var at := CandleStart(t.executedAt, interval);
      AreFootprintsOf(m[at := Filled(if at in m then m[at] else map[], BucketStart(t.price, size), t)], ticks + [t],
          size, interval)
  {
    hide AreCellsOf, CandleStart, InCandle, BucketStart, Filled;
    var at := CandleStart(t.executedAt, interval);
    var after := m[at := Filled(if at in m then m[at] else map[], BucketStart(t.price, size), t)];
    forall start ensures IsCandleCells(after, ticks + [t], size, interval, start) {
      assert IsCandleCells(m, ticks, size, interval, start);
      InCandleSnoc(ticks, t, interval, start);
      if start == at {
        CellsSnoc(if at in m then m[at] else map[], InCandle(ticks, interval, at), t, size);
      }
    }
  }

  lemma NoFootprints(size: nat, interval: nat)
    requires size > 0 && interval > 0
    ensures AreFootprintsOf(map[], [], size, interval)
  {
    var none: Cells := map[];
    assert SideOf(none, true).Keys == none.Keys == {};
    forall start ensures IsCandleCells(map[], [], size, interval, start) {
      assert InCandle([], interval, start) == [];
    }
  }

  // ----- the result, read off the maps in key order -----

  function LevelsOf(cells: Cells, keys: set<int>): seq<FootprintLevel>
    requires keys <= cells.Keys
    decreases keys
  {
    if keys == {} then []
    else
      var p := BestPrice(Sell, keys);
      [FootprintLevel(p, cells[p].buy, cells[p].sell)] + LevelsOf(cells, keys - {p})
  }

  function SumOf(levels: seq<FootprintLevel>, byBuyer: bool): nat {
    if levels == [] then 0 else (if byBuyer then levels[0].buy else levels[0].sell) + SumOf(levels[1..], byBuyer)
  }

  /** Ascending, one level per key, showing its cell. */
  ghost predicate ListsCells(levels: seq<FootprintLevel>, cells: Cells, keys: set<int>)
    requires keys <= cells.Keys
  {
    && (forall i, j :: 0 <= i < j < |levels| ==> levels[i].start < levels[j].start)
    && (forall i :: 0 <= i < |levels| ==>
          levels[i].start in keys && Cell(levels[i].buy, levels[i].sell) == cells[levels[i].start])
    && (forall k :: k in keys ==> FootprintLevel(k, cells[k].buy, cells[k].sell) in levels)
  }

  lemma {:induction false} LevelsListCells(cells: Cells, keys: set<int>)
    requires keys <= cells.Keys
    ensures ListsCells(LevelsOf(cells, keys), cells, keys)
    decreases keys
  {
    if keys != {} {
      var p := BestPrice(Sell, keys);
      LevelsListCells(cells, keys - {p});
      assert keys == keys - {p} + {p};
    }
  }

  lemma {:induction false} LevelsSum(cells: Cells, keys: set<int>, byBuyer: bool)
    requires keys <= cells.Keys
    ensures SumOf(LevelsOf(cells, keys), byBuyer) == Volume(SideOf(cells, byBuyer), keys)
    decreases keys
  {
    if keys != {} {
      var p := BestPrice(Sell, keys);
      LevelsSum(cells, keys - {p}, byBuyer);
      assert LevelsOf(cells, keys)[1..] == LevelsOf(cells, keys - {p});
    }
  }

  function FootprintOf(start: nat, cells: Cells): CandleFootprint {
    var levels := LevelsOf(cells, cells.Keys);
    CandleFootprint(start, levels, SumOf(levels, true), SumOf(levels, false))
  }

  function Footprints(m: Candlewise, keys: set<int>): seq<CandleFootprint>
    requires keys <= m.Keys && forall k :: k in keys ==> k >= 0
    decreases keys
  {
    if keys == {} then []
    else
      var p := BestPrice(Sell, keys);
      [FootprintOf(p, m[p])] + Footprints(m, keys - {p})
  }

  lemma {:induction false} FootprintsListCandles(m: Candlewise, keys: set<int>)
    requires keys <= m.Keys && forall k :: k in keys ==> k >= 0
    ensures var fs := Footprints(m, keys);
      && (forall i, j :: 0 <= i < j < |fs| ==> fs[i].start < fs[j].start)
      && (forall i :: 0 <= i < |fs| ==> fs[i].start in keys && fs[i] == FootprintOf(fs[i].start, m[fs[i].start]))
      && (forall k :: k in keys ==> FootprintOf(k, m[k]) in fs)
    decreases keys
  {
    hide FootprintOf;
    if keys != {} {
      var p := BestPrice(Sell, keys);
      FootprintsListCandles(m, keys - {p});
      StartOfFootprint(p, m[p]);
      assert keys == keys - {p} + {p};
    }
  }

  /** One candle of the result against the ticks of that candle. */
  ghost predicate IsFootprint(f: CandleFootprint, ticks: seq<Tick>, size: nat)
    requires size > 0
  {
    && (forall i, j :: 0 <= i < j < |f.levels| ==> f.levels[i].start < f.levels[j].start)
    && (forall i :: 0 <= i < |f.levels| ==>
          Touched(ticks, size, f.levels[i].start)
          && Cell(f.levels[i].buy, f.levels[i].sell) == CellOf(ticks, size, f.levels[i].start))
    && (forall k :: Touched(ticks, size, k) ==>
          FootprintLevel(k, CellOf(ticks, size, k).buy, CellOf(ticks, size, k).sell) in f.levels)
    && f.totalBuy == TotalQuantity(Aggressed(ticks, true))
    && f.totalSell == TotalQuantity(Aggressed(ticks, false))
  }

  /** Ascending, one per candle that traded, each exact for the ticks of its candle. */
  ghost predicate IsFootprintList(fs: seq<CandleFootprint>, ticks: seq<Tick>, size: nat, interval: nat)
    requires size > 0 && interval > 0
  {
    && (forall i, j :: 0 <= i < j < |fs| ==> fs[i].start < fs[j].start)
    && (forall i :: 0 <= i < |fs| ==>
          InCandle(ticks, interval, fs[i].start) != []
              && IsFootprint(fs[i], InCandle(ticks, interval, fs[i].start), size))
    && (forall j :: 0 <= j < |ticks| ==> HasFootprint(fs, CandleStart(ticks[j].executedAt, interval)))
  }

  ghost predicate HasFootprint(fs: seq<CandleFootprint>, start: nat) {
    exists i :: 0 <= i < |fs| && fs[i].start == start
  }

  lemma FootprintIsExact(start: nat, cells: Cells, ticks: seq<Tick>, size: nat)
    requires size > 0 && AreCellsOf(cells, ticks, size)
    ensures IsFootprint(FootprintOf(start, cells), ticks, size)
  {
    hide LevelsOf, SumOf, Volume, Touched, BucketVolume, TotalQuantity, Aggressed;
    LevelsListCells(cells, cells.Keys);
    LevelsSum(cells, cells.Keys, true);
    LevelsSum(cells, cells.Keys, false);
  }

  lemma ListIsExact(m: Candlewise, ticks: seq<Tick>, size: nat, interval: nat)
    requires size > 0 && interval > 0 && AreFootprintsOf(m, ticks, size, interval)
    requires forall k :: k in m ==> k >= 0
    ensures IsFootprintList(Footprints(m, m.Keys), ticks, size, interval)
  {
    hide Footprints, FootprintOf, IsFootprint, AreCellsOf, CandleStart, InCandle;
    var fs := Footprints(m, m.Keys);
    FootprintsListCandles(m, m.Keys);
    assert forall i :: 0 <= i < |fs| ==> fs[i].start in m.Keys;
    forall i | 0 <= i < |fs|
      ensures InCandle(ticks, interval, fs[i].start) != []
          && IsFootprint(fs[i], InCandle(ticks, interval, fs[i].start), size)
    {
      assert IsCandleCells(m, ticks, size, interval, fs[i].start);
      assert fs[i].start in m.Keys;
      FootprintIsExact(fs[i].start, m[fs[i].start], InCandle(ticks, interval, fs[i].start), size);
    }
    forall j | 0 <= j < |ticks| ensures HasFootprint(fs, CandleStart(ticks[j].executedAt, interval)) {
      var start := CandleStart(ticks[j].executedAt, interval);
      InCandleIffSome(ticks, interval, start);
      assert IsCandleCells(m, ticks, size, interval, start);
      assert start in m.Keys;
      assert FootprintOf(start, m[start]) in fs;
      var i :| 0 <= i < |fs| && fs[i] == FootprintOf(start, m[start]);
      StartOfFootprint(start, m[start]);
    }
  }

  lemma StartOfFootprint(start: nat, cells: Cells)
    ensures FootprintOf(start, cells).start == start
  {
  }

  method ComputeOrderFlowFootprint(ticks: seq<Tick>, size: int, interval: nat) returns (fs: seq<CandleFootprint>)
    ensures size <= 0 || interval == 0 ==> fs == []
    ensures size > 0 && interval > 0 ==> IsFootprintList(fs, ticks, size, interval)
  {
    hide AreFootprintsOf, IsFootprintList, CandleStart, BucketStart, Footprints;
    if size <= 0 || interval == 0 { return []; }
    var m: Candlewise := map[];
    NoFootprints(size, interval);
    for i := 0 to |ticks|
      invariant AreFootprintsOf(m, ticks[..i], size, interval)
      invariant forall k :: k in m ==> k >= 0
    {
      var t := ticks[i];
      FootprintsSnoc(m, ticks[..i], t, size, interval);
      var at, bucket := CandleStart(t.executedAt, interval), BucketStart(t.price, size);
      var cells := if at in m then m[at] else map[];
      var c := if bucket in cells then cells[bucket] else Cell(0, 0);
      if t.isBuyAggressor {
        c := c.(buy := c.buy + t.quantity);
      } else {
        c := c.(sell := c.sell + t.quantity);
      }
      m := m[at := cells[bucket := c]];
      assert ticks[..i] + [t] == ticks[..i + 1];
    }
    assert ticks[..|ticks|] == ticks;
    ListIsExact(m, ticks, size, interval);
    fs := Footprints(m, m.Keys);
  }

  // ----- footprints and candles line up -----

  ghost predicate Ascending(a: seq<int>) {
    forall i, j :: 0 <= i < j < |a| ==> a[i] < a[j]
  }

  /** The first of two ascending lists with the same members is the same, and so are the rests' members. */
  lemma SameFirst(a: seq<int>, b: seq<int>)
    requires Ascending(a) && Ascending(b) && (forall x :: x in a <==> x in b) && a != []
    ensures b != [] && a[0] == b[0]
    ensures forall x :: x in a[1..] <==> x in b[1..]
  {
    assert a[0] in a;
    assert a[0] in b;
    var k :| 0 <= k < |b| && b[k] == a[0];
    assert b[0] in b;
    assert b[0] in a;
    forall x ensures x in a[1..] <==> x in b[1..] {
      RestMembers(a, x);
      RestMembers(b, x);
    }
  }

  lemma RestMembers(a: seq<int>, x: int)
    requires Ascending(a) && a != []
    ensures x in a[1..] <==> x in a && x != a[0]
  {
    assert a == [a[0]] + a[1..];
  }

  lemma {:induction false} SameAscending(a: seq<int>, b: seq<int>)
    requires Ascending(a) && Ascending(b) && forall x :: x in a <==> x in b
    ensures a == b
  {
    if a != [] {
      SameFirst(a, b);
      SameAscending(a[1..], b[1..]);
      assert a == [a[0]] + a[1..] && b == [b[0]] + b[1..];
    } else if b != [] {
      SameFirst(b, a);
    }
  }

  /**
   The incremental candles and the batch footprint of the same ticks, in time order, have the same
   bars, and every candle's volume is what its footprint bought plus what it sold.
   */
  lemma FootprintsMatchCandles(ticks: seq<Tick>, fs: seq<CandleFootprint>, size: nat)
    requires size > 0 && NonDecreasing(ticks) && IsFootprintList(fs, ticks, size, Candles.IntervalSeconds)
    ensures var cs := Candles.CandlesOf(ticks);
      |cs| == |fs|
      && forall i :: 0 <= i < |cs| ==> cs[i].start == fs[i].start && cs[i].volume == fs[i].totalBuy + fs[i].totalSell
  {
    hide InCandle, CandleStart, TotalQuantity, Aggressed, Touched, Candles.CandlesOf, CellOf, Candles.StartOf;
    var cs := Candles.CandlesOf(ticks);
    Candles.CandlesAreExact(ticks);
    forall x ensures x in CandleStarts(cs) <==> x in FootprintStarts(fs) {
      InStarts(cs, fs, x);
      if x in CandleStarts(cs) || x in FootprintStarts(fs) { StartsOccur(ticks, fs, cs, x); }
    }
    SameAscending(CandleStarts(cs), FootprintStarts(fs));
    forall i | 0 <= i < |cs| ensures cs[i].start == fs[i].start && cs[i].volume == fs[i].totalBuy + fs[i].totalSell {
      assert CandleStarts(cs)[i] == FootprintStarts(fs)[i];
      SidesAddUp(InCandle(ticks, Candles.IntervalSeconds, cs[i].start));
    }
  }

  lemma {:induction false} EverythingWithin(ticks: seq<Tick>, end: nat)
    requires forall i :: 0 <= i < |ticks| ==> ticks[i].executedAt <= end
    ensures Within(ticks, 0, end) == ticks
  {
    if ticks != [] { EverythingWithin(ticks[..|ticks| - 1], end); }
  }

  /**
   While nothing has been evicted, the footprint of everything the tick store returns lines up with
   the candles the aggregator still holds.
   */
  lemma StoredViewsAgree(ticks: seq<Tick>, end: nat, fs: seq<CandleFootprint>, size: nat)
    requires size > 0 && NonDecreasing(ticks) && forall i :: 0 <= i < |ticks| ==> ticks[i].executedAt <= end
    requires |ticks| <= ColumnarTickStore.MaxRetainedTicks
    requires |Candles.CandlesOf(ticks)| <= Candles.MaxRetainedCandles
    requires IsFootprintList(fs, Within(LastN(ticks, ColumnarTickStore.MaxRetainedTicks), 0, end), size,
        Candles.IntervalSeconds)
    ensures var cs := LastN(Candles.CandlesOf(ticks), Candles.MaxRetainedCandles);
      |cs| == |fs|
      && forall i :: 0 <= i < |cs| ==> cs[i].start == fs[i].start && cs[i].volume == fs[i].totalBuy + fs[i].totalSell
  {
    EverythingWithin(ticks, end);
    FootprintsMatchCandles(ticks, fs, size);
  }

  function CandleStarts(cs: seq<Candles.Candle>): seq<int> {
    seq(|cs|, i requires 0 <= i < |cs| => cs[i].start)
  }

  function FootprintStarts(fs: seq<CandleFootprint>): seq<int> {
    seq(|fs|, i requires 0 <= i < |fs| => fs[i].start)
  }

  lemma InStarts(cs: seq<Candles.Candle>, fs: seq<CandleFootprint>, x: int)
    ensures x in CandleStarts(cs) <==> x >= 0 && Candles.HasCandle(cs, x)
    ensures x in FootprintStarts(fs) <==> x >= 0 && HasFootprint(fs, x)
  {
    if x >= 0 && Candles.HasCandle(cs, x) {
      var i :| 0 <= i < |cs| && cs[i].start == x;
      assert CandleStarts(cs)[i] == x;
    }
    if x >= 0 && HasFootprint(fs, x) {
      var i :| 0 <= i < |fs| && fs[i].start == x;
      assert FootprintStarts(fs)[i] == x;
    }
  }

  lemma StartsOccur(ticks: seq<Tick>, fs: seq<CandleFootprint>, cs: seq<Candles.Candle>, start: nat)
    requires InCandle(ticks, Candles.IntervalSeconds, start) != []
    requires forall j :: 0 <= j < |ticks| ==>
        HasFootprint(fs, CandleStart(ticks[j].executedAt, Candles.IntervalSeconds))
    requires forall j :: 0 <= j < |ticks| ==> Candles.HasCandle(cs, Candles.StartOf(ticks[j]))
    ensures HasFootprint(fs, start) && Candles.HasCandle(cs, start)
  {
    hide CandleStart, InCandle;
    InCandleIffSome(ticks, Candles.IntervalSeconds, start);
    var j :| 0 <= j < |ticks| && CandleStart(ticks[j].executedAt, Candles.IntervalSeconds) == start;
    assert Candles.StartOf(ticks[j]) == start;
  }
}
