/** Tick storage by column, capped per instrument, queried by binary search over the timestamp column. */
module ColumnarTickStore {
  import opened TickTape

  const MaxRetainedTicks := 50_000

  datatype SymbolColumns = SymbolColumns(times: seq<nat>, prices: seq<int>, quantities: seq<nat>, flags: seq<bool>)

  const NoColumns := SymbolColumns([], [], [], [])

  /** Row `i` of the columns. */
  function Row(c: SymbolColumns, symbol: string, i: nat): Tick
    requires i < |c.times| == |c.prices| == |c.quantities| == |c.flags|
  {
    Tick(symbol, c.times[i], c.prices[i], c.quantities[i], c.flags[i])
  }

  /** The columns hold exactly these ticks, row by row. */
  ghost predicate Holds(c: SymbolColumns, ticks: seq<Tick>, symbol: string) {
    && |c.times| == |c.prices| == |c.quantities| == |c.flags| == |ticks|
    && forall i :: 0 <= i < |ticks| ==> ticks[i] == Row(c, symbol, i)
  }

  function Appended(c: SymbolColumns, t: Tick): SymbolColumns {
    SymbolColumns(
      c.times + [t.executedAt], c.prices + [t.price], c.quantities + [t.quantity], c.flags + [t.isBuyAggressor])
  }

  function WithoutOldest(c: SymbolColumns): SymbolColumns
    requires |c.times| > 0 && |c.times| == |c.prices| == |c.quantities| == |c.flags|
  {
    SymbolColumns(c.times[1..], c.prices[1..], c.quantities[1..], c.flags[1..])
  }

  lemma AppendKeepsTheLast(c: SymbolColumns, ticks: seq<Tick>, t: Tick)
    requires Holds(c, LastN(ticks, MaxRetainedTicks), t.symbol)
    ensures var longer := Appended(c, t);
      |longer.times| > 0 && |longer.times| == |longer.prices| == |longer.quantities| == |longer.flags|
      && Holds(if |longer.times| > MaxRetainedTicks then WithoutOldest(longer) else longer,
               LastN(ticks + [t], MaxRetainedTicks), t.symbol)
  {
  }

  ghost predicate HoldsLast(columns: map<string, SymbolColumns>, tape: seq<Tick>, symbol: string) {
    var mine := if symbol in columns then columns[symbol] else NoColumns;
    Holds(mine, LastN(TicksOf(tape, symbol), MaxRetainedTicks), symbol)
  }

  /** First position from which `times` no longer lies below the bound; a boundary only if `times` is sorted. */
  method PartitionPoint(times: seq<nat>, bound: nat) returns (p: nat)
    ensures p <= |times|
    ensures Sorted(times) ==> forall i :: 0 <= i < |times| ==> (i < p <==> times[i] < bound)
  {
    var low, high := 0, |times|;
    while low < high
      invariant low <= high <= |times|
      invariant Sorted(times) ==> forall i :: 0 <= i < low ==> times[i] < bound
      invariant Sorted(times) ==> forall i :: high <= i < |times| ==> times[i] >= bound
    {
      var middle := (low + high) / 2;
      if times[middle] < bound { low := middle + 1; } else { high := middle; }
    }
    p := low;
  }

  predicate Sorted(times: seq<nat>) {
    forall i, j :: 0 <= i <= j < |times| ==> times[i] <= times[j]
  }

  /** In a sorted tape the ticks of a window stand together, between the two partition points. */
  lemma {:induction false} WindowIsASlice(ticks: seq<Tick>, start: nat, end: nat, low: nat, high: nat)
    requires start <= end && low <= |ticks| && high <= |ticks|
    requires forall i :: 0 <= i < |ticks| ==> (i < low <==> ticks[i].executedAt < start)
    requires forall i :: 0 <= i < |ticks| ==> (i < high <==> ticks[i].executedAt <= end)
    ensures low <= high && Within(ticks, start, end) == ticks[low..high]
  {
    if high < |ticks| { assert !(ticks[high].executedAt < start); }
    if ticks != [] {
      var n := |ticks| - 1;
      var before := ticks[..n];
      assert forall i :: 0 <= i < n ==> before[i] == ticks[i];
      var low', high' := if low <= n then low else n, if high <= n then high else n;
      WindowIsASlice(before, start, end, low', high');
      SliceOfLonger(ticks, low, high, low', high');
    }
  }

  lemma SliceOfLonger(ticks: seq<Tick>, low: nat, high: nat, low': nat, high': nat)
    requires ticks != [] && low <= high <= |ticks|
    requires low' == (if low < |ticks| then low else |ticks| - 1)
    requires high' == (if high < |ticks| then high else |ticks| - 1)
    ensures ticks[low..high]
         == ticks[..|ticks| - 1][low'..high'] + (if low < |ticks| == high then [ticks[|ticks| - 1]] else [])
  {
  }

  class ColumnarTickStore {
    var columns: map<string, SymbolColumns>
    /** Everything ever appended, for all instruments. */
    ghost var tape: seq<Tick>

    ghost predicate Valid()
      reads this
    {
      forall symbol {:trigger HoldsLast(columns, tape, symbol)} :: HoldsLast(columns, tape, symbol)
    }

    constructor ()
      ensures Valid() && tape == []
    {
      columns, tape := map[], [];
    }

    method AppendTickWithAggressorSide(t: Tick)
      requires Valid()
      modifies this
      ensures Valid() && tape == old(tape) + [t]
    {
      hide Holds, TicksOf, LastN;
      assert HoldsLast(columns, tape, t.symbol);
      var mine := Appended(if t.symbol in columns then columns[t.symbol] else NoColumns, t);
      AppendKeepsTheLast(if t.symbol in columns then columns[t.symbol] else NoColumns, TicksOf(tape, t.symbol), t);
      if |mine.times| > MaxRetainedTicks { mine := WithoutOldest(mine); }
      columns := columns[t.symbol := mine];
      tape := tape + [t];
      forall symbol ensures HoldsLast(columns, tape, symbol) {
        TicksOfSnoc(old(tape), t, symbol);
        assert HoldsLast(old(columns), old(tape), symbol);
      }
    }

    /** As long as an instrument's ticks arrive in time order: what a scan of its retained ticks would find. */
    method RangeQuery(symbol: string, start: nat, end: nat) returns (rows: seq<Tick>)
      requires Valid()
      ensures NonDecreasing(TicksOf(tape, symbol)) ==>
        rows == Within(LastN(TicksOf(tape, symbol), MaxRetainedTicks), start, end)
    {
      hide TicksOf, Within;
      ghost var retained := LastN(TicksOf(tape, symbol), MaxRetainedTicks);
      assert HoldsLast(columns, tape, symbol);
      NothingWithin(retained, start, end);
      if symbol !in columns { return []; }
      if start > end { return []; }
      var c := columns[symbol];
      var low := PartitionPoint(c.times, start);
      var high := PartitionPoint(c.times, end + 1);
      rows := [];
      if low < high {
        rows := seq(high - low, k requires 0 <= k < high - low => Row(c, symbol, low + k));
      }
      if NonDecreasing(TicksOf(tape, symbol)) {
        assert Sorted(c.times) by { RetainedIsSorted(TicksOf(tape, symbol), c, symbol); }
        WindowIsASlice(retained, start, end, low, high);
        assert rows == retained[low..high];
      }
    }
  }

  lemma RetainedIsSorted(ticks: seq<Tick>, c: SymbolColumns, symbol: string)
    requires NonDecreasing(ticks) && Holds(c, LastN(ticks, MaxRetainedTicks), symbol)
    ensures Sorted(c.times)
  {
    var retained := LastN(ticks, MaxRetainedTicks);
    forall i, j | 0 <= i <= j < |c.times| ensures c.times[i] <= c.times[j] {
      assert c.times[i] == retained[i].executedAt && c.times[j] == retained[j].executedAt;
    }
  }

  lemma {:induction false} NothingWithin(ticks: seq<Tick>, start: nat, end: nat)
    ensures ticks == [] || start > end ==> Within(ticks, start, end) == []
  {
    if ticks != [] { NothingWithin(ticks[..|ticks| - 1], start, end); }
  }
}
