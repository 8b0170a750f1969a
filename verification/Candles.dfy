/** One-minute candles built tick by tick, and the bounded trade tape next to them. */
module Candles {
  import opened OrderTypes
  import opened TickTape

  const IntervalSeconds := 60
  const MaxRetainedTicks := 500
  const MaxRetainedCandles := 500

  datatype Candle = Candle(start: nat, open: int, high: int, low: int, close: int, volume: nat)

  function StartOf(t: Tick): nat {
    CandleStart(t.executedAt, IntervalSeconds)
  }

  function Opened(t: Tick): Candle {
    Candle(StartOf(t), t.price, t.price, t.price, t.price, t.quantity)
  }

  function Extended(c: Candle, t: Tick): Candle {
    c.(high := if t.price > c.high then t.price else c.high,
       low := if t.price < c.low then t.price else c.low,
       close := t.price,
       volume := c.volume + t.quantity)
  }

  function Folded(candles: seq<Candle>, t: Tick): seq<Candle> {
    var n := |candles| - 1;
    if candles != [] && candles[n].start == StartOf(t) then candles[..n] + [Extended(candles[n], t)]
    else candles + [Opened(t)]
  }

  /** All candles of a tape, as if none were ever dropped. */
  function CandlesOf(ticks: seq<Tick>): seq<Candle> {
    if ticks == [] then [] else Folded(CandlesOf(ticks[..|ticks| - 1]), ticks[|ticks| - 1])
  }

  lemma CandlesOfSnoc(ticks: seq<Tick>, t: Tick)
    ensures CandlesOf(ticks + [t]) == Folded(CandlesOf(ticks), t)
  {
    assert (ticks + [t])[..|ticks|] == ticks;
  }

  /** Dropping the oldest candle never loses what the next tick needs. */
  lemma FoldingTheLast(candles: seq<Candle>, t: Tick)
    ensures LastN(Folded(LastN(candles, MaxRetainedCandles), t), MaxRetainedCandles)
         == LastN(Folded(candles, t), MaxRetainedCandles)
  {
    hide CandleStart;
    var kept := LastN(candles, MaxRetainedCandles);
    if |candles| > MaxRetainedCandles {
      var n, k := |candles| - 1, |candles| - MaxRetainedCandles;
      assert kept[|kept| - 1] == candles[n];
      if candles[n].start == StartOf(t) {
        assert Folded(candles, t)[k..] == candles[k..n] + [Extended(candles[n], t)];
        assert kept[..|kept| - 1] == candles[k..n];
      } else {
        assert Folded(candles, t)[k + 1..] == candles[k + 1..] + [Opened(t)];
        assert Folded(kept, t)[1..] == candles[k + 1..] + [Opened(t)];
      }
    }
  }

  // ----- what a candle says about its ticks -----

  ghost predicate Summarises(c: Candle, ticks: seq<Tick>) {
    && ticks != [] && c.open == ticks[0].price && c.close == ticks[|ticks| - 1].price
    && c.volume == TotalQuantity(ticks)
    && (forall i :: 0 <= i < |ticks| ==> c.low <= ticks[i].price <= c.high)
    && (exists i :: 0 <= i < |ticks| && ticks[i].price == c.high)
    && (exists i :: 0 <= i < |ticks| && ticks[i].price == c.low)
  }

  ghost predicate HasCandle(candles: seq<Candle>, start: nat) {
    exists i :: 0 <= i < |candles| && candles[i].start == start
  }

  /** Ascending, one per minute that traded, each summarising exactly the ticks of its minute. */
  ghost predicate AreCandlesOf(candles: seq<Candle>, ticks: seq<Tick>) {
    && (forall i, j :: 0 <= i < j < |candles| ==> candles[i].start < candles[j].start)
    && (forall i :: 0 <= i < |candles| ==> Summarises(candles[i], InCandle(ticks, IntervalSeconds, candles[i].start)))
    && (forall j :: 0 <= j < |ticks| ==> HasCandle(candles, StartOf(ticks[j])))
  }

  lemma SummariseOpened(t: Tick)
    ensures Summarises(Opened(t), [t])
  {
    assert [t][0] == t;
    assert TotalQuantity([t]) == TotalQuantity([t][..0]) + t.quantity;
  }

  lemma SummariseExtended(c: Candle, ticks: seq<Tick>, t: Tick)
    requires Summarises(c, ticks)
    ensures Summarises(Extended(c, t), ticks + [t])
  {
    hide TotalQuantity;
    var all := ticks + [t];
    QuantitySnoc(ticks, t);
    var h :| 0 <= h < |ticks| && ticks[h].price == c.high;
    var l :| 0 <= l < |ticks| && ticks[l].price == c.low;
    assert all[h].price == c.high && all[l].price == c.low && all[|ticks|] == t;
  }

  lemma StartsFollowTime(early: nat, late: nat)
    requires early <= late
    ensures CandleStart(early, IntervalSeconds) <= CandleStart(late, IntervalSeconds)
  {
  }

  predicate EndsAtNewest(candles: seq<Candle>, ticks: seq<Tick>) {
    && (candles == [] <==> ticks == [])
    && (ticks != [] && candles != [] ==> candles[|candles| - 1].start == StartOf(ticks[|ticks| - 1]))
  }

  /** For ticks in time order. */
  lemma {:induction false} CandlesAreExact(ticks: seq<Tick>)
    requires NonDecreasing(ticks)
    ensures AreCandlesOf(CandlesOf(ticks), ticks)
    ensures EndsAtNewest(CandlesOf(ticks), ticks)
  {
    hide AreCandlesOf, CandlesOf, CandleStart, Folded;
    if ticks != [] {
      var before, t := ticks[..|ticks| - 1], ticks[|ticks| - 1];
      assert ticks == before + [t];
      CandlesAreExact(before);
      CandlesOfSnoc(before, t);
      if before != [] {
        assert before[|before| - 1] == ticks[|ticks| - 2];
        StartsFollowTime(before[|before| - 1].executedAt, t.executedAt);
      }
      FoldIsExact(CandlesOf(before), before, t);
      FoldEndsAtNewest(CandlesOf(before), before, t);
    } else {
      NoCandles();
    }
  }

  lemma NoCandles()
    ensures AreCandlesOf(CandlesOf([]), []) && EndsAtNewest(CandlesOf([]), [])
  {
  }

  lemma FoldEndsAtNewest(candles: seq<Candle>, ticks: seq<Tick>, t: Tick)
    ensures EndsAtNewest(Folded(candles, t), ticks + [t])
  {
  }

  lemma FoldIsExact(candles: seq<Candle>, ticks: seq<Tick>, t: Tick)
    requires AreCandlesOf(candles, ticks)
    requires ticks != [] ==> candles != [] && candles[|candles| - 1].start <= StartOf(t)
    requires candles != [] ==> ticks != []
    ensures AreCandlesOf(Folded(candles, t), ticks + [t])
  {
    hide InCandle, CandleStart, TotalQuantity, Summarises;
    var after, all, n := Folded(candles, t), ticks + [t], |candles| - 1;
    forall i | 0 <= i < |after|
      ensures Summarises(after[i], InCandle(all, IntervalSeconds, after[i].start))
    {
      InCandleSnoc(ticks, t, IntervalSeconds, after[i].start);
      if candles != [] && candles[n].start == StartOf(t) {
        if i < n {
          assert after[i] == candles[i];
        } else {
          SummariseExtended(candles[n], InCandle(ticks, IntervalSeconds, candles[n].start), t);
        }
      } else if i <= n {
        assert after[i] == candles[i];
      } else {
        NoneYet(candles, ticks, StartOf(t));
        SummariseOpened(t);
        assert InCandle(all, IntervalSeconds, after[i].start) == [t];
      }
    }
    forall j | 0 <= j < |all| ensures HasCandle(after, StartOf(all[j])) {
      if j < |ticks| {
        KeepsCandle(candles, t, StartOf(ticks[j]));
      } else {
        assert after[|after| - 1].start == StartOf(t);
      }
    }
  }

  lemma KeepsCandle(candles: seq<Candle>, t: Tick, start: nat)
    requires HasCandle(candles, start)
    ensures HasCandle(Folded(candles, t), start)
  {
    var i :| 0 <= i < |candles| && candles[i].start == start;
    assert Folded(candles, t)[i].start == start;
  }

  lemma NoneYet(candles: seq<Candle>, ticks: seq<Tick>, start: nat)
    requires AreCandlesOf(candles, ticks)
    requires forall i :: 0 <= i < |candles| ==> candles[i].start < start
    ensures InCandle(ticks, IntervalSeconds, start) == []
  {
    hide InCandle, CandleStart, Summarises;
    InCandleIffSome(ticks, IntervalSeconds, start);
    forall j | 0 <= j < |ticks| ensures CandleStart(ticks[j].executedAt, IntervalSeconds) != start {
      assert HasCandle(candles, StartOf(ticks[j]));
    }
  }

  // ----- the aggregator -----

  function At<T>(m: map<string, seq<T>>, symbol: string): seq<T> {
    if symbol in m then m[symbol] else []
  }

  ghost predicate TracksSymbol(recent: map<string, seq<Tick>>, candles: map<string, seq<Candle>>, tape: seq<Tick>,
      symbol: string) {
    && At(recent, symbol) == LastN(TicksOf(tape, symbol), MaxRetainedTicks)
    && At(candles, symbol) == LastN(CandlesOf(TicksOf(tape, symbol)), MaxRetainedCandles)
  }

  /** One more trade: its instrument's two lists move on, everything else stays. */
  lemma TracksSnoc(recent: map<string, seq<Tick>>, candles: map<string, seq<Candle>>, tape: seq<Tick>, t: Tick,
      symbol: string)
    requires TracksSymbol(recent, candles, tape, symbol)
    ensures TracksSymbol(recent[t.symbol := LastN(At(recent, t.symbol) + [t], MaxRetainedTicks)],
                         candles[t.symbol := LastN(Folded(At(candles, t.symbol), t), MaxRetainedCandles)],
                         tape + [t], symbol)
  {
    hide TicksOf, CandlesOf, Folded;
    TicksOfSnoc(tape, t, symbol);
    if symbol == t.symbol {
      CandlesOfSnoc(TicksOf(tape, symbol), t);
      FoldingTheLast(CandlesOf(TicksOf(tape, symbol)), t);
    }
  }

  lemma AtMost(recent: map<string, seq<Tick>>, candles: map<string, seq<Candle>>, tape: seq<Tick>, symbol: string)
    requires TracksSymbol(recent, candles, tape, symbol)
    ensures |At(recent, symbol)| <= MaxRetainedTicks && |At(candles, symbol)| <= MaxRetainedCandles
  {
  }

  class CandleAggregator {
    var recentTicks: map<string, seq<Tick>>
    var candles: map<string, seq<Candle>>
    /** Every trade ever recorded. */
    ghost var tape: seq<Tick>

    ghost predicate Valid()
      reads this
    {
      forall symbol {:trigger TracksSymbol(recentTicks, candles, tape, symbol)} ::
          TracksSymbol(recentTicks, candles, tape, symbol)
    }

    constructor ()
      ensures Valid() && tape == []
    {
      recentTicks, candles, tape := map[], map[], [];
    }

    method RecordTradeWithAggressorSide(t: Tick)
      requires Valid()
      modifies this
      ensures Valid() && tape == old(tape) + [t]
    {
      hide TracksSymbol, CandleStart;
      ghost var r, c := recentTicks, candles;
      AtMost(recentTicks, candles, tape, t.symbol);

      var history := At(recentTicks, t.symbol) + [t];
      if |history| > MaxRetainedTicks { history := history[1..]; }
      recentTicks := recentTicks[t.symbol := history];

      var start := CandleStart(t.executedAt, IntervalSeconds);
      var mine := At(candles, t.symbol);
      if mine != [] && mine[|mine| - 1].start == start {
        mine := mine[|mine| - 1 := Extended(mine[|mine| - 1], t)];
      } else {
        mine := mine + [Opened(t)];
        if |mine| > MaxRetainedCandles { mine := mine[1..]; }
      }
      assert mine == LastN(Folded(At(c, t.symbol), t), MaxRetainedCandles);
      candles := candles[t.symbol := mine];
      tape := tape + [t];
      forall symbol ensures TracksSymbol(recentTicks, candles, tape, symbol) {
        TracksSnoc(r, c, old(tape), t, symbol);
      }
    }

    method RecentTradeTicksForInstrument(symbol: string, limit: nat) returns (r: seq<Tick>)
      requires Valid()
      ensures r == LastN(TicksOf(tape, symbol), Min(limit, MaxRetainedTicks))
    {
      assert TracksSymbol(recentTicks, candles, tape, symbol);
      if symbol !in recentTicks { return []; }
      var history := recentTicks[symbol];
      return history[if |history| > limit then |history| - limit else 0..];
    }

    method RecentCandlesForInstrument(symbol: string, limit: nat) returns (r: seq<Candle>)
      requires Valid()
      ensures r == LastN(CandlesOf(TicksOf(tape, symbol)), Min(limit, MaxRetainedCandles))
    {
      assert TracksSymbol(recentTicks, candles, tape, symbol);
      if symbol !in candles { return []; }
      var history := candles[symbol];
      return history[if |history| > limit then |history| - limit else 0..];
    }
  }
}
