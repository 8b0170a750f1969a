/** Trade ticks in arrival order, and the plain selections that the stores and aggregators must agree with. */
module TickTape {
  import opened Words

  datatype Tick = Tick(symbol: string, executedAt: nat, price: int, quantity: nat, isBuyAggressor: bool)

  predicate NonDecreasing(ticks: seq<Tick>) {
    forall i, j :: 0 <= i <= j < |ticks| ==> ticks[i].executedAt <= ticks[j].executedAt
  }

  function LastN<T>(s: seq<T>, n: nat): seq<T> {
    if |s| <= n then s else s[|s| - n..]
  }

  function TicksOf(tape: seq<Tick>, symbol: string): seq<Tick> {
    if tape == [] then []
    else TicksOf(tape[..|tape| - 1], symbol) + (if tape[|tape| - 1].symbol == symbol then [tape[|tape| - 1]] else [])
  }

  lemma TicksOfSnoc(tape: seq<Tick>, t: Tick, symbol: string)
    ensures TicksOf(tape + [t], symbol)
         == if t.symbol == symbol then TicksOf(tape, symbol) + [t] else TicksOf(tape, symbol)
  {
    assert (tape + [t])[..|tape|] == tape;
  }

  lemma {:induction false} TicksOfMembers(tape: seq<Tick>, symbol: string)
    ensures forall i :: 0 <= i < |TicksOf(tape, symbol)| ==> TicksOf(tape, symbol)[i].symbol == symbol
  {
    if tape != [] { TicksOfMembers(tape[..|tape| - 1], symbol); }
  }

  /** The ticks stamped within a window, both ends included, oldest first. */
  function Within(ticks: seq<Tick>, start: nat, end: nat): seq<Tick> {
    if ticks == [] then []
    else
      var t := ticks[|ticks| - 1];
      Within(ticks[..|ticks| - 1], start, end) + (if start <= t.executedAt <= end then [t] else [])
  }

  function TotalQuantity(ticks: seq<Tick>): nat {
    if ticks == [] then 0 else TotalQuantity(ticks[..|ticks| - 1]) + ticks[|ticks| - 1].quantity
  }

  function CandleStart(at: nat, interval: nat): nat
    requires interval > 0
  {
    (at / interval) * interval
  }

  /** The ticks of one candle. */
  function InCandle(ticks: seq<Tick>, interval: nat, start: int): seq<Tick>
    requires interval > 0
  {
    if ticks == [] then []
    else
      var t := ticks[|ticks| - 1];
      InCandle(ticks[..|ticks| - 1], interval, start)
      + (if CandleStart(t.executedAt, interval) == start then [t] else [])
  }

  lemma InCandleSnoc(ticks: seq<Tick>, t: Tick, interval: nat, start: int)
    requires interval > 0
    ensures InCandle(ticks + [t], interval, start)
         == if CandleStart(t.executedAt, interval) == start then InCandle(ticks, interval, start) + [t]
            else InCandle(ticks, interval, start)
  {
    assert (ticks + [t])[..|ticks|] == ticks;
  }

  lemma {:induction false} InCandleIffSome(ticks: seq<Tick>, interval: nat, start: int)
    requires interval > 0
    ensures InCandle(ticks, interval, start) != []
      <==> exists i :: 0 <= i < |ticks| && CandleStart(ticks[i].executedAt, interval) == start
  {
    hide CandleStart;
    if ticks != [] {
      var before, t := ticks[..|ticks| - 1], ticks[|ticks| - 1];
      InCandleIffSome(before, interval, start);
      assert forall i :: 0 <= i < |before| ==> before[i] == ticks[i];
      if InCandle(before, interval, start) != [] {
        var i :| 0 <= i < |before| && CandleStart(before[i].executedAt, interval) == start;
        assert CandleStart(ticks[i].executedAt, interval) == start;
      }
    }
  }

  /** The ticks that one side aggressed. */
  function Aggressed(ticks: seq<Tick>, byBuyer: bool): seq<Tick> {
    if ticks == [] then []
    else
      var t := ticks[|ticks| - 1];
      Aggressed(ticks[..|ticks| - 1], byBuyer) + (if t.isBuyAggressor == byBuyer then [t] else [])
  }

  lemma AggressedSnoc(ticks: seq<Tick>, t: Tick, byBuyer: bool)
    ensures Aggressed(ticks + [t], byBuyer)
         == if t.isBuyAggressor == byBuyer then Aggressed(ticks, byBuyer) + [t] else Aggressed(ticks, byBuyer)
  {
    assert (ticks + [t])[..|ticks|] == ticks;
  }

  lemma QuantitySnoc(ticks: seq<Tick>, t: Tick)
    ensures TotalQuantity(ticks + [t]) == TotalQuantity(ticks) + t.quantity
  {
    assert (ticks + [t])[..|ticks|] == ticks;
  }

  lemma AggressedQuantity(ticks: seq<Tick>, t: Tick, byBuyer: bool)
    ensures TotalQuantity(Aggressed(ticks + [t], byBuyer))
         == TotalQuantity(Aggressed(ticks, byBuyer)) + (if t.isBuyAggressor == byBuyer then t.quantity else 0)
  {
    hide TotalQuantity, Aggressed;
    AggressedSnoc(ticks, t, byBuyer);
    QuantitySnoc(Aggressed(ticks, byBuyer), t);
  }

  lemma NoTicks()
    ensures TotalQuantity([]) == 0 && Aggressed([], true) == [] && Aggressed([], false) == []
  {
  }

  /** Every tick was aggressed by one side or the other. */
  lemma {:induction false} SidesAddUp(ticks: seq<Tick>)
    ensures TotalQuantity(ticks) == TotalQuantity(Aggressed(ticks, true)) + TotalQuantity(Aggressed(ticks, false))
  {
    hide Aggressed, TotalQuantity;
    if ticks == [] {
      NoTicks();
    } else {
      var before, t := ticks[..|ticks| - 1], ticks[|ticks| - 1];
      SidesAddUp(before);
      assert ticks == before + [t];
      AggressedQuantity(before, t, true);
      AggressedQuantity(before, t, false);
      QuantitySnoc(before, t);
    }
  }

  // ----- what a selection selects -----

  /** At these positions, in this order, stand the ticks of `part`: all that `keep` holds for, and no others. */
  ghost predicate Selects(positions: seq<nat>, part: seq<Tick>, ticks: seq<Tick>, keep: Tick -> bool) {
    && |positions| == |part|
    && (forall k :: 0 <= k < |part| ==> positions[k] < |ticks| && part[k] == ticks[positions[k]] && keep(part[k]))
    && (forall j, k :: 0 <= j < k < |positions| ==> positions[j] < positions[k])
    && (forall i: nat :: i < |ticks| && keep(ticks[i]) ==> i in positions)
  }

  ghost predicate IsSelection(part: seq<Tick>, ticks: seq<Tick>, keep: Tick -> bool) {
    exists positions: seq<nat> :: Selects(positions, part, ticks, keep)
  }

  lemma SelectNext(part: seq<Tick>, ticks: seq<Tick>, keep: Tick -> bool, t: Tick)
    requires IsSelection(part, ticks, keep)
    ensures IsSelection(if keep(t) then part + [t] else part, ticks + [t], keep)
  {
    hide Selects;
    var positions: seq<nat> :| Selects(positions, part, ticks, keep);
    if keep(t) {
      SelectLast(positions, part, ticks, keep, t);
    } else {
      SelectNoMore(positions, part, ticks, keep, t);
    }
  }

  lemma SelectNoMore(positions: seq<nat>, part: seq<Tick>, ticks: seq<Tick>, keep: Tick -> bool, t: Tick)
    requires Selects(positions, part, ticks, keep) && !keep(t)
    ensures Selects(positions, part, ticks + [t], keep)
  {
    var all := ticks + [t];
    assert forall i: nat :: i < |ticks| ==> all[i] == ticks[i];
    forall i: nat | i < |all| && keep(all[i]) ensures i in positions {
      assert i < |ticks| && keep(ticks[i]);
    }
  }

  lemma SelectLast(positions: seq<nat>, part: seq<Tick>, ticks: seq<Tick>, keep: Tick -> bool, t: Tick)
    requires Selects(positions, part, ticks, keep) && keep(t)
    ensures Selects(positions + [|ticks|], part + [t], ticks + [t], keep)
  {
    var all: seq<Tick>, after: seq<nat> := ticks + [t], positions + [|ticks|];
    assert forall i: nat :: i < |ticks| ==> all[i] == ticks[i];
    forall i: nat | i < |all| && keep(all[i]) ensures i in after {
      if i < |ticks| { assert i in positions; } else { assert after[|positions|] == i; }
    }
  }

  lemma SelectNothing(keep: Tick -> bool)
    ensures IsSelection([], [], keep)
  {
    var none: seq<nat> := [];
    assert Selects(none, [], [], keep);
  }

  lemma {:induction false} TicksOfSelects(ticks: seq<Tick>, symbol: string)
    ensures IsSelection(TicksOf(ticks, symbol), ticks, (t: Tick) => t.symbol == symbol)
  {
    hide IsSelection;
    var keep := (t: Tick) => t.symbol == symbol;
    if ticks == [] {
      SelectNothing(keep);
    } else {
      var before, t := ticks[..|ticks| - 1], ticks[|ticks| - 1];
      TicksOfSelects(before, symbol);
      SelectNext(TicksOf(before, symbol), before, keep, t);
      assert before + [t] == ticks && TicksOf(before, symbol) + [] == TicksOf(before, symbol);
    }
  }

  lemma {:induction false} WithinSelects(ticks: seq<Tick>, start: nat, end: nat)
    ensures IsSelection(Within(ticks, start, end), ticks, (t: Tick) => start <= t.executedAt && t.executedAt <= end)
  {
    hide IsSelection;
    var keep := (t: Tick) => start <= t.executedAt && t.executedAt <= end;
    if ticks == [] {
      SelectNothing(keep);
    } else {
      var before, t := ticks[..|ticks| - 1], ticks[|ticks| - 1];
      WithinSelects(before, start, end);
      SelectNext(Within(before, start, end), before, keep, t);
      assert before + [t] == ticks && Within(before, start, end) + [] == Within(before, start, end);
    }
  }

  lemma {:induction false} AggressedSelects(ticks: seq<Tick>, byBuyer: bool)
    ensures IsSelection(Aggressed(ticks, byBuyer), ticks, (t: Tick) => t.isBuyAggressor == byBuyer)
  {
    hide IsSelection;
    var keep := (t: Tick) => t.isBuyAggressor == byBuyer;
    if ticks == [] {
      SelectNothing(keep);
    } else {
      var before, t := ticks[..|ticks| - 1], ticks[|ticks| - 1];
      AggressedSelects(before, byBuyer);
      SelectNext(Aggressed(before, byBuyer), before, keep, t);
      assert before + [t] == ticks && Aggressed(before, byBuyer) + [] == Aggressed(before, byBuyer);
    }
  }

  /** The ticks of a candle are those stamped from its start on and before the next one starts. */
  lemma {:induction false} InCandleSelects(ticks: seq<Tick>, interval: nat, start: int)
    requires interval > 0 && start % interval == 0
    ensures IsSelection(
      InCandle(ticks, interval, start), ticks, (t: Tick) => start <= t.executedAt && t.executedAt < start + interval)
  {
    hide IsSelection, CandleStart;
    var keep := (t: Tick) => start <= t.executedAt && t.executedAt < start + interval;
    if ticks == [] {
      SelectNothing(keep);
    } else {
      var before, t := ticks[..|ticks| - 1], ticks[|ticks| - 1];
      InCandleSelects(before, interval, start);
      CandleStartIsGrid(t.executedAt, interval, start);
      SelectNext(InCandle(before, interval, start), before, keep, t);
      assert before + [t] == ticks && InCandle(before, interval, start) + [] == InCandle(before, interval, start);
    }
  }

  /** The start of a candle is the only multiple of the interval that is less than one interval before the stamp. */
  lemma CandleStartIsGrid(at: nat, interval: nat, start: int)
    requires interval > 0
    ensures start % interval == 0 && start <= at < start + interval <==> start == CandleStart(at, interval)
  {
    var q := at / interval;
    var r := at % interval;
    assert at == interval * q + r && CandleStart(at, interval) == interval * q;
    ModIs(interval * q, interval, q, 0);
    if start % interval == 0 && start <= at < start + interval {
      var p := start / interval;
      assert start == interval * p;
      assert interval * (q - p) == interval * q - interval * p;
      MulZero(interval, q - p, interval * q - interval * p);
    }
  }
}
