/** Aggregated depth: one line per price, best first, read off the priority queue of a side. */
module Depth {
  import opened OrderTypes
  import opened BookInvariants
  import opened PriceLevels

  datatype DepthLevel = DepthLevel(price: int, quantity: nat)

  function Total(queue: seq<RestingOrder>): nat {
    if queue == [] then 0 else queue[0].remaining + Total(queue[1..])
  }

  /** Sums runs of equal price. */
  function DepthOf(queue: seq<RestingOrder>): seq<DepthLevel> {
    if queue == [] then []
    else
      var rest := DepthOf(queue[1..]);
      if rest != [] && rest[0].price == queue[0].limitPrice
      then [DepthLevel(rest[0].price, queue[0].remaining + rest[0].quantity)] + rest[1..]
      else [DepthLevel(queue[0].limitPrice, queue[0].remaining)] + rest
  }

  ghost function QuantityAt(queue: seq<RestingOrder>, p: int): nat {
    if queue == [] then 0
    else (if queue[0].limitPrice == p then queue[0].remaining else 0) + QuantityAt(queue[1..], p)
  }

  ghost predicate HasLevel(levels: seq<DepthLevel>, p: int) {
    exists i :: 0 <= i < |levels| && levels[i].price == p
  }

  ghost predicate HasPrice(queue: seq<RestingOrder>, p: int) {
    exists i :: 0 <= i < |queue| && queue[i].limitPrice == p
  }

  /** Strictly best first, one line for each price with orders, and the whole quantity at that price. */
  ghost predicate IsDepth(side: Side, queue: seq<RestingOrder>, levels: seq<DepthLevel>) {
    && (forall i, j :: 0 <= i < j < |levels| ==> Better(side, levels[i].price, levels[j].price))
    && (forall i :: 0 <= i < |levels| ==> levels[i].quantity == QuantityAt(queue, levels[i].price))
    && (forall p :: HasLevel(levels, p) <==> HasPrice(queue, p))
  }

  lemma {:induction false} NothingAt(side: Side, queue: seq<RestingOrder>, p: int)
    requires Sorted(side, queue) && (queue != [] ==> Better(side, p, queue[0].limitPrice))
    ensures QuantityAt(queue, p) == 0
  {
    if queue != [] { NothingAt(side, queue[1..], p); }
  }

  lemma {:induction false} DepthShape(side: Side, queue: seq<RestingOrder>)
    requires Sorted(side, queue)
    ensures var d := DepthOf(queue);
      && (forall i, j :: 0 <= i < j < |d| ==> Better(side, d[i].price, d[j].price))
      && (queue != [] ==> d != [] && d[0].price == queue[0].limitPrice)
  {
    if queue != [] {
      var d, rest := DepthOf(queue), DepthOf(queue[1..]);
      DepthShape(side, queue[1..]);
      if rest != [] && rest[0].price == queue[0].limitPrice {
        assert forall i :: 0 <= i < |d| ==> d[i].price == rest[i].price;
      } else {
        assert rest != [] ==> Better(side, queue[0].limitPrice, rest[0].price);
        assert forall j :: 0 < j < |d| ==> d[j] == rest[j - 1];
        assert forall j :: 0 <= j < |rest| ==> Better(side, queue[0].limitPrice, rest[j].price);
      }
    }
  }

  lemma HasPriceSplit(queue: seq<RestingOrder>, p: int)
    requires queue != []
    ensures HasPrice(queue, p) <==> queue[0].limitPrice == p || HasPrice(queue[1..], p)
  {
    if HasPrice(queue, p) && queue[0].limitPrice != p {
      var i :| 0 <= i < |queue| && queue[i].limitPrice == p;
      assert queue[1..][i - 1].limitPrice == p;
    }
  }

  lemma HasLevelSplit(levels: seq<DepthLevel>, p: int)
    requires levels != []
    ensures HasLevel(levels, p) <==> levels[0].price == p || HasLevel(levels[1..], p)
  {
    if HasLevel(levels, p) && levels[0].price != p {
      var i :| 0 <= i < |levels| && levels[i].price == p;
      assert levels[1..][i - 1].price == p;
    }
  }

  lemma {:induction false} DepthMembers(queue: seq<RestingOrder>, p: int)
    ensures HasLevel(DepthOf(queue), p) <==> HasPrice(queue, p)
  {
    if queue != [] {
      hide HasLevel, HasPrice;
      DepthMembers(queue[1..], p);
      HasPriceSplit(queue, p);
      HasLevelSplit(DepthOf(queue), p);
      var rest := DepthOf(queue[1..]);
      if rest != [] && rest[0].price == queue[0].limitPrice {
        HasLevelSplit(rest, p);
      } else {
        assert DepthOf(queue)[1..] == rest;
      }
    }
  }

  lemma {:induction false} DepthQuantities(side: Side, queue: seq<RestingOrder>)
    requires Sorted(side, queue)
    ensures forall i :: 0 <= i < |DepthOf(queue)| ==>
      DepthOf(queue)[i].quantity == QuantityAt(queue, DepthOf(queue)[i].price)
  {
    if queue != [] {
      DepthQuantities(side, queue[1..]);
      DepthShape(side, queue[1..]);
      DepthShape(side, queue);
      var d, rest := DepthOf(queue), DepthOf(queue[1..]);
      if rest == [] || rest[0].price != queue[0].limitPrice {
        if queue[1..] != [] { assert Better(side, queue[0].limitPrice, queue[1].limitPrice); }
        NothingAt(side, queue[1..], queue[0].limitPrice);
      }
      var shift := |d| - |rest|;
      forall i | 0 < i < |d| ensures d[i].quantity == QuantityAt(queue, d[i].price) {
        assert d[i] == rest[i - shift];
        assert Better(side, d[0].price, d[i].price);
      }
    }
  }

  lemma DepthIsExact(side: Side, queue: seq<RestingOrder>)
    requires Sorted(side, queue)
    ensures IsDepth(side, queue, DepthOf(queue))
  {
    DepthShape(side, queue);
    forall p ensures HasLevel(DepthOf(queue), p) <==> HasPrice(queue, p) { DepthMembers(queue, p); }
    DepthQuantities(side, queue);
  }

  // ----- depth of a sorted map of levels -----

  ghost function LevelList(side: Side, m: Levels): seq<DepthLevel>
    decreases m.Keys
  {
    if m.Keys == {} then []
    else var p := BestPrice(side, m.Keys); [DepthLevel(p, Total(m[p]))] + LevelList(side, m - {p})
  }

  lemma {:induction false} DepthOfLevel(queue: seq<RestingOrder>, tail: seq<RestingOrder>, p: int)
    requires queue != [] && AllAt(queue, p) && (tail != [] ==> tail[0].limitPrice != p)
    ensures DepthOf(queue + tail) == [DepthLevel(p, Total(queue))] + DepthOf(tail)
  {
    assert (queue + tail)[1..] == queue[1..] + tail;
    if |queue| == 1 {
      assert queue[1..] + tail == tail;
      DepthHead(tail);
    } else {
      DepthOfLevel(queue[1..], tail, p);
    }
  }

  lemma DepthHead(queue: seq<RestingOrder>)
    ensures queue == [] ==> DepthOf(queue) == []
    ensures queue != [] ==> DepthOf(queue) != [] && DepthOf(queue)[0].price == queue[0].limitPrice
  {
  }

  lemma {:induction false} LevelListIsDepth(side: Side, m: Levels)
    requires WellKeyed(m)
    ensures LevelList(side, m) == DepthOf(Flatten(side, m))
    decreases m.Keys
  {
    if m.Keys != {} {
      var p := BestPrice(side, m.Keys);
      LevelListIsDepth(side, m - {p});
      FlattenPrices(side, m - {p});
      DepthOfLevel(m[p], Flatten(side, m - {p}), p);
    }
  }

  function Reversed<T>(s: seq<T>): seq<T> {
    if s == [] then [] else Reversed(s[1..]) + [s[0]]
  }

  lemma {:induction false} ReversedAt<T>(s: seq<T>)
    ensures |Reversed(s)| == |s| && forall i :: 0 <= i < |s| ==> Reversed(s)[i] == s[|s| - 1 - i]
  {
    if s != [] { ReversedAt(s[1..]); }
  }

  lemma {:induction false} ReversedAppend<T>(s: seq<T>, x: T)
    ensures Reversed(s + [x]) == [x] + Reversed(s)
  {
    if s != [] {
      ReversedAppend(s[1..], x);
      assert (s + [x])[1..] == s[1..] + [x];
    }
  }

  /** The worst level stands last. */
  lemma {:induction false} LevelListLast(side: Side, m: Levels)
    requires m.Keys != {}
    ensures var q := BestPrice(Opposite(side), m.Keys);
      LevelList(side, m) == LevelList(side, m - {q}) + [DepthLevel(q, Total(m[q]))]
    decreases m.Keys
  {
    var p, q := BestPrice(side, m.Keys), BestPrice(Opposite(side), m.Keys);
    if m.Keys == {p} {
      assert (m - {p}).Keys == {};
    } else {
      assert (m - {p}).Keys == m.Keys - {p};
      EmptyOrMember(m.Keys - {p});
      assert p != q;
      assert q in (m - {p}).Keys && p in (m - {q}).Keys;
      OnlyOneBest(Opposite(side), (m - {p}).Keys, q);
      OnlyOneBest(side, (m - {q}).Keys, p);
      LevelListLast(side, m - {p});
      assert m - {p} - {q} == m - {q} - {p};
    }
  }

  /** Reading the sorted map backwards reverses the list. */
  lemma {:induction false} LevelListReversed(side: Side, m: Levels)
    ensures LevelList(Opposite(side), m) == Reversed(LevelList(side, m))
    decreases m.Keys
  {
    if m.Keys != {} {
      var q := BestPrice(Opposite(side), m.Keys);
      LevelListLast(side, m);
      ReversedAppend(LevelList(side, m - {q}), DepthLevel(q, Total(m[q])));
      LevelListReversed(side, m - {q});
    }
  }
}
