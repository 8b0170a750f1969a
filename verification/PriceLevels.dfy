/**
 A book side as the engine stores it: a sorted map from price to the queue of orders at that price.
 `Flatten` reads such a map as one queue in priority order, and the lemmas say what the map
 operations of the engine do to that queue.
 */
module PriceLevels {
  import opened OrderTypes
  import opened BookSpec
  import opened BookInvariants
  import opened OrderLifecycle

  type Levels = map<int, seq<RestingOrder>>

  /** No empty level, and every order stands at its own limit price. */
  ghost predicate WellKeyed(m: Levels) {
    forall p :: p in m ==> m[p] != [] && AllAt(m[p], p)
  }

  ghost predicate AllAt(queue: seq<RestingOrder>, p: int) {
    forall i :: 0 <= i < |queue| ==> queue[i].limitPrice == p
  }

  ghost predicate IsBest(side: Side, prices: set<int>, p: int) {
    p in prices && forall q :: q in prices ==> !Better(side, q, p)
  }

  lemma EmptyOrMember(prices: set<int>)
    ensures prices == {} || exists p :: p in prices
  {
    if !exists p :: p in prices { assert prices == {}; }
  }

  lemma {:induction false} FindBest(side: Side, prices: set<int>) returns (p: int)
    requires prices != {}
    ensures IsBest(side, prices, p)
    decreases prices
  {
    EmptyOrMember(prices);
    var q :| q in prices;
    if prices == {q} {
      p := q;
    } else {
      var r := FindBest(side, prices - {q});
      p := if Better(side, r, q) then r else q;
      assert prices == prices - {q} + {q};
    }
  }

  lemma HasBest(side: Side, prices: set<int>)
    requires prices != {}
    ensures exists p :: p in prices && forall q :: q in prices ==> !Better(side, q, p)
  {
    var p := FindBest(side, prices);
    assert p in prices && forall q :: q in prices ==> !Better(side, q, p);
  }

  lemma OnlyOneBest(side: Side, prices: set<int>, p: int)
    requires IsBest(side, prices, p)
    ensures BestPrice(side, prices) == p
  {
    var b := BestPrice(side, prices);
    assert !Better(side, p, b) && !Better(side, b, p);
  }

  /** The first key of the sorted map for the sell side, its last key for the buy side. */
  function BestPrice(side: Side, prices: set<int>): (p: int)
    requires prices != {}
    ensures p in prices && forall q :: q in prices ==> !Better(side, q, p)
  {
    HasBest(side, prices);
    var p :| p in prices && forall q :: q in prices ==> !Better(side, q, p);
    p
  }

  ghost function Flatten(side: Side, m: Levels): seq<RestingOrder>
    decreases m.Keys
  {
    if m.Keys == {} then []
    else var p := BestPrice(side, m.Keys); m[p] + Flatten(side, m - {p})
  }

  lemma {:induction false} FlattenMembers(side: Side, m: Levels, r: RestingOrder)
    ensures r in Flatten(side, m) <==> exists p :: p in m && r in m[p]
    decreases m.Keys
  {
    if m.Keys != {} {
      var p := BestPrice(side, m.Keys);
      FlattenMembers(side, m - {p}, r);
      if q :| q in m && r in m[q] && q != p { assert q in m - {p} && r in (m - {p})[q]; }
    }
  }

  lemma FlattenPrices(side: Side, m: Levels)
    requires WellKeyed(m)
    ensures forall i :: 0 <= i < |Flatten(side, m)| ==> Flatten(side, m)[i].limitPrice in m.Keys
    ensures Flatten(side, m) == [] <==> m.Keys == {}
    ensures m.Keys != {} ==> Flatten(side, m)[0].limitPrice == BestPrice(side, m.Keys)
  {
    var flat := Flatten(side, m);
    forall i | 0 <= i < |flat| ensures flat[i].limitPrice in m.Keys {
      assert flat[i] in flat;
      FlattenMembers(side, m, flat[i]);
    }
    if m.Keys != {} { assert flat[0] == m[BestPrice(side, m.Keys)][0]; }
  }

  /** Working on the best level works on the head of the queue. */
  lemma FlattenBest(side: Side, m: Levels, queue: seq<RestingOrder>)
    requires m.Keys != {}
    ensures var p := BestPrice(side, m.Keys);
      && Flatten(side, m) == m[p] + Flatten(side, m - {p})
      && Flatten(side, m[p := queue]) == queue + Flatten(side, m - {p})
  {
    var p := BestPrice(side, m.Keys);
    assert m[p := queue].Keys == m.Keys;
    assert m[p := queue] - {p} == m - {p};
  }

  ghost function AtPrice(queue: seq<RestingOrder>, p: int): seq<RestingOrder> {
    if queue == [] then []
    else (if queue[0].limitPrice == p then [queue[0]] else []) + AtPrice(queue[1..], p)
  }

  lemma {:induction false} AtPriceAppend(p: seq<RestingOrder>, q: seq<RestingOrder>, price: int)
    ensures AtPrice(p + q, price) == AtPrice(p, price) + AtPrice(q, price)
  {
    if p == [] {
      assert p + q == q;
    } else {
      var head := if p[0].limitPrice == price then [p[0]] else [];
      assert (p + q)[0] == p[0] && (p + q)[1..] == p[1..] + q;
      AtPriceAppend(p[1..], q, price);
      assert head + (AtPrice(p[1..], price) + AtPrice(q, price)) == (head + AtPrice(p[1..], price)) + AtPrice(q, price);
    }
  }

  lemma {:induction false} AtPriceOfLevel(queue: seq<RestingOrder>, at: int, price: int)
    requires AllAt(queue, at)
    ensures AtPrice(queue, price) == if at == price then queue else []
  {
    if queue != [] { AtPriceOfLevel(queue[1..], at, price); }
  }

  lemma {:induction false} LevelFromFlatten(side: Side, m: Levels, price: int)
    requires WellKeyed(m)
    ensures AtPrice(Flatten(side, m), price) == if price in m then m[price] else []
    decreases m.Keys
  {
    if m.Keys != {} {
      var p := BestPrice(side, m.Keys);
      LevelFromFlatten(side, m - {p}, price);
      AtPriceAppend(m[p], Flatten(side, m - {p}), price);
      AtPriceOfLevel(m[p], p, price);
    }
  }

  /** The queue of a side determines its map: nothing is lost by flattening. */
  lemma FlattenDeterminesLevels(side: Side, m: Levels, n: Levels)
    requires WellKeyed(m) && WellKeyed(n) && Flatten(side, m) == Flatten(side, n)
    ensures m == n
  {
    forall p ensures p in m <==> p in n ensures p in m ==> p in n && m[p] == n[p] {
      LevelFromFlatten(side, m, p);
      LevelFromFlatten(side, n, p);
    }
  }

  // ----- an order comes to rest -----

  function AddOrder(m: Levels, r: RestingOrder): Levels {
    m[r.limitPrice := (if r.limitPrice in m then m[r.limitPrice] else []) + [r]]
  }

  lemma {:induction false} EnqueuePasses(side: Side, ahead: seq<RestingOrder>, queue: seq<RestingOrder>,
      r: RestingOrder)
    requires forall i :: 0 <= i < |ahead| ==> !Better(side, r.limitPrice, ahead[i].limitPrice)
    ensures Enqueue(side, ahead + queue, r) == ahead + Enqueue(side, queue, r)
  {
    if ahead == [] {
      assert ahead + queue == queue;
    } else {
      EnqueuePasses(side, ahead[1..], queue, r);
      assert (ahead + queue)[1..] == ahead[1..] + queue;
    }
  }

  lemma FlattenAddAtBest(side: Side, m: Levels, r: RestingOrder)
    requires WellKeyed(m) && m.Keys != {} && r.limitPrice == BestPrice(side, m.Keys)
    ensures Flatten(side, AddOrder(m, r)) == Enqueue(side, Flatten(side, m), r)
  {
    hide Flatten;
    var p := BestPrice(side, m.Keys);
    var tail := Flatten(side, m - {p});
    FlattenBest(side, m, m[p] + [r]);
    EnqueuePasses(side, m[p], tail, r);
    FlattenPrices(side, m - {p});
    assert Enqueue(side, tail, r) == [r] + tail;
    assert m[p] + [r] + tail == m[p] + ([r] + tail);
  }

  lemma FlattenAddBeforeBest(side: Side, m: Levels, r: RestingOrder)
    requires WellKeyed(m)
    requires m.Keys == {} || Better(side, r.limitPrice, BestPrice(side, m.Keys))
    ensures Flatten(side, AddOrder(m, r)) == Enqueue(side, Flatten(side, m), r)
  {
    var p := r.limitPrice;
    var m' := AddOrder(m, r);
    assert p !in m;
    OnlyOneBest(side, m'.Keys, p);
    assert m' - {p} == m;
    assert m'[p] == [r];
    FlattenPrices(side, m);
  }

  lemma FlattenHead(side: Side, m: Levels, p: int)
    requires IsBest(side, m.Keys, p)
    ensures Flatten(side, m) == m[p] + Flatten(side, m - {p})
  {
    OnlyOneBest(side, m.Keys, p);
  }

  lemma FlattenAddBehindBest(side: Side, m: Levels, r: RestingOrder)
    requires WellKeyed(m) && m.Keys != {} && Better(side, BestPrice(side, m.Keys), r.limitPrice)
    requires var rest := m - {BestPrice(side, m.Keys)};
      Flatten(side, AddOrder(rest, r)) == Enqueue(side, Flatten(side, rest), r)
    ensures Flatten(side, AddOrder(m, r)) == Enqueue(side, Flatten(side, m), r)
  {
    hide Enqueue, Flatten;
    var p := BestPrice(side, m.Keys);
    var m' := AddOrder(m, r);
    FlattenHead(side, m, p);
    FlattenHead(side, m', p);
    assert m' - {p} == AddOrder(m - {p}, r);
    assert AllAt(m[p], p);
    EnqueuePasses(side, m[p], Flatten(side, m - {p}), r);
  }

  /** Pushing onto the back of a level, made if need be, is joining the queue by priority. */
  lemma {:induction false} FlattenAddOrder(side: Side, m: Levels, r: RestingOrder)
    requires WellKeyed(m)
    ensures Flatten(side, AddOrder(m, r)) == Enqueue(side, Flatten(side, m), r)
    ensures WellKeyed(AddOrder(m, r))
    decreases m.Keys
  {
    if m.Keys == {} || Better(side, r.limitPrice, BestPrice(side, m.Keys)) {
      FlattenAddBeforeBest(side, m, r);
    } else if r.limitPrice == BestPrice(side, m.Keys) {
      FlattenAddAtBest(side, m, r);
    } else {
      FlattenAddOrder(side, m - {BestPrice(side, m.Keys)}, r);
      FlattenAddBehindBest(side, m, r);
    }
  }

  // ----- an order is cancelled -----

  /** The level without the order, or no level when the order was alone there. */
  function DropFromLevel(m: Levels, p: int, id: nat): Levels
    requires p in m
  {
    var left := DropResting(m[p], id);
    if left == [] then m - {p} else m[p := left]
  }

  lemma {:induction false} DropRestingAppend(p: seq<RestingOrder>, q: seq<RestingOrder>, id: nat)
    ensures DropResting(p + q, id) == DropResting(p, id) + DropResting(q, id)
    ensures RestingCount(p + q, id) == RestingCount(p, id) + RestingCount(q, id)
  {
    if p == [] {
      assert p + q == q;
    } else {
      assert (p + q)[1..] == p[1..] + q;
      DropRestingAppend(p[1..], q, id);
    }
  }

  lemma {:induction false} LevelCount(side: Side, m: Levels, p: int, id: nat)
    requires p in m
    ensures RestingCount(m[p], id) <= RestingCount(Flatten(side, m), id)
    decreases m.Keys
  {
    var b := BestPrice(side, m.Keys);
    DropRestingAppend(m[b], Flatten(side, m - {b}), id);
    if p != b { LevelCount(side, m - {b}, p, id); }
  }

  lemma FlattenDropAtBest(side: Side, m: Levels, id: nat)
    requires WellKeyed(m) && m.Keys != {}
    requires var b := BestPrice(side, m.Keys);
      HasResting(m[b], id) && RestingCount(Flatten(side, m), id) <= 1
    ensures Flatten(side, DropFromLevel(m, BestPrice(side, m.Keys), id)) == DropResting(Flatten(side, m), id)
  {
    hide DropResting;
    var b := BestPrice(side, m.Keys);
    var tail := Flatten(side, m - {b});
    RestingHas(m[b], id);
    DropRestingAppend(m[b], tail, id);
    DropRestingAbsent(tail, id);
    FlattenBest(side, m, DropResting(m[b], id));
  }

  lemma FlattenDropBehindBest(side: Side, m: Levels, p: int, id: nat)
    requires WellKeyed(m) && p in m && p != BestPrice(side, m.Keys) && RestingCount(m[BestPrice(side, m.Keys)], id) == 0
    requires var rest := m - {BestPrice(side, m.Keys)};
      Flatten(side, DropFromLevel(rest, p, id)) == DropResting(Flatten(side, rest), id)
    ensures Flatten(side, DropFromLevel(m, p, id)) == DropResting(Flatten(side, m), id)
  {
    hide DropResting, WellKeyed, Flatten;
    var b := BestPrice(side, m.Keys);
    var m' := DropFromLevel(m, p, id);
    DropRestingAppend(m[b], Flatten(side, m - {b}), id);
    DropRestingAbsent(m[b], id);
    assert b in m'.Keys && m'.Keys <= m.Keys;
    FlattenHead(side, m, b);
    FlattenHead(side, m', b);
    assert m' - {b} == DropFromLevel(m - {b}, p, id);
  }

  /** Where an id occurs at most once, dropping it from its level drops it from the queue. */
  lemma {:induction false} FlattenDrop(side: Side, m: Levels, p: int, id: nat)
    requires WellKeyed(m) && p in m
    requires HasResting(m[p], id) && RestingCount(Flatten(side, m), id) <= 1
    ensures Flatten(side, DropFromLevel(m, p, id)) == DropResting(Flatten(side, m), id)
    decreases m.Keys
  {
    var b := BestPrice(side, m.Keys);
    if p == b {
      FlattenDropAtBest(side, m, id);
    } else {
      DropRestingAppend(m[b], Flatten(side, m - {b}), id);
      RestingHas(m[p], id);
      LevelCount(side, m - {b}, p, id);
      FlattenDrop(side, m - {b}, p, id);
      FlattenDropBehindBest(side, m, p, id);
    }
  }

  lemma DropKeepsKeys(m: Levels, p: int, id: nat)
    requires WellKeyed(m) && p in m
    ensures WellKeyed(DropFromLevel(m, p, id))
  {
    var left := DropResting(m[p], id);
    DropRestingMembers(m[p], id);
    forall i | 0 <= i < |left| ensures left[i].limitPrice == p { assert left[i] in left; }
  }

  /** No level holds the id exactly when the queue does not. */
  lemma FlattenHas(side: Side, m: Levels, id: nat)
    ensures HasResting(Flatten(side, m), id) <==> exists p :: p in m && HasResting(m[p], id)
  {
    var flat := Flatten(side, m);
    if HasResting(flat, id) {
      var i :| 0 <= i < |flat| && flat[i].id == id;
      FlattenMembers(side, m, flat[i]);
      var p :| p in m && flat[i] in m[p];
      assert HasResting(m[p], id);
    }
    if p :| p in m && HasResting(m[p], id) {
      var i :| 0 <= i < |m[p]| && m[p][i].id == id;
      FlattenMembers(side, m, m[p][i]);
    }
  }

  lemma {:induction false} FoundIsUnique(queue: seq<RestingOrder>, id: nat, r: RestingOrder)
    requires RestingCount(queue, id) <= 1 && r in queue && r.id == id
    ensures FindResting(queue, id) == Some(r)
  {
    if queue[0].id == id {
      RestingHas(queue[1..], id);
    } else {
      FoundIsUnique(queue[1..], id, r);
    }
  }
}
