/** The volume profile: price buckets on a fixed grid, the point of control and the value area around it. */
module ValueArea {
  import opened OrderTypes
  import opened PriceLevels
  import opened Words
  import opened TickTape

  type Buckets = map<int, nat>

  // ----- the grid -----

  predicate OnGrid(price: int, step: nat)
    requires step > 0
  {
    price % step == 0
  }

  function BucketStart(price: int, size: nat): (start: int)
    requires size > 0
  {
    price - price % size
  }

  /** The bucket of a price is the only grid point that is at most one bucket size below it. */
  lemma BucketStartIsGrid(price: int, size: nat, start: int)
    requires size > 0
    ensures OnGrid(start, size) && start <= price < start + size <==> start == BucketStart(price, size)
  {
    var b := BucketStart(price, size);
    ModIs(b, size, price / size, 0);
    if OnGrid(start, size) && start <= price < start + size && start != b {
      if start < b { GridGap(start, b, size); } else { GridGap(b, start, size); }
    }
  }

  lemma GridGap(p: int, q: int, step: nat)
    requires step > 0 && OnGrid(p, step) && OnGrid(q, step) && p < q
    ensures p + step <= q
  {
    var a, b := p / step, q / step;
    assert p == step * a && q == step * b;
    assert step * (b - a) == step * b - step * a;
    MulFar(step, b - a);
    if b - a == 0 { assert false; }
  }

  lemma GridNext(p: int, step: nat)
    requires step > 0 && OnGrid(p, step)
    ensures OnGrid(p - step, step) && OnGrid(p + step, step)
  {
    var a := p / step;
    assert step * (a - 1) == p - step && step * (a + 1) == p + step;
    ModIs(p - step, step, a - 1, 0);
    ModIs(p + step, step, a + 1, 0);
  }

  // ----- volume over a set of buckets -----

  function Volume(m: Buckets, keys: set<int>): nat
    requires keys <= m.Keys
    decreases keys
  {
    if keys == {} then 0
    else var p := BestPrice(Sell, keys); m[p] + Volume(m, keys - {p})
  }

  lemma {:induction false} VolumeSplit(m: Buckets, keys: set<int>, k: int)
    requires k in keys && keys <= m.Keys
    ensures Volume(m, keys) == m[k] + Volume(m, keys - {k})
    decreases keys
  {
    var p := BestPrice(Sell, keys);
    if p != k {
      VolumeSplit(m, keys - {p}, k);
      OnlyOneBest(Sell, keys - {k}, p);
      assert keys - {p} - {k} == keys - {k} - {p};
    }
  }

  lemma {:induction false} VolumeUnion(m: Buckets, a: set<int>, b: set<int>)
    requires a + b <= m.Keys && a !! b
    ensures Volume(m, a + b) == Volume(m, a) + Volume(m, b)
    decreases a
  {
    if a == {} {
      assert a + b == b;
    } else {
      var k := BestPrice(Sell, a);
      VolumeUnion(m, a - {k}, b);
      VolumeSplit(m, a + b, k);
      assert a + b - {k} == (a - {k}) + b;
    }
  }

  lemma {:induction false} VolumeSame(m: Buckets, n: Buckets, keys: set<int>)
    requires keys <= m.Keys && keys <= n.Keys
    requires forall k :: k in keys ==> m[k] == n[k]
    ensures Volume(m, keys) == Volume(n, keys)
    decreases keys
  {
    if keys != {} { VolumeSame(m, n, keys - {BestPrice(Sell, keys)}); }
  }

  lemma VolumeUpdate(m: Buckets, k: int, quantity: nat)
    ensures var n := m[k := (if k in m then m[k] else 0) + quantity];
      Volume(n, n.Keys) == Volume(m, m.Keys) + quantity
  {
    var n := m[k := (if k in m then m[k] else 0) + quantity];
    var others := m.Keys - {k};
    assert n.Keys - {k} == others;
    VolumeSplit(n, n.Keys, k);
    VolumeSame(m, n, others);
    if k in m { VolumeSplit(m, m.Keys, k); } else { assert others == m.Keys; }
  }

  // ----- from ticks to buckets -----

  /** Traded volume of one bucket. */
  function BucketVolume(ticks: seq<Tick>, size: nat, start: int): nat
    requires size > 0
  {
    if ticks == [] then 0
    else
      var t := ticks[|ticks| - 1];
      BucketVolume(ticks[..|ticks| - 1], size, start) + (if BucketStart(t.price, size) == start then t.quantity else 0)
  }

  predicate Touched(ticks: seq<Tick>, size: nat, start: int)
    requires size > 0
  {
    exists i :: 0 <= i < |ticks| && BucketStart(ticks[i].price, size) == start
  }

  /** Exactly the touched buckets, each with its volume. */
  ghost predicate IsProfileOf(m: Buckets, ticks: seq<Tick>, size: nat)
    requires size > 0
  {
    && (forall k :: k in m <==> Touched(ticks, size, k))
    && (forall k :: k in m ==> m[k] == BucketVolume(ticks, size, k))
    && Volume(m, m.Keys) == TotalQuantity(ticks)
  }

  lemma TouchedSnoc(ticks: seq<Tick>, t: Tick, size: nat, k: int)
    requires size > 0
    ensures Touched(ticks + [t], size, k) <==> Touched(ticks, size, k) || BucketStart(t.price, size) == k
    ensures BucketVolume(ticks + [t], size, k)
         == BucketVolume(ticks, size, k) + (if BucketStart(t.price, size) == k then t.quantity else 0)
  {
    hide BucketStart;
    var all := ticks + [t];
    assert all[..|ticks|] == ticks && all[|ticks|] == t;
    if Touched(ticks, size, k) {
      var i :| 0 <= i < |ticks| && BucketStart(ticks[i].price, size) == k;
      assert BucketStart(all[i].price, size) == k;
    }
  }

  lemma {:induction false} UntouchedIsEmpty(ticks: seq<Tick>, size: nat, k: int)
    requires size > 0 && !Touched(ticks, size, k)
    ensures BucketVolume(ticks, size, k) == 0
  {
    hide BucketStart;
    if ticks != [] {
      var before, t := ticks[..|ticks| - 1], ticks[|ticks| - 1];
      assert ticks == before + [t];
      TouchedSnoc(before, t, size, k);
      UntouchedIsEmpty(before, size, k);
    }
  }

  lemma BucketsSnoc(m: Buckets, ticks: seq<Tick>, t: Tick, size: nat, j: int)
    requires size > 0 && IsProfileOf(m, ticks, size)
    ensures var k := BucketStart(t.price, size);
      var n := m[k := (if k in m then m[k] else 0) + t.quantity];
      && (j in n <==> Touched(ticks + [t], size, j))
      && (j in n ==> n[j] == BucketVolume(ticks + [t], size, j))
  {
    hide BucketStart, Touched, BucketVolume, Volume, TotalQuantity;
    TouchedSnoc(ticks, t, size, j);
    if j !in m { UntouchedIsEmpty(ticks, size, j); }
  }

  lemma ProfileSnoc(m: Buckets, ticks: seq<Tick>, t: Tick, size: nat)
    requires size > 0 && IsProfileOf(m, ticks, size)
    ensures var k := BucketStart(t.price, size);
      IsProfileOf(m[k := (if k in m then m[k] else 0) + t.quantity], ticks + [t], size)
  {
    hide BucketStart, Touched, BucketVolume, Volume, TotalQuantity;
    var k := BucketStart(t.price, size);
    var n := m[k := (if k in m then m[k] else 0) + t.quantity];
    forall j
      ensures j in n <==> Touched(ticks + [t], size, j)
      ensures j in n ==> n[j] == BucketVolume(ticks + [t], size, j)
    {
      BucketsSnoc(m, ticks, t, size, j);
    }
    VolumeUpdate(m, k, t.quantity);
    QuantitySnoc(ticks, t);
  }

  method BucketVolumes(ticks: seq<Tick>, size: nat) returns (m: Buckets)
    requires size > 0
    ensures IsProfileOf(m, ticks, size)
  {
    hide IsProfileOf, BucketStart;
    m := map[];
    EmptyProfile(size);
    for i := 0 to |ticks|
      invariant IsProfileOf(m, ticks[..i], size)
    {
      var k := BucketStart(ticks[i].price, size);
      ProfileSnoc(m, ticks[..i], ticks[i], size);
      m := m[k := (if k in m then m[k] else 0) + ticks[i].quantity];
      assert ticks[..i] + [ticks[i]] == ticks[..i + 1];
    }
    assert ticks[..|ticks|] == ticks;
  }

  lemma EmptyProfile(size: nat)
    requires size > 0
    ensures IsProfileOf(map[], [], size)
  {
  }

  lemma NoTicksNoBuckets(m: Buckets, ticks: seq<Tick>, size: nat)
    requires size > 0 && IsProfileOf(m, ticks, size)
    ensures m.Keys == {} <==> ticks == []
  {
    if ticks != [] { assert Touched(ticks, size, BucketStart(ticks[0].price, size)); }
    EmptyOrMember(m.Keys);
  }

  // ----- the point of control -----

  /** A bucket of the largest volume; the lowest-priced one among equals. */
  ghost predicate IsPointOfControl(m: Buckets, keys: set<int>, p: int)
    requires keys <= m.Keys
  {
    p in keys && forall q :: q in keys ==> m[q] < m[p] || (m[q] == m[p] && p <= q)
  }

  function PointOfControl(m: Buckets, keys: set<int>): (p: int)
    requires keys <= m.Keys && keys != {}
    ensures IsPointOfControl(m, keys, p)
    decreases keys
  {
    var lowest := BestPrice(Sell, keys);
    var others := keys - {lowest};
    assert keys == others + {lowest};
    if others == {} then lowest
    else
      var r := PointOfControl(m, others);
      if m[r] > m[lowest] then r else lowest
  }

  // ----- neighbours -----

  function Below(keys: set<int>, edge: int): (below: set<int>) {
    set k | k in keys && k < edge
  }

  function Above(keys: set<int>, edge: int): (above: set<int>) {
    set k | k in keys && k > edge
  }

  /** The occupied bucket next to `edge`; `Buy` looks down, `Sell` looks up. */
  function Neighbour(keys: set<int>, edge: int, direction: Side): (n: Option<int>)
    ensures n.Some? ==> n.value in keys
    ensures direction == Buy && n.Some? ==> n.value < edge && forall k :: k in keys && k < edge ==> k <= n.value
    ensures direction == Sell && n.Some? ==> n.value > edge && forall k :: k in keys && k > edge ==> n.value <= k
    ensures direction == Buy && n.None? ==> forall k :: k in keys ==> k >= edge
    ensures direction == Sell && n.None? ==> forall k :: k in keys ==> k <= edge
  {
    BeyondMembers(keys, edge);
    var beyond := if direction == Buy then Below(keys, edge) else Above(keys, edge);
    if beyond == {} then None else Some(BestPrice(direction, beyond))
  }

  lemma BeyondMembers(keys: set<int>, edge: int)
    ensures forall k :: k in keys && k < edge <==> k in Below(keys, edge)
    ensures forall k :: k in keys && k > edge <==> k in Above(keys, edge)
  {
  }

  function Outward(price: int, step: nat, direction: Side): int {
    if direction == Buy then price - step else price + step
  }

  predicate Beyond(p: int, q: int, direction: Side) {
    if direction == Buy then p < q else p > q
  }

  /**
   Walking step by step finds the occupied neighbour, however many empty buckets lie in between,
   because every occupied bucket and the start of the walk are grid points.
   */
  method NextOccupiedBucketOutward(m: Buckets, edge: int, step: nat, direction: Side)
    returns (found: Option<(int, nat)>)
    requires step > 0 && OnGrid(edge, step) && forall k :: k in m ==> OnGrid(k, step)
    ensures found.Some? ==> found.value.0 in m && found.value.1 == m[found.value.0]
    ensures Neighbour(m.Keys, edge, direction) == (if found.Some? then Some(found.value.0) else None)
  {
    hide OnGrid;
    if m.Keys == {} { return None; }
    var boundary := BestPrice(Opposite(direction), m.Keys);
    var candidate := Outward(edge, step, direction);
    GridNext(edge, step);
    forall k | k in m && Beyond(k, edge, direction) ensures !Beyond(candidate, k, direction) {
      if direction == Buy { GridGap(k, edge, step); } else { GridGap(edge, k, step); }
    }
    while true
      invariant OnGrid(candidate, step) && Beyond(candidate, edge, direction)
      invariant forall k :: k in m && Beyond(k, edge, direction) ==> !Beyond(candidate, k, direction)
      decreases if direction == Buy then candidate - boundary else boundary - candidate
    {
      if Beyond(candidate, boundary, direction) { return None; }
      if candidate in m { return Some((candidate, m[candidate])); }
      forall k | k in m && Beyond(k, edge, direction)
        ensures !Beyond(Outward(candidate, step, direction), k, direction)
      {
        if direction == Buy { GridGap(k, candidate, step); } else { GridGap(candidate, k, step); }
      }
      GridNext(candidate, step);
      candidate := Outward(candidate, step, direction);
    }
  }

  // ----- growing the value area -----

  function Inside(keys: set<int>, low: int, high: int): (inside: set<int>) {
    set k | k in keys && low <= k <= high
  }

  function Outside(keys: set<int>, low: int, high: int): (outside: set<int>) {
    set k | k in keys && (k < low || k > high)
  }

  lemma OutsideShrinks(keys: set<int>, low: int, high: int, low': int, high': int, k: int)
    requires low' <= low && high <= high' && k in Outside(keys, low, high) && low' <= k <= high'
    ensures Outside(keys, low', high') < Outside(keys, low, high)
  {
    assert k !in Outside(keys, low', high');
  }

  /** One step outward: to the neighbour with more volume, downward on a tie; none left gives `None`. */
  function GrowOnce(m: Buckets, low: int, high: int): (grown: Option<(int, int)>)
    requires low <= high
    ensures grown.None? ==> Outside(m.Keys, low, high) == {}
    ensures grown.Some? ==> grown.value.0 <= low && high <= grown.value.1
    ensures grown.Some? ==> Outside(m.Keys, grown.value.0, grown.value.1) < Outside(m.Keys, low, high)
  {
    var below, above := Neighbour(m.Keys, low, Buy), Neighbour(m.Keys, high, Sell);
    if below.None? && above.None? then None
    else if above.None? || (below.Some? && m[below.value] >= m[above.value]) then
      OutsideShrinks(m.Keys, low, high, below.value, high, below.value);
      Some((below.value, high))
    else
      OutsideShrinks(m.Keys, low, high, low, above.value, above.value);
      Some((low, above.value))
  }

  function Grow(m: Buckets, low: int, high: int, target: nat): (r: (int, int))
    requires low <= high
    ensures r.0 <= low && high <= r.1
    decreases Outside(m.Keys, low, high)
  {
    if Volume(m, Inside(m.Keys, low, high)) >= target then (low, high)
    else
      var grown := GrowOnce(m, low, high);
      if grown.None? then (low, high) else Grow(m, grown.value.0, grown.value.1, target)
  }

  /** What one step adds: one bucket, on one side, next to the range. */
  lemma GrowOnceAdds(m: Buckets, low: int, high: int)
    requires low <= high && GrowOnce(m, low, high).Some?
    ensures var (low', high') := GrowOnce(m, low, high).value;
      && ((high' == high && low' < low) || (low' == low && high < high'))
      && var k := if low' < low then low' else high';
         k in m && Inside(m.Keys, low', high') == Inside(m.Keys, low, high) + {k}
         && Volume(m, Inside(m.Keys, low', high')) == Volume(m, Inside(m.Keys, low, high)) + m[k]
  {
    var (low', high') := GrowOnce(m, low, high).value;
    var k := if low' < low then low' else high';
    assert Inside(m.Keys, low', high') == Inside(m.Keys, low, high) + {k};
    VolumeSplit(m, Inside(m.Keys, low', high'), k);
    assert Inside(m.Keys, low', high') - {k} == Inside(m.Keys, low, high);
  }

  /** `k` is the occupied bucket right below (`Buy`) or right above (`Sell`) the range. */
  ghost predicate Adjoins(m: Buckets, low: int, high: int, direction: Side, k: int) {
    k in m && if direction == Buy then k < low && forall j :: j in m && j < low ==> j <= k
              else k > high && forall j :: j in m && j > high ==> k <= j
  }

  /** The bucket taken adjoins the range, and the one on the other side is lighter, or as heavy but above. */
  lemma GrowOnceTakesTheHeavier(m: Buckets, low: int, high: int, other: int)
    requires low <= high && GrowOnce(m, low, high).Some?
    ensures var (low', high') := GrowOnce(m, low, high).value;
      if low' < low then
        Adjoins(m, low, high, Buy, low') && (Adjoins(m, low, high, Sell, other) ==> m[other] <= m[low'])
      else
        Adjoins(m, low, high, Sell, high') && (Adjoins(m, low, high, Buy, other) ==> m[other] < m[high'])
  {
    var below, above := Neighbour(m.Keys, low, Buy), Neighbour(m.Keys, high, Sell);
    if Adjoins(m, low, high, Buy, other) { assert below == Some(other); }
    if Adjoins(m, low, high, Sell, other) { assert above == Some(other); }
  }

  method ComputeValueAreaRange(m: Buckets, poc: int, total: nat, fraction: real, step: nat)
    returns (low: int, high: int)
    requires step > 0 && poc in m && forall k :: k in m ==> OnGrid(k, step)
    ensures (low, high) == Grow(m, poc, poc, Target(total, fraction))
    ensures low in m && high in m
  {
    hide OnGrid, Volume, Target;
    var target := Target(total, fraction);
    low, high := poc, poc;
    var accumulated := if poc in m then m[poc] else 0;
    assert Inside(m.Keys, poc, poc) == {poc};
    VolumeSplit(m, {poc}, poc);
    EmptyVolume(m);
    assert {poc} - {poc} == {};
    while accumulated < target
      invariant low in m && high in m && low <= high
      invariant accumulated == Volume(m, Inside(m.Keys, low, high))
      invariant Grow(m, low, high, target) == Grow(m, poc, poc, target)
      decreases Outside(m.Keys, low, high)
    {
      var below := NextOccupiedBucketOutward(m, low, step, Buy);
      var above := NextOccupiedBucketOutward(m, high, step, Sell);
      if GrowOnce(m, low, high).Some? { GrowOnceAdds(m, low, high); }
      match (below, above) {
        case (None, None) => break;
        case (Some(b), None) => low, accumulated := b.0, accumulated + b.1;
        case (None, Some(a)) => high, accumulated := a.0, accumulated + a.1;
        case (Some(b), Some(a)) =>
          if b.1 >= a.1 {
            low, accumulated := b.0, accumulated + b.1;
          } else {
            high, accumulated := a.0, accumulated + a.1;
          }
      }
    }
  }

  lemma EmptyVolume(m: Buckets)
    ensures Volume(m, {}) == 0
  {
  }

  lemma ProductSign(x: real, y: real)
    requires x >= 0.0
    ensures (y >= 0.0 ==> x * y >= 0.0) && (y <= 0.0 ==> x * y <= 0.0)
  {
  }

  /** Volume to reach: the fraction of the total, rounded up; a negative product saturates to zero. */
  function Target(total: nat, fraction: real): (target: nat)
    ensures target as real >= total as real * fraction
    ensures fraction >= 0.0 ==> (target as real) < total as real * fraction + 1.0
    ensures 0.0 <= fraction <= 1.0 ==> target <= total
    ensures fraction <= 0.0 ==> target == 0
  {
    var product := total as real * fraction;
    ProductSign(total as real, fraction);
    ProductSign(total as real, 1.0 - fraction);
    assert total as real * (1.0 - fraction) == total as real - product;
    var ceiling := -(-product).Floor;
    if ceiling < 0 then 0 else ceiling
  }

  // ----- what the value area is -----

  /** Reaches the target if anything does, and one of its two ends is needed for that. */
  lemma {:induction false} GrowReachesAndIsTight(m: Buckets, low: int, high: int, target: nat)
    requires low in m && high in m && low <= high
    ensures var (l, h) := Grow(m, low, high, target);
      && l in m && h in m && l <= low && high <= h
      && (Volume(m, Inside(m.Keys, l, h)) >= target || Inside(m.Keys, l, h) == m.Keys)
      && ((l, h) != (low, high) ==>
            || Volume(m, Inside(m.Keys, l, h) - {l}) < target
            || Volume(m, Inside(m.Keys, l, h) - {h}) < target)
    decreases Outside(m.Keys, low, high)
  {
    hide Volume;
    if Volume(m, Inside(m.Keys, low, high)) < target {
      var grown := GrowOnce(m, low, high);
      if grown.None? {
        NothingOutside(m, low, high);
      } else {
        var (low', high') := grown.value;
        GrowOnceAdds(m, low, high);
        GrowReachesAndIsTight(m, low', high', target);
        if Grow(m, low', high', target) == (low', high') {
          var k := if low' < low then low' else high';
          assert Inside(m.Keys, low', high') - {k} == Inside(m.Keys, low, high);
        }
      }
    }
  }

  // ----- when the greedy range takes the fewest buckets -----

  /** Volumes do not rise on the way out from `poc`, on either side. */
  ghost predicate FallsAway(m: Buckets, poc: int) {
    forall j, k :: j in m && k in m && (k <= j <= poc || poc <= j <= k) ==> m[j] >= m[k]
  }

  ghost predicate Dominates(m: Buckets, keys: set<int>)
    requires keys <= m.Keys
  {
    forall i, o :: i in keys && o in m && o !in keys ==> m[i] >= m[o]
  }

  lemma {:induction false} NoSmallerNoLess(m: Buckets, a: set<int>, b: set<int>)
    requires a <= m.Keys && b <= m.Keys && |b| <= |a|
    requires forall i, o :: i in a && o in b ==> m[i] >= m[o]
    ensures Volume(m, b) <= Volume(m, a)
    decreases a
  {
    if b != {} {
      var p, q := BestPrice(Sell, a), BestPrice(Sell, b);
      NoSmallerNoLess(m, a - {p}, b - {q});
    }
  }

  lemma DominatingIsMost(m: Buckets, keys: set<int>, other: set<int>)
    requires keys <= m.Keys && other <= m.Keys && Dominates(m, keys) && |other| <= |keys|
    ensures Volume(m, other) <= Volume(m, keys)
  {
    var both := keys * other;
    assert keys == (keys - other) + both && other == (other - keys) + both;
    assert |keys| == |keys - other| + |both| && |other| == |other - keys| + |both|;
    VolumeUnion(m, keys - other, both);
    VolumeUnion(m, other - keys, both);
    NoSmallerNoLess(m, keys - other, other - keys);
  }

  lemma GrowOnceKeepsDominating(m: Buckets, poc: int, low: int, high: int)
    requires low <= poc <= high && FallsAway(m, poc) && Dominates(m, Inside(m.Keys, low, high))
    requires GrowOnce(m, low, high).Some?
    ensures Dominates(m, Inside(m.Keys, GrowOnce(m, low, high).value.0, GrowOnce(m, low, high).value.1))
  {
    hide Volume, Neighbour;
    var (low', high') := GrowOnce(m, low, high).value;
    var k := if low' < low then low' else high';
    GrowOnceAdds(m, low, high);
    forall o | o in m && o !in Inside(m.Keys, low', high') ensures m[k] >= m[o] {
      PickIsHeaviest(m, poc, low, high, o);
    }
  }

  lemma PickIsHeaviest(m: Buckets, poc: int, low: int, high: int, o: int)
    requires low <= poc <= high && FallsAway(m, poc) && GrowOnce(m, low, high).Some?
    requires o in m && (o < low || o > high)
    ensures var (low', high') := GrowOnce(m, low, high).value;
      var k := if low' < low then low' else high'; k in m && m[k] >= m[o]
  {
    hide Volume, Neighbour;
    var below, above := Neighbour(m.Keys, low, Buy), Neighbour(m.Keys, high, Sell);
    if o < low { assert o <= below.value <= poc; } else { assert poc <= above.value <= o; }
  }

  lemma {:induction false} GrowTakesTheFewest(m: Buckets, poc: int, low: int, high: int, target: nat, other: set<int>)
    requires low <= poc <= high && FallsAway(m, poc) && Dominates(m, Inside(m.Keys, low, high))
    requires other <= m.Keys && Volume(m, other) >= target && |Inside(m.Keys, low, high)| <= |other|
    ensures var (l, h) := Grow(m, low, high, target); |Inside(m.Keys, l, h)| <= |other|
    decreases Outside(m.Keys, low, high)
  {
    hide Volume, FallsAway, Dominates;
    if Volume(m, Inside(m.Keys, low, high)) < target && GrowOnce(m, low, high).Some? {
      var (low', high') := GrowOnce(m, low, high).value;
      if |other| <= |Inside(m.Keys, low, high)| { DominatingIsMost(m, Inside(m.Keys, low, high), other); }
      GrowOnceAdds(m, low, high);
      GrowOnceKeepsDominating(m, poc, low, high);
      GrowTakesTheFewest(m, poc, low', high', target, other);
    }
  }

  /** If volume falls away from the point of control, no choice of fewer occupied buckets reaches the target. */
  lemma FallingProfilesTakeTheFewestBuckets(m: Buckets, poc: int, target: nat, other: set<int>)
    requires IsPointOfControl(m, m.Keys, poc) && FallsAway(m, poc)
    requires poc in other && other <= m.Keys && Volume(m, other) >= target
    ensures var (l, h) := Grow(m, poc, poc, target); |Inside(m.Keys, l, h)| <= |other|
  {
    assert Inside(m.Keys, poc, poc) == {poc};
    assert other == (other - {poc}) + {poc};
    GrowTakesTheFewest(m, poc, poc, poc, target, other);
  }

  // ----- when the greedy range is the smallest price range -----

  function VolumeBetween(m: Buckets, low: int, high: int): nat {
    Volume(m, Inside(m.Keys, low, high))
  }

  /** No price range around `poc` that reaches the target is narrower than the greedy one. */
  ghost predicate IsSmallest(m: Buckets, poc: int, target: nat) {
    var (l, h) := Grow(m, poc, poc, target);
    forall a, b :: a <= poc <= b && VolumeBetween(m, a, b) >= target ==> h - l <= b - a
  }

  /** Of all price ranges around `poc` narrower than `width`, none holds more than this volume. */
  ghost predicate NoneHeavier(m: Buckets, poc: int, width: int, volume: nat) {
    forall a, b :: a <= poc <= b && b - a < width ==> VolumeBetween(m, a, b) <= volume
  }

  /**
   From this range on, every range the growth passes through is a heaviest one of its size: as long as
   the next step gains volume, nothing narrower than what it leads to is heavier than what it leaves.
   */
  ghost predicate HeaviestOnTheWay(m: Buckets, poc: int, low: int, high: int)
    requires low <= high
    decreases Outside(m.Keys, low, high)
  {
    var grown := GrowOnce(m, low, high);
    grown.Some? ==>
      var (low', high') := grown.value;
      && (VolumeBetween(m, low', high') > VolumeBetween(m, low, high) ==>
            NoneHeavier(m, poc, high' - low', VolumeBetween(m, low, high)))
      && HeaviestOnTheWay(m, poc, low', high')
  }

  lemma VolumeSubset(m: Buckets, a: set<int>, b: set<int>)
    requires a <= b <= m.Keys
    ensures Volume(m, a) <= Volume(m, b)
  {
    assert b == a + (b - a);
    VolumeUnion(m, a, b - a);
  }

  lemma NothingOutside(m: Buckets, low: int, high: int)
    requires Outside(m.Keys, low, high) == {}
    ensures Inside(m.Keys, low, high) == m.Keys
  {
    forall k | k in m.Keys ensures k in Inside(m.Keys, low, high) {
      assert k !in Outside(m.Keys, low, high);
    }
  }

  /** Growing to more than the present volume starts with one step. */
  lemma GrowUnfolds(m: Buckets, low: int, high: int, target: nat)
    requires low <= high
    ensures var grown := GrowOnce(m, low, high);
      Grow(m, low, high, target) ==
        if VolumeBetween(m, low, high) >= target || grown.None? then (low, high)
        else Grow(m, grown.value.0, grown.value.1, target)
  {
  }

  lemma {:induction false} WayGivesSmallest(m: Buckets, poc: int, low: int, high: int, target: nat, a: int, b: int)
    requires low <= poc <= high && HeaviestOnTheWay(m, poc, low, high) && VolumeBetween(m, low, high) < target
    requires a <= poc <= b && VolumeBetween(m, a, b) >= target
    ensures var (l, h) := Grow(m, low, high, target); h - l <= b - a
    decreases Outside(m.Keys, low, high)
  {
    hide Volume, Grow, GrowOnce;
    GrowUnfolds(m, low, high, target);
    VolumeSubset(m, Inside(m.Keys, a, b), m.Keys);
    if GrowOnce(m, low, high).None? {
      NothingOutside(m, low, high);
    } else {
      var (low', high') := GrowOnce(m, low, high).value;
      GrowUnfolds(m, low', high', target);
      if VolumeBetween(m, low', high') < target {
        WayGivesSmallest(m, poc, low', high', target, a, b);
      }
    }
  }

  /** Every greedy range grown from here is the smallest for its target. */
  ghost predicate SmallestFrom(m: Buckets, poc: int, low: int, high: int)
    requires low <= high
  {
    forall target: nat, a, b ::
        target > VolumeBetween(m, low, high) && a <= poc <= b && VolumeBetween(m, a, b) >= target ==>
      Grow(m, low, high, target).1 - Grow(m, low, high, target).0 <= b - a
  }

  lemma {:induction false} SmallestGivesWay(m: Buckets, poc: int, low: int, high: int)
    requires low <= poc <= high && SmallestFrom(m, poc, low, high)
    ensures HeaviestOnTheWay(m, poc, low, high)
    decreases Outside(m.Keys, low, high)
  {
    if GrowOnce(m, low, high).Some? {
      hide Volume, Grow, GrowOnce, HeaviestOnTheWay, VolumeBetween;
      var (low', high') := GrowOnce(m, low, high).value;
      GrowOnceGains(m, low, high);
      StepIsHeaviest(m, poc, low, high);
      forall target: nat, a, b | target > VolumeBetween(m, low', high') && a <= poc <= b
          && VolumeBetween(m, a, b) >= target
        ensures Grow(m, low', high', target).1 - Grow(m, low', high', target).0 <= b - a
      {
        GrowUnfolds(m, low, high, target);
      }
      SmallestGivesWay(m, poc, low', high');
      WayUnfolds(m, poc, low, high);
    }
  }

  lemma WayUnfolds(m: Buckets, poc: int, low: int, high: int)
    requires low <= high && GrowOnce(m, low, high).Some?
    ensures var (low', high') := GrowOnce(m, low, high).value;
      HeaviestOnTheWay(m, poc, low, high) <==>
        && (VolumeBetween(m, low', high') > VolumeBetween(m, low, high) ==>
              NoneHeavier(m, poc, high' - low', VolumeBetween(m, low, high)))
        && HeaviestOnTheWay(m, poc, low', high')
  {
  }

  lemma GrowOnceGains(m: Buckets, low: int, high: int)
    requires low <= high && GrowOnce(m, low, high).Some?
    ensures var (low', high') := GrowOnce(m, low, high).value;
      VolumeBetween(m, low', high') >= VolumeBetween(m, low, high)
  {
    hide Volume, GrowOnce;
    GrowOnceAdds(m, low, high);
  }

  lemma StepIsHeaviest(m: Buckets, poc: int, low: int, high: int)
    requires low <= poc <= high && SmallestFrom(m, poc, low, high) && GrowOnce(m, low, high).Some?
    ensures var (low', high') := GrowOnce(m, low, high).value;
      VolumeBetween(m, low', high') > VolumeBetween(m, low, high) ==>
        NoneHeavier(m, poc, high' - low', VolumeBetween(m, low, high))
  {
    hide Volume, Grow, GrowOnce, VolumeBetween;
    var (low', high') := GrowOnce(m, low, high).value;
    var target := VolumeBetween(m, low, high) + 1;
    if VolumeBetween(m, low', high') >= target {
      GrowUnfolds(m, low, high, target);
      GrowUnfolds(m, low', high', target);
      forall a, b | a <= poc <= b && b - a < high' - low'
        ensures VolumeBetween(m, a, b) <= VolumeBetween(m, low, high)
      {
        assert VolumeBetween(m, a, b) >= target ==> high' - low' <= b - a;
      }
    }
  }

  /** The value area is the smallest one for every target if and only if the growth is heaviest all the way. */
  lemma SmallestForEveryTargetIff(m: Buckets, poc: int)
    ensures (forall target: nat :: IsSmallest(m, poc, target)) <==> HeaviestOnTheWay(m, poc, poc, poc)
  {
    hide Volume, Grow, HeaviestOnTheWay, VolumeBetween;
    if HeaviestOnTheWay(m, poc, poc, poc) {
      forall target: nat ensures IsSmallest(m, poc, target) {
        GrowUnfolds(m, poc, poc, target);
        forall a, b | a <= poc <= b && VolumeBetween(m, a, b) >= target
          ensures Grow(m, poc, poc, target).1 - Grow(m, poc, poc, target).0 <= b - a
        {
          if VolumeBetween(m, poc, poc) < target { WayGivesSmallest(m, poc, poc, poc, target, a, b); }
        }
      }
    }
    if forall target: nat :: IsSmallest(m, poc, target) {
      forall target: nat, a, b | target > VolumeBetween(m, poc, poc) && a <= poc <= b
          && VolumeBetween(m, a, b) >= target
        ensures Grow(m, poc, poc, target).1 - Grow(m, poc, poc, target).0 <= b - a
      {
        assert IsSmallest(m, poc, target);
      }
      SmallestGivesWay(m, poc, poc, poc);
    }
  }

  // ----- a shape that makes it so -----

  /** Volume at a grid price; an empty bucket has none. */
  function VolumeAt(m: Buckets, k: int): nat {
    if k in m then m[k] else 0
  }

  /** Volumes do not rise from grid price to grid price on the way out from `poc`, empty buckets included. */
  ghost predicate FallsAwayOnGrid(m: Buckets, poc: int, step: nat)
    requires step > 0
  {
    forall j, k :: OnGrid(j, step) && OnGrid(k, step) && (k <= j <= poc || poc <= j <= k) ==>
        VolumeAt(m, j) >= VolumeAt(m, k)
  }

  /** So many buckets fit into a range. */
  lemma {:induction false} CountOnGrid(keys: set<int>, a: int, b: int, step: nat)
    requires step > 0 && a <= b + step
    requires forall k :: k in keys ==> a <= k <= b && OnGrid(k, step)
    ensures |keys| * step <= b - a + step
    decreases keys
  {
    if keys != {} {
      hide OnGrid;
      var top := BestPrice(Buy, keys);
      forall k | k in keys - {top} ensures k <= top - step { GridGap(k, top, step); }
      CountOnGrid(keys - {top}, a, top - step, step);
      assert |keys| * step == |keys - {top}| * step + step;
    }
  }

  lemma {:induction false} NoVolume(m: Buckets, keys: set<int>)
    requires keys <= m.Keys && forall k :: k in keys ==> m[k] == 0
    ensures Volume(m, keys) == 0
    decreases keys
  {
    if keys != {} { NoVolume(m, keys - {BestPrice(Sell, keys)}); }
  }

  /** Every bucket of the range is occupied, or there is no volume outside it. */
  ghost predicate Filled(m: Buckets, low: int, high: int, step: nat) {
    || |Inside(m.Keys, low, high)| * step == high - low + step
    || VolumeBetween(m, low, high) == Volume(m, m.Keys)
  }

  /** What every range of the growth keeps on such a profile. */
  ghost predicate Filling(m: Buckets, poc: int, low: int, high: int, step: nat)
    requires step > 0
  {
    && low <= poc <= high && OnGrid(low, step) && OnGrid(high, step)
    && (forall k :: k in m ==> OnGrid(k, step))
    && FallsAwayOnGrid(m, poc, step) && Dominates(m, Inside(m.Keys, low, high)) && Filled(m, low, high, step)
  }

  lemma OnGridFalls(m: Buckets, poc: int, step: nat)
    requires step > 0 && (forall k :: k in m ==> OnGrid(k, step)) && FallsAwayOnGrid(m, poc, step)
    ensures FallsAway(m, poc)
  {
    hide OnGrid;
    forall j, k | j in m && k in m && (k <= j <= poc || poc <= j <= k) ensures m[j] >= m[k] {
      assert VolumeAt(m, j) >= VolumeAt(m, k);
    }
  }

  /** The bucket that a step with a gain adds is the very next one. */
  lemma NextBucketAdjoins(m: Buckets, poc: int, low: int, high: int, step: nat)
    requires step > 0 && Filling(m, poc, low, high, step) && GrowOnce(m, low, high).Some?
    requires var (low', high') := GrowOnce(m, low, high).value; VolumeAt(m, if low' < low then low' else high') > 0
    ensures var (low', high') := GrowOnce(m, low, high).value; high' - low' == high - low + step
  {
    hide OnGrid, Dominates, Filled;
    var (low', high') := GrowOnce(m, low, high).value;
    GrowOnceAdds(m, low, high);
    GrowOnceTakesTheHeavier(m, low, high, low);
    GridNext(low, step);
    GridNext(high, step);
    if low' < low {
      GridGap(low', low, step);
      assert VolumeAt(m, low - step) >= VolumeAt(m, low');
    } else {
      GridGap(high, high', step);
      assert VolumeAt(m, high + step) >= VolumeAt(m, high');
    }
  }

  /** A range that is full of buckets and dominates is heaviest among all ranges hardly wider. */
  lemma FullIsHeaviest(m: Buckets, poc: int, low: int, high: int, step: nat)
    requires step > 0 && low <= high && (forall k :: k in m ==> OnGrid(k, step))
    requires Dominates(m, Inside(m.Keys, low, high)) && |Inside(m.Keys, low, high)| * step == high - low + step
    ensures NoneHeavier(m, poc, high - low + step, VolumeBetween(m, low, high))
  {
    hide OnGrid, Dominates, Volume;
    var n := |Inside(m.Keys, low, high)|;
    forall a, b | a <= poc <= b && b - a < high - low + step
      ensures VolumeBetween(m, a, b) <= VolumeBetween(m, low, high)
    {
      var other := Inside(m.Keys, a, b);
      CountOnGrid(other, a, b, step);
      FewerFit(|other|, n, step);
      DominatingIsMost(m, Inside(m.Keys, low, high), other);
    }
  }

  lemma FewerFit(k: nat, n: nat, step: nat)
    requires step > 0 && k * step < n * step + step
    ensures k <= n
  {
    MulFar(step, k - n);
    assert k * step == n * step + step * (k - n);
  }

  lemma NoGainMeansAll(m: Buckets, low: int, high: int, k: int)
    requires Dominates(m, Inside(m.Keys, low, high)) && k in Inside(m.Keys, low, high) && m[k] == 0
    ensures VolumeBetween(m, low, high) == Volume(m, m.Keys)
  {
    var inside := Inside(m.Keys, low, high);
    NoVolume(m, m.Keys - inside);
    assert m.Keys == inside + (m.Keys - inside);
    VolumeUnion(m, inside, m.Keys - inside);
  }

  lemma StepStaysFilled(m: Buckets, poc: int, low: int, high: int, step: nat)
    requires step > 0 && Filling(m, poc, low, high, step) && GrowOnce(m, low, high).Some?
    requires Dominates(m, Inside(m.Keys, GrowOnce(m, low, high).value.0, GrowOnce(m, low, high).value.1))
    ensures Filled(m, GrowOnce(m, low, high).value.0, GrowOnce(m, low, high).value.1, step)
  {
    hide OnGrid, Dominates, Volume, FallsAwayOnGrid, GrowOnce;
    var (low', high') := GrowOnce(m, low, high).value;
    var k := if low' < low then low' else high';
    var inside, grown := Inside(m.Keys, low, high), Inside(m.Keys, low', high');
    GrowOnceAdds(m, low, high);
    if m[k] == 0 {
      NoGainMeansAll(m, low', high', k);
    } else {
      NextBucketAdjoins(m, poc, low, high, step);
      VolumeSubset(m, grown, m.Keys);
      OneMoreBucket(|grown|, |inside|, step);
    }
  }

  lemma OneMoreBucket(n: nat, k: nat, step: nat)
    requires n == k + 1
    ensures n * step == k * step + step
  {
  }

  lemma GainIsHeaviest(m: Buckets, poc: int, low: int, high: int, step: nat)
    requires step > 0 && Filling(m, poc, low, high, step) && GrowOnce(m, low, high).Some?
    ensures var (low', high') := GrowOnce(m, low, high).value;
      VolumeBetween(m, low', high') > VolumeBetween(m, low, high) ==>
        NoneHeavier(m, poc, high' - low', VolumeBetween(m, low, high))
  {
    hide OnGrid, Dominates, Volume, FallsAwayOnGrid, GrowOnce, NoneHeavier;
    var (low', high') := GrowOnce(m, low, high).value;
    GrowOnceAdds(m, low, high);
    if VolumeBetween(m, low', high') > VolumeBetween(m, low, high) {
      NextBucketAdjoins(m, poc, low, high, step);
      VolumeSubset(m, Inside(m.Keys, low', high'), m.Keys);
      FullIsHeaviest(m, poc, low, high, step);
    }
  }

  lemma FillingGoesOn(m: Buckets, poc: int, low: int, high: int, step: nat)
    requires step > 0 && Filling(m, poc, low, high, step) && GrowOnce(m, low, high).Some?
    ensures Filling(m, poc, GrowOnce(m, low, high).value.0, GrowOnce(m, low, high).value.1, step)
  {
    hide OnGrid, Dominates, Volume, VolumeBetween, FallsAwayOnGrid, GrowOnce, FallsAway, Filled;
    OnGridFalls(m, poc, step);
    GrowOnceAdds(m, low, high);
    GrowOnceKeepsDominating(m, poc, low, high);
    StepStaysFilled(m, poc, low, high, step);
  }

  lemma {:induction false} FillingIsHeaviest(m: Buckets, poc: int, low: int, high: int, step: nat)
    requires step > 0 && Filling(m, poc, low, high, step)
    ensures HeaviestOnTheWay(m, poc, low, high)
    decreases Outside(m.Keys, low, high)
  {
    if GrowOnce(m, low, high).Some? {
      hide OnGrid, Filling, VolumeBetween, NoneHeavier, GrowOnce, HeaviestOnTheWay;
      var (low', high') := GrowOnce(m, low, high).value;
      FillingGoesOn(m, poc, low, high, step);
      GainIsHeaviest(m, poc, low, high, step);
      FillingIsHeaviest(m, poc, low', high', step);
      WayUnfolds(m, poc, low, high);
    }
  }

  /**
   If volume falls away from the point of control, gaps counting as no volume, the area is the smallest for
   every target.
   */
  lemma FallingProfilesGiveTheSmallestArea(m: Buckets, poc: int, step: nat, target: nat)
    requires step > 0 && (forall k :: k in m ==> OnGrid(k, step))
    requires IsPointOfControl(m, m.Keys, poc) && FallsAwayOnGrid(m, poc, step)
    ensures IsSmallest(m, poc, target)
  {
    hide OnGrid, Volume, FallsAwayOnGrid, HeaviestOnTheWay, IsSmallest;
    assert Inside(m.Keys, poc, poc) == {poc};
    FillingIsHeaviest(m, poc, poc, poc, step);
    SmallestForEveryTargetIff(m, poc);
  }

  const Lopsided: Buckets := map[-20 := 5, -10 := 5, 0 := 10, 10 := 4, 20 := 10]

  /**
   Without that shape the range need not be the smallest one around the point of control: here the
   70% area spans four buckets although three reach it.
   */
  lemma TheAreaNeedNotBeTheSmallest()
    ensures IsPointOfControl(Lopsided, Lopsided.Keys, 0)
    ensures Target(34, 0.7) == 24 && Grow(Lopsided, 0, 0, 24) == (-20, 10)
    ensures VolumeBetween(Lopsided, 0, 20) >= 24
    ensures !IsSmallest(Lopsided, 0, 24)
  {
    hide Volume, GrowOnce;
    LopsidedVolumes();
    LopsidedSteps();
    LopsidedRanges();
  }

  lemma LopsidedSteps()
    ensures GrowOnce(Lopsided, 0, 0) == Some((-10, 0))
    ensures GrowOnce(Lopsided, -10, 0) == Some((-20, 0))
    ensures GrowOnce(Lopsided, -20, 0) == Some((-20, 10))
  {
    var keys := Lopsided.Keys;
    assert -20 in keys && -10 in keys && 10 in keys;
    assert Neighbour(keys, 0, Buy) == Some(-10) && Neighbour(keys, 0, Sell) == Some(10);
    assert Neighbour(keys, -10, Buy) == Some(-20);
    assert Neighbour(keys, -20, Buy) == None;
  }

  lemma LopsidedVolumes()
    ensures Volume(Lopsided, Inside(Lopsided.Keys, 0, 0)) == 10
    ensures Volume(Lopsided, Inside(Lopsided.Keys, -10, 0)) == 15
    ensures Volume(Lopsided, Inside(Lopsided.Keys, -20, 0)) == 20
    ensures Volume(Lopsided, Inside(Lopsided.Keys, -20, 10)) == 24
    ensures Volume(Lopsided, Inside(Lopsided.Keys, 0, 20)) == 24
  {
    hide Volume;
    LopsidedRanges();
    EmptyVolume(Lopsided);
    var keys := Lopsided.Keys;
    assert -20 in keys && -10 in keys && 0 in keys && 10 in keys && 20 in keys;
    VolumeWith(Lopsided, {}, 0, {0});
    VolumeWith(Lopsided, {0}, -10, {-10, 0});
    VolumeWith(Lopsided, {-10, 0}, -20, {-20, -10, 0});
    VolumeWith(Lopsided, {-20, -10, 0}, 10, {-20, -10, 0, 10});
    VolumeWith(Lopsided, {0}, 10, {0, 10});
    VolumeWith(Lopsided, {0, 10}, 20, {0, 10, 20});
  }

  lemma LopsidedRanges()
    ensures Inside(Lopsided.Keys, 0, 0) == {0}
    ensures Inside(Lopsided.Keys, -10, 0) == {-10, 0}
    ensures Inside(Lopsided.Keys, -20, 0) == {-20, -10, 0}
    ensures Inside(Lopsided.Keys, -20, 10) == {-20, -10, 0, 10}
    ensures Inside(Lopsided.Keys, 0, 20) == {0, 10, 20}
  {
  }

  lemma VolumeWith(m: Buckets, keys: set<int>, k: int, all: set<int>)
    requires k !in keys && all == keys + {k} && all <= m.Keys
    ensures Volume(m, all) == m[k] + Volume(m, keys)
  {
    VolumeSplit(m, all, k);
    assert all - {k} == keys;
  }

  // ----- the whole profile -----

  datatype Level = Level(start: int, volume: nat)

  datatype VolumeProfile = VolumeProfile(
    levels: seq<Level>, poc: Option<int>, low: Option<int>, high: Option<int>, total: nat)

  function Levels(m: Buckets, keys: set<int>): seq<Level>
    requires keys <= m.Keys
    decreases keys
  {
    if keys == {} then []
    else var p := BestPrice(Sell, keys); [Level(p, m[p])] + Levels(m, keys - {p})
  }

  lemma {:induction false} LevelsListBuckets(m: Buckets, keys: set<int>)
    requires keys <= m.Keys
    ensures forall k :: k in keys ==> Level(k, m[k]) in Levels(m, keys)
    ensures forall i :: 0 <= i < |Levels(m, keys)| ==>
      Levels(m, keys)[i].start in keys && Levels(m, keys)[i].volume == m[Levels(m, keys)[i].start]
    ensures forall i, j :: 0 <= i < j < |Levels(m, keys)| ==> Levels(m, keys)[i].start < Levels(m, keys)[j].start
    decreases keys
  {
    if keys != {} {
      var p := BestPrice(Sell, keys);
      LevelsListBuckets(m, keys - {p});
      assert keys == keys - {p} + {p};
    }
  }

  /** The profile of a tape, read off its ticks. */
  ghost predicate IsVolumeProfile(p: VolumeProfile, ticks: seq<Tick>, size: nat, fraction: real)
    requires size > 0
  {
    exists m :: IsProfileOf(m, ticks, size) && m.Keys != {} && p.total == TotalQuantity(ticks)
      && p.levels == Levels(m, m.Keys)
      && p.poc.Some? && IsPointOfControl(m, m.Keys, p.poc.value)
      && p.low.Some? && p.high.Some?
      && IsValueArea(m, p.poc.value, p.low.value, p.high.value, Target(p.total, fraction))
      && (0.0 <= fraction <= 1.0 ==> VolumeBetween(m, p.low.value, p.high.value) as real >= p.total as real * fraction)
  }

  ghost predicate IsValueArea(m: Buckets, poc: int, low: int, high: int, target: nat) {
    var area := Inside(m.Keys, low, high);
    && low in m && high in m && low <= poc <= high
    && (Volume(m, area) >= target || area == m.Keys)
    && (target <= Volume(m, m.Keys) ==> Volume(m, area) >= target)
    && (low < high ==> Volume(m, area - {low}) < target || Volume(m, area - {high}) < target)
  }

  lemma GrowIsTheValueArea(m: Buckets, poc: int, fraction: real)
    requires poc in m
    ensures var total := Volume(m, m.Keys);
      var (l, h) := Grow(m, poc, poc, Target(total, fraction));
      && IsValueArea(m, poc, l, h, Target(total, fraction))
      && (0.0 <= fraction <= 1.0 ==> VolumeBetween(m, l, h) as real >= total as real * fraction)
  {
    hide Volume, Grow, Target;
    GrowReachesAndIsTight(m, poc, poc, Target(Volume(m, m.Keys), fraction));
  }

  lemma BucketsAreOnGrid(m: Buckets, ticks: seq<Tick>, size: nat)
    requires size > 0 && IsProfileOf(m, ticks, size)
    ensures forall k :: k in m ==> OnGrid(k, size)
  {
    hide OnGrid, BucketStart, Volume, TotalQuantity, BucketVolume;
    forall k | k in m ensures OnGrid(k, size) {
      assert Touched(ticks, size, k);
      var i :| 0 <= i < |ticks| && BucketStart(ticks[i].price, size) == k;
      BucketStartIsGrid(ticks[i].price, size, k);
    }
  }

  lemma ProfileOfBuckets(m: Buckets, ticks: seq<Tick>, size: nat, fraction: real)
    requires size > 0 && IsProfileOf(m, ticks, size) && m.Keys != {}
    ensures var total, poc := Volume(m, m.Keys), PointOfControl(m, m.Keys);
      var (l, h) := Grow(m, poc, poc, Target(total, fraction));
      IsVolumeProfile(VolumeProfile(Levels(m, m.Keys), Some(poc), Some(l), Some(h), total), ticks, size, fraction)
  {
    hide Volume, VolumeBetween, Target, Grow, Levels, IsValueArea, Touched, BucketVolume, TotalQuantity, PointOfControl;
    GrowIsTheValueArea(m, PointOfControl(m, m.Keys), fraction);
  }

  const EmptyProfileResult := VolumeProfile([], None, None, None, 0)

  method ComputeVolumeProfile(ticks: seq<Tick>, size: int, fraction: real) returns (p: VolumeProfile)
    ensures size <= 0 || ticks == [] ==> p == EmptyProfileResult
    ensures size > 0 && ticks != [] ==> IsVolumeProfile(p, ticks, size, fraction)
  {
    hide OnGrid, Volume, Target, Grow, Levels, IsProfileOf, IsVolumeProfile, BucketStart, Touched;
    if size <= 0 { return EmptyProfileResult; }
    var m := BucketVolumes(ticks, size);
    NoTicksNoBuckets(m, ticks, size);
    if m.Keys == {} { return EmptyProfileResult; }
    var total := Volume(m, m.Keys);
    var poc := PointOfControl(m, m.Keys);
    BucketsAreOnGrid(m, ticks, size);
    var low, high := ComputeValueAreaRange(m, poc, total, fraction, size);
    ProfileOfBuckets(m, ticks, size, fraction);
    p := VolumeProfile(Levels(m, m.Keys), Some(poc), Some(low), Some(high), total);
  }
}
