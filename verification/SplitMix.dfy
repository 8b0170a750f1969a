/** The SplitMix64 generator on 64-bit words, and why it does not repeat itself early. */
module SplitMix {
  import opened Words
  import opened Xor

  const Size: nat := 0x1_0000_0000_0000_0000

  type Word64 = w: nat | w < 0x1_0000_0000_0000_0000

  const Gamma: Word64 := 0x9E3779B97F4A7C15
  const GammaInverse: Word64 := 0xF1DE83E19937733D
  const FactorA: Word64 := 0xBF58476D1CE4E5B9
  const FactorAInverse: Word64 := 0x96DE1B173F119089
  const FactorB: Word64 := 0x94D049BB133111EB
  const FactorBInverse: Word64 := 0x319642B2D24D8EC3

  function WrappingAdd(v: Word64, w: Word64): Word64 {
    (v + w) % Size
  }

  function WrappingMul(v: Word64, w: Word64): Word64 {
    (v * w) % Size
  }

  lemma SizeIsPow2()
    ensures Pow2(64) == Size
  {
    hide Pow2;
    Pow2Of8();
    Pow2Splits(8, 8);
    Pow2Splits(16, 16);
    Pow2Splits(32, 32);
  }

  lemma Pow2Of8()
    ensures Pow2(8) == 0x100
  {
    assert Pow2(4) == 0x10;
    Pow2Splits(4, 4);
  }

  // ----- the output function and its inverse -----

  function Fold(z: Word64, k: nat): (y: Word64) {
    SizeIsPow2();
    ShrBelow(z, k);
    XorBelow(z, Shr(z, k), 64);
    Xor.Xor(z, Shr(z, k))
  }

  function Unfold(y: Word64, k: nat): (z: Word64) {
    ShrBelow(y, 2 * k);
    SizeIsPow2();
    XorBelow(Fold(y, k), Shr(y, 2 * k), 64);
    Xor.Xor(Fold(y, k), Shr(y, 2 * k))
  }

  lemma UndoFold(z: Word64, k: nat)
    requires 3 * k >= 64
    ensures Unfold(Fold(z, k), k) == z
    ensures Fold(Unfold(z, k), k) == z
  {
    hide Fold, Unfold;
    UnfoldFold(z, k);
    FoldUnfold(z, k);
  }

  /** ((z ^ z1) ^ (z1 ^ z2)) ^ z2, where z1 and z2 are z shifted once and twice. */
  lemma UnfoldFold(z: Word64, k: nat)
    requires 3 * k >= 64
    ensures Unfold(Fold(z, k), k) == z
  {
    hide Xor.Xor, Shr;
    var z1, z2 := Shr(z, k), Shr(z, 2 * k);
    ShrGone(z, k);
    ShrShr(z, k, k);
    ShrShr(z, k, 2 * k);
    ShrXor(z, z1, k);
    ShrXor(z, z1, 2 * k);
    XorSelf(z2);
    XorAssoc(Xor.Xor(z, z1), Xor.Xor(z1, z2), z2);
    XorUndoes(z1, z2);
    XorUndoes(z, z1);
  }

  /** ((z ^ z1) ^ z2) ^ (z1 ^ z2). */
  lemma FoldUnfold(z: Word64, k: nat)
    requires 3 * k >= 64
    ensures Fold(Unfold(z, k), k) == z
  {
    hide Xor.Xor, Shr;
    var z1, z2 := Shr(z, k), Shr(z, 2 * k);
    ShrGone(z, k);
    ShrShr(z, k, k);
    ShrShr(z, 2 * k, k);
    ShrXor(z, z1, k);
    ShrXor(Xor.Xor(z, z1), z2, k);
    XorSelf(Xor.Xor(z1, z2));
    XorAssoc(z, z1, z2);
    XorUndoes(z, Xor.Xor(z1, z2));
  }

  lemma ShrGone(z: Word64, k: nat)
    requires 3 * k >= 64
    ensures Shr(z, 3 * k) == 0
  {
    SizeIsPow2();
    ShrOut(z, 64);
    ShrShr(z, 64, 3 * k - 64);
    ShrOut(0, 3 * k - 64);
  }

  lemma UndoMul(w: Word64, f: Word64, g: Word64, q: nat)
    requires f * g == 1 + Size * q
    ensures WrappingMul(WrappingMul(w, f), g) == w
  {
    var product := w * f;
    var p := product / Size;
    assert product % Size == product - Size * p;
    assert (product - Size * p) * g == w * (f * g) - Size * (p * g);
    assert w * (1 + Size * q) == w + Size * (w * q);
    ModIs((product % Size) * g, Size, w * q - p * g, w);
  }

  function Mix(z: Word64): Word64 {
    Fold(WrappingMul(Fold(WrappingMul(Fold(z, 30), FactorA), 27), FactorB), 31)
  }

  function Unmix(y: Word64): Word64 {
    Unfold(WrappingMul(Unfold(WrappingMul(Unfold(y, 31), FactorBInverse), 27), FactorAInverse), 30)
  }

  lemma UndoFactors(w: Word64)
    ensures WrappingMul(WrappingMul(w, FactorA), FactorAInverse) == w
    ensures WrappingMul(WrappingMul(w, FactorAInverse), FactorA) == w
    ensures WrappingMul(WrappingMul(w, FactorB), FactorBInverse) == w
    ensures WrappingMul(WrappingMul(w, FactorBInverse), FactorB) == w
  {
    UndoMul(w, FactorA, FactorAInverse, FactorA * FactorAInverse / Size);
    UndoMul(w, FactorAInverse, FactorA, FactorA * FactorAInverse / Size);
    UndoMul(w, FactorB, FactorBInverse, FactorB * FactorBInverse / Size);
    UndoMul(w, FactorBInverse, FactorB, FactorB * FactorBInverse / Size);
  }

  /** The output function is a bijection on words. */
  lemma MixIsABijection(z: Word64)
    ensures Unmix(Mix(z)) == z
    ensures Mix(Unmix(z)) == z
  {
    hide Fold, Unfold, WrappingMul;
    var s := Fold(z, 30);
    var t := Fold(WrappingMul(s, FactorA), 27);
    UndoFold(z, 30);
    UndoFactors(s);
    UndoFold(WrappingMul(s, FactorA), 27);
    UndoFactors(t);
    UndoFold(WrappingMul(t, FactorB), 31);
    var y := Unfold(z, 31);
    var x := Unfold(WrappingMul(y, FactorBInverse), 27);
    UndoFold(WrappingMul(x, FactorAInverse), 30);
    UndoFactors(x);
    UndoFold(WrappingMul(y, FactorBInverse), 27);
    UndoFactors(y);
    UndoFold(z, 31);
  }

  // ----- the generator -----

  class SplitMix64 {
    var state: Word64

    constructor (seed: Word64)
      ensures state == seed
    {
      state := seed;
    }

    method NextU64() returns (r: Word64)
      modifies this
      ensures state == StateAfter(old(state), 1)
      ensures r == Draw(old(state), 0)
    {
      hide Fold, WrappingMul;
      state := WrappingAdd(state, Gamma);
      var z := state;
      z := WrappingMul(Fold(z, 30), FactorA);
      z := WrappingMul(Fold(z, 27), FactorB);
      r := Fold(z, 31);
    }

    method NextInRange(bound: nat) returns (r: nat)
      requires bound > 0
      modifies this
      ensures state == StateAfter(old(state), 1)
      ensures r < bound && r == Draw(old(state), 0) % bound
    {
      hide Draw, StateAfter;
      var draw := NextU64();
      r := draw % bound;
    }
  }

  function StateAfter(state: Word64, draws: nat): Word64 {
    if draws == 0 then state else WrappingAdd(StateAfter(state, draws - 1), Gamma)
  }

  /** The output of draw number `n`, counted from zero. */
  function Draw(state: Word64, n: nat): Word64 {
    Mix(StateAfter(state, n + 1))
  }

  lemma {:induction false} StateIsLinear(state: Word64, n: nat)
    ensures StateAfter(state, n) == (state + n * Gamma) % Size
  {
    if n > 0 {
      StateIsLinear(state, n - 1);
      ModAdd(state + (n - 1) * Gamma, Gamma, Size);
      assert state + (n - 1) * Gamma + Gamma == state + n * Gamma;
    }
  }

  lemma StatesAreDistinct(state: Word64, i: nat, j: nat)
    requires i < j < i + Size
    ensures StateAfter(state, i) != StateAfter(state, j)
  {
    StateIsLinear(state, i);
    StateIsLinear(state, j);
    if (state + i * Gamma) % Size == (state + j * Gamma) % Size {
      MultiplesDiffer(state + i * Gamma, state + j * Gamma, j - i);
    }
  }

  lemma MultiplesDiffer(a: nat, b: nat, d: nat)
    requires 0 < d < Size && b == a + d * Gamma
    ensures a % Size != b % Size
  {
    if a % Size == b % Size {
      SameRemainder(a, b);
      MultipleIsZero(d, b / Size - a / Size, GammaQuotient());
    }
  }

  lemma SameRemainder(a: nat, b: nat)
    requires a % Size == b % Size
    ensures b - a == Size * (b / Size - a / Size)
  {
  }

  function GammaQuotient(): (q: nat)
    ensures Gamma * GammaInverse == 1 + Size * q
  {
    Gamma * GammaInverse / Size
  }

  lemma MultipleIsZero(d: nat, t: int, q: nat)
    requires d < Size && d * Gamma == Size * t && Gamma * GammaInverse == 1 + Size * q
    ensures d == 0
  {
    assert d * (1 + Size * q) == (d * Gamma) * GammaInverse;
    assert d + Size * (d * q) == Size * (t * GammaInverse);
    MulZero(Size, t * GammaInverse - d * q, d);
  }

  /** Any 2^64 consecutive draws, from any state, are pairwise distinct. */
  lemma DrawsAreDistinct(state: Word64, i: nat, j: nat)
    requires i < j < i + Size
    ensures Draw(state, i) != Draw(state, j)
  {
    hide Mix, Unmix, StateAfter;
    StatesAreDistinct(state, i + 1, j + 1);
    MixIsABijection(StateAfter(state, i + 1));
    MixIsABijection(StateAfter(state, j + 1));
  }

  // ----- one stream per symbol -----

  /** Where the stream of the symbol at `index` starts. */
  function InitialState(seed: Word64, index: nat): (state: Word64)
    requires index + 1 < Size
  {
    var key := Draw(WrappingMul(index + 1, Gamma), 0);
    SizeIsPow2();
    XorBelow(seed, key, 64);
    Xor.Xor(seed, key)
  }

  /** Different symbols start from different states. */
  lemma SymbolsStartApart(seed: Word64, i: nat, j: nat)
    requires i < j && j + 1 < Size
    ensures InitialState(seed, i) != InitialState(seed, j)
  {
    hide Mix, Unmix, StateAfter;
    StreamKey(i);
    StreamKey(j);
    XorUndoes(seed, Mix(StateAfter(0, i + 2)));
    XorUndoes(seed, Mix(StateAfter(0, j + 2)));
    MixIsABijection(StateAfter(0, i + 2));
    MixIsABijection(StateAfter(0, j + 2));
    StatesAreDistinct(0, i + 2, j + 2);
  }

  lemma StreamKey(index: nat)
    requires index + 1 < Size
    ensures Draw(WrappingMul(index + 1, Gamma), 0) == Mix(StateAfter(0, index + 2))
  {
    hide Mix;
    StateIsLinear(0, index + 1);
    var s := WrappingMul(index + 1, Gamma);
    assert StateAfter(s, 1) == WrappingAdd(StateAfter(s, 0), Gamma);
  }

  /** How many draws lead from one state to another. */
  function ShiftTo(a: Word64, b: Word64): Word64 {
    WrappingMul((b - a) % Size, GammaInverse)
  }

  /** The streams are shifts of each other: from any state, every state is reached within 2^64 draws. */
  lemma StreamsAreShifts(a: Word64, b: Word64)
    ensures StateAfter(a, ShiftTo(a, b)) == b
  {
    hide WrappingMul, StateAfter;
    var d := (b - a) % Size;
    var n := WrappingMul(d, GammaInverse);
    StateIsLinear(a, n);
    UndoMul(d, GammaInverse, Gamma, GammaQuotient());
    TimesGammaIs(n, d);
    AddBack(a, b, n * Gamma);
  }

  lemma TimesGammaIs(n: Word64, d: Word64)
    requires WrappingMul(n, Gamma) == d
    ensures (n * Gamma) % Size == d
  {
  }

  lemma {:induction false} StatesCompose(state: Word64, i: nat, d: nat)
    ensures StateAfter(state, i + d) == StateAfter(StateAfter(state, i), d)
  {
    hide WrappingAdd;
    if d > 0 { StatesCompose(state, i, d - 1); }
  }

  /** After 2^64 draws the generator is back where it was. */
  lemma StatesRepeat(state: Word64, i: nat)
    ensures StateAfter(state, i + Size) == StateAfter(state, i)
  {
    hide StateAfter;
    StateIsLinear(state, i);
    StateIsLinear(state, i + Size);
    var a := state + i * Gamma;
    assert state + (i + Size) * Gamma == Size * (Gamma + a / Size) + a % Size;
    ModIs(state + (i + Size) * Gamma, Size, Gamma + a / Size, a % Size);
  }

  ghost predicate Disjoint(a: Word64, b: Word64, n: nat) {
    forall i: nat, j: nat :: i < n && j < n ==> Draw(a, i) != Draw(b, j)
  }

  /**
   The first draws of a stream and of the same stream `shift` draws later: disjoint up to the nearer meeting
   point.
   */
  lemma ShiftedStreamsDisjointIff(a: Word64, shift: nat, n: nat)
    requires 0 < shift < Size
    ensures Disjoint(a, StateAfter(a, shift), n) <==> n <= shift && n <= Size - shift
  {
    hide StateAfter, Draw;
    var b := StateAfter(a, shift);
    if n > shift {
      ShiftedDraw(a, shift, 0);
      assert Draw(a, shift) == Draw(b, 0);
    } else if n > Size - shift {
      ShiftedDraw(a, shift, Size - shift);
      DrawsRepeat(a);
      assert Draw(a, 0) == Draw(b, Size - shift);
    } else {
      forall i: nat, j: nat | i < n && j < n ensures Draw(a, i) != Draw(b, j) {
        ShiftedDraw(a, shift, j);
        DrawsAreDistinct(a, i, shift + j);
      }
    }
  }

  lemma ShiftedDraw(a: Word64, shift: nat, j: nat)
    ensures Draw(StateAfter(a, shift), j) == Draw(a, shift + j)
  {
    hide *;
    DrawIsMixed(a, shift + j);
    DrawIsMixed(StateAfter(a, shift), j);
    StatesCompose(a, shift, j + 1);
    assert shift + (j + 1) == shift + j + 1;
  }

  lemma DrawIsMixed(state: Word64, n: nat)
    ensures Draw(state, n) == Mix(StateAfter(state, n + 1))
  {
    hide Mix, StateAfter;
  }

  lemma DrawsRepeat(a: Word64)
    ensures Draw(a, Size) == Draw(a, 0)
  {
    hide StateAfter, Mix;
    StatesRepeat(a, 1);
  }

  /** How long two symbols draw different values: up to the shorter way round the cycle from one to the other. */
  lemma SymbolsDrawApartIff(seed: Word64, i: nat, j: nat, n: nat)
    requires i < j && j + 1 < Size
    ensures var a, b := InitialState(seed, i), InitialState(seed, j);
      Disjoint(a, b, n) <==> n <= ShiftTo(a, b) && n <= Size - ShiftTo(a, b)
  {
    hide StateAfter, Mix, InitialState, ShiftTo, Disjoint;
    var a, b := InitialState(seed, i), InitialState(seed, j);
    SymbolsStartApart(seed, i, j);
    StreamsAreShifts(a, b);
    NoShift(a);
    ShiftedStreamsDisjointIff(a, ShiftTo(a, b), n);
  }

  lemma NoShift(a: Word64)
    ensures StateAfter(a, 0) == a
  {
  }

  lemma AddBack(a: Word64, b: Word64, shift: nat)
    requires shift % Size == (b - a) % Size
    ensures (a + shift) % Size == b
  {
    var p, q := shift / Size, (b - a) / Size;
    assert a + shift == Size * (p - q) + b;
    ModIs(a + shift, Size, p - q, b);
  }

  /** Different seeds give a symbol different initial states. */
  lemma SeedsStartApart(seed: Word64, other: Word64, index: nat)
    requires index + 1 < Size && seed != other
    ensures InitialState(seed, index) != InitialState(other, index)
  {
    hide Draw, WrappingMul;
    var key := Draw(WrappingMul(index + 1, Gamma), 0);
    XorUndoes(seed, key);
    XorUndoes(other, key);
  }
}
