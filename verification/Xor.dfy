/** Exclusive or and right shift of naturals, bit by bit. */
module Xor {
  import opened Words

  function Low(a: nat): (bit: nat)
    ensures bit < 2
  {
    a % 2
  }

  function Rest(a: nat): (rest: nat)
    ensures rest <= a && (a > 0 ==> rest < a)
  {
    a / 2
  }

  function Join(bit: nat, rest: nat): nat {
    bit + 2 * rest
  }

  lemma TakeApart(a: nat)
    ensures Join(Low(a), Rest(a)) == a
  {
    assert a == 2 * (a / 2) + a % 2;
  }

  lemma PutTogether(bit: nat, rest: nat)
    requires bit < 2
    ensures Low(Join(bit, rest)) == bit && Rest(Join(bit, rest)) == rest
  {
    var x := bit + 2 * rest;
    ModIs(x, 2, rest, bit);
    assert x == 2 * (x / 2) + x % 2;
  }

  function Flip(a: nat, b: nat): (bit: nat)
    ensures bit < 2
  {
    if a == b then 0 else 1
  }

  function Xor(a: nat, b: nat): nat
    decreases a + b
  {
    if a == 0 && b == 0 then 0 else Join(Flip(Low(a), Low(b)), Xor(Rest(a), Rest(b)))
  }

  function Shr(a: nat, k: nat): nat {
    if k == 0 then a else Shr(Rest(a), k - 1)
  }

  lemma XorParts(a: nat, b: nat)
    ensures Low(Xor(a, b)) == Flip(Low(a), Low(b)) && Rest(Xor(a, b)) == Xor(Rest(a), Rest(b))
  {
    hide Low, Rest, Join;
    PutTogether(Flip(Low(a), Low(b)), Xor(Rest(a), Rest(b)));
    if a == 0 && b == 0 { ZeroParts(); }
  }

  lemma ZeroParts()
    ensures Low(0) == 0 && Rest(0) == 0
  {
  }

  lemma {:induction false} XorAssoc(a: nat, b: nat, c: nat)
    ensures Xor(Xor(a, b), c) == Xor(a, Xor(b, c))
    decreases a + b + c
  {
    if a + b + c > 0 {
      hide Xor, Low, Rest, Join;
      XorAssoc(Rest(a), Rest(b), Rest(c));
      XorParts(a, b);
      XorParts(b, c);
      XorParts(Xor(a, b), c);
      XorParts(a, Xor(b, c));
      TakeApart(Xor(Xor(a, b), c));
      TakeApart(Xor(a, Xor(b, c)));
    }
  }

  lemma {:induction false} XorSelf(a: nat)
    ensures Xor(a, a) == 0 && Xor(a, 0) == a && Xor(0, a) == a
  {
    if a > 0 { XorSelf(Rest(a)); }
  }

  /** What has been mixed in twice is gone. */
  lemma XorUndoes(a: nat, b: nat)
    ensures Xor(Xor(a, b), b) == a && Xor(a, Xor(a, b)) == b
  {
    XorAssoc(a, b, b);
    XorAssoc(a, a, b);
    XorSelf(a);
    XorSelf(b);
  }

  lemma {:induction false} XorBelow(a: nat, b: nat, k: nat)
    requires a < Pow2(k) && b < Pow2(k)
    ensures Xor(a, b) < Pow2(k)
    decreases k
  {
    if k > 0 { XorBelow(Rest(a), Rest(b), k - 1); }
  }

  lemma {:induction false} ShrBelow(a: nat, k: nat)
    ensures Shr(a, k) <= a
    decreases k
  {
    if k > 0 { ShrBelow(Rest(a), k - 1); }
  }

  lemma {:induction false} ShrOut(a: nat, k: nat)
    requires a < Pow2(k)
    ensures Shr(a, k) == 0
    decreases k
  {
    if k > 0 { ShrOut(Rest(a), k - 1); }
  }

  lemma {:induction false} ShrShr(a: nat, i: nat, j: nat)
    ensures Shr(Shr(a, i), j) == Shr(a, i + j)
    decreases i
  {
    if i > 0 { ShrShr(Rest(a), i - 1, j); }
  }

  lemma {:induction false} ShrXor(a: nat, b: nat, k: nat)
    ensures Shr(Xor(a, b), k) == Xor(Shr(a, k), Shr(b, k))
    decreases k
  {
    if k > 0 {
      XorParts(a, b);
      ShrXor(Rest(a), Rest(b), k - 1);
    }
  }
}
