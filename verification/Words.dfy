/** Machine words as naturals below a power of two: wrap-around and masking. */
module Words {
  function Pow2(n: nat): (p: nat)
    ensures p >= 1
  {
    if n == 0 then 1 else 2 * Pow2(n - 1)
  }

  lemma {:induction false} Pow2Splits(a: nat, b: nat)
    ensures Pow2(a + b) == Pow2(a) * Pow2(b)
  {
    if a > 0 {
      Pow2Splits(a - 1, b);
      assert Pow2(a + b) == 2 * (Pow2(a - 1) * Pow2(b));
    }
  }

  lemma {:induction false} Pow2Grows(a: nat, b: nat)
    requires a < b
    ensures Pow2(a) < Pow2(b)
  {
    if a + 1 < b { Pow2Grows(a, b - 1); }
  }

  /** Bitwise and. */
  function And(a: nat, b: nat): nat {
    if a == 0 || b == 0 then 0
    else (if a % 2 == 1 && b % 2 == 1 then 1 else 0) + 2 * And(a / 2, b / 2)
  }

  lemma MulFar(m: int, d: int)
    requires m > 0
    ensures d >= 1 ==> m * d >= m
    ensures d <= -1 ==> m * d <= -m
  {
    if d >= 1 {
      assert m * d == m + m * (d - 1);
    } else if d <= -1 {
      assert m * d == -m + m * (d + 1);
    }
  }

  lemma MulZero(m: int, d: int, e: int)
    requires m * d == e && -m < e < m
    ensures d == 0
  {
    MulFar(m, d);
  }

  /** A remainder is the only value in range that differs by a multiple. */
  lemma ModIs(y: int, m: nat, t: int, x: int)
    requires m > 0 && 0 <= x < m && y == m * t + x
    ensures y % m == x
  {
    var q, r := y / m, y % m;
    assert y == m * q + r;
    assert m * (t - q) == m * t - m * q;
    MulZero(m, t - q, r - x);
  }

  lemma ModAdd(a: int, b: int, m: nat)
    requires m > 0
    ensures (a % m + b) % m == (a + b) % m
  {
    var q := a / m;
    var s, r := (a % m + b) / m, (a % m + b) % m;
    assert a + b == m * q + (m * s + r);
    assert m * q + m * s == m * (q + s);
    ModIs(a + b, m, q + s, r);
  }

  /** Two counters that differ by less than the modulus show their difference when wrapped. */
  lemma WrappedDifference(a: nat, b: nat, m: nat)
    requires b <= a < b + m
    ensures (a % m - b % m) % m == a - b
  {
    var qa, qb := a / m, b / m;
    assert a % m - b % m == (a - b) + m * (qb - qa) by {
      assert a == m * qa + a % m && b == m * qb + b % m;
      assert m * (qb - qa) == m * qb - m * qa;
    }
    ModIs(a % m - b % m, m, qb - qa, a - b);
  }

  lemma WrappedEqual(a: nat, b: nat, m: nat)
    requires b <= a < b + m
    ensures a % m == b % m <==> a == b
  {
    WrappedDifference(a, b, m);
    if a % m == b % m { ModIs(0, m, 0, 0); }
  }

  lemma WrappedNext(a: nat, m: nat)
    requires m > 0
    ensures (a % m + 1) % m == (a + 1) % m
  {
    ModAdd(a, 1, m);
  }

  lemma ModOfMultiple(a: nat, c: nat, n: nat)
    requires c > 0 && n > 0
    ensures c * n > 0 && (a % (c * n)) % c == a % c
  {
    var m := c * n;
    assert m > 0 by { assert c * n >= c * 1; }
    var q, r := a / m, a % m;
    var s := r / c;
    assert a == m * q + (c * s + r % c);
    assert m * q == c * (n * q);
    assert c * (n * q) + c * s == c * (n * q + s);
    ModIs(a, c, n * q + s, r % c);
  }

  lemma ModOfDouble(a: nat, p: nat)
    requires p > 0
    ensures a % (2 * p) == a % 2 + 2 * ((a / 2) % p)
  {
    var q, r := (a / 2) / p, (a / 2) % p;
    assert a == 2 * (p * q + r) + a % 2;
    assert 2 * (p * q) == (2 * p) * q;
    ModIs(a, 2 * p, q, 2 * r + a % 2);
  }

  /** Masking with `2^k - 1` is taking the remainder by `2^k`. */
  lemma {:induction false} MaskIsRemainder(a: nat, k: nat)
    ensures And(a, Pow2(k) - 1) == a % Pow2(k)
    decreases k
  {
    if k > 0 {
      var p := Pow2(k - 1);
      assert (2 * p - 1) / 2 == p - 1 && (2 * p - 1) % 2 == 1;
      MaskIsRemainder(a / 2, k - 1);
      ModOfDouble(a, p);
    }
  }
}
