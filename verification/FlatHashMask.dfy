/**
 `& mask` on a power-of-two capacity, in 64-bit arithmetic, is the cyclic
 arithmetic that the model of the table uses.
 */
module FlatHashMask {
  import opened Prelude
  import opened FlatHashSpec

  /** Bitwise and on naturals. */
  function And(x: nat, y: nat): nat {
    if x == 0 || y == 0 then 0
    else (if x % 2 == 1 && y % 2 == 1 then 1 else 0) + 2 * And(x / 2, y / 2)
  }

  lemma AndOdd(x: nat, p: nat)
    requires p > 0
    ensures And(x, 2 * p - 1) == x % 2 + 2 * And(x / 2, p - 1)
  {
    assert (2 * p - 1) / 2 == p - 1 && (2 * p - 1) % 2 == 1;
  }

  lemma {:induction false} AndMask(x: nat, k: nat)
    ensures And(x, Pow2(k) - 1) == x % Pow2(k)
  {
    if k > 0 {
      hide And;
      AndMask(x / 2, k - 1);
      AndOdd(x, Pow2(k - 1));
      HalfMod(x, Pow2(k - 1));
    }
  }

  lemma HalfMod(x: nat, p: nat)
    requires p > 0
    ensures x % (2 * p) == x % 2 + 2 * (x / 2 % p)
  {
    var q, r := x / 2 / p, x / 2 % p;
    assert x / 2 == q * p + r;
    assert x == (2 * p) * q + (2 * r + x % 2);
    ModUnique(x, 2 * p, q, 2 * r + x % 2);
  }

  lemma ModUnique(x: int, m: nat, q: int, r: nat)
    requires m > 0 && x == m * q + r && r < m
    ensures x % m == r
  {
    var d := x / m - q;
    assert x == m * (x / m) + x % m;
    assert m * d == r - x % m;
    assert d >= 1 ==> m * d >= m;
    assert d <= -1 ==> m * d <= 0 - m;
  }

  /** hash & mask, (home + i) & mask and (to - from) & mask are Home, Wrap and Dist. */
  lemma MaskIsCyclic(k: nat, h: Hash, key: Key, x: nat, from: nat, to: nat)
    requires k <= 64 && x < 2 * Pow2(k) && from < Pow2(k) && to < Pow2(k)
    ensures And(h(key), Pow2(k) - 1) == Home(h, key, Pow2(k))
    ensures And(x, Pow2(k) - 1) == Wrap(x, Pow2(k))
    ensures And((to - from) % TWO_64, Pow2(k) - 1) == Dist(from, to, Pow2(k))
  {
    var cap := Pow2(k);
    AndMask(h(key), k);
    AndMask(x, k);
    ModUnique(x, cap, if x < cap then 0 else 1, Wrap(x, cap));
    AndMask((to - from) % TWO_64, k);
    WrapDifference(k, from, to);
  }

  lemma WrapDifference(k: nat, from: nat, to: nat)
    requires k <= 64 && from < Pow2(k) && to < Pow2(k)
    ensures (to - from) % TWO_64 % Pow2(k) == Dist(from, to, Pow2(k))
  {
    hide Pow2;
    Pow2Sum(64 - k, k);
    Pow2Of64();
    WrapMultiple(TWO_64, Pow2(k), Pow2(64 - k), from, to);
  }

  lemma WrapMultiple(n: nat, cap: nat, c: nat, from: nat, to: nat)
    requires c > 0 && n == c * cap && from < cap && to < cap
    ensures (to - from) % n % cap == Dist(from, to, cap)
  {
    LastMultiple(n, cap, c);
    if from <= to {
      ModSmall(to - from, n);
      ModSmall(to - from, cap);
    } else {
      ModNegative(to - from, n);
      ModMultiple(cap, c - 1, cap + to - from);
    }
  }

  lemma LastMultiple(n: nat, cap: nat, c: nat)
    requires c > 0 && n == c * cap
    ensures n == cap * (c - 1) + cap && n >= cap
  {
    assert cap * (c - 1) >= 0;
  }

  lemma ModSmall(x: nat, n: nat)
    requires x < n
    ensures x % n == x
  {
  }

  lemma ModNegative(x: int, n: nat)
    requires 0 <= n + x && x < 0
    ensures x % n == n + x
  {
    ModUnique(x, n, -1, n + x);
  }

  lemma ModMultiple(cap: nat, c: nat, r: nat)
    requires r < cap
    ensures (cap * c + r) % cap == r
  {
    ModUnique(cap * c + r, cap, c, r);
  }

  lemma {:induction false} Pow2Sum(a: nat, b: nat)
    ensures Pow2(a) * Pow2(b) == Pow2(a + b)
  {
    hide Pow2;
    if a == 0 {
      Pow2Zero();
    } else {
      Pow2Sum(a - 1, b);
      Pow2Step(a - 1);
      Pow2Step(a - 1 + b);
      TwiceTimes(Pow2(a - 1), Pow2(b));
    }
  }

  lemma Pow2Zero()
    ensures Pow2(0) == 1
  {
  }

  lemma Pow2Step(k: nat)
    ensures Pow2(k + 1) == 2 * Pow2(k)
  {
  }

  lemma TwiceTimes(x: nat, y: nat)
    ensures (2 * x) * y == 2 * (x * y)
  {
  }

  lemma Pow2Of64()
    ensures Pow2(64) == TWO_64
  {
    hide Pow2;
    Pow2Zero();
    Pow2Step(0);
    Pow2Sum(1, 1);
    Pow2Sum(2, 2);
    Pow2Sum(4, 4);
    Pow2Sum(8, 8);
    Pow2Sum(16, 16);
    Pow2Sum(32, 32);
  }
}
