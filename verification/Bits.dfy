/** Bitwise operators on naturals, and what the C idioms built on them compute. */
module Bits {

  function Pow2(k: nat): (p: nat)
    ensures p >= 1
  {
    if k == 0 then 1 else 2 * Pow2(k - 1)
  }

  predicate IsPow2(n: nat) {
    n == 1 || (n > 1 && n % 2 == 0 && IsPow2(n / 2))
  }

  function And(x: nat, y: nat): nat
    decreases x
  {
    if x == 0 then 0 else 2 * And(x / 2, y / 2) + (if x % 2 == 1 && y % 2 == 1 then 1 else 0)
  }

  function Or(x: nat, y: nat): nat
    decreases x + y
  {
    if x == 0 && y == 0 then 0
    else 2 * Or(x / 2, y / 2) + (if x % 2 == 1 || y % 2 == 1 then 1 else 0)
  }

  /** `x & (n - 1)` is the remainder by `n` when `n` is a power of two. */
  lemma {:induction false} MaskIsMod(x: nat, n: nat)
    requires IsPow2(n)
    ensures And(x, n - 1) == x % n
    decreases n
  {
    if n == 1 {
      AndZero(x);
    } else if x == 0 {
      ModUnique(0, n, 0, 0);
    } else {
      var h := n / 2;
      assert n == 2 * h;
      MaskIsMod(x / 2, h);
      AndOdd(x, h);
      HalfMod(x, h);
    }
  }

  lemma AndOdd(x: nat, h: nat)
    requires x > 0 && h > 0
    ensures And(x, 2 * h - 1) == 2 * And(x / 2, h - 1) + x % 2
  {
    assert (2 * h - 1) / 2 == h - 1 && (2 * h - 1) % 2 == 1;
  }

  /** Long division by an even number, one bit at a time. */
  lemma HalfMod(x: nat, h: nat)
    requires h > 0
    ensures x % (2 * h) == 2 * (x / 2 % h) + x % 2
  {
    var q, r := x / 2 / h, x / 2 % h;
    assert x / 2 == q * h + r;
    assert q * (2 * h) == 2 * (q * h);
    ModUnique(x, 2 * h, q, 2 * r + x % 2);
  }

  lemma {:induction false} AndZero(x: nat)
    ensures And(x, 0) == 0
  {
    if x > 0 { AndZero(x / 2); }
  }

  lemma ModUnique(x: nat, n: nat, q: nat, r: nat)
    requires n > 0 && r < n && x == q * n + r
    ensures x % n == r && x / n == q
  {
    var d := x / n - q;
    assert d * n == x / n * n - q * n == r - x % n;
    assert d >= 1 ==> d * n >= n;
    assert d <= -1 ==> (-d) * n >= n;
  }

  /** Or of two words without common bits is their sum. */
  lemma {:induction false} OrDisjoint(low: nat, high: nat, k: nat, p: nat)
    requires low < p == Pow2(k)
    ensures Or(low, high * p) == low + high * p
    decreases k
  {
    if k == 0 {
      OrZero(high);
    } else {
      var h := Pow2(k - 1);
      assert high * p == 2 * (high * h);
      OrDisjoint(low / 2, high, k - 1, h);
    }
  }

  lemma {:induction false} OrDisjoint32(low: nat, high: nat)
    requires low < 0x1_0000_0000
    ensures Or(low, high * 0x1_0000_0000) == low + high * 0x1_0000_0000
  {
    Pow2Of32();
    OrDisjoint(low, high, 32, 0x1_0000_0000);
  }

  lemma {:induction false} OrZero(y: nat)
    ensures Or(0, y) == y
  {
    if y > 0 { OrZero(y / 2); }
  }

  /** Doubling keeps a power of two a power of two. */
  lemma {:induction false} DoublePow2(n: nat)
    requires IsPow2(n)
    ensures IsPow2(2 * n)
  {
    assert 2 * n / 2 == n;
  }

  lemma Pow2By8(k: nat)
    ensures Pow2(k + 8) == 256 * Pow2(k)
  {
    assert Pow2(k + 2) == 4 * Pow2(k);
    assert Pow2(k + 4) == 4 * Pow2(k + 2);
    assert Pow2(k + 6) == 4 * Pow2(k + 4);
    assert Pow2(k + 8) == 4 * Pow2(k + 6);
  }

  lemma {:induction false} Pow2IsPow2(k: nat)
    ensures IsPow2(Pow2(k))
  {
    if k > 0 {
      Pow2IsPow2(k - 1);
      DoublePow2(Pow2(k - 1));
    }
  }

  lemma Pow2Of32()
    ensures Pow2(32) == 0x1_0000_0000
    ensures IsPow2(0x1_0000_0000)
  {
    Pow2By8(0);
    Pow2By8(8);
    Pow2By8(16);
    Pow2By8(24);
    Pow2IsPow2(32);
  }
}
