/**
 The prime search of utils.c:63-80, in `size_t` arithmetic: `i * i` wraps around at 2^64, yet `is_prime`
 decides primality for every 64-bit value.
 */
module Primes {
  import opened Base
  import Bits

  ghost predicate Prime(n: nat) {
    n >= 2 && forall d :: 2 <= d < n ==> n % d != 0
  }

  // ------------------------------------------------------------- trial division

  lemma Quotient(n: nat, d: nat) returns (e: nat)
    requires 2 <= d < n && n % d == 0
    ensures n == d * e && 2 <= e < n
  {
    e := n / d;
    assert n == d * e;
    AtMostOnce(d, e);
    TwiceAtMost(d, e);
  }

  lemma AtMostOnce(d: nat, e: nat)
    ensures e <= 1 ==> d * e <= d
  {
    assert e == 0 ==> d * e == 0;
    assert e == 1 ==> d * e == d;
  }

  lemma TwiceAtMost(d: nat, e: nat)
    requires 2 <= d
    ensures 2 * e <= d * e
  {
  }

  lemma MultipleMod(d: nat, e: nat)
    requires d > 0
    ensures (d * e) % d == 0
  {
    Bits.ModUnique(d * e, d, e, 0);
  }

  lemma EvenMultiple(d: nat, e: nat)
    requires d % 2 == 0
    ensures (d * e) % 2 == 0
  {
    var h: int := d / 2;
    assert d * e == 2 * (h * e);
  }

  lemma SmallerFactor(d: nat, e: nat, i: nat)
    requires d * e < i * i && d <= e
    ensures d < i
  {
    assert d >= i ==> d * e >= d * d >= i * i;
  }

  /** A proper factor no greater than its cofactor would have been found. */
  lemma FactorFound(n: nat, i: nat, d: nat, e: nat)
    requires n % 2 == 1 && n < i * i && n == d * e && 2 <= d <= e
    ensures 3 <= d < i && d % 2 == 1 && n % d == 0
  {
    SmallerFactor(d, e, i);
    MultipleMod(d, e);
    if d % 2 == 0 { EvenMultiple(d, e); }
  }

  ghost predicate NoOddFactor(n: nat, i: nat) {
    forall d :: 3 <= d < i && d % 2 == 1 ==> n % d != 0
  }

  lemma NextOdd(n: nat, i: nat)
    requires i >= 3 && i % 2 == 1 && NoOddFactor(n, i) && n % i != 0
    ensures NoOddFactor(n, i + 2)
  {
  }

  lemma NotPrime(n: nat, d: nat)
    requires 2 <= d < n && n % d == 0
    ensures !Prime(n)
  {
  }

  /** Trial division by the odd numbers up to the square root decides primality. */
  lemma TrialDivision(n: nat, i: nat)
    requires n >= 3 && n % 2 == 1 && n < i * i && NoOddFactor(n, i)
    ensures Prime(n)
  {
    forall d | 2 <= d < n ensures n % d != 0 {
      if n % d == 0 {
        var e := Quotient(n, d);
        if d <= e { FactorFound(n, i, d, e); } else { FactorFound(n, i, e, d); }
        assert false;
      }
    }
  }

  /** An odd number whose square is 7 short of a multiple of 2^64. */
  const LAST_SQUARE: u64 := 1852311383259529397

  lemma LastSquare()
    ensures LAST_SQUARE % 2 == 1 && (LAST_SQUARE * LAST_SQUARE) % U64 == U64 - 7
  {
  }

  /** An odd `i` at which the loop of `is_prime(n)` ends at the latest, by a factor or by the test. */
  function LastStep(n: u64): (i: u64) {
    if n == U64 - 3 then 13
    else if n == U64 - 5 then 11
    else if n >= U64 - 7 then 3
    else LAST_SQUARE
  }

  /** `i * i` in `size_t` arithmetic. */
  function Square(i: u64): u64 { (i * i) % U64 }

  /** Where the loop is: not past its last step, and past 2^32 only for an `n` above every square that fits. */
  ghost predicate InLoop(n: u64, i: u64) {
    i % 2 == 1 && 3 <= i <= LastStep(n) && (i < U32 || n >= (U32 - 1) * (U32 - 1))
  }

  /** While the test holds, `i` is below `n` and, unless it divides `n`, not at the last step. */
  lemma LoopGoesOn(n: u64, i: u64)
    requires n % 2 == 1 && n >= 3 && InLoop(n, i) && Square(i) <= n
    ensures i < n
    ensures n % i != 0 ==> i + 2 < U64 && InLoop(n, i + 2)
  {
    LastSquare();
    if i < U32 { SmallSquare(i); }
  }

  lemma SmallSquare(i: u64)
    requires 3 <= i < U32
    ensures Square(i) == i * i > i
  {
    SquareMono(i, U32 - 1);
    SquareMono(3, i);
    assert i * i >= 3 * i;
  }

  lemma SquareMono(a: nat, b: nat)
    requires a <= b
    ensures a * a <= b * b
  {
  }

  /** A wrapped square above `n` means the square is above `n`. */
  lemma SquareAbove(n: u64, i: u64)
    requires Square(i) > n
    ensures i * i > n
  {
    var x: nat := i * i;
    assert x % U64 <= x;
  }

  /** `i * i` and `i += 2` wrap around; the answer is right all the same, and the loop ends. */
  method IsPrime(n: u64) returns (prime: bool)
    ensures prime <==> Prime(n)
  {
    if n <= 1 { return false; }
    if n == 2 { return true; }
    if n % 2 == 0 {
      NotPrime(n, 2);
      return false;
    }
    var i: u64 := 3;
    while Square(i) <= n
      invariant InLoop(n, i) && NoOddFactor(n, i)
      decreases LastStep(n) - i
    {
      LoopGoesOn(n, i);
      if n % i == 0 {
        NotPrime(n, i);
        return false;
      }
      NextOdd(n, i);
      i := (i + 2) % U64;
    }
    SquareAbove(n, i);
    TrialDivision(n, i);
    return true;
  }

  // ------------------------------------------------------ infinitely many primes

  function Factorial(n: nat): (f: nat)
    ensures f >= 1
  {
    if n == 0 then 1 else Times(n, Factorial(n - 1))
  }

  function Times(a: nat, b: nat): (c: nat)
    ensures a >= 1 && b >= 1 ==> c >= 1
  {
    a * b
  }

  /** Some multiple of `d` is `n`. */
  ghost predicate Divides(d: nat, n: nat) { exists q: nat :: Times(d, q) == n }

  lemma DividesMod(d: nat, n: nat)
    requires d > 0
    ensures Divides(d, n) <==> n % d == 0
  {
    if n % d == 0 {
      assert Times(d, n / d) == n;
    }
    if Divides(d, n) {
      var q: nat :| Times(d, q) == n;
      MultipleMod(d, q);
    }
  }

  lemma DividesTrans(a: nat, b: nat, c: nat)
    requires Divides(a, b) && Divides(b, c)
    ensures Divides(a, c)
  {
    var p: nat :| Times(a, p) == b;
    var q: nat :| Times(b, q) == c;
    assert Times(a, p * q) == c by { assert a * (p * q) == (a * p) * q; }
  }

  lemma {:induction false} DividesFactorial(d: nat, n: nat)
    requires 1 <= d <= n
    ensures Divides(d, Factorial(n))
  {
    if d == n {
      assert Times(d, Factorial(n - 1)) == Factorial(n);
    } else {
      DividesFactorial(d, n - 1);
      assert Times(Factorial(n - 1), n) == Factorial(n);
      DividesTrans(d, Factorial(n - 1), Factorial(n));
    }
  }

  /** Every number from 2 on has a prime factor. */
  lemma {:induction false} PrimeFactor(n: nat) returns (p: nat)
    requires n >= 2
    ensures Prime(p) && Divides(p, n)
  {
    if Prime(n) {
      p := n;
      assert Times(n, 1) == n;
    } else {
      var d :| 2 <= d < n && n % d == 0;
      p := PrimeFactor(d);
      DividesMod(d, n);
      DividesTrans(p, d, n);
    }
  }

  lemma DividesBoth(d: nat, n: nat)
    requires d >= 2 && Divides(d, n)
    ensures !Divides(d, n + 1)
  {
    DividesMod(d, n);
    DividesMod(d, n + 1);
    var q := n / d;
    assert n == d * q;
    Bits.ModUnique(n + 1, d, q, 1);
  }

  /** Euclid: a prime factor of n! + 1 is above `n`. */
  lemma PrimeAbove(n: nat) returns (p: nat)
    ensures Prime(p) && p > n
  {
    p := PrimeFactor(Factorial(n) + 1);
    if p <= n {
      DividesFactorial(p, n);
      DividesBoth(p, Factorial(n));
      assert false;
    }
  }

  lemma {:induction false} LeastFrom(n: nat, p: nat) returns (q: nat)
    requires Prime(p) && n <= p
    ensures Prime(q) && n <= q <= p && forall m :: n <= m < q ==> !Prime(m)
    decreases p - n
  {
    if Prime(n) {
      q := n;
    } else {
      q := LeastFrom(n + 1, p);
    }
  }

  /** The least prime from `n` on; there always is one. */
  ghost function LeastPrime(n: nat): (p: nat)
    ensures Prime(p) && n <= p && forall m :: n <= m < p ==> !Prime(m)
  {
    assert exists p: nat :: Prime(p) && n <= p && forall m :: n <= m < p ==> !Prime(m) by {
      var above := PrimeAbove(n);
      var least := LeastFrom(n, above);
    }
    var p: nat :| Prime(p) && n <= p && forall m :: n <= m < p ==> !Prime(m);
    p
  }

  // --------------------------------------------------------------------- search

  /** The number of increments, modulo 2^64, from `m` to `p`. */
  function Ahead(m: u64, p: u64): nat {
    if m <= p then p - m else p + U64 - m
  }

  /**
   The search of `closest_prime`, with `n++` wrapping around: the least prime from `n` on if that fits
   64 bits, and 2 otherwise.
   */
  method ClosestPrime(n: u64) returns (p: u64)
    ensures p == if LeastPrime(n) < U64 then LeastPrime(n) else 2
  {
    ghost var target: u64 := if LeastPrime(n) < U64 then LeastPrime(n) else 2;
    assert Prime(2);
    p := n;
    var found := IsPrime(p);
    while !found
      invariant found <==> Prime(p)
      invariant if LeastPrime(n) < U64 || n <= p then n <= p <= LeastPrime(n) else p <= 2
      decreases Ahead(p, target)
    {
      p := (p + 1) % U64;
      found := IsPrime(p);
    }
  }
}
