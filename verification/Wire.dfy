/**
 Host integers in memory and network byte order (utils.c, little-endian branch).

 `Le` is how a little-endian host lays a word out in memory, `Be` is network byte order
 (Appendix B of RFC 791). The swap functions are the ones the serializers call.
 */
module Wire {
  import opened Base
  import Bits

  function Pow256(n: nat): (p: nat)
    ensures p >= 1
  {
    if n == 0 then 1 else 256 * Pow256(n - 1)
  }

  /** The base-256 digit of weight 256^k. */
  function Digit(v: nat, k: nat): byte
    decreases k
  {
    if k == 0 then v % 256 else Digit(v / 256, k - 1)
  }

  function Le(v: nat, n: nat): seq<byte> {
    seq(n, i requires 0 <= i < n => Digit(v, i))
  }

  function Be(v: nat, n: nat): seq<byte> {
    seq(n, i requires 0 <= i < n => Digit(v, n - 1 - i))
  }

  function FromLe(bs: seq<byte>): (v: nat)
    ensures v < Pow256(|bs|)
  {
    if |bs| == 0 then 0 else bs[0] + 256 * FromLe(bs[1..])
  }

  /** The value of a field in network byte order. */
  function FromBe(bs: seq<byte>): (v: nat)
    ensures v < Pow256(|bs|)
  {
    if |bs| == 0 then 0 else 256 * FromBe(bs[..|bs| - 1]) + bs[|bs| - 1]
  }

  function Reverse(bs: seq<byte>): seq<byte> {
    seq(|bs|, i requires 0 <= i < |bs| => bs[|bs| - 1 - i])
  }

  /** `htons`, `htonl`: a word whose little-endian image is the network image of `v`. */
  function Swap(v: nat, n: nat): (r: nat)
    ensures r < Pow256(n)
  {
    FromLe(Be(v, n))
  }

  function Htons(v: nat): (r: nat) { Swap(v, 2) }

  function Htonl(v: nat): (r: nat) { Swap(v, 4) }

  function Htonll(v: u64): nat {
    Bits.Or(Htonl(v / U32), (Htonl(Bits.And(v, 0xFFFF_FFFF)) * U32) % U64)
  }

  function Ntohs(v: nat): nat { Swap(v, 2) }

  function Ntohl(v: nat): nat { Swap(v, 4) }

  function Ntohll(v: u64): nat {
    Bits.Or(Ntohl(v / U32), (Ntohl(Bits.And(v, 0xFFFF_FFFF)) * U32) % U64)
  }

  lemma LeCons(v: nat, n: nat)
    requires n > 0
    ensures Le(v, n) == [v % 256] + Le(v / 256, n - 1)
  {}

  lemma BeSnoc(v: nat, n: nat)
    requires n > 0
    ensures Be(v, n) == Be(v / 256, n - 1) + [v % 256]
  {
    var l, r := Be(v, n), Be(v / 256, n - 1) + [v % 256];
    forall i | 0 <= i < n ensures l[i] == r[i] {
      var k := n - 1 - i;
      assert Digit(v, k) == if k == 0 then v % 256 else Digit(v / 256, k - 1);
    }
  }

  lemma {:induction false} FromLeOfLe(v: nat, n: nat)
    requires v < Pow256(n)
    ensures FromLe(Le(v, n)) == v
    decreases n
  {
    if n > 0 {
      LeCons(v, n);
      FromLeOfLe(v / 256, n - 1);
    }
  }

  lemma {:induction false} LeOfFromLe(bs: seq<byte>)
    ensures Le(FromLe(bs), |bs|) == bs
  {
    if |bs| > 0 {
      var t := FromLe(bs[1..]);
      LeOfFromLe(bs[1..]);
      LeCons(bs[0] + 256 * t, |bs|);
    }
  }

  lemma {:induction false} FromBeOfBe(v: nat, n: nat)
    requires v < Pow256(n)
    ensures FromBe(Be(v, n)) == v
    decreases n
  {
    if n > 0 {
      BeSnoc(v, n);
      FromBeOfBe(v / 256, n - 1);
      assert Be(v, n)[..n - 1] == Be(v / 256, n - 1);
    }
  }

  lemma {:induction false} BeOfFromBe(bs: seq<byte>)
    ensures Be(FromBe(bs), |bs|) == bs
  {
    if |bs| > 0 {
      var init, last := bs[..|bs| - 1], bs[|bs| - 1];
      BeOfFromBe(init);
      BeSnoc(256 * FromBe(init) + last, |bs|);
    }
  }

  lemma {:induction false} FromBeIsFromLeReversed(bs: seq<byte>)
    ensures FromBe(bs) == FromLe(Reverse(bs))
  {
    if |bs| > 0 {
      var init := bs[..|bs| - 1];
      FromBeIsFromLeReversed(init);
      assert Reverse(bs)[1..] == Reverse(init);
    }
  }

  /** The network image is the memory image read backwards. */
  lemma BeIsReversedLe(v: nat, n: nat)
    ensures Be(v, n) == Reverse(Le(v, n))
  {}

  /** Loading a field with memcpy and swapping it gives its network-order value. */
  lemma {:induction false} SwapOfLoad(bs: seq<byte>)
    ensures Swap(FromLe(bs), |bs|) == FromBe(bs)
  {
    var v, n := FromLe(bs), |bs|;
    LeOfFromLe(bs);
    BeIsReversedLe(v, n);
    FromBeIsFromLeReversed(bs);
  }

  /** The swapped word, stored by a little-endian host, is in network byte order. */
  lemma SwapLayout(v: nat, n: nat)
    ensures Le(Swap(v, n), n) == Be(v, n)
  {
    LeOfFromLe(Be(v, n));
  }

  lemma {:induction false} SwapTwice(v: nat, n: nat)
    requires v < Pow256(n)
    ensures Swap(Swap(v, n), n) == v
  {
    SwapOfLoad(Be(v, n));
    FromBeOfBe(v, n);
  }

  lemma {:induction false} DigitSplit(a: nat, b: nat, m: nat, p: nat, k: nat)
    requires a < p == Pow256(m)
    ensures Digit(a + b * p, k) == if k < m then Digit(a, k) else Digit(b, k - m)
    decreases m
  {
    if m > 0 {
      var q := Pow256(m - 1);
      var t := b * q;
      assert b * p == 256 * t;
      assert (a + 256 * t) / 256 == a / 256 + t && (a + 256 * t) % 256 == a % 256;
      if k > 0 { DigitSplit(a / 256, b, m - 1, q, k - 1); }
    }
  }

  lemma Pow256Values()
    ensures Pow256(2) == 65536 && Pow256(4) == U32 && Pow256(8) == U64
  {
    assert Pow256(3) == 0x100_0000;
    assert Pow256(5) == 0x100_0000_0000;
    assert Pow256(6) == 0x1_0000_0000_0000;
    assert Pow256(7) == 0x100_0000_0000_0000;
  }

  /** Swapping the halves' bytes and exchanging the halves swaps the whole word. */
  lemma SwapHalves(hi: nat, lo: nat, m: nat, p: nat, x: nat, v: nat)
    requires lo < p == Pow256(m)
    requires x == Swap(hi, m) + Swap(lo, m) * p < Pow256(m + m)
    requires v == lo + hi * p
    ensures x == Swap(v, m + m)
  {
    var a, b := Swap(hi, m), Swap(lo, m);
    SwapLayout(hi, m);
    SwapLayout(lo, m);
    var l, r := Le(x, m + m), Be(v, m + m);
    forall i | 0 <= i < m + m
      ensures l[i] == r[i]
    {
      DigitSplit(a, b, m, p, i);
      DigitSplit(lo, hi, m, p, m + m - 1 - i);
      assert i < m ==> Le(a, m)[i] == Be(hi, m)[i];
      assert i >= m ==> Le(b, m)[i - m] == Be(lo, m)[i - m];
    }
    assert l == r;
    FromLeOfLe(x, m + m);
  }

  /** The two-half construction is the 8-byte swap. */
  lemma HtonllIsSwap(v: u64)
    ensures Htonll(v) == Swap(v, 8) < U64
  {
    var lo, hi := v % U32, v / U32;
    LowHalf(v);
    Pow256Values();
    OrHalves(Htonl(hi), Htonl(lo));
    SwapHalves(hi, lo, 4, U32, Htonl(hi) + Htonl(lo) * U32, v);
  }

  lemma {:induction false} LowHalf(v: nat)
    ensures Bits.And(v, 0xFFFF_FFFF) == v % U32
  {
    Bits.Pow2Of32();
    Bits.MaskIsMod(v, U32);
  }

  lemma {:induction false} OrHalves(a: nat, b: nat)
    requires a < U32 && b < U32
    ensures Bits.Or(a, (b * U32) % U64) == a + b * U32 < U64
  {
    assert (b * U32) % U64 == b * U32;
    Bits.OrDisjoint32(a, b);
  }

  /** `htonll` lays its argument out in network byte order. */
  lemma HtonllLayout(v: u64)
    ensures Htonll(v) < U64
    ensures Le(Htonll(v), 8) == Be(v, 8)
  {
    HtonllIsSwap(v);
    SwapLayout(v, 8);
  }

  /** `ntohll` undoes `htonll`, and since both are the same swap, `htonll` undoes `ntohll`. */
  lemma HtonllInverse(v: u64)
    ensures Htonll(v) < U64 && Ntohll(v) < U64
    ensures Ntohll(Htonll(v)) == v
    ensures Htonll(Ntohll(v)) == v
  {
    HtonllIsSwap(v);
    var w := Htonll(v);
    HtonllIsSwap(w);
    Pow256Values();
    SwapTwice(v, 8);
  }
}
