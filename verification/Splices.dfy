/**
 What a tail of less than a header does to the next receive (server.c:407, server.c:507): the loop finds the front
 of the first frame of the last receive where it expects the front of the cut one.
 */
module Splices {
  import opened Base
  import opened Protocol
  import opened Wire
  import Bits
  import opened ServerState
  import opened ServerInvariant
  import opened ServerRuns
  import opened Framing
  import opened FramingRuns
  import opened SplitFrames

  /** The bytes the loop sees: `j` of frame `a`, then frame `b` without its first `j` bytes, then the rest. */
  function Spliced(a: Request, j: nat, b: Request, more: seq<byte>): (x: seq<byte>)
    requires j < PROT_HDR_LEN
    ensures |x| == |Encode(b)| + |more|
  {
    Encode(a)[..j] + Encode(b)[j..] + more
  }

  lemma {:induction false} TwoBytes(b: seq<byte>)
    requires |b| == 2
    ensures FromBe(b) == 256 * (b[0] as int) + b[1]
  {
    assert b[..1] == [b[0]] && b[..1][..0] == [];
    assert FromBe(b[..1]) == b[0];
  }

  lemma FirstBytes(r: Request)
    requires Fits(r)
    ensures var e := Encode(r); e[0] == |e| / 256 && e[1] == |e| % 256 && e[2] == MSGT_SET_USERNAME
  {
    var n := |Encode(r)|;
    assert Encode(r)[0] == Be(n, 2)[0] == Digit(n, 1) == Digit(n / 256, 0);
    assert Encode(r)[1] == Be(n, 2)[1] == Digit(n, 0);
  }

  /** The length and the type the loop reads. */
  lemma SplicedHeader(a: Request, j: nat, b: Request, more: seq<byte>)
    requires Fits(a) && Fits(b) && 0 < j < PROT_HDR_LEN
    ensures var x := Spliced(a, j, b, more);
            && HdrLen(x) == (if j == 1 then |Encode(a)| / 256 * 256 + |Encode(b)| % 256 else |Encode(a)|)
            && HdrType(x) == MSGT_SET_USERNAME
  {
    var x := Spliced(a, j, b, more);
    FirstBytes(a);
    FirstBytes(b);
    TwoBytes(x[0..2]);
  }

  lemma {:induction false} ParseAtFront(d: seq<byte>, n: nat, x: seq<byte>)
    requires PROT_HDR_LEN <= |x| <= |d| && n <= |x| && d[..|x|] == x && HdrType(x) == MSGT_SET_USERNAME
    ensures var len := HdrLen(x);
            if PROT_HDR_LEN <= n && 0 < len <= n && len <= LARGE then
              StartsWith(Parse(d, 0, n).frames, Frame(x[..len], HdrSeqid(x)))
            else
              Parse(d, 0, n).frames == [] && (PROT_HDR_LEN <= n && len == 0 ==> Parse(d, 0, n).end == Spin)
  {
    assert d[0..] == d;
    assert d[0..2] == x[0..2] && d[2] == x[2] && d[3..11] == x[3..11];
    if PROT_HDR_LEN <= n && 0 < HdrLen(x) <= n { assert d[0..0 + HdrLen(x)] == x[..HdrLen(x)]; }
  }

  /**
   What a receive makes of the splice: it is handed over at the length it declares if that many bytes are counted;
   if not, nothing is handed over; and where it declares none, the process exits.
   */
  ghost predicate SpliceHandled(s: State, c: Completion, k: nat, a: Request, j: nat, b: Request, more: seq<byte>)
    requires Shape(s) && Allowed(s, c) && 0 < j < PROT_HDR_LEN && Fits(a) && Fits(b)
  {
    var x, frames := Spliced(a, j, b, more), FramesIn(Live(s), c, k);
    var len := if j == 1 then |Encode(a)| / 256 * 256 + |Encode(b)| % 256 else |Encode(a)|;
    && |x| == j + c.res
    && (if 0 < len <= c.res then StartsWith(frames, Frame(x[..len], HdrSeqid(x))) else frames == [])
    && (len == 0 ==> Step(s, c) == Exited)
  }

  /**
   The receive after such a tail, from the state `ShortTail` describes: what is handed over first, if anything is,
   is the splice, cut to the length that the spliced header declares. If that is zero, the process exits.
   */
  lemma SpliceDispatch(s: State, c: Completion, k: nat, a: Request, j: nat, b: Request, more: seq<byte>)
    requires Inv(s) && IsReceive(s, c, k) && HalfWay(s, k, c.id, a, j)
    requires Fits(a) && Fits(b) && 0 < j < PROT_HDR_LEN && c.data == Encode(b)[j..] + more
    ensures SpliceHandled(s, c, k, a, j, b, more)
  {
    SecondReceived(s, c, k, a, j);
    SplicedData(a, j, b, more);
    SpliceParse(Received(s, c), c.res, a, j, b, more);
    if Parse(Received(s, c), 0, c.res).end == Spin { SpinExits(s, c, k); }
  }

  lemma {:induction false} SpliceParse(d: seq<byte>, n: nat, a: Request, j: nat, b: Request, more: seq<byte>)
    requires Fits(a) && Fits(b) && 0 < j < PROT_HDR_LEN && |Spliced(a, j, b, more)| == j + n <= |d| == LARGE
    requires d[..j + n] == Spliced(a, j, b, more)
    ensures var x, frames := Spliced(a, j, b, more), Parse(d, 0, n).frames;
            var len := if j == 1 then |Encode(a)| / 256 * 256 + |Encode(b)| % 256 else |Encode(a)|;
            && (if 0 < len <= n then StartsWith(frames, Frame(x[..len], HdrSeqid(x))) else frames == [])
            && (len == 0 ==> Parse(d, 0, n).end == Spin)
  {
    SplicedHeader(a, j, b, more);
    ParseAtFront(d, n, Spliced(a, j, b, more));
  }

  lemma SplicedData(a: Request, j: nat, b: Request, more: seq<byte>)
    requires j < PROT_HDR_LEN
    ensures Spliced(a, j, b, more) == Encode(a)[..j] + (Encode(b)[j..] + more)
  {
  }

  // ------------------------------------------------------------ when it is a frame that was sent

  /** Big-endian digits agree up to a place exactly when the numbers do, divided by the weight of that place. */
  lemma {:induction false} PrefixDigits(v: nat, w: nat, n: nat, i: nat)
    requires i <= n && v < Pow256(n) && w < Pow256(n)
    ensures Be(v, n)[..i] == Be(w, n)[..i] <==> v / Pow256(n - i) == w / Pow256(n - i)
  {
    if i == n {
      assert Be(v, n)[..n] == Be(v, n) && Be(w, n)[..n] == Be(w, n);
      FromBeOfBe(v, n);
      FromBeOfBe(w, n);
    } else {
      BeSnoc(v, n);
      BeSnoc(w, n);
      Shorter(v, n);
      Shorter(w, n);
      assert Be(v, n)[..i] == Be(v / 256, n - 1)[..i] && Be(w, n)[..i] == Be(w / 256, n - 1)[..i];
      PrefixDigits(v / 256, w / 256, n - 1, i);
      DivDiv(v, n - 1 - i);
      DivDiv(w, n - 1 - i);
    }
  }

  lemma Shorter(v: nat, n: nat)
    requires n > 0 && v < Pow256(n)
    ensures v / 256 < Pow256(n - 1)
  {
  }

  lemma DivDiv(v: nat, m: nat)
    ensures v / 256 / Pow256(m) == v / Pow256(m + 1)
  {
    var p := Pow256(m);
    var q, r := v / 256 / p, v / 256 % p;
    assert v == 256 * (p * q + r) + v % 256;
    assert 256 * (p * q) == q * (256 * p);
    Bits.ModUnique(v, 256 * p, q, 256 * r + v % 256);
  }

  /** The first `j` bytes of two frames agree: by the lengths and the leading bytes of the sequence ids. */
  predicate SameStart(a: Request, b: Request, j: nat)
    requires 0 < j < PROT_HDR_LEN
  {
    if j == 1 then |Encode(a)| / 256 == |Encode(b)| / 256
    else |Encode(a)| == |Encode(b)| && (j > 3 ==> a.seqid / Pow256(11 - j) == b.seqid / Pow256(11 - j))
  }

  lemma SameStartIff(a: Request, b: Request, j: nat)
    requires Fits(a) && Fits(b) && 0 < j < PROT_HDR_LEN
    ensures Encode(a)[..j] == Encode(b)[..j] <==> SameStart(a, b, j)
  {
    FirstBytes(a);
    FirstBytes(b);
    var x, y := Encode(a), Encode(b);
    if j == 1 {
      assert x[..1] == [x[0]] && y[..1] == [y[0]];
    } else if j == 2 {
      assert x[..2] == [x[0], x[1]] && y[..2] == [y[0], y[1]];
    } else {
      assert x[..j] == [x[0], x[1], x[2]] + EncWord(a.seqid)[..j - 3];
      assert y[..j] == [y[0], y[1], y[2]] + EncWord(b.seqid)[..j - 3];
      assert x[..j][3..] == EncWord(a.seqid)[..j - 3] && y[..j][3..] == EncWord(b.seqid)[..j - 3];
      assert x[..j][0] == x[0] && x[..j][1] == x[1] && y[..j][0] == y[0] && y[..j][1] == y[1];
      Pow256Values();
      PrefixDigits(a.seqid, b.seqid, 8, j - 3);
      if j == 3 { assert EncWord(a.seqid)[..0] == [] == EncWord(b.seqid)[..0]; }
    }
  }

  /**
   A dispatched splice is frame `b` exactly when the two frames start with the same `j` bytes, and frame `a`
   exactly when the bytes that follow happen to be the rest of `a`; otherwise it is a request that neither is.
   */
  lemma SpliceMeaning(a: Request, j: nat, b: Request, more: seq<byte>)
    requires Fits(a) && Fits(b) && 0 < j < PROT_HDR_LEN
    requires 0 < HdrLen(Spliced(a, j, b, more)) <= |Spliced(a, j, b, more)|
    ensures var x := Spliced(a, j, b, more);
            var f := Frame(x[..HdrLen(x)], HdrSeqid(x));
            && (f == FrameOf(b) <==> SameStart(a, b, j))
            && (f == FrameOf(a) <==> |Encode(a)| <= |x| && x[j..|Encode(a)|] == Encode(a)[j..])
  {
    var x := Spliced(a, j, b, more);
    SameStartIff(a, b, j);
    SpliceIs(x, a);
    SpliceIs(x, b);
    SplicedStarts(a, j, b, more);
  }

  /** Bytes that declare a length hand over a given frame exactly when they start with it. */
  lemma SpliceIs(x: seq<byte>, r: Request)
    requires Fits(r) && |x| >= PROT_HDR_LEN && 0 < HdrLen(x) <= |x|
    ensures Frame(x[..HdrLen(x)], HdrSeqid(x)) == FrameOf(r) <==> |Encode(r)| <= |x| && x[..|Encode(r)|] == Encode(r)
  {
    var e := Encode(r);
    if |e| <= |x| && x[..|e|] == e {
      assert x[..11] == e[..11] == EncHeader(|e|, MSGT_SET_USERNAME, r.seqid);
      HeaderFields(x, |e|, MSGT_SET_USERNAME, r.seqid);
    }
  }

  lemma SplicedStarts(a: Request, j: nat, b: Request, more: seq<byte>)
    requires 0 < j < PROT_HDR_LEN
    ensures var x := Spliced(a, j, b, more);
            && (x[..|Encode(b)|] == Encode(b) <==> Encode(a)[..j] == Encode(b)[..j])
            && (|Encode(a)| <= |x| ==> (x[..|Encode(a)|] == Encode(a) <==> x[j..|Encode(a)|] == Encode(a)[j..]))
  {
    var x, ea, eb := Spliced(a, j, b, more), Encode(a), Encode(b);
    assert x[..|eb|] == ea[..j] + eb[j..] && eb == eb[..j] + eb[j..];
    if x[..|eb|] == eb { assert x[..|eb|][..j] == ea[..j]; }
    if |ea| <= |x| {
      assert x[..|ea|] == ea[..j] + x[j..|ea|] && ea == ea[..j] + ea[j..];
      if x[..|ea|] == ea { assert x[..|ea|][j..] == x[j..|ea|]; }
    }
  }
}
