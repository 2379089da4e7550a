/**
 Frame boundaries in received bytes, read off the headers alone: where the parse loop of `handle_recv`
 gets to, and how it ends there (server.c:407-438).
 */
module Boundaries {
  import opened Base
  import opened Protocol
  import opened ServerState

  /** The header at `p` lies inside the first `n` bytes. */
  predicate HasHeader(data: seq<byte>, p: nat, n: nat) {
    p + PROT_HDR_LEN <= n <= |data|
  }

  /** A whole SET_USERNAME frame of `len` bytes starts at `p`. */
  predicate FrameAt(data: seq<byte>, p: nat, n: nat, len: nat) {
    && HasHeader(data, p, n) && HdrLen(data[p..]) == len && HdrType(data[p..]) == MSGT_SET_USERNAME
    && 0 < len <= LARGE && p + len <= n
  }

  /** Whole SET_USERNAME frames of these lengths follow one another from `p` on. */
  predicate Chain(data: seq<byte>, p: nat, n: nat, lens: seq<nat>)
    decreases |lens|
  {
    if |lens| == 0 then p <= n <= |data|
    else FrameAt(data, p, n, lens[0]) && Chain(data, p + lens[0], n, lens[1..])
  }

  /** A SET_USERNAME header that declares length zero. */
  predicate ZeroAt(data: seq<byte>, p: nat, n: nat) {
    HasHeader(data, p, n) && HdrLen(data[p..]) == 0 && HdrType(data[p..]) == MSGT_SET_USERNAME
  }

  /** The header of a frame, of whatever type, whose bytes are not all there. */
  predicate CutAt(data: seq<byte>, p: nat, n: nat) {
    HasHeader(data, p, n) && n - p < HdrLen(data[p..]) <= LARGE
  }

  /** A zero-length SET_USERNAME header follows whole frames. */
  ghost predicate ZeroFrame(data: seq<byte>, n: nat) {
    exists lens :: Chain(data, 0, n, lens) && ZeroAt(data, Sum(lens), n)
  }

  /** A frame that is not all there follows whole frames that are longer than what is there of it. */
  ghost predicate LateCut(data: seq<byte>, n: nat) {
    exists lens :: Chain(data, 0, n, lens) && CutAt(data, Sum(lens), n) && Sum(lens) > n - Sum(lens)
  }

  /** From `p` on the loop ends like this. */
  ghost predicate EndsIs(data: seq<byte>, p: nat, n: nat, end: Ending) {
    p <= n <= |data| && Parse(data, p, n - p).end == end
  }

  /** The same, unfolded only where `EndsIs` is named. */
  ghost predicate Ends(data: seq<byte>, p: nat, n: nat, end: Ending) {
    forall d {:trigger EndsIs(d, p, n, end)} :: d == data ==> EndsIs(d, p, n, end)
  }

  // One turn of the loop, by what the header at its position says.

  lemma TurnAtFrame(data: seq<byte>, p: nat, n: nat, len: nat, end: Ending)
    requires FrameAt(data, p, n, len) && Ends(data, p + len, n, end)
    ensures Ends(data, p, n, end)
  {
    assert EndsIs(data, p + len, n, end);
  }

  lemma TurnAtZero(data: seq<byte>, p: nat, n: nat)
    requires ZeroAt(data, p, n)
    ensures Ends(data, p, n, Spin)
  {
  }

  lemma TurnAtCut(data: seq<byte>, p: nat, n: nat)
    requires CutAt(data, p, n)
    ensures Ends(data, p, n, Stop(p, n - p, p != 0))
  {
  }

  lemma TurnElsewhere(data: seq<byte>, p: nat, n: nat) returns (end: Ending)
    requires p <= n <= |data| && !ZeroAt(data, p, n) && !CutAt(data, p, n)
    requires HasHeader(data, p, n) ==> !FrameAt(data, p, n, HdrLen(data[p..]))
    ensures Ends(data, p, n, end) && (end == Reject || end == Stop(p, n - p, false))
  {
    end := Parse(data, p, n - p).end;
  }

  /**
   One turn of the loop, read off the bytes: too long a length or a type other than 1 is refused, too few bytes are
   kept, a length of zero never ends, and everything else is handed over with the seqid in its header.
   */
  lemma {:induction false} TurnBytes(data: seq<byte>, p: nat, rem: nat)
    requires p + rem <= |data|
    ensures rem < 11 ==> Parse(data, p, rem) == Parsed([], Stop(p, rem, false))
    ensures rem >= 11 ==>
              var len, q := 0x100 * (data[p] as int) + (data[p + 1] as int), Parse(data, p, rem);
              && (len > 2048 ==> q == Parsed([], Reject))
              && (rem < len <= 2048 ==> q == Parsed([], Stop(p, rem, p != 0)))
              && (len <= rem && len <= 2048 && data[p + 2] != 1 ==> q == Parsed([], Reject))
              && (len == 0 && data[p + 2] == 1 ==> q == Parsed([], Spin))
              && (0 < len <= rem && len <= 2048 ==>
                    && (q.frames != [] <==> data[p + 2] == 1)
                    && (data[p + 2] == 1 ==> HandsOver(data, p, rem, len, q)))
  {
    if rem >= 11 { HeaderAt(data, p); }
  }

  /** A frame of `len` bytes with the seqid in its header, and then what the loop makes of the bytes behind it. */
  predicate HandsOver(data: seq<byte>, p: nat, rem: nat, len: nat, q: Parsed)
    requires p + rem <= |data| && rem >= 11 && len <= rem
  {
    && |q.frames| > 0 && q.frames[0].bytes == data[p..p + len] && WordAt(data, p + 3, q.frames[0].seqid)
    && q.frames[1..] == Parse(data, p + len, rem - len).frames && q.end == Parse(data, p + len, rem - len).end
  }

  lemma {:induction false} HeaderAt(data: seq<byte>, p: nat)
    requires p + 11 <= |data|
    ensures HdrLen(data[p..]) == 0x100 * (data[p] as int) + (data[p + 1] as int)
    ensures HdrType(data[p..]) == data[p + 2] && WordAt(data, p + 3, HdrSeqid(data[p..]))
  {
    var h := data[p..];
    HeaderBytes(h);
    assert forall i :: 0 <= i < 11 ==> h[i] == data[p + i];
  }

  /** The loop goes along whole frames to the first header that is not one of them. */
  lemma {:induction false} ChainParse(data: seq<byte>, p: nat, n: nat, lens: seq<nat>, end: Ending)
    requires Chain(data, p, n, lens) && Ends(data, p + Sum(lens), n, end)
    ensures Ends(data, p, n, end)
    decreases |lens|
  {
    if |lens| > 0 {
      ChainParse(data, p + lens[0], n, lens[1..], end);
      TurnAtFrame(data, p, n, lens[0], end);
    }
  }

  /** An ending that befits the header at `q`. */
  predicate Befits(data: seq<byte>, q: nat, n: nat, end: Ending) {
    && q <= n
    && (end.Spin? ==> ZeroAt(data, q, n))
    && (end.Stop? ==> end.pos == q && end.rem == n - q && (end.move ==> CutAt(data, q, n)))
  }

  lemma {:induction false} ParseChain(data: seq<byte>, p: nat, n: nat) returns (lens: seq<nat>, end: Ending)
    requires p <= n <= |data|
    ensures Chain(data, p, n, lens) && Befits(data, p + Sum(lens), n, end) && Ends(data, p, n, end)
    decreases n - p
  {
    lens := [];
    if ZeroAt(data, p, n) {
      TurnAtZero(data, p, n);
      end := Spin;
    } else if CutAt(data, p, n) {
      TurnAtCut(data, p, n);
      end := Stop(p, n - p, p != 0);
    } else if HasHeader(data, p, n) && FrameAt(data, p, n, HdrLen(data[p..])) {
      var len := HdrLen(data[p..]);
      var rest;
      rest, end := ParseChain(data, p + len, n);
      TurnAtFrame(data, p, n, len, end);
      lens := [len] + rest;
      assert lens[1..] == rest;
    } else {
      end := TurnElsewhere(data, p, n);
    }
  }

  lemma {:induction false} EndsUnique(data: seq<byte>, n: nat, end: Ending)
    requires Ends(data, 0, n, end)
    ensures n <= |data| && Parse(data, 0, n).end == end
  {
    assert EndsIs(data, 0, n, end);
  }

  /** The loop meets a zero-length frame exactly when there is one at a frame boundary it gets to. */
  lemma {:induction false} SpinIff(data: seq<byte>, n: nat)
    requires n <= |data|
    ensures Parse(data, 0, n).end.Spin? <==> ZeroFrame(data, n)
  {
    var lens, end := ParseChain(data, 0, n);
    EndsUnique(data, n, end);
    if ZeroFrame(data, n) {
      var ls :| Chain(data, 0, n, ls) && ZeroAt(data, Sum(ls), n);
      TurnAtZero(data, Sum(ls), n);
      ChainParse(data, 0, n, ls, Spin);
      EndsUnique(data, n, Spin);
    }
  }

  /** The memmove of an incomplete frame reads past the buffer exactly when more was consumed than is left. */
  predicate ReadsPast(end: Ending) { end.Stop? && end.move && end.pos > end.rem }

  lemma {:induction false} OverReadIff(data: seq<byte>, n: nat)
    requires n <= |data|
    ensures ReadsPast(Parse(data, 0, n).end) <==> LateCut(data, n)
  {
    if LateCut(data, n) {
      LateCutEnds(data, n);
    } else {
      var lens, end := ParseChain(data, 0, n);
      EndsUnique(data, n, end);
    }
  }

  lemma {:induction false} LateCutEnds(data: seq<byte>, n: nat)
    requires n <= |data| && LateCut(data, n)
    ensures ReadsPast(Parse(data, 0, n).end)
  {
    var ls :| Chain(data, 0, n, ls) && CutAt(data, Sum(ls), n) && Sum(ls) > n - Sum(ls);
    var q := Sum(ls);
    TurnAtCut(data, q, n);
    ChainParse(data, 0, n, ls, Stop(q, n - q, q != 0));
    EndsUnique(data, n, Stop(q, n - q, q != 0));
  }

  /** Where the loop of a zero-length frame stands after `m` turns, from `pos` with `rem` bytes left. */
  function TurnsFrom(data: seq<byte>, pos: nat, rem: nat, m: nat): (nat, nat)
    requires pos + rem <= |data|
    decreases m
  {
    if m == 0 || rem < PROT_HDR_LEN || HdrLen(data[pos..]) > rem then (pos, rem)
    else TurnsFrom(data, pos + HdrLen(data[pos..]), rem - HdrLen(data[pos..]), m - 1)
  }

  /** However many turns, it stays where it is. */
  lemma {:induction false} NoProgress(data: seq<byte>, pos: nat, n: nat, m: nat)
    requires ZeroAt(data, pos, n)
    ensures TurnsFrom(data, pos, n - pos, m) == (pos, n - pos)
  {
    if m > 0 { NoProgress(data, pos, n, m - 1); }
  }
}
