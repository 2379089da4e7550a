/**
 What becomes of a frame that arrives in two receives (server.c:406-438).

 The first receive leaves `rem` bytes and arms the READ behind them. `HalfWay` says that the buffer then
 starts with the first `rem` bytes of a certain frame: the one that was cut, if nothing came before it, or if the
 memmove brought it to the front; but the first frame of the receive, if the cut one had less than a header.
 The second receive completes whichever frame that is, if it counts enough bytes.
 */
module SplitFrames {
  import opened Base
  import opened Ops
  import opened PoolModel
  import opened ClientModel
  import opened Protocol
  import opened ServerState
  import opened ServerInvariant
  import opened ServerSteps
  import opened ServerRuns
  import opened ServerTheorems
  import opened Framing
  import opened FramingRuns
  import Boundaries

  /** The first `j` bytes of the frame are at the front of `k`'s buffer and its READ is armed behind them. */
  predicate HalfWay(s: State, k: nat, id: nat, r: Request, j: nat) {
    && Owner(s.pool, id, k) && s.pool.ops[id].kind == OpRead && s.pool.ops[id].buf.Some?
    && var p := s.pool.ops[id].buf.value;
    && |Pending(s.ring, id)| == 1 && Pending(s.ring, id)[0].RecvSqe?
    && Pending(s.ring, id)[0].off == j && Pending(s.ring, id)[0].buf == p
    && Resolves(s.mem, p) && j < |Encode(r)| <= |BufAt(s.mem, p).data|
    && BufAt(s.mem, p).data[..j] == Encode(r)[..j]
  }

  // --------------------------------------------------------------- the first receive

  lemma StopHalfWay(s: State, c: Completion, k: nat, p: Parsed, t: State, r: Request)
    requires Inv(s) && IsReceive(s, c, k) && ReadOn(s, c, p, t) && Fits(r) && p.end.rem < |Encode(r)|
    ensures HalfWay(t, k, c.id, r, p.end.rem) <==>
              Leftover(Received(s, c), p.end)[..p.end.rem] == Encode(r)[..p.end.rem]
  {
    assert Out(t.pool, c.id) && HoldsBuf(t.pool.ops[c.id], t.mem);
    BufSize(t.mem, s.pool.ops[c.id].buf.value);
  }

  lemma {:induction false} NoFrames(sent: seq<Sent>, clients: Clients, k: nat)
    requires k in clients
    ensures sent + Replies(k, []) == sent
    ensures clients[k := clients[k].(name := LastName(clients[k].name, []))] == clients
  {
  }

  /** A receive that parses to nothing: no reply, no change to the map, the READ armed behind the bytes. */
  lemma IncompleteReceive(s: State, c: Completion, k: nat) returns (t: State)
    requires Inv(s) && IsReceive(s, c, k)
    requires c.res <= |Received(s, c)| && Parse(Received(s, c), 0, c.res) == Parsed([], Stop(0, c.res, false))
    ensures Step(s, c) == Live(t) && ReadOn(s, c, Parsed([], Stop(0, c.res, false)), t)
    ensures Inv(t) && t.outbox == s.outbox && t.clients == s.clients
  {
    assert Out(s.pool, c.id);
    t := StepReadOn(s, c, Parsed([], Stop(0, c.res, false)));
    NoFrames(s.outbox, s.clients, k);
  }

  /** Nothing before the cut frame. */
  lemma FirstPart(s: State, c: Completion, k: nat, r: Request, j: nat)
    requires Inv(s) && IsReceive(s, c, k) && AtFront(s, k, c.id)
    requires Fits(r) && 0 < j < |Encode(r)| && c.data == Encode(r)[..j]
    ensures Step(s, c).Live?
    ensures var t := Step(s, c).s;
            Inv(t) && t.outbox == s.outbox && t.clients == s.clients && HalfWay(t, k, c.id, r, j)
  {
    ReceivedAtFront(s, c, k);
    WholeFrameOrNothing(Received(s, c), r, j);
    var t := IncompleteReceive(s, c, k);
    StopHalfWay(s, c, k, Parsed([], Stop(0, c.res, false)), t, r);
  }

  /** Whole frames, then a tail: the frames are handed over and the loop goes on at the tail. */
  lemma {:induction false} ParseStreamTail(d: seq<byte>, m: nat, rs: seq<Request>, tail: seq<byte>)
    requires m <= |d| && AllFit(rs) && d[..m] == Stream(rs) + tail
    ensures var n := |Stream(rs)|;
            && d[..n] == Stream(rs) && d[n..m] == tail
            && Continues(Parse(d, 0, m), FramesOf(rs), Parse(d, n, m - n))
  {
    var n := |Stream(rs)|;
    assert d[0..m] == d[..m];
    SliceSplit(d, 0, Stream(rs), tail);
    ParseStream(d, 0, m, rs, n, m - n);
  }

  lemma {:induction false} StreamStarts(rs: seq<Request>)
    requires |rs| > 0
    ensures |Stream(rs)| >= |Encode(rs[0])| >= PROT_HDR_LEN && Stream(rs)[..|Encode(rs[0])|] == Encode(rs[0])
  {
  }

  lemma {:induction false} ParseShort(d: seq<byte>, m: nat, rs: seq<Request>, tail: seq<byte>)
    requires m <= |d| && |rs| > 0 && AllFit(rs) && |tail| < PROT_HDR_LEN && d[..m] == Stream(rs) + tail
    ensures Parse(d, 0, m) == Parsed(FramesOf(rs), Stop(|Stream(rs)|, |tail|, false))
    ensures d[..|tail|] == Encode(rs[0])[..|tail|]
  {
    ParseStreamTail(d, m, rs, tail);
    StreamStarts(rs);
    assert FramesOf(rs) + [] == FramesOf(rs);
    assert d[..|tail|] == d[..|Stream(rs)|][..|tail|] == Stream(rs)[..|Encode(rs[0])|][..|tail|];
  }

  /**
   A tail of less than a header stays where it is, behind the frames; the READ is armed as if it were at the front.
   */
  lemma {:induction false} ShortTail(s: State, c: Completion, k: nat, rs: seq<Request>, tail: seq<byte>)
    requires Inv(s) && IsReceive(s, c, k) && AtFront(s, k, c.id)
    requires |rs| > 0 && AllFit(rs) && 0 < |tail| < PROT_HDR_LEN && c.data == Stream(rs) + tail
    ensures FramesIn(Live(s), c, k) == FramesOf(rs)
    ensures Step(s, c).Live? && k in Step(s, c).s.clients && HalfWay(Step(s, c).s, k, c.id, rs[0], |tail|)
  {
    ReceivedAtFront(s, c, k);
    ParseShort(Received(s, c), c.res, rs, tail);
    ShortTailStep(s, c, k, rs, |Stream(rs)|, |tail|);
  }

  lemma {:induction false} ShortTailStep(s: State, c: Completion, k: nat, rs: seq<Request>, n: nat, j: nat)
    requires Inv(s) && IsReceive(s, c, k) && |rs| > 0 && Fits(rs[0]) && j < |Encode(rs[0])|
    requires c.res <= |Received(s, c)| && j <= |Received(s, c)|
    requires Parse(Received(s, c), 0, c.res) == Parsed(FramesOf(rs), Stop(n, j, false))
    requires Received(s, c)[..j] == Encode(rs[0])[..j]
    ensures Step(s, c).Live? && k in Step(s, c).s.clients && HalfWay(Step(s, c).s, k, c.id, rs[0], j)
  {
    assert Out(s.pool, c.id);
    var p := Parsed(FramesOf(rs), Stop(n, j, false));
    var t := StepReadOn(s, c, p);
    StopHalfWay(s, c, k, p, t, rs[0]);
  }

  /** The header of `tail` is there and announces more bytes than are. */
  predicate Cut(tail: seq<byte>) {
    PROT_HDR_LEN <= |tail| < HdrLen(tail) <= LARGE
  }

  lemma {:induction false} ParseCut(d: seq<byte>, m: nat, rs: seq<Request>, tail: seq<byte>)
    requires m <= |d| && |rs| > 0 && AllFit(rs) && Cut(tail) && d[..m] == Stream(rs) + tail
    ensures Parse(d, 0, m) == Parsed(FramesOf(rs), Stop(|Stream(rs)|, |tail|, true))
  {
    var n := |Stream(rs)|;
    ParseStreamTail(d, m, rs, tail);
    StreamStarts(rs);
    SameHeader(d, n, m, tail);
    assert FramesOf(rs) + [] == FramesOf(rs);
  }

  lemma {:induction false} LongTailParsed(s: State, c: Completion, k: nat, rs: seq<Request>, tail: seq<byte>)
    requires Inv(s) && IsReceive(s, c, k) && AtFront(s, k, c.id)
    requires |rs| > 0 && AllFit(rs) && Cut(tail) && c.data == Stream(rs) + tail
    ensures c.res <= |Received(s, c)|
    ensures Parse(Received(s, c), 0, c.res) == Parsed(FramesOf(rs), Stop(|Stream(rs)|, |tail|, true))
  {
    ReceivedAtFront(s, c, k);
    ParseCut(Received(s, c), c.res, rs, tail);
  }

  /**
   A longer tail is moved to the front, and the memmove reads past the buffer exactly when the whole frames
   before it have more bytes than the tail.
   */
  lemma {:induction false} LongTail(s: State, c: Completion, k: nat, rs: seq<Request>, tail: seq<byte>)
    requires Inv(s) && IsReceive(s, c, k) && AtFront(s, k, c.id)
    requires |rs| > 0 && AllFit(rs) && Cut(tail) && c.data == Stream(rs) + tail
    ensures FramesIn(Live(s), c, k) == FramesOf(rs)
    ensures Step(s, c) == OverRead <==> |Stream(rs)| > |tail|
    ensures |Stream(rs)| <= |tail| ==>
              Step(s, c).Live? && ReadOn(s, c, Parsed(FramesOf(rs), Stop(|Stream(rs)|, |tail|, true)), Step(s, c).s)
  {
    var p := Parsed(FramesOf(rs), Stop(|Stream(rs)|, |tail|, true));
    LongTailParsed(s, c, k, rs, tail);
    assert Out(s.pool, c.id);
    if |Stream(rs)| > |tail| {
      StepOverReads(s, c, p);
    } else {
      var t := StepReadOn(s, c, p);
    }
  }

  /** Ordinary input does it: a request, and the first 11 bytes of a second. */
  lemma OverReadHappens(s: State, c: Completion, k: nat, a: Request, b: Request)
    requires Inv(s) && IsReceive(s, c, k) && AtFront(s, k, c.id)
    requires Fits(a) && Fits(b) && |a.name| > 0 && |b.name| > 0
    requires c.data == Encode(a) + Encode(b)[..PROT_HDR_LEN]
    ensures Step(s, c) == OverRead
  {
    var tail := Encode(b)[..PROT_HDR_LEN];
    assert tail == EncHeader(|Encode(b)|, MSGT_SET_USERNAME, b.seqid);
    HeaderFields(tail, |Encode(b)|, MSGT_SET_USERNAME, b.seqid);
    assert Stream([a]) == Encode(a) + Stream([]) == Encode(a);
    LongTail(s, c, k, [a], tail);
  }

  lemma CutRequest(r: Request, j: nat)
    requires Fits(r) && PROT_HDR_LEN <= j < |Encode(r)|
    ensures Cut(Encode(r)[..j])
  {
    var e := Encode(r);
    assert e[..j][..11] == e[..11] == EncHeader(|e|, MSGT_SET_USERNAME, r.seqid);
    HeaderFields(e[..j], |e|, MSGT_SET_USERNAME, r.seqid);
  }

  lemma {:induction false} TailAt(d: seq<byte>, m: nat, rs: seq<Request>, r: Request, j: nat)
    requires m <= |d| && |rs| > 0 && AllFit(rs) && j <= |Encode(r)| && d[..m] == Stream(rs) + Encode(r)[..j]
    ensures 0 < |Stream(rs)| && |Stream(rs)| + j == m
    ensures d[|Stream(rs)|..|Stream(rs)| + j] == Encode(r)[..j]
  {
    ParseStreamTail(d, m, rs, Encode(r)[..j]);
    StreamStarts(rs);
  }

  /**
   The memmove of `j` bytes behind `n` others brings them all to the front: they are at most half of the buffer, or
   the bytes it does not copy are the right ones already.
   */
  ghost predicate BringsAllIs(d: seq<byte>, n: nat, j: nat) {
    n + j <= |d| == LARGE && (2 * j <= LARGE || d[LARGE - j..j] == d[n + LARGE - j..n + j])
  }

  /** The same, unfolded only where `BringsAllIs` is named. */
  ghost predicate BringsAll(d: seq<byte>, n: nat, j: nat) {
    forall i {:trigger BringsAllIs(d, n, i)} :: i == j ==> BringsAllIs(d, n, i)
  }

  /** `part` is at the front after the loop has ended so. */
  ghost predicate LeavesIs(d: seq<byte>, end: Ending, part: seq<byte>) {
    && end.Stop? && end.rem <= |d| && (end.move ==> end.pos <= end.rem)
    && Leftover(d, end)[..end.rem] == part
  }

  /** The same, unfolded only where `LeavesIs` is named. */
  ghost predicate Leaves(d: seq<byte>, end: Ending, part: seq<byte>) {
    forall q {:trigger LeavesIs(d, end, q)} :: q == part ==> LeavesIs(d, end, q)
  }

  lemma StopLeaves(s: State, c: Completion, k: nat, p: Parsed, t: State, r: Request)
    requires Inv(s) && IsReceive(s, c, k) && ReadOn(s, c, p, t) && Fits(r) && p.end.rem < |Encode(r)|
    ensures HalfWay(t, k, c.id, r, p.end.rem) <==> Leaves(Received(s, c), p.end, Encode(r)[..p.end.rem])
  {
    StopHalfWay(s, c, k, p, t, r);
    LeavesMeans(Received(s, c), p.end, Encode(r)[..p.end.rem]);
  }

  lemma LeavesMeans(d: seq<byte>, end: Ending, part: seq<byte>)
    requires end.Stop? && end.rem <= |d| && (end.move ==> end.pos <= end.rem)
    ensures Leaves(d, end, part) <==> Leftover(d, end)[..end.rem] == part
  {
    assert Leaves(d, end, part) <==> LeavesIs(d, end, part);
  }

  lemma MovedLeaves(d: seq<byte>, n: nat, j: nat, part: seq<byte>)
    requires 0 < n <= j && n + j <= |d| == LARGE && d[n..n + j] == part
    ensures Leaves(d, Stop(n, j, true), part) <==> BringsAll(d, n, j)
  {
    MoveKeepsThis(d, n, j);
    assert BringsAll(d, n, j) <==> BringsAllIs(d, n, j);
    LeavesMeans(d, Stop(n, j, true), part);
  }

  lemma {:induction false} TailMoved(d: seq<byte>, m: nat, rs: seq<Request>, r: Request, j: nat)
    requires m <= |d| == LARGE && |rs| > 0 && AllFit(rs) && j <= |Encode(r)| && d[..m] == Stream(rs) + Encode(r)[..j]
    requires |Stream(rs)| <= j
    ensures |Stream(rs)| + j == m
    ensures Leaves(d, Stop(|Stream(rs)|, j, true), Encode(r)[..j]) <==> BringsAll(d, |Stream(rs)|, j)
  {
    TailAt(d, m, rs, r, j);
    MovedLeaves(d, |Stream(rs)|, j, Encode(r)[..j]);
  }

  /** Where the memmove stays inside, the cut frame is at the front if and only if the move brought all of it there. */
  lemma {:induction false} LongTailMoved(s: State, c: Completion, k: nat, rs: seq<Request>, r: Request, j: nat)
    requires Inv(s) && IsReceive(s, c, k) && AtFront(s, k, c.id)
    requires |rs| > 0 && AllFit(rs) && Fits(r) && PROT_HDR_LEN <= j < |Encode(r)|
    requires c.data == Stream(rs) + Encode(r)[..j] && |Stream(rs)| <= j
    ensures Step(s, c).Live? && |Received(s, c)| == LARGE && |Stream(rs)| + j == c.res <= LARGE
    ensures HalfWay(Step(s, c).s, k, c.id, r, j) <==> BringsAll(Received(s, c), |Stream(rs)|, j)
  {
    CutRequest(r, j);
    LongTail(s, c, k, rs, Encode(r)[..j]);
    ReceivedAtFront(s, c, k);
    TailMoved(Received(s, c), c.res, rs, r, j);
    var p := Parsed(FramesOf(rs), Stop(|Stream(rs)|, j, true));
    StopLeaves(s, c, k, p, Step(s, c).s, r);
  }

  // -------------------------------------------------------------- the second receive

  lemma SecondReceived(s: State, c: Completion, k: nat, r: Request, j: nat)
    requires Inv(s) && IsReceive(s, c, k) && HalfWay(s, k, c.id, r, j)
    ensures |Received(s, c)| == LARGE && c.res == |c.data| && j + c.res <= LARGE
    ensures Received(s, c)[..j + c.res] == Encode(r)[..j] + c.data
  {
    assert Out(s.pool, c.id);
    assert SubOk(s, c.id) && HoldsBuf(s.pool.ops[c.id], s.mem);
    BufSize(s.mem, s.pool.ops[c.id].buf.value);
  }

  lemma {:induction false} SplitWhole(d: seq<byte>, r: Request, j: nat, data: seq<byte>, more: seq<byte>)
    requires Fits(r) && 0 < j < |Encode(r)| <= |d| && j + |data| <= |d|
    requires data == Encode(r)[j..] + more && d[..j + |data|] == Encode(r)[..j] + data
    ensures StartsWith(Parse(d, 0, |data|).frames, FrameOf(r)) <==> |more| >= j
    ensures |more| < j ==> Parse(d, 0, |data|) == Parsed([], Stop(0, |data|, false))
  {
    var e := Encode(r);
    assert e[..j] + (e[j..] + more) == e + more;
    var m := Min(|data|, |e|);
    assert d[..m] == d[..j + |data|][..m] == (e + more)[..m] == e[..m];
    WholeFrameOrNothing(d, r, |data|);
  }

  /**
   The second part of a frame with `more` behind it. The frame is dispatched, whole, exactly when at least as many
   bytes follow as had arrived in the first part; otherwise the receive stores its bytes and nothing else happens.
   */
  lemma SplitFrameDispatch(s: State, c: Completion, k: nat, r: Request, j: nat, more: seq<byte>)
    requires Inv(s) && IsReceive(s, c, k) && HalfWay(s, k, c.id, r, j)
    requires Fits(r) && 0 < j && c.data == Encode(r)[j..] + more
    ensures StartsWith(FramesIn(Live(s), c, k), FrameOf(r)) <==> |more| >= j
    ensures |more| < j ==>
              && FramesIn(Live(s), c, k) == []
              && Step(s, c).Live?
              && var t := Step(s, c).s; Inv(t) && t.outbox == s.outbox && t.clients == s.clients
  {
    SecondReceived(s, c, k, r, j);
    SplitWhole(Received(s, c), r, j, c.data, more);
    if |more| < j { var t := IncompleteReceive(s, c, k); }
  }

  /** In particular a second part that arrives alone leaves the whole frame in the buffer, undispatched. */
  lemma SplitFrameLost(s: State, c: Completion, k: nat, r: Request, j: nat)
    requires Inv(s) && IsReceive(s, c, k) && HalfWay(s, k, c.id, r, j)
    requires Fits(r) && 0 < j && c.data == Encode(r)[j..]
    ensures |Encode(r)| <= |Received(s, c)| && Received(s, c)[..|Encode(r)|] == Encode(r)
    ensures Step(s, c).Live?
    ensures var t := Step(s, c).s; Inv(t) && t.outbox == s.outbox && t.clients == s.clients
  {
    var e := Encode(r);
    assert e[j..] + [] == e[j..] && e[..j] + e[j..] == e;
    SecondReceived(s, c, k, r, j);
    SplitFrameDispatch(s, c, k, r, j, []);
  }
}
