/** A frame in two receives, with any other completions in between. */
module SplitRuns {
  import opened Base
  import opened Ops
  import opened PoolModel
  import opened Protocol
  import opened ServerState
  import opened ServerInvariant
  import opened ServerSteps
  import opened ServerRuns
  import opened ServerTheorems
  import opened Framing
  import opened FramingRuns
  import opened SplitFrames
  import opened Splices

  predicate NoneOf(cs: seq<Completion>, id: nat) {
    forall i :: 0 <= i < |cs| ==> cs[i].id != id
  }

  lemma OtherKeepsHalfWay(s: State, c: Completion, k: nat, id: nat, r: Request, j: nat)
    requires Inv(s) && Allowed(s, c) && Step(s, c).Live? && c.id != id && HalfWay(s, k, id, r, j)
    ensures HalfWay(Step(s, c).s, k, id, r, j) && FramesIn(Live(s), c, k) == []
  {
    StepSafe(s, c);
    assert Untouched(s, id, Step(s, c).s);
    assert HoldsBuf(s.pool.ops[id], s.mem);
    assert InUse(s.mem, s.pool.ops[id].buf.value);
    assert IsReceive(s, c, k) ==> Owner(s.pool, c.id, k);
  }

  /** Other traffic changes nothing about a frame that is half there, and hands over nothing of its client. */
  lemma {:induction false} HalfWayLater(r: Outcome, mid: seq<Completion>, k: nat, id: nat, q: Request, j: nat)
    requires Safe(r) && r.Live? && HalfWay(r.s, k, id, q, j)
    requires NoneOf(mid, id) && RunFrom(r, mid).Live?
    ensures HalfWay(RunFrom(r, mid).s, k, id, q, j) && FramesRun(r, mid, k) == []
  {
    if |mid| > 0 {
      var n := |mid| - 1;
      var m := RunFrom(r, mid[..n]);
      HalfWayLater(r, mid[..n], k, id, q, j);
      RunFromSafe(r, mid[..n]);
      if Allowed(m.s, mid[n]) { OtherKeepsHalfWay(m.s, mid[n], k, id, q, j); }
    }
  }

  /** The state after the first part and the other traffic. */
  lemma ArrivesHalf(r: Outcome, mid: seq<Completion>, k: nat, id: nat, q: Request, j: nat) returns (m: Outcome)
    requires Safe(r) && r.Live? && HalfWay(r.s, k, id, q, j) && k in r.s.clients
    requires NoneOf(mid, id) && RunFrom(r, mid).Live? && k in RunFrom(r, mid).s.clients
    ensures m == RunFrom(r, mid) && Safe(m) && HalfWay(m.s, k, id, q, j) && Answered(r.s, m.s, k, [])
  {
    m := RunFrom(r, mid);
    RunFromSafe(r, mid);
    HalfWayLater(r, mid, k, id, q, j);
    ServedInOrder(r, mid, k);
  }

  /**
   First part of a frame, any other traffic, second part with `more` behind it: the frame is handed over if and only
   if `more` has at least as many bytes as the first part; if not, the client has been told nothing and its name is
   what it was before the first part.
   */
  lemma {:induction false} SplitRun(r: Outcome, c1: Completion, mid: seq<Completion>, c2: Completion, k: nat,
                                    q: Request, j: nat, more: seq<byte>)
    requires Safe(r) && r.Live? && IsReceive(r.s, c1, k) && AtFront(r.s, k, c1.id)
    requires Fits(q) && 0 < j < |Encode(q)| && c1.data == Encode(q)[..j] && NoneOf(mid, c1.id)
    requires var m := RunFrom(Next(r, c1), mid);
             m.Live? && IsReceive(m.s, c2, k) && c2.id == c1.id && c2.data == Encode(q)[j..] + more
    ensures var m := RunFrom(Next(r, c1), mid);
            && FramesIn(r, c1, k) == []
            && (StartsWith(FramesIn(m, c2, k), FrameOf(q)) <==> |more| >= j)
            && (|more| < j ==> Next(m, c2).Live? && Answered(r.s, Next(m, c2).s, k, []))
  {
    FirstPart(r.s, c1, k, q, j);
    FirstPartNothing(r.s, c1, k, q, j);
    var r1 := Next(r, c1);
    var m := ArrivesHalf(r1, mid, k, c1.id, q, j);
    SplitFrameDispatch(m.s, c2, k, q, j, more);
    if |more| < j {
      QuietAnswered(r.s, r1.s, k);
      QuietAnswered(m.s, Next(m, c2).s, k);
      AnsweredTrans(r.s, r1.s, m.s, k, [], []);
      AnsweredTrans(r.s, m.s, Next(m, c2).s, k, [], []);
    }
  }

  lemma FirstPartNothing(s: State, c: Completion, k: nat, r: Request, j: nat)
    requires Inv(s) && IsReceive(s, c, k) && AtFront(s, k, c.id)
    requires Fits(r) && 0 < j < |Encode(r)| && c.data == Encode(r)[..j]
    ensures FramesIn(Live(s), c, k) == []
  {
    ReceivedAtFront(s, c, k);
    WholeFrameOrNothing(Received(s, c), r, j);
  }

  /**
   Whole frames and a longer part of one more that the memmove brings to the front whole, any other traffic, the rest
   with `more` behind it: the cut frame is handed over if and only if `more` has at least as many bytes as that part.
   */
  lemma {:induction false} MovedRun(r: Outcome, c1: Completion, mid: seq<Completion>, c2: Completion, k: nat,
                                    rs: seq<Request>, b: Request, j: nat, more: seq<byte>)
    requires Safe(r) && r.Live? && IsReceive(r.s, c1, k) && AtFront(r.s, k, c1.id)
    requires |rs| > 0 && AllFit(rs) && Fits(b) && PROT_HDR_LEN <= j < |Encode(b)|
    requires |Stream(rs)| <= j && 2 * j <= LARGE
    requires c1.data == Stream(rs) + Encode(b)[..j] && NoneOf(mid, c1.id)
    requires var m := RunFrom(Next(r, c1), mid);
             m.Live? && IsReceive(m.s, c2, k) && c2.id == c1.id && c2.data == Encode(b)[j..] + more
    ensures FramesIn(r, c1, k) == FramesOf(rs)
    ensures StartsWith(FramesIn(RunFrom(Next(r, c1), mid), c2, k), FrameOf(b)) <==> |more| >= j
  {
    CutRequest(b, j);
    LongTail(r.s, c1, k, rs, Encode(b)[..j]);
    LongTailMoved(r.s, c1, k, rs, b, j);
    var r1 := Next(r, c1);
    NextSafe(r, c1);
    var m := ArrivesHalf(r1, mid, k, c1.id, b, j);
    SplitFrameDispatch(m.s, c2, k, b, j, more);
  }

  /**
   Whole frames and less than a header of one more, any other traffic, the rest of that one with `more` behind it: the
   frames before are handed over; then the splice of the first of them with the cut one, or nothing; or the process
   exits.
   */
  lemma {:induction false} SpliceRun(r: Outcome, c1: Completion, mid: seq<Completion>, c2: Completion, k: nat,
                                     rs: seq<Request>, b: Request, j: nat, more: seq<byte>)
    requires Safe(r) && r.Live? && IsReceive(r.s, c1, k) && AtFront(r.s, k, c1.id)
    requires |rs| > 0 && AllFit(rs) && Fits(b) && 0 < j < PROT_HDR_LEN
    requires c1.data == Stream(rs) + Encode(b)[..j] && NoneOf(mid, c1.id)
    requires var m := RunFrom(Next(r, c1), mid);
             m.Live? && IsReceive(m.s, c2, k) && c2.id == c1.id && c2.data == Encode(b)[j..] + more
    ensures FramesIn(r, c1, k) == FramesOf(rs)
    ensures SpliceHandled(RunFrom(Next(r, c1), mid).s, c2, k, rs[0], j, b, more)
  {
    ShortTail(r.s, c1, k, rs, Encode(b)[..j]);
    var r1 := Next(r, c1);
    NextSafe(r, c1);
    var m := ArrivesHalf(r1, mid, k, c1.id, rs[0], j);
    SpliceDispatch(m.s, c2, k, rs[0], j, b, more);
  }

  // ------------------------------------------------------------------ from start-up

  /** The first connection: the completion of the first ACCEPT arms a READ at the front of its buffer. */
  lemma FirstConnection(fd: nat) returns (accept: Completion, t: State)
    ensures Start().Live? && Allowed(Start().s, accept) && Step(Start().s, accept) == Live(t)
    ensures accept.res == fd && Inv(t) && 1 in t.clients && t.clients[1].fd == fd && AtFront(t, 1, accept.id)
    ensures Pending(t.ring, accept.id)[0].len == LARGE
  {
    StartInv();
    var s := Start().s;
    InvAccept(s);
    var a: nat :| IsAccept(s, a);
    accept := Completion(a, 0, fd, []);
    t := StepConnects(s, accept);
  }

  lemma TwoSteps(a: Completion, b: Completion, t: State)
    requires Start().Live? && Allowed(Start().s, a) && Step(Start().s, a) == Live(t) && Allowed(t, b)
    ensures Shape(t) && Run([a, b]) == Step(t, b)
  {
    assert [a, b][..1] == [a] && [a][..0] == [];
    assert RunFrom(Start(), []) == Start() && RunFrom(Start(), [a]) == Live(t);
  }

  lemma FirstReceive(t: State, id: nat, data: seq<byte>) returns (c: Completion)
    requires Inv(t) && 1 in t.clients && AtFront(t, 1, id) && Pending(t.ring, id)[0].len == LARGE
    requires 0 < |data| <= LARGE
    ensures c.id == id && c.data == data && IsReceive(t, c, 1)
  {
    c := Completion(id, 0, |data|, data);
  }

  /** The over-read two completions after start-up: one connection, and a request with the start of another. */
  lemma OverReadRun(fd: nat, a: Request, b: Request) returns (accept: Completion, recv: Completion)
    requires Fits(a) && Fits(b) && |a.name| > 0 && |b.name| > 0 && |Encode(a)| + PROT_HDR_LEN <= LARGE
    ensures accept.res == fd && recv.data == Encode(a) + Encode(b)[..PROT_HDR_LEN]
    ensures Run([accept, recv]) == OverRead
  {
    var t;
    accept, t := FirstConnection(fd);
    var data := Encode(a) + Encode(b)[..PROT_HDR_LEN];
    recv := FirstReceive(t, accept.id, data);
    OverReadHappens(t, recv, 1, a, b);
    TwoSteps(accept, recv, t);
  }
}
