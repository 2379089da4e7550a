/** Framing over whole runs, with every other client's traffic interleaved in any way. */
module FramingRuns {
  import opened Base
  import opened Ops
  import opened PoolModel
  import opened Protocol
  import opened ClientModel
  import opened ServerState
  import opened Boundaries
  import opened ServerInvariant
  import opened ServerSteps
  import opened ServerRuns
  import opened ServerTheorems
  import opened Framing

  /** The messages queued for one client, in order. */
  function Mail(sent: seq<Sent>, k: nat): seq<seq<byte>> {
    if |sent| == 0 then []
    else
      var last := sent[|sent| - 1];
      Mail(sent[..|sent| - 1], k) + (if last.client == k then [last.bytes] else [])
  }

  /** One reply per frame, in order. */
  function Answers(frames: seq<Frame>): seq<seq<byte>> {
    if |frames| == 0 then []
    else
      var f := frames[|frames| - 1];
      Answers(frames[..|frames| - 1]) + [ReplyBytes(f.bytes, f.seqid)]
  }

  /** Messages to one client. */
  function Tag(client: nat, bs: seq<seq<byte>>): seq<Sent> {
    if |bs| == 0 then [] else Tag(client, bs[..|bs| - 1]) + [Sent(client, bs[|bs| - 1])]
  }

  lemma {:induction false} RepliesTagged(client: nat, frames: seq<Frame>)
    ensures Replies(client, frames) == Tag(client, Answers(frames))
  {
    if |frames| > 0 {
      var init := frames[..|frames| - 1];
      RepliesTagged(client, init);
      assert Answers(frames)[..|Answers(init)|] == Answers(init);
    }
  }

  lemma {:induction false} MailOfTagged(sent: seq<Sent>, client: nat, bs: seq<seq<byte>>, k: nat)
    ensures Mail(sent + Tag(client, bs), k) == Mail(sent, k) + (if client == k then bs else [])
  {
    if |bs| == 0 {
      assert sent + [] == sent;
    } else {
      var init, last := bs[..|bs| - 1], Sent(client, bs[|bs| - 1]);
      MailOfTagged(sent, client, init, k);
      SnocAssoc(sent, Tag(client, init), last);
      MailSnoc(sent + Tag(client, init), last, k);
      SnocAssoc(Mail(sent, k), init, last.bytes);
      assert init + [last.bytes] == bs;
    }
  }

  lemma {:induction false} MailOfReplies(sent: seq<Sent>, client: nat, frames: seq<Frame>, k: nat)
    ensures Mail(sent + Replies(client, frames), k) == Mail(sent, k) + (if client == k then Answers(frames) else [])
  {
    RepliesTagged(client, frames);
    MailOfTagged(sent, client, Answers(frames), k);
  }

  lemma {:induction false} MailSnoc(sent: seq<Sent>, last: Sent, k: nat)
    ensures Mail(sent + [last], k) == Mail(sent, k) + (if last.client == k then [last.bytes] else [])
  {
    assert (sent + [last])[..|sent|] == sent;
  }

  /** The completion is a non-empty receive by the connected client `k`. */
  predicate IsReceive(s: State, c: Completion, k: nat) {
    && Allowed(s, c) && c.id < |s.pool.ops| && c.res > 0
    && s.pool.ops[c.id].kind == OpRead && s.pool.ops[c.id].clientId == k && k in s.clients
  }

  /** The frames of `k` that one completion hands to `handle`. */
  function FramesIn(r: Outcome, c: Completion, k: nat): seq<Frame>
    requires r.Live? ==> Shape(r.s)
  {
    if r.Live? && IsReceive(r.s, c, k) && c.res <= |Received(r.s, c)|
    then Parse(Received(r.s, c), 0, c.res).frames
    else []
  }

  function FramesRun(r: Outcome, cs: seq<Completion>, k: nat): seq<Frame>
    requires r.Live? ==> Shape(r.s)
  {
    if |cs| == 0 then []
    else FramesRun(r, cs[..|cs| - 1], k) + FramesIn(RunFrom(r, cs[..|cs| - 1]), cs[|cs| - 1], k)
  }

  /** What `k` has been told and what is stored for it follow from its frames alone. */
  ghost predicate Answered(s: State, t: State, k: nat, frames: seq<Frame>) {
    && k in s.clients && k in t.clients
    && Mail(t.outbox, k) == Mail(s.outbox, k) + Answers(frames)
    && t.clients[k].name == LastName(s.clients[k].name, frames)
  }

  lemma QuietAnswered(s: State, t: State, k: nat)
    requires k in s.clients && k in t.clients && t.outbox == s.outbox && t.clients[k].name == s.clients[k].name
    ensures Answered(s, t, k, [])
  {
    assert Mail(s.outbox, k) + [] == Mail(s.outbox, k);
  }

  lemma {:induction false} RepliesAnswered(s: State, t: State, k: nat, client: nat, frames: seq<Frame>,
                                           mine: seq<Frame>)
    requires k in s.clients && k in t.clients && t.outbox == s.outbox + Replies(client, frames)
    requires mine == if client == k then frames else []
    requires t.clients[k].name == LastName(s.clients[k].name, mine)
    ensures Answered(s, t, k, mine)
  {
    MailOfReplies(s.outbox, client, frames, k);
  }

  lemma StepAnswered(s: State, c: Completion, k: nat, t: State, mine: seq<Frame>)
    requires Inv(s) && Allowed(s, c) && c.id < |s.pool.ops| && Outcomes(s, c, t)
    requires k in s.clients && k in t.clients && mine == FramesIn(Live(s), c, k)
    ensures Answered(s, t, k, mine)
  {
    if Ended(s, c.id, t) || Wrote(s, c, t) || Connects(s, c, t) {
      StepQuiet(s, c, k, t);
    } else {
      StepServes(s, c, k, t);
    }
  }

  /** Completions that hand over no frames of `k`. */
  lemma StepQuiet(s: State, c: Completion, k: nat, t: State)
    requires Inv(s) && Allowed(s, c) && c.id < |s.pool.ops|
    requires Ended(s, c.id, t) || Wrote(s, c, t) || Connects(s, c, t)
    requires k in s.clients && k in t.clients
    ensures FramesIn(Live(s), c, k) == [] && Answered(s, t, k, [])
  {
    QuietAnswered(s, t, k);
  }

  /** Receives that keep the connection, and those that end it after serving. */
  lemma StepServes(s: State, c: Completion, k: nat, t: State)
    requires Inv(s) && Allowed(s, c) && c.id < |s.pool.ops| && 0 < c.res <= |Received(s, c)|
    requires var p := Parse(Received(s, c), 0, c.res); ReadOn(s, c, p, t) || ReadOff(s, c.id, p.frames, t)
    requires k in s.clients && k in t.clients
    ensures Answered(s, t, k, FramesIn(Live(s), c, k))
  {
    var p := Parse(Received(s, c), 0, c.res);
    RepliesAnswered(s, t, k, s.pool.ops[c.id].clientId, p.frames, FramesIn(Live(s), c, k));
  }

  lemma {:induction false} AnswersAppend(a: seq<Frame>, b: seq<Frame>, name: seq<byte>)
    ensures Answers(a + b) == Answers(a) + Answers(b)
    ensures LastName(name, a + b) == LastName(LastName(name, a), b)
  {
    if |b| == 0 {
      assert a + b == a;
    } else {
      var init := b[..|b| - 1];
      AnswersAppend(a, init, name);
      assert (a + b)[..|a + b| - 1] == a + init;
    }
  }

  lemma AnsweredTrans(s: State, t: State, u: State, k: nat, a: seq<Frame>, b: seq<Frame>)
    requires Answered(s, t, k, a) && Answered(t, u, k, b)
    ensures Answered(s, u, k, a + b)
  {
    AnswersAppend(a, b, s.clients[k].name);
    Assoc(Mail(s.outbox, k), Answers(a), Answers(b));
  }

  lemma NextAnswered(r: Outcome, c: Completion, k: nat)
    requires Safe(r) && r.Live? && Next(r, c).Live? && k in r.s.clients && k in Next(r, c).s.clients
    ensures Answered(r.s, Next(r, c).s, k, FramesIn(r, c, k))
  {
    if Allowed(r.s, c) {
      StepSafe(r.s, c);
      StepAnswered(r.s, c, k, Next(r, c).s, FramesIn(r, c, k));
    } else {
      QuietAnswered(r.s, r.s, k);
    }
  }

  /**
   Over every run during which `k` stays connected, whatever the other clients do: `k` is sent exactly one
   reply per frame its receives hand to `handle`, in order, and its stored name is the last good one.
   */
  lemma {:induction false} ServedInOrder(r: Outcome, cs: seq<Completion>, k: nat)
    requires Safe(r) && r.Live? && k in r.s.clients
    requires RunFrom(r, cs).Live? && k in RunFrom(r, cs).s.clients
    ensures Answered(r.s, RunFrom(r, cs).s, k, FramesRun(r, cs, k))
  {
    if |cs| == 0 {
      QuietAnswered(r.s, r.s, k);
    } else {
      var init, c := cs[..|cs| - 1], cs[|cs| - 1];
      var m := RunFrom(r, init);
      RunFromSafe(r, init);
      StillYounger(r, init, k);
      NextWasThere(m, c, k);
      ServedInOrder(r, init, k);
      NextAnswered(m, c, k);
      AnsweredTrans(r.s, m.s, RunFrom(r, cs).s, k, FramesRun(r, init, k), FramesIn(m, c, k));
    }
  }

  // ------------------------------------------------------------- whole frames only

  /** The READ of `k` is armed at the front of its buffer. */
  predicate AtFront(s: State, k: nat, r0: nat) {
    && Owner(s.pool, r0, k) && s.pool.ops[r0].kind == OpRead
    && |Pending(s.ring, r0)| == 1 && Pending(s.ring, r0)[0].RecvSqe? && Pending(s.ring, r0)[0].off == 0
  }

  predicate Whole(data: seq<byte>, rs: seq<Request>) {
    |rs| > 0 && AllFit(rs) && data == Stream(rs)
  }

  lemma ReceivedAtFront(s: State, c: Completion, k: nat)
    requires Inv(s) && IsReceive(s, c, k) && AtFront(s, k, c.id)
    ensures |Received(s, c)| == LARGE && |c.data| == c.res <= LARGE
    ensures Received(s, c)[..c.res] == c.data
  {
    assert Out(s.pool, c.id);
    assert SubOk(s, c.id) && HoldsBuf(s.pool.ops[c.id], s.mem);
    BufSize(s.mem, s.pool.ops[c.id].buf.value);
  }

  /** A receive of whole frames at the front of the buffer dispatches exactly those, and leaves nothing behind. */
  lemma {:induction false} WholeReceive(s: State, c: Completion, k: nat, rs: seq<Request>)
    requires Inv(s) && IsReceive(s, c, k) && AtFront(s, k, c.id) && Whole(c.data, rs)
    ensures |Received(s, c)| == LARGE && 0 < c.res <= LARGE
    ensures Parse(Received(s, c), 0, c.res) == Parsed(FramesOf(rs), Stop(c.res, 0, false))
  {
    ReceivedAtFront(s, c, k);
    var d := Received(s, c);
    assert d[0..c.res] == d[..c.res];
    ParseStream(d, 0, c.res, rs, c.res, 0);
    assert FramesOf(rs) + [] == FramesOf(rs);
  }

  /** After such a receive the connection is alive, every frame answered, and the READ back at offset 0. */
  lemma {:induction false} WholeStep(s: State, c: Completion, k: nat, rs: seq<Request>)
    requires Inv(s) && IsReceive(s, c, k) && AtFront(s, k, c.id) && Whole(c.data, rs)
    ensures Step(s, c).Live?
    ensures k in Step(s, c).s.clients && AtFront(Step(s, c).s, k, c.id)
    ensures FramesIn(Live(s), c, k) == FramesOf(rs)
  {
    WholeReceive(s, c, k, rs);
    assert Out(s.pool, c.id);
    var t := StepReadOn(s, c, Parsed(FramesOf(rs), Stop(c.res, 0, false)));
  }

  lemma OtherKeepsFront(s: State, c: Completion, k: nat, r0: nat, t: State)
    requires Inv(s) && Allowed(s, c) && c.id < |s.pool.ops| && Outcomes(s, c, t) && c.id != r0
    requires AtFront(s, k, r0)
    ensures AtFront(t, k, r0)
  {
    assert Untouched(s, r0, t);
  }

  /** A completion of `k`'s READ that leaves `k` connected is a non-empty receive. */
  lemma ReaderReceives(s: State, c: Completion, k: nat, t: State)
    requires Inv(s) && Allowed(s, c) && c.id < |s.pool.ops| && Outcomes(s, c, t)
    requires AtFront(s, k, c.id) && k in s.clients && k in t.clients
    ensures IsReceive(s, c, k)
  {
    assert !Ended(s, c.id, t);
  }

  /** Every receive of `k` in the run is made of whole SET_USERNAME frames. */
  ghost predicate RunWhole(r: Outcome, cs: seq<Completion>, k: nat)
    requires r.Live? ==> Shape(r.s)
  {
    |cs| > 0 ==>
      && RunWhole(r, cs[..|cs| - 1], k)
      && var m, c := RunFrom(r, cs[..|cs| - 1]), cs[|cs| - 1];
      m.Live? && IsReceive(m.s, c, k) ==> exists rs: seq<Request> :: Whole(c.data, rs)
  }

  /** All the bytes `k` sends during the run. */
  function DataRun(r: Outcome, cs: seq<Completion>, k: nat): seq<byte>
    requires r.Live? ==> Shape(r.s)
  {
    if |cs| == 0 then []
    else
      var m, c := RunFrom(r, cs[..|cs| - 1]), cs[|cs| - 1];
      DataRun(r, cs[..|cs| - 1], k) + (if m.Live? && IsReceive(m.s, c, k) then c.data else [])
  }

  lemma {:induction false} StreamAppend(a: seq<Request>, b: seq<Request>)
    requires AllFit(a) && AllFit(b)
    ensures AllFit(a + b)
    ensures Stream(a + b) == Stream(a) + Stream(b)
    ensures FramesOf(a + b) == FramesOf(a) + FramesOf(b)
  {
    if |a| == 0 {
      assert a + b == b;
    } else {
      StreamAppend(a[1..], b);
      assert (a + b)[1..] == a[1..] + b && (a + b)[0] == a[0];
      Assoc(Encode(a[0]), Stream(a[1..]), Stream(b));
      Assoc([FrameOf(a[0])], FramesOf(a[1..]), FramesOf(b));
    }
  }

  lemma Assoc<T>(x: seq<T>, y: seq<T>, z: seq<T>)
    ensures x + (y + z) == (x + y) + z
  {
  }

  /** What `k` has been told, and what is stored for it, in the bytes of its requests. */
  ghost predicate RequestsServed(s: State, t: State, k: nat, rs: seq<Request>) {
    && k in s.clients && k in t.clients
    && |Mail(t.outbox, k)| == |Mail(s.outbox, k)| + |rs| && Mail(s.outbox, k) <= Mail(t.outbox, k)
    && AnswerEach(Mail(t.outbox, k)[|Mail(s.outbox, k)|..], rs)
    && NameAfter(s.clients[k].name, rs, t.clients[k].name)
  }

  lemma {:induction false} FramesServed(s: State, t: State, k: nat, rs: seq<Request>)
    requires AllFit(rs) && Answered(s, t, k, FramesOf(rs))
    ensures RequestsServed(s, t, k, rs)
  {
    AnswersEach(rs);
    LastNameIs(s.clients[k].name, rs);
  }

  lemma {:induction false} FramesSnoc(rs: seq<Request>)
    requires |rs| > 0 && AllFit(rs)
    ensures FramesOf(rs) == FramesOf(rs[..|rs| - 1]) + [FrameOf(rs[|rs| - 1])]
  {
    var init, last := rs[..|rs| - 1], [rs[|rs| - 1]];
    assert rs == init + last && FramesOf(last) == [FrameOf(last[0])];
    StreamAppend(init, last);
  }

  lemma {:induction false} AnswersSnoc(frames: seq<Frame>, f: Frame, name: seq<byte>)
    ensures Answers(frames + [f]) == Answers(frames) + [ReplyBytes(f.bytes, f.seqid)]
    ensures LastName(name, frames + [f]) ==
            if NameOk(f.bytes) then f.bytes[PROT_HDR_LEN..] else LastName(name, frames)
  {
    assert (frames + [f])[..|frames|] == frames;
  }

  lemma {:induction false} LastNameSnoc(name: seq<byte>, frames: seq<Frame>, r: Request)
    requires Fits(r)
    ensures LastName(name, frames + [FrameOf(r)]) == if GoodName(r.name) then r.name else LastName(name, frames)
  {
    AnswersSnoc(frames, FrameOf(r), name);
    ReplyAnswers(r);
    EncodeBytes(r);
  }

  lemma EachSnoc(bs: seq<seq<byte>>, rs: seq<Request>, b: seq<byte>)
    requires |rs| > 0 && AnswerEach(bs, rs[..|rs| - 1]) && AnswerTo(b, rs[|rs| - 1])
    ensures AnswerEach(bs + [b], rs)
  {
    forall i | 0 <= i < |rs| ensures AnswerTo((bs + [b])[i], rs[i]) {
      if i < |rs| - 1 { assert rs[..|rs| - 1][i] == rs[i]; }
    }
  }

  lemma {:induction false} AnswersEach(rs: seq<Request>)
    requires AllFit(rs)
    ensures AnswerEach(Answers(FramesOf(rs)), rs)
  {
    if |rs| > 0 {
      var n := |rs| - 1;
      FramesSnoc(rs);
      AnswersEach(rs[..n]);
      AnswersSnoc(FramesOf(rs[..n]), FrameOf(rs[n]), []);
      ReplyAnswers(rs[n]);
      EachSnoc(Answers(FramesOf(rs[..n])), rs, ReplyBytes(Encode(rs[n]), rs[n].seqid));
    }
  }

  lemma {:induction false} LastNameIs(name: seq<byte>, rs: seq<Request>)
    requires AllFit(rs)
    ensures NameAfter(name, rs, LastName(name, FramesOf(rs)))
  {
    if |rs| > 0 {
      var n := |rs| - 1;
      FramesSnoc(rs);
      LastNameIs(name, rs[..n]);
      LastNameSnoc(name, FramesOf(rs[..n]), rs[n]);
      NameSnoc(name, rs, LastName(name, FramesOf(rs[..n])), LastName(name, FramesOf(rs)));
    }
  }

  lemma {:induction false} NameSnoc(before: seq<byte>, rs: seq<Request>, mid: seq<byte>, now: seq<byte>)
    requires |rs| > 0 && NameAfter(before, rs[..|rs| - 1], mid)
    requires now == if GoodName(rs[|rs| - 1].name) then rs[|rs| - 1].name else mid
    ensures NameAfter(before, rs, now)
  {
    var n := |rs| - 1;
    forall i: nat | LastGood(rs, i) ensures now == rs[i].name {
      assert GoodName(rs[n].name) ==> i == n;
      if i < n { assert LastGood(rs[..n], i); }
    }
    assert forall i :: 0 <= i < n ==> rs[..n][i] == rs[i];
  }

  lemma NextFront(r: Outcome, c: Completion, k: nat, r0: nat) returns (rs: seq<Request>)
    requires Safe(r) && r.Live? && k in r.s.clients && AtFront(r.s, k, r0)
    requires Next(r, c).Live? && k in Next(r, c).s.clients
    requires IsReceive(r.s, c, k) ==> exists rs: seq<Request> :: Whole(c.data, rs)
    ensures AtFront(Next(r, c).s, k, r0) && AllFit(rs)
    ensures FramesIn(r, c, k) == FramesOf(rs)
    ensures Stream(rs) == if IsReceive(r.s, c, k) then c.data else []
  {
    rs := [];
    if Allowed(r.s, c) {
      StepSafe(r.s, c);
      if c.id == r0 {
        ReaderReceives(r.s, c, k, Next(r, c).s);
        rs :| Whole(c.data, rs);
        WholeStep(r.s, c, k, rs);
      } else {
        OtherKeepsFront(r.s, c, k, r0, Next(r, c).s);
        assert IsReceive(r.s, c, k) ==> Owner(r.s.pool, c.id, k);
      }
    }
  }

  /**
   Over every run in which `k` stays connected and its receives are made of whole SET_USERNAME
   frames: the requests that make up all the bytes `k` sent are answered once each, in order, each
   reply with its seqid; the stored name is that of the last request with a good name; and the READ
   is back at offset 0.
   */
  lemma {:induction false} WholeRun(r: Outcome, cs: seq<Completion>, k: nat, r0: nat) returns (rs: seq<Request>)
    requires Safe(r) && r.Live? && k in r.s.clients && AtFront(r.s, k, r0)
    requires RunFrom(r, cs).Live? && k in RunFrom(r, cs).s.clients && RunWhole(r, cs, k)
    ensures AllFit(rs) && DataRun(r, cs, k) == Stream(rs)
    ensures AtFront(RunFrom(r, cs).s, k, r0)
    ensures FramesRun(r, cs, k) == FramesOf(rs)
    ensures Answered(r.s, RunFrom(r, cs).s, k, FramesOf(rs))
    ensures RequestsServed(r.s, RunFrom(r, cs).s, k, rs)
  {
    ServedInOrder(r, cs, k);
    if |cs| == 0 {
      rs := [];
    } else {
      var init, c := cs[..|cs| - 1], cs[|cs| - 1];
      var m := RunFrom(r, init);
      RunFromSafe(r, init);
      StillYounger(r, init, k);
      NextWasThere(m, c, k);
      var a := WholeRun(r, init, k, r0);
      var b := NextFront(m, c, k, r0);
      StreamAppend(a, b);
      rs := a + b;
    }
    FramesServed(r.s, RunFrom(r, cs).s, k, rs);
  }

  // --------------------------------------------------------------------- bad frames

  /** The header of `bad` announces an unsupported type with all its bytes there, or too long a frame. */
  predicate BadHead(bad: seq<byte>) {
    && |bad| >= PROT_HDR_LEN
    && (HdrLen(bad) > LARGE || (HdrLen(bad) <= |bad| && HdrType(bad) != MSGT_SET_USERNAME))
  }

  lemma {:induction false} ParseBad(data: seq<byte>, pos: nat, rem: nat, bad: seq<byte>)
    requires pos + rem <= |data| && data[pos..pos + rem] == bad && BadHead(bad)
    ensures Parse(data, pos, rem) == Parsed([], Reject)
  {
    SameHeader(data, pos, pos + rem, bad);
  }

  lemma {:induction false} ParseStreamBad(d: seq<byte>, m: nat, rs: seq<Request>, bad: seq<byte>)
    requires m <= |d| && d[..m] == Stream(rs) + bad && AllFit(rs) && BadHead(bad)
    ensures Parse(d, 0, m) == Parsed(FramesOf(rs), Reject)
  {
    var n := |Stream(rs)|;
    assert d[0..m] == d[..m];
    SliceSplit(d, 0, Stream(rs), bad);
    ParseStream(d, 0, m, rs, n, m - n);
    ParseBad(d, n, m - n, bad);
    assert FramesOf(rs) + [] == FramesOf(rs);
  }

  /** The first bad frame stops dispatch: the requests before it are answered, and the client is dropped. */
  lemma {:induction false} BadFrameDrops(s: State, c: Completion, k: nat, rs: seq<Request>, bad: seq<byte>)
    requires Inv(s) && IsReceive(s, c, k) && AtFront(s, k, c.id)
    requires AllFit(rs) && c.data == Stream(rs) + bad && BadHead(bad)
    ensures Step(s, c).Live?
    ensures var t := Step(s, c).s;
            && t.outbox == s.outbox + Replies(k, FramesOf(rs))
            && t.clients == s.clients - {k} && !Out(t.pool, c.id)
            && s.clients[k].fd in s.open && t.open == s.open - {s.clients[k].fd}
  {
    ReceivedAtFront(s, c, k);
    ParseStreamBad(Received(s, c), c.res, rs, bad);
    var t := StepReject(s, c, Parsed(FramesOf(rs), Reject));
  }

  // ---------------------------------------------------------------- zero-length frames

  lemma SpinExits(s: State, c: Completion, k: nat)
    requires Inv(s) && IsReceive(s, c, k) && c.res <= |Received(s, c)| && Parse(Received(s, c), 0, c.res).end == Spin
    ensures Step(s, c) == Exited
  {
    assert Out(s.pool, c.id);
    var p, u := ReadServe(s, c);
  }

  lemma {:induction false} ParseStreamZero(d: seq<byte>, m: nat, rs: seq<Request>, z: seq<byte>)
    requires m <= |d| && d[..m] == Stream(rs) + z && AllFit(rs) && ZeroAt(z, 0, |z|)
    ensures Parse(d, 0, m) == Parsed(FramesOf(rs), Spin)
  {
    var n := |Stream(rs)|;
    assert d[0..m] == d[..m];
    SliceSplit(d, 0, Stream(rs), z);
    ParseStream(d, 0, m, rs, n, m - n);
    SameHeader(d, n, m, z);
    assert FramesOf(rs) + [] == FramesOf(rs);
  }

  /** Such a header behind any number of whole frames makes the process exit. */
  lemma {:induction false} ZeroFrameExits(s: State, c: Completion, k: nat, rs: seq<Request>, z: seq<byte>)
    requires Inv(s) && IsReceive(s, c, k) && AtFront(s, k, c.id)
    requires AllFit(rs) && c.data == Stream(rs) + z && ZeroAt(z, 0, |z|)
    ensures FramesIn(Live(s), c, k) == FramesOf(rs) && Step(s, c) == Exited
  {
    ReceivedAtFront(s, c, k);
    ParseStreamZero(Received(s, c), c.res, rs, z);
    SpinExits(s, c, k);
  }
}
