/**
 The submission queue with the room it has. `io_uring_get_sqe` gives NULL when every entry is waiting to be
 submitted, and then the program exits (server.c:121-125, 209-213, 232-236, 256-260, 274-278). Every handler is given
 here once more, with the number of free entries; it exits at the first entry it does not get. What a completion asks
 for is then read off the bytes received, and so is, over every run, whether the queue of the program fills up.
 */
module Queue {
  import opened Base
  import opened Ops
  import opened PoolModel
  import opened Wire
  import opened Protocol
  import opened ServerState
  import opened ServerInvariant
  import opened ServerSteps
  import opened ServerRuns
  import opened Boundaries
  import opened FramingRuns
  import ServerTheorems

  // --------------------------------------------------------- submissions in the ring

  /** The operations with a submission in the ring. */
  ghost function Queued(ring: Ring): set<nat> {
    set id | id in ring && |ring[id]| > 0
  }

  lemma RingGrows(ring: Ring, a: nat, q: Sqe)
    requires Pending(ring, a) == []
    ensures Submit(ring, a, q)[a] == [q] && |Queued(Submit(ring, a, q))| == |Queued(ring)| + 1
  {
    assert Queued(Submit(ring, a, q)) == Queued(ring) + {a};
  }

  lemma OneMoreQueued(s: State, h: nat, op: Operation, f: Frame) returns (t: State)
    requires Mid(s, h) && op == s.pool.ops[h] && Connected(s.clients, s.nextId, op.clientId)
    ensures t == HandleSetUsername(s, op, f) && Mid(t, h) && Served(s, h, t)
    ensures |t.outbox| == |s.outbox| + 1 && |Queued(t.ring)| == |Queued(s.ring)| + 1
  {
    t := FrameMid(s, h, op, f);
    var u := Named(s, op.clientId, f.bytes);
    var a, w := ReplyEffect(u, op.clientFd, op.clientId, ReplyBytes(f.bytes, f.seqid));
    assert Pending(s.ring, a) == [];
    RingGrows(s.ring, a, t.ring[a][0]);
  }

  /** Handing over frames queues one reply and one submission for each. */
  lemma {:induction false} ServeQueues(s: State, h: nat, op: Operation, frames: seq<Frame>) returns (t: State)
    requires Mid(s, h) && op == s.pool.ops[h] && Connected(s.clients, s.nextId, op.clientId)
    ensures t == Serve(s, op, frames) && Mid(t, h) && Served(s, h, t)
    ensures |t.outbox| == |s.outbox| + |frames| && |Queued(t.ring)| == |Queued(s.ring)| + |frames|
  {
    if |frames| == 0 {
      t := s;
      RenamedServed(s, h, t);
    } else {
      var n := |frames| - 1;
      var u := ServeQueues(s, h, op, frames[..n]);
      t := OneMoreQueued(u, h, op, frames[n]);
      ServedTrans(s, h, u, t);
    }
  }

  /** The frame handed to `handle` `m` times. */
  function Again(f: Frame, m: nat): seq<Frame> { seq(m, i => f) }

  /**
   Why a zero-length frame makes the process exit: each turn of the loop leaves position and count as they are
   (`Boundaries.NoProgress`) and puts one more WRITE into the submission queue. After `m` turns there are `m` more,
   for every `m`, so any queue fills up.
   */
  lemma {:induction false} TurnsFillQueue(s: State, h: nat, op: Operation, f: Frame, m: nat)
    requires Mid(s, h) && op == s.pool.ops[h] && Connected(s.clients, s.nextId, op.clientId)
    ensures var t := Serve(s, op, Again(f, m));
            Mid(t, h) && |t.outbox| == |s.outbox| + m && |Queued(t.ring)| == |Queued(s.ring)| + m
  {
    var t := ServeQueues(s, h, op, Again(f, m));
  }

  // ------------------------------------------------------------- handlers with room

  /** How far a handler gets, and the free entries left. */
  datatype Roomed = Roomed(r: Outcome, room: nat)

  /** One entry taken for a submission that leads to `r`, or exit. */
  function Take(r: Outcome, room: nat): Roomed {
    if !r.Live? then Roomed(r, room)
    else if room == 0 then Roomed(Exited, 0)
    else Roomed(r, room - 1)
  }

  function ServeIn(s: State, op: Operation, frames: seq<Frame>, room: nat): (b: Roomed)
    requires Shape(s) && op.clientId in s.clients
    ensures b.r.Live? ==> Shape(b.r.s) && op.clientId in b.r.s.clients
  {
    if |frames| == 0 then Roomed(Live(s), room)
    else
      var b := ServeIn(s, op, frames[..|frames| - 1], room);
      if b.r.Live? then Take(Live(HandleSetUsername(b.r.s, op, frames[|frames| - 1])), b.room) else b
  }

  /** The two submissions of `handle_accept`: the READ, and the next ACCEPT. */
  function AcceptIn(s: State, id: nat, fd: int, room: nat): (b: Roomed)
    requires Shape(s)
    ensures b.r.Live? ==> Shape(b.r.s)
  {
    var b := Take(HandleAccept(s, id, fd), room);
    Take(b.r, b.room)
  }

  function FinishIn(s: State, id: nat, end: Ending, room: nat): (b: Roomed)
    requires Shape(s)
    ensures b.r.Live? ==> Shape(b.r.s)
  {
    if end.Reject? then Roomed(DisconnectAndFreeOp(s, id), room) else Take(Rearm(s, id, end), room)
  }

  /** On a zero-length frame the loop takes entries until there is none (`SpinFills`). */
  function RecvIn(s: State, id: nat, n: nat, room: nat): (b: Roomed)
    requires Shape(s)
    ensures b.r.Live? ==> Shape(b.r.s)
  {
    if n == 0 then Roomed(DisconnectAndFreeOp(s, id), room) else
    if !Readable(s, id, n) then Roomed(Broken, room) else
    var op := s.pool.ops[id];
    var p := Parse(BufAt(s.mem, op.buf.value).data, 0, n);
    var b := ServeIn(s, op, p.frames, room);
    if !b.r.Live? then b
    else if p.end.Spin? then Roomed(Exited, 0)
    else FinishIn(b.r.s, id, p.end, b.room)
  }

  function SendIn(s: State, id: nat, n: nat, room: nat): (b: Roomed)
    requires Shape(s)
    ensures b.r.Live? ==> Shape(b.r.s)
  {
    if !Out(s.pool, id) || s.pool.ops[id].buf.None? then Roomed(Broken, room)
    else if IsIncomplete(s.pool.ops[id], n) then Take(Live(ResumeSend(s, id, n)), room)
    else Roomed(FreeOp(s, id), room)
  }

  function DispatchIn(s: State, c: Completion, room: nat): (b: Roomed)
    requires Shape(s)
    ensures b.r.Live? ==> Shape(b.r.s)
  {
    if c.id >= |s.pool.ops| then Roomed(Broken, room) else
    var op := s.pool.ops[c.id];
    if c.res < 0 then Roomed(DisconnectAndFreeOp(s, c.id), room)
    else if op.clientId !in s.clients then Roomed(FreeOp(s, c.id), room)
    else match op.kind
      case OpAccept => AcceptIn(s, c.id, c.res, room)
      case OpRead => RecvIn(s, c.id, c.res, room)
      case OpWrite => SendIn(s, c.id, c.res, room)
  }

  function StepIn(s: State, c: Completion, room: nat): (b: Roomed)
    requires Shape(s) && Allowed(s, c)
    ensures b.r.Live? ==> Shape(b.r.s)
  {
    var d := Deliver(s, c);
    if d.Live? then DispatchIn(d.s, c, room) else Roomed(d, room)
  }

  // ------------------------------------------------------- what a completion asks for

  /** One for each frame, and one to arm the READ again. */
  function AskedBy(p: Parsed): nat {
    |p.frames| + (if p.end.Stop? && !ReadsPast(p.end) then 1 else 0)
  }

  /** The entries a completion takes, read off the operation and the bytes received. */
  function Asked(s: State, c: Completion): nat
    requires Shape(s) && Allowed(s, c) && c.id < |s.pool.ops|
  {
    var op := s.pool.ops[c.id];
    if Drops(s, c) then 0
    else match op.kind
      case OpAccept => 2
      case OpWrite => if op.processed + c.res < op.bufLen then 1 else 0
      case OpRead =>
        if !Receives(s, c) then 0
        else AskedBy(Parse(Received(s, c), 0, c.res))
  }

  /** What `n` submissions from `room` free entries leave, where they lead to `t`. */
  function Charged(t: State, n: nat, room: nat): Roomed {
    if n > room then Roomed(Exited, 0) else Roomed(Live(t), room - n)
  }

  lemma {:induction false} ServeInIs(s: State, op: Operation, frames: seq<Frame>, room: nat)
    requires Shape(s) && op.clientId in s.clients
    ensures ServeIn(s, op, frames, room) == Charged(Serve(s, op, frames), |frames|, room)
  {
    if |frames| > 0 {
      var n := |frames| - 1;
      ServeInIs(s, op, frames[..n], room);
      ServeInLast(s, op, frames, room);
    }
  }

  lemma {:induction false} ServeInLast(s: State, op: Operation, frames: seq<Frame>, room: nat)
    requires Shape(s) && op.clientId in s.clients && |frames| > 0
    requires var n := |frames| - 1; ServeIn(s, op, frames[..n], room) == Charged(Serve(s, op, frames[..n]), n, room)
    ensures ServeIn(s, op, frames, room) == Charged(Serve(s, op, frames), |frames|, room)
  {
    var n := |frames| - 1;
    var u := Serve(s, op, frames[..n]);
    TakenNext(u, HandleSetUsername(u, op, frames[n]), n, room);
  }

  lemma TakenNext(u: State, t: State, n: nat, room: nat)
    ensures var b := Charged(u, n, room);
            (if b.r.Live? then Take(Live(t), b.room) else b) == Charged(t, n + 1, room)
  {
  }

  /** A zero-length frame takes every entry there is, and one more. */
  lemma SpinFills(s: State, op: Operation, f: Frame, room: nat)
    requires Shape(s) && op.clientId in s.clients
    ensures ServeIn(s, op, Again(f, room + 1), room) == Roomed(Exited, 0)
  {
    ServeInIs(s, op, Again(f, room + 1), room);
  }

  // ------------------------------------------------------------- one step, exactly

  /** With room, what the step does, and the entries it asks for fewer; without, exit. */
  ghost predicate Exact(b: Roomed, r: Outcome, asked: nat, room: nat) {
    && b.r == (if asked > room then Exited else r)
    && (b.r.Live? ==> b.room == room - asked)
  }

  lemma AcceptExact(d: State, id: nat, fd: int, room: nat)
    requires Shape(d) && HandleAccept(d, id, fd).Live?
    ensures Exact(AcceptIn(d, id, fd, room), HandleAccept(d, id, fd), 2, room)
  {
  }

  lemma SendExact(d: State, id: nat, n: nat, room: nat)
    requires Shape(d) && Out(d.pool, id) && d.pool.ops[id].buf.Some?
    requires d.pool.ops[id].processed + n <= d.pool.ops[id].bufLen
    ensures Exact(SendIn(d, id, n, room), HandleSend(d, id, n),
                  if d.pool.ops[id].processed + n < d.pool.ops[id].bufLen then 1 else 0, room)
  {
    SendDecision(d, id, n);
  }

  lemma {:induction false} RecvExact(d: State, id: nat, n: nat, op: Operation, data: seq<byte>, room: nat)
    requires Shape(d) && Readable(d, id, n) && op == d.pool.ops[id] && data == BufAt(d.mem, op.buf.value).data && n > 0
    requires var p := Parse(data, 0, n);
             !p.end.Spin? ==> FinishesLive(Serve(d, op, p.frames), id, p.end)
    ensures Exact(RecvIn(d, id, n, room), HandleRecv(d, id, n), AskedBy(Parse(data, 0, n)), room)
  {
    var p := Parse(data, 0, n);
    ServeInIs(d, op, p.frames, room);
  }

  /** After the loop the READ is armed, unless the frame was bad or the memmove leaves the buffer. */
  ghost predicate FinishesLive(u: State, id: nat, end: Ending) {
    Shape(u) && (end.Stop? ==> if ReadsPast(end) then Rearm(u, id, end) == OverRead else Rearm(u, id, end).Live?)
  }

  /** The submission of the operation in hand has been consumed. */
  lemma DeliveredQueued(s: State, c: Completion, d: State)
    requires Inv(s) && Delivered(s, c, d)
    ensures |Queued(d.ring)| + 1 == |Queued(s.ring)|
  {
    forall id: nat
      ensures id in Queued(s.ring) <==> id in Queued(d.ring) || id == c.id
      ensures id == c.id ==> id !in Queued(d.ring)
    {
      InQueued(s.ring, id);
      InQueued(d.ring, id);
    }
    assert Queued(s.ring) == Queued(d.ring) + {c.id};
  }

  lemma InQueued(ring: Ring, id: nat)
    ensures id in Queued(ring) <==> |Pending(ring, id)| > 0
  {
  }

  /** From `n` submissions in the ring, one of which completes, a live step leads to as many and those asked for. */
  ghost predicate Adds(s: State, asked: nat, r: Outcome) {
    r.Live? ==> |Queued(r.s.ring)| + 1 == |Queued(s.ring)| + asked
  }

  /** A failing completion, one for a dropped client, and the end of a stream. */
  lemma QuietStep(s: State, c: Completion, room: nat)
    requires Inv(s) && Allowed(s, c) && c.id < |s.pool.ops| && s.pool.ops[c.id].kind != OpAccept
    requires Drops(s, c) || (s.pool.ops[c.id].kind == OpRead && c.res == 0)
    ensures Asked(s, c) == 0 && Exact(StepIn(s, c, room), Step(s, c), 0, room) && Adds(s, 0, Step(s, c))
  {
    var d := DeliverInHand(s, c);
    DeliveredQueued(s, c, d);
    var t := DisconnectMid(d, c.id);
    QuietExact(d, c, room);
  }

  lemma QuietExact(d: State, c: Completion, room: nat)
    requires Shape(d) && Out(d.pool, c.id)
    requires Drops(d, c) || (d.pool.ops[c.id].kind == OpRead && c.res == 0)
    ensures DispatchIn(d, c, room) == Roomed(Dispatch(d, c), room)
    ensures DisconnectAndFreeOp(d, c.id) == Dispatch(d, c)
  {
  }

  lemma AcceptQueues(s: State, c: Completion, d: State) returns (t: State)
    requires Inv(s) && Delivered(s, c, d) && s.pool.ops[c.id].kind == OpAccept && c.res >= 0
    ensures HandleAccept(d, c.id, c.res) == Live(t) && |Queued(t.ring)| == |Queued(d.ring)| + 2
  {
    DeliverMid(s, c, d);
    AcceptYoungest(s.pool, s.clients, s.nextId, c.id);
    var v, a, op;
    v, a, op, t := AcceptChain(d, c.id, c.res);
    RingGrows(d.ring, c.id, RecvSqe(c.res, d.pool.ops[c.id].buf.value, 0, LARGE));
    assert Pending(v.ring, a) == [];
    RingGrows(v.ring, a, AcceptSqe(op.clientId));
  }

  lemma AcceptStep(s: State, c: Completion, room: nat)
    requires Inv(s) && Allowed(s, c) && c.id < |s.pool.ops| && s.pool.ops[c.id].kind == OpAccept
    ensures Exact(StepIn(s, c, room), Step(s, c), Asked(s, c), room) && Adds(s, Asked(s, c), Step(s, c))
  {
    var d := DeliverEffect(s, c);
    if c.res < 0 {
      StepAcceptFails(s, c);
    } else {
      AcceptYoungest(s.pool, s.clients, s.nextId, c.id);
      DeliveredQueued(s, c, d);
      var t := AcceptQueues(s, c, d);
      AcceptExact(d, c.id, c.res, room);
    }
  }

  lemma SendQueues(d: State, h: nat, n: nat)
    requires Mid(d, h) && d.pool.ops[h].kind == OpWrite
    requires Carries(d, h, d.pool.ops[h], d.pool.ops[h].processed + n)
    ensures var r := HandleSend(d, h, n);
            r.Live? ==> |Queued(r.s.ring)| ==
                        |Queued(d.ring)| + (if d.pool.ops[h].processed + n < d.pool.ops[h].bufLen then 1 else 0)
  {
    var op := d.pool.ops[h].(processed := d.pool.ops[h].processed + n);
    if op.processed < op.bufLen {
      var t := SendMore(d, h, n, op);
      RingGrows(d.ring, h, SendSqe(op.clientFd, op.buf.value, op.processed, op.bufLen - op.processed));
    } else {
      var t := SendDone(d, h, n);
    }
  }

  lemma AskedWrite(s: State, c: Completion)
    requires Shape(s) && Allowed(s, c) && c.id < |s.pool.ops| && !Drops(s, c) && s.pool.ops[c.id].kind == OpWrite
    ensures Asked(s, c) == if s.pool.ops[c.id].processed + c.res < s.pool.ops[c.id].bufLen then 1 else 0
  {
  }

  lemma WriteAdds(s: State, c: Completion) returns (d: State)
    requires Inv(s) && Allowed(s, c) && c.id < |s.pool.ops| && !Drops(s, c) && s.pool.ops[c.id].kind == OpWrite
    ensures Deliver(s, c) == Live(d) && d.pool == s.pool && d.clients == s.clients
    ensures Shape(d) && Out(d.pool, c.id) && s.pool.ops[c.id].buf.Some?
    ensures s.pool.ops[c.id].processed + c.res <= s.pool.ops[c.id].bufLen
    ensures Adds(s, Asked(s, c), HandleSend(d, c.id, c.res))
  {
    d := DeliverInHand(s, c);
    DeliveredQueued(s, c, d);
    SendQueues(d, c.id, c.res);
    AskedWrite(s, c);
  }

  lemma WriteStep(s: State, c: Completion, room: nat)
    requires Inv(s) && Allowed(s, c) && c.id < |s.pool.ops| && !Drops(s, c) && s.pool.ops[c.id].kind == OpWrite
    ensures Exact(StepIn(s, c, room), Step(s, c), Asked(s, c), room) && Adds(s, Asked(s, c), Step(s, c))
  {
    var d := WriteAdds(s, c);
    SendExact(d, c.id, c.res, room);
  }

  lemma FinishQueues(u: State, h: nat, end: Ending)
    requires Mid(u, h) && u.pool.ops[h].kind == OpRead && !end.Spin? && (end.Stop? ==> end.rem < LARGE)
    ensures FinishesLive(u, h, end)
    ensures var r := FinishRecv(u, h, end);
            r.Live? ==> |Queued(r.s.ring)| ==
                        |Queued(u.ring)| + (if end.Stop? && !ReadsPast(end) then 1 else 0)
  {
    if end.Reject? {
      var t := DisconnectMid(u, h);
    } else if !ReadsPast(end) {
      var t := RearmMid(u, h, end);
      RingGrows(u.ring, h, RecvSqe(u.pool.ops[h].clientFd, u.pool.ops[h].buf.value, end.rem, LARGE - end.rem));
    } else {
      RearmOverReads(u, h, end);
    }
  }

  lemma {:induction false} ReadAdds(s: State, c: Completion) returns (d: State)
    requires Inv(s) && Allowed(s, c) && c.id < |s.pool.ops| && !Drops(s, c) && s.pool.ops[c.id].kind == OpRead
    requires c.res > 0
    ensures Deliver(s, c) == Live(d) && d.pool == s.pool && d.clients == s.clients
    ensures Shape(d) && Readable(d, c.id, c.res) && BufAt(d.mem, s.pool.ops[c.id].buf.value).data == Received(s, c)
    ensures var p := Parse(Received(s, c), 0, c.res);
            && (!p.end.Spin? ==> FinishesLive(Serve(d, s.pool.ops[c.id], p.frames), c.id, p.end))
            && Adds(s, AskedBy(p), HandleRecv(d, c.id, c.res))
  {
    d := DeliverInHand(s, c);
    DeliveredQueued(s, c, d);
    var op, data := s.pool.ops[c.id], Received(s, c);
    var p := Parse(data, 0, c.res);
    var u := ServeQueues(d, c.id, op, p.frames);
    if !p.end.Spin? { FinishQueues(u, c.id, p.end); }
    RecvEquation(d, c.id, c.res, op, data);
  }

  lemma ReadStep(s: State, c: Completion, room: nat)
    requires Inv(s) && Allowed(s, c) && c.id < |s.pool.ops| && !Drops(s, c) && s.pool.ops[c.id].kind == OpRead
    requires c.res > 0
    ensures Exact(StepIn(s, c, room), Step(s, c), Asked(s, c), room) && Adds(s, Asked(s, c), Step(s, c))
  {
    var d := ReadAdds(s, c);
    RecvExact(d, c.id, c.res, s.pool.ops[c.id], Received(s, c), room);
  }

  /**
   With `room` free entries a completion does what it does with any number of them if it asks for no more, and
   otherwise makes the process exit; and what it asks for is what it adds to the ring.
   */
  lemma StepExact(s: State, c: Completion, room: nat)
    requires Inv(s) && Allowed(s, c)
    ensures c.id < |s.pool.ops|
    ensures Exact(StepIn(s, c, room), Step(s, c), Asked(s, c), room)
    ensures Adds(s, Asked(s, c), Step(s, c))
  {
    assert Out(s.pool, c.id);
    if s.pool.ops[c.id].kind == OpAccept {
      AcceptStep(s, c, room);
    } else if Drops(s, c) || (s.pool.ops[c.id].kind == OpRead && c.res == 0) {
      QuietStep(s, c, room);
    } else if s.pool.ops[c.id].kind == OpWrite {
      WriteStep(s, c, room);
    } else {
      ReadStep(s, c, room);
    }
  }

  // ---------------------------------------------------------------------- runs

  /** The event loop: completions handled one by one, and now and then all that is queued submitted. */
  datatype Event = Completed(c: Completion) | Submitted

  function Completions(es: seq<Event>): seq<Completion> {
    if |es| == 0 then []
    else
      var init := Completions(es[..|es| - 1]);
      match es[|es| - 1]
      case Completed(c) => init + [c]
      case Submitted => init
  }

  function NextIn(b: Roomed, c: Completion): (n: Roomed)
    requires b.r.Live? ==> Shape(b.r.s)
    ensures n.r.Live? ==> Shape(n.r.s)
  {
    if b.r.Live? && Allowed(b.r.s, c) then StepIn(b.r.s, c, b.room) else b
  }

  /** The server with a queue of `size` entries. */
  function RunIn(r: Outcome, es: seq<Event>, size: nat): (b: Roomed)
    requires r.Live? ==> Shape(r.s)
    ensures b.r.Live? ==> Shape(b.r.s)
  {
    if |es| == 0 then Roomed(r, size)
    else
      var b := RunIn(r, es[..|es| - 1], size);
      match es[|es| - 1]
      case Completed(c) => NextIn(b, c)
      case Submitted => b.(room := size)
  }

  function AskedNow(r: Outcome, c: Completion): nat
    requires r.Live? ==> Shape(r.s)
  {
    if r.Live? && Allowed(r.s, c) && c.id < |r.s.pool.ops| then Asked(r.s, c) else 0
  }

  /** What the completions since the last submit ask for, along the run with room for everything. */
  function Waiting(r: Outcome, es: seq<Event>): nat
    requires r.Live? ==> Shape(r.s)
  {
    if |es| == 0 then 0
    else
      var init := es[..|es| - 1];
      match es[|es| - 1]
      case Completed(c) => Waiting(r, init) + AskedNow(RunFrom(r, Completions(init)), c)
      case Submitted => 0
  }

  /** At some point more is asked for between two submits than there are entries. */
  predicate Fills(r: Outcome, es: seq<Event>, size: nat)
    requires r.Live? ==> Shape(r.s)
  {
    |es| > 0 && (Fills(r, es[..|es| - 1], size) || Waiting(r, es) > size)
  }

  /** The run with a queue of `size` entries, `b`, against the one with room for everything, `r`. */
  ghost predicate SameRun(b: Roomed, r: Outcome, fills: bool, waiting: nat, size: nat) {
    if fills then b.r == Exited else waiting <= size && b.r == r && (r.Live? ==> b.room == size - waiting)
  }

  lemma NextAgrees(b: Roomed, r: Outcome, waiting: nat, size: nat, c: Completion)
    requires Safe(r) && SameRun(b, r, false, waiting, size)
    ensures var w := waiting + AskedNow(r, c); SameRun(NextIn(b, c), Next(r, c), w > size, w, size)
  {
    if r.Live? && Allowed(r.s, c) { StepExact(r.s, c, b.room); }
  }

  lemma {:induction false} RunSnoc(r: Outcome, cs: seq<Completion>, c: Completion)
    requires r.Live? ==> Shape(r.s)
    ensures RunFrom(r, cs + [c]) == Next(RunFrom(r, cs), c)
  {
    assert (cs + [c])[..|cs|] == cs;
  }

  /** The queue makes a difference exactly where it fills, and then the program exits. */
  lemma {:induction false} RunExact(r: Outcome, es: seq<Event>, size: nat)
    requires Safe(r)
    ensures SameRun(RunIn(r, es, size), RunFrom(r, Completions(es)), Fills(r, es, size), Waiting(r, es), size)
  {
    if |es| > 0 {
      var n := |es| - 1;
      var m := RunFrom(r, Completions(es[..n]));
      RunExact(r, es[..n], size);
      RunFromSafe(r, Completions(es[..n]));
      if !Fills(r, es[..n], size) && es[n].Completed? {
        NextAgrees(RunIn(r, es[..n], size), m, Waiting(r, es[..n]), size, es[n].c);
        RunSnoc(r, Completions(es[..n]), es[n].c);
      }
    }
  }

  /** Every run of the program with its queue: how it ends, and what holds while it does not. */
  lemma {:induction false} EveryBoundedRun(es: seq<Event>, size: nat)
    ensures var b, cs := RunIn(Start(), es, size), Completions(es);
            && !b.r.Broken?
            && (b.r.Exited? <==> Fills(Start(), es, size) || SomeExit(Start(), cs))
            && (b.r.OverRead? <==> !Fills(Start(), es, size) && SomeOverRead(Start(), cs))
            && (b.r.Live? ==> ServerTheorems.Guarantees(b.r.s) && b.room + Waiting(Start(), es) == size)
  {
    StartInv();
    RunExact(Start(), es, size);
    ServerTheorems.EveryRun(Completions(es));
  }

  // -------------------------------------------------------------- how much it takes

  /** Three times what a completion can ask for. */
  function Weight(c: Completion): nat {
    if |c.data| > 9 then |c.data| - 3 else 6
  }

  /** The same for all completions since the last submit. */
  function Load(es: seq<Event>): nat {
    if |es| == 0 then 0
    else
      match es[|es| - 1]
      case Completed(c) => Load(es[..|es| - 1]) + Weight(c)
      case Submitted => 0
  }

  predicate Light(es: seq<Event>, size: nat) {
    |es| > 0 ==> Light(es[..|es| - 1], size) && Load(es) <= 3 * size
  }

  lemma FromTwo(h: seq<byte>)
    requires |h| >= PROT_HDR_LEN
    ensures HdrLen(h) == 256 * (h[0] as int) + (h[1] as int)
  {
    assert h[0..2][..1] == [h[0]] && [h[0]][..0] == [];
    assert FromBe([h[0]]) == 256 * FromBe([]) + h[0];
  }

  /** `n` frames follow from `pos` on. */
  ghost predicate CountIs(data: seq<byte>, pos: nat, rem: nat, n: nat) {
    pos + rem <= |data| && |Parse(data, pos, rem).frames| == n
  }

  /** The same, unfolded only where `CountIs` is named. */
  ghost predicate Count(data: seq<byte>, pos: nat, rem: nat, n: nat) {
    forall m {:trigger CountIs(data, pos, rem, m)} :: m == n ==> CountIs(data, pos, rem, m)
  }

  lemma {:induction false} CountFirst(data: seq<byte>, pos: nat, rem: nat) returns (len: nat)
    requires pos + rem <= |data|
    ensures len > 0 ==> PROT_HDR_LEN <= rem && len <= rem
    ensures len > 0 ==> HdrLen(data[pos..]) == len && HdrType(data[pos..]) == MSGT_SET_USERNAME
    ensures len == 0 ==> Count(data, pos, rem, 0)
  {
    len := if |Parse(data, pos, rem).frames| == 0 then 0 else HdrLen(data[pos..]);
  }

  lemma {:induction false} CountNext(data: seq<byte>, pos: nat, rem: nat, len: nat, n: nat)
    requires pos + rem <= |data| && PROT_HDR_LEN <= rem && 0 < len <= rem
    requires HdrLen(data[pos..]) == len <= LARGE && HdrType(data[pos..]) == MSGT_SET_USERNAME
    requires Count(data, pos + len, rem - len, n)
    ensures Count(data, pos, rem, n + 1)
  {
    assert CountIs(data, pos + len, rem - len, n);
  }

  /**
   No receive hands over more than one frame for every three bytes: the type of a shorter frame is the first byte of
   the next header, which then declares a length of 256 or more.
   */
  lemma {:induction false} FramesBound(data: seq<byte>, pos: nat, rem: nat) returns (n: nat)
    requires pos + rem <= |data| <= LARGE
    ensures Count(data, pos, rem, n)
    ensures n > 0 ==> PROT_HDR_LEN <= rem && 3 * n + (if data[pos] > 0 then 6 else 0) <= rem - 6
    decreases rem
  {
    var len := CountFirst(data, pos, rem);
    n := 0;
    if len > 0 {
      FromTwo(data[pos..]);
      var more := FramesBound(data, pos + len, rem - len);
      CountNext(data, pos, rem, len, more);
      n := more + 1;
    }
  }

  lemma AskedBound(s: State, c: Completion)
    requires Inv(s) && Allowed(s, c)
    ensures c.id < |s.pool.ops| && 3 * Asked(s, c) <= Weight(c)
  {
    assert Out(s.pool, c.id) && SubOk(s, c.id);
    if Receives(s, c) {
      BufSize(s.mem, s.pool.ops[c.id].buf.value);
      var n := FramesBound(Received(s, c), 0, c.res);
      assert CountIs(Received(s, c), 0, c.res, n);
    }
  }

  /**
   Traffic that is light between submits never fills the queue. With 4096 entries, six full receives and three other
   completions are light.
   */
  lemma {:induction false} LightNeverFills(r: Outcome, es: seq<Event>, size: nat)
    requires Safe(r) && Light(es, size)
    ensures !Fills(r, es, size) && 3 * Waiting(r, es) <= Load(es)
  {
    if |es| > 0 {
      var init := es[..|es| - 1];
      var m := RunFrom(r, Completions(init));
      LightNeverFills(r, init, size);
      RunFromSafe(r, Completions(init));
      if es[|es| - 1].Completed? && m.Live? && Allowed(m.s, es[|es| - 1].c) { AskedBound(m.s, es[|es| - 1].c); }
    }
  }

  // ---------------------------------------------------------------- and is enough

  /** A buffer full of frames of three bytes: 680 of them, each of whose headers covers the next three frames too. */
  function Burst(): seq<byte> {
    seq(LARGE, i => BurstByte(i))
  }

  function BurstByte(i: int): byte {
    if i % 3 == 0 then 0 else if i % 3 == 1 then 3 else 1
  }

  lemma BurstHead(k: nat)
    requires 3 * k + PROT_HDR_LEN <= LARGE
    ensures |Burst()| == LARGE && HdrLen(Burst()[3 * k..]) == 3 && HdrType(Burst()[3 * k..]) == MSGT_SET_USERNAME
  {
    var h := Burst()[3 * k..];
    assert h[0] == BurstByte(3 * k) && h[1] == BurstByte(3 * k + 1) && h[2] == BurstByte(3 * k + 2);
    FromTwo(h);
  }

  lemma {:induction false} BurstParse(k: nat)
    requires k <= 680
    ensures |Burst()| == LARGE
    ensures Count(Burst(), 3 * k, LARGE - 3 * k, 680 - k) && Ends(Burst(), 3 * k, LARGE, Stop(2040, 8, false))
    decreases 680 - k
  {
    if k < 680 {
      BurstHead(k);
      BurstParse(k + 1);
      CountNext(Burst(), 3 * k, LARGE - 3 * k, 3, 679 - k);
      TurnAtFrame(Burst(), 3 * k, LARGE, 3, Stop(2040, 8, false));
    }
  }

  /** The READ of a connected client, armed at the front of its buffer. */
  predicate Front(s: State, id: nat) {
    Out(s.pool, id) && s.pool.ops[id].clientId in s.clients && AtFront(s, s.pool.ops[id].clientId, id)
  }

  function BurstOn(id: nat): Completion { Completion(id, 0, LARGE, Burst()) }

  lemma BurstStep(s: State, id: nat) returns (t: State)
    requires Inv(s) && Front(s, id)
    ensures Allowed(s, BurstOn(id)) && id < |s.pool.ops| && Asked(s, BurstOn(id)) == 681
    ensures Step(s, BurstOn(id)) == Live(t) && Inv(t) && Kept(s, id, t) && t.clients.Keys == s.clients.Keys
  {
    var c := BurstOn(id);
    assert SubOk(s, id);
    ReceivedAtFront(s, c, s.pool.ops[id].clientId);
    assert Received(s, c) == Received(s, c)[..c.res] == Burst();
    BurstParse(0);
    EndsUnique(Burst(), LARGE, Stop(2040, 8, false));
    assert CountIs(Burst(), 0, LARGE, 680);
    t := StepReadOn(s, c, Parse(Burst(), 0, LARGE));
  }

  /** `Front` operations of `s` other than those of `ids` are so in `t`. */
  ghost predicate FrontsStay(s: State, ids: seq<nat>, t: State) {
    forall id: nat :: Front(s, id) && id !in ids ==> Front(t, id)
  }

  lemma BurstLeaves(s: State, h: nat, t: State, id: nat)
    requires Kept(s, h, t) && t.clients.Keys == s.clients.Keys && Front(s, id) && id != h
    ensures Front(t, id)
  {
    assert Untouched(s, id, t);
  }

  function Bursts(ids: seq<nat>): seq<Event> {
    if |ids| == 0 then [] else Bursts(ids[..|ids| - 1]) + [Completed(BurstOn(ids[|ids| - 1]))]
  }

  /** Bursts from different clients, one after the other, ask for 681 entries each. */
  lemma {:induction false} BurstsAsk(s: State, ids: seq<nat>) returns (t: State)
    requires Inv(s) && NoDup(ids) && forall i :: 0 <= i < |ids| ==> Front(s, ids[i])
    ensures RunFrom(Live(s), Completions(Bursts(ids))) == Live(t) && Inv(t) && FrontsStay(s, ids, t)
    ensures Waiting(Live(s), Bursts(ids)) == 681 * |ids|
  {
    if |ids| == 0 {
      t := s;
    } else {
      var n := |ids| - 1;
      var m := BurstsAsk(s, ids[..n]);
      t := BurstStep(m, ids[n]);
      BurstsSnoc(s, ids, m, t);
      StayNext(s, ids, m, t);
    }
  }

  lemma {:induction false} StayNext(s: State, ids: seq<nat>, m: State, t: State)
    requires |ids| > 0 && FrontsStay(s, ids[..|ids| - 1], m)
    requires Kept(m, ids[|ids| - 1], t) && t.clients.Keys == m.clients.Keys
    ensures FrontsStay(s, ids, t)
  {
    forall id: nat | Front(s, id) && id !in ids ensures Front(t, id) {
      BurstLeaves(m, ids[|ids| - 1], t, id);
    }
  }

  lemma {:induction false} BurstsSnoc(s: State, ids: seq<nat>, m: State, t: State)
    requires Inv(s) && Inv(m) && |ids| > 0
    requires var n := |ids| - 1;
             && RunFrom(Live(s), Completions(Bursts(ids[..n]))) == Live(m)
             && Allowed(m, BurstOn(ids[n])) && Step(m, BurstOn(ids[n])) == Live(t)
             && ids[n] < |m.pool.ops| && Asked(m, BurstOn(ids[n])) == 681
    ensures RunFrom(Live(s), Completions(Bursts(ids))) == Live(t)
    ensures Waiting(Live(s), Bursts(ids)) == Waiting(Live(s), Bursts(ids[..|ids| - 1])) + 681
  {
    var init, c := Bursts(ids[..|ids| - 1]), BurstOn(ids[|ids| - 1]);
    assert Bursts(ids)[..|init|] == init;
    RunSnoc(Live(s), Completions(init), c);
  }

  /** Seven of them between two submits fill the queue of the program, from whatever state. */
  lemma {:induction false} SevenBurstsFill(s: State, ids: seq<nat>)
    requires Inv(s) && |ids| == 7 && NoDup(ids) && forall i :: 0 <= i < |ids| ==> Front(s, ids[i])
    ensures Fills(Live(s), Bursts(ids), 4096)
    ensures RunIn(Live(s), Bursts(ids), 4096).r == Exited
    ensures RunFrom(Live(s), Completions(Bursts(ids))).Live?
  {
    var t := BurstsAsk(s, ids);
    RunExact(Live(s), Bursts(ids), 4096);
  }

  /** Six of them never do. */
  lemma {:induction false} SixBurstsFit(r: Outcome, ids: seq<nat>)
    requires Safe(r) && |ids| <= 6
    ensures !Fills(r, Bursts(ids), 4096)
    ensures RunIn(r, Bursts(ids), 4096).r == RunFrom(r, Completions(Bursts(ids)))
  {
    BurstsLight(ids);
    LightNeverFills(r, Bursts(ids), 4096);
    RunExact(r, Bursts(ids), 4096);
  }

  lemma {:induction false} BurstsLight(ids: seq<nat>)
    requires |ids| <= 6
    ensures Light(Bursts(ids), 4096) && Load(Bursts(ids)) == 2045 * |ids|
  {
    if |ids| > 0 {
      var n := |ids| - 1;
      BurstsLight(ids[..n]);
      BurstWeight(ids[n]);
      LoadSnoc(Bursts(ids[..n]), BurstOn(ids[n]), 4096);
    }
  }

  lemma BurstWeight(id: nat)
    ensures Weight(BurstOn(id)) == 2045
  {
  }

  lemma {:induction false} LoadSnoc(es: seq<Event>, c: Completion, size: nat)
    ensures var more := es + [Completed(c)];
            && Load(more) == Load(es) + Weight(c)
            && (Light(more, size) <==> Light(es, size) && Load(more) <= 3 * size)
  {
    assert (es + [Completed(c)])[..|es|] == es;
  }
}
