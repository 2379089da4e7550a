/**
 The server over whole runs. Every completion the kernel may report, in any order, keeps the ownership
 invariant and disturbs no other operation, unless the run ends with it. A run ends only by exiting or by
 reading past a receive buffer, and each exactly for the causes stated here. The submission queue has room all along;
 `Queue` adds its size.
 */
module ServerRuns {
  import opened Base
  import opened Ops
  import opened PoolModel
  import opened SlabModel
  import opened ClientModel
  import opened ServerState
  import opened ServerInvariant
  import opened ServerSteps
  import opened Boundaries
  import Protocol

  /** Every in-flight operation but `h` is exactly as it was: fields, submission, buffer, history. */
  ghost predicate Kept(s: State, h: nat, t: State) {
    forall id: nat :: Out(s.pool, id) && id != h ==> Untouched(s, id, t)
  }

  lemma KeptTrans(s: State, h: nat, t: State, u: State)
    requires Kept(s, h, t) && Kept(t, h, u)
    ensures Kept(s, h, u)
  {
    forall id: nat | Out(s.pool, id) && id != h ensures Untouched(s, id, u) {
      UntouchedTrans(s, id, t, u);
    }
  }

  lemma DeliveredKept(s: State, c: Completion, t: State)
    requires BufInv(s.pool, s.mem) && Delivered(s, c, t)
    ensures Kept(s, c.id, t)
  {
    forall id: nat | Out(s.pool, id) && id != c.id ensures Untouched(s, id, t) {
      assert s.pool.ops[id].buf != s.pool.ops[c.id].buf;
    }
  }

  lemma FreedKept(s: State, h: nat, t: State)
    requires BufInv(s.pool, s.mem) && PoolFreed(s.pool, h, t.pool)
    requires s.pool.ops[h].buf.Some? && MemFreed(s.mem, s.pool.ops[h].buf.value, t.mem)
    requires t.ring == s.ring && t.msg == s.msg && t.acked == s.acked
    ensures Kept(s, h, t)
  {
    forall id: nat | Out(s.pool, id) && id != h ensures Untouched(s, id, t) {
      assert s.pool.ops[id].buf != s.pool.ops[h].buf;
    }
  }

  lemma RearmedKept(s: State, h: nat, op: Operation, q: Sqe, t: State)
    requires BufInv(s.pool, s.mem) && PoolSet(s.pool, h, op, t.pool)
    requires s.pool.ops[h].buf.Some? && MemTouched(s.mem, s.pool.ops[h].buf.value, t.mem)
    requires t.ring == Submit(s.ring, h, q) && t.msg == s.msg && t.acked == s.acked
    ensures Kept(s, h, t)
  {
    forall id: nat | Out(s.pool, id) && id != h ensures Untouched(s, id, t) {
      assert s.pool.ops[id].buf != s.pool.ops[h].buf;
    }
  }

  // ------------------------------------------------------------ one step, by kind

  /** The buffer of the READ that completes, after the kernel has stored the received bytes. */
  function Received(s: State, c: Completion): seq<byte>
    requires Shape(s) && Allowed(s, c) && c.res >= 0
  {
    var q := Pending(s.ring, c.id)[c.which];
    if q.RecvSqe? && Resolves(s.mem, q.buf) && q.off + q.len <= |BufAt(s.mem, q.buf).data| then
      var d := BufAt(s.mem, q.buf).data;
      d[..q.off] + c.data + d[q.off + |c.data|..]
    else []
  }

  /** A failing completion, or one for a client already dropped. */
  predicate Drops(s: State, c: Completion)
    requires c.id < |s.pool.ops|
  {
    c.res < 0 || s.pool.ops[c.id].clientId !in s.clients
  }

  /** What ending an operation does: it is freed, and its client, if still there, is closed and deleted. */
  ghost predicate Ended(s: State, h: nat, t: State) {
    && Inv(t) && Out(s.pool, h) && Kept(s, h, t)
    && PoolFreed(s.pool, h, t.pool)
    && t.nextId == s.nextId && t.outbox == s.outbox
    && t.clients == s.clients - {s.pool.ops[h].clientId}
    && (s.pool.ops[h].clientId in s.clients ==>
          s.pool.ops[h].clientFd in s.open && s.open[s.pool.ops[h].clientFd] == s.pool.ops[h].clientId)
    && t.open == (if s.pool.ops[h].clientId in s.clients then s.open - {s.pool.ops[h].clientFd} else s.open)
  }

  /** The replies to a list of frames, in order, to one client. */
  function Replies(client: nat, frames: seq<Frame>): seq<Sent> {
    if |frames| == 0 then []
    else
      var f := frames[|frames| - 1];
      Replies(client, frames[..|frames| - 1]) + [Sent(client, ReplyBytes(f.bytes, f.seqid))]
  }

  /** The name stored after a list of frames: the last acceptable one. */
  function LastName(name: seq<byte>, frames: seq<Frame>): seq<byte> {
    if |frames| == 0 then name
    else if NameOk(frames[|frames| - 1].bytes) then frames[|frames| - 1].bytes[Protocol.PROT_HDR_LEN..]
    else LastName(name, frames[..|frames| - 1])
  }

  /** What serving frames does to the map and the outbox. */
  lemma {:induction false} ServeEffect(s: State, op: Operation, frames: seq<Frame>)
    requires Shape(s) && op.clientId in s.clients
    ensures var t, c := Serve(s, op, frames), op.clientId;
            && t.outbox == s.outbox + Replies(c, frames)
            && t.clients == s.clients[c := s.clients[c].(name := LastName(s.clients[c].name, frames))]
  {
    if |frames| == 0 {
      assert s.outbox + [] == s.outbox;
    } else {
      var init := frames[..|frames| - 1];
      var u := Serve(s, op, init);
      ServeEffect(s, op, init);
      FrameEffect(u, op, frames[|frames| - 1]);
      var t := HandleSetUsername(u, op, frames[|frames| - 1]);
      EffectSnoc(op.clientId, frames, s.outbox, s.clients, u.outbox, u.clients, t.outbox, t.clients);
    }
  }

  lemma EffectSnoc(c: nat, frames: seq<Frame>, sent0: seq<Sent>, clients0: Clients,
                   sent1: seq<Sent>, clients1: Clients, sent2: seq<Sent>, clients2: Clients)
    requires |frames| > 0 && c in clients0
    requires var init := frames[..|frames| - 1];
             && sent1 == sent0 + Replies(c, init)
             && clients1 == clients0[c := clients0[c].(name := LastName(clients0[c].name, init))]
    requires var f := frames[|frames| - 1];
             && sent2 == sent1 + [Sent(c, ReplyBytes(f.bytes, f.seqid))]
             && clients2 == (if NameOk(f.bytes)
                             then clients1[c := clients1[c].(name := f.bytes[Protocol.PROT_HDR_LEN..])]
                             else clients1)
    ensures sent2 == sent0 + Replies(c, frames)
    ensures clients2 == clients0[c := clients0[c].(name := LastName(clients0[c].name, frames))]
  {
  }

  lemma FrameEffect(s: State, op: Operation, f: Frame)
    requires Shape(s) && op.clientId in s.clients
    ensures var t, c := HandleSetUsername(s, op, f), op.clientId;
            && t.outbox == s.outbox + [Sent(c, ReplyBytes(f.bytes, f.seqid))]
            && t.clients == (if NameOk(f.bytes)
                             then s.clients[c := s.clients[c].(name := f.bytes[Protocol.PROT_HDR_LEN..])]
                             else s.clients)
  {
  }

  lemma ReceivedData(s: State, c: Completion, d: State)
    requires Inv(s) && Allowed(s, c) && Deliver(s, c) == Live(d)
    requires c.id < |s.pool.ops| && s.pool.ops[c.id].kind == OpRead && c.res >= 0
    ensures HoldsBuf(s.pool.ops[c.id], d.mem)
    ensures BufAt(d.mem, s.pool.ops[c.id].buf.value).data == Received(s, c)
    ensures |Received(s, c)| == LARGE && c.res <= LARGE
  {
    assert Out(s.pool, c.id);
    assert SubOk(s, c.id) && HoldsBuf(s.pool.ops[c.id], s.mem);
    BufSize(s.mem, s.pool.ops[c.id].buf.value);
    PokeFrame(s.mem, s.pool.ops[c.id].buf.value, Pending(s.ring, c.id)[0].off, c.data);
  }

  lemma ServedKept(s: State, h: nat, t: State)
    requires Served(s, h, t)
    ensures Kept(s, h, t)
  {
  }

  /** The completion taken from the ring, the bytes in the buffer, and nothing else changed. */
  lemma DeliverInHand(s: State, c: Completion) returns (d: State)
    requires Inv(s) && Allowed(s, c) && c.id < |s.pool.ops| && s.pool.ops[c.id].kind != OpAccept
    ensures Mid(d, c.id) && Kept(s, c.id, d)
    ensures d == s.(mem := d.mem, ring := d.ring, acked := d.acked)
    ensures Deliver(s, c) == Live(d) && Delivered(s, c, d) && Step(s, c) == Dispatch(d, c)
    ensures s.pool.ops[c.id].kind == OpRead && c.res >= 0 ==>
              && HoldsBuf(s.pool.ops[c.id], d.mem)
              && BufAt(d.mem, s.pool.ops[c.id].buf.value).data == Received(s, c)
              && |Received(s, c)| == LARGE && c.res <= LARGE
    ensures s.pool.ops[c.id].kind == OpWrite && c.res >= 0 ==>
              Carries(d, c.id, s.pool.ops[c.id], s.pool.ops[c.id].processed + c.res)
  {
    d := DeliverEffect(s, c);
    DeliverMid(s, c, d);
    DeliveredKept(s, c, d);
    if s.pool.ops[c.id].kind == OpRead && c.res >= 0 {
      ReceivedData(s, c, d);
    }
  }

  /** `handle_recv` on a non-empty receive: parse, serve every frame, then re-arm or drop. */
  lemma {:induction false} RecvEquation(d: State, h: nat, n: nat, op: Operation, data: seq<byte>)
    requires Shape(d) && Out(d.pool, h) && op == d.pool.ops[h] && op.clientId in d.clients
    requires op.buf.Some? && Resolves(d.mem, op.buf.value) && data == BufAt(d.mem, op.buf.value).data
    requires 0 < n <= |data|
    ensures var p := Parse(data, 0, n);
            HandleRecv(d, h, n) ==
            if p.end.Spin? then Exited else FinishRecv(Serve(d, op, p.frames), h, p.end)
  {
  }

  /** A receive by a connected client, up to the point where the loop ends. */
  lemma ReadServe(s: State, c: Completion) returns (p: Parsed, u: State)
    requires Inv(s) && Allowed(s, c) && c.id < |s.pool.ops| && !Drops(s, c)
    requires s.pool.ops[c.id].kind == OpRead && c.res > 0
    ensures |Received(s, c)| == LARGE && c.res <= LARGE && p == Parse(Received(s, c), 0, c.res)
    ensures Mid(u, c.id) && Kept(s, c.id, u) && u.pool.ops[c.id] == s.pool.ops[c.id]
    ensures u.open == s.open && u.nextId == s.nextId
    ensures var k := s.pool.ops[c.id].clientId;
            && u.outbox == s.outbox + Replies(k, p.frames)
            && u.clients == s.clients[k := s.clients[k].(name := LastName(s.clients[k].name, p.frames))]
    ensures HoldsBuf(s.pool.ops[c.id], u.mem)
    ensures BufAt(u.mem, s.pool.ops[c.id].buf.value).data == Received(s, c)
    ensures Step(s, c) == if p.end.Spin? then Exited else FinishRecv(u, c.id, p.end)
  {
    var d := DeliverInHand(s, c);
    var op := s.pool.ops[c.id];
    p := Parse(Received(s, c), 0, c.res);
    RecvEquation(d, c.id, c.res, op, Received(s, c));
    u := ServeMid(d, c.id, op, p.frames);
    ServeEffect(d, op, p.frames);
    ServedKept(d, c.id, u);
    KeptTrans(s, c.id, d, u);
    assert InUse(d.mem, op.buf.value);
  }

  lemma EndedFrom(s: State, h: nat, d: State, t: State)
    requires h >= 0 && BufInv(d.pool, d.mem) && Out(d.pool, h) && d.pool.ops[h].buf.Some?
    requires Kept(s, h, d) && d == s.(mem := d.mem, ring := d.ring, acked := d.acked)
    requires Inv(t) && t == d.(pool := t.pool, mem := t.mem, open := t.open, clients := t.clients)
    requires PoolFreed(d.pool, h, t.pool) && MemFreed(d.mem, d.pool.ops[h].buf.value, t.mem)
    requires t.clients == d.clients - {d.pool.ops[h].clientId}
    requires t.open == if d.pool.ops[h].clientId in d.clients then d.open - {d.pool.ops[h].clientFd} else d.open
    requires d.pool.ops[h].clientId in d.clients ==>
               d.pool.ops[h].clientFd in d.open && d.open[d.pool.ops[h].clientFd] == d.pool.ops[h].clientId
    ensures Ended(s, h, t)
  {
    FreedKept(d, h, t);
    KeptTrans(s, h, d, t);
  }

  /** A failed operation. */
  lemma StepFails(s: State, c: Completion) returns (t: State)
    requires Inv(s) && Allowed(s, c) && c.id < |s.pool.ops| && c.res < 0
    requires s.pool.ops[c.id].kind != OpAccept
    ensures Step(s, c) == Live(t) && Ended(s, c.id, t)
  {
    var d := DeliverInHand(s, c);
    t := DisconnectMid(d, c.id);
    EndedFrom(s, c.id, d, t);
  }

  /** A successful completion for a client that has been dropped. */
  lemma StepLate(s: State, c: Completion) returns (t: State)
    requires Inv(s) && Allowed(s, c) && c.id < |s.pool.ops| && c.res >= 0
    requires s.pool.ops[c.id].kind != OpAccept && s.pool.ops[c.id].clientId !in s.clients
    ensures Step(s, c) == Live(t) && Ended(s, c.id, t)
  {
    var d := DeliverInHand(s, c);
    t := DisconnectMid(d, c.id);
    EndedFrom(s, c.id, d, t);
  }

  /** A receive that keeps the connection: every frame answered, and the READ armed again. */
  ghost predicate ReadOn(s: State, c: Completion, p: Parsed, t: State) {
    && Inv(t) && Out(s.pool, c.id) && Kept(s, c.id, t) && s.pool.ops[c.id].kind == OpRead
    && p.end.Stop? && p.end.rem < LARGE && !ReadsPast(p.end)
    && t.open == s.open && t.nextId == s.nextId
    && Out(t.pool, c.id) && t.pool.ops[c.id] == s.pool.ops[c.id] && s.pool.ops[c.id].buf.Some?
    && Pending(t.ring, c.id) ==
       [RecvSqe(s.pool.ops[c.id].clientFd, s.pool.ops[c.id].buf.value, p.end.rem, LARGE - p.end.rem)]
    && Resolves(t.mem, s.pool.ops[c.id].buf.value) && Shape(s) && Allowed(s, c) && 0 < c.res
    && p.end.rem <= |Received(s, c)|
    && BufAt(t.mem, s.pool.ops[c.id].buf.value).data == Leftover(Received(s, c), p.end)
    && var k := s.pool.ops[c.id].clientId;
    && k in s.clients
    && t.outbox == s.outbox + Replies(k, p.frames)
    && t.clients == s.clients[k := s.clients[k].(name := LastName(s.clients[k].name, p.frames))]
  }

  /** Arming the READ again leaves every other operation alone. */
  lemma RearmKeeps(u: State, h: nat, end: Ending, t: State)
    requires Mid(u, h) && u.pool.ops[h].kind == OpRead && end.Stop? && end.rem < LARGE && !ReadsPast(end)
    requires Rearm(u, h, end) == Live(t)
    ensures Kept(u, h, t)
  {
    var t' := RearmMid(u, h, end);
    var op := u.pool.ops[h];
    RearmedKept(u, h, op, RecvSqe(op.clientFd, op.buf.value, end.rem, LARGE - end.rem), t);
  }

  lemma ReadOnFrom(s: State, c: Completion, p: Parsed, u: State) returns (t: State)
    requires Mid(u, c.id) && Out(s.pool, c.id) && u.pool.ops[c.id] == s.pool.ops[c.id]
    requires s.pool.ops[c.id].kind == OpRead && s.pool.ops[c.id].clientId in s.clients
    requires Kept(s, c.id, u) && u.open == s.open && u.nextId == s.nextId
    requires Shape(s) && Allowed(s, c) && 0 < c.res && |Received(s, c)| == LARGE
    requires HoldsBuf(s.pool.ops[c.id], u.mem) && BufAt(u.mem, s.pool.ops[c.id].buf.value).data == Received(s, c)
    requires u.outbox == s.outbox + Replies(s.pool.ops[c.id].clientId, p.frames)
    requires var k := s.pool.ops[c.id].clientId;
             u.clients == s.clients[k := s.clients[k].(name := LastName(s.clients[k].name, p.frames))]
    requires p.end.Stop? && p.end.rem < LARGE && !ReadsPast(p.end)
    ensures Rearm(u, c.id, p.end) == Live(t) && ReadOn(s, c, p, t)
  {
    t := RearmMid(u, c.id, p.end);
    RearmKeeps(u, c.id, p.end, t);
    KeptTrans(s, c.id, u, t);
    assert Pending(u.ring, c.id) == [];
  }

  lemma StepReadOn(s: State, c: Completion, p: Parsed) returns (t: State)
    requires Inv(s) && Allowed(s, c) && c.id < |s.pool.ops| && !Drops(s, c)
    requires s.pool.ops[c.id].kind == OpRead && 0 < c.res <= |Received(s, c)|
    requires p == Parse(Received(s, c), 0, c.res) && p.end.Stop? && !ReadsPast(p.end)
    ensures Step(s, c) == Live(t) && ReadOn(s, c, p, t)
  {
    var p', u := ReadServe(s, c);
    t := ReadOnFrom(s, c, p, u);
  }

  /** The memmove of the remainder would leave the buffer. */
  lemma StepOverReads(s: State, c: Completion, p: Parsed)
    requires Inv(s) && Allowed(s, c) && c.id < |s.pool.ops| && !Drops(s, c)
    requires s.pool.ops[c.id].kind == OpRead && 0 < c.res <= |Received(s, c)|
    requires p == Parse(Received(s, c), 0, c.res) && ReadsPast(p.end)
    ensures Step(s, c) == OverRead
  {
    var p', u := ReadServe(s, c);
    RearmOverReads(u, c.id, p.end);
  }

  lemma RearmOverReads(u: State, h: nat, end: Ending)
    requires Mid(u, h) && u.pool.ops[h].kind == OpRead && ReadsPast(end) && end.rem < LARGE
    ensures FinishRecv(u, h, end) == OverRead == Rearm(u, h, end)
  {
    assert HoldsBuf(u.pool.ops[h], u.mem);
    BufSize(u.mem, u.pool.ops[h].buf.value);
  }

  /** A receive that ends the connection after answering the frames before the bad one. */
  ghost predicate ReadOff(s: State, h: nat, frames: seq<Frame>, t: State) {
    && Inv(t) && Out(s.pool, h) && Kept(s, h, t) && !Out(t.pool, h) && s.pool.ops[h].kind == OpRead
    && t.nextId == s.nextId
    && var k, f := s.pool.ops[h].clientId, s.pool.ops[h].clientFd;
    && k in s.clients && f in s.open && s.open[f] == k
    && t.clients == s.clients - {k}
    && t.open == s.open - {f}
    && t.outbox == s.outbox + Replies(k, frames)
  }

  lemma {:induction false} RejectFrom(s: State, h: nat, u: State, frames: seq<Frame>, t: State)
    requires Mid(u, h) && Out(s.pool, h) && u.pool.ops[h] == s.pool.ops[h] && u.pool.ops[h].kind == OpRead
    requires Kept(s, h, u) && u.open == s.open && u.nextId == s.nextId && s.pool.ops[h].clientId in s.clients
    requires u.outbox == s.outbox + Replies(s.pool.ops[h].clientId, frames)
    requires var k := s.pool.ops[h].clientId;
             u.clients == s.clients[k := s.clients[k].(name := LastName(s.clients[k].name, frames))]
    requires DisconnectAndFreeOp(u, h) == Live(t)
    ensures ReadOff(s, h, frames, t)
  {
    var t' := DisconnectMid(u, h);
    FreedKept(u, h, t);
    KeptTrans(s, h, u, t);
    var k := s.pool.ops[h].clientId;
    assert u.clients - {k} == s.clients - {k};
  }

  lemma StepReject(s: State, c: Completion, p: Parsed) returns (t: State)
    requires Inv(s) && Allowed(s, c) && c.id < |s.pool.ops| && !Drops(s, c)
    requires s.pool.ops[c.id].kind == OpRead && 0 < c.res <= |Received(s, c)|
    requires p == Parse(Received(s, c), 0, c.res) && p.end.Reject?
    ensures Step(s, c) == Live(t) && ReadOff(s, c.id, p.frames, t)
  {
    var p', u := ReadServe(s, c);
    t := DisconnectMid(u, c.id);
    RejectFrom(s, c.id, u, p.frames, t);
  }

  /** The peer closed its end. */
  lemma StepClosed(s: State, c: Completion) returns (t: State)
    requires Inv(s) && Allowed(s, c) && c.id < |s.pool.ops| && !Drops(s, c)
    requires s.pool.ops[c.id].kind == OpRead && c.res == 0
    ensures Step(s, c) == Live(t) && Ended(s, c.id, t)
  {
    var d := DeliverInHand(s, c);
    t := DisconnectMid(d, c.id);
    EndedFrom(s, c.id, d, t);
  }

  /** A send acknowledged in part is submitted again from the first unsent byte; in full, it is freed. */
  ghost predicate Wrote(s: State, c: Completion, t: State) {
    && Inv(t) && Out(s.pool, c.id) && Kept(s, c.id, t) && c.res >= 0
    && t.clients == s.clients && t.open == s.open && t.nextId == s.nextId && t.outbox == s.outbox
    && var op := s.pool.ops[c.id];
    && op.kind == OpWrite && op.buf.Some? && c.id in s.msg && c.id in s.acked
    && |s.msg[c.id]| == op.bufLen && op.processed + c.res <= op.bufLen
    && s.acked[c.id] == s.msg[c.id][..op.processed]
    && c.id in t.msg && c.id in t.acked && t.msg[c.id] == s.msg[c.id]
    && t.acked[c.id] == s.msg[c.id][..op.processed + c.res]
    && (Out(t.pool, c.id) <==> op.processed + c.res < op.bufLen)
    && (Out(t.pool, c.id) ==>
          && t.pool.ops[c.id] == op.(processed := op.processed + c.res)
          && Pending(t.ring, c.id) ==
             [SendSqe(op.clientFd, op.buf.value, op.processed + c.res, op.bufLen - (op.processed + c.res))])
  }

  /** What `handle_send` starts from: `d` is `s` with the completion taken and its bytes acknowledged. */
  ghost predicate Acknowledged(s: State, c: Completion, d: State) {
    && c.res >= 0 && Out(s.pool, c.id) && Kept(s, c.id, d)
    && d == s.(mem := d.mem, ring := d.ring, acked := d.acked)
    && BufInv(d.pool, d.mem) && Pending(d.ring, c.id) == []
    && SubOk(s, c.id) && s.pool.ops[c.id].kind == OpWrite
    && Carries(d, c.id, s.pool.ops[c.id], s.pool.ops[c.id].processed + c.res)
  }

  lemma WroteMore(s: State, c: Completion, d: State, op: Operation, t: State)
    requires Acknowledged(s, c, d) && Inv(t)
    requires op == s.pool.ops[c.id].(processed := s.pool.ops[c.id].processed + c.res) && op.processed < op.bufLen
    requires PoolSet(d.pool, c.id, op, t.pool) && t == d.(pool := t.pool, ring := t.ring)
    requires t.ring == Submit(d.ring, c.id, SendSqe(op.clientFd, op.buf.value, op.processed, op.bufLen - op.processed))
    ensures Wrote(s, c, t)
  {
    RearmedKept(d, c.id, op, SendSqe(op.clientFd, op.buf.value, op.processed, op.bufLen - op.processed), t);
    KeptTrans(s, c.id, d, t);
  }

  lemma WroteAll(s: State, c: Completion, d: State, t: State)
    requires Acknowledged(s, c, d) && Inv(t)
    requires s.pool.ops[c.id].processed + c.res == s.pool.ops[c.id].bufLen
    requires PoolFreed(d.pool, c.id, t.pool) && MemFreed(d.mem, d.pool.ops[c.id].buf.value, t.mem)
    requires t == d.(pool := t.pool, mem := t.mem)
    ensures Wrote(s, c, t)
  {
    FreedKept(d, c.id, t);
    KeptTrans(s, c.id, d, t);
  }

  lemma SendWrote(s: State, c: Completion, d: State) returns (t: State)
    requires Acknowledged(s, c, d) && Mid(d, c.id)
    ensures HandleSend(d, c.id, c.res) == Live(t) && Wrote(s, c, t)
  {
    var op := s.pool.ops[c.id].(processed := s.pool.ops[c.id].processed + c.res);
    if op.processed < op.bufLen {
      t := SendMore(d, c.id, c.res, op);
      WroteMore(s, c, d, op, t);
    } else {
      t := SendDone(d, c.id, c.res);
      WroteAll(s, c, d, t);
    }
  }

  lemma StepWrote(s: State, c: Completion) returns (t: State)
    requires Inv(s) && Allowed(s, c) && c.id < |s.pool.ops| && !Drops(s, c)
    requires s.pool.ops[c.id].kind == OpWrite
    ensures Step(s, c) == Live(t) && Wrote(s, c, t)
  {
    assert SubOk(s, c.id);
    var d := DeliverInHand(s, c);
    t := SendWrote(s, c, d);
  }

  /** A new connection, and the next accept. */
  ghost predicate Connects(s: State, c: Completion, t: State) {
    && Inv(t) && Out(s.pool, c.id) && Kept(s, c.id, t)
    && Accepted(s, c.id, c.res, t) && s.pool.ops[c.id].kind == OpAccept
    && var k := s.nextId - 1;
    && s.nextId > 1 && s.pool.ops[c.id].clientId == k && k in s.clients
    && t.nextId == s.nextId + 1
    && t.clients == s.clients[k := s.clients[k].(fd := c.res)][s.nextId := Client(0, [])]
    && c.res !in s.open && t.open == s.open[c.res := k]
    && t.outbox == s.outbox
  }

  lemma StepConnects(s: State, c: Completion) returns (t: State)
    requires Inv(s) && Allowed(s, c) && c.id < |s.pool.ops|
    requires s.pool.ops[c.id].kind == OpAccept && c.res >= 0
    ensures Step(s, c) == Live(t) && Connects(s, c, t)
  {
    var d := DeliverEffect(s, c);
    t := AcceptMid(s, c, d);
    AcceptResult(s, c, d, t);
    AcceptFrame(s, c, d, t);
  }

  lemma StepAcceptFails(s: State, c: Completion)
    requires Inv(s) && Allowed(s, c) && c.id < |s.pool.ops|
    requires s.pool.ops[c.id].kind == OpAccept && c.res < 0
    ensures Step(s, c) == Exited
  {
    var d := DeliverEffect(s, c);
  }

  // ---------------------------------------------------------------- all steps

  /** A receive of `n > 0` bytes by a connected client. */
  predicate Receives(s: State, c: Completion)
    requires Shape(s) && Allowed(s, c) && c.id < |s.pool.ops|
  {
    s.pool.ops[c.id].kind == OpRead && !Drops(s, c) && 0 < c.res <= |Received(s, c)|
  }

  /**
   The two ways the process exits while the submission queue has room: a failed accept, and a receive in which a
   zero-length name frame follows whole frames.
   */
  ghost predicate ExitCause(s: State, c: Completion)
    requires Shape(s) && Allowed(s, c) && c.id < |s.pool.ops|
  {
    || (s.pool.ops[c.id].kind == OpAccept && c.res < 0)
    || (Receives(s, c) && ZeroFrame(Received(s, c), c.res))
  }

  /** The one way to undefined behaviour: a receive that ends in a cut frame shorter than the whole frames before it. */
  ghost predicate OverReadCause(s: State, c: Completion)
    requires Shape(s) && Allowed(s, c) && c.id < |s.pool.ops|
  {
    Receives(s, c) && LateCut(Received(s, c), c.res)
  }

  /** Every completion falls under exactly one of the cases above. */
  ghost predicate Outcomes(s: State, c: Completion, t: State)
    requires Shape(s) && Allowed(s, c) && c.id < |s.pool.ops|
  {
    || Ended(s, c.id, t)
    || Connects(s, c, t)
    || Wrote(s, c, t)
    || (0 < c.res <= |Received(s, c)| &&
        var p := Parse(Received(s, c), 0, c.res); ReadOn(s, c, p, t) || ReadOff(s, c.id, p.frames, t))
  }

  /**
   A step from a good state ends in a good state, or exits for one of two reasons, or reads past the receive
   buffer for one reason, and nothing else.
   */
  lemma StepSafe(s: State, c: Completion)
    requires Inv(s) && Allowed(s, c)
    ensures c.id < |s.pool.ops|
    ensures !Step(s, c).Broken?
    ensures Step(s, c).Exited? <==> ExitCause(s, c)
    ensures Step(s, c).OverRead? <==> OverReadCause(s, c)
    ensures Step(s, c).Live? ==> Inv(Step(s, c).s) && Outcomes(s, c, Step(s, c).s)
  {
    assert Out(s.pool, c.id);
    var op := s.pool.ops[c.id];
    if op.kind == OpAccept {
      StepSafeAccept(s, c);
    } else if c.res < 0 {
      var t := StepFails(s, c);
    } else if op.clientId !in s.clients {
      var t := StepLate(s, c);
    } else if op.kind == OpWrite {
      var t := StepWrote(s, c);
    } else {
      StepSafeRead(s, c);
    }
  }

  lemma StepSafeAccept(s: State, c: Completion)
    requires Inv(s) && Allowed(s, c) && c.id < |s.pool.ops| && s.pool.ops[c.id].kind == OpAccept
    ensures if c.res < 0 then Step(s, c) == Exited
            else Step(s, c).Live? && Inv(Step(s, c).s) && Connects(s, c, Step(s, c).s)
  {
    if c.res < 0 {
      StepAcceptFails(s, c);
    } else {
      var t := StepConnects(s, c);
    }
  }

  lemma StepSafeRead(s: State, c: Completion)
    requires Inv(s) && Allowed(s, c) && c.id < |s.pool.ops| && s.pool.ops[c.id].kind == OpRead && !Drops(s, c)
    ensures !Step(s, c).Broken?
    ensures Step(s, c).Exited? <==> ExitCause(s, c)
    ensures Step(s, c).OverRead? <==> OverReadCause(s, c)
    ensures Step(s, c).Live? ==> Inv(Step(s, c).s) && Outcomes(s, c, Step(s, c).s)
  {
    if c.res == 0 {
      var t := StepClosed(s, c);
    } else {
      var p, u := ReadServe(s, c);
      SpinIff(Received(s, c), c.res);
      OverReadIff(Received(s, c), c.res);
      match p.end
      case Stop(_, _, _) => if ReadsPast(p.end) { StepOverReads(s, c, p); } else { var t := StepReadOn(s, c, p); }
      case Reject => var t := StepReject(s, c, p);
      case Spin =>
    }
  }

  lemma StartInv()
    ensures Start().Live? && Inv(Start().s)
  {
    FreshSlabOk(SMALL, 64);
    FreshSlabOk(LARGE, 64);
    var a, op, t := NextAccept(Initial(), 1);
    FirstOwner(Initial().pool, a, op, t.pool, t.clients);
    SameSubs(t, -1, t.(nextId := 2));
  }

  /** One accept in a pool that has nothing else in use. */
  lemma FirstOwner(p: Pool, a: nat, op: Operation, q: Pool, clients: Clients)
    requires PoolAdded(p, a, op, q) && op.kind == OpAccept && op.clientId == 1 && op.clientFd == -1
    requires (forall id: nat :: !Out(p, id)) && clients.Keys == {1}
    ensures OwnerInv(q, clients, 2) && FdInv(q, clients, 2, map[])
  {
    assert Owner(q, a, 1);
  }

  ghost predicate Safe(r: Outcome) {
    !r.Broken? && (r.Live? ==> Inv(r.s))
  }

  lemma NextSafe(r: Outcome, c: Completion)
    requires Safe(r)
    ensures Safe(Next(r, c))
  {
    if r.Live? && Allowed(r.s, c) {
      StepSafe(r.s, c);
    }
  }

  lemma {:induction false} RunFromSafe(r: Outcome, cs: seq<Completion>)
    requires Safe(r)
    ensures Safe(RunFrom(r, cs))
  {
    if |cs| > 0 {
      RunFromSafe(r, cs[..|cs| - 1]);
      NextSafe(RunFrom(r, cs[..|cs| - 1]), cs[|cs| - 1]);
    }
  }

  /** This completion, now, reads past the receive buffer. */
  ghost predicate OverReadsNow(r: Outcome, c: Completion)
    requires r.Live? ==> Shape(r.s)
  {
    r.Live? && Allowed(r.s, c) && c.id < |r.s.pool.ops| && OverReadCause(r.s, c)
  }

  /** This completion, now, makes the process exit. */
  ghost predicate ExitsNow(r: Outcome, c: Completion)
    requires r.Live? ==> Shape(r.s)
  {
    r.Live? && Allowed(r.s, c) && c.id < |r.s.pool.ops| && ExitCause(r.s, c)
  }

  lemma NextEnding(r: Outcome, c: Completion)
    requires Safe(r)
    ensures Next(r, c).OverRead? <==> r.OverRead? || OverReadsNow(r, c)
    ensures Next(r, c).Exited? <==> r.Exited? || ExitsNow(r, c)
  {
    if r.Live? && Allowed(r.s, c) { StepSafe(r.s, c); }
  }

  /** Some completion of the run reads past the receive buffer. */
  ghost predicate SomeOverRead(r: Outcome, cs: seq<Completion>)
    requires r.Live? ==> Shape(r.s)
  {
    && |cs| > 0
    && var n := |cs| - 1;
       SomeOverRead(r, cs[..n]) || OverReadsNow(RunFrom(r, cs[..n]), cs[n])
  }

  /** Some completion of the run makes the process exit. */
  ghost predicate SomeExit(r: Outcome, cs: seq<Completion>)
    requires r.Live? ==> Shape(r.s)
  {
    && |cs| > 0
    && var n := |cs| - 1;
       SomeExit(r, cs[..n]) || ExitsNow(RunFrom(r, cs[..n]), cs[n])
  }

  /** How a run ends is decided by the causes along it. */
  lemma {:induction false} RunEndings(r: Outcome, cs: seq<Completion>)
    requires Safe(r) && r.Live?
    ensures RunFrom(r, cs).OverRead? <==> SomeOverRead(r, cs)
    ensures RunFrom(r, cs).Exited? <==> SomeExit(r, cs)
  {
    if |cs| > 0 {
      var n := |cs| - 1;
      RunEndings(r, cs[..n]);
      RunFromSafe(r, cs[..n]);
      NextEnding(RunFrom(r, cs[..n]), cs[n]);
    }
  }

  /** Over every run, in every order and with every result the kernel may report: the invariant holds. */
  lemma {:induction false} RunSafe(cs: seq<Completion>)
    ensures Safe(Run(cs))
    ensures Run(cs).OverRead? <==> SomeOverRead(Start(), cs)
    ensures Run(cs).Exited? <==> SomeExit(Start(), cs)
  {
    StartInv();
    RunFromSafe(Start(), cs);
    RunEndings(Start(), cs);
  }
}
