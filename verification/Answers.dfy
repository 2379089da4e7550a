/**
 Every frame handed to `handle` is answered by a WRITE of its own: in flight on the client's socket, nothing of it
 sent yet, its buffer filled with the bytes of the reply.
 */
module Answers {
  import opened Base
  import opened Ops
  import opened PoolModel
  import opened ServerState
  import opened ServerInvariant
  import opened ServerSteps
  import opened ServerRuns
  import opened Boundaries

  /** The operation `id` is a WRITE of `bytes` to `client`, not sent yet. */
  ghost predicate IsAnswer(t: State, id: nat, client: nat, fd: int, bytes: seq<byte>) {
    && Out(t.pool, id) && t.pool.ops[id].kind == OpWrite
    && t.pool.ops[id].clientId == client && t.pool.ops[id].clientFd == fd && t.pool.ops[id].buf.Some?
    && var p := t.pool.ops[id].buf.value;
    && Pending(t.ring, id) == [SendSqe(fd, p, 0, |bytes|)]
    && InUse(t.mem, p) && |bytes| <= |BufAt(t.mem, p).data| && BufAt(t.mem, p).data[..|bytes|] == bytes
    && id in t.msg && t.msg[id] == bytes && id in t.acked && t.acked[id] == []
  }

  lemma AnswerStays(t: State, id: nat, client: nat, fd: int, bytes: seq<byte>, u: State)
    requires IsAnswer(t, id, client, fd, bytes) && Untouched(t, id, u)
    ensures IsAnswer(u, id, client, fd, bytes)
  {
    assert InUse(t.mem, t.pool.ops[id].buf.value);
  }

  lemma NewAnswer(s: State, fd: int, client: nat, bytes: seq<byte>) returns (id: nat)
    requires Shape(s) && |bytes| <= SMALL && (forall i: nat :: !Out(s.pool, i) ==> Pending(s.ring, i) == [])
    ensures !Out(s.pool, id) && IsAnswer(Reply(s, fd, client, bytes), id, client, fd, bytes)
    ensures Reply(s, fd, client, bytes).outbox == s.outbox + [Sent(client, bytes)]
  {
    var op;
    id, op := ReplyEffect(s, fd, client, bytes);
    assert Pending(s.ring, id) == [];
  }

  /** One frame, one new WRITE. */
  lemma FrameAnswered(s: State, h: nat, op: Operation, f: Frame) returns (t: State, id: nat)
    requires Mid(s, h) && op == s.pool.ops[h] && Connected(s.clients, s.nextId, op.clientId)
    ensures t == HandleSetUsername(s, op, f) && Mid(t, h) && Served(s, h, t)
    ensures !Out(s.pool, id) && IsAnswer(t, id, op.clientId, op.clientFd, ReplyBytes(f.bytes, f.seqid))
  {
    t := FrameMid(s, h, op, f);
    id := NewAnswer(Named(s, op.clientId, f.bytes), op.clientFd, op.clientId, ReplyBytes(f.bytes, f.seqid));
  }

  /** The operation `id`, not in use in the pool `p`, answers the frame. */
  ghost predicate NewlyAnswersIs(p: Pool, t: State, client: nat, fd: int, f: Frame, id: nat) {
    !Out(p, id) && IsAnswer(t, id, client, fd, ReplyBytes(f.bytes, f.seqid))
  }

  /** The same, unfolded only where `NewlyAnswersIs` is named. */
  ghost predicate NewlyAnswers(p: Pool, t: State, client: nat, fd: int, f: Frame, id: nat) {
    forall i {:trigger NewlyAnswersIs(p, t, client, fd, f, i)} :: i == id ==> NewlyAnswersIs(p, t, client, fd, f, i)
  }

  /** Each frame has its answer among `ids`, each of them new. */
  ghost predicate AllAnswered(p: Pool, t: State, client: nat, fd: int, frames: seq<Frame>, ids: seq<nat>) {
    && |ids| == |frames| && NoDup(ids)
    && (forall i {:trigger NewlyAnswers(p, t, client, fd, frames[i], ids[i])} :: 0 <= i < |frames| ==>
          NewlyAnswers(p, t, client, fd, frames[i], ids[i]))
  }

  lemma StaysNew(p: Pool, t: State, client: nat, fd: int, f: Frame, id: nat, h: nat, u: State)
    requires NewlyAnswers(p, t, client, fd, f, id) && Out(p, h) && Kept(t, h, u)
    ensures NewlyAnswers(p, u, client, fd, f, id)
  {
    assert NewlyAnswersIs(p, t, client, fd, f, id);
    AnswerStays(t, id, client, fd, ReplyBytes(f.bytes, f.seqid), u);
  }

  lemma {:induction false} AnswersStay(p: Pool, t: State, client: nat, fd: int, frames: seq<Frame>, ids: seq<nat>,
                                       h: nat, u: State)
    requires AllAnswered(p, t, client, fd, frames, ids) && Out(p, h) && Kept(t, h, u)
    ensures AllAnswered(p, u, client, fd, frames, ids)
  {
    forall i | 0 <= i < |frames| ensures NewlyAnswers(p, u, client, fd, frames[i], ids[i]) {
      StaysNew(p, t, client, fd, frames[i], ids[i], h, u);
    }
  }

  lemma {:induction false} OneMore(p: Pool, t: State, client: nat, fd: int, frames: seq<Frame>, ids: seq<nat>,
                                   id: nat)
    requires |frames| > 0 && AllAnswered(p, t, client, fd, frames[..|frames| - 1], ids)
    requires id !in ids && NewlyAnswers(p, t, client, fd, frames[|frames| - 1], id)
    ensures AllAnswered(p, t, client, fd, frames, ids + [id])
  {
    var n, init, more := |frames| - 1, frames[..|frames| - 1], ids + [id];
    NoDupSnoc(ids, id);
    forall i | 0 <= i < |frames| ensures NewlyAnswers(p, t, client, fd, frames[i], more[i]) {
      assert i < n ==> NewlyAnswers(p, t, client, fd, init[i], ids[i]);
    }
  }

  lemma {:induction false} NotAmong(p: Pool, t: State, client: nat, fd: int, frames: seq<Frame>, ids: seq<nat>,
                                    id: nat)
    requires AllAnswered(p, t, client, fd, frames, ids) && !Out(t.pool, id)
    ensures id !in ids
  {
    forall i | 0 <= i < |ids| ensures ids[i] != id {
      assert NewlyAnswers(p, t, client, fd, frames[i], ids[i]);
      assert NewlyAnswersIs(p, t, client, fd, frames[i], ids[i]);
    }
  }

  /** The next frame. */
  lemma {:induction false} AnsweredNext(p: Pool, h: nat, op: Operation, frames: seq<Frame>, u: State, ids: seq<nat>)
    returns (t: State, id: nat)
    requires |frames| > 0 && Mid(u, h) && Out(p, h) && op == u.pool.ops[h]
    requires forall i: nat :: Out(p, i) ==> Out(u.pool, i)
    requires Connected(u.clients, u.nextId, op.clientId)
    requires AllAnswered(p, u, op.clientId, op.clientFd, frames[..|frames| - 1], ids)
    ensures t == HandleSetUsername(u, op, frames[|frames| - 1]) && Mid(t, h) && Served(u, h, t)
    ensures AllAnswered(p, t, op.clientId, op.clientFd, frames, ids + [id])
  {
    var n := |frames| - 1;
    t, id := FrameAnswered(u, h, op, frames[n]);
    ServedKept(u, h, t);
    AnswersStay(p, u, op.clientId, op.clientFd, frames[..n], ids, h, t);
    NotAmong(p, u, op.clientId, op.clientFd, frames[..n], ids, id);
    assert NewlyAnswersIs(p, t, op.clientId, op.clientFd, frames[n], id);
    OneMore(p, t, op.clientId, op.clientFd, frames, ids, id);
  }

  lemma {:induction false} ServeAnswered(s: State, h: nat, op: Operation, frames: seq<Frame>)
    returns (t: State, ids: seq<nat>)
    requires Mid(s, h) && op == s.pool.ops[h] && Connected(s.clients, s.nextId, op.clientId)
    ensures t == Serve(s, op, frames) && Mid(t, h) && Served(s, h, t)
    ensures AllAnswered(s.pool, t, op.clientId, op.clientFd, frames, ids)
  {
    if |frames| == 0 {
      t, ids := s, [];
      RenamedServed(s, h, t);
    } else {
      var n := |frames| - 1;
      var u, id;
      u, ids := ServeAnswered(s, h, op, frames[..n]);
      ServedPool(s, h, u);
      t, id := AnsweredNext(s.pool, h, op, frames, u, ids);
      ids := ids + [id];
      ServedTrans(s, h, u, t);
    }
  }

  lemma ServedPool(s: State, h: nat, u: State)
    requires Served(s, h, u)
    ensures forall i: nat :: Out(s.pool, i) ==> Out(u.pool, i)
  {
    forall i: nat | Out(s.pool, i) ensures Out(u.pool, i) {
      assert Untouched(s, i, u);
    }
  }

  /** What ends the receive leaves every other operation alone. */
  lemma FinishKeeps(u: State, h: nat, end: Ending) returns (t: State)
    requires Mid(u, h) && u.pool.ops[h].kind == OpRead && (end.Stop? ==> end.rem < LARGE && !ReadsPast(end))
    requires !end.Spin?
    ensures FinishRecv(u, h, end) == Live(t) && Kept(u, h, t)
  {
    if end.Reject? {
      t := DisconnectMid(u, h);
      FreedKept(u, h, t);
    } else {
      t := RearmMid(u, h, end);
      RearmKeeps(u, h, end, t);
    }
  }

  /**
   A receive that does not end the run: for each frame it hands over there is afterwards a WRITE of its own in flight,
   on the socket of the client, with the reply to that frame; also where a later frame made the server drop the client.
   */
  lemma ReceiveAnswered(s: State, c: Completion) returns (ids: seq<nat>)
    requires Inv(s) && Allowed(s, c) && c.id < |s.pool.ops| && Receives(s, c) && Step(s, c).Live?
    ensures s.pool.ops[c.id].clientId in s.clients
    ensures var k := s.pool.ops[c.id].clientId;
            AllAnswered(s.pool, Step(s, c).s, k, s.clients[k].fd, Parse(Received(s, c), 0, c.res).frames, ids)
  {
    var u;
    u, ids := LoopAnswered(s, c);
    var op, p := s.pool.ops[c.id], Parse(Received(s, c), 0, c.res);
    if ReadsPast(p.end) { RearmOverReads(u, c.id, p.end); }
    var t := FinishKeeps(u, c.id, p.end);
    AnswersStay(s.pool, u, op.clientId, op.clientFd, p.frames, ids, c.id, t);
  }

  /** The loop of the receive, from the completion taken to the last frame served. */
  lemma LoopAnswered(s: State, c: Completion) returns (u: State, ids: seq<nat>)
    requires Inv(s) && Allowed(s, c) && c.id < |s.pool.ops| && Receives(s, c)
    ensures Mid(u, c.id) && u.pool.ops[c.id] == s.pool.ops[c.id]
    ensures s.pool.ops[c.id].clientId in s.clients
    ensures s.pool.ops[c.id].clientFd == s.clients[s.pool.ops[c.id].clientId].fd
    ensures var op, p := s.pool.ops[c.id], Parse(Received(s, c), 0, c.res);
            && AllAnswered(s.pool, u, op.clientId, op.clientFd, p.frames, ids)
            && Step(s, c) == if p.end.Spin? then Exited else FinishRecv(u, c.id, p.end)
  {
    var op, data := s.pool.ops[c.id], Received(s, c);
    var p := Parse(data, 0, c.res);
    var d := DeliverInHand(s, c);
    assert Out(s.pool, c.id);
    ReaderSocket(s.pool, s.clients, s.nextId, s.open, op, c.id);
    u, ids := ServeAnswered(d, c.id, op, p.frames);
    DispatchReceives(d, c);
    RecvEquation(d, c.id, c.res, op, data);
  }

  lemma DispatchReceives(d: State, c: Completion)
    requires Shape(d) && c.id < |d.pool.ops| && !Drops(d, c) && d.pool.ops[c.id].kind == OpRead
    ensures Dispatch(d, c) == HandleRecv(d, c.id, c.res)
  {
  }

  lemma ReaderSocket(p: Pool, clients: Clients, nextId: nat, open: map<int, nat>, op: Operation, id: nat)
    requires OwnerInv(p, clients, nextId) && FdInv(p, clients, nextId, open)
    requires Out(p, id) && op == p.ops[id] && op.kind == OpRead && op.clientId in clients
    ensures Connected(clients, nextId, op.clientId) && op.clientFd == clients[op.clientId].fd
  {
  }
}
