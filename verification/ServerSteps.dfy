/**
 Every primitive of a step keeps the ownership invariant.

 The first half works on the parts of the state alone: what returning, adding or changing one
 operation does to each conjunct. The second half puts the conjuncts together for `free_op`,
 the disconnect, the replies, the parse loop, re-arming and the two resumes.
 */
module ServerSteps {
  import opened Base
  import opened Ops
  import opened PoolModel
  import opened SlabModel
  import opened ClientModel
  import opened ServerState
  import Protocol
  import opened ServerInvariant

  // --------------------------------------------------- one operation goes away

  ghost predicate PoolFreed(p: Pool, h: nat, q: Pool) {
    && Out(p, h)
    && (forall id: nat :: Out(q, id) <==> Out(p, id) && id != h)
    && (forall id: nat :: Out(q, id) ==> q.ops[id] == p.ops[id])
  }

  ghost predicate MemFreed(m: Mem, x: Ptr, n: Mem) {
    && !InUse(n, x)
    && (forall y: Ptr :: Resolves(n, y) <==> Resolves(m, y))
    && (forall y: Ptr :: Resolves(m, y) && y != x ==> BufAt(n, y) == BufAt(m, y))
  }

  lemma FreedBufs(p: Pool, m: Mem, h: nat, q: Pool, n: Mem)
    requires BufInv(p, m) && PoolFreed(p, h, q) && p.ops[h].buf.Some? && MemFreed(m, p.ops[h].buf.value, n)
    ensures BufInv(q, n)
  {
    forall id: nat | Out(q, id) ensures HoldsBuf(q.ops[id], n) {
      assert HoldsBuf(p.ops[id], m);
    }
    forall x: Ptr | InUse(n, x) ensures exists id: nat :: Holder(q, id, x) {
      assert InUse(m, x);
      var id: nat :| Holder(p, id, x);
      assert Holder(q, id, x);
    }
  }

  /** The operation serves no map entry, so nothing depends on it. */
  predicate Idle(p: Pool, clients: Clients, h: nat)
    requires h < |p.ops|
  {
    p.ops[h].kind == OpWrite || p.ops[h].clientId !in clients
  }

  lemma FreedOwners(p: Pool, clients: Clients, nextId: nat, h: nat, q: Pool)
    requires OwnerInv(p, clients, nextId) && PoolFreed(p, h, q) && Idle(p, clients, h)
    ensures OwnerInv(q, clients, nextId)
  {
    assert forall i: nat, c: nat :: Owner(q, i, c) ==> Owner(p, i, c);
    forall c: nat | c in clients ensures exists id: nat :: Owner(q, id, c) {
      var id: nat :| Owner(p, id, c);
      assert Owner(q, id, c);
    }
  }

  lemma FreedSubs(s: State, h: nat, t: State)
    requires SubInv(s, h) && BufInv(s.pool, s.mem) && PoolFreed(s.pool, h, t.pool)
    requires s.pool.ops[h].buf.Some? && MemFreed(s.mem, s.pool.ops[h].buf.value, t.mem)
    requires t.ring == s.ring && t.msg == s.msg && t.acked == s.acked
    ensures SubInv(t, -1)
  {
    forall id: nat | Out(t.pool, id) ensures SubOk(t, id) {
      assert SubOk(s, id);
      assert s.pool.ops[id].buf != s.pool.ops[h].buf;
    }
  }

  // ------------------------------------------------------- one operation is added

  ghost predicate PoolAdded(p: Pool, a: nat, op: Operation, q: Pool) {
    && !Out(p, a) && Out(q, a) && q.ops[a] == op
    && (forall id: nat :: id != a ==> (Out(q, id) <==> Out(p, id)))
    && (forall id: nat :: Out(p, id) ==> q.ops[id] == p.ops[id])
  }

  ghost predicate MemAdded(m: Mem, x: Ptr, n: Mem) {
    && !InUse(m, x) && Resolves(n, x) && BufAt(n, x).ref == 1
    && (forall y: Ptr :: y != x ==> (Resolves(n, y) <==> Resolves(m, y)))
    && (forall y: Ptr :: y != x && Resolves(m, y) ==> BufAt(n, y) == BufAt(m, y))
  }

  lemma AddedBufs(p: Pool, m: Mem, a: nat, op: Operation, q: Pool, n: Mem)
    requires BufInv(p, m) && PoolAdded(p, a, op, q)
    requires HoldsBuf(op, n) && MemAdded(m, op.buf.value, n)
    ensures BufInv(q, n)
  {
    forall id: nat | Out(p, id)
      ensures HoldsBuf(q.ops[id], n) && q.ops[id].buf != op.buf
    {
      assert HoldsBuf(p.ops[id], m);
    }
    forall x: Ptr | InUse(n, x) ensures exists id: nat :: Holder(q, id, x) {
      if x == op.buf.value {
        assert Holder(q, a, x);
      } else {
        assert InUse(m, x);
        var id: nat :| Holder(p, id, x);
        assert Holder(q, id, x);
      }
    }
  }

  lemma AddedWriteOwners(p: Pool, clients: Clients, nextId: nat, a: nat, op: Operation, q: Pool)
    requires OwnerInv(p, clients, nextId) && PoolAdded(p, a, op, q)
    requires op.kind == OpWrite && Connected(clients, nextId, op.clientId)
    ensures OwnerInv(q, clients, nextId)
  {
    assert forall i: nat, c: nat :: Owner(q, i, c) ==> Owner(p, i, c);
    forall c: nat | c in clients ensures exists id: nat :: Owner(q, id, c) {
      var id: nat :| Owner(p, id, c);
      assert Owner(q, id, c);
    }
  }

  lemma AddedPending(p: Pool, ring: Ring, h: int, a: nat, op: Operation, q: Sqe, p': Pool, ring': Ring)
    requires PendingInv(p, ring, h) && PoolAdded(p, a, op, p') && ring' == Submit(ring, a, q)
    ensures PendingInv(p', ring', h)
    ensures Pending(ring', a) == [q]
    ensures forall id: nat :: id != a ==> Pending(ring', id) == Pending(ring, id)
  {
    assert Pending(ring, a) == [];
  }

  lemma AddedWriteFds(p: Pool, clients: Clients, nextId: nat, open: map<int, nat>, a: nat, op: Operation, q: Pool)
    requires FdInv(p, clients, nextId, open) && PoolAdded(p, a, op, q)
    requires op.kind == OpWrite && Connected(clients, nextId, op.clientId) && op.clientFd == clients[op.clientId].fd
    ensures FdInv(q, clients, nextId, open)
  {
  }

  lemma AddedSubs(s: State, h: int, a: nat, op: Operation, t: State)
    requires SubInv(s, h) && BufInv(s.pool, s.mem) && PoolAdded(s.pool, a, op, t.pool)
    requires op.buf.Some? && MemAdded(s.mem, op.buf.value, t.mem)
    requires forall id: nat :: id != a ==> Pending(t.ring, id) == Pending(s.ring, id)
    requires forall id: nat :: id != a && id in s.msg && id in s.acked ==>
               id in t.msg && id in t.acked && t.msg[id] == s.msg[id] && t.acked[id] == s.acked[id]
    requires SubOk(t, a)
    ensures SubInv(t, h)
  {
    forall id: nat | Out(t.pool, id) && id != h ensures SubOk(t, id) {
      if id != a {
        assert SubOk(s, id);
        assert HoldsBuf(s.pool.ops[id], s.mem);
      }
    }
  }

  // --------------------------------------------- one operation is given new fields

  ghost predicate PoolSet(p: Pool, h: nat, op: Operation, q: Pool) {
    && Out(p, h) && Out(q, h) && q.ops[h] == op
    && (forall id: nat :: Out(q, id) <==> Out(p, id))
    && (forall id: nat :: Out(p, id) && id != h ==> q.ops[id] == p.ops[id])
  }

  /** Same buffers and counts; only the bytes at `x` may differ. */
  ghost predicate MemTouched(m: Mem, x: Ptr, n: Mem) {
    && (forall y: Ptr :: Resolves(n, y) <==> Resolves(m, y))
    && (forall y: Ptr :: Resolves(m, y) ==> BufAt(n, y).ref == BufAt(m, y).ref)
    && (forall y: Ptr :: Resolves(m, y) && y != x ==> BufAt(n, y) == BufAt(m, y))
  }

  lemma SetBufs(p: Pool, m: Mem, h: nat, op: Operation, q: Pool, x: Ptr, n: Mem)
    requires BufInv(p, m) && PoolSet(p, h, op, q) && MemTouched(m, x, n)
    requires op.buf == p.ops[h].buf && op.bufCap == p.ops[h].bufCap
    requires op.kind == OpWrite <==> p.ops[h].kind == OpWrite
    ensures BufInv(q, n)
  {
    forall id: nat | Out(q, id) ensures HoldsBuf(q.ops[id], n) {
      assert HoldsBuf(p.ops[id], m);
    }
    forall y: Ptr | InUse(n, y) ensures exists id: nat :: Holder(q, id, y) {
      assert InUse(m, y);
      var id: nat :| Holder(p, id, y);
      assert Holder(q, id, y);
    }
  }

  lemma SetOwners(p: Pool, clients: Clients, nextId: nat, h: nat, op: Operation, q: Pool)
    requires OwnerInv(p, clients, nextId) && PoolSet(p, h, op, q)
    requires op.kind == p.ops[h].kind && op.clientId == p.ops[h].clientId
    ensures OwnerInv(q, clients, nextId)
  {
    assert forall i: nat, c: nat :: Owner(q, i, c) <==> Owner(p, i, c);
    forall c: nat | c in clients ensures exists id: nat :: Owner(q, id, c) {
      var id: nat :| Owner(p, id, c);
      assert Owner(q, id, c);
    }
  }

  /** Re-arming the operation in hand. `x` is its own buffer. */
  lemma SetSubs(s: State, h: nat, op: Operation, x: Ptr, t: State)
    requires SubInv(s, h) && BufInv(s.pool, s.mem) && PoolSet(s.pool, h, op, t.pool)
    requires s.pool.ops[h].buf == Some(x) && MemTouched(s.mem, x, t.mem)
    requires forall id: nat :: id != h ==> Pending(t.ring, id) == Pending(s.ring, id)
    requires t.msg == s.msg && t.acked == s.acked
    requires SubOk(t, h)
    ensures SubInv(t, -1)
  {
    forall id: nat | Out(t.pool, id) ensures SubOk(t, id) {
      if id != h {
        assert SubOk(s, id);
        assert HoldsBuf(s.pool.ops[id], s.mem);
        assert s.pool.ops[id].buf != s.pool.ops[h].buf;
      }
    }
  }

  // ------------------------------------------------------------------ free_op

  lemma ReleaseEffect(m: Mem, p: Ptr, cap: nat)
    requires MemOk(m) && Resolves(m, p) && p.cap == cap && BufAt(m, p).ref == 1
    ensures Taken(SlabFor(m, cap), p.idx)
    ensures MemFreed(m, p, WithSlab(m, cap, Release(SlabFor(m, cap), p.idx)))
  {
    HeldTaken(SlabFor(m, cap), p.idx);
    ReleaseFrame(SlabFor(m, cap), p.idx);
  }

  lemma FreeOpEffect(s: State, h: nat) returns (t: State)
    requires Shape(s) && Out(s.pool, h) && HoldsBuf(s.pool.ops[h], s.mem)
    ensures FreeOp(s, h) == Live(t)
    ensures t == s.(pool := t.pool, mem := t.mem)
    ensures PoolFreed(s.pool, h, t.pool)
    ensures MemFreed(s.mem, s.pool.ops[h].buf.value, t.mem)
  {
    var op := s.pool.ops[h];
    ReleaseEffect(s.mem, op.buf.value, op.bufCap);
    ReturnFrame(s.pool, h, Cleared(op));
    t := FreeOp(s, h).s;
  }

  /** `free_op` on the operation in hand succeeds: its buffer is released and its id returned, each once. */
  lemma FreeOpMid(s: State, h: nat) returns (t: State)
    requires Mid(s, h) && Idle(s.pool, s.clients, h)
    ensures FreeOp(s, h) == Live(t) && Inv(t)
    ensures t == s.(pool := t.pool, mem := t.mem)
    ensures PoolFreed(s.pool, h, t.pool)
    ensures MemFreed(s.mem, s.pool.ops[h].buf.value, t.mem)
  {
    t := FreeOpEffect(s, h);
    FreedBufs(s.pool, s.mem, h, t.pool, t.mem);
    FreedOwners(s.pool, s.clients, s.nextId, h, t.pool);
    FreedSubs(s, h, t);
  }

  // --------------------------------------------------------------- disconnects

  /** Dropping an entry that the operation in hand serves or writes to. */
  lemma DropMid(s: State, h: nat, t: State)
    requires h >= 0 && Mid(s, h) && Connected(s.clients, s.nextId, s.pool.ops[h].clientId)
    requires t == s.(open := s.open - {s.pool.ops[h].clientFd},
                     clients := s.clients - {s.pool.ops[h].clientId})
    ensures s.pool.ops[h].clientFd in s.open
    ensures s.open[s.pool.ops[h].clientFd] == s.pool.ops[h].clientId
    ensures Mid(t, h)
  {
    SameSubs(s, h, t);
    assert FdInv(t.pool, t.clients, t.nextId, t.open);
  }

  /** The first failure of a connected client closes its open socket and deletes it; any later one only frees. */
  lemma DisconnectMid(s: State, h: nat) returns (t: State)
    requires h >= 0 && Mid(s, h) && s.pool.ops[h].kind != OpAccept
    ensures DisconnectAndFreeOp(s, h) == Live(t) && Inv(t)
    ensures t == s.(pool := t.pool, mem := t.mem, open := t.open, clients := t.clients)
    ensures PoolFreed(s.pool, h, t.pool)
    ensures MemFreed(s.mem, s.pool.ops[h].buf.value, t.mem)
    ensures t.clients == s.clients - {s.pool.ops[h].clientId}
    ensures t.open == if s.pool.ops[h].clientId in s.clients then s.open - {s.pool.ops[h].clientFd} else s.open
    ensures s.pool.ops[h].clientId in s.clients ==>
              s.pool.ops[h].clientFd in s.open && s.open[s.pool.ops[h].clientFd] == s.pool.ops[h].clientId
  {
    var op := s.pool.ops[h];
    if op.clientId in s.clients {
      var u := s.(open := s.open - {op.clientFd}, clients := s.clients - {op.clientId});
      DropMid(s, h, u);
      t := FreeOpMid(u, h);
    } else {
      t := FreeOpMid(s, h);
      MinusAbsent(s.clients, op.clientId);
    }
  }

  // ------------------------------------------------------------------- replies

  lemma ReplyMem(m: Mem, bytes: seq<byte>) returns (p: Ptr, n: Mem)
    requires MemOk(m) && |bytes| <= SMALL
    ensures p == Ptr(SMALL, NextBuf(m.small))
    ensures var a := m.(small := Acquire(m.small, 1));
            MemOk(a) && Resolves(a, p) && |BufAt(a, p).data| == SMALL && n == Poke(a, p, 0, bytes)
    ensures MemAdded(m, p, n)
    ensures |BufAt(n, p).data| == SMALL && BufAt(n, p).data[..|bytes|] == bytes
  {
    p := Ptr(SMALL, NextBuf(m.small));
    AcquireFrame(m.small, 1);
    var a := m.(small := Acquire(m.small, 1));
    PokeFrame(a, p, 0, bytes);
    n := Poke(a, p, 0, bytes);
  }

  /** One new WRITE with its own buffer, carrying `bytes`, and its submission. */
  ghost predicate Replied(s: State, fd: int, clientId: nat, bytes: seq<byte>, a: nat, op: Operation, t: State) {
    && Shape(t)
    && t == s.(pool := t.pool, mem := t.mem, ring := t.ring, outbox := t.outbox, msg := t.msg, acked := t.acked)
    && PoolAdded(s.pool, a, op, t.pool)
    && op.buf.Some? && HoldsBuf(op, t.mem) && MemAdded(s.mem, op.buf.value, t.mem)
    && op.kind == OpWrite && op.clientId == clientId && op.clientFd == fd
    && op.processed == 0 && op.bufLen == |bytes|
    && t.ring == Submit(s.ring, a, SendSqe(fd, op.buf.value, 0, |bytes|))
    && t.outbox == s.outbox + [Sent(clientId, bytes)]
    && t.msg == s.msg[a := bytes] && t.acked == s.acked[a := []]
    && Carries(t, a, op, 0)
  }

  lemma ReplyEffect(s: State, fd: int, clientId: nat, bytes: seq<byte>) returns (a: nat, op: Operation)
    requires Shape(s) && |bytes| <= SMALL
    ensures Replied(s, fd, clientId, bytes, a, op, Reply(s, fd, clientId, bytes))
  {
    var p, n := ReplyMem(s.mem, bytes);
    a := NewId(s.pool);
    op := Operation(OpWrite, clientId, fd, SMALL, |bytes|, Some(p), 0);
    CheckOutFrame(s.pool, op);
  }

  /** Queueing a reply to a connected client keeps the invariant, whichever operation is in hand. */
  lemma ReplyMid(s: State, h: int, fd: int, clientId: nat, bytes: seq<byte>, a: nat, op: Operation, t: State)
    requires Mid(s, h) && 0 < |bytes| <= SMALL
    requires Connected(s.clients, s.nextId, clientId) && fd == s.clients[clientId].fd
    requires Replied(s, fd, clientId, bytes, a, op, t)
    ensures Mid(t, h)
  {
    ReplyCore(s, h, fd, clientId, bytes, a, op, t);
    AddedWriteOwners(s.pool, s.clients, s.nextId, a, op, t.pool);
    AddedWriteFds(s.pool, s.clients, s.nextId, s.open, a, op, t.pool);
  }

  lemma ReplyCore(s: State, h: int, fd: int, clientId: nat, bytes: seq<byte>, a: nat, op: Operation, t: State)
    requires Core(s, h) && 0 < |bytes| <= SMALL && Replied(s, fd, clientId, bytes, a, op, t)
    ensures Core(t, h)
  {
    AddedPending(s.pool, s.ring, h, a, op, SendSqe(fd, op.buf.value, 0, |bytes|), t.pool, t.ring);
    AddedBufs(s.pool, s.mem, a, op, t.pool, t.mem);
    assert SubOk(t, a);
    AddedSubs(s, h, a, op, t);
  }

  // ---------------------------------------------------------- the parse loop

  lemma SetNameMid(s: State, h: int, c: nat, name: seq<byte>, t: State)
    requires Mid(s, h) && c in s.clients && t == SetName(s, c, name)
    ensures Mid(t, h)
  {
    RenamedOwners(s.pool, s.clients, s.nextId, t.clients);
    RenamedFds(s.pool, s.clients, s.nextId, s.open, t.clients);
    SameSubs(s, h, t);
  }

  ghost predicate Renamed(clients: Clients, clients': Clients) {
    && clients'.Keys == clients.Keys
    && forall c :: c in clients ==> clients'[c].fd == clients[c].fd
  }

  lemma RenamedOwners(p: Pool, clients: Clients, nextId: nat, clients': Clients)
    requires OwnerInv(p, clients, nextId) && Renamed(clients, clients')
    ensures OwnerInv(p, clients', nextId)
  {
    forall c: nat | c in clients' ensures exists id: nat :: Owner(p, id, c) {
      assert c in clients;
    }
  }

  lemma RenamedFds(p: Pool, clients: Clients, nextId: nat, open: map<int, nat>, clients': Clients)
    requires FdInv(p, clients, nextId, open) && Renamed(clients, clients')
    ensures FdInv(p, clients', nextId, open)
  {
    assert forall c: nat :: Connected(clients', nextId, c) <==> Connected(clients, nextId, c);
  }

  lemma SameSubs(s: State, h: int, t: State)
    requires SubInv(s, h)
    requires t.pool == s.pool && t.mem == s.mem && t.ring == s.ring && t.msg == s.msg && t.acked == s.acked
    ensures SubInv(t, h)
  {
    forall id: nat | Out(t.pool, id) && id != h ensures SubOk(t, id) {
      assert SubOk(s, id);
    }
  }

  /** What the parse loop may have done by now: other operations and other clients are as they were. */
  ghost predicate Served(s: State, h: nat, t: State) {
    && Out(s.pool, h) && Out(t.pool, h) && t.pool.ops[h] == s.pool.ops[h]
    && t == s.(pool := t.pool, mem := t.mem, ring := t.ring, clients := t.clients,
               outbox := t.outbox, msg := t.msg, acked := t.acked)
    && Renamed(s.clients, t.clients)
    && (forall c :: c in s.clients && c != s.pool.ops[h].clientId ==> t.clients[c] == s.clients[c])
    && (forall id: nat :: Out(s.pool, id) ==> Untouched(s, id, t))
  }

  /** An operation in flight, its buffer, its submissions and its history are the same in both states. */
  ghost predicate Untouched(s: State, id: nat, t: State)
    requires Out(s.pool, id)
  {
    && Out(t.pool, id) && t.pool.ops[id] == s.pool.ops[id]
    && Pending(t.ring, id) == Pending(s.ring, id)
    && (forall p: Ptr :: Some(p) == s.pool.ops[id].buf && InUse(s.mem, p) ==>
          Resolves(t.mem, p) && BufAt(t.mem, p) == BufAt(s.mem, p))
    && (id in s.msg ==> id in t.msg && t.msg[id] == s.msg[id])
    && (id in s.acked ==> id in t.acked && t.acked[id] == s.acked[id])
  }

  lemma UntouchedTrans(s: State, id: nat, t: State, u: State)
    requires Out(s.pool, id) && Untouched(s, id, t) && Untouched(t, id, u)
    ensures Untouched(s, id, u)
  {
    forall p: Ptr | Some(p) == s.pool.ops[id].buf && InUse(s.mem, p)
      ensures Resolves(u.mem, p) && BufAt(u.mem, p) == BufAt(s.mem, p)
    {
      assert InUse(t.mem, p);
    }
  }

  lemma ServedTrans(s: State, h: nat, t: State, u: State)
    requires Served(s, h, t) && Served(t, h, u)
    ensures Served(s, h, u)
  {
    forall id: nat | Out(s.pool, id) ensures Untouched(s, id, u) {
      UntouchedTrans(s, id, t, u);
    }
  }

  lemma RepliedServed(s: State, h: nat, fd: int, clientId: nat, bytes: seq<byte>, a: nat, op: Operation, t: State)
    requires Mid(s, h) && Replied(s, fd, clientId, bytes, a, op, t)
    ensures Served(s, h, t)
  {
    forall id: nat | Out(s.pool, id) ensures Untouched(s, id, t) {
      assert id != a;
    }
  }

  lemma ReplyServed(s: State, h: nat, c: nat, bytes: seq<byte>) returns (t: State)
    requires Mid(s, h) && 0 < |bytes| <= SMALL
    requires s.pool.ops[h].clientId == c && Connected(s.clients, s.nextId, c)
    ensures t == Reply(s, s.pool.ops[h].clientFd, c, bytes)
    ensures Mid(t, h) && Served(s, h, t)
  {
    var fd := s.pool.ops[h].clientFd;
    var a, w := ReplyEffect(s, fd, c, bytes);
    t := Reply(s, fd, c, bytes);
    ReplyMid(s, h, fd, c, bytes, a, w, t);
    RepliedServed(s, h, fd, c, bytes, a, w, t);
  }

  lemma RenamedServed(s: State, h: nat, t: State)
    requires Out(s.pool, h)
    requires t == s.(clients := t.clients) && Renamed(s.clients, t.clients)
    requires forall c :: c in s.clients && c != s.pool.ops[h].clientId ==> t.clients[c] == s.clients[c]
    ensures Served(s, h, t)
  {
  }

  lemma SetNameServed(s: State, h: nat, c: nat, name: seq<byte>, t: State)
    requires Mid(s, h) && s.pool.ops[h].clientId == c && c in s.clients
    requires t == SetName(s, c, name)
    ensures Mid(t, h) && Served(s, h, t)
  {
    SetNameMid(s, h, c, name, t);
    RenamedServed(s, h, t);
  }

  /** One SET_USERNAME frame from a connected client. */
  lemma FrameMid(s: State, h: nat, op: Operation, frame: Frame) returns (t: State)
    requires Mid(s, h) && op == s.pool.ops[h] && Connected(s.clients, s.nextId, op.clientId)
    ensures t == HandleSetUsername(s, op, frame)
    ensures Mid(t, h) && Served(s, h, t)
  {
    var u := Named(s, op.clientId, frame.bytes);
    if u == s {
      RenamedServed(s, h, u);
    } else {
      SetNameServed(s, h, op.clientId, frame.bytes[11..], u);
    }
    t := ReplyServed(u, h, op.clientId, ReplyBytes(frame.bytes, frame.seqid));
    ServedTrans(s, h, u, t);
  }

  /** Serving any number of frames keeps the invariant and the operation in hand. */
  lemma {:induction false} ServeMid(s: State, h: nat, op: Operation, frames: seq<Frame>) returns (t: State)
    requires Mid(s, h) && op == s.pool.ops[h] && Connected(s.clients, s.nextId, op.clientId)
    ensures t == Serve(s, op, frames)
    ensures Mid(t, h) && Served(s, h, t)
  {
    if |frames| == 0 {
      t := s;
      RenamedServed(s, h, t);
    } else {
      var u := ServeMid(s, h, op, frames[..|frames| - 1]);
      t := FrameMid(u, h, op, frames[|frames| - 1]);
      ServedTrans(s, h, u, t);
    }
  }

  // ------------------------------------------------------------ re-arming, resuming

  lemma RearmedPending(p: Pool, ring: Ring, h: nat, op: Operation, q: Sqe, p': Pool, ring': Ring)
    requires PendingInv(p, ring, h) && PoolSet(p, h, op, p') && ring' == Submit(ring, h, q)
    ensures PendingInv(p', ring', -1)
    ensures Pending(ring', h) == [q]
    ensures forall id: nat :: id != h ==> Pending(ring', id) == Pending(ring, id)
  {
    assert Pending(ring, h) == [];
  }

  lemma BufSize(m: Mem, p: Ptr)
    requires MemOk(m) && Resolves(m, p)
    ensures |BufAt(m, p).data| == p.cap
  {
  }

  /** Giving the READ in hand its next submission, with any new bytes in its own buffer. */
  lemma ReadAgain(s: State, h: nat, off: nat, t: State)
    requires Mid(s, h) && s.pool.ops[h].kind == OpRead && s.pool.ops[h].buf.Some? && off < LARGE
    requires Shape(t) && t == s.(mem := t.mem, ring := t.ring)
    requires MemTouched(s.mem, s.pool.ops[h].buf.value, t.mem)
    requires t.ring == Submit(s.ring, h, RecvSqe(s.pool.ops[h].clientFd, s.pool.ops[h].buf.value, off, LARGE - off))
    ensures Inv(t)
  {
    var op := s.pool.ops[h];
    RearmedPending(s.pool, s.ring, h, op, RecvSqe(op.clientFd, op.buf.value, off, LARGE - off), t.pool, t.ring);
    SetBufs(s.pool, s.mem, h, op, t.pool, op.buf.value, t.mem);
    SetSubs(s, h, op, op.buf.value, t);
  }

  /** The buffer after the parse loop has stopped. */
  function Leftover(data: seq<byte>, end: Ending): (d: seq<byte>)
    requires end.Stop? && end.rem <= |data| && (end.move ==> end.pos <= end.rem)
    ensures |d| == |data|
  {
    if end.move then Moved(data, end.pos, end.rem) else data
  }

  lemma RearmMid(s: State, h: nat, end: Ending) returns (t: State)
    requires Mid(s, h) && s.pool.ops[h].kind == OpRead
    requires end.Stop? && end.rem < LARGE && (end.move ==> end.pos <= end.rem)
    ensures Rearm(s, h, end) == Live(t) && Inv(t)
    ensures t == s.(mem := t.mem, ring := t.ring)
    ensures HoldsBuf(s.pool.ops[h], s.mem) && MemTouched(s.mem, s.pool.ops[h].buf.value, t.mem)
    ensures var p := s.pool.ops[h].buf.value;
            end.rem <= |BufAt(s.mem, p).data| && Resolves(t.mem, p)
            && BufAt(t.mem, p).data == Leftover(BufAt(s.mem, p).data, end)
    ensures t.ring == Submit(s.ring, h,
              RecvSqe(s.pool.ops[h].clientFd, s.pool.ops[h].buf.value, end.rem, LARGE - end.rem))
  {
    var op := s.pool.ops[h];
    assert HoldsBuf(op, s.mem);
    var p := op.buf.value;
    BufSize(s.mem, p);
    if end.move {
      PokeFrame(s.mem, p, 0, Moved(BufAt(s.mem, p).data, end.pos, end.rem));
    }
    t := Rearm(s, h, end).s;
    ReadAgain(s, h, end.rem, t);
  }

  /** The WRITE in hand with bytes left to send: submitted again from the first unsent byte. */
  lemma SendMore(s: State, h: nat, n: nat, op: Operation) returns (t: State)
    requires Mid(s, h) && s.pool.ops[h].kind == OpWrite && s.pool.ops[h].buf.Some?
    requires op == s.pool.ops[h].(processed := s.pool.ops[h].processed + n) && op.processed < op.bufLen
    requires Carries(s, h, s.pool.ops[h], op.processed)
    ensures HandleSend(s, h, n) == Live(t) && Inv(t)
    ensures PoolSet(s.pool, h, op, t.pool) && t == s.(pool := t.pool, ring := t.ring)
    ensures t.ring == Submit(s.ring, h, SendSqe(op.clientFd, op.buf.value, op.processed, op.bufLen - op.processed))
  {
    SendDecision(s, h, n);
    t := ResumeSend(s, h, n);
    SendAgain(s, h, n, op, t);
  }

  /** The WRITE in hand fully acknowledged: freed. */
  lemma SendDone(s: State, h: nat, n: nat) returns (t: State)
    requires Mid(s, h) && s.pool.ops[h].kind == OpWrite
    requires Carries(s, h, s.pool.ops[h], s.pool.ops[h].processed + n)
    requires s.pool.ops[h].processed + n == s.pool.ops[h].bufLen
    ensures HandleSend(s, h, n) == Live(t) && Inv(t)
    ensures PoolFreed(s.pool, h, t.pool) && MemFreed(s.mem, s.pool.ops[h].buf.value, t.mem)
    ensures t == s.(pool := t.pool, mem := t.mem)
  {
    SendDecision(s, h, n);
    t := FreeOpMid(s, h);
  }

  /** `handle_send` resumes exactly when bytes are left, and then asks for exactly the rest. */
  lemma SendDecision(s: State, h: nat, n: nat)
    requires Shape(s) && Out(s.pool, h) && s.pool.ops[h].buf.Some?
    requires s.pool.ops[h].processed + n <= s.pool.ops[h].bufLen
    ensures var op := s.pool.ops[h];
            if op.processed + n < op.bufLen then
              && HandleSend(s, h, n) == Live(ResumeSend(s, h, n))
              && ResumeSend(s, h, n) ==
                 s.(pool := Put(s.pool, h, op.(processed := op.processed + n)),
                    ring := Submit(s.ring, h, SendSqe(op.clientFd, op.buf.value, op.processed + n,
                                                      op.bufLen - (op.processed + n))))
            else
              HandleSend(s, h, n) == FreeOp(s, h)
  {
  }

  lemma SendAgain(s: State, h: nat, n: nat, op: Operation, t: State)
    requires Mid(s, h) && s.pool.ops[h].kind == OpWrite && s.pool.ops[h].buf.Some?
    requires op == s.pool.ops[h].(processed := s.pool.ops[h].processed + n) && op.processed < op.bufLen
    requires Carries(s, h, s.pool.ops[h], op.processed)
    requires Shape(t) && t == s.(pool := t.pool, ring := t.ring) && PoolSet(s.pool, h, op, t.pool)
    requires t.ring == Submit(s.ring, h, SendSqe(op.clientFd, op.buf.value, op.processed, op.bufLen - op.processed))
    ensures Inv(t)
  {
    RearmedPending(s.pool, s.ring, h, op,
                   SendSqe(op.clientFd, op.buf.value, op.processed, op.bufLen - op.processed), t.pool, t.ring);
    SetBufs(s.pool, s.mem, h, op, t.pool, op.buf.value, t.mem);
    SetOwners(s.pool, s.clients, s.nextId, h, op, t.pool);
    assert SubOk(t, h);
    SetSubs(s, h, op, op.buf.value, t);
  }

  // ------------------------------------------------------------------ delivery

  ghost predicate Delivered(s: State, c: Completion, t: State) {
    && Shape(t)
    && t == s.(mem := t.mem, ring := t.ring, open := t.open, acked := t.acked)
    && Pending(t.ring, c.id) == []
    && (forall id: nat :: id != c.id ==> Pending(t.ring, id) == Pending(s.ring, id))
    && (forall id: nat :: id != c.id && id in s.acked ==> id in t.acked && t.acked[id] == s.acked[id])
    && Out(s.pool, c.id) && HoldsBuf(s.pool.ops[c.id], s.mem)
    && MemTouched(s.mem, s.pool.ops[c.id].buf.value, t.mem)
    && (s.pool.ops[c.id].kind != OpRead || c.res < 0 ==> t.mem == s.mem)
    && t.open == (if s.pool.ops[c.id].kind == OpAccept && c.res >= 0
                  then s.open[c.res := s.pool.ops[c.id].clientId] else s.open)
    && (s.pool.ops[c.id].kind == OpWrite && c.res >= 0 ==>
          Carries(t, c.id, s.pool.ops[c.id], s.pool.ops[c.id].processed + c.res))
  }

  /** What the kernel stores lies in the buffer of the READ that completes. */
  lemma DeliverRead(s: State, c: Completion) returns (t: State)
    requires Shape(s) && Allowed(s, c) && Out(s.pool, c.id) && SubOk(s, c.id) && HoldsBuf(s.pool.ops[c.id], s.mem)
    requires s.pool.ops[c.id].kind == OpRead && c.res >= 0
    ensures Deliver(s, c) == Live(t) && t == s.(mem := t.mem, ring := t.ring)
    ensures Shape(t) && MemTouched(s.mem, s.pool.ops[c.id].buf.value, t.mem)
    ensures t.ring == s.ring[c.id := []]
  {
    var p := s.pool.ops[c.id].buf.value;
    BufSize(s.mem, p);
    PokeFrame(s.mem, p, Pending(s.ring, c.id)[0].off, c.data);
    t := Deliver(s, c).s;
  }

  /** Every other completion stores nothing. */
  lemma DeliverOther(s: State, c: Completion) returns (t: State)
    requires Shape(s) && Allowed(s, c) && Out(s.pool, c.id) && SubOk(s, c.id) && HoldsBuf(s.pool.ops[c.id], s.mem)
    requires s.pool.ops[c.id].kind != OpRead || c.res < 0
    ensures Deliver(s, c) == Live(t) && t == s.(ring := t.ring, open := t.open, acked := t.acked)
    ensures t.ring == s.ring[c.id := []]
    ensures t.open == if s.pool.ops[c.id].kind == OpAccept && c.res >= 0
                      then s.open[c.res := s.pool.ops[c.id].clientId] else s.open
    ensures s.pool.ops[c.id].kind == OpAccept && c.res >= 0 ==> c.res !in s.open
    ensures forall id: nat :: id != c.id && id in s.acked ==> id in t.acked && t.acked[id] == s.acked[id]
    ensures s.pool.ops[c.id].kind == OpWrite && c.res >= 0 ==>
              Carries(t, c.id, s.pool.ops[c.id], s.pool.ops[c.id].processed + c.res)
  {
    BufSize(s.mem, s.pool.ops[c.id].buf.value);
    t := Deliver(s, c).s;
    if s.pool.ops[c.id].kind == OpWrite && c.res >= 0 {
      NextBytes(BufAt(s.mem, s.pool.ops[c.id].buf.value).data, s.msg[c.id], s.pool.ops[c.id].processed, c.res);
    }
  }

  /** The next bytes of a buffer that starts with a message are the next bytes of the message. */
  lemma NextBytes(data: seq<byte>, msg: seq<byte>, off: nat, n: nat)
    requires off + n <= |msg| <= |data| && data[..|msg|] == msg
    ensures msg[..off] + data[off..off + n] == msg[..off + n]
  {
    forall i | 0 <= i < |msg| ensures data[i] == msg[i] {
      assert data[..|msg|][i] == data[i];
    }
  }

  /** Any completion the kernel may report hits a live operation and touches only its buffer and history. */
  lemma DeliverEffect(s: State, c: Completion) returns (t: State)
    requires Inv(s) && Allowed(s, c)
    ensures Deliver(s, c) == Live(t) && Delivered(s, c, t)
    ensures s.pool.ops[c.id].kind == OpAccept && c.res >= 0 ==> c.res !in s.open
  {
    assert Out(s.pool, c.id);
    assert SubOk(s, c.id) && HoldsBuf(s.pool.ops[c.id], s.mem);
    if s.pool.ops[c.id].kind == OpRead && c.res >= 0 {
      t := DeliverRead(s, c);
    } else {
      t := DeliverOther(s, c);
    }
  }

  lemma DeliverMid(s: State, c: Completion, t: State)
    requires Inv(s) && Delivered(s, c, t)
    ensures Core(t, c.id)
    ensures t.open == s.open ==> Mid(t, c.id)
  {
    var op := s.pool.ops[c.id];
    SetBufs(s.pool, s.mem, c.id, op, t.pool, op.buf.value, t.mem);
    forall id: nat | Out(t.pool, id) && id != c.id ensures SubOk(t, id) {
      assert SubOk(s, id) && HoldsBuf(s.pool.ops[id], s.mem);
      assert s.pool.ops[id].buf != op.buf;
    }
  }

  // -------------------------------------------------------------------- accept

  lemma AddAcceptEffect(s: State, k: nat) returns (a: nat, op: Operation, t: State)
    requires Shape(s) && k !in s.clients
    ensures AddAccept(s, k) == Live(t)
    ensures t == s.(pool := t.pool, mem := t.mem, ring := t.ring, clients := s.clients[k := Client(0, [])])
    ensures PoolAdded(s.pool, a, op, t.pool)
    ensures op.buf.Some? && HoldsBuf(op, t.mem) && MemAdded(s.mem, op.buf.value, t.mem)
    ensures op.kind == OpAccept && op.clientId == k && op.clientFd == -1
    ensures t.ring == Submit(s.ring, a, AcceptSqe(k))
  {
    a := NewId(s.pool);
    op := Operation(OpAccept, k, -1, LARGE, 0, Some(Ptr(LARGE, NextBuf(s.mem.large))), 0);
    CheckOutFrame(s.pool, op);
    AcquireFrame(s.mem.large, 1);
    t := AddAccept(s, k).s;
  }

  /** The accepted operation becomes the READ of its client. */
  lemma FirstRead(s: State, h: nat, fd: int, t: State)
    requires Core(s, h)
    requires h >= 0 && s.pool.ops[h].kind == OpAccept && s.pool.ops[h].buf.Some?
    requires t == AddRecv(s, h, fd)
    ensures Core(t, -1)
    ensures PoolSet(s.pool, h, s.pool.ops[h].(clientFd := fd, kind := OpRead), t.pool)
    ensures t == s.(pool := t.pool, ring := t.ring)
  {
    var op := s.pool.ops[h].(clientFd := fd, kind := OpRead);
    assert HoldsBuf(s.pool.ops[h], s.mem);
    RearmedPending(s.pool, s.ring, h, op, RecvSqe(fd, op.buf.value, 0, LARGE), t.pool, t.ring);
    SetBufs(s.pool, s.mem, h, op, t.pool, op.buf.value, t.mem);
    SetSubs(s, h, op, op.buf.value, t);
  }

  lemma NextAccept(s: State, k: nat) returns (a: nat, op: Operation, t: State)
    requires Core(s, -1)
    requires k !in s.clients
    ensures AddAccept(s, k) == Live(t)
    ensures Core(t, -1)
    ensures PoolAdded(s.pool, a, op, t.pool) && op.kind == OpAccept && op.clientId == k && op.clientFd == -1
    ensures op.buf.Some? && MemAdded(s.mem, op.buf.value, t.mem)
    ensures t == s.(pool := t.pool, mem := t.mem, ring := t.ring, clients := s.clients[k := Client(0, [])])
    ensures t.ring == Submit(s.ring, a, AcceptSqe(k))
  {
    a, op, t := AddAcceptEffect(s, k);
    AddedPending(s.pool, s.ring, -1, a, op, AcceptSqe(k), t.pool, t.ring);
    AddedBufs(s.pool, s.mem, a, op, t.pool, t.mem);
    AddedSubs(s, -1, a, op, t);
  }

  lemma AcceptKinds(p: Pool, clients: Clients, nextId: nat, h: nat, op: Operation, p1: Pool,
                    a: nat, opA: Operation, p2: Pool, id: nat)
    requires OwnerInv(p, clients, nextId) && PoolSet(p, h, op, p1) && PoolAdded(p1, a, opA, p2)
    requires p.ops[h].kind == OpAccept && op.kind == OpRead && op.clientId == p.ops[h].clientId
    requires opA.kind == OpAccept && opA.clientId == nextId && Out(p2, id)
    ensures p2.ops[id].clientId < nextId + 1
    ensures p2.ops[id].kind == OpAccept <==> p2.ops[id].clientId == nextId
    ensures forall c: nat :: c < nextId ==> (Owner(p2, id, c) <==> Owner(p, id, c))
  {
    if id != a && id != h && p.ops[id].kind == OpAccept {
      assert Owner(p, id, nextId - 1) && Owner(p, h, nextId - 1);
    }
  }

  lemma AcceptOwners(p: Pool, clients: Clients, nextId: nat, h: nat, op: Operation, p1: Pool,
                     a: nat, opA: Operation, p2: Pool, clients': Clients)
    requires OwnerInv(p, clients, nextId) && PoolSet(p, h, op, p1) && PoolAdded(p1, a, opA, p2)
    requires p.ops[h].kind == OpAccept && op.kind == OpRead && op.clientId == p.ops[h].clientId
    requires opA.kind == OpAccept && opA.clientId == nextId
    requires clients'.Keys == clients.Keys + {nextId}
    ensures OwnerInv(p2, clients', nextId + 1)
  {
    forall id: nat | Out(p2, id)
      ensures p2.ops[id].clientId < nextId + 1
      ensures p2.ops[id].kind == OpAccept <==> p2.ops[id].clientId == nextId
      ensures forall c: nat :: c < nextId ==> (Owner(p2, id, c) <==> Owner(p, id, c))
    {
      AcceptKinds(p, clients, nextId, h, op, p1, a, opA, p2, id);
    }
    forall c: nat | c in clients' ensures exists id: nat :: Owner(p2, id, c) {
      if c == nextId {
        assert Owner(p2, a, c);
      } else {
        var id: nat :| Owner(p, id, c);
        assert Owner(p2, id, c);
      }
    }
  }

  /** The sockets after an accept. */
  lemma AcceptSockets(p: Pool, clients: Clients, nextId: nat, open: map<int, nat>, fd: int, clients': Clients)
    requires FdInv(p, clients, nextId, open) && nextId > 1 && nextId - 1 in clients && nextId !in clients
    requires fd >= 0 && fd !in open
    requires clients' == clients[nextId - 1 := clients[nextId - 1].(fd := fd)][nextId := Client(0, [])]
    ensures forall c: nat :: Connected(clients', nextId + 1, c) <==> Connected(clients, nextId, c) || c == nextId - 1
    ensures var open' := open[fd := nextId - 1];
            && (forall c: nat :: Connected(clients', nextId + 1, c) ==>
                  clients'[c].fd in open' && open'[clients'[c].fd] == c)
            && (forall f :: f in open' ==>
                  f >= 0 && Connected(clients', nextId + 1, open'[f]) && clients'[open'[f]].fd == f)
  {
  }

  lemma AcceptFds(p: Pool, clients: Clients, nextId: nat, open: map<int, nat>, h: nat, op: Operation, p1: Pool,
                  a: nat, opA: Operation, p2: Pool, fd: int, clients': Clients)
    requires FdInv(p, clients, nextId, open) && OwnerInv(p, clients, nextId)
    requires PoolSet(p, h, op, p1) && PoolAdded(p1, a, opA, p2)
    requires p.ops[h].kind == OpAccept && op.clientId == nextId - 1 == p.ops[h].clientId && op.clientFd == fd
    requires op.kind == OpRead && opA.clientId == nextId && opA.clientFd == -1 && fd >= 0 && fd !in open
    requires nextId - 1 in clients
             && clients' == clients[nextId - 1 := clients[nextId - 1].(fd := fd)][nextId := Client(0, [])]
    ensures FdInv(p2, clients', nextId + 1, open[fd := nextId - 1])
  {
    AcceptSockets(p, clients, nextId, open, fd, clients');
    forall id: nat | Out(p2, id) && Connected(clients', nextId + 1, p2.ops[id].clientId)
      ensures p2.ops[id].clientFd == clients'[p2.ops[id].clientId].fd
    {
      if id != h && id != a {
        assert p2.ops[id] == p.ops[id];
        if p.ops[id].clientId == nextId - 1 { assert Owner(p, id, nextId - 1) && Owner(p, h, nextId - 1); }
      }
    }
  }

  /** The entry gets its socket and the operation becomes a READ. */
  lemma ConnectChain(t: State, h: nat, fd: int) returns (v: State)
    requires Core(t, h)
    requires t.pool.ops[h].kind == OpAccept && t.pool.ops[h].buf.Some? && t.pool.ops[h].bufCap == LARGE
    requires t.pool.ops[h].clientId in t.clients
    ensures v == AddRecv(SetFd(t, t.pool.ops[h].clientId, fd), h, fd)
    ensures Core(v, -1)
    ensures PoolSet(t.pool, h, t.pool.ops[h].(clientFd := fd, kind := OpRead), v.pool)
    ensures v == t.(pool := v.pool, ring := v.ring, clients := SetFd(t, t.pool.ops[h].clientId, fd).clients)
    ensures v.ring == Submit(t.ring, h, RecvSqe(fd, t.pool.ops[h].buf.value, 0, LARGE))
  {
    var t1 := SetFd(t, t.pool.ops[h].clientId, fd);
    SameSubs(t, h, t1);
    v := AddRecv(t1, h, fd);
    FirstRead(t1, h, fd, v);
  }

  lemma AcceptChain(t: State, h: nat, fd: int) returns (v: State, a: nat, opA: Operation, u: State)
    requires Core(t, h)
    requires t.pool.ops[h].kind == OpAccept && t.pool.ops[h].buf.Some? && t.pool.ops[h].bufCap == LARGE
    requires t.pool.ops[h].clientId in t.clients && t.nextId !in t.clients && t.pool.ops[h].clientId < t.nextId
    ensures HandleAccept(t, h, fd) == Live(u)
    ensures Core(u, -1)
    ensures PoolSet(t.pool, h, t.pool.ops[h].(clientFd := fd, kind := OpRead), v.pool)
    ensures v == t.(pool := v.pool, ring := v.ring, clients := SetFd(t, t.pool.ops[h].clientId, fd).clients)
    ensures v.ring == Submit(t.ring, h, RecvSqe(fd, t.pool.ops[h].buf.value, 0, LARGE))
    ensures PoolAdded(v.pool, a, opA, u.pool) && opA.kind == OpAccept && opA.clientId == t.nextId && opA.clientFd == -1
    ensures opA.buf.Some? && MemAdded(v.mem, opA.buf.value, u.mem)
    ensures u == v.(pool := u.pool, mem := u.mem, ring := u.ring, nextId := t.nextId + 1,
                    clients := v.clients[t.nextId := Client(0, [])])
    ensures u.ring == Submit(v.ring, a, AcceptSqe(opA.clientId))
  {
    v := ConnectChain(t, h, fd);
    var w: State;
    a, opA, w := NextAccept(v, t.nextId);
    u := w.(nextId := t.nextId + 1);
    SameSubs(w, -1, u);
  }

  /** A new connection: its entry gets the socket, its operation becomes a READ, and a fresh accept is armed. */
  lemma AcceptMid(s: State, c: Completion, t: State) returns (u: State)
    requires Inv(s) && Delivered(s, c, t)
    requires s.pool.ops[c.id].kind == OpAccept && c.res >= 0 && c.res !in s.open
    ensures HandleAccept(t, c.id, c.res) == Live(u) && Inv(u)
  {
    DeliverMid(s, c, t);
    AcceptYoungest(s.pool, s.clients, s.nextId, c.id);
    var v, a, opA;
    v, a, opA, u := AcceptChain(t, c.id, c.res);
    AcceptFinish(s, c.id, c.res, v.pool, a, opA, u);
  }

  lemma AcceptFinish(s: State, h: nat, fd: int, p1: Pool, a: nat, opA: Operation, u: State)
    requires OwnerInv(s.pool, s.clients, s.nextId) && FdInv(s.pool, s.clients, s.nextId, s.open) && Core(u, -1)
    requires Accepting(s.pool, s.clients, s.nextId, s.open, h, fd, p1, a, opA, u.pool, u.clients)
    requires u.nextId == s.nextId + 1 && u.open == s.open[fd := s.nextId - 1]
    ensures Inv(u)
  {
    AcceptMaps(s.pool, s.clients, s.nextId, s.open, h, fd, p1, a, opA, u.pool, u.clients);
  }

  lemma AcceptResult(s: State, c: Completion, t: State, u: State)
    requires Inv(s) && Delivered(s, c, t)
    requires s.pool.ops[c.id].kind == OpAccept && c.res >= 0 && HandleAccept(t, c.id, c.res) == Live(u)
    ensures var k := s.nextId - 1;
            && s.pool.ops[c.id].clientId == k && k in s.clients
            && u.nextId == s.nextId + 1
            && u.clients == s.clients[k := s.clients[k].(fd := c.res)][s.nextId := Client(0, [])]
            && u.open == s.open[c.res := k]
            && u.outbox == s.outbox && u.msg == s.msg && u.acked == t.acked
  {
    AcceptYoungest(s.pool, s.clients, s.nextId, c.id);
  }

  /** The client being accepted is the youngest, and its entry is there. */
  lemma AcceptYoungest(p: Pool, clients: Clients, nextId: nat, h: nat)
    requires OwnerInv(p, clients, nextId) && Out(p, h) && p.ops[h].kind == OpAccept
    ensures p.ops[h].clientId == nextId - 1 && nextId - 1 in clients && nextId !in clients
  {
  }

  /** The ACCEPT `h` has become a READ, the new ACCEPT `a` is in use, and the map has both entries. */
  ghost predicate Accepting(p: Pool, clients: Clients, nextId: nat, open: map<int, nat>, h: nat, fd: int, p1: Pool,
                            a: nat, opA: Operation, p2: Pool, clients': Clients) {
    var accepting :=
      && Out(p, h) && p.ops[h].kind == OpAccept && fd >= 0 && fd !in open
      && PoolSet(p, h, p.ops[h].(clientFd := fd, kind := OpRead), p1) && PoolAdded(p1, a, opA, p2)
      && opA.kind == OpAccept && opA.clientId == nextId && opA.clientFd == -1
      && nextId - 1 in clients
      && clients' == clients[nextId - 1 := clients[nextId - 1].(fd := fd)][nextId := Client(0, [])];
    accepting
  }

  lemma AcceptMaps(p: Pool, clients: Clients, nextId: nat, open: map<int, nat>, h: nat, fd: int, p1: Pool,
                   a: nat, opA: Operation, p2: Pool, clients': Clients)
    requires OwnerInv(p, clients, nextId) && FdInv(p, clients, nextId, open)
    requires Accepting(p, clients, nextId, open, h, fd, p1, a, opA, p2, clients')
    ensures OwnerInv(p2, clients', nextId + 1) && FdInv(p2, clients', nextId + 1, open[fd := nextId - 1])
  {
    var opR := p.ops[h].(clientFd := fd, kind := OpRead);
    AcceptYoungest(p, clients, nextId, h);
    AcceptOwners(p, clients, nextId, h, opR, p1, a, opA, p2, clients');
    AcceptFds(p, clients, nextId, open, h, opR, p1, a, opA, p2, fd, clients');
  }

  lemma AcceptFrame(s: State, c: Completion, t: State, u: State)
    requires Inv(s) && Delivered(s, c, t)
    requires s.pool.ops[c.id].kind == OpAccept && c.res >= 0
    requires HandleAccept(t, c.id, c.res) == Live(u)
    ensures Accepted(s, c.id, c.res, u)
  {
    DeliverMid(s, c, t);
    var v, a, opA, u' := AcceptChain(t, c.id, c.res);
    AcceptUntouched(s, c.id, c.res, t, s.pool.ops[c.id].(clientFd := c.res, kind := OpRead), v, a, opA, u);
  }

  /** Everything an accept leaves alone. */
  ghost predicate Accepted(s: State, h: nat, fd: int, u: State) {
    && Out(s.pool, h) && Out(u.pool, h)
    && u.pool.ops[h] == s.pool.ops[h].(clientFd := fd, kind := OpRead)
    && Pending(u.ring, h) == [
            RecvSqe(fd, if s.pool.ops[h].buf.Some? then s.pool.ops[h].buf.value else Ptr(0, 0), 0, LARGE)]
    && forall id: nat :: Out(s.pool, id) && id != h ==> Untouched(s, id, u)
  }

  lemma AcceptUntouched(s: State, h: nat, fd: int, t: State, opR: Operation, v: State, a: nat, opA: Operation, u: State)
    requires Out(s.pool, h) && HoldsBuf(s.pool.ops[h], s.mem) && opR == s.pool.ops[h].(clientFd := fd, kind := OpRead)
    requires t.mem == s.mem && (forall id: nat :: id != h ==> Pending(t.ring, id) == Pending(s.ring, id))
    requires Pending(t.ring, h) == [] && opR.bufCap == LARGE
    requires t.msg == s.msg
             && (forall id: nat :: id != h && id in s.acked ==> id in t.acked && t.acked[id] == s.acked[id])
    requires PoolSet(s.pool, h, opR, v.pool) && v.mem == t.mem && v.msg == t.msg && v.acked == t.acked
    requires v.ring == Submit(t.ring, h, RecvSqe(fd, opR.buf.value, 0, LARGE))
    requires PoolAdded(v.pool, a, opA, u.pool) && opA.buf.Some? && MemAdded(v.mem, opA.buf.value, u.mem)
    requires u.ring == Submit(v.ring, a, AcceptSqe(opA.clientId)) && u.msg == v.msg && u.acked == v.acked
    ensures Accepted(s, h, fd, u)
  {
    assert a != h;
    forall id: nat | Out(s.pool, id) && id != h ensures Untouched(s, id, u) {
      assert id != a;
    }
  }
}
