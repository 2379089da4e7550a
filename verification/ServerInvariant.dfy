/**
 Who owns what, in every state between two completions.

 `Mid(s, h)` is the same invariant in the middle of a step, when the completion of operation `h`
 has been taken from the ring and `h` has not yet been re-armed or freed (`h == -1`: no operation
 is in hand, and `Mid(s, -1)` is the invariant itself).
 */
module ServerInvariant {
  import opened Base
  import opened Ops
  import opened PoolModel
  import opened SlabModel
  import opened ClientModel
  import opened ServerState

  /** Checked-out operations and pending submissions correspond one to one, `h` aside. */
  ghost predicate PendingInv(pool: Pool, ring: Ring, h: int) {
    && (h >= 0 ==> Out(pool, h))
    && (forall id: nat :: Out(pool, id) && id != h ==> |Pending(ring, id)| == 1)
    && (forall id: nat :: !Out(pool, id) || id == h ==> Pending(ring, id) == [])
  }

  predicate InUse(m: Mem, p: Ptr) {
    Resolves(m, p) && BufAt(m, p).ref > 0
  }

  /** The operation holds a buffer, once, from the slab its capacity selects. */
  predicate HoldsBuf(op: Operation, m: Mem) {
    && op.buf.Some?
    && op.buf.value.cap == op.bufCap == (if op.kind == OpWrite then SMALL else LARGE)
    && Resolves(m, op.buf.value)
    && BufAt(m, op.buf.value).ref == 1
  }

  predicate Holder(pool: Pool, id: nat, p: Ptr) {
    Out(pool, id) && pool.ops[id].buf == Some(p)
  }

  /** Operations and held buffers correspond one to one. */
  ghost predicate BufInv(pool: Pool, m: Mem) {
    && (forall id: nat {:trigger HoldsBuf(pool.ops[id], m)} :: Out(pool, id) ==> HoldsBuf(pool.ops[id], m))
    && (forall i: nat, j: nat {:trigger pool.ops[i].buf, pool.ops[j].buf} ::
          Out(pool, i) && Out(pool, j) && i != j ==> pool.ops[i].buf != pool.ops[j].buf)
    && (forall p: Ptr :: InUse(m, p) ==> exists id: nat :: Holder(pool, id, p))
  }

  type Clients = map<nat, Client>

  /** The ACCEPT or READ that serves a map entry. */
  predicate Owner(pool: Pool, id: nat, client: nat) {
    Out(pool, id) && pool.ops[id].kind != OpWrite && pool.ops[id].clientId == client
  }

  /** The client being accepted is always the youngest id; every entry is served by one operation. */
  ghost predicate OwnerInv(pool: Pool, clients: Clients, nextId: nat) {
    && nextId > 1
    && nextId - 1 in clients
    && (forall c :: c in clients ==> c < nextId)
    && (forall id: nat :: Out(pool, id) ==>
          && pool.ops[id].clientId < nextId
          && (pool.ops[id].kind == OpAccept <==> pool.ops[id].clientId == nextId - 1))
    && (forall i: nat, j: nat, c: nat :: Owner(pool, i, c) && Owner(pool, j, c) ==> i == j)
    && (forall c: nat :: c in clients ==> exists id: nat :: Owner(pool, id, c))
  }

  /** Has been accepted and not dropped. */
  predicate Connected(clients: Clients, nextId: nat, c: nat) {
    c in clients && c + 1 != nextId
  }

  /** Open sockets and connected clients correspond one to one; operations use their client's socket. */
  ghost predicate FdInv(pool: Pool, clients: Clients, nextId: nat, open: map<int, nat>) {
    && (forall c: nat :: Connected(clients, nextId, c) ==> clients[c].fd in open && open[clients[c].fd] == c)
    && (forall f :: f in open ==> f >= 0 && Connected(clients, nextId, open[f]) && clients[open[f]].fd == f)
    && (forall id: nat :: Out(pool, id) && pool.ops[id].kind == OpAccept ==> pool.ops[id].clientFd == -1)
    && (forall id: nat :: Out(pool, id) && Connected(clients, nextId, pool.ops[id].clientId) ==>
          pool.ops[id].clientFd == clients[pool.ops[id].clientId].fd)
  }

  /** What the pending submission of an operation asks the kernel to do. */
  predicate Matches(op: Operation, q: Sqe) {
    && op.buf.Some?
    && match op.kind
       case OpAccept => q == AcceptSqe(op.clientId)
       case OpRead => q.RecvSqe? && q.fd == op.clientFd && q.buf == op.buf.value
                      && q.off < LARGE && q.len == LARGE - q.off
       case OpWrite => op.processed < op.bufLen
                       && q == SendSqe(op.clientFd, op.buf.value, op.processed, op.bufLen - op.processed)
  }

  /** A WRITE's buffer still holds its message; exactly the first `n` bytes of it have been acknowledged. */
  predicate Carries(s: State, id: nat, op: Operation, n: nat) {
    && op.buf.Some? && Resolves(s.mem, op.buf.value)
    && id in s.msg && id in s.acked
    && n <= |s.msg[id]| == op.bufLen <= |BufAt(s.mem, op.buf.value).data|
    && BufAt(s.mem, op.buf.value).data[..op.bufLen] == s.msg[id]
    && s.acked[id] == s.msg[id][..n]
  }

  predicate SubOk(s: State, id: nat)
    requires Out(s.pool, id)
  {
    var op := s.pool.ops[id];
    && |Pending(s.ring, id)| == 1
    && Matches(op, Pending(s.ring, id)[0])
    && (op.kind == OpWrite ==> Carries(s, id, op, op.processed))
  }

  ghost predicate SubInv(s: State, h: int) {
    forall id: nat {:trigger SubOk(s, id)} :: Out(s.pool, id) && id != h ==> SubOk(s, id)
  }

  /** The part of the invariant that does not look at the map or the sockets. */
  ghost predicate Core(s: State, h: int) {
    var core := Shape(s) && PendingInv(s.pool, s.ring, h) && BufInv(s.pool, s.mem) && SubInv(s, h);
    core
  }

  ghost predicate Mid(s: State, h: int) {
    Core(s, h) && OwnerInv(s.pool, s.clients, s.nextId) && FdInv(s.pool, s.clients, s.nextId, s.open)
  }

  ghost predicate Inv(s: State) { Mid(s, -1) }
}
