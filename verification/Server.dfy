/**
 The event loop of server.c over its real data structures: the operation pool, the two slabs and the
 client table are objects in the heap, and every handler is proved to do to them exactly what the
 state machine of `ServerState` does to their values.

 Each handler's precondition is that the state machine does not break; the invariant supplies it for
 every completion the kernel can report. `Stopped` stands for `exit`, and `Undefined` for the point where the memmove
 of a cut request would read past the receive buffer; the state after either is of no account.
 */
module Server {
  import opened Base
  import opened ClientModel
  import opened Slab
  import opened OpPool
  import opened ClientMap
  import opened ParseLoop
  import opened ServerCalls
  import Bits
  import O = Ops
  import P = PoolModel
  import S = SlabModel
  import Memory
  import Protocol
  import M = ServerState
  import I = ServerInvariant
  import ServerRuns

  datatype Status = Running | Stopped | Undefined

  /** The server ends as the state machine does. */
  predicate Agrees(status: Status, r: M.Outcome) {
    (status.Stopped? <==> r.Exited?) && (status.Undefined? <==> r.OverRead?)
  }

  class Server {
    const clients: ClientMap
    const slab64: Slab
    const slab2k: Slab
    const pool: OpPool
    var nextClientId: nat

    /** The kernel's table of open client sockets. */
    var open: map<int, nat>

    /** The submissions in the ring, by user_data, and the history. */
    ghost var ring: M.Ring
    ghost var outbox: seq<M.Sent>
    ghost var msg: map<nat, seq<byte>>
    ghost var acked: map<nat, seq<byte>>

    ghost function Repr(): set<object>
      reads this, pool, slab64, slab2k, clients
    {
      pool.Repr + slab64.Repr + slab2k.Repr + clients.Repr
    }

    /** The data structures only take new memory. */
    twostate predicate Grows()
      reads this, pool, slab64, slab2k, clients
    {
      fresh(Repr() - old(Repr()))
    }

    /** Every key that is still there has the node it had: the kernel holds a pointer into that of an ACCEPT. */
    twostate predicate NodesKept()
      reads this, clients, clients.chains
    {
      forall k :: k in old(clients.Nodes()) && k in clients.Nodes() ==> clients.Nodes()[k] == old(clients.Nodes()[k])
    }

    /** The data structures are well formed. */
    ghost predicate Parts()
      reads this, pool, pool.Repr, pool.All, slab64, slab64.Repr, slab2k, slab2k.Repr, clients, clients.Repr
    {
      clients.Valid() && Memory.Ok(pool, slab64, slab2k)
    }

    ghost predicate Apart()
      reads this, pool, slab64, slab2k, clients
    {
      && this !in Repr()
      && pool in pool.Repr && slab64 in slab64.Repr && slab2k in slab2k.Repr
      && clients in clients.Repr && clients.chains in clients.Repr
      && pool.Repr !! slab64.Repr && pool.Repr !! slab2k.Repr && slab64.Repr !! slab2k.Repr
      && clients.Repr !! pool.Repr && clients.Repr !! slab64.Repr && clients.Repr !! slab2k.Repr
    }

    /** `Parts` stands under a quantifier so that it is unfolded only where it is named. */
    ghost predicate Valid()
      reads this, pool, pool.Repr, pool.All, slab64, slab64.Repr, slab2k, slab2k.Repr
      reads clients, clients.chains, clients.Repr
    {
      && Apart()
      && M.Shape(V())
      && (forall srv: Server {:trigger srv.Parts()} :: srv == this ==> srv.Parts())
    }

    /** The state of the server as a value. */
    ghost function V(): M.State
      reads this, pool, slab64, slab2k, clients, clients.chains
    {
      M.State(pool.V, Memory.V(slab64, slab2k), clients.V(), nextClientId, ring, open, outbox, msg, acked)
    }

    /** A pointer to an operation in use. */
    ghost predicate InHand(op: Operation)
      reads this, pool, op
    {
      && pool.Owned(op) && op in pool.Repr && P.Out(pool.V, op.poolId)
      && pool.V.ops[op.poolId] == op.Value() && op.bufRef != null
    }

    /** `server_init`, on the structures `main` has set up. */
    constructor (clients: ClientMap, slab64: Slab, slab2k: Slab, pool: OpPool)
      requires clients.Valid() && clients.V() == map[]
      requires slab64.Valid() && slab64.V == S.FreshSlab(M.SMALL, 64)
      requires slab2k.Valid() && slab2k.V == S.FreshSlab(M.LARGE, 64)
      requires pool.Valid() && pool.V == P.Pool([], []) && pool.All == []
      requires Memory.Apart(pool, slab64, slab2k)
      requires clients.Repr !! pool.Repr && clients.Repr !! slab64.Repr && clients.Repr !! slab2k.Repr
      ensures Valid() && V() == M.Initial()
      ensures this.clients == clients && this.slab64 == slab64 && this.slab2k == slab2k && this.pool == pool
    {
      this.clients, this.slab64, this.slab2k, this.pool := clients, slab64, slab2k, pool;
      nextClientId := 1;
      open := map[];
      ring, outbox, msg, acked := map[], [], map[], map[];
      S.FreshSlabOk(M.SMALL, 64);
      S.FreshSlabOk(M.LARGE, 64);
    }

    /** `free_op`. */
    method FreeOp(op: Operation, ghost r: M.Outcome)
      requires Valid() && pool.Owned(op) && Gives(V(), Free(op.poolId), r) && !r.Broken?
      modifies pool.Repr, slab64.Repr, slab2k.Repr
      ensures Valid() && Grows() && r == M.Live(V())
    {
      assert Parts();
      assert GivesIs(V(), Free(op.poolId), r);
      assert FreeIs(V(), op.poolId, r);
      Memory.FreeOp(pool, slab64, slab2k, op);
    }

    /** `must_close` of an open socket. */
    method Close(clientFd: int)
      requires Valid() && clientFd in open
      modifies this`open
      ensures Valid() && V() == old(V()).(open := old(open) - {clientFd})
    {
      assert Parts();
      open := open - {clientFd};
    }

    /** `client_map_delete` of an entry that has been looked up. */
    method ForgetClient(clientId: nat)
      requires Valid() && clientId in V().clients
      modifies clients.Repr
      ensures Valid() && Grows()
      ensures V() == old(V()).(clients := old(V()).clients - {clientId})
      ensures clients.Nodes() == old(clients.Nodes()) - {clientId}
    {
      assert Parts();
      Forget(clients, clientId);
    }

    /** `disconnect_and_free_op`; `must_close` of a socket that is not open exits. */
    method DisconnectAndFreeOp(info: ClientInfo?, op: Operation, ghost r: M.Outcome) returns (status: Status)
      requires Valid() && InHand(op) && Gives(V(), Disconnect(op.poolId), r) && !r.Broken?
      requires info != null <==> op.clientId in V().clients
      modifies this, Repr()
      ensures Agrees(status, r)
      ensures status.Running? ==> Valid() && Grows() && r == M.Live(V())
      ensures status.Running? ==> NodesKept()
    {
      DisconnectCases(V(), op.poolId, r);
      if info != null {
        if op.clientFd !in open { return Stopped; }
        Close(op.clientFd);
        ForgetClient(op.clientId);
      }
      FreeOp(op, r);
      return Running;
    }

    // -------------------------------------------------------------- submissions

    /** A pointer to the operation with this id. */
    method GetOp(poolId: nat) returns (op: Operation)
      requires Valid() && poolId < |V().pool.ops|
      ensures op.poolId == poolId && pool.Owned(op) && op in pool.Repr && op.Value() == V().pool.ops[poolId]
    {
      assert Parts();
      op := pool.Get(poolId);
    }

    method NewAcceptOp(clientId: nat) returns (op: Operation)
      requires Valid()
      modifies pool.Repr, slab2k.Repr
      ensures Valid() && Grows()
      ensures op.poolId == P.NewId(old(V()).pool)
      ensures V() == old(V()).(
                      pool := P.CheckOut(old(V()).pool, M.AcceptOp(old(V()), clientId)),
                      mem := old(V()).mem.(large := S.Acquire(old(V()).mem.large, 1)))
    {
      assert Parts();
      op := Memory.CheckOutLarge(pool, slab64, slab2k, clientId);
    }

    method JoinClient(clientId: nat)
      requires Valid() && clientId !in V().clients
      modifies clients.Repr
      ensures Valid() && Grows()
      ensures V() == old(V()).(clients := old(V()).clients[clientId := Client(0, [])])
      ensures NodesKept()
    {
      assert Parts();
      Join(clients, clientId);
    }

    /** `io_uring_sqe_set_data` and one of the `io_uring_prep_` functions; the queue has room. */
    method Submit(ghost poolId: nat, ghost q: M.Sqe)
      requires Valid()
      modifies this`ring
      ensures Valid() && V() == old(V()).(ring := M.Submit(old(V()).ring, poolId, q))
    {
      assert Parts();
      ring := M.Submit(ring, poolId, q);
    }

    /** `add_accept`, for an id that is not in the table. */
    method AddAccept(clientId: nat)
      requires Valid() && clientId !in V().clients
      modifies this`ring, Repr()
      ensures Valid() && Grows()
      ensures M.AddAccept(old(V()), clientId) == M.Live(V())
      ensures NodesKept()
    {
      var op := NewAcceptOp(clientId);
      JoinClient(clientId);
      Submit(op.poolId, M.AcceptSqe(clientId));
    }

    /** Assignments to an operation in use, its buffer staying the same. */
    method AssignOp(op: Operation, kind: O.OpType, clientFd: int, processed: nat)
      requires Valid() && InHand(op)
      modifies pool.Repr
      ensures Valid() && Grows() && InHand(op)
      ensures V() == old(V()).(pool := P.Put(old(V()).pool, op.poolId,
                      old(V()).pool.ops[op.poolId].(kind := kind, clientFd := clientFd, processed := processed)))
    {
      assert Parts();
      assert pool.OpOk(op.poolId) && Memory.Owns(pool.All[op.poolId], slab64, slab2k);
      Memory.SetOp(pool, slab64, slab2k, op, kind, op.clientId, clientFd, op.bufCap, op.bufLen, op.bufRef, processed);
      assert pool.OpOk(op.poolId);
    }

    /** `add_recv`. */
    method AddRecv(op: Operation, clientFd: int)
      requires Valid() && InHand(op)
      modifies this`ring, pool.Repr
      ensures Valid() && Grows()
      ensures V() == M.AddRecv(old(V()), op.poolId, clientFd)
    {
      AssignOp(op, O.OpRead, clientFd, op.processed);
      Submit(op.poolId, M.RecvSqe(clientFd, op.Value().buf.value, 0, op.bufCap));
    }

    /** `resume_recv`. */
    method ResumeRecv(op: Operation, bytesRead: nat)
      requires Valid() && InHand(op)
      modifies this`ring
      ensures Valid() && V() == M.ResumeRecv(old(V()), op.poolId, bytesRead)
    {
      Submit(op.poolId, M.RecvSqe(op.clientFd, op.Value().buf.value, bytesRead, O.Sub64(op.bufCap, bytesRead)));
    }

    /** `resume_send`. */
    method ResumeSend(op: Operation, processed: nat)
      requires Valid() && InHand(op)
      modifies this`ring, pool.Repr
      ensures Valid() && Grows()
      ensures V() == M.ResumeSend(old(V()), op.poolId, processed)
    {
      AssignOp(op, op.kind, op.clientFd, op.processed + processed);
      Submit(op.poolId, M.SendSqe(op.clientFd, op.Value().buf.value, op.processed, O.Requested(op.Value())));
    }

    method NewSendOp(clientFd: int, clientId: nat, seqid: u64, error: Option<byte>) returns (op: Operation)
      requires Valid()
      modifies pool.Repr, slab64.Repr
      ensures Valid() && Grows()
      ensures op.poolId == P.NewId(old(V()).pool) && old(pool.All) <= pool.All
      ensures V() == old(V()).(
                      pool := P.CheckOut(old(V()).pool,
                                           M.SendOp(old(V()), clientFd, clientId, |M.AnswerBytes(seqid, error)|)),
                      mem := M.FilledSmall(old(V()).mem, M.AnswerBytes(seqid, error)))
    {
      assert Parts();
      op := Memory.CheckOutSmall(pool, slab64, slab2k, clientFd, clientId, seqid, error);
    }

    /** `send_server_error`, or `send_set_username_response` where there is no error code. */
    method Reply(clientFd: int, clientId: nat, seqid: u64, error: Option<byte>)
      requires Valid()
      modifies this, pool.Repr, slab64.Repr
      ensures Valid() && Grows()
      ensures Gives(old(V()), Answer(clientFd, clientId, M.AnswerBytes(seqid, error)), M.Live(V()))
      ensures old(pool.All) <= pool.All
    {
      ghost var ptr, bytes := O.Ptr(M.SMALL, S.NextBuf(V().mem.small)), M.AnswerBytes(seqid, error);
      var op := NewSendOp(clientFd, clientId, seqid, error);
      Record(op.poolId, clientId, bytes);
      Submit(op.poolId, M.SendSqe(clientFd, ptr, 0, |bytes|));
      assert V() == M.Reply(old(V()), clientFd, clientId, bytes);
    }

    /** The history: a message queued, nothing of it acknowledged yet. */
    method Record(ghost poolId: nat, ghost clientId: nat, ghost bytes: seq<byte>)
      requires Valid()
      modifies this`outbox, this`msg, this`acked
      ensures Valid()
      ensures V() == old(V()).(outbox := old(outbox) + [M.Sent(clientId, bytes)], msg := old(msg)[poolId := bytes],
                               acked := old(acked)[poolId := []])
    {
      assert Parts();
      outbox, msg, acked := outbox + [M.Sent(clientId, bytes)], msg[poolId := bytes], acked[poolId := []];
    }

    // ----------------------------------------------------------------- requests

    /** The entry of a client, or NULL. */
    method Find(clientId: nat) returns (info: ClientInfo?)
      requires Valid()
      ensures info != null <==> clientId in V().clients
      ensures info != null ==> IsEntry(info, clientId)
    {
      assert Parts();
      info := Lookup(clients, clientId);
    }

    /** The pointer of a client's table entry. */
    ghost predicate IsEntry(info: ClientInfo, clientId: nat)
      reads this, clients, clients.chains
    {
      clientId in clients.Nodes() && clients.Nodes()[clientId] == info
    }

    method SetClientFd(info: ClientInfo, clientId: nat, clientFd: int)
      requires Valid() && IsEntry(info, clientId) && clientId in V().clients
      modifies clients.Repr
      ensures Valid() && clients.Repr == old(clients.Repr) && IsEntry(info, clientId)
      ensures V() == M.SetFd(old(V()), clientId, clientFd)
      ensures clients.Nodes() == old(clients.Nodes())
    {
      assert Parts();
      SetFd(clients, info, clientId, clientFd);
    }

    method SetName(info: ClientInfo, clientId: nat, name: seq<byte>)
      requires Valid() && IsEntry(info, clientId) && clientId in V().clients
      modifies clients.Repr
      ensures Valid() && clients.Repr == old(clients.Repr) && IsEntry(info, clientId)
      ensures V() == M.SetName(old(V()), clientId, name)
      ensures clients.Nodes() == old(clients.Nodes())
    {
      assert Parts();
      SetUsername(clients, info, clientId, name);
    }

    /** Checks the name in a request and stores it if it is acceptable. */
    method TakeName(info: ClientInfo, clientId: nat, req: seq<byte>, ghost seqid: u64) returns (error: Option<byte>)
      requires Valid() && IsEntry(info, clientId) && clientId in V().clients
      modifies clients.Repr
      ensures Valid() && clients.Repr == old(clients.Repr) && IsEntry(info, clientId)
      ensures clientId in V().clients && Gives(old(V()), Rename(clientId, req), M.Live(V()))
      ensures M.AnswerBytes(seqid, error) == M.ReplyBytes(req, seqid)
      ensures clients.Nodes() == old(clients.Nodes())
    {
      error := CheckUsername(req, seqid);
      if error.None? {
        SetName(info, clientId, req[Protocol.PROT_HDR_LEN..]);
      }
      assert V() == M.Named(old(V()), clientId, req);
    }

    /** A SET_USERNAME request: one reply, and the name stored if it is acceptable. */
    method HandleSetUsername(info: ClientInfo, op: Operation, req: seq<byte>, seqid: u64)
      requires Valid() && IsEntry(info, op.clientId) && op.clientId in V().clients
      modifies this, pool.Repr, slab64.Repr, clients.Repr
      ensures Valid() && Grows()
      ensures old(pool.All) <= pool.All && IsEntry(info, old(op.clientId))
      ensures Gives(old(V()), Name(old(op.Value()), M.Frame(req, seqid)), M.Live(V()))
      ensures clients.Nodes() == old(clients.Nodes())
    {
      ghost var o := op.Value();
      var clientFd, clientId := op.clientFd, op.clientId;
      var error := TakeName(info, clientId, req, seqid);
      ghost var mid := V();
      Reply(clientFd, clientId, seqid, error);
      NamedThenAnswered(old(V()), o, M.Frame(req, seqid), mid, M.AnswerBytes(seqid, error), V());
    }

    /** `handle`: -1 for every type but 1, SET_USERNAME. */
    method Handle(info: ClientInfo, op: Operation, req: seq<byte>, msgt: byte, seqid: u64) returns (ret: int)
      requires Valid() && IsEntry(info, op.clientId) && op.clientId in V().clients
      modifies this, pool.Repr, slab64.Repr, clients.Repr
      ensures Valid() && Grows()
      ensures old(pool.All) <= pool.All && IsEntry(info, old(op.clientId))
      ensures ret == if msgt == 1 then 0 else -1
      ensures ret == -1 ==> V() == old(V())
      ensures ret == 0 ==> Gives(old(V()), Name(old(op.Value()), M.Frame(req, seqid)), M.Live(V()))
      ensures clients.Nodes() == old(clients.Nodes())
    {
      if msgt != Protocol.MSGT_SET_USERNAME { return -1; }
      HandleSetUsername(info, op, req, seqid);
      return 0;
    }

    // ----------------------------------------------------------------- handlers

    method NextId()
      requires Valid()
      modifies this`nextClientId
      ensures Valid() && V() == old(V()).(nextId := old(nextClientId) + 1)
    {
      assert Parts();
      nextClientId := nextClientId + 1;
    }

    /** The next ACCEPT. */
    method AcceptMore()
      requires Valid() && nextClientId !in V().clients
      modifies this, Repr()
      ensures Valid() && Grows()
      ensures Gives(old(V()), More, M.Live(V()))
      ensures NodesKept()
    {
      AddAccept(nextClientId);
      NextId();
    }

    /** The first READ of a connection, on the operation of its ACCEPT. */
    method Connect(clientFd: int, info: ClientInfo, op: Operation)
      requires Valid() && InHand(op) && IsEntry(info, op.clientId) && op.clientId in V().clients
      modifies this`ring, pool.Repr, clients.Repr
      ensures Valid() && Grows()
      ensures nextClientId == old(nextClientId) && V().clients.Keys == old(V()).clients.Keys
      ensures Gives(old(V()), First(op.poolId, clientFd), M.Live(V()))
      ensures clients.Nodes() == old(clients.Nodes())
    {
      SetClientFd(info, op.clientId, clientFd);
      AddRecv(op, clientFd);
    }

    /** `handle_accept`. */
    method HandleAccept(clientFd: int, info: ClientInfo, op: Operation, ghost r: M.Outcome)
      requires Valid() && InHand(op) && IsEntry(info, op.clientId)
      requires op.clientId in V().clients && nextClientId !in V().clients && Gives(V(), Accept(op.poolId, clientFd), r)
      modifies this, Repr()
      ensures Valid() && Grows() && r == M.Live(V())
      ensures NodesKept()
    {
      Connect(clientFd, info, op);
      ghost var mid := V();
      AcceptMore();
      AcceptHalves(old(V()), op.poolId, clientFd, mid, V(), r);
    }

    /** `handle_send`. */
    method HandleSend(op: Operation, bytesWritten: nat, ghost r: M.Outcome)
      requires Valid() && InHand(op) && Gives(V(), Send(op.poolId, bytesWritten), r) && !r.Broken?
      modifies this, pool.Repr, slab64.Repr, slab2k.Repr
      ensures Valid() && Grows() && r == M.Live(V())
    {
      assert GivesIs(V(), Send(op.poolId, bytesWritten), r);
      assert SendIs(V(), op.poolId, bytesWritten, r);
      if bytesWritten < O.Sub64(op.bufLen, op.processed) {
        ResumeSend(op, bytesWritten);
      } else {
        FreeOp(op, r);
      }
    }

    /** A pointer to an operation stays good as long as the operation is in use. */
    lemma StillInHand(op: Operation)
      requires Valid() && pool.Owned(op) && P.Out(V().pool, op.poolId) && V().pool.ops[op.poolId].buf.Some?
      ensures InHand(op)
    {
      assert Parts();
      assert pool.OpOk(op.poolId);
    }

    /** A large buffer in use is a buffer of `slab2k`, with the contents the value says. */
    lemma LargeBuf(op: Operation)
      requires Valid() && InHand(op) && op.bufRef.cap == M.LARGE
      ensures slab2k.Owned(op.bufRef) && op.bufRef in slab2k.Repr && op.bufRef.buf in slab2k.Repr
      ensures op.bufRef.id < |V().mem.large.bufs|
      ensures op.bufRef.buf[..] == V().mem.large.bufs[op.bufRef.id].data && op.bufRef.buf.Length == M.LARGE
    {
      assert Parts();
      assert Memory.Owns(pool.All[op.poolId], slab64, slab2k);
      assert slab2k.BufOk(op.bufRef.id);
    }

    /** `handle` on a request of the client whose READ is in hand; that READ and its entry are left alone. */
    method HandleFor(info: ClientInfo, op: Operation, req: seq<byte>, msgt: byte, seqid: u64) returns (ret: int)
      requires Valid() && InHand(op) && IsEntry(info, op.clientId) && op.clientId in V().clients
      modifies this, pool.Repr, slab64.Repr, clients.Repr
      ensures Valid() && Grows()
      ensures InHand(op) && op.Value() == old(op.Value()) && IsEntry(info, op.clientId)
      ensures ret == if msgt == 1 then 0 else -1
      ensures op.clientId in V().clients && (ret == -1 ==> V() == old(V()))
      ensures ret == 0 ==> Gives(old(V()), Name(old(op.Value()), M.Frame(req, seqid)), M.Live(V()))
      ensures clients.Nodes() == old(clients.Nodes())
    {
      ret := Handle(info, op, req, msgt, seqid);
      NameKeeps(old(V()), op.poolId, old(op.Value()), M.Frame(req, seqid), V(), ret);
      StillInHand(op);
    }

    /** One turn of the loop of `handle_recv`: the length of the request it handled, or how the loop ends. */
    method TakeRequest(info: ClientInfo, op: Operation, pos: nat, rem: nat)
      returns (len: nat, end: Option<M.Ending>, ghost f: M.Frame)
      requires Valid() && InHand(op) && IsEntry(info, op.clientId) && op.clientId in V().clients
      requires op.bufRef.cap == M.LARGE == op.bufRef.buf.Length && pos + rem <= M.LARGE && rem >= Protocol.PROT_HDR_LEN
      modifies this, pool.Repr, slab64.Repr, clients.Repr
      ensures Valid() && Grows()
      ensures InHand(op) && op.Value() == old(op.Value()) && IsEntry(info, op.clientId) && op.clientId in V().clients
      ensures Turns(old(op.bufRef.buf[..]), pos, rem, len, end, f) && (end.None? ==> 0 < len <= rem)
      ensures end.Some? && end.value != M.Spin ==> V() == old(V())
      ensures end.None? ==> Gives(old(V()), Name(old(op.Value()), f), M.Live(V()))
      ensures clients.Nodes() == old(clients.Nodes())
    {
      var buf := op.bufRef.buf;
      var msgt, seqid;
      len, msgt, seqid := Look(buf, pos, rem);
      f := FrameIn(buf[..], pos, len, seqid);
      if len > M.LARGE { return len, Some(M.Reject), f; }
      if rem < len { return len, Some(M.Stop(pos, rem, pos != 0)), f; }
      end := HandleWhole(info, op, buf[pos..pos + len], msgt, seqid);
    }

    /** A request whose bytes are all there. */
    method HandleWhole(info: ClientInfo, op: Operation, req: seq<byte>, msgt: byte, seqid: u64)
      returns (end: Option<M.Ending>)
      requires Valid() && InHand(op) && IsEntry(info, op.clientId) && op.clientId in V().clients
      modifies this, pool.Repr, slab64.Repr, clients.Repr
      ensures Valid() && Grows()
      ensures InHand(op) && op.Value() == old(op.Value()) && IsEntry(info, op.clientId) && op.clientId in V().clients
      ensures end == if msgt != Protocol.MSGT_SET_USERNAME then Some(M.Reject)
                     else if |req| == 0 then Some(M.Spin) else None
      ensures end == Some(M.Reject) ==> V() == old(V())
      ensures end.None? ==> Gives(old(V()), Name(old(op.Value()), M.Frame(req, seqid)), M.Live(V()))
      ensures clients.Nodes() == old(clients.Nodes())
    {
      var ret := HandleFor(info, op, req, msgt, seqid);
      if ret == -1 { return Some(M.Reject); }
      if |req| == 0 {
        QueueUntilFull(info, op, req, msgt, seqid);
        return Some(M.Spin);
      }
      return None;
    }

    /** The loop on a request of length zero, for as long as the submission queue has room; then the process exits. */
    method QueueUntilFull(info: ClientInfo, op: Operation, req: seq<byte>, msgt: byte, seqid: u64)
      requires Valid() && InHand(op) && IsEntry(info, op.clientId) && op.clientId in V().clients
      modifies this, pool.Repr, slab64.Repr, clients.Repr
      ensures Valid() && Grows() && InHand(op) && op.Value() == old(op.Value())
      ensures IsEntry(info, op.clientId) && op.clientId in V().clients && clients.Nodes() == old(clients.Nodes())
    {
      var room: nat := *;
      while room > 0
        invariant Valid() && Grows() && InHand(op) && op.Value() == old(op.Value())
        invariant IsEntry(info, op.clientId) && op.clientId in V().clients && clients.Nodes() == old(clients.Nodes())
      {
        var _ := HandleFor(info, op, req, msgt, seqid);
        room := room - 1;
      }
    }

    /** One turn, with the progress it makes. */
    method Advance(info: ClientInfo, op: Operation, n: nat, pos: nat, rem: nat,
                   ghost data: seq<byte>, ghost s0: M.State, ghost done: seq<M.Frame>)
      returns (len: nat, end: Option<M.Ending>, ghost f: M.Frame)
      requires Valid() && InHand(op) && IsEntry(info, op.clientId) && op.clientId in V().clients
      requires op.bufRef.cap == M.LARGE == op.bufRef.buf.Length && rem >= Protocol.PROT_HDR_LEN
      requires op.bufRef.buf[..] == data && pos + rem == n <= M.LARGE
      requires Stands(data, n, done, pos, rem) && Serves(s0, op.Value(), done, V())
      modifies this, pool.Repr, slab64.Repr, clients.Repr
      ensures Valid() && Grows()
      ensures InHand(op) && op.Value() == old(op.Value()) && IsEntry(info, op.clientId)
      ensures op.bufRef == old(op.bufRef) && op.bufRef.buf[..] == data
      ensures end.Some? ==> Finishes(data, n, s0, op.Value(), end.value, V())
      ensures end.None? ==> 0 < len <= rem && op.clientId in V().clients
      ensures end.None? ==> Stands(data, n, done + [f], pos + len, rem - len) && Serves(s0, op.Value(), done + [f], V())
      ensures clients.Nodes() == old(clients.Nodes())
    {
      ghost var s1 := V();
      LargeBuf(op);
      len, end, f := TakeRequest(info, op, pos, rem);
      LargeBuf(op);
      if end.Some? {
        TurnEnds(data, n, done, pos, rem, len, end, f);
        LoopEnds(data, n, s0, op.Value(), done, end.value, V());
      } else {
        TurnTakes(data, n, done, pos, rem, len, end, f);
        ServedNext(s0, op.Value(), done, s1, f, V());
      }
    }

    /**
     The loop of `handle_recv`: takes requests off the front of the received bytes until it stops at an
     incomplete one or meets one it rejects. A request that declares length zero would be handled again
     and again until the submission queue is full; the loop reports it as `Spin`.
     */
    method ParseRequests(info: ClientInfo, op: Operation, bytesRead: nat) returns (end: M.Ending)
      requires Valid() && InHand(op) && IsEntry(info, op.clientId) && op.clientId in V().clients
      requires op.bufRef.cap == M.LARGE && bytesRead <= M.LARGE == op.bufRef.buf.Length
      modifies this, pool.Repr, slab64.Repr, clients.Repr
      ensures Valid() && Grows()
      ensures InHand(op) && op.Value() == old(op.Value()) && IsEntry(info, op.clientId)
      ensures Finishes(old(op.bufRef.buf[..]), bytesRead, old(V()), old(op.Value()), end, V())
      ensures clients.Nodes() == old(clients.Nodes())
    {
      var pos, rem := 0, bytesRead;
      ghost var data, done, s0 := op.bufRef.buf[..], [], V();
      NothingTaken(data, bytesRead);
      NothingServed(s0, op.Value());
      while rem >= Protocol.PROT_HDR_LEN
        invariant 0 <= rem && pos + rem == bytesRead
        invariant clients.Nodes() == old(clients.Nodes())
        invariant Valid() && Grows()
        invariant InHand(op) && op.Value() == old(op.Value()) && IsEntry(info, op.clientId)
                  && op.clientId in V().clients
        invariant op.bufRef == old(op.bufRef) && op.bufRef.buf[..] == data
        invariant Stands(data, bytesRead, done, pos, rem) && Serves(s0, op.Value(), done, V())
      {
        var len, over, f := Advance(info, op, bytesRead, pos, rem, data, s0, done);
        if over.Some? { return over.value; }
        done := done + [f];
        pos, rem := pos + len, rem - len;
      }
      BytesEnd(data, bytesRead, done, pos, rem);
      LoopEnds(data, bytesRead, s0, op.Value(), done, M.Stop(pos, rem, false), V());
      return M.Stop(pos, rem, false);
    }

    /** Bytes stored in a large buffer in use. */
    method StoreBuf(op: Operation, off: nat, bytes: seq<byte>)
      requires Valid() && InHand(op) && op.bufRef.cap == M.LARGE && off + |bytes| <= M.LARGE
      modifies slab2k.Repr
      ensures Valid() && Grows() && InHand(op)
      ensures M.Resolves(old(V()).mem, op.Value().buf.value)
              && |M.BufAt(old(V()).mem, op.Value().buf.value).data| == M.LARGE
      ensures V() == old(V()).(mem := M.Poke(old(V()).mem, op.Value().buf.value, off, bytes))
    {
      LargeBuf(op);
      assert Parts();
      Memory.StoreLarge(pool, slab64, slab2k, op.bufRef, off, bytes);
    }

    /** memmove(buf, buf + pos, buf_cap - rem), where that stays inside the buffer. */
    method MoveDown(op: Operation, pos: nat, rem: nat)
      requires Valid() && InHand(op) && op.bufRef.cap == M.LARGE == op.bufCap && pos <= rem <= M.LARGE
      modifies slab2k.Repr
      ensures Valid() && Grows() && InHand(op)
      ensures var m, p := old(V()).mem, op.Value().buf.value;
              && M.Resolves(m, p) && |M.BufAt(m, p).data| == M.LARGE
              && V() == old(V()).(mem := M.Poke(m, p, 0, M.Moved(M.BufAt(m, p).data, pos, rem)))
    {
      LargeBuf(op);
      var buf, n := op.bufRef.buf, op.bufCap - rem;
      StoreBuf(op, 0, buf[pos..pos + n]);
      MovedBytes(old(V()).mem, op.Value().buf.value, pos, rem);
    }

    /** The end of `handle_recv`: what is left is moved to the front if the loop said so, and the READ armed again. */
    method Rearm(op: Operation, end: M.Ending) returns (status: Status)
      requires Valid() && InHand(op) && op.bufRef.cap == M.LARGE == op.bufCap
      requires end.Stop? && end.rem <= M.LARGE
      modifies this`ring, slab2k.Repr
      ensures Agrees(status, M.Rearm(old(V()), op.poolId, end))
      ensures status.Running? ==> Valid() && Grows() && M.Rearm(old(V()), op.poolId, end) == M.Live(V())
    {
      LargeBuf(op);
      if end.move {
        if end.pos > end.rem { return Undefined; }
        MoveDown(op, end.pos, end.rem);
      }
      ResumeRecv(op, end.rem);
      return Running;
    }

    /** What follows the loop of `handle_recv`. */
    method FinishRecv(info: ClientInfo, op: Operation, end: M.Ending, ghost r: M.Outcome)
      returns (status: Status)
      requires Valid() && InHand(op) && op.bufRef.cap == M.LARGE == op.bufCap
      requires op.clientId in V().clients && Gives(V(), Finish(op.poolId, end), r) && !r.Broken?
      requires end.Stop? ==> end.rem <= M.LARGE
      modifies this, Repr()
      ensures Agrees(status, r)
      ensures status.Running? ==> Valid() && Grows() && r == M.Live(V())
      ensures status.Running? ==> NodesKept()
    {
      FinishCases(V(), op.poolId, end, r);
      if end.Reject? {
        status := DisconnectAndFreeOp(info, op, r);
      } else {
        status := Rearm(op, end);
      }
    }

    /** A non-empty receive. */
    method ReceiveSome(info: ClientInfo, op: Operation, bytesRead: nat, ghost r: M.Outcome)
      returns (status: Status)
      requires Valid() && InHand(op) && op.bufRef.cap == M.LARGE == op.bufCap
      requires IsEntry(info, op.clientId) && op.clientId in V().clients && 0 < bytesRead <= M.LARGE
      requires Gives(V(), Recv(op.poolId, bytesRead), r) && !r.Broken?
      modifies this, Repr()
      ensures Agrees(status, r)
      ensures status.Running? ==> Valid() && Grows() && r == M.Live(V())
      ensures status.Running? ==> NodesKept()
    {
      LargeBuf(op);
      ghost var s0, o, data := V(), op.Value(), op.bufRef.buf[..];
      var end := ParseRequests(info, op, bytesRead);
      RecvEnds(s0, op.poolId, bytesRead, o, data, end, V(), r);
      if end.Spin? { return Stopped; }
      LargeBuf(op);
      status := FinishRecv(info, op, end, r);
    }

    /** `handle_recv`. */
    method HandleRecv(info: ClientInfo, op: Operation, bytesRead: nat, ghost r: M.Outcome)
      returns (status: Status)
      requires Valid() && InHand(op) && op.bufRef.cap == M.LARGE == op.bufCap
      requires IsEntry(info, op.clientId) && op.clientId in V().clients && bytesRead <= M.LARGE
      requires Gives(V(), Recv(op.poolId, bytesRead), r) && !r.Broken?
      modifies this, Repr()
      ensures Agrees(status, r)
      ensures status.Running? ==> Valid() && Grows() && r == M.Live(V())
      ensures status.Running? ==> NodesKept()
    {
      if bytesRead == 0 {
        EmptyReceive(V(), op.poolId, r);
        status := DisconnectAndFreeOp(info, op, r);
      } else {
        status := ReceiveSome(info, op, bytesRead, r);
      }
    }

    // -------------------------------------------------------------- completions

    /** The kernel's tables change. */
    method Kernel(ghost ring: M.Ring, open: map<int, nat>, ghost acked: map<nat, seq<byte>>)
      requires Valid()
      modifies this`ring, this`open, this`acked
      ensures Valid() && V() == old(V()).(ring := ring, open := open, acked := acked)
    {
      assert Parts();
      this.ring, this.open, this.acked := ring, open, acked;
    }

    /**
     The kernel's side of a completion: the submission leaves the ring; a new socket is open, received bytes
     are in the buffer at the offset the READ asked for, or sent bytes are acknowledged.
     */
    method Deliver(op: Operation, c: M.Completion, off: nat)
      requires Valid() && InHand(op) && op.poolId == c.id && M.Allowed(V(), c) && Lands(V(), c, off)
      modifies this, slab2k.Repr
      ensures Valid() && Grows() && InHand(op) && op.Value() == old(op.Value())
      ensures M.Deliver(old(V()), c) == M.Live(V())
    {
      ghost var left := ring[c.id := M.Without(M.Pending(ring, c.id), c.which)];
      if c.res < 0 {
        Kernel(left, open, acked);
      } else {
        match op.kind {
          case OpAccept => Kernel(left, open[c.res := op.clientId], acked);
          case OpRead =>
            StoreBuf(op, off, c.data);
            Kernel(left, open, acked);
          case OpWrite =>
            ghost var p := op.Value().buf.value;
            Kernel(left, open, acked[c.id := acked[c.id] + M.BufAt(V().mem, p).data[off..off + c.res]]);
        }
      }
    }

    /** The body of the loop in `handle_cqe_batch`. */
    method Dispatch(op: Operation, c: M.Completion, ghost r: M.Outcome) returns (status: Status)
      requires Valid() && InHand(op) && op.poolId == c.id && nextClientId !in V().clients
      requires op.kind == O.OpRead ==> op.bufRef.cap == M.LARGE == op.bufCap && c.res <= M.LARGE
      requires Gives(V(), Cqe(c), r) && !r.Broken?
      modifies this, Repr()
      ensures Agrees(status, r)
      ensures status.Running? ==> Valid() && Grows() && r == M.Live(V())
      ensures status.Running? ==> NodesKept()
    {
      var info := Find(op.clientId);
      if c.res < 0 {
        CqeFails(V(), c, r);
        status := DisconnectAndFreeOp(info, op, r);
      } else {
        status := Succeed(info, op, c, r);
      }
    }

    /** An operation that has succeeded, for a client that may have been dropped. */
    method Succeed(info: ClientInfo?, op: Operation, c: M.Completion, ghost r: M.Outcome) returns (status: Status)
      requires Valid() && InHand(op) && op.poolId == c.id && nextClientId !in V().clients && c.res >= 0
      requires op.kind == O.OpRead ==> op.bufRef.cap == M.LARGE == op.bufCap && c.res <= M.LARGE
      requires info != null <==> op.clientId in V().clients
      requires info != null ==> IsEntry(info, op.clientId)
      requires Gives(V(), Cqe(c), r) && !r.Broken?
      modifies this, Repr()
      ensures Agrees(status, r)
      ensures status.Running? ==> Valid() && Grows() && r == M.Live(V())
      ensures status.Running? ==> NodesKept()
    {
      if info == null {
        CqeLate(V(), c, r);
        FreeOp(op, r);
        status := Running;
      } else {
        status := Route(info, op, c, r);
      }
    }

    /** The switch on the type of the operation. */
    method Route(info: ClientInfo, op: Operation, c: M.Completion, ghost r: M.Outcome) returns (status: Status)
      requires Valid() && InHand(op) && op.poolId == c.id && nextClientId !in V().clients && c.res >= 0
      requires op.kind == O.OpRead ==> op.bufRef.cap == M.LARGE == op.bufCap && c.res <= M.LARGE
      requires IsEntry(info, op.clientId) && op.clientId in V().clients && !r.Broken?
      requires Gives(V(), Cqe(c), r)
      modifies this, Repr()
      ensures Agrees(status, r)
      ensures status.Running? ==> Valid() && Grows() && r == M.Live(V())
      ensures status.Running? ==> NodesKept()
    {
      status := Running;
      match op.kind {
        case OpAccept =>
          CqeAccepts(V(), c, r);
          HandleAccept(c.res, info, op, r);
        case OpRead =>
          CqeReceives(V(), c, r);
          status := HandleRecv(info, op, c.res, r);
        case OpWrite =>
          CqeSends(V(), c, r);
          HandleSend(op, c.res, r);
      }
    }

    /** The kernel's side of a step of the state machine, and the operation it completes. */
    method DeliverFor(c: M.Completion, off: nat, ghost r: M.Outcome) returns (op: Operation)
      requires Valid() && Fitting(V(), c, off, r)
      modifies this, slab2k.Repr
      ensures Valid() && Grows() && InHand(op) && op.poolId == c.id && Gives(V(), Cqe(c), r)
              && nextClientId !in V().clients
      ensures op.kind == O.OpRead ==> op.bufRef.cap == M.LARGE == op.bufCap && c.res <= M.LARGE
    {
      Fits(V(), c, off, r);
      op := GetOp(c.id);
      Deliver(op, c, off);
      StepDelivered(old(V()), c, off, V(), r);
    }

    /** The kernel's side of a completion, then the server's. */
    method Complete(c: M.Completion, off: nat, ghost r: M.Outcome) returns (status: Status)
      requires Valid() && Fitting(V(), c, off, r) && !r.Broken?
      modifies this, Repr()
      ensures Agrees(status, r)
      ensures status.Running? ==> Valid() && Grows() && r == M.Live(V())
      ensures status.Running? ==> NodesKept()
    {
      var op := DeliverFor(c, off, r);
      status := Dispatch(op, c, r);
    }

    /**
     One completion, whichever the kernel reports: the server does what the state machine does, stops
     exactly when that exits, and the invariant holds again.
     */
    method HandleCqe(c: M.Completion, off: nat) returns (status: Status)
      requires Valid() && I.Inv(V()) && M.Allowed(V(), c)
      requires var q := M.Pending(V().ring, c.id)[c.which]; !q.AcceptSqe? ==> off == q.off
      modifies this, Repr()
      ensures status.Stopped? <==> ServerRuns.ExitCause(old(V()), c)
      ensures status.Undefined? <==> ServerRuns.OverReadCause(old(V()), c)
      ensures status.Running? ==> Valid() && Grows() && I.Inv(V())
      ensures status.Running? ==> M.Step(old(V()), c) == M.Live(V())
      ensures status.Running? ==> NodesKept()
    {
      ghost var r := StepOf(V(), c, off);
      status := Complete(c, off, r);
    }

    /** The next completion of a batch. */
    method CompleteNext(cqes: seq<M.Completion>, offs: seq<nat>, i: nat, ghost s0: M.State) returns (status: Status)
      requires Valid() && i < |cqes| == |offs| && Reaches(s0, cqes, offs, i, V())
      modifies this, Repr()
      ensures status.Running? ==> Valid() && Grows() && Reaches(s0, cqes, offs, i + 1, V())
      ensures status.Running? ==> NodesKept()
      ensures status.Running? ==>
                forall k :: k in s0.clients && k in clients.Nodes() ==> k in old(clients.Nodes())
      ensures M.Shape(s0) && (!status.Running? ==> Agrees(status, M.RunFrom(M.Live(s0), cqes)))
    {
      ghost var r := RunStep(s0, cqes, offs, i, V());
      KeysAgree();
      status := Complete(cqes[i], offs[i], r);
      if status.Running? { KeysAgree(); }
    }

    lemma KeysAgree()
      requires Valid()
      ensures V().clients.Keys == clients.Nodes().Keys
    {
      assert Parts();
      clients.SameKeys();
    }

    /**
     `handle_cqe_batch`: any list of completions, each one the kernel may report when its turn comes, takes the
     server along the run of the state machine; if it stops, so has the state machine. An entry that is there before
     and after has been in the same node all along.
     */
    method HandleCqeBatch(cqes: seq<M.Completion>, offs: seq<nat>) returns (status: Status)
      requires Valid() && I.Inv(V()) && ReportsAll(V(), cqes, offs)
      modifies this, Repr()
      ensures status.Running? ==> Valid() && Grows() && I.Inv(V()) && M.RunFrom(M.Live(old(V())), cqes) == M.Live(V())
      ensures Agrees(status, M.RunFrom(M.Live(old(V())), cqes))
      ensures status.Running? ==> NodesKept()
    {
      ghost var s0 := V();
      RunStarts(s0, cqes, offs);
      status := CompleteAll(cqes, offs, s0);
      if status.Running? { RunEnds(s0, cqes, offs, V()); }
    }

    /** The loop over a batch that begins in `s0`. */
    method CompleteAll(cqes: seq<M.Completion>, offs: seq<nat>, ghost s0: M.State) returns (status: Status)
      requires Valid() && s0 == V() && |cqes| == |offs| && Reaches(s0, cqes, offs, 0, s0)
      modifies this, Repr()
      ensures status.Running? ==> Valid() && Grows() && Reaches(s0, cqes, offs, |cqes|, V())
      ensures status.Running? ==> NodesKept()
      ensures !status.Running? ==> M.Shape(s0) && Agrees(status, M.RunFrom(M.Live(s0), cqes))
    {
      KeysAgree();
      status := Running;
      var i := 0;
      while i < |cqes|
        invariant 0 <= i <= |cqes| && status.Running?
        invariant Valid() && Grows() && Reaches(s0, cqes, offs, i, V())
        invariant NodesKept()
      {
        status := CompleteNext(cqes, offs, i, s0);
        if !status.Running? { return; }
        i := i + 1;
      }
    }

    /** `server_start` up to its loop. */
    method Start()
      requires Valid() && V() == M.Initial()
      modifies this, Repr()
      ensures Valid() && Grows() && M.Start() == M.Live(V()) && I.Inv(V())
    {
      AcceptMore();
      StartIs(V());
    }
  }

  lemma TableSize()
    ensures Bits.IsPow2(1024)
  {
  }

  /** The structures at their initial capacities. */
  method Structures() returns (clients: ClientMap, slab64: Slab, slab2k: Slab, pool: OpPool)
    ensures clients.Valid() && clients.V() == map[] && fresh(clients.Repr) && clients.chains.arr.Length == 1024
    ensures slab64.Valid() && slab64.V == S.FreshSlab(M.SMALL, 64) && fresh(slab64.Repr)
    ensures slab2k.Valid() && slab2k.V == S.FreshSlab(M.LARGE, 64) && fresh(slab2k.Repr)
    ensures pool.Valid() && pool.V == P.Pool([], []) && pool.All == [] && fresh(pool.Repr)
    ensures Memory.Apart(pool, slab64, slab2k)
    ensures clients.Repr !! pool.Repr && clients.Repr !! slab64.Repr && clients.Repr !! slab2k.Repr
  {
    TableSize();
    pool := new OpPool(1024, 256);
    clients := new ClientMap(1024);
    slab64 := new Slab(M.SMALL, 64);
    slab2k := new Slab(M.LARGE, 64);
  }

  /** `main` up to the event loop: the structures, the server on them, the first ACCEPT. */
  method SetUp() returns (srv: Server)
    ensures srv.Valid() && M.Start() == M.Live(srv.V()) && I.Inv(srv.V())
    ensures srv.clients.chains.arr.Length == 1024
  {
    var clients, slab64, slab2k, pool := Structures();
    srv := new Server(clients, slab64, slab2k, pool);
    assert srv.Repr() == pool.Repr + slab64.Repr + slab2k.Repr + clients.Repr;
    srv.Start();
  }
}
