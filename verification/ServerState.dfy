/**
 The event loop of server.c as a state machine over values.

 One step is one completion: any submission still in the ring, with any result its kind allows.
 The kernel side is kept abstract: `ring` holds the prepared submissions by their user_data,
 `open` is the table of open client sockets (which client each was accepted for).
 `Exited` stands for `exit`. What C leaves undefined or checks with an assert has two outcomes:
 `OverRead` is the one that does happen, a memmove that reads past the end of the receive buffer;
 `Broken` is everything else: a bad pool id, a NULL or foreign buffer, a second return or release, an
 unchecked failed map insertion. After any of the three there is no next step.
 */
module ServerState {
  import opened Base
  import opened Ops
  import opened PoolModel
  import opened SlabModel
  import opened ClientModel
  import opened Protocol

  const SMALL := 64
  const LARGE := 2048

  const CODE_INVALID_MSG_LEN: byte := 2
  const CODE_INVALID_USERNAME: byte := 3

  datatype Sqe =
    | AcceptSqe(client: nat)
    | RecvSqe(fd: int, buf: Ptr, off: nat, len: nat)
    | SendSqe(fd: int, buf: Ptr, off: nat, len: nat)

  /** `slab64` and `slab2k`. */
  datatype Mem = Mem(small: Slab, large: Slab)

  datatype Sent = Sent(client: nat, bytes: seq<byte>)

  /**
   The last three fields are history, never read by the code: every message queued, and for each
   operation the message it carries and the bytes of it the kernel has acknowledged.
   */
  datatype State = State(
    pool: Pool,
    mem: Mem,
    clients: map<nat, Client>,
    nextId: nat,
    ring: map<nat, seq<Sqe>>,
    open: map<int, nat>,
    outbox: seq<Sent>,
    msg: map<nat, seq<byte>>,
    acked: map<nat, seq<byte>>)

  datatype Outcome = Live(s: State) | Exited | OverRead | Broken

  datatype Completion = Completion(id: nat, which: nat, res: int, data: seq<byte>)

  /** The pool and both slabs are well formed. */
  ghost predicate Shape(s: State) {
    && PoolOk(s.pool)
    && MemOk(s.mem)
  }

  ghost predicate MemOk(m: Mem) {
    && SlabOk(m.small) && NoneLost(m.small) && m.small.bufCap == SMALL
    && SlabOk(m.large) && NoneLost(m.large) && m.large.bufCap == LARGE
  }

  type Ring = map<nat, seq<Sqe>>

  function Pending(ring: Ring, id: nat): seq<Sqe> {
    if id in ring then ring[id] else []
  }

  function Submit(ring: Ring, id: nat, q: Sqe): Ring {
    ring[id := Pending(ring, id) + [q]]
  }

  /** The slab `free_op` releases a buffer of this capacity to. */
  function SlabFor(m: Mem, cap: nat): Slab {
    if cap > SMALL then m.large else m.small
  }

  function WithSlab(m: Mem, cap: nat, sl: Slab): Mem {
    if cap > SMALL then m.(large := sl) else m.(small := sl)
  }

  /** The buffer behind a pointer exists in the slab that allocated it. */
  predicate Resolves(m: Mem, p: Ptr) {
    p.cap == SlabFor(m, p.cap).bufCap && p.idx < |SlabFor(m, p.cap).bufs|
  }

  function BufAt(m: Mem, p: Ptr): Buf
    requires Resolves(m, p)
  {
    SlabFor(m, p.cap).bufs[p.idx]
  }

  function Poke(m: Mem, p: Ptr, off: nat, bytes: seq<byte>): Mem
    requires Resolves(m, p) && off + |bytes| <= |BufAt(m, p).data|
  {
    WithSlab(m, p.cap, Write(SlabFor(m, p.cap), p.idx, off, bytes))
  }

  lemma PokeFrame(m: Mem, p: Ptr, off: nat, bytes: seq<byte>)
    requires MemOk(m) && Resolves(m, p) && off + |bytes| <= |BufAt(m, p).data|
    ensures var n := Poke(m, p, off, bytes);
            && MemOk(n)
            && (forall q: Ptr :: Resolves(n, q) <==> Resolves(m, q))
            && (forall q: Ptr :: Resolves(m, q) ==> BufAt(n, q).ref == BufAt(m, q).ref)
            && (forall q: Ptr :: Resolves(m, q) && q != p ==> BufAt(n, q) == BufAt(m, q))
  {
    WriteFrame(SlabFor(m, p.cap), p.idx, off, bytes);
  }

  // ---------------------------------------------------------------- resources

  function FreeOp(s: State, id: nat): (r: Outcome)
    requires Shape(s)
    ensures r.Live? ==> Shape(r.s)
  {
    if !Out(s.pool, id) || s.pool.ops[id].buf.None? then Broken else
    var op := s.pool.ops[id];
    var p, sl := op.buf.value, SlabFor(s.mem, op.bufCap);
    if p.cap != sl.bufCap || !Held(sl, p.idx) then Broken else
    var blank := Cleared(op);
    HeldTaken(sl, p.idx);
    ReleaseFrame(sl, p.idx);
    ReturnFrame(s.pool, id, blank);
    Live(s.(pool := Return(Put(s.pool, id, blank), id),
            mem := WithSlab(s.mem, op.bufCap, Release(sl, p.idx))))
  }

  function DisconnectAndFreeOp(s: State, id: nat): (r: Outcome)
    requires Shape(s)
    ensures r.Live? ==> Shape(r.s)
  {
    if !Out(s.pool, id) then Broken else
    var op := s.pool.ops[id];
    if op.clientId !in s.clients then FreeOp(s, id)
    else if op.clientFd !in s.open then Exited
    else FreeOp(s.(open := s.open - {op.clientFd}, clients := s.clients - {op.clientId}), id)
  }

  // -------------------------------------------------------------- submissions

  function AcceptOp(s: State, clientId: nat): Operation {
    Operation(OpAccept, clientId, -1, LARGE, 0, Some(Ptr(LARGE, NextBuf(s.mem.large))), 0)
  }

  function AddAccept(s: State, clientId: nat): (r: Outcome)
    requires Shape(s)
    ensures r.Live? ==> Shape(r.s)
  {
    if clientId in s.clients then Broken else
    var id, op := NewId(s.pool), AcceptOp(s, clientId);
    CheckOutFrame(s.pool, op);
    AcquireFrame(s.mem.large, 1);
    Live(s.(pool := CheckOut(s.pool, op), mem := s.mem.(large := Acquire(s.mem.large, 1)),
            clients := s.clients[clientId := Client(0, [])],
            ring := Submit(s.ring, id, AcceptSqe(clientId))))
  }

  function AddRecv(s: State, id: nat, fd: int): (t: State)
    requires Shape(s) && Out(s.pool, id) && s.pool.ops[id].buf.Some?
    ensures Shape(t)
  {
    var op := s.pool.ops[id].(clientFd := fd, kind := OpRead);
    s.(pool := Put(s.pool, id, op),
       ring := Submit(s.ring, id, RecvSqe(fd, op.buf.value, 0, op.bufCap)))
  }

  function ResumeRecv(s: State, id: nat, bytesRead: nat): (t: State)
    requires Shape(s) && Out(s.pool, id) && s.pool.ops[id].buf.Some?
    ensures Shape(t)
  {
    var op := s.pool.ops[id];
    s.(ring := Submit(s.ring, id, RecvSqe(op.clientFd, op.buf.value, bytesRead, Sub64(op.bufCap, bytesRead))))
  }

  function ResumeSend(s: State, id: nat, n: nat): (t: State)
    requires Shape(s) && Out(s.pool, id) && s.pool.ops[id].buf.Some?
    ensures Shape(t)
  {
    var op := s.pool.ops[id].(processed := s.pool.ops[id].processed + n);
    s.(pool := Put(s.pool, id, op),
       ring := Submit(s.ring, id, SendSqe(op.clientFd, op.buf.value, op.processed, Requested(op))))
  }

  function SendOp(s: State, fd: int, clientId: nat, len: nat): Operation {
    Operation(OpWrite, clientId, fd, SMALL, len, Some(Ptr(SMALL, NextBuf(s.mem.small))), 0)
  }

  /** One more small buffer in use, starting with `bytes`. */
  function FilledSmall(m: Mem, bytes: seq<byte>): (n: Mem)
    requires MemOk(m) && |bytes| <= SMALL
    ensures MemOk(n)
  {
    AcquireFrame(m.small, 1);
    var t, p := m.(small := Acquire(m.small, 1)), Ptr(SMALL, NextBuf(m.small));
    PokeFrame(t, p, 0, bytes);
    Poke(t, p, 0, bytes)
  }

  /** `send_server_error` and `send_set_username_response`: a new operation with its own small buffer. */
  function Reply(s: State, fd: int, clientId: nat, bytes: seq<byte>): (t: State)
    requires Shape(s) && |bytes| <= SMALL
    ensures Shape(t)
  {
    var id, p := NewId(s.pool), Ptr(SMALL, NextBuf(s.mem.small));
    var op := SendOp(s, fd, clientId, |bytes|);
    CheckOutFrame(s.pool, op);
    s.(pool := CheckOut(s.pool, op), mem := FilledSmall(s.mem, bytes),
       ring := Submit(s.ring, id, SendSqe(fd, p, 0, |bytes|)),
       outbox := s.outbox + [Sent(clientId, bytes)], msg := s.msg[id := bytes], acked := s.acked[id := []])
  }

  // ----------------------------------------------------------------- requests

  /** An ASCII letter or digit. */
  predicate LetterOrDigit(c: byte) {
    '0' <= c as char <= '9' || 'A' <= c as char <= 'Z' || 'a' <= c as char <= 'z'
  }

  predicate UsernameValid(name: seq<byte>) {
    forall i :: 0 <= i < |name| ==> LetterOrDigit(name[i])
  }

  /** The length `deser_set_username` computes wraps around for frames shorter than a header. */
  predicate NameLenOk(frame: seq<byte>) {
    MIN_UNAME_LEN <= Sub64(|frame|, PROT_HDR_LEN) <= MAX_UNAME_LEN
  }

  predicate NameOk(frame: seq<byte>) {
    NameLenOk(frame) && UsernameValid(frame[PROT_HDR_LEN..])
  }

  /** The message of an answer: an error code, or none for success. */
  function AnswerBytes(seqid: u64, error: Option<byte>): (b: seq<byte>)
    ensures 0 < |b| <= 12
  {
    match error
    case Some(code) => EncServerError(seqid, code)
    case None => EncSetUsernameResponse(seqid)
  }

  function ReplyBytes(frame: seq<byte>, seqid: u64): (b: seq<byte>)
    ensures 0 < |b| <= 12
  {
    if !NameLenOk(frame) then EncServerError(seqid, CODE_INVALID_MSG_LEN)
    else if !UsernameValid(frame[PROT_HDR_LEN..]) then EncServerError(seqid, CODE_INVALID_USERNAME)
    else EncSetUsernameResponse(seqid)
  }

  function SetFd(s: State, clientId: nat, fd: int): State
    requires clientId in s.clients
  {
    s.(clients := s.clients[clientId := s.clients[clientId].(fd := fd)])
  }

  function SetName(s: State, clientId: nat, name: seq<byte>): State
    requires clientId in s.clients
  {
    s.(clients := s.clients[clientId := s.clients[clientId].(name := name)])
  }

  /** The stored name changes only if the frame's name is acceptable. */
  function Named(s: State, clientId: nat, frame: seq<byte>): (t: State)
    requires Shape(s) && clientId in s.clients
    ensures Shape(t)
  {
    if NameOk(frame) then SetName(s, clientId, frame[PROT_HDR_LEN..]) else s
  }

  /** A SET_USERNAME frame the parse loop hands to `handle`. */
  datatype Frame = Frame(bytes: seq<byte>, seqid: u64)

  /** How the parse loop of `handle_recv` ends. */
  datatype Ending =
    | Stop(pos: nat, rem: nat, move: bool)  // re-arm, after a memmove if `move`
    | Reject                                // oversized length or unsupported type
    | Spin                                  // a zero-length frame: queues replies until the ring is full

  datatype Parsed = Parsed(frames: seq<Frame>, end: Ending)

  /** The control flow of the parse loop, which depends on the bytes alone. */
  function Parse(data: seq<byte>, pos: nat, rem: nat): (r: Parsed)
    requires pos + rem <= |data|
    ensures r.end.Stop? ==> r.end.pos + r.end.rem == pos + rem && r.end.rem <= rem && r.end.rem < LARGE
    decreases rem
  {
    if rem < PROT_HDR_LEN then Parsed([], Stop(pos, rem, false)) else
    var hdr := data[pos..];
    var len := HdrLen(hdr);
    if len > LARGE then Parsed([], Reject)
    else if rem < len then Parsed([], Stop(pos, rem, pos != 0))
    else if HdrType(hdr) != MSGT_SET_USERNAME then Parsed([], Reject)
    else if len == 0 then Parsed([], Spin)
    else
      var rest := Parse(data, pos + len, rem - len);
      Parsed([Frame(data[pos..pos + len], HdrSeqid(hdr))] + rest.frames, rest.end)
  }

  /** `handle` on a SET_USERNAME frame; every other type is rejected before this. */
  function HandleSetUsername(s: State, op: Operation, frame: Frame): (t: State)
    requires Shape(s) && op.clientId in s.clients
    ensures Shape(t)
    ensures op.clientId in t.clients
  {
    Reply(Named(s, op.clientId, frame.bytes), op.clientFd, op.clientId, ReplyBytes(frame.bytes, frame.seqid))
  }

  /** `handle` on each frame in turn. */
  function Serve(s: State, op: Operation, frames: seq<Frame>): (t: State)
    requires Shape(s) && op.clientId in s.clients
    ensures Shape(t)
    ensures op.clientId in t.clients
  {
    if |frames| == 0 then s
    else HandleSetUsername(Serve(s, op, frames[..|frames| - 1]), op, frames[|frames| - 1])
  }

  /** memmove(buf, buf + pos, buf_cap - rem), where that stays inside the buffer. */
  function Moved(data: seq<byte>, pos: nat, rem: nat): (d: seq<byte>)
    requires pos <= rem <= |data|
    ensures |d| == |data|
  {
    var n := |data| - rem;
    data[pos..pos + n] + data[n..]
  }

  function Rearm(s: State, id: nat, end: Ending): (r: Outcome)
    requires Shape(s)
    ensures r.Live? ==> Shape(r.s)
  {
    if !end.Stop? || !Out(s.pool, id) || s.pool.ops[id].buf.None? then Broken else
    var p := s.pool.ops[id].buf.value;
    if !Resolves(s.mem, p) then Broken else
    var data := BufAt(s.mem, p).data;
    if end.rem > |data| then Broken
    else if end.move && end.pos > end.rem then OverRead
    else if end.move then
      var d := Moved(data, end.pos, end.rem);
      PokeFrame(s.mem, p, 0, d);
      Live(ResumeRecv(s.(mem := Poke(s.mem, p, 0, d)), id, end.rem))
    else
      Live(ResumeRecv(s, id, end.rem))
  }

  // ----------------------------------------------------------------- handlers

  function HandleAccept(s: State, id: nat, fd: int): (r: Outcome)
    requires Shape(s)
    ensures r.Live? ==> Shape(r.s)
  {
    if !Out(s.pool, id) || s.pool.ops[id].buf.None? || s.pool.ops[id].clientId !in s.clients then Broken else
    var c := s.pool.ops[id].clientId;
    var r := AddAccept(AddRecv(SetFd(s, c, fd), id, fd), s.nextId);
    if r.Live? then Live(r.s.(nextId := s.nextId + 1)) else r
  }

  /** After the loop: the client is dropped, or its READ armed again. */
  function FinishRecv(s: State, id: nat, end: Ending): (r: Outcome)
    requires Shape(s)
    ensures r.Live? ==> Shape(r.s)
  {
    if end.Reject? then DisconnectAndFreeOp(s, id) else Rearm(s, id, end)
  }

  predicate Readable(s: State, id: nat, n: nat) {
    && Out(s.pool, id) && s.pool.ops[id].clientId in s.clients
    && s.pool.ops[id].buf.Some? && Resolves(s.mem, s.pool.ops[id].buf.value)
    && n <= |BufAt(s.mem, s.pool.ops[id].buf.value).data|
  }

  function HandleRecv(s: State, id: nat, n: nat): (r: Outcome)
    requires Shape(s)
    ensures r.Live? ==> Shape(r.s)
  {
    if n == 0 then DisconnectAndFreeOp(s, id) else
    if !Readable(s, id, n) then Broken else
    var op := s.pool.ops[id];
    var p := Parse(BufAt(s.mem, op.buf.value).data, 0, n);
    if p.end.Spin? then Exited else FinishRecv(Serve(s, op, p.frames), id, p.end)
  }

  function HandleSend(s: State, id: nat, n: nat): (r: Outcome)
    requires Shape(s)
    ensures r.Live? ==> Shape(r.s)
  {
    if !Out(s.pool, id) || s.pool.ops[id].buf.None? then Broken
    else if IsIncomplete(s.pool.ops[id], n) then Live(ResumeSend(s, id, n))
    else FreeOp(s, id)
  }

  // --------------------------------------------------------------- completions

  /** What the kernel may report for a pending submission. */
  predicate Allowed(s: State, c: Completion) {
    && c.which < |Pending(s.ring, c.id)|
    && match Pending(s.ring, c.id)[c.which]
       case AcceptSqe(_) => c.res < 0 || c.res !in s.open
       case RecvSqe(_, _, _, len) => c.res <= len && (c.res >= 0 ==> |c.data| == c.res)
       case SendSqe(_, _, _, len) => c.res <= len
  }

  function Without<T>(q: seq<T>, i: nat): seq<T>
    requires i < |q|
  {
    q[..i] + q[i + 1..]
  }

  /** The kernel's side of a completion: the submission is consumed and its effect takes place. */
  function Deliver(s: State, c: Completion): (r: Outcome)
    requires Shape(s) && Allowed(s, c)
    ensures r.Live? ==> Shape(r.s)
  {
    var q := Pending(s.ring, c.id)[c.which];
    var t := s.(ring := s.ring[c.id := Without(Pending(s.ring, c.id), c.which)]);
    if c.res < 0 then Live(t) else
    match q
    case AcceptSqe(client) => Live(t.(open := s.open[c.res := client]))
    case RecvSqe(_, p, off, len) =>
      if !Resolves(s.mem, p) || off + len > |BufAt(s.mem, p).data| then Broken else
      PokeFrame(s.mem, p, off, c.data);
      Live(t.(mem := Poke(s.mem, p, off, c.data)))
    case SendSqe(_, p, off, len) =>
      if !Resolves(s.mem, p) || off + len > |BufAt(s.mem, p).data| || c.id !in s.acked then Broken else
      Live(t.(acked := s.acked[c.id := s.acked[c.id] + BufAt(s.mem, p).data[off..off + c.res]]))
  }

  /** The body of the loop in `handle_cqe_batch`. */
  function Dispatch(s: State, c: Completion): (r: Outcome)
    requires Shape(s)
    ensures r.Live? ==> Shape(r.s)
  {
    if c.id >= |s.pool.ops| then Broken else
    var op := s.pool.ops[c.id];
    if c.res < 0 then DisconnectAndFreeOp(s, c.id)
    else if op.clientId !in s.clients then FreeOp(s, c.id)
    else match op.kind
      case OpAccept => HandleAccept(s, c.id, c.res)
      case OpRead => HandleRecv(s, c.id, c.res)
      case OpWrite => HandleSend(s, c.id, c.res)
  }

  function Step(s: State, c: Completion): (r: Outcome)
    requires Shape(s) && Allowed(s, c)
    ensures r.Live? ==> Shape(r.s)
  {
    var d := Deliver(s, c);
    if d.Live? then Dispatch(d.s, c) else d
  }

  // ---------------------------------------------------------------------- runs

  /** What `main` sets up: empty pool and map, 64 buffers a slab. */
  function Initial(): (s: State)
    ensures Shape(s)
  {
    FreshSlabOk(SMALL, 64);
    FreshSlabOk(LARGE, 64);
    State(Pool([], []), Mem(FreshSlab(SMALL, 64), FreshSlab(LARGE, 64)), map[], 1, map[], map[], [], map[], map[])
  }

  /** `server_start` up to the event loop: one accept. */
  function Start(): (r: Outcome)
    ensures r.Live? ==> Shape(r.s)
  {
    var r := AddAccept(Initial(), 1);
    if r.Live? then Live(r.s.(nextId := 2)) else r
  }

  /** One more completion: one more step, or nothing if there is no next step or the kernel cannot report it. */
  function Next(r: Outcome, c: Completion): (t: Outcome)
    requires r.Live? ==> Shape(r.s)
    ensures t.Live? ==> Shape(t.s)
  {
    if r.Live? && Allowed(r.s, c) then Step(r.s, c) else r
  }

  /** Running a list of completions. */
  function RunFrom(r: Outcome, cs: seq<Completion>): (t: Outcome)
    requires r.Live? ==> Shape(r.s)
    ensures t.Live? ==> Shape(t.s)
  {
    if |cs| == 0 then r else Next(RunFrom(r, cs[..|cs| - 1]), cs[|cs| - 1])
  }

  function Run(cs: seq<Completion>): (r: Outcome)
    ensures r.Live? ==> Shape(r.s)
  {
    RunFrom(Start(), cs)
  }
}
