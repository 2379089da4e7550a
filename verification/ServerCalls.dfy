/**
 The functions of the state machine as calls with outcomes: what a handler must establish, and how the
 outcome of one call is that of the calls it makes. As in `ParseLoop`, a case of `Gives`, and `Fitting`, are
 unfolded only where the predicate with `Is` is named.
 */
module ServerCalls {
  import opened Base
  import opened ParseLoop
  import O = Ops
  import P = PoolModel
  import Protocol
  import M = ServerState
  import I = ServerInvariant
  import ServerRuns
  import ServerTheorems

  /** A function of the state machine, called. */
  datatype Call =
    | Free(id: nat)
    | Disconnect(id: nat)
    | Accept(id: nat, fd: int)
    | First(id: nat, fd: int)
    | More
    | Send(id: nat, n: nat)
    | Answer(fd: int, client: nat, bytes: seq<byte>)
    | Rename(client: nat, bytes: seq<byte>)
    | Name(op: O.Operation, frame: M.Frame)
    | Finish(id: nat, end: M.Ending)
    | Recv(id: nat, n: nat)
    | Cqe(c: M.Completion)

  /** The first half of `handle_accept`: the entry gets its socket and the operation becomes a READ. */
  ghost function FirstRecv(s: M.State, id: nat, fd: int): M.Outcome
    requires M.Shape(s)
  {
    if !P.Out(s.pool, id) || s.pool.ops[id].buf.None? || s.pool.ops[id].clientId !in s.clients then M.Broken
    else M.Live(M.AddRecv(M.SetFd(s, s.pool.ops[id].clientId, fd), id, fd))
  }

  /** The second half: the next ACCEPT. */
  ghost function NextArmed(s: M.State): M.Outcome
    requires M.Shape(s)
  {
    var r := M.AddAccept(s, s.nextId);
    if r.Live? then M.Live(r.s.(nextId := s.nextId + 1)) else r
  }

  // In state `s` the state machine answers the call with `r`.

  ghost predicate FreeIs(s: M.State, id: nat, r: M.Outcome) {
    M.Shape(s) && r == M.FreeOp(s, id)
  }

  ghost predicate DisconnectIs(s: M.State, id: nat, r: M.Outcome) {
    M.Shape(s) && r == M.DisconnectAndFreeOp(s, id)
  }

  ghost predicate AcceptIs(s: M.State, id: nat, fd: int, r: M.Outcome) {
    M.Shape(s) && r == M.HandleAccept(s, id, fd)
  }

  ghost predicate FirstIs(s: M.State, id: nat, fd: int, r: M.Outcome) {
    M.Shape(s) && r == FirstRecv(s, id, fd)
  }

  ghost predicate MoreIs(s: M.State, r: M.Outcome) {
    M.Shape(s) && r == NextArmed(s)
  }

  ghost predicate SendIs(s: M.State, id: nat, n: nat, r: M.Outcome) {
    M.Shape(s) && r == M.HandleSend(s, id, n)
  }

  ghost predicate AnswerIs(s: M.State, fd: int, client: nat, bytes: seq<byte>, r: M.Outcome) {
    M.Shape(s) && |bytes| <= M.SMALL && r == M.Live(M.Reply(s, fd, client, bytes))
  }

  ghost predicate RenameIs(s: M.State, client: nat, bytes: seq<byte>, r: M.Outcome) {
    M.Shape(s) && client in s.clients && r == M.Live(M.Named(s, client, bytes))
  }

  ghost predicate NameIs(s: M.State, op: O.Operation, frame: M.Frame, r: M.Outcome) {
    M.Shape(s) && op.clientId in s.clients && r == M.Live(M.HandleSetUsername(s, op, frame))
  }

  ghost predicate FinishIs(s: M.State, id: nat, end: M.Ending, r: M.Outcome) {
    M.Shape(s) && r == M.FinishRecv(s, id, end)
  }

  ghost predicate RecvIs(s: M.State, id: nat, n: nat, r: M.Outcome) {
    M.Shape(s) && r == M.HandleRecv(s, id, n)
  }

  ghost predicate CqeIs(s: M.State, c: M.Completion, r: M.Outcome) {
    M.Shape(s) && r == M.Dispatch(s, c)
  }

  ghost predicate GivesIs(s: M.State, call: Call, r: M.Outcome) {
    match call
    case Free(id) => forall q {:trigger FreeIs(s, id, q)} :: q == r ==> FreeIs(s, id, q)
    case Disconnect(id) => forall q {:trigger DisconnectIs(s, id, q)} :: q == r ==> DisconnectIs(s, id, q)
    case Accept(id, fd) => forall q {:trigger AcceptIs(s, id, fd, q)} :: q == r ==> AcceptIs(s, id, fd, q)
    case First(id, fd) => forall q {:trigger FirstIs(s, id, fd, q)} :: q == r ==> FirstIs(s, id, fd, q)
    case More => forall q {:trigger MoreIs(s, q)} :: q == r ==> MoreIs(s, q)
    case Send(id, n) => forall q {:trigger SendIs(s, id, n, q)} :: q == r ==> SendIs(s, id, n, q)
    case Answer(fd, client, bytes) =>
      forall q {:trigger AnswerIs(s, fd, client, bytes, q)} :: q == r ==> AnswerIs(s, fd, client, bytes, q)
    case Rename(client, bytes) =>
      forall q {:trigger RenameIs(s, client, bytes, q)} :: q == r ==> RenameIs(s, client, bytes, q)
    case Name(op, frame) => forall q {:trigger NameIs(s, op, frame, q)} :: q == r ==> NameIs(s, op, frame, q)
    case Finish(id, end) => forall q {:trigger FinishIs(s, id, end, q)} :: q == r ==> FinishIs(s, id, end, q)
    case Recv(id, n) => forall q {:trigger RecvIs(s, id, n, q)} :: q == r ==> RecvIs(s, id, n, q)
    case Cqe(c) => forall q {:trigger CqeIs(s, c, q)} :: q == r ==> CqeIs(s, c, q)
  }

  /** The same, unfolded only where `GivesIs` is named. */
  ghost predicate Gives(s: M.State, call: Call, r: M.Outcome) {
    forall a {:trigger GivesIs(s, a, r)} :: a == call ==> GivesIs(s, a, r)
  }

  lemma RecvGiven(s: M.State, id: nat, n: nat, r: M.Outcome)
    requires Gives(s, Recv(id, n), r)
    ensures RecvIs(s, id, n, r)
  {
    assert GivesIs(s, Recv(id, n), r);
  }

  lemma NameGiven(s: M.State, op: O.Operation, frame: M.Frame, r: M.Outcome)
    requires Gives(s, Name(op, frame), r)
    ensures NameIs(s, op, frame, r)
  {
    assert GivesIs(s, Name(op, frame), r);
  }

  lemma RenameGiven(s: M.State, client: nat, bytes: seq<byte>, r: M.Outcome)
    requires Gives(s, Rename(client, bytes), r)
    ensures RenameIs(s, client, bytes, r)
  {
    assert GivesIs(s, Rename(client, bytes), r);
  }

  lemma AnswerGiven(s: M.State, fd: int, client: nat, bytes: seq<byte>, r: M.Outcome)
    requires Gives(s, Answer(fd, client, bytes), r)
    ensures AnswerIs(s, fd, client, bytes, r)
  {
    assert GivesIs(s, Answer(fd, client, bytes), r);
  }

  // The cases of the loop body.

  lemma CqeFails(s: M.State, c: M.Completion, r: M.Outcome)
    requires Gives(s, Cqe(c), r) && c.id < |s.pool.ops| && c.res < 0
    ensures Gives(s, Disconnect(c.id), r)
  {
    assert GivesIs(s, Cqe(c), r);
    assert CqeIs(s, c, r);
    assert DisconnectIs(s, c.id, r);
  }

  lemma CqeLate(s: M.State, c: M.Completion, r: M.Outcome)
    requires Gives(s, Cqe(c), r) && c.id < |s.pool.ops| && c.res >= 0 && s.pool.ops[c.id].clientId !in s.clients
    ensures Gives(s, Free(c.id), r)
  {
    assert GivesIs(s, Cqe(c), r);
    assert CqeIs(s, c, r);
    assert FreeIs(s, c.id, r);
  }

  /** A completion with a result, for a client still there. */
  predicate Routed(s: M.State, c: M.Completion, kind: O.OpType) {
    c.id < |s.pool.ops| && c.res >= 0 && s.pool.ops[c.id].clientId in s.clients && s.pool.ops[c.id].kind == kind
  }

  lemma CqeAccepts(s: M.State, c: M.Completion, r: M.Outcome)
    requires Gives(s, Cqe(c), r) && Routed(s, c, O.OpAccept)
    ensures Gives(s, Accept(c.id, c.res), r)
  {
    assert GivesIs(s, Cqe(c), r);
    assert CqeIs(s, c, r);
    assert AcceptIs(s, c.id, c.res, r);
  }

  lemma CqeReceives(s: M.State, c: M.Completion, r: M.Outcome)
    requires Gives(s, Cqe(c), r) && Routed(s, c, O.OpRead)
    ensures Gives(s, Recv(c.id, c.res), r)
  {
    assert GivesIs(s, Cqe(c), r);
    assert CqeIs(s, c, r);
    assert RecvIs(s, c.id, c.res, r);
  }

  lemma CqeSends(s: M.State, c: M.Completion, r: M.Outcome)
    requires Gives(s, Cqe(c), r) && Routed(s, c, O.OpWrite)
    ensures Gives(s, Send(c.id, c.res), r)
  {
    assert GivesIs(s, Cqe(c), r);
    assert CqeIs(s, c, r);
    assert SendIs(s, c.id, c.res, r);
  }

  /** `disconnect_and_free_op`, for a client still there and for one already dropped. */
  lemma DisconnectCases(s: M.State, id: nat, r: M.Outcome)
    requires Gives(s, Disconnect(id), r) && P.Out(s.pool, id) && M.Shape(s)
    ensures var op := s.pool.ops[id];
            if op.clientId !in s.clients then Gives(s, Free(id), r)
            else if op.clientFd !in s.open then r == M.Exited
            else Gives(s.(open := s.open - {op.clientFd}, clients := s.clients - {op.clientId}), Free(id), r)
  {
    assert GivesIs(s, Disconnect(id), r);
    assert DisconnectIs(s, id, r);
  }

  lemma AcceptHalves(s: M.State, id: nat, fd: int, t: M.State, u: M.State, r: M.Outcome)
    requires Gives(s, Accept(id, fd), r) && Gives(s, First(id, fd), M.Live(t)) && Gives(t, More, M.Live(u))
    ensures r == M.Live(u)
  {
    assert GivesIs(s, Accept(id, fd), r);
    assert GivesIs(s, First(id, fd), M.Live(t));
    assert GivesIs(t, More, M.Live(u));
    assert AcceptIs(s, id, fd, r) && FirstIs(s, id, fd, M.Live(t)) && MoreIs(t, M.Live(u));
  }

  lemma NamedThenAnswered(s: M.State, op: O.Operation, f: M.Frame, t: M.State, reply: seq<byte>, u: M.State)
    requires Gives(s, Rename(op.clientId, f.bytes), M.Live(t)) && reply == M.ReplyBytes(f.bytes, f.seqid)
    requires Gives(t, Answer(op.clientFd, op.clientId, reply), M.Live(u))
    ensures Gives(s, Name(op, f), M.Live(u))
  {
    RenameGiven(s, op.clientId, f.bytes, M.Live(t));
    AnswerGiven(t, op.clientFd, op.clientId, reply, M.Live(u));
    assert NameIs(s, op, f, M.Live(u));
  }

  /** Handling a request leaves the operation it came with, and its client, where they are. */
  lemma NameKeeps(s: M.State, id: nat, op: O.Operation, f: M.Frame, t: M.State, ret: int)
    requires M.Shape(s) && P.Out(s.pool, id) && op.clientId in s.clients
    requires if ret == -1 then t == s else Gives(s, Name(op, f), M.Live(t))
    ensures P.Out(t.pool, id) && t.pool.ops[id] == s.pool.ops[id] && op.clientId in t.clients
  {
    if ret != -1 {
      NameGiven(s, op, f, M.Live(t));
      P.CheckOutFrame(s.pool, M.SendOp(s, op.clientFd, op.clientId, |M.ReplyBytes(f.bytes, f.seqid)|));
    }
  }

  /** The two ends of `handle_recv`. */
  lemma FinishCases(s: M.State, id: nat, end: M.Ending, r: M.Outcome)
    requires Gives(s, Finish(id, end), r) && M.Shape(s)
    ensures if end.Reject? then Gives(s, Disconnect(id), r) else r == M.Rearm(s, id, end)
  {
    assert GivesIs(s, Finish(id, end), r);
    assert FinishIs(s, id, end, r);
  }

  /** A receive of no bytes is a disconnect. */
  lemma EmptyReceive(s: M.State, id: nat, r: M.Outcome)
    requires Gives(s, Recv(id, 0), r) && M.Shape(s)
    ensures Gives(s, Disconnect(id), r)
  {
    assert GivesIs(s, Recv(id, 0), r);
    assert RecvIs(s, id, 0, r);
  }

  lemma ServedNext(s: M.State, op: O.Operation, done: seq<M.Frame>, t: M.State, f: M.Frame, u: M.State)
    requires Serves(s, op, done, t) && Gives(t, Name(op, f), M.Live(u))
    ensures Serves(s, op, done + [f], u)
  {
    NameGiven(t, op, f, M.Live(u));
    assert ServesIs(s, op, done, t);
    assert (done + [f])[..|done|] == done;
  }

  /** What `handle_recv` does once its loop has ended. */
  lemma RecvEnds(s: M.State, id: nat, n: nat, op: O.Operation, data: seq<byte>, end: M.Ending, t: M.State, r: M.Outcome)
    requires M.Shape(s) && P.Out(s.pool, id) && op == s.pool.ops[id] && op.clientId in s.clients
    requires op.buf.Some? && M.Resolves(s.mem, op.buf.value) && data == M.BufAt(s.mem, op.buf.value).data
    requires 0 < n <= |data| && Finishes(data, n, s, op, end, t) && Gives(s, Recv(id, n), r)
    ensures !end.Spin? ==> M.Shape(t) && op.clientId in t.clients
    ensures end.Stop? ==> end.pos + end.rem <= n
    ensures if end.Spin? then r == M.Exited else Gives(t, Finish(id, end), r)
  {
    EndMeans(data, n, s, op, end, t);
    RecvGiven(s, id, n, r);
    ServerRuns.RecvEquation(s, id, n, op, data);
    if !end.Spin? { FinishGives(t, id, end, r); }
  }

  lemma {:induction false} EndMeans(data: seq<byte>, n: nat, s: M.State, op: O.Operation, end: M.Ending, t: M.State)
    requires Finishes(data, n, s, op, end, t)
    ensures n <= |data| && end == M.Parse(data, 0, n).end
    ensures !end.Spin? ==>
              && M.Shape(s) && op.clientId in s.clients && t == M.Serve(s, op, M.Parse(data, 0, n).frames)
              && M.Shape(t) && op.clientId in t.clients
  {
    var done :| ParsesTo(data, n, M.Parsed(done, end)) && (!end.Spin? ==> Serves(s, op, done, t));
    assert ParsesToIs(data, n, M.Parsed(done, end));
    assert !end.Spin? ==> ServesIs(s, op, done, t);
  }

  lemma FinishGives(s: M.State, id: nat, end: M.Ending, r: M.Outcome)
    requires FinishIs(s, id, end, r)
    ensures Gives(s, Finish(id, end), r)
  {
  }

  /** The submission of a completion is the one its operation calls for, and lies in the operation's buffer. */
  predicate Lands(s: M.State, c: M.Completion, off: nat)
    requires M.Allowed(s, c)
  {
    && c.id < |s.pool.ops| && s.pool.ops[c.id].buf.Some?
    && var op, q := s.pool.ops[c.id], M.Pending(s.ring, c.id)[c.which];
       match op.kind
       case OpAccept => q == M.AcceptSqe(op.clientId)
       case OpRead =>
         && q.RecvSqe? && q.buf == op.buf.value && off == q.off && q.off + q.len <= M.LARGE
         && op.buf.value.cap == M.LARGE
       case OpWrite =>
         && q.SendSqe? && q.buf == op.buf.value && off == q.off && c.id in s.acked
         && M.Resolves(s.mem, q.buf) && q.off + q.len <= |M.BufAt(s.mem, q.buf).data|
  }

  /** What the handlers need to know about a completion, and what the state machine makes of it. */
  ghost predicate FittingIs(s: M.State, c: M.Completion, off: nat, r: M.Outcome) {
    && M.Shape(s) && M.Allowed(s, c) && r == M.Step(s, c)
    && P.Out(s.pool, c.id) && Lands(s, c, off) && s.nextId !in s.clients
    && (s.pool.ops[c.id].kind == O.OpRead ==> s.pool.ops[c.id].bufCap == M.LARGE && c.res <= M.LARGE)
  }

  /** The same, unfolded only where `FittingIs` is named. */
  ghost predicate Fitting(s: M.State, c: M.Completion, off: nat, r: M.Outcome) {
    forall d {:trigger FittingIs(s, d, off, r)} :: d == c ==> FittingIs(s, d, off, r)
  }

  /** The invariant says where every pending submission lands. */
  lemma PendingLands(s: M.State, c: M.Completion, off: nat)
    requires I.Inv(s) && M.Allowed(s, c)
    requires var q := M.Pending(s.ring, c.id)[c.which]; !q.AcceptSqe? ==> off == q.off
    ensures FittingIs(s, c, off, M.Step(s, c))
  {
    assert I.SubOk(s, c.id) && I.HoldsBuf(s.pool.ops[c.id], s.mem);
  }

  lemma Fits(s: M.State, c: M.Completion, off: nat, r: M.Outcome)
    requires Fitting(s, c, off, r)
    ensures M.Shape(s) && M.Allowed(s, c) && P.Out(s.pool, c.id) && Lands(s, c, off) && s.nextId !in s.clients
    ensures s.pool.ops[c.id].kind == O.OpRead ==> s.pool.ops[c.id].bufCap == M.LARGE && c.res <= M.LARGE
  {
    assert FittingIs(s, c, off, r);
  }

  lemma StepDelivered(s: M.State, c: M.Completion, off: nat, t: M.State, r: M.Outcome)
    requires Fitting(s, c, off, r) && M.Shape(s) && M.Allowed(s, c) && M.Deliver(s, c) == M.Live(t)
    ensures Gives(t, Cqe(c), r) && t.clients == s.clients && t.nextId == s.nextId
  {
    FittingStep(s, c, off, r);
    StepIsDispatch(s, c, t);
    assert CqeIs(t, c, r);
  }

  lemma FittingStep(s: M.State, c: M.Completion, off: nat, r: M.Outcome)
    requires Fitting(s, c, off, r)
    ensures M.Shape(s) && M.Allowed(s, c) && r == M.Step(s, c)
  {
    assert FittingIs(s, c, off, r);
  }

  lemma StepIsDispatch(s: M.State, c: M.Completion, t: M.State)
    requires M.Shape(s) && M.Allowed(s, c) && M.Deliver(s, c) == M.Live(t)
    ensures M.Shape(t) && M.Step(s, c) == M.Dispatch(t, c) && t.clients == s.clients && t.nextId == s.nextId
  {
  }

  /** The step of the state machine, which the invariant makes safe. */
  lemma StepOf(s: M.State, c: M.Completion, off: nat) returns (r: M.Outcome)
    requires I.Inv(s) && M.Allowed(s, c)
    requires var q := M.Pending(s.ring, c.id)[c.which]; !q.AcceptSqe? ==> off == q.off
    ensures M.Shape(s) && r == M.Step(s, c) && Fitting(s, c, off, r)
    ensures c.id < |s.pool.ops| && !r.Broken? && (r.Exited? <==> ServerRuns.ExitCause(s, c))
    ensures r.OverRead? <==> ServerRuns.OverReadCause(s, c)
    ensures r.Live? ==> I.Inv(r.s)
  {
    r := M.Step(s, c);
    ServerRuns.StepSafe(s, c);
    PendingLands(s, c, off);
  }

  lemma StartIs(t: M.State)
    requires Gives(M.Initial(), More, M.Live(t))
    ensures M.Start() == M.Live(t) && I.Inv(t)
  {
    assert GivesIs(M.Initial(), More, M.Live(t));
    assert MoreIs(M.Initial(), M.Live(t));
    ServerRuns.StartInv();
  }

  /** The kernel may report `c` now, and its bytes land at `off`. */
  ghost predicate Reports(r: M.Outcome, c: M.Completion, off: nat) {
    r.Live? ==>
      && M.Allowed(r.s, c)
      && var q := M.Pending(r.s.ring, c.id)[c.which]; !q.AcceptSqe? ==> off == q.off
  }

  ghost predicate ReportsAll(s: M.State, cs: seq<M.Completion>, offs: seq<nat>)
    requires M.Shape(s)
  {
    |offs| == |cs| && forall i :: 0 <= i < |cs| ==> Reports(M.RunFrom(M.Live(s), cs[..i]), cs[i], offs[i])
  }

  /** After `i` completions the run from `s` stands at `t`. */
  ghost predicate ReachesIs(s: M.State, cs: seq<M.Completion>, offs: seq<nat>, i: nat, t: M.State) {
    && I.Inv(s) && ReportsAll(s, cs, offs) && i <= |cs|
    && I.Inv(t) && M.RunFrom(M.Live(s), cs[..i]) == M.Live(t)
  }

  /** The same, unfolded only where `ReachesIs` is named. */
  ghost predicate Reaches(s: M.State, cs: seq<M.Completion>, offs: seq<nat>, i: nat, t: M.State) {
    forall j {:trigger ReachesIs(s, cs, offs, j, t)} :: j == i ==> ReachesIs(s, cs, offs, j, t)
  }

  lemma RunStarts(s: M.State, cs: seq<M.Completion>, offs: seq<nat>)
    requires I.Inv(s) && ReportsAll(s, cs, offs)
    ensures Reaches(s, cs, offs, 0, s)
  {
  }

  lemma {:induction false} RunEnds(s: M.State, cs: seq<M.Completion>, offs: seq<nat>, t: M.State)
    requires Reaches(s, cs, offs, |cs|, t)
    ensures M.Shape(s) && I.Inv(t) && M.RunFrom(M.Live(s), cs) == M.Live(t)
  {
    assert ReachesIs(s, cs, offs, |cs|, t);
    assert cs[..|cs|] == cs;
  }

  lemma {:induction false} RunNext(s: M.State, cs: seq<M.Completion>, i: nat)
    requires M.Shape(s) && i < |cs|
    ensures M.RunFrom(M.Live(s), cs[..i + 1]) == M.Next(M.RunFrom(M.Live(s), cs[..i]), cs[i])
  {
    assert cs[..i + 1][..i] == cs[..i];
  }

  /** A run that has ended stays as it ended. */
  lemma {:induction false} RunStops(s: M.State, cs: seq<M.Completion>, i: nat)
    requires M.Shape(s) && i <= |cs| && !M.RunFrom(M.Live(s), cs[..i]).Live?
    ensures M.RunFrom(M.Live(s), cs) == M.RunFrom(M.Live(s), cs[..i])
    decreases |cs| - i
  {
    if i < |cs| {
      RunNext(s, cs, i);
      RunStops(s, cs, i + 1);
    } else {
      assert cs[..i] == cs;
    }
  }

  /** A client that was there when the run began and is there after the next step has been there in between. */
  lemma {:induction false} ThereBetween(s: M.State, cs: seq<M.Completion>, i: nat, t: M.State, k: nat)
    requires I.Inv(s) && i < |cs| && M.RunFrom(M.Live(s), cs[..i]) == M.Live(t) && k in s.clients
    ensures var r := M.Next(M.Live(t), cs[i]); r.Live? && k in r.s.clients ==> k in t.clients
  {
    ServerTheorems.StillYounger(M.Live(s), cs[..i], k);
    ServerRuns.RunFromSafe(M.Live(s), cs[..i]);
    var r := M.Next(M.Live(t), cs[i]);
    if r.Live? && k in r.s.clients { ServerTheorems.NextWasThere(M.Live(t), cs[i], k); }
  }

  /** The next step of a run. */
  lemma RunStep(s: M.State, cs: seq<M.Completion>, offs: seq<nat>, i: nat, t: M.State) returns (r: M.Outcome)
    requires i < |cs| == |offs| && Reaches(s, cs, offs, i, t)
    ensures M.Shape(s) && Fitting(t, cs[i], offs[i], r) && !r.Broken?
    ensures r.Live? ==> Reaches(s, cs, offs, i + 1, r.s)
    ensures !r.Live? ==> M.RunFrom(M.Live(s), cs) == r
    ensures r.Live? ==> forall k :: k in s.clients && k in r.s.clients ==> k in t.clients
  {
    assert ReachesIs(s, cs, offs, i, t);
    assert Reports(M.RunFrom(M.Live(s), cs[..i]), cs[i], offs[i]);
    r := StepOf(t, cs[i], offs[i]);
    RunNext(s, cs, i);
    if !r.Live? { RunStops(s, cs, i + 1); }
    forall k | r.Live? && k in s.clients && k in r.s.clients ensures k in t.clients {
      ThereBetween(s, cs, i, t, k);
    }
  }
}
